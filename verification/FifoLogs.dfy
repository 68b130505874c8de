/**
 The records of the FIFO protocol's state against the events of a run: nothing that
 happens is missing from them, and nothing is in them that did not happen.
 */
module FifoLogs {
  import opened Bits
  import opened Frames
  import opened FifoProtocol

  /** How often a kind of move happens in a trace. */
  function Count(trace: seq<Event>, kind: Move -> bool): nat {
    if trace == [] then 0
    else
      var k := |trace| - 1;
      Count(trace[..k], kind) + if trace[k].Act? && kind(trace[k].move) then 1 else 0
  }

  function Waits(trace: seq<Event>): nat {
    Count(trace, (m: Move) => m.Acquire?)
  }

  function Releases(trace: seq<Event>): nat {
    Count(trace, (m: Move) => m.Release?)
  }

  function Receptions(trace: seq<Event>): nat {
    Count(trace, (m: Move) => m.BeginReceive?)
  }

  /** The frames that arrive in a trace. */
  function Arrivals(trace: seq<Event>): seq<RxFrame> {
    if trace == [] then []
    else
      var k := |trace| - 1;
      match trace[k]
      case Arrive(f) => Arrivals(trace[..k]) + [f]
      case Act(_, _) => Arrivals(trace[..k])
  }

  /** The frames submitted in a trace, in order. */
  function Submissions(trace: seq<Event>): seq<Submission> {
    if trace == [] then []
    else
      var k := |trace| - 1;
      match trace[k]
      case Act(t, StartSend(f)) => Submissions(trace[..k]) + [Submission(t, f)]
      case _ => Submissions(trace[..k])
  }

  /** What the accepted transfers of the first `k` events were clocking out. */
  function Accepted(states: seq<State>, trace: seq<Event>, k: nat): seq<Sent>
    requires k <= |trace| < |states|
  {
    if k == 0 then []
    else
      var before := Accepted(states, trace, k - 1);
      match trace[k - 1]
      case Act(t, EndClock(true)) =>
        (match PcOf(states[k - 1], t)
         case Clocking(_, ticket, out) => before + [Sent(ticket, out)]
         case _ => before)
      case _ => before
  }

  /** How the receptions that end in the first `k` events end. */
  function Endings(states: seq<State>, trace: seq<Event>, k: nat): seq<Fate>
    requires k <= |trace| < |states|
  {
    if k == 0 then []
    else
      var before := Endings(states, trace, k - 1);
      match trace[k - 1]
      case Act(_, EndReceive(false)) => before + [Dropped]
      case Act(t, Alloc(false)) =>
        (match PcOf(states[k - 1], t)
         case Released(Got(_, _)) => before + [Dropped]
         case _ => before)
      case Act(t, Deliver) =>
        (match PcOf(states[k - 1], t)
         case Copying(header, _, copied) => before + [Delivered(header + copied)]
         case _ => before)
      case _ => before
  }

  /** One event in the records of the frames. */
  lemma {:induction false} RecordedStep(cfg: Config, s: State, t: nat, m: Move)
    requires CanMove(cfg, s, t, PcOf(s, t), m)
    ensures var pc, s' := PcOf(s, t), Step(cfg, s, Act(t, m));
      && s'.sent == (if m == EndClock(true) then s.sent + [Sent(pc.ticket, pc.out)] else s.sent)
      && s'.fates == s.fates +
           (if m == EndReceive(false) || (m == Alloc(false) && pc.reading.Got?) then [Dropped]
            else if m.Deliver? then [Delivered(pc.header + pc.copied)] else [])
  {
  }

  /** Every transfer that is accepted is on record, in order, with what was clocked out, and nothing else is. */
  lemma {:induction false} SentIsAccepted(cfg: Config, states: seq<State>, trace: seq<Event>, k: nat)
    requires IsRun(cfg, states, trace) && k <= |trace|
    ensures states[k].sent == Accepted(states, trace, k)
  {
    if k > 0 {
      SentIsAccepted(cfg, states, trace, k - 1);
      assert Next(cfg, states[k - 1], trace[k - 1], states[k]);
      if trace[k - 1].Act? {
        RecordedStep(cfg, states[k - 1], trace[k - 1].task, trace[k - 1].move);
      }
    }
  }

  /** Every reception that ends is on record with its end. */
  lemma {:induction false} FatesAreEndings(cfg: Config, states: seq<State>, trace: seq<Event>, k: nat)
    requires IsRun(cfg, states, trace) && k <= |trace|
    ensures states[k].fates == Endings(states, trace, k)
  {
    if k > 0 {
      FatesAreEndings(cfg, states, trace, k - 1);
      assert Next(cfg, states[k - 1], trace[k - 1], states[k]);
      if trace[k - 1].Act? {
        RecordedStep(cfg, states[k - 1], trace[k - 1].task, trace[k - 1].move);
      }
    }
  }

  lemma {:induction false} RecordedArrival(cfg: Config, s: State, e: Event)
    requires Enabled(cfg, s, e) && s.arrived == s.popped + s.rxFifo
    ensures var s' := Step(cfg, s, e);
      && s'.arrived == (if e.Arrive? then s.arrived + [e.frame] else s.arrived)
      && s'.arrived == s'.popped + s'.rxFifo
  {
  }

  /** No frame that arrives is lost before it is taken out. */
  lemma {:induction false} ArrivalsOnRecord(cfg: Config, states: seq<State>, trace: seq<Event>, k: nat)
    requires IsRun(cfg, states, trace) && k <= |trace|
    ensures states[k].arrived == Arrivals(trace[..k]) == states[k].popped + states[k].rxFifo
  {
    if k > 0 {
      ArrivalsOnRecord(cfg, states, trace, k - 1);
      assert Next(cfg, states[k - 1], trace[k - 1], states[k]);
      RecordedArrival(cfg, states[k - 1], trace[k - 1]);
      assert trace[..k][..k - 1] == trace[..k - 1];
    }
  }

  lemma {:induction false} ReceptionsOnRecord(cfg: Config, states: seq<State>, trace: seq<Event>, k: nat)
    requires IsRun(cfg, states, trace) && k <= |trace|
    ensures |states[k].popped| == Receptions(trace[..k])
  {
    if k > 0 {
      ReceptionsOnRecord(cfg, states, trace, k - 1);
      assert Next(cfg, states[k - 1], trace[k - 1], states[k]);
      assert trace[..k][..k - 1] == trace[..k - 1];
    }
  }

  lemma {:induction false} SubmissionsOnRecord(cfg: Config, states: seq<State>, trace: seq<Event>, k: nat)
    requires IsRun(cfg, states, trace) && k <= |trace|
    ensures states[k].submitted == Submissions(trace[..k])
  {
    if k > 0 {
      SubmissionsOnRecord(cfg, states, trace, k - 1);
      assert Next(cfg, states[k - 1], trace[k - 1], states[k]);
      assert trace[..k][..k - 1] == trace[..k - 1];
    }
  }

  /** The turns that tasks get with the mutex are counted. */
  lemma {:induction false} TurnsOnRecord(cfg: Config, states: seq<State>, trace: seq<Event>, k: nat)
    requires IsRun(cfg, states, trace) && k <= |trace|
    ensures states[k].grants == Waits(trace[..k]) && states[k].releases == Releases(trace[..k])
  {
    if k > 0 {
      TurnsOnRecord(cfg, states, trace, k - 1);
      assert Next(cfg, states[k - 1], trace[k - 1], states[k]);
      assert trace[..k][..k - 1] == trace[..k - 1];
    }
  }
}
