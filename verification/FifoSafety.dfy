/**
 What every step of the FIFO protocol keeps: who holds the mutex, what the driver's
 buffer holds for its holder, which submissions have been sent, and what has become of
 the frames taken out of the FIFO.
 */
module FifoSafety {
  import opened Bits
  import opened Frames
  import opened FifoProtocol
  import opened FifoLogs

  // ---------------------------------------------------------------- the lock

  /**
   The owner and nobody else is between wait and release, and every successful wait but a
   last one has been matched by a release.
   */
  ghost predicate LockInv(s: State) {
    && (forall t: nat :: HoldsLock(PcOf(s, t)) <==> s.owner == Some(t))
    && s.grants == s.releases + (if s.owner.Some? then 1 else 0)
  }

  lemma {:induction false} LockInvStep(cfg: Config, s: State, e: Event)
    requires cfg.locking && LockInv(s) && Enabled(cfg, s, e)
    ensures LockInv(Step(cfg, s, e))
  {
    var s' := Step(cfg, s, e);
    forall t: nat ensures HoldsLock(PcOf(s', t)) <==> s'.owner == Some(t) {
      assert HoldsLock(PcOf(s, t)) <==> s.owner == Some(t);
    }
  }

  // ---------------------------------------------------------------- what is submitted

  /** The sending job that a task is busy with. */
  function Outgoing(pc: Pc): Option<Job> {
    match pc
    case Waiting(Send(f, n)) => Some(Send(f, n))
    case Locked(Send(f, n)) => Some(Send(f, n))
    case InDriver(Send(f, n)) => Some(Send(f, n))
    case Filling(f, n, _) => Some(Send(f, n))
    case Clocking(f, n, _) => Some(Send(f, n))
    case _ => None
  }

  /** The task's latest submission, not sent so far. */
  ghost predicate Pending(s: State, t: nat, job: Job) {
    && job.Send? && job.ticket < |s.submitted| && s.submitted[job.ticket] == Submission(t, job.frame)
    && (forall k :: job.ticket < k < |s.submitted| ==> s.submitted[k].task != t)
    && forall i :: 0 <= i < |s.sent| ==> s.sent[i].ticket != job.ticket
  }

  /** No submission is sent twice, and the submissions of one task are sent in their order. */
  ghost predicate SentOnceInOrder(s: State) {
    && (forall i :: 0 <= i < |s.sent| ==> s.sent[i].ticket < |s.submitted|)
    && forall i, j :: 0 <= i < j < |s.sent| ==>
         var m, n := s.sent[i].ticket, s.sent[j].ticket;
         m != n && (s.submitted[m].task == s.submitted[n].task ==> m < n)
  }

  ghost predicate TicketInv(s: State) {
    && SentOnceInOrder(s)
    && forall t: nat :: Outgoing(PcOf(s, t)).Some? ==> Pending(s, t, Outgoing(PcOf(s, t)).value)
  }

  /** A task keeps its job as it is until it starts the next one. */
  lemma {:induction false} OutgoingStep(cfg: Config, s: State, t: nat, m: Move)
    requires CanMove(cfg, s, t, PcOf(s, t), m)
    ensures var before, after := Outgoing(PcOf(s, t)), Outgoing(PcOf(Step(cfg, s, Act(t, m)), t));
      if m.StartSend? then before == None && after == Some(Send(m.outgoing, |s.submitted|))
      else after == None || (after == before && m != EndClock(true))
    ensures m == EndClock(true) ==>
      Outgoing(PcOf(s, t)) == Some(Send(PcOf(s, t).frame, PcOf(s, t).ticket))
  {
  }

  /** A move of task `t` and the pending job of another task. */
  lemma {:induction false} PendingElsewhere(cfg: Config, s: State, t: nat, m: Move, u: nat, job: Job)
    requires TicketInv(s) && CanMove(cfg, s, t, PcOf(s, t), m) && u != t && Pending(s, u, job)
    ensures Pending(Step(cfg, s, Act(t, m)), u, job)
  {
    OutgoingStep(cfg, s, t, m);
    assert Outgoing(PcOf(s, t)).Some? ==> Pending(s, t, Outgoing(PcOf(s, t)).value);
  }

  lemma {:induction false} PendingStep(cfg: Config, s: State, t: nat, m: Move)
    requires TicketInv(s) && CanMove(cfg, s, t, PcOf(s, t), m)
    ensures var s' := Step(cfg, s, Act(t, m));
      Outgoing(PcOf(s', t)).Some? ==> Pending(s', t, Outgoing(PcOf(s', t)).value)
  {
    OutgoingStep(cfg, s, t, m);
    assert Outgoing(PcOf(s, t)).Some? ==> Pending(s, t, Outgoing(PcOf(s, t)).value);
  }

  lemma {:induction false} SentStep(cfg: Config, s: State, t: nat, m: Move)
    requires TicketInv(s) && CanMove(cfg, s, t, PcOf(s, t), m)
    ensures SentOnceInOrder(Step(cfg, s, Act(t, m)))
  {
    assert Outgoing(PcOf(s, t)).Some? ==> Pending(s, t, Outgoing(PcOf(s, t)).value);
  }

  lemma {:induction false} TicketInvStep(cfg: Config, s: State, e: Event)
    requires TicketInv(s) && Enabled(cfg, s, e)
    ensures TicketInv(Step(cfg, s, e))
  {
    var s' := Step(cfg, s, e);
    if e.Act? {
      SentStep(cfg, s, e.task, e.move);
    }
    forall u: nat | Outgoing(PcOf(s', u)).Some? ensures Pending(s', u, Outgoing(PcOf(s', u)).value) {
      assert Outgoing(PcOf(s, u)).Some? ==> Pending(s, u, Outgoing(PcOf(s, u)).value);
      if e.Act? && u == e.task {
        PendingStep(cfg, s, u, e.move);
      } else if e.Act? {
        PendingElsewhere(cfg, s, e.task, e.move, u, Outgoing(PcOf(s, u)).value);
      }
    }
  }

  // ---------------------------------------------------------------- the driver's buffer, sending

  /** Every frame the transceiver accepted went out as what transmission makes of its submission. */
  ghost predicate SentIntact(cfg: Config, s: State) {
    forall i :: 0 <= i < |s.sent| ==>
      && s.sent[i].ticket < |s.submitted|
      && s.sent[i].wire == Transmitted(s.submitted[s.sent[i].ticket].frame, cfg.mac)
  }

  /** The driver's buffer holds as much of the task's frame as has been copied into it. */
  predicate Prepared(cfg: Config, pc: Pc, scratch: Buffer) {
    match pc
    case Filling(f, _, done) =>
      done <= |f| && scratch[TX_OFFSET..TX_OFFSET + done] == Transmitted(f, cfg.mac)[..done]
    case Clocking(f, _, out) =>
      scratch[TX_OFFSET..TX_OFFSET + |f|] == Transmitted(f, cfg.mac) && out <= Transmitted(f, cfg.mac)
    case _ => true
  }

  ghost predicate WireInv(cfg: Config, s: State) {
    SentIntact(cfg, s) && forall t: nat :: Prepared(cfg, PcOf(s, t), s.scratch)
  }

  lemma {:induction false} FillKeeps(cfg: Config, scratch: Buffer, f: Frame, ticket: nat, done: nat)
    requires done < |f| && Prepared(cfg, Filling(f, ticket, done), scratch)
    ensures Prepared(cfg, Filling(f, ticket, done + 1), scratch[TX_OFFSET + done := Transmitted(f, cfg.mac)[done]])
  {
    var w := Transmitted(f, cfg.mac);
    NextByte(scratch, TX_OFFSET, done, w[done]);
    assert w[..done + 1] == w[..done] + [w[done]];
  }

  lemma {:induction false} FilledIsWhole(cfg: Config, scratch: Buffer, f: Frame, ticket: nat)
    requires Prepared(cfg, Filling(f, ticket, |f|), scratch)
    ensures Prepared(cfg, Clocking(f, ticket, []), scratch)
  {
    assert Transmitted(f, cfg.mac)[..|f|] == Transmitted(f, cfg.mac);
  }

  lemma {:induction false} ClockKeeps(cfg: Config, scratch: Buffer, f: Frame, ticket: nat, out: seq<Byte>)
    requires |out| < |f| && Prepared(cfg, Clocking(f, ticket, out), scratch)
    ensures Prepared(cfg, Clocking(f, ticket, out + [scratch[TX_OFFSET + |out|]]), scratch)
  {
    var w := Transmitted(f, cfg.mac);
    assert w[|out|] == scratch[TX_OFFSET..TX_OFFSET + |f|][|out|];
    assert w[..|out| + 1] == w[..|out|] + [w[|out|]];
  }

  lemma {:induction false} ClockedIsWhole(cfg: Config, scratch: Buffer, f: Frame, ticket: nat, out: seq<Byte>)
    requires |out| == |f| && Prepared(cfg, Clocking(f, ticket, out), scratch)
    ensures out == Transmitted(f, cfg.mac)
  {
  }

  /** The moving task finds the buffer as it left it. */
  lemma {:induction false} PreparedStep(cfg: Config, s: State, t: nat, m: Move)
    requires Prepared(cfg, PcOf(s, t), s.scratch) && CanMove(cfg, s, t, PcOf(s, t), m)
    ensures var s' := Step(cfg, s, Act(t, m)); Prepared(cfg, PcOf(s', t), s'.scratch)
  {
    var pc := PcOf(s, t);
    match m
    case FillByte => FillKeeps(cfg, s.scratch, pc.frame, pc.ticket, pc.done);
    case BeginClock => FilledIsWhole(cfg, s.scratch, pc.frame, pc.ticket);
    case ClockByte => ClockKeeps(cfg, s.scratch, pc.frame, pc.ticket, pc.out);
    case _ =>
  }

  /** A task that has not got the mutex does not touch the driver's buffer. */
  lemma {:induction false} ScratchIsTheHolders(cfg: Config, s: State, t: nat, m: Move, u: nat)
    requires LockInv(s) && CanMove(cfg, s, t, PcOf(s, t), m) && u != t && HoldsLock(PcOf(s, u))
    ensures Step(cfg, s, Act(t, m)).scratch == s.scratch
  {
    assert HoldsLock(PcOf(s, t)) <==> s.owner == Some(t);
  }

  lemma {:induction false} SentIntactStep(cfg: Config, s: State, t: nat, m: Move)
    requires TicketInv(s) && WireInv(cfg, s) && CanMove(cfg, s, t, PcOf(s, t), m)
    ensures SentIntact(cfg, Step(cfg, s, Act(t, m)))
  {
    if m == EndClock(true) {
      var pc := PcOf(s, t);
      assert Pending(s, t, Outgoing(pc).value);
      assert Prepared(cfg, pc, s.scratch);
      ClockedIsWhole(cfg, s.scratch, pc.frame, pc.ticket, pc.out);
    }
  }

  lemma {:induction false} WireInvStep(cfg: Config, s: State, e: Event)
    requires LockInv(s) && TicketInv(s) && WireInv(cfg, s) && Enabled(cfg, s, e)
    ensures WireInv(cfg, Step(cfg, s, e))
  {
    var s' := Step(cfg, s, e);
    if e.Act? {
      SentIntactStep(cfg, s, e.task, e.move);
    }
    forall u: nat ensures Prepared(cfg, PcOf(s', u), s'.scratch) {
      assert Prepared(cfg, PcOf(s, u), s.scratch);
      if e.Act? {
        if u == e.task {
          PreparedStep(cfg, s, u, e.move);
        } else if HoldsLock(PcOf(s, u)) {
          ScratchIsTheHolders(cfg, s, e.task, e.move, u);
        }
      }
    }
  }

  // ---------------------------------------------------------------- the buffers, receiving

  /** Every frame taken out so far was delivered as it was, or dropped, in the order of arrival. */
  ghost predicate Faithful(s: State) {
    && s.arrived == s.popped + s.rxFifo
    && |s.fates| <= |s.popped| <= |s.fates| + 1
    && forall i :: 0 <= i < |s.fates| ==> s.fates[i] == Dropped || s.fates[i] == Delivered(s.popped[i])
  }

  /** Tasks that do not poll only ever send. */
  predicate Sending(pc: Pc) {
    match pc
    case Idle => true
    case Waiting(job) => job.Send?
    case Locked(job) => job.Send?
    case InDriver(job) => job.Send?
    case Filling(_, _, _) => true
    case Clocking(_, _, _) => true
    case Leaving(reading) => reading.Empty?
    case Released(reading) => reading.Empty?
    case _ => false
  }

  predicate HasFrame(pc: Pc) {
    match pc
    case Receiving(_, _) => true
    case HeaderOut(_, _) => true
    case PayloadOut(_, _, _) => true
    case Leaving(reading) => reading.Got?
    case Released(reading) => reading.Got?
    case Copying(_, _, _) => true
    case _ => false
  }

  /** What has been read so far is the header and the payload of `f`. */
  predicate ReadFrom(reading: Reading, rxBuff: Buffer, f: RxFrame) {
    && reading.Got? && reading.header == f[..ETH_HDR_LEN] && reading.len == |f|
    && rxBuff[..|f| - ETH_HDR_LEN] == f[ETH_HDR_LEN..]
  }

  /** The task is bringing in `f`, and the buffers hold as much of it as they should. */
  predicate Carries(pc: Pc, scratch: Buffer, rxBuff: Buffer, f: RxFrame) {
    match pc
    case Receiving(g, done) => g == f && done <= |f| && scratch[RX_OFFSET..RX_OFFSET + done] == f[..done]
    case HeaderOut(len, header) => len == |f| && scratch[RX_OFFSET..RX_OFFSET + |f|] == f && header <= f[..ETH_HDR_LEN]
    case PayloadOut(len, header, done) =>
      && len == |f| && scratch[RX_OFFSET..RX_OFFSET + |f|] == f && header == f[..ETH_HDR_LEN]
      && done <= |f| - ETH_HDR_LEN && rxBuff[..done] == f[ETH_HDR_LEN..ETH_HDR_LEN + done]
    case Leaving(reading) => ReadFrom(reading, rxBuff, f)
    case Released(reading) => ReadFrom(reading, rxBuff, f)
    case Copying(header, len, copied) => ReadFrom(Got(header, len), rxBuff, f) && copied <= f[ETH_HDR_LEN..]
    case _ => false
  }

  /** A task that brings in a frame brings in the last one that was taken out; nothing else is on its way. */
  ghost predicate Bringing(s: State, pc: Pc) {
    if HasFrame(pc)
    then |s.popped| == |s.fates| + 1 && Carries(pc, s.scratch, s.rxBuff, s.popped[|s.fates|])
    else |s.popped| == |s.fates|
  }

  /** With `p` the only task that may poll. */
  ghost predicate DataInv(s: State, p: nat) {
    && Faithful(s)
    && (forall t: nat :: t != p ==> Sending(PcOf(s, t)))
    && Bringing(s, PcOf(s, p))
  }

  lemma {:induction false} ReceiveKeeps(scratch: Buffer, rxBuff: Buffer, f: RxFrame, done: nat)
    requires done < |f| && Carries(Receiving(f, done), scratch, rxBuff, f)
    ensures Carries(Receiving(f, done + 1), scratch[RX_OFFSET + done := f[done]], rxBuff, f)
  {
    NextByte(scratch, RX_OFFSET, done, f[done]);
    assert f[..done + 1] == f[..done] + [f[done]];
  }

  lemma {:induction false} ReceivedIsWhole(scratch: Buffer, rxBuff: Buffer, f: RxFrame)
    requires Carries(Receiving(f, |f|), scratch, rxBuff, f)
    ensures Carries(HeaderOut(|f|, []), scratch, rxBuff, f)
  {
    assert f[..|f|] == f;
  }

  lemma {:induction false} HeaderKeeps(scratch: Buffer, rxBuff: Buffer, f: RxFrame, header: seq<Byte>)
    requires |header| < ETH_HDR_LEN && Carries(HeaderOut(|f|, header), scratch, rxBuff, f)
    ensures Carries(HeaderOut(|f|, header + [scratch[RX_OFFSET + |header|]]), scratch, rxBuff, f)
  {
    var h := f[..ETH_HDR_LEN];
    assert h[|header|] == scratch[RX_OFFSET..RX_OFFSET + |f|][|header|];
    assert h[..|header| + 1] == h[..|header|] + [h[|header|]];
  }

  lemma {:induction false} PayloadKeeps(scratch: Buffer, rxBuff: Buffer, f: RxFrame, header: seq<Byte>, done: nat)
    requires done < |f| - ETH_HDR_LEN && Carries(PayloadOut(|f|, header, done), scratch, rxBuff, f)
    ensures Carries(PayloadOut(|f|, header, done + 1),
                    scratch, rxBuff[done := scratch[RX_OFFSET + ETH_HDR_LEN + done]], f)
  {
    var x := scratch[RX_OFFSET + ETH_HDR_LEN + done];
    assert f[ETH_HDR_LEN + done] == scratch[RX_OFFSET..RX_OFFSET + |f|][ETH_HDR_LEN + done] == x;
    NextByte(rxBuff, 0, done, x);
    assert f[ETH_HDR_LEN..ETH_HDR_LEN + done + 1] == f[ETH_HDR_LEN..ETH_HDR_LEN + done] + [x];
  }

  lemma {:induction false} CopyKeeps(scratch: Buffer, rxBuff: Buffer, f: RxFrame, header: seq<Byte>, copied: seq<Byte>)
    requires |copied| < |f| - ETH_HDR_LEN && Carries(Copying(header, |f|, copied), scratch, rxBuff, f)
    ensures Carries(Copying(header, |f|, copied + [rxBuff[|copied|]]), scratch, rxBuff, f)
  {
    var payload := f[ETH_HDR_LEN..];
    assert payload[|copied|] == rxBuff[..|f| - ETH_HDR_LEN][|copied|];
    assert payload[..|copied| + 1] == payload[..|copied|] + [payload[|copied|]];
  }

  lemma {:induction false} CopiedIsWhole(
      scratch: Buffer, rxBuff: Buffer, f: RxFrame, header: seq<Byte>, copied: seq<Byte>)
    requires |copied| == |f| - ETH_HDR_LEN && Carries(Copying(header, |f|, copied), scratch, rxBuff, f)
    ensures header + copied == f
  {
    assert f == f[..ETH_HDR_LEN] + f[ETH_HDR_LEN..];
  }

  /** The poller's own moves while it has a frame. */
  lemma {:induction false} CarriesStep(cfg: Config, s: State, p: nat, m: Move, f: RxFrame)
    requires CanMove(cfg, s, p, PcOf(s, p), m) && HasFrame(PcOf(s, p))
    requires Carries(PcOf(s, p), s.scratch, s.rxBuff, f)
    ensures var s' := Step(cfg, s, Act(p, m));
      && (if HasFrame(PcOf(s', p))
          then s'.fates == s.fates && Carries(PcOf(s', p), s'.scratch, s'.rxBuff, f)
          else s'.fates == s.fates + [Dropped] || s'.fates == s.fates + [Delivered(f)])
      && s'.popped == s.popped && s'.rxFifo == s.rxFifo
  {
    var pc := PcOf(s, p);
    match m
    case ReceiveByte => ReceiveKeeps(s.scratch, s.rxBuff, f, pc.done);
    case EndReceive(_) => if pc.done == |f| { ReceivedIsWhole(s.scratch, s.rxBuff, f); }
    case HeaderByte => HeaderKeeps(s.scratch, s.rxBuff, f, pc.header);
    case PayloadByte => PayloadKeeps(s.scratch, s.rxBuff, f, pc.header, pc.done);
    case CopyByte => CopyKeeps(s.scratch, s.rxBuff, f, pc.header, pc.copied);
    case Deliver => CopiedIsWhole(s.scratch, s.rxBuff, f, pc.header, pc.copied);
    case _ =>
  }

  /** Moves of a task that has no frame: only taking one out of the FIFO matters here. */
  lemma {:induction false} OutsideStep(cfg: Config, s: State, t: nat, m: Move)
    requires CanMove(cfg, s, t, PcOf(s, t), m) && !HasFrame(PcOf(s, t))
    ensures var s' := Step(cfg, s, Act(t, m));
      && s'.fates == s.fates && s'.rxBuff == s.rxBuff && s'.arrived == s.arrived
      && (if m.BeginReceive?
          then
            && PcOf(s', t) == Receiving(s.rxFifo[0], 0)
            && s'.popped == s.popped + [s.rxFifo[0]] && s'.rxFifo == s.rxFifo[1..]
          else !HasFrame(PcOf(s', t)) && s'.popped == s.popped && s'.rxFifo == s.rxFifo)
  {
  }

  lemma {:induction false} SenderStaysSender(cfg: Config, s: State, t: nat, m: Move)
    requires CanMove(cfg, s, t, PcOf(s, t), m) && Sending(PcOf(s, t)) && t !in cfg.pollers
    ensures !m.BeginReceive? && Sending(PcOf(Step(cfg, s, Act(t, m)), t))
  {
  }

  lemma {:induction false} OthersKeepSending(cfg: Config, s: State, t: nat, m: Move, p: nat)
    requires forall u: nat :: u != p ==> Sending(PcOf(s, u))
    requires CanMove(cfg, s, t, PcOf(s, t), m) && (t != p ==> t !in cfg.pollers)
    ensures forall u: nat :: u != p ==> Sending(PcOf(Step(cfg, s, Act(t, m)), u))
  {
    forall u: nat | u != p ensures Sending(PcOf(Step(cfg, s, Act(t, m)), u)) {
      assert Sending(PcOf(s, u));
      if u == t {
        SenderStaysSender(cfg, s, t, m);
      }
    }
  }

  /** A sender's move does not disturb the poller. */
  lemma {:induction false} SenderStep(cfg: Config, s: State, t: nat, m: Move, p: nat)
    requires LockInv(s) && DataInv(s, p) && t != p && t !in cfg.pollers && CanMove(cfg, s, t, PcOf(s, t), m)
    ensures DataInv(Step(cfg, s, Act(t, m)), p)
  {
    assert Sending(PcOf(s, t));
    SenderStaysSender(cfg, s, t, m);
    OthersKeepSending(cfg, s, t, m, p);
    OutsideStep(cfg, s, t, m);
    if HoldsLock(PcOf(s, p)) {
      ScratchIsTheHolders(cfg, s, t, m, p);
    }
  }

  /** The poller's move keeps what it has read, and ends each frame with a delivery or a drop. */
  lemma {:induction false} PollerStep(cfg: Config, s: State, p: nat, m: Move)
    requires DataInv(s, p) && CanMove(cfg, s, p, PcOf(s, p), m)
    ensures DataInv(Step(cfg, s, Act(p, m)), p)
  {
    OthersKeepSending(cfg, s, p, m, p);
    if HasFrame(PcOf(s, p)) {
      CarriesStep(cfg, s, p, m, s.popped[|s.fates|]);
    } else {
      OutsideStep(cfg, s, p, m);
    }
  }

  lemma {:induction false} DataInvStep(cfg: Config, s: State, e: Event, p: nat)
    requires cfg.pollers <= {p} && LockInv(s) && DataInv(s, p) && Enabled(cfg, s, e)
    ensures DataInv(Step(cfg, s, e), p)
  {
    match e
    case Arrive(_) =>
      forall t: nat | t != p ensures Sending(PcOf(Step(cfg, s, e), t)) {
        assert Sending(PcOf(s, t));
      }
    case Act(t, m) =>
      if t == p {
        PollerStep(cfg, s, p, m);
      } else {
        SenderStep(cfg, s, t, m, p);
      }
  }

  // ---------------------------------------------------------------- over every run

  /** Whoever holds the mutex: tickets name submissions of the trace, each is sent at most once, a task's in order. */
  lemma {:induction false} SentOnce(cfg: Config, states: seq<State>, trace: seq<Event>, k: nat)
    requires IsRun(cfg, states, trace) && k <= |trace|
    ensures states[k].submitted == Submissions(trace[..k])
    ensures TicketInv(states[k])
  {
    SubmissionsOnRecord(cfg, states, trace, k);
    if k > 0 {
      SentOnce(cfg, states, trace, k - 1);
      assert Next(cfg, states[k - 1], trace[k - 1], states[k]);
      TicketInvStep(cfg, states[k - 1], trace[k - 1]);
    }
  }

  /** The last submission of a task. */
  function LatestOf(submitted: seq<Submission>, t: nat): int {
    LastWhere(submitted, (x: Submission) => x.task == t)
  }

  /** For each accepted transfer of a trace, the last submission of its task before it. */
  function AcceptedSubmissions(trace: seq<Event>): seq<int> {
    if trace == [] then []
    else
      var k := |trace| - 1;
      var before := AcceptedSubmissions(trace[..k]);
      match trace[k]
      case Act(t, EndClock(true)) => before + [LatestOf(Submissions(trace[..k]), t)]
      case _ => before
  }

  lemma {:induction false} PendingIsLatest(s: State, t: nat, job: Job)
    requires Pending(s, t, job)
    ensures LatestOf(s.submitted, t) == job.ticket
  {
  }

  /** The sent frames are, one for one and in order, the submissions that the trace says were accepted. */
  lemma {:induction false} SentAreAcceptedSubmissions(cfg: Config, states: seq<State>, trace: seq<Event>, k: nat)
    requires IsRun(cfg, states, trace) && k <= |trace|
    ensures |states[k].sent| == |AcceptedSubmissions(trace[..k])|
    ensures forall i :: 0 <= i < |states[k].sent| ==> states[k].sent[i].ticket == AcceptedSubmissions(trace[..k])[i]
  {
    if k > 0 {
      var s, e := states[k - 1], trace[k - 1];
      SentAreAcceptedSubmissions(cfg, states, trace, k - 1);
      SentOnce(cfg, states, trace, k - 1);
      assert Next(cfg, s, e, states[k]);
      assert trace[..k][..k - 1] == trace[..k - 1];
      if e.Act? {
        RecordedStep(cfg, s, e.task, e.move);
        if e.move == EndClock(true) {
          assert Outgoing(PcOf(s, e.task)).Some?;
          PendingIsLatest(s, e.task, Outgoing(PcOf(s, e.task)).value);
        }
      }
    }
  }

  lemma {:induction false} LockKeepsInv(cfg: Config, states: seq<State>, trace: seq<Event>, k: nat)
    requires cfg.locking && IsRun(cfg, states, trace) && k <= |trace|
    ensures LockInv(states[k]) && WireInv(cfg, states[k])
  {
    if k > 0 {
      LockKeepsInv(cfg, states, trace, k - 1);
      SentOnce(cfg, states, trace, k - 1);
      assert Next(cfg, states[k - 1], trace[k - 1], states[k]);
      LockInvStep(cfg, states[k - 1], trace[k - 1]);
      WireInvStep(cfg, states[k - 1], trace[k - 1]);
    }
  }

  /**
   With the mutex in force the driver's buffer is its holder's alone, and the frames sent
   are those whose transfers were accepted, each intact.
   */
  lemma {:induction false} LockKeepsWires(cfg: Config, states: seq<State>, trace: seq<Event>, k: nat)
    requires cfg.locking && IsRun(cfg, states, trace) && k <= |trace|
    ensures LockInv(states[k]) && WireInv(cfg, states[k])
    ensures states[k].sent == Accepted(states, trace, k)
  {
    LockKeepsInv(cfg, states, trace, k);
    SentIsAccepted(cfg, states, trace, k);
  }

  lemma {:induction false} OnePollerKeepsInv(cfg: Config, states: seq<State>, trace: seq<Event>, k: nat, p: nat)
    requires cfg.locking && cfg.pollers <= {p} && IsRun(cfg, states, trace) && k <= |trace|
    ensures DataInv(states[k], p)
  {
    if k > 0 {
      OnePollerKeepsInv(cfg, states, trace, k - 1, p);
      LockKeepsInv(cfg, states, trace, k - 1);
      assert Next(cfg, states[k - 1], trace[k - 1], states[k]);
      DataInvStep(cfg, states[k - 1], trace[k - 1], p);
    }
  }

  /** With the mutex in force and one poller, every frame is received intact, and every reception is on record. */
  lemma {:induction false} OnePollerKeepsData(cfg: Config, states: seq<State>, trace: seq<Event>, k: nat, p: nat)
    requires cfg.locking && cfg.pollers <= {p} && IsRun(cfg, states, trace) && k <= |trace|
    ensures DataInv(states[k], p)
    ensures states[k].fates == Endings(states, trace, k) && states[k].arrived == Arrivals(trace[..k])
  {
    OnePollerKeepsInv(cfg, states, trace, k, p);
    FatesAreEndings(cfg, states, trace, k);
    ArrivalsOnRecord(cfg, states, trace, k);
  }
}
