/**
 What the FIFO protocol achieves: mutual exclusion and release of the mutex, frames that
 arrive and leave intact exactly with the mutex in force and a single poller, and the
 order in which they do.
 */
module FifoTheorems {
  import opened Bits
  import opened Frames
  import opened FifoProtocol
  import opened FifoSafety
  import opened FifoLogs
  import opened FifoRuns

  // ---------------------------------------------------------------- the mutex

  /** At most one task is between wait and release, and every successful wait is matched by one release. */
  lemma {:induction false} MutualExclusion(cfg: Config, s: State, t: nat, u: nat)
    requires cfg.locking && Reachable(cfg, s)
    ensures HoldsLock(PcOf(s, t)) && HoldsLock(PcOf(s, u)) ==> t == u
    ensures HoldsLock(PcOf(s, t)) <==> s.owner == Some(t)
    ensures s.grants == s.releases + (if s.owner.Some? then 1 else 0)
  {
    var states, trace :| IsRun(cfg, states, trace) && states[|trace|] == s;
    LockKeepsWires(cfg, states, trace, |trace|);
    assert HoldsLock(PcOf(s, t)) <==> s.owner == Some(t);
    assert HoldsLock(PcOf(s, u)) <==> s.owner == Some(u);
  }

  /** No loop of the driver runs past its end. */
  predicate Bounded(pc: Pc) {
    match pc
    case Filling(f, _, done) => done <= |f|
    case Clocking(f, _, out) => |out| <= |f|
    case Receiving(f, done) => done <= |f|
    case HeaderOut(_, header) => |header| <= ETH_HDR_LEN
    case PayloadOut(len, _, done) => done <= len - ETH_HDR_LEN
    case _ => true
  }

  lemma {:induction false} BoundedStep(cfg: Config, s: State, t: nat, m: Move)
    requires CanMove(cfg, s, t, PcOf(s, t), m) && Bounded(PcOf(s, t))
    ensures Bounded(PcOf(Step(cfg, s, Act(t, m)), t))
  {
  }

  lemma {:induction false} AlwaysBounded(cfg: Config, states: seq<State>, trace: seq<Event>, k: nat, t: nat)
    requires IsRun(cfg, states, trace) && k <= |trace|
    ensures Bounded(PcOf(states[k], t))
  {
    if k > 0 {
      AlwaysBounded(cfg, states, trace, k - 1, t);
      assert Next(cfg, states[k - 1], trace[k - 1], states[k]);
      if trace[k - 1].Act? && trace[k - 1].task == t {
        BoundedStep(cfg, states[k - 1], t, trace[k - 1].move);
      }
    }
  }

  /** A way on for a task between wait and release. */
  function WayOn(pc: Pc): Move {
    match pc
    case Locked(_) => Enter
    case InDriver(_) => Refuse
    case Filling(f, _, done) => if done < |f| then FillByte else BeginClock
    case Clocking(f, _, out) => if |out| < |f| then ClockByte else EndClock(true)
    case Receiving(f, done) => if done < |f| then ReceiveByte else EndReceive(true)
    case HeaderOut(_, header) => if |header| < ETH_HDR_LEN then HeaderByte else EndHeader
    case PayloadOut(len, _, done) => if done < len - ETH_HDR_LEN then PayloadByte else EndPayload
    case _ => Release
  }

  /** How many of its moves it has before it releases the mutex. */
  function MovesLeft(pc: Pc): nat
    requires Bounded(pc)
  {
    match pc
    case Locked(_) => 3
    case InDriver(_) => 2
    case Filling(f, _, done) => (|f| - done) + 1 + |f| + 2
    case Clocking(f, _, out) => (|f| - |out|) + 2
    case Receiving(f, done) => (|f| - done) + 1 + |f| + 3
    case HeaderOut(len, header) => (ETH_HDR_LEN - |header|) + 1 + (len - ETH_HDR_LEN) + 2
    case PayloadOut(len, _, done) => (len - ETH_HDR_LEN - done) + 2
    case Leaving(_) => 1
    case _ => 0
  }

  lemma {:induction false} WayOnLeadsOut(cfg: Config, s: State, t: nat)
    requires HoldsLock(PcOf(s, t)) && Bounded(PcOf(s, t))
    ensures CanMove(cfg, s, t, PcOf(s, t), WayOn(PcOf(s, t)))
    ensures var pc := PcOf(Step(cfg, s, Act(t, WayOn(PcOf(s, t)))), t);
      Bounded(pc) && MovesLeft(pc) == MovesLeft(PcOf(s, t)) - 1 && (HoldsLock(pc) <==> MovesLeft(pc) > 0)
  {
  }

  /** Whatever the other tasks are doing, the holder of the mutex can release it while they stand still. */
  lemma {:induction false} HolderCanRelease(cfg: Config, s: State, t: nat) returns (s': State)
    requires cfg.locking && Reachable(cfg, s) && s.owner == Some(t)
    ensures Reachable(cfg, s') && s'.owner == None
    ensures Elsewhere(s, s', t)
  {
    var states, trace :| IsRun(cfg, states, trace) && states[|trace|] == s;
    AlwaysBounded(cfg, states, trace, |trace|, t);
    MutualExclusion(cfg, s, t, t);
    s' := s;
    while HoldsLock(PcOf(s', t))
      invariant Reachable(cfg, s') && Bounded(PcOf(s', t))
      invariant Elsewhere(s, s', t)
      decreases MovesLeft(PcOf(s', t))
    {
      WayOnLeadsOut(cfg, s', t);
      ReachStep(cfg, s', Act(t, WayOn(PcOf(s', t))));
      s' := Step(cfg, s', Act(t, WayOn(PcOf(s', t))));
    }
    MutualExclusion(cfg, s', t, t);
    if s'.owner.Some? {
      MutualExclusion(cfg, s', s'.owner.value, t);
      MutualExclusion(cfg, s, s'.owner.value, t);
    }
  }

  // ---------------------------------------------------------------- torn frames

  const ZEROS: RxFrame := seq(14, _ => 0)
  const ONES: RxFrame := seq(14, _ => 1)

  /** Nothing has happened yet, and both buffers are zero. */
  function Fresh(): State {
    Initial(seq(BUFF_LEN, _ => 0), seq(BUFF_LEN, _ => 0))
  }

  /** One sender has copied its frame; a second one, let into the driver too, begins to copy another. */
  lemma {:induction false} TwoSenders(cfg: Config, a: nat, b: nat) returns (s: State)
    requires !cfg.locking && a != b
    ensures Reachable(cfg, s) && PcOf(s, a) == Filling(ZEROS, 0, 14) && s.scratch[TX_OFFSET] == 1
    ensures s.sent == [] && s.submitted == [Submission(a, ZEROS), Submission(b, ONES)]
  {
    var s0 := Fresh();
    ReachInitial(cfg, s0.scratch, s0.rxBuff);
    var s1 := ReachFilling(cfg, s0, a, ZEROS);
    var s2 := ReachFilled(cfg, s1, a, ZEROS, 0);
    var s3 := ReachFilling(cfg, s2, b, ONES);
    s := ReachByte(cfg, s3, b, ONES, 1, 0);
  }

  /** Without the mutex a second sender writes over the first one's frame before it is clocked out. */
  lemma {:induction false} TornBySender(cfg: Config, a: nat, b: nat) returns (s: State)
    requires !cfg.locking && a != b
    ensures Reachable(cfg, s) && !SentIntact(cfg, s)
  {
    var s4 := TwoSenders(cfg, a, b);
    var s5 := ReachMove(cfg, s4, a, BeginClock);
    var s6 := ReachClocked(cfg, s5, a, ZEROS, 0);
    s := ReachMove(cfg, s6, a, EndClock(true));
    var wire := s4.scratch[TX_OFFSET..TX_OFFSET + 14];
    assert s.sent == [Sent(0, wire)] && s.submitted[0].frame == ZEROS;
    assert wire[0] == 1 && Transmitted(ZEROS, cfg.mac)[0] == 0;
    assert s.sent[0].wire != Transmitted(s.submitted[s.sent[0].ticket].frame, cfg.mac);
  }

  /** A sender has begun to copy its frame: the first two bytes. */
  lemma {:induction false} ReachTwoBytes(cfg: Config, s: State, t: nat) returns (s': State)
    requires Reachable(cfg, s) && PcOf(s, t) == Idle && (cfg.locking ==> s.owner == None)
    ensures Reachable(cfg, s') && Elsewhere(s, s', t) && s'.scratch[RX_OFFSET] == 1
    ensures s'.popped == s.popped && s'.fates == s.fates
  {
    var s1 := ReachFilling(cfg, s, t, ONES);
    var s2 := ReachByte(cfg, s1, t, ONES, |s.submitted|, 0);
    s' := ReachByte(cfg, s2, t, ONES, |s.submitted|, 1);
  }

  /** A poller has received a frame; a sender, let into the driver too, begins to copy another over it. */
  lemma {:induction false} PollerAndSender(cfg: Config, p: nat, t: nat) returns (s: State)
    requires !cfg.locking && p in cfg.pollers && p != t
    ensures Reachable(cfg, s) && PcOf(s, p) == Receiving(ZEROS, 14) && s.scratch[RX_OFFSET] == 1
    ensures s.popped == [ZEROS] && s.fates == []
  {
    var s0 := Fresh();
    ReachInitial(cfg, s0.scratch, s0.rxBuff);
    var s1 := ReachArrived(cfg, s0, ZEROS);
    var s2 := ReachReceiving(cfg, s1, p);
    s := ReachTwoBytes(cfg, s2, t);
  }

  /** Without the mutex a sender writes over a received frame before the poller has copied it. */
  lemma {:induction false} TornByFill(cfg: Config, p: nat, t: nat) returns (s: State)
    requires !cfg.locking && p in cfg.pollers && p != t
    ensures Reachable(cfg, s) && !Faithful(s)
  {
    var s5 := PollerAndSender(cfg, p, t);
    var s6 := ReachReleased(cfg, s5, p, ZEROS);
    var h := s5.scratch[RX_OFFSET..RX_OFFSET + ETH_HDR_LEN];
    s := ReachDelivered(cfg, s6, p, h, 14);
    assert s.fates == [Delivered(h + s6.rxBuff[..0])] && s.popped[0] == ZEROS;
    assert (h + s6.rxBuff[..0])[0] == 1;
  }

  /** Two polls run up to their release one after the other: the second overwrites the first one's payload. */
  lemma {:induction false} TwoPolls(cfg: Config, a: nat, b: nat, f: RxFrame, g: RxFrame)
      returns (s: State, h: seq<Byte>)
    requires a in cfg.pollers && b in cfg.pollers && a != b
    ensures Reachable(cfg, s) && s.fates == [] && s.popped == [f, g]
    ensures |h| == ETH_HDR_LEN && PcOf(s, a) == Released(Got(h, |f|))
    ensures s.rxBuff[..|g| - ETH_HDR_LEN] == g[ETH_HDR_LEN..]
  {
    var s0 := Fresh();
    ReachInitial(cfg, s0.scratch, s0.rxBuff);
    var s1 := ReachArrived(cfg, s0, f);
    var s2 := ReachArrived(cfg, s1, g);
    var s3 := ReachReceiving(cfg, s2, a);
    var s4 := ReachReleased(cfg, s3, a, f);
    var s5 := ReachReceiving(cfg, s4, b);
    s := ReachReleased(cfg, s5, b, g);
    h := s3.scratch[RX_OFFSET..RX_OFFSET + ETH_HDR_LEN];
    assert s5.scratch[RX_OFFSET..RX_OFFSET + |g|][ETH_HDR_LEN..]
        == s5.scratch[RX_OFFSET + ETH_HDR_LEN..RX_OFFSET + |g|];
  }

  /**
   With a second poller, mutex or not, a run delivers the second frame's payload in place of
   the first one's: the shared buffer is read after the mutex is released.
   */
  lemma {:induction false} TornDelivery(cfg: Config, a: nat, b: nat) returns (s: State)
    requires a in cfg.pollers && b in cfg.pollers && a != b
    ensures Reachable(cfg, s) && !Faithful(s)
  {
    var f: RxFrame := ZEROS + [1];
    var g: RxFrame := ZEROS + [2];
    var s6, h := TwoPolls(cfg, a, b, f, g);
    assert s6.rxBuff[..1][0] == 2;
    s := ReachDelivered(cfg, s6, a, h, 15);
    assert s.fates == [Delivered(h + s6.rxBuff[..1])] && s.popped[0] == f;
    assert (h + s6.rxBuff[..1])[14] == 2;
  }

  predicate OnePoller(cfg: Config) {
    forall a, b :: a in cfg.pollers && b in cfg.pollers ==> a == b
  }

  /**
   In every reachable state all frames taken in and all frames sent are intact exactly when
   the mutex is in force and no two tasks poll.
   */
  lemma {:induction false} IntactExactly(cfg: Config)
    ensures (forall s: State :: Reachable(cfg, s) ==> Faithful(s) && SentIntact(cfg, s))
       <==> cfg.locking && OnePoller(cfg)
  {
    if cfg.locking && OnePoller(cfg) {
      var p: nat := if cfg.pollers == {} then 0 else var x :| x in cfg.pollers; x;
      forall s: State | Reachable(cfg, s) ensures Faithful(s) && SentIntact(cfg, s) {
        var states, trace :| IsRun(cfg, states, trace) && states[|trace|] == s;
        LockKeepsWires(cfg, states, trace, |trace|);
        OnePollerKeepsData(cfg, states, trace, |trace|, p);
      }
    } else if !cfg.locking {
      var s := TornBySender(cfg, 0, 1);
    } else {
      var a, b :| a in cfg.pollers && b in cfg.pollers && a != b;
      var s := TornDelivery(cfg, a, b);
    }
  }

  // ---------------------------------------------------------------- order of delivery

  /** The buffers handed to the stack, in order. */
  function Handed(fates: seq<Fate>): seq<seq<Byte>> {
    if fates == [] then []
    else
      var n := |fates| - 1;
      match fates[n]
      case Delivered(pbuf) => Handed(fates[..n]) + [pbuf]
      case Dropped => Handed(fates[..n])
  }

  /** `sub` is `whole` with some elements left out: `at` says where its elements stand. */
  ghost predicate PickedInOrder(sub: seq<seq<Byte>>, whole: seq<RxFrame>, at: seq<nat>) {
    && |at| == |sub|
    && (forall i :: 0 <= i < |sub| ==> at[i] < |whole| && sub[i] == whole[at[i]])
    && forall i, j :: 0 <= i < j < |sub| ==> at[i] < at[j]
  }

  lemma {:induction false} PickedAppend(sub: seq<seq<Byte>>, whole: seq<RxFrame>, at: seq<nat>, n: nat)
    requires PickedInOrder(sub, whole, at) && n < |whole| && forall i :: 0 <= i < |at| ==> at[i] < n
    ensures PickedInOrder(sub + [whole[n]], whole, at + [n])
  {
  }

  lemma {:induction false} HandedInOrder(fates: seq<Fate>, popped: seq<RxFrame>) returns (at: seq<nat>)
    requires |fates| <= |popped|
    requires forall i :: 0 <= i < |fates| ==> fates[i] == Dropped || fates[i] == Delivered(popped[i])
    ensures PickedInOrder(Handed(fates), popped, at) && forall i :: 0 <= i < |at| ==> at[i] < |fates|
  {
    at := [];
    if fates != [] {
      var n := |fates| - 1;
      var earlier := HandedInOrder(fates[..n], popped);
      if fates[n].Delivered? {
        PickedAppend(Handed(fates[..n]), popped, earlier, n);
        at := earlier + [n];
      } else {
        at := earlier;
      }
    }
  }

  /** With the mutex and one poller, the stack is handed arrived frames, unchanged and in their order of arrival. */
  lemma {:induction false} DeliveryOrder(cfg: Config, s: State)
    requires cfg.locking && OnePoller(cfg) && Reachable(cfg, s)
    ensures exists at :: PickedInOrder(Handed(s.fates), s.arrived, at)
  {
    IntactExactly(cfg);
    var at := HandedInOrder(s.fates, s.popped);
    assert PickedInOrder(Handed(s.fates), s.arrived, at);
  }

  /**
   The tickets map the sent frames into the submissions: none is sent twice, those of one
   task are sent in their order, and each goes out as transmission makes it.
   */
  ghost predicate SentFrom(mac: Mac, sent: seq<Sent>, submitted: seq<Submission>) {
    && (forall i :: 0 <= i < |sent| ==>
          && sent[i].ticket < |submitted|
          && sent[i].wire == Transmitted(submitted[sent[i].ticket].frame, mac))
    && forall i, j :: 0 <= i < j < |sent| ==>
         var m, n := sent[i].ticket, sent[j].ticket;
         m != n && (submitted[m].task == submitted[n].task ==> m < n)
  }

  /**
   With the mutex, the frames sent in a run are, one for one, the submissions that its trace
   says were accepted, each intact and once, and those of one task in their order.
   */
  lemma {:induction false} SendingOrder(cfg: Config, states: seq<State>, trace: seq<Event>)
    requires cfg.locking && IsRun(cfg, states, trace)
    ensures SentFrom(cfg.mac, states[|trace|].sent, Submissions(trace))
    ensures |states[|trace|].sent| == |AcceptedSubmissions(trace)|
    ensures forall i :: 0 <= i < |states[|trace|].sent| ==>
      states[|trace|].sent[i].ticket == AcceptedSubmissions(trace)[i]
  {
    SentOnce(cfg, states, trace, |trace|);
    LockKeepsWires(cfg, states, trace, |trace|);
    SentAreAcceptedSubmissions(cfg, states, trace, |trace|);
    assert trace[..|trace|] == trace;
  }
}
