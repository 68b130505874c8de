/**
 Stretches of runs of the FIFO protocol: what a task can do from where it is, up to whole
 undisturbed calls, which act as the sequential functions do.
 */
module FifoRuns {
  import opened Bits
  import opened Frames
  import opened FifoProtocol

  /** The other tasks are where they were. */
  ghost predicate Elsewhere(s: State, s': State, t: nat) {
    forall u: nat :: u != t ==> PcOf(s', u) == PcOf(s, u)
  }

  lemma {:induction false} ReachMove(cfg: Config, s: State, t: nat, m: Move) returns (s': State)
    requires Reachable(cfg, s) && CanMove(cfg, s, t, PcOf(s, t), m)
    ensures Reachable(cfg, s') && s' == AfterMove(cfg, s, t, PcOf(s, t), m)
    ensures PcOf(s', t) == PcAfter(cfg, s, t, PcOf(s, t), m) && Elsewhere(s, s', t)
  {
    ReachStep(cfg, s, Act(t, m));
    s' := Step(cfg, s, Act(t, m));
  }

  /** `s'` is reached from `s` by moves of `t` that change the driver's buffer and no other shared state. */
  ghost predicate OnlyScratch(cfg: Config, s: State, s': State, t: nat) {
    && Reachable(cfg, s')
    && s' == s.(pc := s'.pc, scratch := s'.scratch)
    && Elsewhere(s, s', t)
  }

  /** One byte of the outgoing frame is copied. */
  lemma {:induction false} ReachByte(cfg: Config, s: State, t: nat, f: Frame, ticket: nat, k: nat) returns (s': State)
    requires Reachable(cfg, s) && PcOf(s, t) == Filling(f, ticket, k) && k < |f|
    ensures OnlyScratch(cfg, s, s', t) && PcOf(s', t) == Filling(f, ticket, k + 1)
    ensures s'.scratch == s.scratch[TX_OFFSET + k := Transmitted(f, cfg.mac)[k]]
  {
    s' := ReachMove(cfg, s, t, FillByte);
  }

  /** The outgoing frame is copied into the driver's buffer. */
  lemma {:induction false} ReachFilled(cfg: Config, s: State, t: nat, f: Frame, ticket: nat) returns (s': State)
    requires Reachable(cfg, s) && PcOf(s, t) == Filling(f, ticket, 0)
    ensures OnlyScratch(cfg, s, s', t) && PcOf(s', t) == Filling(f, ticket, |f|)
    ensures s'.scratch[TX_OFFSET..TX_OFFSET + |f|] == Transmitted(f, cfg.mac)
  {
    var w := Transmitted(f, cfg.mac);
    s' := s;
    var k := 0;
    while k < |f|
      invariant k <= |f| && OnlyScratch(cfg, s, s', t) && PcOf(s', t) == Filling(f, ticket, k)
      invariant s'.scratch[TX_OFFSET..TX_OFFSET + k] == w[..k]
    {
      NextByte(s'.scratch, TX_OFFSET, k, w[k]);
      assert w[..k + 1] == w[..k] + [w[k]];
      s' := ReachByte(cfg, s', t, f, ticket, k);
      k := k + 1;
    }
    assert w[..k] == w;
  }

  /** What the buffer holds at the place of the frame is clocked out. */
  lemma {:induction false} ReachClocked(cfg: Config, s: State, t: nat, f: Frame, ticket: nat) returns (s': State)
    requires Reachable(cfg, s) && PcOf(s, t) == Clocking(f, ticket, [])
    ensures OnlyScratch(cfg, s, s', t) && s'.scratch == s.scratch
    ensures PcOf(s', t) == Clocking(f, ticket, s.scratch[TX_OFFSET..TX_OFFSET + |f|])
  {
    s' := s;
    var k := 0;
    while k < |f|
      invariant k <= |f| && OnlyScratch(cfg, s, s', t) && s'.scratch == s.scratch
      invariant PcOf(s', t) == Clocking(f, ticket, s.scratch[TX_OFFSET..TX_OFFSET + k])
    {
      NextByte(s.scratch, TX_OFFSET, k, 0);
      s' := ReachMove(cfg, s', t, ClockByte);
      k := k + 1;
    }
  }

  /** A received frame is clocked into the buffer. */
  lemma {:induction false} ReachReceived(cfg: Config, s: State, t: nat, f: RxFrame) returns (s': State)
    requires Reachable(cfg, s) && PcOf(s, t) == Receiving(f, 0)
    ensures OnlyScratch(cfg, s, s', t)
    ensures PcOf(s', t) == Receiving(f, |f|) && s'.scratch[RX_OFFSET..RX_OFFSET + |f|] == f
  {
    s' := s;
    var k := 0;
    while k < |f|
      invariant k <= |f| && OnlyScratch(cfg, s, s', t) && PcOf(s', t) == Receiving(f, k)
      invariant s'.scratch[RX_OFFSET..RX_OFFSET + k] == f[..k]
    {
      NextByte(s'.scratch, RX_OFFSET, k, f[k]);
      assert f[..k + 1] == f[..k] + [f[k]];
      s' := ReachMove(cfg, s', t, ReceiveByte);
      k := k + 1;
    }
    assert f[..k] == f;
  }

  /** The header is copied from the buffer. */
  lemma {:induction false} ReachHeader(cfg: Config, s: State, t: nat, len: RxLength) returns (s': State)
    requires Reachable(cfg, s) && PcOf(s, t) == HeaderOut(len, [])
    ensures OnlyScratch(cfg, s, s', t) && s'.scratch == s.scratch
    ensures PcOf(s', t) == HeaderOut(len, s.scratch[RX_OFFSET..RX_OFFSET + ETH_HDR_LEN])
  {
    s' := s;
    var k := 0;
    while k < ETH_HDR_LEN
      invariant k <= ETH_HDR_LEN && OnlyScratch(cfg, s, s', t) && s'.scratch == s.scratch
      invariant PcOf(s', t) == HeaderOut(len, s.scratch[RX_OFFSET..RX_OFFSET + k])
    {
      NextByte(s.scratch, RX_OFFSET, k, 0);
      s' := ReachMove(cfg, s', t, HeaderByte);
      k := k + 1;
    }
  }

  /** The payload is copied from there into the shared buffer. */
  lemma {:induction false} ReachPayload(cfg: Config, s: State, t: nat, len: RxLength, h: seq<Byte>) returns (s': State)
    requires Reachable(cfg, s) && PcOf(s, t) == PayloadOut(len, h, 0)
    ensures Reachable(cfg, s') && s' == s.(pc := s'.pc, rxBuff := s'.rxBuff)
    ensures Elsewhere(s, s', t)
    ensures PcOf(s', t) == PayloadOut(len, h, len - ETH_HDR_LEN)
    ensures s'.rxBuff[..len - ETH_HDR_LEN] == s.scratch[RX_OFFSET + ETH_HDR_LEN..RX_OFFSET + len]
  {
    s' := s;
    var k, at := 0, RX_OFFSET + ETH_HDR_LEN;
    while k < len - ETH_HDR_LEN
      invariant k <= len - ETH_HDR_LEN && Reachable(cfg, s') && s' == s.(pc := s'.pc, rxBuff := s'.rxBuff)
      invariant Elsewhere(s, s', t)
      invariant PcOf(s', t) == PayloadOut(len, h, k)
      invariant s'.rxBuff[..k] == s.scratch[at..at + k]
    {
      NextByte(s'.rxBuff, 0, k, s.scratch[at + k]);
      NextByte(s.scratch, at, k, 0);
      s' := ReachMove(cfg, s', t, PayloadByte);
      k := k + 1;
    }
  }

  /** From the mutex, which must be free where it is in force, into the driver. */
  lemma {:induction false} ReachDriver(cfg: Config, s: State, t: nat, job: Job) returns (s': State)
    requires Reachable(cfg, s) && PcOf(s, t) == Waiting(job) && (cfg.locking ==> s.owner == None)
    ensures Reachable(cfg, s') && PcOf(s', t) == InDriver(job)
    ensures s' == s.(pc := s'.pc, owner := Some(t), grants := s.grants + 1)
    ensures Elsewhere(s, s', t)
  {
    var s1 := ReachMove(cfg, s, t, Acquire);
    s' := ReachMove(cfg, s1, t, Enter);
  }

  /** An idle task submits a frame and begins to copy it. */
  lemma {:induction false} ReachFilling(cfg: Config, s: State, t: nat, f: Frame) returns (s': State)
    requires Reachable(cfg, s) && PcOf(s, t) == Idle && (cfg.locking ==> s.owner == None)
    ensures Reachable(cfg, s') && PcOf(s', t) == Filling(f, |s.submitted|, 0)
    ensures s' == s.(pc := s'.pc, owner := Some(t), grants := s.grants + 1,
                     submitted := s.submitted + [Submission(t, f)])
    ensures Elsewhere(s, s', t)
  {
    var s1 := ReachMove(cfg, s, t, StartSend(f));
    var s2 := ReachDriver(cfg, s1, t, Send(f, |s.submitted|));
    s' := ReachMove(cfg, s2, t, BeginFill);
  }

  /** An idle poller takes a frame out of the FIFO. */
  lemma {:induction false} ReachReceiving(cfg: Config, s: State, t: nat) returns (s': State)
    requires Reachable(cfg, s) && PcOf(s, t) == Idle && (cfg.locking ==> s.owner == None)
    requires t in cfg.pollers && s.rxFifo != []
    ensures Reachable(cfg, s') && PcOf(s', t) == Receiving(s.rxFifo[0], |s.rxFifo[0]|)
    ensures s'.scratch[RX_OFFSET..RX_OFFSET + |s.rxFifo[0]|] == s.rxFifo[0]
    ensures s' == s.(pc := s'.pc, owner := Some(t), grants := s.grants + 1, scratch := s'.scratch,
                     rxFifo := s.rxFifo[1..], popped := s.popped + [s.rxFifo[0]])
    ensures Elsewhere(s, s', t)
  {
    var s1 := ReachMove(cfg, s, t, StartPoll);
    assert s1 == s.(pc := s1.pc);
    var s2 := ReachDriver(cfg, s1, t, Poll);
    var s3 := ReachMove(cfg, s2, t, BeginReceive);
    assert s3 == s2.(pc := s3.pc, rxFifo := s.rxFifo[1..], popped := s.popped + [s.rxFifo[0]]);
    s' := ReachReceived(cfg, s3, t, s.rxFifo[0]);
  }

  lemma {:induction false} ReachReadOut(cfg: Config, s: State, t: nat, f: RxFrame) returns (s': State)
    requires Reachable(cfg, s) && PcOf(s, t) == Receiving(f, |f|)
    ensures Reachable(cfg, s') && s' == s.(pc := s'.pc) && Elsewhere(s, s', t) && PcOf(s', t) == HeaderOut(|f|, [])
  {
    s' := ReachMove(cfg, s, t, EndReceive(true));
  }

  /** The header is copied from where a received frame should be. */
  lemma {:induction false} ReachHeaderRead(cfg: Config, s: State, t: nat, f: RxFrame) returns (s': State)
    requires Reachable(cfg, s) && PcOf(s, t) == Receiving(f, |f|)
    ensures Reachable(cfg, s') && s' == s.(pc := s'.pc) && Elsewhere(s, s', t)
    ensures PcOf(s', t) == PayloadOut(|f|, s.scratch[RX_OFFSET..RX_OFFSET + ETH_HDR_LEN], 0)
  {
    var s1 := ReachReadOut(cfg, s, t, f);
    var s2 := ReachHeader(cfg, s1, t, |f|);
    s' := ReachMove(cfg, s2, t, EndHeader);
  }

  /** The mutex is released once the payload has been copied. */
  lemma {:induction false} ReachLeft(cfg: Config, s: State, t: nat, len: RxLength, h: seq<Byte>) returns (s': State)
    requires Reachable(cfg, s) && PcOf(s, t) == PayloadOut(len, h, len - ETH_HDR_LEN)
    ensures Reachable(cfg, s') && PcOf(s', t) == Released(Got(h, len)) && Elsewhere(s, s', t)
    ensures s' == s.(pc := s'.pc, owner := None, releases := s.releases + 1)
  {
    var s1 := ReachMove(cfg, s, t, EndPayload);
    s' := ReachMove(cfg, s1, t, Release);
  }

  /** What the buffer holds at the place of a received frame is copied out, and the mutex released. */
  lemma {:induction false} ReachReleased(cfg: Config, s: State, t: nat, f: RxFrame) returns (s': State)
    requires Reachable(cfg, s) && PcOf(s, t) == Receiving(f, |f|)
    ensures Reachable(cfg, s') && Elsewhere(s, s', t)
    ensures PcOf(s', t) == Released(Got(s.scratch[RX_OFFSET..RX_OFFSET + ETH_HDR_LEN], |f|))
    ensures s'.rxBuff[..|f| - ETH_HDR_LEN] == s.scratch[RX_OFFSET + ETH_HDR_LEN..RX_OFFSET + |f|]
    ensures s' == s.(pc := s'.pc, owner := None, releases := s.releases + 1, rxBuff := s'.rxBuff)
  {
    var h := s.scratch[RX_OFFSET..RX_OFFSET + ETH_HDR_LEN];
    var s1 := ReachHeaderRead(cfg, s, t, f);
    var s2 := ReachPayload(cfg, s1, t, |f|, h);
    s' := ReachLeft(cfg, s2, t, |f|, h);
  }

  /** A frame arrives. */
  lemma {:induction false} ReachArrived(cfg: Config, s: State, f: RxFrame) returns (s': State)
    requires Reachable(cfg, s)
    ensures Reachable(cfg, s') && s' == s.(rxFifo := s.rxFifo + [f], arrived := s.arrived + [f])
  {
    ReachStep(cfg, s, Arrive(f));
    s' := Step(cfg, s, Arrive(f));
  }

  /** A buffer is found for a released frame. */
  lemma {:induction false} ReachCopying(cfg: Config, s: State, t: nat, h: seq<Byte>, len: RxLength) returns (s': State)
    requires Reachable(cfg, s) && PcOf(s, t) == Released(Got(h, len))
    ensures Reachable(cfg, s') && s' == s.(pc := s'.pc) && Elsewhere(s, s', t) && PcOf(s', t) == Copying(h, len, [])
  {
    s' := ReachMove(cfg, s, t, Alloc(true));
  }

  /** The payload is copied out of the shared buffer. */
  lemma {:induction false} ReachCopied(cfg: Config, s: State, t: nat, h: seq<Byte>, len: RxLength) returns (s': State)
    requires Reachable(cfg, s) && PcOf(s, t) == Copying(h, len, [])
    ensures Reachable(cfg, s') && s' == s.(pc := s'.pc) && Elsewhere(s, s', t)
    ensures PcOf(s', t) == Copying(h, len, s.rxBuff[..len - ETH_HDR_LEN])
  {
    s' := s;
    var k := 0;
    while k < len - ETH_HDR_LEN
      invariant k <= len - ETH_HDR_LEN && Reachable(cfg, s') && s' == s.(pc := s'.pc) && Elsewhere(s, s', t)
      invariant PcOf(s', t) == Copying(h, len, s.rxBuff[..k])
    {
      NextByte(s.rxBuff, 0, k, 0);
      s' := ReachMove(cfg, s', t, CopyByte);
      k := k + 1;
    }
  }

  /** A released frame is handed to the stack with the payload that the shared buffer holds by then. */
  lemma {:induction false} ReachDelivered(cfg: Config, s: State, t: nat, h: seq<Byte>, len: RxLength)
      returns (s': State)
    requires Reachable(cfg, s) && PcOf(s, t) == Released(Got(h, len))
    ensures Reachable(cfg, s') && PcOf(s', t) == Idle && Elsewhere(s, s', t)
    ensures s' == s.(pc := s'.pc, fates := s.fates + [Delivered(h + s.rxBuff[..len - ETH_HDR_LEN])])
  {
    var s1 := ReachCopying(cfg, s, t, h, len);
    var s2 := ReachCopied(cfg, s1, t, h, len);
    s' := ReachMove(cfg, s2, t, Deliver);
  }

  // ---------------------------------------------------------------- whole calls

  /** Register traffic can leave anything in the driver's buffer. */
  lemma {:induction false} ReachAnyScratch(cfg: Config, s: State, t: nat, bytes: Buffer) returns (s': State)
    requires Reachable(cfg, s) && PcOf(s, t).InDriver?
    ensures Reachable(cfg, s') && s' == s.(pc := s'.pc, scratch := bytes)
    ensures PcOf(s', t) == PcOf(s, t) && Elsewhere(s, s', t)
  {
    s' := ReachMove(cfg, s, t, Register(bytes));
  }

  /** The mutex is released and the call returns with nothing received. */
  lemma {:induction false} ReachIdle(cfg: Config, s: State, t: nat) returns (s': State)
    requires Reachable(cfg, s) && PcOf(s, t) == Leaving(Empty)
    ensures Reachable(cfg, s') && PcOf(s', t) == Idle && Elsewhere(s, s', t)
    ensures s' == s.(pc := s'.pc, owner := None, releases := s.releases + 1)
  {
    var s1 := ReachMove(cfg, s, t, Release);
    s' := ReachMove(cfg, s1, t, Alloc(true));
  }

  /** A job is refused by the driver: a register access fails, or there is no room or no frame. */
  lemma {:induction false} ReachRefused(cfg: Config, s: State, t: nat) returns (s': State)
    requires Reachable(cfg, s) && PcOf(s, t).InDriver?
    ensures Reachable(cfg, s') && PcOf(s', t) == Idle && Elsewhere(s, s', t)
    ensures s' == s.(pc := s'.pc, owner := None, releases := s.releases + 1)
  {
    var s1 := ReachMove(cfg, s, t, Refuse);
    s' := ReachIdle(cfg, s1, t);
  }

  /** A filled frame is clocked out, and the transceiver accepts it or not. */
  lemma {:induction false} ReachSent(cfg: Config, s: State, t: nat, f: Frame, ticket: nat, accepted: bool)
      returns (s': State)
    requires Reachable(cfg, s) && PcOf(s, t) == Filling(f, ticket, |f|)
    ensures Reachable(cfg, s') && PcOf(s', t) == Leaving(Empty) && Elsewhere(s, s', t)
    ensures var wire := s.scratch[TX_OFFSET..TX_OFFSET + |f|];
      s' == s.(pc := s'.pc, sent := s.sent + if accepted then [Sent(ticket, wire)] else [])
  {
    var s1 := ReachMove(cfg, s, t, BeginClock);
    assert s1 == s.(pc := s1.pc);
    var s2 := ReachClocked(cfg, s1, t, f, ticket);
    s' := ReachMove(cfg, s2, t, EndClock(accepted));
  }

  /** The transfer of an outgoing frame fails at any byte. */
  lemma {:induction false} ReachUnsent(cfg: Config, s: State, t: nat) returns (s': State)
    requires Reachable(cfg, s) && PcOf(s, t).Clocking?
    ensures Reachable(cfg, s') && PcOf(s', t) == Idle && Elsewhere(s, s', t)
    ensures s' == s.(pc := s'.pc, owner := None, releases := s.releases + 1)
  {
    var s1 := ReachMove(cfg, s, t, EndClock(false));
    s' := ReachIdle(cfg, s1, t);
  }

  /** What can become of a call. */
  datatype Course = WaitError | DriverError | TransferError | Done

  /**
   `adin1110if_link_output` by itself, from any state in which the task is idle and the
   mutex free: on every course the call returns with the mutex free again, and the frame is
   sent, with the device's address, exactly when nothing fails.
   */
  lemma {:induction false} SendAlone(cfg: Config, s: State, t: nat, f: Frame, course: Course) returns (s': State)
    requires Reachable(cfg, s) && PcOf(s, t) == Idle && s.owner == None
    ensures Reachable(cfg, s') && PcOf(s', t) == Idle && Elsewhere(s, s', t)
    ensures s'.sent == s.sent + if course.Done? then [Sent(|s.submitted|, Transmitted(f, cfg.mac))] else []
    ensures s'.submitted == s.submitted + [Submission(t, f)] && s'.owner == None
    ensures s'.rxFifo == s.rxFifo && s'.rxBuff == s.rxBuff && s'.fates == s.fates
  {
    if course.Done? || course.TransferError? {
      var s1 := ReachFilling(cfg, s, t, f);
      var s2 := ReachFilled(cfg, s1, t, f, |s.submitted|);
      var s3 := ReachSent(cfg, s2, t, f, |s.submitted|, course.Done?);
      s' := ReachIdle(cfg, s3, t);
    } else {
      var s1 := ReachMove(cfg, s, t, StartSend(f));
      if course.DriverError? {
        var s2 := ReachDriver(cfg, s1, t, Send(f, |s.submitted|));
        s' := ReachRefused(cfg, s2, t);
      } else {
        s' := ReachMove(cfg, s1, t, WaitFails);
      }
    }
  }

  /** A received frame is brought in and handed over, or dropped where no buffer is found. */
  lemma {:induction false} ReachHanded(cfg: Config, s: State, t: nat, f: RxFrame, pbufOk: bool) returns (s': State)
    requires Reachable(cfg, s) && PcOf(s, t) == Receiving(f, |f|) && s.scratch[RX_OFFSET..RX_OFFSET + |f|] == f
    ensures Reachable(cfg, s') && PcOf(s', t) == Idle && Elsewhere(s, s', t)
    ensures s' == s.(pc := s'.pc, owner := None, releases := s.releases + 1, rxBuff := s'.rxBuff,
                     fates := s.fates + [if pbufOk then Delivered(f) else Dropped])
  {
    var s1 := ReachReleased(cfg, s, t, f);
    SplitSlice(s.scratch, f);
    if pbufOk {
      s' := ReachDelivered(cfg, s1, t, f[..ETH_HDR_LEN], |f|);
      assert f[..ETH_HDR_LEN] + f[ETH_HDR_LEN..] == f;
    } else {
      s' := ReachMove(cfg, s1, t, Alloc(false));
    }
  }

  lemma {:induction false} SplitSlice(b: Buffer, f: RxFrame)
    requires b[RX_OFFSET..RX_OFFSET + |f|] == f
    ensures b[RX_OFFSET..RX_OFFSET + ETH_HDR_LEN] == f[..ETH_HDR_LEN]
    ensures b[RX_OFFSET + ETH_HDR_LEN..RX_OFFSET + |f|] == f[ETH_HDR_LEN..]
  {
  }

  /** The transfer of a frame that has been taken out fails at any byte. */
  lemma {:induction false} ReachLost(cfg: Config, s: State, t: nat) returns (s': State)
    requires Reachable(cfg, s) && PcOf(s, t).Receiving?
    ensures Reachable(cfg, s') && PcOf(s', t) == Idle && Elsewhere(s, s', t)
    ensures s' == s.(pc := s'.pc, owner := None, releases := s.releases + 1, fates := s.fates + [Dropped])
  {
    var s1 := ReachMove(cfg, s, t, EndReceive(false));
    s' := ReachIdle(cfg, s1, t);
  }

  /**
   `adin1110if_poll` by itself: on every course the call returns with the mutex free again.
   A frame is taken out when there is one and the driver gets that far, and it is handed
   over as it arrived exactly when nothing fails.
   */
  lemma {:induction false} PollAlone(cfg: Config, s: State, t: nat, course: Course, pbufOk: bool) returns (s': State)
    requires Reachable(cfg, s) && PcOf(s, t) == Idle && s.owner == None && t in cfg.pollers
    ensures Reachable(cfg, s') && PcOf(s', t) == Idle && Elsewhere(s, s', t)
    ensures var taken := (course.Done? || course.TransferError?) && s.rxFifo != [];
      && s'.rxFifo == (if taken then s.rxFifo[1..] else s.rxFifo)
      && s'.fates == s.fates +
           if !taken then [] else if course.Done? && pbufOk then [Delivered(s.rxFifo[0])] else [Dropped]
    ensures s'.sent == s.sent && s'.submitted == s.submitted && s'.owner == None
  {
    if (course.Done? || course.TransferError?) && s.rxFifo != [] {
      var s1 := ReachReceiving(cfg, s, t);
      if course.Done? {
        s' := ReachHanded(cfg, s1, t, s.rxFifo[0], pbufOk);
      } else {
        s' := ReachLost(cfg, s1, t);
      }
    } else {
      var s1 := ReachMove(cfg, s, t, StartPoll);
      if course.WaitError? {
        s' := ReachMove(cfg, s1, t, WaitFails);
      } else {
        var s2 := ReachDriver(cfg, s1, t, Poll);
        s' := ReachRefused(cfg, s2, t);
      }
    }
  }
}
