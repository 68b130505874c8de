/**
 The mutex protocol around the transceiver's FIFO as a state machine over the single
 steps of any number of tasks. The driver assembles frames to send, and takes received
 ones apart, byte by byte in one buffer of its own, which the mutex is there to protect;
 a polling task copies the payload out of a second shared buffer after its release.
 */
module FifoProtocol {
  import opened Bits
  import opened Frames

  type RxLength = n: nat | ETH_HDR_LEN <= n <= 1522 witness 14

  /** A submitted frame is known by its ticket, its position among all submissions. */
  datatype Job = Poll | Send(frame: Frame, ticket: nat)

  /** What a read leaves in the polling task's own variables; the payload is in the shared buffer. */
  datatype Reading = Empty | Got(header: seq<Byte>, len: RxLength)

  datatype Pc =
    | Idle
    | Waiting(job: Job)
    | Locked(job: Job)
    /** In the driver, before the frame is touched: register accesses go through its buffer. */
    | InDriver(job: Job)
    /** Copying the outgoing frame into the driver's buffer, and clocking it out from there. */
    | Filling(frame: Frame, ticket: nat, done: nat)
    | Clocking(frame: Frame, ticket: nat, out: seq<Byte>)
    /** Clocking a frame into the driver's buffer, and copying its header and payload from there. */
    | Receiving(incoming: RxFrame, done: nat)
    | HeaderOut(len: RxLength, header: seq<Byte>)
    | PayloadOut(len: RxLength, header: seq<Byte>, done: nat)
    | Leaving(reading: Reading)
    | Released(reading: Reading)
    | Copying(header: seq<Byte>, len: RxLength, copied: seq<Byte>)

  /** What became of a frame that was taken out of the FIFO. */
  datatype Fate = Delivered(pbuf: seq<Byte>) | Dropped

  datatype Submission = Submission(task: nat, frame: Frame)

  /** A frame that the transceiver accepted, as it was clocked out. */
  datatype Sent = Sent(ticket: nat, wire: seq<Byte>)

  datatype State = State(
    pc: map<nat, Pc>,
    owner: Option<nat>,
    grants: nat,
    releases: nat,
    rxFifo: seq<RxFrame>,
    scratch: Buffer,
    rxBuff: Buffer,
    arrived: seq<RxFrame>,
    popped: seq<RxFrame>,
    fates: seq<Fate>,
    submitted: seq<Submission>,
    sent: seq<Sent>
  )

  /** The single steps of a task. */
  datatype Move =
    | StartPoll
    | StartSend(outgoing: Frame)
    | Acquire
    | WaitFails
    | Enter
    | Register(bytes: Buffer)
    | Refuse
    | BeginFill
    | FillByte
    | BeginClock
    | ClockByte
    | EndClock(accepted: bool)
    | BeginReceive
    | ReceiveByte
    | EndReceive(ok: bool)
    | HeaderByte
    | EndHeader
    | PayloadByte
    | EndPayload
    | Release
    | Alloc(pbufOk: bool)
    | CopyByte
    | Deliver

  datatype Event = Arrive(frame: RxFrame) | Act(task: nat, move: Move)

  /** Which tasks poll, the device's own address, and whether waiting for the mutex excludes anybody. */
  datatype Config = Config(pollers: set<nat>, mac: Mac, locking: bool)

  function PcOf(s: State, t: nat): Pc {
    if t in s.pc then s.pc[t] else Idle
  }

  function At(s: State, t: nat, pc: Pc): State {
    s.(pc := s.pc[t := pc])
  }

  function Initial(scratch: Buffer, rxBuff: Buffer): State {
    State(map[], None, 0, 0, [], scratch, rxBuff, [], [], [], [], [])
  }

  /** Which moves a task can make. Any task may send; polling is for the pollers. */
  predicate CanMove(cfg: Config, s: State, t: nat, pc: Pc, m: Move) {
    match m
    case StartPoll => pc.Idle? && t in cfg.pollers
    case StartSend(_) => pc.Idle?
    case Acquire => pc.Waiting? && (cfg.locking ==> s.owner == None)
    case WaitFails => pc.Waiting?
    case Enter => pc.Locked?
    case Register(_) => pc.InDriver?
    case Refuse => pc.InDriver?
    case BeginFill => pc.InDriver? && pc.job.Send?
    case FillByte => pc.Filling? && pc.done < |pc.frame|
    case BeginClock => pc.Filling? && pc.done == |pc.frame|
    case ClockByte => pc.Clocking? && |pc.out| < |pc.frame|
    case EndClock(accepted) => pc.Clocking? && (accepted ==> |pc.out| == |pc.frame|)
    case BeginReceive => pc.InDriver? && pc.job.Poll? && s.rxFifo != []
    case ReceiveByte => pc.Receiving? && pc.done < |pc.incoming|
    case EndReceive(ok) => pc.Receiving? && (ok ==> pc.done == |pc.incoming|)
    case HeaderByte => pc.HeaderOut? && |pc.header| < ETH_HDR_LEN
    case EndHeader => pc.HeaderOut? && |pc.header| == ETH_HDR_LEN
    case PayloadByte => pc.PayloadOut? && pc.done < pc.len - ETH_HDR_LEN
    case EndPayload => pc.PayloadOut? && pc.done == pc.len - ETH_HDR_LEN
    case Release => pc.Leaving?
    case Alloc(_) => pc.Released?
    case CopyByte => pc.Copying? && |pc.copied| < pc.len - ETH_HDR_LEN
    case Deliver => pc.Copying? && |pc.copied| == pc.len - ETH_HDR_LEN
  }

  /** Where the move takes its task. */
  function PcAfter(cfg: Config, s: State, t: nat, pc: Pc, m: Move): Pc
    requires CanMove(cfg, s, t, pc, m)
  {
    match m
    case StartPoll => Waiting(Poll)
    case StartSend(f) => Waiting(Send(f, |s.submitted|))
    case Acquire => Locked(pc.job)
    case WaitFails => Idle
    case Enter => InDriver(pc.job)
    case Register(_) => pc
    case Refuse => Leaving(Empty)
    case BeginFill => Filling(pc.job.frame, pc.job.ticket, 0)
    case FillByte => Filling(pc.frame, pc.ticket, pc.done + 1)
    case BeginClock => Clocking(pc.frame, pc.ticket, [])
    case ClockByte => Clocking(pc.frame, pc.ticket, pc.out + [s.scratch[TX_OFFSET + |pc.out|]])
    case EndClock(_) => Leaving(Empty)
    case BeginReceive => Receiving(s.rxFifo[0], 0)
    case ReceiveByte => Receiving(pc.incoming, pc.done + 1)
    case EndReceive(ok) => if ok then HeaderOut(|pc.incoming|, []) else Leaving(Empty)
    case HeaderByte => HeaderOut(pc.len, pc.header + [s.scratch[RX_OFFSET + |pc.header|]])
    case EndHeader => PayloadOut(pc.len, pc.header, 0)
    case PayloadByte => PayloadOut(pc.len, pc.header, pc.done + 1)
    case EndPayload => Leaving(Got(pc.header, pc.len))
    case Release => Released(pc.reading)
    case Alloc(pbufOk) =>
      if pc.reading.Got? && pbufOk then Copying(pc.reading.header, pc.reading.len, []) else Idle
    case CopyByte => Copying(pc.header, pc.len, pc.copied + [s.rxBuff[|pc.copied|]])
    case Deliver => Idle
  }

  /** The driver's buffer after the move. */
  function ScratchAfter(cfg: Config, s: State, t: nat, pc: Pc, m: Move): Buffer
    requires CanMove(cfg, s, t, pc, m)
  {
    match m
    case Register(bytes) => bytes
    case FillByte => s.scratch[TX_OFFSET + pc.done := Transmitted(pc.frame, cfg.mac)[pc.done]]
    case ReceiveByte => s.scratch[RX_OFFSET + pc.done := pc.incoming[pc.done]]
    case _ => s.scratch
  }

  /** What has become of the frames taken out of the FIFO after the move. */
  function FatesAfter(cfg: Config, s: State, t: nat, pc: Pc, m: Move): seq<Fate>
    requires CanMove(cfg, s, t, pc, m)
  {
    match m
    case EndReceive(ok) => if ok then s.fates else s.fates + [Dropped]
    case Alloc(pbufOk) => if pc.reading.Got? && !pbufOk then s.fates + [Dropped] else s.fates
    case Deliver => s.fates + [Delivered(pc.header + pc.copied)]
    case _ => s.fates
  }

  function AfterMove(cfg: Config, s: State, t: nat, pc: Pc, m: Move): State
    requires CanMove(cfg, s, t, pc, m)
  {
    State(
      pc := s.pc[t := PcAfter(cfg, s, t, pc, m)],
      owner := if m.Acquire? then Some(t) else if m.Release? then None else s.owner,
      grants := if m.Acquire? then s.grants + 1 else s.grants,
      releases := if m.Release? then s.releases + 1 else s.releases,
      rxFifo := if m.BeginReceive? then s.rxFifo[1..] else s.rxFifo,
      scratch := ScratchAfter(cfg, s, t, pc, m),
      rxBuff := if m.PayloadByte? then s.rxBuff[pc.done := s.scratch[RX_OFFSET + ETH_HDR_LEN + pc.done]] else s.rxBuff,
      arrived := s.arrived,
      popped := if m.BeginReceive? then s.popped + [s.rxFifo[0]] else s.popped,
      fates := FatesAfter(cfg, s, t, pc, m),
      submitted := if m.StartSend? then s.submitted + [Submission(t, m.outgoing)] else s.submitted,
      sent := if m == EndClock(true) then s.sent + [Sent(pc.ticket, pc.out)] else s.sent
    )
  }

  predicate Enabled(cfg: Config, s: State, e: Event) {
    match e
    case Arrive(_) => true
    case Act(t, m) => CanMove(cfg, s, t, PcOf(s, t), m)
  }

  function Step(cfg: Config, s: State, e: Event): State
    requires Enabled(cfg, s, e)
  {
    match e
    case Arrive(f) => s.(rxFifo := s.rxFifo + [f], arrived := s.arrived + [f])
    case Act(t, m) => AfterMove(cfg, s, t, PcOf(s, t), m)
  }

  ghost predicate Next(cfg: Config, s: State, e: Event, s': State) {
    Enabled(cfg, s, e) && s' == Step(cfg, s, e)
  }

  ghost predicate IsRun(cfg: Config, states: seq<State>, trace: seq<Event>) {
    && |states| == |trace| + 1
    && states[0] == Initial(states[0].scratch, states[0].rxBuff)
    && forall i {:trigger trace[i]} :: 0 <= i < |trace| ==> Next(cfg, states[i], trace[i], states[i + 1])
  }

  ghost predicate Reachable(cfg: Config, s: State) {
    exists states, trace :: IsRun(cfg, states, trace) && states[|trace|] == s
  }

  lemma {:induction false} ReachInitial(cfg: Config, scratch: Buffer, rxBuff: Buffer)
    ensures Reachable(cfg, Initial(scratch, rxBuff))
  {
    var states, trace: seq<Event> := [Initial(scratch, rxBuff)], [];
    assert IsRun(cfg, states, trace);
  }

  lemma {:induction false} ReachStep(cfg: Config, s: State, e: Event)
    requires Reachable(cfg, s) && Enabled(cfg, s, e)
    ensures Reachable(cfg, Step(cfg, s, e))
  {
    var states, trace :| IsRun(cfg, states, trace) && states[|trace|] == s;
    RunExtends(cfg, states, trace, e, Step(cfg, s, e));
  }

  lemma {:induction false} RunExtends(cfg: Config, states: seq<State>, trace: seq<Event>, e: Event, s': State)
    requires IsRun(cfg, states, trace) && Next(cfg, states[|trace|], e, s')
    ensures IsRun(cfg, states + [s'], trace + [e]) && Reachable(cfg, s')
  {
    var longer, events := states + [s'], trace + [e];
    forall i | 0 <= i < |events| ensures Next(cfg, longer[i], events[i], longer[i + 1]) {
      if i < |trace| {
        assert events[i] == trace[i];
      }
    }
    assert longer[|events|] == s';
  }

  // ---------------------------------------------------------------- what a step leaves alone

  /** The task is between a successful wait and its release. */
  predicate HoldsLock(pc: Pc) {
    match pc
    case Idle => false
    case Waiting(_) => false
    case Released(_) => false
    case Copying(_, _, _) => false
    case _ => true
  }

  /** One more byte of a buffer has been written, or read. */
  lemma {:induction false} NextByte(b: Buffer, at: nat, k: nat, x: Byte)
    requires at + k < BUFF_LEN
    ensures b[at + k := x][at..at + k + 1] == b[at..at + k] + [x]
    ensures b[at..at + k + 1] == b[at..at + k] + [b[at + k]]
  {
  }
}
