/**
 Register updates that run into one another. A priority or target-state call is a load
 and a later store of a whole word; an enable, disable or pending call is a single store.
 */
module Interleaving {
  import opened Bits
  import opened PriorityCode
  import opened NvicPriority
  import opened NvicBanks

  /** One call: bits of `mask` are cleared and `bits` are set in one register. */
  datatype Call =
    | LoadStore(word: nat, mask: Word, bits: Word)
    | SingleStore(word: nat, mask: Word, bits: Word)

  function Effect(c: Call, w: Word): Word {
    OrWord(And(w, Not(c.mask)), c.bits)
  }

  /** What is executed: a call's load, or its store. Calls are named by their position. */
  datatype Event = Load(call: nat) | Store(call: nat)

  /** The registers, and the words that calls have loaded and not yet stored. */
  datatype State = State(mem: seq<Word>, loaded: map<nat, Word>)

  predicate WellFormed(calls: seq<Call>, size: nat) {
    forall c :: c in calls ==> c.word < size
  }

  ghost predicate Next(calls: seq<Call>, s: State, e: Event, s': State) {
    && e.call < |calls|
    && var c := calls[e.call];
    && c.word < |s.mem|
    && match e
       case Load(t) =>
         && c.LoadStore? && t !in s.loaded
         && s' == s.(loaded := s.loaded[t := s.mem[c.word]])
       case Store(t) =>
         if c.LoadStore? then
           && t in s.loaded
           && s' == State(s.mem[c.word := Effect(c, s.loaded[t])], s.loaded - {t})
         else
           s' == s.(mem := s.mem[c.word := Effect(c, s.mem[c.word])])
  }

  ghost predicate IsRun(calls: seq<Call>, states: seq<State>, trace: seq<Event>) {
    && |states| == |trace| + 1
    && states[0].loaded == map[]
    && forall i {:trigger trace[i]} :: 0 <= i < |trace| ==> Next(calls, states[i], trace[i], states[i + 1])
  }

  /** The calls of a trace in the order of their stores. */
  function StoreOrder(trace: seq<Event>): seq<nat> {
    if trace == [] then []
    else
      var n := |trace| - 1;
      if trace[n].Store? then StoreOrder(trace[..n]) + [trace[n].call] else StoreOrder(trace[..n])
  }

  /** A call executed in one piece. */
  function Undivided(c: Call, mem: seq<Word>): seq<Word>
    requires c.word < |mem|
  {
    mem[c.word := Effect(c, mem[c.word])]
  }

  /** The registers after running calls one after the other, undivided. */
  function Serial(calls: seq<Call>, mem: seq<Word>, order: seq<nat>): (r: seq<Word>)
    requires WellFormed(calls, |mem|) && forall t :: t in order ==> t < |calls|
    ensures |r| == |mem|
  {
    if order == [] then mem
    else
      var n := |order| - 1;
      assert order[n] in order && forall t :: t in order[..n] ==> t in order;
      assert calls[order[n]] in calls;
      Undivided(calls[order[n]], Serial(calls, mem, order[..n]))
  }

  /** The event is not a store to a word that another call has loaded and not yet stored. */
  ghost predicate StepUndisturbed(calls: seq<Call>, s: State, e: Event) {
    e.Store? && e.call < |calls| ==>
      forall t :: t in s.loaded && t != e.call ==> t < |calls| && calls[t].word != calls[e.call].word
  }

  ghost predicate Undisturbed(calls: seq<Call>, states: seq<State>, trace: seq<Event>)
    requires |states| == |trace| + 1
  {
    forall i {:trigger trace[i]} :: 0 <= i < |trace| ==> StepUndisturbed(calls, states[i], trace[i])
  }

  /** What a call in flight has loaded is still what its register holds. */
  ghost predicate Fresh(calls: seq<Call>, s: State) {
    forall t :: t in s.loaded ==>
      t < |calls| && calls[t].LoadStore? && calls[t].word < |s.mem| && s.loaded[t] == s.mem[calls[t].word]
  }

  lemma {:induction false} StoreOrderStep(trace: seq<Event>, k: nat)
    requires 0 < k <= |trace|
    ensures StoreOrder(trace[..k])
         == if trace[k - 1].Store? then StoreOrder(trace[..k - 1]) + [trace[k - 1].call] else StoreOrder(trace[..k - 1])
  {
    assert trace[..k][..k - 1] == trace[..k - 1];
  }

  lemma {:induction false} StoreOrderCalls(calls: seq<Call>, states: seq<State>, trace: seq<Event>, k: nat)
    requires IsRun(calls, states, trace) && k <= |trace|
    ensures forall t :: t in StoreOrder(trace[..k]) ==> t < |calls|
  {
    if k > 0 {
      assert trace[..k][..k - 1] == trace[..k - 1];
      StoreOrderCalls(calls, states, trace, k - 1);
      assert Next(calls, states[k - 1], trace[k - 1], states[k]);
    }
  }

  /** One undisturbed step: loads change nothing, and a store acts as its call would act undivided. */
  lemma {:induction false} UndisturbedStep(calls: seq<Call>, s: State, e: Event, s': State)
    requires Next(calls, s, e, s') && Fresh(calls, s)
    requires StepUndisturbed(calls, s, e)
    ensures Fresh(calls, s')
    ensures s'.mem == if e.Store? then Undivided(calls[e.call], s.mem) else s.mem
  {
    forall t | t in s'.loaded
      ensures t < |calls| && calls[t].LoadStore? && calls[t].word < |s'.mem| && s'.loaded[t] == s'.mem[calls[t].word]
    {
      if t in s.loaded {
        assert s.loaded[t] == s.mem[calls[t].word];
      }
    }
  }

  lemma {:induction false} SerializablePrefix(calls: seq<Call>, states: seq<State>, trace: seq<Event>, k: nat)
    requires IsRun(calls, states, trace) && Undisturbed(calls, states, trace) && k <= |trace|
    requires WellFormed(calls, |states[0].mem|)
    ensures forall t :: t in StoreOrder(trace[..k]) ==> t < |calls|
    ensures states[k].mem == Serial(calls, states[0].mem, StoreOrder(trace[..k]))
    ensures Fresh(calls, states[k])
  {
    StoreOrderCalls(calls, states, trace, k);
    if k > 0 {
      SerializablePrefix(calls, states, trace, k - 1);
      var e := trace[k - 1];
      assert Next(calls, states[k - 1], e, states[k]);
      UndisturbedStep(calls, states[k - 1], e, states[k]);
      StoreOrderStep(trace, k);
      if e.Store? {
        SerialStep(calls, states[0].mem, StoreOrder(trace[..k - 1]), e.call);
      }
    }
  }

  lemma {:induction false} SerialStep(calls: seq<Call>, mem: seq<Word>, order: seq<nat>, t: nat)
    requires WellFormed(calls, |mem|) && t < |calls| && forall u :: u in order ==> u < |calls|
    ensures calls[t].word < |mem| && Serial(calls, mem, order + [t]) == Undivided(calls[t], Serial(calls, mem, order))
  {
    assert (order + [t])[..|order|] == order;
    assert calls[t] in calls;
  }

  /**
   Every undisturbed interleaving leaves the registers as some sequential execution would:
   the one in the order of the stores.
   */
  lemma {:induction false} Serializable(calls: seq<Call>, states: seq<State>, trace: seq<Event>)
    requires IsRun(calls, states, trace) && Undisturbed(calls, states, trace)
    requires WellFormed(calls, |states[0].mem|)
    ensures forall t :: t in StoreOrder(trace) ==> t < |calls|
    ensures states[|trace|].mem == Serial(calls, states[0].mem, StoreOrder(trace))
  {
    SerializablePrefix(calls, states, trace, |trace|);
    assert trace[..|trace|] == trace;
  }

  /** No two calls in flight share a register. */
  ghost predicate InFlightApart(calls: seq<Call>, s: State) {
    forall t, u :: t in s.loaded && u in s.loaded && t != u ==>
      t < |calls| && u < |calls| && calls[t].word != calls[u].word
  }

  /** That keeps a run undisturbed, the set and clear registers being registers of their own. */
  lemma {:induction false} InFlightApartSuffices(calls: seq<Call>, states: seq<State>, trace: seq<Event>)
    requires IsRun(calls, states, trace) && forall s :: s in states ==> InFlightApart(calls, s)
    requires forall c, d :: c in calls && d in calls && c.SingleStore? && d.LoadStore? ==> c.word != d.word
    ensures Undisturbed(calls, states, trace)
  {
    forall i | 0 <= i < |trace| ensures StepUndisturbed(calls, states[i], trace[i]) {
      assert Next(calls, states[i], trace[i], states[i + 1]);
      assert InFlightApart(calls, states[i]);
      var c := calls[trace[i].call];
      assert c in calls;
      forall t | t in states[i].loaded && t != trace[i].call && trace[i].Store?
        ensures t < |calls| && calls[t].word != c.word
      {
        LoadedAreLoadStores(calls, states, trace, i, t);
      }
    }
  }

  lemma {:induction false} LoadedAreLoadStores(calls: seq<Call>, states: seq<State>, trace: seq<Event>, i: nat, t: nat)
    requires IsRun(calls, states, trace) && i <= |trace| && t in states[i].loaded
    ensures t < |calls| && calls[t] in calls && calls[t].LoadStore?
  {
    if i > 0 {
      assert Next(calls, states[i - 1], trace[i - 1], states[i]);
      if t in states[i - 1].loaded {
        LoadedAreLoadStores(calls, states, trace, i - 1, t);
      }
    }
  }

  /** A run without load-store calls has nothing in flight, so it follows store order with no condition. */
  lemma {:induction false} SingleStoresSerializable(calls: seq<Call>, states: seq<State>, trace: seq<Event>)
    requires IsRun(calls, states, trace) && forall c :: c in calls ==> c.SingleStore?
    requires WellFormed(calls, |states[0].mem|)
    ensures forall t :: t in StoreOrder(trace) ==> t < |calls|
    ensures states[|trace|].mem == Serial(calls, states[0].mem, StoreOrder(trace))
  {
    forall i | 0 <= i <= |trace| ensures states[i].loaded == map[] {
      forall t | t in states[i].loaded ensures false {
        LoadedAreLoadStores(calls, states, trace, i, t);
      }
    }
    Serializable(calls, states, trace);
  }

  // ---------------------------------------------------------------- which runs there are

  /** A load-store call that is not in flight can load, one that is can store, and a single store is always possible. */
  lemma {:induction false} EveryStepHappens(calls: seq<Call>, s: State, t: nat)
    requires t < |calls| && calls[t].word < |s.mem|
    ensures var c := calls[t];
      && (c.LoadStore? && t !in s.loaded ==>
            Next(calls, s, Load(t), State(s.mem, s.loaded[t := s.mem[c.word]])))
      && (c.LoadStore? && t in s.loaded ==>
            Next(calls, s, Store(t),
                 State(s.mem[c.word := OrWord(And(s.loaded[t], Not(c.mask)), c.bits)], s.loaded - {t})))
      && (c.SingleStore? ==>
            Next(calls, s, Store(t),
                 State(s.mem[c.word := OrWord(And(s.mem[c.word], Not(c.mask)), c.bits)], s.loaded)))
  {
  }

  /** The run is extended by one step. */
  lemma {:induction false} RunExtends(calls: seq<Call>, states: seq<State>, trace: seq<Event>, e: Event, s: State)
    requires IsRun(calls, states, trace) && Undisturbed(calls, states, trace)
    requires Next(calls, states[|trace|], e, s) && StepUndisturbed(calls, states[|trace|], e)
    ensures IsRun(calls, states + [s], trace + [e]) && Undisturbed(calls, states + [s], trace + [e])
    ensures StoreOrder(trace + [e]) == if e.Store? then StoreOrder(trace) + [e.call] else StoreOrder(trace)
  {
    var longer, events := states + [s], trace + [e];
    forall i | 0 <= i < |events|
      ensures Next(calls, longer[i], events[i], longer[i + 1]) && StepUndisturbed(calls, longer[i], events[i])
    {
      if i < |trace| {
        assert events[i] == trace[i];
      }
    }
    assert events[..|trace|] == trace;
  }

  /** One more call, executed with nothing in flight. */
  lemma {:induction false} CallHappens(calls: seq<Call>, states: seq<State>, trace: seq<Event>, t: nat)
      returns (states': seq<State>, trace': seq<Event>)
    requires IsRun(calls, states, trace) && Undisturbed(calls, states, trace) && states[|trace|].loaded == map[]
    requires t < |calls| && calls[t].word < |states[|trace|].mem|
    ensures IsRun(calls, states', trace') && Undisturbed(calls, states', trace') && states'[|trace'|].loaded == map[]
    ensures states'[0].mem == states[0].mem
    ensures StoreOrder(trace') == StoreOrder(trace) + [t]
    ensures states'[|trace'|].mem == Undivided(calls[t], states[|trace|].mem)
  {
    states', trace' := states, trace;
    var s := states[|trace|];
    var c := calls[t];
    EveryStepHappens(calls, s, t);
    if c.LoadStore? {
      var loaded := State(s.mem, map[t := s.mem[c.word]]);
      RunExtends(calls, states', trace', Load(t), loaded);
      states', trace' := states' + [loaded], trace' + [Load(t)];
      EveryStepHappens(calls, loaded, t);
    }
    var stored := State(Undivided(c, s.mem), map[]);
    assert map[t := s.mem[c.word]] - {t} == map[];
    RunExtends(calls, states', trace', Store(t), stored);
    states', trace' := states' + [stored], trace' + [Store(t)];
  }

  /** Every sequential execution is among the runs: any calls, any number of times, in any order. */
  lemma {:induction false} SerialHappens(calls: seq<Call>, mem: seq<Word>, order: seq<nat>)
      returns (states: seq<State>, trace: seq<Event>)
    requires WellFormed(calls, |mem|) && forall t :: t in order ==> t < |calls|
    ensures IsRun(calls, states, trace) && Undisturbed(calls, states, trace) && states[0].mem == mem
    ensures StoreOrder(trace) == order && states[|trace|].loaded == map[]
    ensures states[|trace|].mem == Serial(calls, mem, order)
  {
    if order == [] {
      states, trace := [State(mem, map[])], [];
    } else {
      var n := |order| - 1;
      assert order[n] in order && forall t :: t in order[..n] ==> t in order;
      states, trace := SerialHappens(calls, mem, order[..n]);
      assert calls[order[n]] in calls;
      states, trace := CallHappens(calls, states, trace, order[n]);
      assert order[..n] + [order[n]] == order;
    }
  }

  // ---------------------------------------------------------------- the calls of the headers

  /** `__NVIC_SetPriority` on a packed register: byte `k` of `word` becomes `v`. */
  function PriorityCall(word: nat, k: nat, v: Byte): Call
    requires k < 4
  {
    LoadStore(word, Shl(0xFF, 8 * k), Shl(v, 8 * k))
  }

  lemma {:induction false} PriorityCallEffect(word: nat, k: nat, v: Byte, w: Word)
    requires k < 4
    ensures Effect(PriorityCall(word, k, v), w) == WithByte(w, 8 * k, v)
  {
  }

  /** The packed registers in one row: `IPR`, and then `SHPR`. */
  function Memory(r: PackedRegs): seq<Word> {
    r.ipr + r.shpr
  }

  /** Where the register of `irq` is in that row, after `words` device registers. */
  function RegisterOf(words: nat, irq: Irq): nat {
    if irq >= 0 then IpIdx(irq) else words + ShpIdx(irq)
  }

  /** `__NVIC_SetPriority` as a load and a store. */
  function SetPriorityCall(n: PrioBits, words: nat, irq: Irq, priority: Word): Call {
    BitShiftValue(irq);
    LoadStore(RegisterOf(words, irq), Shl(0xFF, BitShift(irq)), Shl(Field(n, priority), BitShift(irq)))
  }

  lemma {:induction false} SetPriorityCallSlot(n: PrioBits, r: PackedRegs, irq: Irq, priority: Word)
    requires r.Valid() && r.Implements(irq)
    ensures SetPriorityCall(n, |r.ipr|, irq, priority)
         == PriorityCall(RegisterOf(|r.ipr|, irq), irq % 4, Field(n, priority))
    ensures RegisterOf(|r.ipr|, irq) < |Memory(r)|
    ensures ByteAt(Memory(r)[RegisterOf(|r.ipr|, irq)], irq % 4) == PackedByte(r, irq)
  {
    PackedSlot(r, irq);
    BitShiftValue(irq);
    if irq >= 0 {
      DeviceIndex(irq);
    } else {
      SystemIndex(irq);
    }
  }

  lemma {:induction false} SameSlot(words: nat, i: Irq, j: Irq)
    requires -8 <= i < 4 * words && -8 <= j < 4 * words
    ensures RegisterOf(words, i) == RegisterOf(words, j) && i % 4 == j % 4 <==> i == j
  {
    SlotInjective(i, j);
    BitShiftValue(i);
    BitShiftValue(j);
    if i >= 0 {
      DeviceIndex(i);
    }
    if j >= 0 {
      DeviceIndex(j);
    }
  }

  /** Executed in one piece the call is the one proved against the map of priorities. */
  lemma {:induction false} UndividedSetsPriority(n: PrioBits, r: PackedRegs, irq: Irq, priority: Word)
    requires r.Valid() && r.Implements(irq)
    ensures RegisterOf(|r.ipr|, irq) < |Memory(r)|
    ensures Undivided(SetPriorityCall(n, |r.ipr|, irq, priority), Memory(r)) == Memory(PackedSet(n, r, irq, priority))
  {
    SetPriorityCallSlot(n, r, irq, priority);
    var k, w := RegisterOf(|r.ipr|, irq), Memory(r)[RegisterOf(|r.ipr|, irq)];
    PriorityCallEffect(k, irq % 4, Field(n, priority), w);
    BitShiftValue(irq);
    PackedSlot(r, irq);
    UpdateInRow(r.ipr, r.shpr, k, WithByte(w, BitShift(irq), Field(n, priority)));
  }

  lemma {:induction false} UpdateInRow(a: seq<Word>, b: seq<Word>, k: nat, w: Word)
    requires k < |a| + |b|
    ensures (a + b)[k := w] == if k < |a| then a[k := w] + b else a + b[k - |a| := w]
  {
  }

  /** Target-state and set/clear-register calls have the effects that the bank methods store. */
  lemma {:induction false} BitCallEffect(irq: Irq, word: nat, w: Word)
    ensures Effect(LoadStore(word, 0, BitMask(irq)), w) == Effect(SingleStore(word, 0, BitMask(irq)), w)
         == OrWord(w, BitMask(irq))
    ensures Effect(LoadStore(word, BitMask(irq), 0), w) == Effect(SingleStore(word, BitMask(irq), 0), w)
         == And(w, Not(BitMask(irq)))
  {
    ZeroBits();
    WordExtensional(Effect(LoadStore(word, 0, BitMask(irq)), w), OrWord(w, BitMask(irq)));
    WordExtensional(Effect(LoadStore(word, BitMask(irq), 0), w), And(w, Not(BitMask(irq))));
  }

  lemma {:induction false} BytesDetermine(x: Word, y: Word)
    requires forall j: nat :: j < 4 ==> ByteAt(x, j) == ByteAt(y, j)
    ensures x == y
  {
    forall i: nat | i < 32 ensures Bit(x, i) == Bit(y, i) {
      assert ByteAt(x, i / 8) == ByteAt(y, i / 8);
      assert Bit(ByteAt(x, i / 8), i % 8) <==> Bit(x, i);
      assert Bit(ByteAt(y, i / 8), i % 8) <==> Bit(y, i);
    }
    WordExtensional(x, y);
  }

  lemma {:induction false} LostByte(w: Word, k0: nat, v0: Byte, k1: nat, v1: Byte)
    requires k0 < 4 && k1 < 4
    ensures var late := WithByte(w, 8 * k1, v1);
      late == WithByte(WithByte(w, 8 * k0, v0), 8 * k1, v1) || late == WithByte(late, 8 * k0, v0)
      <==> k0 == k1 || ByteAt(w, k0) == v0
  {
    var late := WithByte(w, 8 * k1, v1);
    var first := WithByte(w, 8 * k0, v0);
    var inOrder := WithByte(first, 8 * k1, v1);
    var swapped := WithByte(late, 8 * k0, v0);
    forall j: nat | j < 4
      ensures ByteAt(late, j) == if j == k1 then v1 else ByteAt(w, j)
      ensures ByteAt(inOrder, j) == if j == k1 then v1 else if j == k0 then v0 else ByteAt(w, j)
      ensures ByteAt(swapped, j) == if j == k0 then v0 else if j == k1 then v1 else ByteAt(w, j)
    {
      WithByteAt(w, k1, v1, j);
      WithByteAt(w, k0, v0, j);
      WithByteAt(first, k1, v1, j);
      WithByteAt(late, k0, v0, j);
    }
    if k0 == k1 || ByteAt(w, k0) == v0 {
      BytesDetermine(late, inOrder);
    }
  }

  /** Both calls load before either stores. */
  const OVERLAP: seq<Event> := [Load(0), Load(1), Store(0), Store(1)]

  lemma {:induction false} OverlapResult(c0: Call, c1: Call, states: seq<State>)
    requires c0.LoadStore? && c1.LoadStore? && |states| == 5 && IsRun([c0, c1], states, OVERLAP)
    ensures c0.word < |states[0].mem| && c1.word < |states[0].mem|
    ensures var mem := states[0].mem;
      states[4].mem == mem[c0.word := Effect(c0, mem[c0.word])][c1.word := Effect(c1, mem[c1.word])]
  {
    assert forall i :: 0 <= i < 4 ==> Next([c0, c1], states[i], OVERLAP[i], states[i + 1]);
    assert Next([c0, c1], states[0], OVERLAP[0], states[1]);
    assert Next([c0, c1], states[1], OVERLAP[1], states[2]);
    assert Next([c0, c1], states[2], OVERLAP[2], states[3]);
    assert Next([c0, c1], states[3], OVERLAP[3], states[4]);
  }

  /** Such a run exists whatever the registers hold. */
  lemma {:induction false} OverlapHappens(c0: Call, c1: Call, mem: seq<Word>) returns (states: seq<State>)
    requires c0.LoadStore? && c1.LoadStore? && c0.word < |mem| && c1.word < |mem|
    ensures |states| == 5 && states[0].mem == mem && IsRun([c0, c1], states, OVERLAP)
  {
    var w0, w1 := mem[c0.word], mem[c1.word];
    var once := mem[c0.word := Effect(c0, w0)];
    states := [
      State(mem, map[]), State(mem, map[0 := w0]), State(mem, map[0 := w0, 1 := w1]),
      State(once, map[1 := w1]), State(once[c1.word := Effect(c1, w1)], map[])
    ];
    assert map[0 := w0, 1 := w1] - {0} == map[1 := w1];
  }

  lemma {:induction false} OverlapCompared(
      word0: nat, k0: nat, v0: Byte, word1: nat, k1: nat, v1: Byte, mem: seq<Word>)
    requires k0 < 4 && k1 < 4 && word0 < |mem| && word1 < |mem|
    ensures
      var c0, c1 := PriorityCall(word0, k0, v0), PriorityCall(word1, k1, v1);
      var final := mem[word0 := Effect(c0, mem[word0])][word1 := Effect(c1, mem[word1])];
      final == Undivided(c1, Undivided(c0, mem)) || final == Undivided(c0, Undivided(c1, mem))
      <==> word0 != word1 || k0 == k1 || ByteAt(mem[word0], k0) == v0
  {
    var c0, c1 := PriorityCall(word0, k0, v0), PriorityCall(word1, k1, v1);
    var final := mem[word0 := Effect(c0, mem[word0])][word1 := Effect(c1, mem[word1])];
    var w := mem[word0];
    if word0 == word1 {
      PriorityCallEffect(word0, k0, v0, w);
      PriorityCallEffect(word0, k1, v1, w);
      PriorityCallEffect(word0, k1, v1, Effect(c0, w));
      PriorityCallEffect(word0, k0, v0, Effect(c1, w));
      LostByte(w, k0, v0, k1, v1);
      assert final == mem[word0 := Effect(c1, w)];
      assert Undivided(c1, Undivided(c0, mem)) == mem[word0 := Effect(c1, Effect(c0, w))];
      assert Undivided(c0, Undivided(c1, mem)) == mem[word0 := Effect(c0, Effect(c1, w))];
      assert final[word0] == Effect(c1, w);
    } else {
      assert final == Undivided(c1, Undivided(c0, mem));
    }
  }

  /** The store that comes second undoes nothing of the first. */
  predicate NothingLost(n: PrioBits, r: PackedRegs, irq0: Irq, priority0: Word, irq1: Irq)
    requires r.Valid() && r.Implements(irq0)
  {
    || RegisterOf(|r.ipr|, irq0) != RegisterOf(|r.ipr|, irq1)
    || irq0 == irq1
    || PackedByte(r, irq0) == Field(n, priority0)
  }

  lemma {:induction false} SetPrioritiesCompared(
      n: PrioBits, r: PackedRegs, irq0: Irq, priority0: Word, irq1: Irq, priority1: Word)
    requires r.Valid() && r.Implements(irq0) && r.Implements(irq1)
    ensures
      var words, mem := |r.ipr|, Memory(r);
      var c0, c1 := SetPriorityCall(n, words, irq0, priority0), SetPriorityCall(n, words, irq1, priority1);
      c0.word < |mem| && c1.word < |mem| &&
      var final := mem[c0.word := Effect(c0, mem[c0.word])][c1.word := Effect(c1, mem[c1.word])];
      || final == Memory(PackedSet(n, PackedSet(n, r, irq0, priority0), irq1, priority1))
      || final == Memory(PackedSet(n, PackedSet(n, r, irq1, priority1), irq0, priority0))
      <==> NothingLost(n, r, irq0, priority0, irq1)
  {
    var words := |r.ipr|;
    SetPriorityCallSlot(n, r, irq0, priority0);
    SetPriorityCallSlot(n, r, irq1, priority1);
    SameSlot(words, irq0, irq1);
    UndividedSetsPriority(n, r, irq0, priority0);
    UndividedSetsPriority(n, PackedSet(n, r, irq0, priority0), irq1, priority1);
    UndividedSetsPriority(n, r, irq1, priority1);
    UndividedSetsPriority(n, PackedSet(n, r, irq1, priority1), irq0, priority0);
    OverlapCompared(RegisterOf(words, irq0), irq0 % 4, Field(n, priority0),
                    RegisterOf(words, irq1), irq1 % 4, Field(n, priority1), Memory(r));
  }

  /**
   Two `__NVIC_SetPriority` calls that both load before either stores leave the registers as
   one call after the other would, in either order, exactly when they use different
   registers or are for the same interrupt, or the one that stores first had nothing to
   change.
   */
  lemma {:induction false} OverlapSerializableExactly(
      n: PrioBits, r: PackedRegs, irq0: Irq, priority0: Word, irq1: Irq, priority1: Word)
    requires r.Valid() && r.Implements(irq0) && r.Implements(irq1)
    ensures forall states: seq<State> ::
      var calls := [SetPriorityCall(n, |r.ipr|, irq0, priority0), SetPriorityCall(n, |r.ipr|, irq1, priority1)];
      |states| == 5 && states[0].mem == Memory(r) && IsRun(calls, states, OVERLAP) ==>
        (|| states[4].mem == Memory(PackedSet(n, PackedSet(n, r, irq0, priority0), irq1, priority1))
         || states[4].mem == Memory(PackedSet(n, PackedSet(n, r, irq1, priority1), irq0, priority0))
        <==> NothingLost(n, r, irq0, priority0, irq1))
  {
    var words := |r.ipr|;
    var c0, c1 := SetPriorityCall(n, words, irq0, priority0), SetPriorityCall(n, words, irq1, priority1);
    var calls := [c0, c1];
    var inOrder := Memory(PackedSet(n, PackedSet(n, r, irq0, priority0), irq1, priority1));
    var swapped := Memory(PackedSet(n, PackedSet(n, r, irq1, priority1), irq0, priority0));
    forall states: seq<State> | |states| == 5 && states[0].mem == Memory(r) && IsRun(calls, states, OVERLAP)
      ensures states[4].mem == inOrder || states[4].mem == swapped
         <==> NothingLost(n, r, irq0, priority0, irq1)
    {
      OverlapResult(c0, c1, states);
      SetPrioritiesCompared(n, r, irq0, priority0, irq1, priority1);
    }
  }
}
