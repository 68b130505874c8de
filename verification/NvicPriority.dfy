/**
 The priority registers. The Baseline and M0 headers keep four 8-bit priorities in each
 32-bit register and rewrite the whole word; the Mainline header stores single bytes.
 Both are proved against the same plain map from interrupt number to priority byte.
 */
module NvicPriority {
  import opened Bits
  import opened PriorityCode

  /** `IRQn_Type` as `int32_t`: negative numbers are processor exceptions. */
  type Irq = i: int | -0x8000_0000 <= i < 0x8000_0000

  function Unsigned(irq: Irq): Word {
    if irq < 0 then irq + 0x1_0000_0000 else irq
  }

  // ---------------------------------------------------------------- index macros

  /** `_BIT_SHIFT`. */
  function BitShift(irq: Irq): Word {
    And(Unsigned(irq), 3) * 8
  }

  /** `_SHP_IDX`. */
  function ShpIdx(irq: Irq): Word {
    Shr(Sub(And(Unsigned(irq), 15), 8), 2)
  }

  /** `_IP_IDX`. */
  function IpIdx(irq: Irq): Word {
    Shr(Unsigned(irq), 2)
  }

  /** The Mainline index into `SHPR`. */
  function ShprIndex(irq: Irq): Word {
    Sub(And(Unsigned(irq), 15), 4)
  }

  lemma {:induction false} LowNibbles(x: Word)
    ensures And(x, 3) == x % 4 && And(x, 15) == x % 16 && Shr(x, 2) == x / 4
  {
    PowersOfTwo();
    AndMask(x, 2);
    AndMask(x, 4);
    ShrValue(x, 2);
    assert Mask(2) == 3 && Mask(4) == 15;
  }

  lemma {:induction false} UnsignedModFour(irq: Irq)
    ensures Unsigned(irq) % 4 == irq % 4
  {
    assert irq + 0x1_0000_0000 == irq + 4 * 0x4000_0000;
  }

  lemma {:induction false} BitShiftValue(irq: Irq)
    ensures BitShift(irq) == 8 * (irq % 4)
  {
    UnsignedModFour(irq);
    LowNibbles(Unsigned(irq));
  }

  lemma {:induction false} DeviceIndex(irq: Irq)
    requires irq >= 0
    ensures IpIdx(irq) == irq / 4
  {
    LowNibbles(Unsigned(irq));
  }

  lemma {:induction false} SystemNibble(irq: Irq)
    requires -16 <= irq < 0
    ensures And(Unsigned(irq), 15) == irq + 16
  {
    LowNibbles(Unsigned(irq));
  }

  /**
   The packed system index is one of the two registers exactly for exceptions -8 and up;
   below that the subtraction wraps around.
   */
  lemma {:induction false} SystemIndex(irq: Irq)
    requires -16 <= irq < 0
    ensures ShpIdx(irq) < 2 <==> -8 <= irq
    ensures -8 <= irq ==> ShpIdx(irq) == (irq + 8) / 4
  {
    SystemNibble(irq);
    LowNibbles(Sub(irq + 16, 8));
  }

  /** The Mainline system index is inside its twelve bytes exactly for exceptions -12 and up. */
  lemma {:induction false} SystemByteIndex(irq: Irq)
    requires -16 <= irq < 0
    ensures ShprIndex(irq) < 12 <==> -12 <= irq
    ensures -12 <= irq ==> ShprIndex(irq) == irq + 12
  {
    SystemNibble(irq);
  }

  /**
   Word index and shift address the byte that the Mainline code stores: `IPR` starts at the
   same offset in both layouts, `SHPR` at 0x01C in the packed one and 0x018 in the other.
   */
  lemma {:induction false} SameAddress(irq: Irq)
    requires -8 <= irq
    ensures irq >= 0 ==> 4 * IpIdx(irq) + BitShift(irq) / 8 == irq
    ensures irq < 0 ==> 0x01C + 4 * ShpIdx(irq) + BitShift(irq) / 8 == 0x018 + ShprIndex(irq)
  {
    BitShiftValue(irq);
    if irq >= 0 {
      DeviceIndex(irq);
    } else {
      SystemIndex(irq);
      SystemByteIndex(irq);
    }
  }

  /** Bank, word and shift identify an interrupt: device interrupts are in `IPR`, exceptions in `SHPR`. */
  lemma {:induction false} SlotInjective(i: Irq, j: Irq)
    requires -8 <= i && -8 <= j
    ensures i == j <==>
      && (i >= 0 <==> j >= 0)
      && BitShift(i) == BitShift(j)
      && (if i >= 0 then IpIdx(i) == IpIdx(j) else ShpIdx(i) == ShpIdx(j))
  {
    SameAddress(i);
    SameAddress(j);
    if i < 0 && j < 0 {
      SystemByteIndex(i);
      SystemByteIndex(j);
    }
  }

  // ---------------------------------------------------------------- one byte in a word

  /** The byte a priority is stored as. */
  function Field(n: PrioBits, priority: Word): (f: Byte)
    ensures f == priority % Pow2(n) * Pow2(8 - n)
  {
    FieldValue(n, priority);
    And(Shl(priority, 8 - n), 0xFF)
  }

  lemma {:induction false} FieldValue(n: PrioBits, priority: Word)
    ensures And(Shl(priority, 8 - n), 0xFF) == priority % Pow2(n) * Pow2(8 - n)
    ensures And(Shl(priority, 8 - n), 0xFF) <= 0xFF
  {
    var low := Low(priority, n);
    var field := Scale(low, 8 - n);
    ScaleValue(low, 8 - n);
    LowValue(priority, n);
    FullByte();
    assert field < 256 by {
      TopField(low, n);
    }
    WordExtensional(And(Shl(priority, 8 - n), 0xFF), field);
  }

  lemma {:induction false} FullByte()
    ensures Mask(8) == 0xFF
  {
    PowersOfTwo();
  }

  lemma {:induction false} TopField(low: nat, n: PrioBits)
    requires low < Pow2(n)
    ensures low * Pow2(8 - n) < 256
  {
    PowerSum(n, 8 - n);
    PowersOfTwo();
    TwoDigits(low, 0, Pow2(n), Pow2(8 - n));
  }

  /** Reading back drops the unimplemented bits. */
  lemma {:induction false} FieldReadBack(n: PrioBits, priority: Word)
    ensures Shr(Field(n, priority), 8 - n) == priority % Pow2(n)
  {
    ShrValue(Field(n, priority), 8 - n);
    ExactQuotient(Field(n, priority), priority % Pow2(n), Pow2(8 - n));
  }

  /** Byte `k` of a word. */
  function ByteAt(w: Word, k: nat): (b: Byte)
    requires k < 4
    ensures forall i: nat {:trigger Bit(b, i)} :: Bit(b, i) <==> i < 8 && Bit(w, 8 * k + i)
  {
    FullByte();
    And(Shr(w, 8 * k), 0xFF)
  }

  /** The read-modify-write of `SetPriority` on one word. */
  function WithByte(w: Word, shift: Word, v: Byte): Word
    requires shift < 32
  {
    OrWord(And(w, Not(Shl(0xFF, shift))), Shl(v, shift))
  }

  /** It replaces one byte and keeps the other three. */
  lemma {:induction false} WithByteAt(w: Word, k: nat, v: Byte, j: nat)
    requires k < 4 && j < 4
    ensures ByteAt(WithByte(w, 8 * k, v), j) == if j == k then v else ByteAt(w, j)
  {
    var after := WithByte(w, 8 * k, v);
    var expected := if j == k then v else ByteAt(w, j);
    FullByte();
    forall i: nat | i < 8 ensures Bit(ByteAt(after, j), i) == Bit(expected, i) {
      WithByteBit(w, k, v, 8 * j + i);
    }
    PowersOfTwo();
    Extensional(ByteAt(after, j), expected, 8);
  }

  lemma {:induction false} WithByteBit(w: Word, k: nat, v: Byte, i: nat)
    requires k < 4 && i < 32
    ensures Bit(WithByte(w, 8 * k, v), i) <==> if 8 * k <= i < 8 * k + 8 then Bit(v, i - 8 * k) else Bit(w, i)
  {
    FullByte();
    if i >= 8 * k + 8 {
      PowersOfTwo();
      HighBits(v, 8, i - 8 * k);
    }
  }

  // ---------------------------------------------------------------- the packed registers

  /** The priority byte of every implemented interrupt. */
  type Priorities = map<Irq, Byte>

  /** One call of `__NVIC_SetPriority`. */
  datatype SetCall = SetCall(irq: Irq, priority: Word)

  /** The packed registers: the words of `IPR` and the two words of `SHPR`. */
  datatype PackedRegs = PackedRegs(ipr: seq<Word>, shpr: seq<Word>) {
    predicate Valid() {
      |shpr| == 2 && 4 * |ipr| < 0x8000_0000
    }

    predicate Implements(irq: Irq) {
      -8 <= irq < 4 * |ipr|
    }

    predicate ImplementsAll(calls: seq<SetCall>) {
      forall k :: 0 <= k < |calls| ==> Implements(calls[k].irq)
    }
  }

  /** The byte of `irq` in the packed registers, taken as little-endian words. */
  function PackedByte(r: PackedRegs, irq: Irq): Byte
    requires r.Valid() && r.Implements(irq)
  {
    if irq >= 0 then ByteAt(r.ipr[irq / 4], irq % 4) else ByteAt(r.shpr[(irq + 8) / 4], irq % 4)
  }

  ghost function PackedView(r: PackedRegs): Priorities
    requires r.Valid()
  {
    map irq: Irq | r.Implements(irq) :: PackedByte(r, irq)
  }

  /** The indices that the packed code computes stay inside its registers. */
  lemma {:induction false} PackedSlot(r: PackedRegs, irq: Irq)
    requires r.Valid() && r.Implements(irq)
    ensures BitShift(irq) < 32
    ensures if irq >= 0 then IpIdx(irq) < |r.ipr| else ShpIdx(irq) < 2
  {
    BitShiftValue(irq);
    if irq >= 0 {
      DeviceIndex(irq);
    } else {
      SystemIndex(irq);
    }
  }

  /** The implemented interrupts are exactly those whose computed index is inside the registers. */
  lemma {:induction false} ImplementsExactly(r: PackedRegs, irq: Irq)
    requires r.Valid() && -16 <= irq
    ensures r.Implements(irq) <==> if irq >= 0 then IpIdx(irq) < |r.ipr| else ShpIdx(irq) < 2
  {
    if irq >= 0 {
      DeviceIndex(irq);
    } else {
      SystemIndex(irq);
    }
  }

  /** The registers after `__NVIC_SetPriority`. */
  function PackedSet(n: PrioBits, r: PackedRegs, irq: Irq, priority: Word): (r': PackedRegs)
    requires r.Valid() && r.Implements(irq)
    ensures r'.Valid() && |r'.ipr| == |r.ipr|
  {
    PackedSlot(r, irq);
    if irq >= 0 then
      r.(ipr := r.ipr[IpIdx(irq) := WithByte(r.ipr[IpIdx(irq)], BitShift(irq), Field(n, priority))])
    else
      r.(shpr := r.shpr[ShpIdx(irq) := WithByte(r.shpr[ShpIdx(irq)], BitShift(irq), Field(n, priority))])
  }

  /** What `__NVIC_GetPriority` reads. */
  function PackedGet(n: PrioBits, r: PackedRegs, irq: Irq): Word
    requires r.Valid() && r.Implements(irq)
  {
    PackedSlot(r, irq);
    if irq >= 0 then
      Shr(And(Shr(r.ipr[IpIdx(irq)], BitShift(irq)), 0xFF), 8 - n)
    else
      Shr(And(Shr(r.shpr[ShpIdx(irq)], BitShift(irq)), 0xFF), 8 - n)
  }

  /** A device call replaces one byte of `IPR` and no other. */
  lemma {:induction false} DeviceSetByte(n: PrioBits, r: PackedRegs, irq: Irq, priority: Word, i: Irq)
    requires r.Valid() && r.Implements(irq) && r.Implements(i) && irq >= 0
    ensures PackedByte(PackedSet(n, r, irq, priority), i) == if i == irq then Field(n, priority) else PackedByte(r, i)
  {
    BitShiftValue(irq);
    DeviceIndex(irq);
    if i >= 0 && i / 4 == irq / 4 {
      WithByteAt(r.ipr[irq / 4], irq % 4, Field(n, priority), i % 4);
    }
  }

  /** A call for an exception replaces one byte of `SHPR` and no other. */
  lemma {:induction false} SystemSetByte(n: PrioBits, r: PackedRegs, irq: Irq, priority: Word, i: Irq)
    requires r.Valid() && r.Implements(irq) && r.Implements(i) && irq < 0
    ensures PackedByte(PackedSet(n, r, irq, priority), i) == if i == irq then Field(n, priority) else PackedByte(r, i)
  {
    BitShiftValue(irq);
    SystemIndex(irq);
    if i < 0 && (i + 8) / 4 == (irq + 8) / 4 {
      WithByteAt(r.shpr[(irq + 8) / 4], irq % 4, Field(n, priority), i % 4);
    }
  }

  /** Seen as a map from interrupt to byte, a call changes exactly one entry. */
  lemma {:induction false} PackedSetView(n: PrioBits, r: PackedRegs, irq: Irq, priority: Word)
    requires r.Valid() && r.Implements(irq)
    ensures PackedView(PackedSet(n, r, irq, priority)) == PackedView(r)[irq := Field(n, priority)]
  {
    forall i: Irq | r.Implements(i)
      ensures PackedByte(PackedSet(n, r, irq, priority), i) == if i == irq then Field(n, priority) else PackedByte(r, i)
    {
      if irq >= 0 {
        DeviceSetByte(n, r, irq, priority, i);
      } else {
        SystemSetByte(n, r, irq, priority, i);
      }
    }
  }

  lemma {:induction false} PackedGetView(n: PrioBits, r: PackedRegs, irq: Irq)
    requires r.Valid() && r.Implements(irq)
    ensures PackedGet(n, r, irq) == Shr(PackedView(r)[irq], 8 - n)
  {
    BitShiftValue(irq);
    if irq >= 0 {
      DeviceIndex(irq);
    } else {
      SystemIndex(irq);
    }
  }

  // ---------------------------------------------------------------- runs of calls

  /** The priority bytes after a run of calls, whichever registers they are kept in. */
  function AfterCalls(n: PrioBits, m: Priorities, calls: seq<SetCall>): Priorities {
    if calls == [] then m
    else
      var k := |calls| - 1;
      AfterCalls(n, m, calls[..k])[calls[k].irq := Field(n, calls[k].priority)]
  }

  /** The last call for `irq`, or -1. */
  function LastCall(calls: seq<SetCall>, irq: Irq): (j: int)
    ensures -1 <= j < |calls|
  {
    LastWhere(calls, (c: SetCall) => c.irq == irq)
  }

  lemma {:induction false} LastPriorityInView(n: PrioBits, m: Priorities, calls: seq<SetCall>, irq: Irq)
    requires irq in m
    ensures irq in AfterCalls(n, m, calls)
    ensures var j := LastCall(calls, irq);
      Shr(AfterCalls(n, m, calls)[irq], 8 - n) == if j < 0 then Shr(m[irq], 8 - n) else calls[j].priority % Pow2(n)
  {
    if calls != [] {
      var k := |calls| - 1;
      LastPriorityInView(n, m, calls[..k], irq);
      if calls[k].irq == irq {
        FieldReadBack(n, calls[k].priority);
      }
    }
  }

  /** The packed registers after a run of calls. */
  function PackedRun(n: PrioBits, r: PackedRegs, calls: seq<SetCall>): (r': PackedRegs)
    requires r.Valid() && r.ImplementsAll(calls)
    ensures r'.Valid() && |r'.ipr| == |r.ipr|
  {
    if calls == [] then r
    else
      var k := |calls| - 1;
      var before := PackedRun(n, r, calls[..k]);
      assert r.Implements(calls[k].irq);
      PackedSet(n, before, calls[k].irq, calls[k].priority)
  }

  /** Over every run the packed registers hold the bytes of the map. */
  lemma {:induction false} PackedRunView(n: PrioBits, r: PackedRegs, calls: seq<SetCall>)
    requires r.Valid() && r.ImplementsAll(calls)
    ensures PackedView(PackedRun(n, r, calls)) == AfterCalls(n, PackedView(r), calls)
  {
    if calls != [] {
      var k := |calls| - 1;
      PackedRunView(n, r, calls[..k]);
      PackedSetView(n, PackedRun(n, r, calls[..k]), calls[k].irq, calls[k].priority);
    }
  }

  /**
   Over every run of calls on the packed registers, reading an interrupt's priority gives
   the last one set for it modulo 2^N; an interrupt that no call names reads as before.
   */
  lemma {:induction false} LastPriorityWins(n: PrioBits, r: PackedRegs, calls: seq<SetCall>, irq: Irq)
    requires r.Valid() && r.Implements(irq) && r.ImplementsAll(calls)
    ensures var j := LastCall(calls, irq);
      PackedGet(n, PackedRun(n, r, calls), irq) == if j < 0 then PackedGet(n, r, irq) else calls[j].priority % Pow2(n)
  {
    PackedRunView(n, r, calls);
    PackedGetView(n, r, irq);
    PackedGetView(n, PackedRun(n, r, calls), irq);
    LastPriorityInView(n, PackedView(r), calls, irq);
  }

  /** The packed layout: 124 words of device priorities in the Baseline header, 8 in the M0 header. */
  class PackedNvic {
    const prioBits: PrioBits
    const ipr: array<Word>
    const shpr: array<Word>

    ghost predicate Valid() {
      ipr != shpr && shpr.Length == 2 && 4 * ipr.Length < 0x8000_0000
    }

    function Regs(): PackedRegs
      reads ipr, shpr
    {
      PackedRegs(ipr[..], shpr[..])
    }

    ghost function View(): Priorities
      requires Valid()
      reads ipr, shpr
    {
      PackedView(Regs())
    }

    predicate Implements(irq: Irq) {
      -8 <= irq < 4 * ipr.Length
    }

    constructor (prioBits: PrioBits, words: nat)
      requires 4 * words < 0x8000_0000
      ensures Valid() && fresh(ipr) && fresh(shpr)
      ensures this.prioBits == prioBits && ipr.Length == words
    {
      this.prioBits := prioBits;
      ipr := new Word[words];
      shpr := new Word[2];
    }

    /** `__NVIC_SetPriority`. */
    method SetPriority(irq: Irq, priority: Word)
      requires Valid() && Implements(irq)
      modifies ipr, shpr
      ensures Regs() == PackedSet(prioBits, old(Regs()), irq, priority)
      ensures View() == old(View())[irq := Field(prioBits, priority)]
    {
      PackedSlot(Regs(), irq);
      PackedSetView(prioBits, Regs(), irq, priority);
      ghost var before := Regs();
      if irq >= 0 {
        ipr[IpIdx(irq)] := WithByte(ipr[IpIdx(irq)], BitShift(irq), Field(prioBits, priority));
      } else {
        shpr[ShpIdx(irq)] := WithByte(shpr[ShpIdx(irq)], BitShift(irq), Field(prioBits, priority));
      }
      assert Regs() == PackedSet(prioBits, before, irq, priority);
    }

    /** `__NVIC_GetPriority`. */
    function GetPriority(irq: Irq): (p: Word)
      requires Valid() && Implements(irq)
      reads ipr, shpr
      ensures p == PackedGet(prioBits, Regs(), irq) == Shr(View()[irq], 8 - prioBits)
    {
      PackedSlot(Regs(), irq);
      PackedGetView(prioBits, Regs(), irq);
      if irq >= 0 then
        Shr(And(Shr(ipr[IpIdx(irq)], BitShift(irq)), 0xFF), 8 - prioBits)
      else
        Shr(And(Shr(shpr[ShpIdx(irq)], BitShift(irq)), 0xFF), 8 - prioBits)
    }

    /** Any run of `__NVIC_SetPriority` calls. */
    method SetPriorities(calls: seq<SetCall>)
      requires Valid() && Regs().ImplementsAll(calls)
      modifies ipr, shpr
      ensures Regs() == PackedRun(prioBits, old(Regs()), calls)
      ensures View() == AfterCalls(prioBits, old(View()), calls)
    {
      PackedRunView(prioBits, Regs(), calls);
      var i := 0;
      while i < |calls|
        invariant i <= |calls|
        invariant Regs() == PackedRun(prioBits, old(Regs()), calls[..i])
      {
        SetPriority(calls[i].irq, calls[i].priority);
        i := i + 1;
        assert calls[..i][..i - 1] == calls[..i - 1];
      }
      assert calls[..i] == calls;
    }
  }
}
