/**
 The Mainline registers: one byte per priority, and the priority grouping kept in the
 application interrupt and reset control register (AIRCR), whose writes need a key.
 */
module MainlineNvic {
  import opened Bits
  import opened PriorityCode
  import opened NvicPriority

  type Half = x: int | 0 <= x < 0x1_0000

  const VECTKEY: Word := 0x5FA

  /** What `__NVIC_SetPriorityGrouping` writes, given what it has read. */
  function GroupingWord(aircr: Word, group: Word): Word {
    var kept := And(aircr, Not(OrWord(Shl(0xFFFF, 16), Shl(7, 8))));
    OrWord(OrWord(kept, Shl(VECTKEY, 16)), Shl(GroupOf(group), 8))
  }

  /** `__NVIC_GetPriorityGrouping` on a register value. */
  function GroupingField(aircr: Word): Word {
    Shr(And(aircr, Shl(7, 8)), 8)
  }

  lemma {:induction false} FieldMasks()
    ensures Mask(3) == 7 && Mask(16) == 0xFFFF
  {
    PowersOfTwo();
  }

  lemma {:induction false} KeyBit(i: nat)
    requires i >= 16
    ensures !Bit(VECTKEY, i)
  {
    PowersOfTwo();
    HighBits(VECTKEY, 16, i);
  }

  lemma {:induction false} UpperHalf(w: Word)
    ensures Shr(w, 16) == w / 0x1_0000
  {
    ShrValue(w, 16);
    PowersOfTwo();
  }

  /** The written word carries the key, the group, and in the other low bits what was read. */
  lemma {:induction false} GroupingWordFields(aircr: Word, group: Word)
    ensures var w := GroupingWord(aircr, group);
      && Shr(w, 16) == w / 0x1_0000 == 0x05FA
      && GroupingField(w) == group % 8
      && forall i: nat :: i < 16 && !(8 <= i < 11) ==> (Bit(w, i) <==> Bit(aircr, i))
  {
    var w := GroupingWord(aircr, group);
    UpperHalf(w);
    FieldMasks();
    var g := GroupOf(group);
    forall i: nat | i < 32
      ensures Bit(w, i)
         <==> if i >= 16 then Bit(VECTKEY, i - 16) else if 8 <= i < 11 then Bit(g, i - 8) else Bit(aircr, i)
    {
      GroupingWordBit(aircr, group, i);
    }
    WordHighBits(w);
    forall i: nat | i < 32 ensures Bit(Shr(w, 16), i) == Bit(VECTKEY, i) {
      if i >= 16 {
        KeyBit(i);
      }
    }
    WordExtensional(Shr(w, 16), VECTKEY);
    PowersOfTwo();
    forall i: nat | i < 32 ensures Bit(GroupingField(w), i) == Bit(g, i) {
      if i >= 3 {
        HighBits(g, 3, i);
      }
    }
    WordExtensional(GroupingField(w), g);
  }

  lemma {:induction false} GroupingWordBit(aircr: Word, group: Word, i: nat)
    requires i < 32
    ensures Bit(GroupingWord(aircr, group), i)
       <==> if i >= 16 then Bit(VECTKEY, i - 16) else if 8 <= i < 11 then Bit(GroupOf(group), i - 8) else Bit(aircr, i)
  {
    FieldMasks();
    GroupBit(group, i);
  }

  lemma {:induction false} GroupBit(group: Word, i: nat)
    requires i < 32
    ensures Bit(Shl(GroupOf(group), 8), i) <==> 8 <= i < 11 && Bit(GroupOf(group), i - 8)
  {
    if i >= 11 {
      assert Pow2(3) == 8;
      HighBits(GroupOf(group), 3, i - 8);
    }
  }

  lemma {:induction false} AircrLowHalf(key: Half, half: Half)
    ensures forall i: nat :: i < 16 ==> (Bit(OrWord(Shl(key, 16), half), i) <==> Bit(half, i))
  {
  }

  /** The grouping field lies in the low half of the register. */
  lemma {:induction false} GroupingInLowHalf(aircr: Word, half: Word)
    requires forall i: nat :: i < 16 ==> (Bit(aircr, i) <==> Bit(half, i))
    ensures GroupingField(aircr) == GroupingField(half)
  {
    FieldMasks();
    WordExtensional(GroupingField(aircr), GroupingField(half));
  }

  /** Decoded under `group`, the value `p` gives both parts, truncated to the widths of the group. */
  ghost predicate DecodesTo(n: PrioBits, p: Word, group: Word, preempt: Word, sub: Word) {
    && DecodedPreempt(n, p, group) == preempt % Pow2(PreemptBits(n, group))
    && DecodedSub(n, p, group) == sub % Pow2(SubBits(n, group))
  }

  /** The grouping that is read back splits priorities like the one that was requested. */
  lemma {:induction false} GroupingReadBack(n: PrioBits, group: Word)
    ensures PreemptBits(n, group % 8) == PreemptBits(n, group) && SubBits(n, group % 8) == SubBits(n, group)
    ensures PreemptBits(n, group) + SubBits(n, group) == n
  {
    WidthsSum(n, group);
    WidthsSum(n, group % 8);
  }

  /** An encoded priority survives being stored and read back, and decodes to its parts. */
  lemma {:induction false} EncodedPriorityReadBack(n: PrioBits, group: Word, preempt: Word, sub: Word)
    ensures var x := Encode(n, group, preempt, sub);
      && Shr(Field(n, x), 8 - n) == x
      && DecodesTo(n, x, group, preempt, sub)
  {
    var x := Encode(n, group, preempt, sub);
    EncodedValue(n, group, preempt, sub);
    FieldReadBack(n, x);
    DivUnique(x, Pow2(n), 0, x);
    DecodeEncode(n, group, preempt, sub);
  }

  /** The group that is read back decodes like the requested one; parts that fit it come back unchanged. */
  lemma {:induction false} DecodesUnderRequest(n: PrioBits, p: Word, group: Word, preempt: Word, sub: Word)
    requires DecodesTo(n, p, group % 8, preempt, sub)
    ensures DecodesTo(n, p, group, preempt, sub)
    ensures preempt < Pow2(PreemptBits(n, group)) ==> DecodedPreempt(n, p, group) == preempt
    ensures sub < Pow2(SubBits(n, group)) ==> DecodedSub(n, p, group) == sub
  {
    GroupingReadBack(n, group);
    if preempt < Pow2(PreemptBits(n, group)) {
      DivUnique(preempt, Pow2(PreemptBits(n, group)), 0, preempt);
    }
    if sub < Pow2(SubBits(n, group)) {
      DivUnique(sub, Pow2(SubBits(n, group)), 0, sub);
    }
  }

  // ---------------------------------------------------------------- the byte registers

  /** The byte registers: `IPR`, and the twelve bytes of `SHPR`. */
  datatype ByteRegs = ByteRegs(ipr: seq<Byte>, shpr: seq<Byte>) {
    predicate Valid() {
      |shpr| == 12 && |ipr| < 0x8000_0000
    }

    predicate Implements(irq: Irq) {
      -12 <= irq < |ipr|
    }

    predicate ImplementsAll(calls: seq<SetCall>) {
      forall k :: 0 <= k < |calls| ==> Implements(calls[k].irq)
    }
  }

  ghost function ByteView(r: ByteRegs): Priorities
    requires r.Valid()
  {
    map irq: Irq | r.Implements(irq) :: if irq >= 0 then r.ipr[irq] else r.shpr[irq + 12]
  }

  lemma {:induction false} ByteSlot(r: ByteRegs, irq: Irq)
    requires r.Valid() && r.Implements(irq)
    ensures if irq >= 0 then Unsigned(irq) == irq else ShprIndex(irq) == irq + 12
  {
    if irq < 0 {
      SystemByteIndex(irq);
    }
  }

  /** The implemented interrupts are exactly those whose computed index is inside the registers. */
  lemma {:induction false} ByteImplementsExactly(r: ByteRegs, irq: Irq)
    requires r.Valid() && -16 <= irq
    ensures r.Implements(irq) <==> if irq >= 0 then Unsigned(irq) < |r.ipr| else ShprIndex(irq) < 12
  {
    if irq < 0 {
      SystemByteIndex(irq);
    }
  }

  /** The registers after `__NVIC_SetPriority`. */
  function ByteSet(n: PrioBits, r: ByteRegs, irq: Irq, priority: Word): (r': ByteRegs)
    requires r.Valid() && r.Implements(irq)
    ensures r'.Valid() && |r'.ipr| == |r.ipr|
    ensures ByteView(r') == ByteView(r)[irq := Field(n, priority)]
  {
    ByteSlot(r, irq);
    if irq >= 0 then
      r.(ipr := r.ipr[Unsigned(irq) := Field(n, priority)])
    else
      r.(shpr := r.shpr[ShprIndex(irq) := Field(n, priority)])
  }

  /** What `__NVIC_GetPriority` reads. */
  function ByteGet(n: PrioBits, r: ByteRegs, irq: Irq): (p: Word)
    requires r.Valid() && r.Implements(irq)
    ensures p == Shr(ByteView(r)[irq], 8 - n)
  {
    ByteSlot(r, irq);
    if irq >= 0 then Shr(r.ipr[Unsigned(irq)], 8 - n) else Shr(r.shpr[ShprIndex(irq)], 8 - n)
  }

  /** The byte registers after a run of calls. */
  function ByteRun(n: PrioBits, r: ByteRegs, calls: seq<SetCall>): (r': ByteRegs)
    requires r.Valid() && r.ImplementsAll(calls)
    ensures r'.Valid() && |r'.ipr| == |r.ipr|
    ensures ByteView(r') == AfterCalls(n, ByteView(r), calls)
  {
    if calls == [] then r
    else
      var k := |calls| - 1;
      var before := ByteRun(n, r, calls[..k]);
      assert r.Implements(calls[k].irq);
      ByteSet(n, before, calls[k].irq, calls[k].priority)
  }

  /** The last priority set is the one read, on the byte registers too. */
  lemma {:induction false} LastPriorityWinsInBytes(n: PrioBits, r: ByteRegs, calls: seq<SetCall>, irq: Irq)
    requires r.Valid() && r.Implements(irq) && r.ImplementsAll(calls)
    ensures var j := LastCall(calls, irq);
      ByteGet(n, ByteRun(n, r, calls), irq) == if j < 0 then ByteGet(n, r, irq) else calls[j].priority % Pow2(n)
  {
    LastPriorityInView(n, ByteView(r), calls, irq);
  }

  /** Every interrupt that both layouts implement has the same priority in both. */
  ghost predicate SameReads(n: PrioBits, packed: PackedRegs, bytes: ByteRegs)
    requires packed.Valid() && bytes.Valid()
  {
    forall irq: Irq :: packed.Implements(irq) && bytes.Implements(irq) ==>
      PackedGet(n, packed, irq) == ByteGet(n, bytes, irq)
  }

  /** The packed registers refine the byte registers over every run of calls. */
  lemma {:induction false} LayoutsAgree(n: PrioBits, packed: PackedRegs, bytes: ByteRegs, calls: seq<SetCall>)
    requires packed.Valid() && bytes.Valid() && SameReads(n, packed, bytes)
    requires packed.ImplementsAll(calls) && bytes.ImplementsAll(calls)
    ensures SameReads(n, PackedRun(n, packed, calls), ByteRun(n, bytes, calls))
  {
    forall irq: Irq | packed.Implements(irq) && bytes.Implements(irq)
      ensures PackedGet(n, PackedRun(n, packed, calls), irq) == ByteGet(n, ByteRun(n, bytes, calls), irq)
    {
      LastPriorityWins(n, packed, calls, irq);
      LastPriorityWinsInBytes(n, bytes, calls, irq);
    }
  }

  /** One byte per device interrupt: 496 of them in the Mainline header. */
  class ByteNvic {
    const prioBits: PrioBits
    const ipr: array<Byte>
    const shpr: array<Byte>
    /** What the key half of AIRCR reads as; it is not what is written there. */
    const vectKeyStat: Half
    var aircrLow: Half

    ghost predicate Valid() {
      ipr != shpr && ipr.Length < 0x8000_0000 && shpr.Length == 12
    }

    function Regs(): ByteRegs
      reads ipr, shpr
    {
      ByteRegs(ipr[..], shpr[..])
    }

    predicate Implements(irq: Irq) {
      -12 <= irq < ipr.Length
    }

    ghost function View(): Priorities
      requires Valid()
      reads ipr, shpr
    {
      ByteView(Regs())
    }

    constructor (prioBits: PrioBits, vectKeyStat: Half, interrupts: nat)
      requires interrupts < 0x8000_0000
      ensures Valid() && fresh(ipr) && fresh(shpr)
      ensures this.prioBits == prioBits && this.vectKeyStat == vectKeyStat && aircrLow == 0
      ensures ipr.Length == interrupts
    {
      this.prioBits := prioBits;
      this.vectKeyStat := vectKeyStat;
      aircrLow := 0;
      ipr := new Byte[interrupts];
      shpr := new Byte[12];
    }

    /** `__NVIC_SetPriority`. */
    method SetPriority(irq: Irq, priority: Word)
      requires Valid() && Implements(irq)
      modifies ipr, shpr
      ensures Regs() == ByteSet(prioBits, old(Regs()), irq, priority)
      ensures View() == old(View())[irq := Field(prioBits, priority)]
    {
      ByteSlot(Regs(), irq);
      ghost var before := Regs();
      if irq >= 0 {
        ipr[Unsigned(irq)] := Field(prioBits, priority);
      } else {
        shpr[ShprIndex(irq)] := Field(prioBits, priority);
      }
      assert Regs() == ByteSet(prioBits, before, irq, priority);
    }

    /** `__NVIC_GetPriority`. */
    function GetPriority(irq: Irq): (p: Word)
      requires Valid() && Implements(irq)
      reads ipr, shpr
      ensures p == ByteGet(prioBits, Regs(), irq) == Shr(View()[irq], 8 - prioBits)
    {
      ByteSlot(Regs(), irq);
      if irq >= 0 then Shr(ipr[Unsigned(irq)], 8 - prioBits) else Shr(shpr[ShprIndex(irq)], 8 - prioBits)
    }

    /** Any run of `__NVIC_SetPriority` calls. */
    method SetPriorities(calls: seq<SetCall>)
      requires Valid() && Regs().ImplementsAll(calls)
      modifies ipr, shpr
      ensures Regs() == ByteRun(prioBits, old(Regs()), calls)
      ensures View() == AfterCalls(prioBits, old(View()), calls)
    {
      var i := 0;
      while i < |calls|
        invariant i <= |calls|
        invariant Regs() == ByteRun(prioBits, old(Regs()), calls[..i])
      {
        SetPriority(calls[i].irq, calls[i].priority);
        i := i + 1;
        assert calls[..i][..i - 1] == calls[..i - 1];
      }
      assert calls[..i] == calls;
    }

    /** A load of AIRCR. */
    function ReadAircr(): Word
      reads this`aircrLow
    {
      OrWord(Shl(vectKeyStat, 16), aircrLow)
    }

    /** A store to AIRCR: without the key in its upper half it is ignored. */
    method WriteAircr(w: Word)
      modifies this`aircrLow
      ensures aircrLow == if Shr(w, 16) == 0x05FA then Low(w, 16) else old(aircrLow)
    {
      PowersOfTwo();
      if Shr(w, 16) == VECTKEY {
        aircrLow := Low(w, 16);
      }
    }

    /** `__NVIC_SetPriorityGrouping`: the group is stored, every other bit keeps its value. */
    method SetPriorityGrouping(group: Word)
      modifies this`aircrLow
      ensures GetPriorityGrouping() == group % 8
      ensures forall i: nat :: i < 16 && !(8 <= i < 11) ==> (Bit(aircrLow, i) <==> Bit(old(aircrLow), i))
    {
      var w := GroupingWord(ReadAircr(), group);
      GroupingWordFields(ReadAircr(), group);
      AircrLowHalf(vectKeyStat, aircrLow);
      WriteAircr(w);
      AircrLowHalf(vectKeyStat, aircrLow);
      GroupingInLowHalf(ReadAircr(), w);
    }

    /** `__NVIC_GetPriorityGrouping`. */
    function GetPriorityGrouping(): Word
      reads this`aircrLow
    {
      GroupingField(ReadAircr())
    }

    /**
     `HAL_NVIC_SetPriority`: encodes with the grouping read back. Decoding what can then be
     read from the priority register gives both parts, truncated to their widths.
     */
    method HalSetPriority(irq: Irq, preempt: Word, sub: Word)
      requires Valid() && Implements(irq)
      modifies ipr, shpr
      ensures View() == old(View()[irq := Field(prioBits, Encode(prioBits, GetPriorityGrouping(), preempt, sub))])
      ensures DecodesTo(prioBits, GetPriority(irq), GetPriorityGrouping(), preempt, sub)
    {
      var group := GetPriorityGrouping();
      var priority := Encode(prioBits, group, preempt, sub);
      EncodedPriorityReadBack(prioBits, group, preempt, sub);
      SetPriority(irq, priority);
      assert GetPriority(irq) == priority;
    }

    /**
     `HAL_NVIC_SetPriorityGrouping` and then `HAL_NVIC_SetPriority`: a pair that fits the
     requested group is read back under that group.
     */
    method SetGroupAndPriority(group: Word, irq: Irq, preempt: Word, sub: Word) returns (priority: Word)
      requires Valid() && Implements(irq)
      modifies ipr, shpr, this`aircrLow
      ensures priority == GetPriority(irq)
      ensures DecodesTo(prioBits, priority, group, preempt, sub)
      ensures preempt < Pow2(PreemptBits(prioBits, group)) ==> DecodedPreempt(prioBits, priority, group) == preempt
      ensures sub < Pow2(SubBits(prioBits, group)) ==> DecodedSub(prioBits, priority, group) == sub
    {
      SetPriorityGrouping(group);
      HalSetPriority(irq, preempt, sub);
      priority := GetPriority(irq);
      DecodesUnderRequest(prioBits, priority, group, preempt, sub);
    }
  }

  /** A load of AIRCR gives the key status above the stored half. */
  lemma {:induction false} ReadAircrHalves(nvic: ByteNvic)
    ensures nvic.ReadAircr() / 0x1_0000 == nvic.vectKeyStat && Low(nvic.ReadAircr(), 16) == nvic.aircrLow
  {
    var w := nvic.ReadAircr();
    UpperHalf(w);
    AircrLowHalf(nvic.vectKeyStat, nvic.aircrLow);
    HalfBits(nvic.vectKeyStat);
    HalfBits(nvic.aircrLow);
    forall i: nat | i < 32 ensures Bit(Shr(w, 16), i) == Bit(nvic.vectKeyStat, i) {
    }
    WordExtensional(Shr(w, 16), nvic.vectKeyStat);
    PowersOfTwo();
    Extensional(Low(w, 16), nvic.aircrLow, 16);
  }

  lemma {:induction false} HalfBits(half: Half)
    ensures forall i: nat {:trigger Bit(half, i)} :: i >= 16 ==> !Bit(half, i)
  {
    PowersOfTwo();
    forall i: nat | i >= 16 ensures !Bit(half, i) {
      HighBits(half, 16, i);
    }
  }

  /** The same calls on both sets of registers leave the same priorities to be read. */
  method SetInBoth(packed: PackedNvic, bytes: ByteNvic, calls: seq<SetCall>)
    requires packed.Valid() && bytes.Valid() && packed.prioBits == bytes.prioBits
    requires packed.Regs().ImplementsAll(calls) && bytes.Regs().ImplementsAll(calls)
    requires forall irq: Irq :: packed.Implements(irq) && bytes.Implements(irq) ==>
      packed.GetPriority(irq) == bytes.GetPriority(irq)
    modifies packed.ipr, packed.shpr, bytes.ipr, bytes.shpr
    ensures forall irq: Irq :: packed.Implements(irq) && bytes.Implements(irq) ==>
      packed.GetPriority(irq) == bytes.GetPriority(irq)
  {
    ghost var n, p, b := packed.prioBits, packed.Regs(), bytes.Regs();
    assert SameReads(n, p, b) by {
      forall irq: Irq | p.Implements(irq) && b.Implements(irq) ensures PackedGet(n, p, irq) == ByteGet(n, b, irq) {
        assert packed.GetPriority(irq) == bytes.GetPriority(irq);
      }
    }
    LayoutsAgree(n, p, b, calls);
    packed.SetPriorities(calls);
    bytes.SetPriorities(calls);
    assert SameReads(n, packed.Regs(), bytes.Regs());
  }
}
