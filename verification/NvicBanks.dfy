/**
 The enable, pending and target-state bits: one bit per interrupt in banks of 32-bit
 registers. Enable and pending bits are set and cleared through pairs of registers where
 only the ones written count; target-state bits are rewritten word by word.
 */
module NvicBanks {
  import opened Bits
  import opened NvicPriority

  /** `1UL << (IRQn & 0x1FUL)`. */
  function BitMask(irq: Irq): Word {
    ShiftRange(irq);
    Shl(1, And(Unsigned(irq), 0x1F))
  }

  /** `IRQn >> 5UL`. */
  function WordIdx(irq: Irq): Word {
    Shr(Unsigned(irq), 5)
  }

  lemma {:induction false} ShiftRange(irq: Irq)
    ensures And(Unsigned(irq), 0x1F) == irq % 32
  {
    FiveBits();
    AndMask(Unsigned(irq), 5);
    LowFive(irq);
  }

  lemma {:induction false} FiveBits()
    ensures Mask(5) == 0x1F && Pow2(5) == 32
  {
    PowersOfTwo();
  }

  lemma {:induction false} LowFive(irq: Irq)
    ensures Unsigned(irq) % 32 == irq % 32
  {
  }

  lemma {:induction false} SamePosition(i: Irq, j: Irq)
    ensures i == j <==> i / 32 == j / 32 && i % 32 == j % 32
  {
  }

  lemma {:induction false} WordIdxValue(irq: Irq)
    requires irq >= 0
    ensures WordIdx(irq) == irq / 32
  {
    FiveBits();
    ShrValue(irq, 5);
  }

  lemma {:induction false} BitMaskBits(irq: Irq)
    ensures forall i: nat {:trigger Bit(BitMask(irq), i)} :: Bit(BitMask(irq), i) <==> i == irq % 32
  {
    ShiftRange(irq);
    OneBits();
  }

  /** As a number the mask is a power of two. */
  lemma {:induction false} BitMaskValue(irq: Irq)
    ensures BitMask(irq) == Pow2(irq % 32)
  {
    ShiftRange(irq);
    OneShifted(irq % 32);
  }

  lemma {:induction false} OneShifted(k: nat)
    requires k < 32
    ensures Shl(1, k) == Pow2(k)
  {
    PowerMonotone(k, 31);
    PowersOfTwo();
    ShlExact(1, k, Pow2(k));
  }

  lemma {:induction false} BitMaskTest(w: Word, irq: Irq)
    ensures And(w, BitMask(irq)) != 0 <==> Bit(w, irq % 32)
  {
    BitMaskBits(irq);
    ZeroBits();
    var masked := And(w, BitMask(irq));
    assert Bit(masked, irq % 32) <==> Bit(w, irq % 32);
    if !Bit(w, irq % 32) {
      WordExtensional(masked, 0);
    }
  }

  // ---------------------------------------------------------------- a bank as a set

  /** The interrupts whose bit is set in a bank. */
  ghost function Members(bank: seq<Word>): set<Irq> {
    set irq: Irq | 0 <= irq < 32 * |bank| && Bit(bank[irq / 32], irq % 32)
  }

  /** Whether `i` is a member once the word of `irq` has become `w`. */
  lemma {:induction false} MemberAfter(bank: seq<Word>, irq: Irq, k: nat, w: Word, i: Irq)
    requires 0 <= irq < 32 * |bank| && k == irq / 32
    requires forall j: nat {:trigger Bit(w, j)} :: j < 32 && j != irq % 32 ==> (Bit(w, j) <==> Bit(bank[k], j))
    ensures i in Members(bank[k := w]) <==> if i == irq then Bit(w, irq % 32) else i in Members(bank)
  {
    SamePosition(i, irq);
  }

  /** Writing a one-bit mask to a set register. */
  lemma {:induction false} MembersAfterSet(bank: seq<Word>, irq: Irq)
    requires 0 <= irq < 32 * |bank|
    ensures var k := irq / 32; Members(bank[k := OrWord(bank[k], BitMask(irq))]) == Members(bank) + {irq}
  {
    BitMaskBits(irq);
    var k := irq / 32;
    var w := OrWord(bank[k], BitMask(irq));
    forall i: Irq ensures i in Members(bank[k := w]) <==> i in Members(bank) || i == irq {
      MemberAfter(bank, irq, k, w, i);
    }
  }

  /** Writing a one-bit mask to a clear register. */
  lemma {:induction false} MembersAfterClear(bank: seq<Word>, irq: Irq)
    requires 0 <= irq < 32 * |bank|
    ensures var k := irq / 32; Members(bank[k := And(bank[k], Not(BitMask(irq)))]) == Members(bank) - {irq}
  {
    BitMaskBits(irq);
    var k := irq / 32;
    var w := And(bank[k], Not(BitMask(irq)));
    forall i: Irq ensures i in Members(bank[k := w]) <==> i in Members(bank) && i != irq {
      MemberAfter(bank, irq, k, w, i);
    }
  }

  // ---------------------------------------------------------------- calls on a bank

  datatype BankCall = Enable(irq: Irq) | Disable(irq: Irq)

  predicate Covers(bank: seq<Word>, calls: seq<BankCall>) {
    forall k :: 0 <= k < |calls| ==> calls[k].irq < 32 * |bank|
  }

  /** The bank after `__NVIC_EnableIRQ` or `__NVIC_DisableIRQ`. */
  function BankStep(bank: seq<Word>, call: BankCall): (after: seq<Word>)
    requires call.irq < 32 * |bank|
    ensures |after| == |bank|
  {
    if call.irq < 0 then bank
    else
      WordIdxValue(call.irq);
      var k := WordIdx(call.irq);
      match call
      case Enable(irq) => bank[k := OrWord(bank[k], BitMask(irq))]
      case Disable(irq) => bank[k := And(bank[k], Not(BitMask(irq)))]
  }

  /** What `__NVIC_GetEnableIRQ` and `__NVIC_GetPendingIRQ` read. */
  function BankGet(bank: seq<Word>, irq: Irq): (r: Word)
    requires irq < 32 * |bank|
    ensures r == if irq in Members(bank) then 1 else 0
  {
    if irq >= 0 then
      WordIdxValue(irq);
      BitMaskTest(bank[WordIdx(irq)], irq);
      if And(bank[WordIdx(irq)], BitMask(irq)) != 0 then 1 else 0
    else
      0
  }

  /** The bank after a run of calls. */
  function BankRun(bank: seq<Word>, calls: seq<BankCall>): (after: seq<Word>)
    requires Covers(bank, calls)
    ensures |after| == |bank|
  {
    if calls == [] then bank
    else
      var k := |calls| - 1;
      BankStep(BankRun(bank, calls[..k]), calls[k])
  }

  /** The enabled interrupts after one call. */
  function AfterBankCall(s: set<Irq>, call: BankCall): set<Irq> {
    match call
    case Enable(irq) => s + if irq >= 0 then {irq} else {}
    case Disable(irq) => s - if irq >= 0 then {irq} else {}
  }

  /** The enabled interrupts after a run of calls. */
  function AfterBankCalls(s: set<Irq>, calls: seq<BankCall>): set<Irq> {
    if calls == [] then s
    else
      var k := |calls| - 1;
      AfterBankCall(AfterBankCalls(s, calls[..k]), calls[k])
  }

  lemma {:induction false} BankStepMembers(bank: seq<Word>, call: BankCall)
    requires call.irq < 32 * |bank|
    ensures Members(BankStep(bank, call)) == AfterBankCall(Members(bank), call)
  {
    if call.irq >= 0 {
      WordIdxValue(call.irq);
      match call
      case Enable(irq) => MembersAfterSet(bank, irq);
      case Disable(irq) => MembersAfterClear(bank, irq);
    }
  }

  /** Over every run the registers hold the set. */
  lemma {:induction false} BankRunMembers(bank: seq<Word>, calls: seq<BankCall>)
    requires Covers(bank, calls)
    ensures Members(BankRun(bank, calls)) == AfterBankCalls(Members(bank), calls)
  {
    if calls != [] {
      var k := |calls| - 1;
      BankRunMembers(bank, calls[..k]);
      BankStepMembers(BankRun(bank, calls[..k]), calls[k]);
    }
  }

  /** The last call for `irq`, or -1. */
  function LastBankCall(calls: seq<BankCall>, irq: Irq): (j: int)
    ensures -1 <= j < |calls|
  {
    LastWhere(calls, (c: BankCall) => c.irq == irq)
  }

  /** What is read when call `j` was the last to count, or the old reading when there is none. */
  function ReadAfter(calls: seq<BankCall>, j: int, before: Word): Word
    requires -1 <= j < |calls|
  {
    if j < 0 then before else if calls[j].Enable? then 1 else 0
  }

  lemma {:induction false} LastCallDecides(s: set<Irq>, calls: seq<BankCall>, irq: Irq)
    requires irq >= 0
    ensures var j := LastBankCall(calls, irq);
      irq in AfterBankCalls(s, calls) <==> if j < 0 then irq in s else calls[j].Enable?
  {
    if calls != [] {
      LastCallDecides(s, calls[..|calls| - 1], irq);
    }
  }

  /** Over every run of calls on the registers, the last call for an interrupt decides what is read. */
  lemma {:induction false} LastEnableWins(bank: seq<Word>, calls: seq<BankCall>, irq: Irq)
    requires Covers(bank, calls) && 0 <= irq < 32 * |bank|
    ensures BankGet(BankRun(bank, calls), irq) == ReadAfter(calls, LastBankCall(calls, irq), BankGet(bank, irq))
  {
    BankRunMembers(bank, calls);
    LastCallDecides(Members(bank), calls, irq);
  }

  /** The Baseline and Mainline banks. */
  class IrqBanks {
    const enabled: array<Word>
    const pending: array<Word>
    const nonSecure: array<Word>

    ghost predicate Valid() {
      && enabled != pending && enabled != nonSecure && pending != nonSecure
      && enabled.Length == pending.Length == nonSecure.Length <= 0x400_0000
    }

    predicate Implements(irq: Irq) {
      irq < 32 * enabled.Length
    }

    /** After reset every bit is zero. */
    constructor (words: nat)
      requires words <= 0x400_0000
      ensures Valid() && fresh(enabled) && fresh(pending) && fresh(nonSecure) && enabled.Length == words
      ensures Members(enabled[..]) == Members(pending[..]) == Members(nonSecure[..]) == {}
    {
      enabled := new Word[words](_ => 0);
      pending := new Word[words](_ => 0);
      nonSecure := new Word[words](_ => 0);
      new;
      ZeroBits();
    }

    /** A store to `ISER[k]` or `ISPR[k]`: ones set bits, zeros have no effect. */
    method StoreToSetRegister(bank: array<Word>, k: Word, w: Word)
      requires k < bank.Length
      modifies bank
      ensures bank[..] == old(bank[..])[k := OrWord(old(bank[k]), w)]
    {
      bank[k] := OrWord(bank[k], w);
    }

    /** A store to `ICER[k]` or `ICPR[k]`: ones clear bits, zeros have no effect. */
    method StoreToClearRegister(bank: array<Word>, k: Word, w: Word)
      requires k < bank.Length
      modifies bank
      ensures bank[..] == old(bank[..])[k := And(old(bank[k]), Not(w))]
    {
      bank[k] := And(bank[k], Not(w));
    }

    /** `__NVIC_EnableIRQ`. */
    method EnableIRQ(irq: Irq)
      requires Valid() && Implements(irq)
      modifies enabled
      ensures enabled[..] == BankStep(old(enabled[..]), Enable(irq))
      ensures Members(enabled[..]) == old(Members(enabled[..])) + if irq >= 0 then {irq} else {}
    {
      BankStepMembers(enabled[..], Enable(irq));
      if irq >= 0 {
        WordIdxValue(irq);
        StoreToSetRegister(enabled, WordIdx(irq), BitMask(irq));
      }
    }

    /** `__NVIC_DisableIRQ`. */
    method DisableIRQ(irq: Irq)
      requires Valid() && Implements(irq)
      modifies enabled
      ensures enabled[..] == BankStep(old(enabled[..]), Disable(irq))
      ensures Members(enabled[..]) == old(Members(enabled[..])) - if irq >= 0 then {irq} else {}
    {
      BankStepMembers(enabled[..], Disable(irq));
      if irq >= 0 {
        WordIdxValue(irq);
        StoreToClearRegister(enabled, WordIdx(irq), BitMask(irq));
      }
    }

    /** Any run of the two calls. */
    method Perform(calls: seq<BankCall>)
      requires Valid() && Covers(enabled[..], calls)
      modifies enabled
      ensures enabled[..] == BankRun(old(enabled[..]), calls)
      ensures Members(enabled[..]) == AfterBankCalls(old(Members(enabled[..])), calls)
    {
      BankRunMembers(enabled[..], calls);
      var i := 0;
      while i < |calls|
        invariant i <= |calls|
        invariant enabled[..] == BankRun(old(enabled[..]), calls[..i])
      {
        match calls[i] {
          case Enable(irq) => EnableIRQ(irq);
          case Disable(irq) => DisableIRQ(irq);
        }
        i := i + 1;
        assert calls[..i][..i - 1] == calls[..i - 1];
      }
      assert calls[..i] == calls;
    }

    /** `__NVIC_SetPendingIRQ`. */
    method SetPendingIRQ(irq: Irq)
      requires Valid() && Implements(irq)
      modifies pending
      ensures Members(pending[..]) == old(Members(pending[..])) + if irq >= 0 then {irq} else {}
    {
      if irq >= 0 {
        WordIdxValue(irq);
        MembersAfterSet(pending[..], irq);
        StoreToSetRegister(pending, WordIdx(irq), BitMask(irq));
      }
    }

    /** `__NVIC_ClearPendingIRQ`. */
    method ClearPendingIRQ(irq: Irq)
      requires Valid() && Implements(irq)
      modifies pending
      ensures Members(pending[..]) == old(Members(pending[..])) - if irq >= 0 then {irq} else {}
    {
      if irq >= 0 {
        WordIdxValue(irq);
        MembersAfterClear(pending[..], irq);
        StoreToClearRegister(pending, WordIdx(irq), BitMask(irq));
      }
    }

    /** `__NVIC_GetEnableIRQ` and `__NVIC_GetPendingIRQ`: a register of the bank read through the mask. */
    function GetBit(bank: array<Word>, irq: Irq): (r: Word)
      requires irq < 32 * bank.Length
      reads bank
      ensures r == BankGet(bank[..], irq) == if irq in Members(bank[..]) then 1 else 0
    {
      if irq >= 0 then
        WordIdxValue(irq);
        if And(bank[WordIdx(irq)], BitMask(irq)) != 0 then 1 else 0
      else
        0
    }

    /** `NVIC_SetTargetState`: a read-modify-write, and the new bit is read back. */
    method SetTargetState(irq: Irq) returns (r: Word)
      requires Valid() && Implements(irq)
      modifies nonSecure
      ensures Members(nonSecure[..]) == old(Members(nonSecure[..])) + if irq >= 0 then {irq} else {}
      ensures r == if irq >= 0 then 1 else 0
    {
      if irq >= 0 {
        WordIdxValue(irq);
        ghost var before := nonSecure[..];
        MembersAfterSet(before, irq);
        nonSecure[WordIdx(irq)] := OrWord(nonSecure[WordIdx(irq)], BitMask(irq));
        assert nonSecure[..] == before[irq / 32 := OrWord(before[irq / 32], BitMask(irq))];
      }
      r := GetBit(nonSecure, irq);
    }

    /** `NVIC_ClearTargetState`. */
    method ClearTargetState(irq: Irq) returns (r: Word)
      requires Valid() && Implements(irq)
      modifies nonSecure
      ensures Members(nonSecure[..]) == old(Members(nonSecure[..])) - if irq >= 0 then {irq} else {}
      ensures r == 0
    {
      if irq >= 0 {
        WordIdxValue(irq);
        ghost var before := nonSecure[..];
        MembersAfterClear(before, irq);
        nonSecure[WordIdx(irq)] := And(nonSecure[WordIdx(irq)], Not(BitMask(irq)));
        assert nonSecure[..] == before[irq / 32 := And(before[irq / 32], Not(BitMask(irq)))];
      }
      r := GetBit(nonSecure, irq);
    }
  }

  // ---------------------------------------------------------------- the one-word bank

  /** The interrupts whose bit is set in a single register. */
  ghost function WordMembers(w: Word): set<Irq> {
    set irq: Irq | 0 <= irq < 32 && Bit(w, irq)
  }

  lemma {:induction false} WordMembersUpdate(w: Word, irq: Irq)
    ensures WordMembers(OrWord(w, BitMask(irq))) == WordMembers(w) + {irq % 32}
    ensures WordMembers(And(w, Not(BitMask(irq)))) == WordMembers(w) - {irq % 32}
  {
    BitMaskBits(irq);
  }

  /** The register after a call; only the low five bits of the interrupt number are looked at. */
  function WordStep(w: Word, call: BankCall): Word {
    if call.irq < 0 then w
    else
      match call
      case Enable(irq) => OrWord(w, BitMask(irq))
      case Disable(irq) => And(w, Not(BitMask(irq)))
  }

  function WordGet(w: Word, irq: Irq): (r: Word)
    ensures r == if irq >= 0 && irq % 32 in WordMembers(w) then 1 else 0
  {
    if irq >= 0 then
      BitMaskTest(w, irq);
      if And(w, BitMask(irq)) != 0 then 1 else 0
    else
      0
  }

  lemma {:induction false} LowRead(w: Word, r: Irq)
    requires 0 <= r < 32
    ensures WordGet(w, r) == if r in WordMembers(w) then 1 else 0
  {
    assert r % 32 == r;
  }

  lemma {:induction false} FirstWordRead(bank: seq<Word>, irq: Irq)
    requires |bank| > 0 && irq < 32
    ensures WordGet(bank[0], irq) == BankGet(bank, irq)
  {
    if irq >= 0 {
      WordIdxValue(irq);
      assert WordIdx(irq) == 0;
    }
  }

  /** The register after a run of calls. */
  function WordRun(w: Word, calls: seq<BankCall>): Word {
    if calls == [] then w
    else
      var k := |calls| - 1;
      WordStep(WordRun(w, calls[..k]), calls[k])
  }

  /** The enabled interrupts after one call of the M0 code. */
  function AfterOneWordCall(s: set<Irq>, call: BankCall): set<Irq> {
    match call
    case Enable(irq) => s + if irq >= 0 then {irq % 32} else {}
    case Disable(irq) => s - if irq >= 0 then {irq % 32} else {}
  }

  /** The enabled interrupts after a run of calls of the M0 code. */
  function AfterOneWordCalls(s: set<Irq>, calls: seq<BankCall>): set<Irq> {
    if calls == [] then s
    else
      var k := |calls| - 1;
      AfterOneWordCall(AfterOneWordCalls(s, calls[..k]), calls[k])
  }

  lemma {:induction false} WordStepMembers(w: Word, call: BankCall)
    ensures WordMembers(WordStep(w, call)) == AfterOneWordCall(WordMembers(w), call)
  {
    WordMembersUpdate(w, call.irq);
  }

  lemma {:induction false} WordRunMembers(w: Word, calls: seq<BankCall>)
    ensures WordMembers(WordRun(w, calls)) == AfterOneWordCalls(WordMembers(w), calls)
  {
    if calls != [] {
      var k := |calls| - 1;
      WordRunMembers(w, calls[..k]);
      WordStepMembers(WordRun(w, calls[..k]), calls[k]);
    }
  }

  /** The M0 bank: a single register. */
  class OneWordBank {
    var enabled: Word

    constructor ()
      ensures WordMembers(enabled) == {}
    {
      enabled := 0;
      new;
      ZeroBits();
    }

    method EnableIRQ(irq: Irq)
      modifies this
      ensures enabled == WordStep(old(enabled), Enable(irq))
      ensures WordMembers(enabled) == old(WordMembers(enabled)) + if irq >= 0 then {irq % 32} else {}
    {
      WordStepMembers(enabled, Enable(irq));
      if irq >= 0 {
        enabled := OrWord(enabled, BitMask(irq));
      }
    }

    method DisableIRQ(irq: Irq)
      modifies this
      ensures enabled == WordStep(old(enabled), Disable(irq))
      ensures WordMembers(enabled) == old(WordMembers(enabled)) - if irq >= 0 then {irq % 32} else {}
    {
      WordStepMembers(enabled, Disable(irq));
      if irq >= 0 {
        enabled := And(enabled, Not(BitMask(irq)));
      }
    }

    function GetEnableIRQ(irq: Irq): (r: Word)
      reads this
      ensures r == WordGet(enabled, irq) == if irq >= 0 && irq % 32 in WordMembers(enabled) then 1 else 0
    {
      if irq >= 0 then
        if And(enabled, BitMask(irq)) != 0 then 1 else 0
      else
        0
    }

    /** Any run of the two calls. */
    method Perform(calls: seq<BankCall>)
      modifies this
      ensures enabled == WordRun(old(enabled), calls)
      ensures WordMembers(enabled) == AfterOneWordCalls(old(WordMembers(enabled)), calls)
    {
      WordRunMembers(enabled, calls);
      var i := 0;
      while i < |calls|
        invariant i <= |calls|
        invariant enabled == WordRun(old(enabled), calls[..i])
      {
        match calls[i] {
          case Enable(irq) => EnableIRQ(irq);
          case Disable(irq) => DisableIRQ(irq);
        }
        i := i + 1;
        assert calls[..i][..i - 1] == calls[..i - 1];
      }
      assert calls[..i] == calls;
    }
  }

  // ---------------------------------------------------------------- one word against a bank

  predicate Below32(calls: seq<BankCall>) {
    forall k :: 0 <= k < |calls| ==> calls[k].irq < 32
  }

  /**
   On every run that names no interrupt above 31 the M0 register goes through the values of
   the first register of a bank, whose other registers keep theirs.
   */
  lemma {:induction false} OneWordRefinesBank(bank: seq<Word>, calls: seq<BankCall>)
    requires |bank| > 0 && Below32(calls)
    ensures Covers(bank, calls)
    ensures BankRun(bank, calls) == bank[0 := WordRun(bank[0], calls)]
  {
    if calls != [] {
      var k := |calls| - 1;
      OneWordRefinesBank(bank, calls[..k]);
      if calls[k].irq >= 0 {
        WordIdxValue(calls[k].irq);
      }
    }
  }

  /** Then every interrupt below 32 reads the same in both. */
  lemma {:induction false} OneWordAgrees(bank: seq<Word>, calls: seq<BankCall>, irq: Irq)
    requires |bank| > 0 && Below32(calls) && irq < 32
    ensures Covers(bank, calls)
    ensures WordGet(WordRun(bank[0], calls), irq) == BankGet(BankRun(bank, calls), irq)
  {
    OneWordRefinesBank(bank, calls);
    FirstWordRead(BankRun(bank, calls), irq);
  }

  /** Registers that read the same for the first 32 interrupts are the same. */
  lemma {:induction false} ReadsDetermine(v: Word, w: Word)
    requires forall irq: Irq :: 0 <= irq < 32 ==> WordGet(v, irq) == WordGet(w, irq)
    ensures v == w
  {
    forall i: nat | i < 32 ensures Bit(v, i) <==> Bit(w, i) {
      LowRead(v, i);
      LowRead(w, i);
    }
    WordExtensional(v, w);
  }

  /** The same calls on both kinds of bank leave the same bits to be read. */
  method PerformInBoth(one: OneWordBank, banks: IrqBanks, calls: seq<BankCall>)
    requires banks.Valid() && banks.enabled.Length > 0 && Below32(calls)
    requires forall irq: Irq :: irq < 32 ==> one.GetEnableIRQ(irq) == banks.GetBit(banks.enabled, irq)
    modifies one, banks.enabled
    ensures forall irq: Irq :: irq < 32 ==> one.GetEnableIRQ(irq) == banks.GetBit(banks.enabled, irq)
  {
    ghost var w, bank := one.enabled, banks.enabled[..];
    forall irq: Irq | irq < 32 ensures WordGet(w, irq) == WordGet(bank[0], irq) {
      FirstWordRead(bank, irq);
      assert one.GetEnableIRQ(irq) == banks.GetBit(banks.enabled, irq);
    }
    ReadsDetermine(w, bank[0]);
    OneWordRefinesBank(bank, calls);
    one.Perform(calls);
    banks.Perform(calls);
    forall irq: Irq | irq < 32 ensures one.GetEnableIRQ(irq) == banks.GetBit(banks.enabled, irq) {
      FirstWordRead(banks.enabled[..], irq);
    }
  }

  /** The M0 code never changes whether an interrupt above 31 is in the set. */
  lemma {:induction false} HighUntouched(s: set<Irq>, calls: seq<BankCall>, i: Irq)
    requires i >= 32
    ensures i in AfterOneWordCalls(s, calls) <==> i in s
  {
    if calls != [] {
      HighUntouched(s, calls[..|calls| - 1], i);
    }
  }

  lemma {:induction false} SetsAgree(s: set<Irq>, calls: seq<BankCall>)
    requires Below32(calls)
    ensures AfterOneWordCalls(s, calls) == AfterBankCalls(s, calls)
  {
    if calls != [] {
      SetsAgree(s, calls[..|calls| - 1]);
    }
  }

  /** From every set the two forms end with the same set exactly when the run names no interrupt above 31. */
  lemma {:induction false} OneWordAgreesExactly(calls: seq<BankCall>)
    ensures (forall s: set<Irq> :: AfterOneWordCalls(s, calls) == AfterBankCalls(s, calls)) <==> Below32(calls)
  {
    if Below32(calls) {
      forall s: set<Irq> ensures AfterOneWordCalls(s, calls) == AfterBankCalls(s, calls) {
        SetsAgree(s, calls);
      }
    } else {
      var k :| 0 <= k < |calls| && calls[k].irq >= 32;
      var i := calls[k].irq;
      var s: set<Irq> := if calls[LastBankCall(calls, i)].Enable? then {} else {i};
      LastCallDecides(s, calls, i);
      HighUntouched(s, calls, i);
      assert AfterOneWordCalls(s, calls) != AfterBankCalls(s, calls);
    }
  }

  /** The last call that the M0 code takes for interrupt `r`, or -1. */
  function LastAliasedCall(calls: seq<BankCall>, r: Irq): (j: int)
    ensures -1 <= j < |calls|
  {
    LastWhere(calls, (c: BankCall) => c.irq >= 0 && c.irq % 32 == r)
  }

  lemma {:induction false} LastAliasedDecides(s: set<Irq>, calls: seq<BankCall>, r: Irq)
    requires 0 <= r < 32
    ensures var j := LastAliasedCall(calls, r);
      r in AfterOneWordCalls(s, calls) <==> if j < 0 then r in s else calls[j].Enable?
  {
    if calls != [] {
      LastAliasedDecides(s, calls[..|calls| - 1], r);
    }
  }

  /** On the M0 register the last call for any number with the same low five bits decides what is read. */
  lemma {:induction false} LastAliasedWins(w: Word, calls: seq<BankCall>, r: Irq)
    requires 0 <= r < 32
    ensures WordGet(WordRun(w, calls), r) == ReadAfter(calls, LastAliasedCall(calls, r), WordGet(w, r))
  {
    WordRunMembers(w, calls);
    LastAliasedDecides(WordMembers(w), calls, r);
    LowRead(w, r);
    LowRead(WordRun(w, calls), r);
  }

  /** The last call taken for `r` is matched by a call that names `r` and does the same. */
  predicate SameOutcome(calls: seq<BankCall>, r: Irq) {
    var a, b := LastAliasedCall(calls, r), LastBankCall(calls, r);
    a < 0 || (b >= 0 && calls[a].Enable? == calls[b].Enable?)
  }

  /**
   What the two forms read for interrupt `r`, below 32, is the same from every bank exactly
   when the last call that the M0 code takes for `r` does what the last call for `r` does.
   */
  lemma {:induction false} OneWordReadsExactly(words: nat, calls: seq<BankCall>, r: Irq)
    requires words > 0 && 0 <= r < 32 && forall k :: 0 <= k < |calls| ==> calls[k].irq < 32 * words
    ensures (forall bank: seq<Word> :: |bank| == words ==>
              WordGet(WordRun(bank[0], calls), r) == BankGet(BankRun(bank, calls), r)) <==> SameOutcome(calls, r)
  {
    forall bank: seq<Word> | |bank| == words
      ensures SameOutcome(calls, r) ==> WordGet(WordRun(bank[0], calls), r) == BankGet(BankRun(bank, calls), r)
      ensures !SameOutcome(calls, r) && bank[0] == UntouchedWord(calls, r) ==>
        WordGet(WordRun(bank[0], calls), r) != BankGet(BankRun(bank, calls), r)
    {
      ReadsDecided(bank, calls, r);
    }
    if !SameOutcome(calls, r) {
      var bank: seq<Word> := seq(words, _ => UntouchedWord(calls, r));
      assert |bank| == words && bank[0] == UntouchedWord(calls, r);
    }
  }

  /** A word whose bits tell an interrupt that no call names from one that the M0 code changed. */
  function UntouchedWord(calls: seq<BankCall>, r: Irq): Word {
    var a := LastAliasedCall(calls, r);
    if a >= 0 && calls[a].Enable? then 0 else Not(0)
  }

  lemma {:induction false} UntouchedRead(calls: seq<BankCall>, r: Irq)
    requires 0 <= r < 32
    ensures WordGet(UntouchedWord(calls, r), r) == 1 - ReadAfter(calls, LastAliasedCall(calls, r), 0)
  {
    ZeroBits();
    LowRead(0, r);
    LowRead(Not(0), r);
  }

  lemma {:induction false} OutcomesDecided(calls: seq<BankCall>, r: Irq, x: Word)
    requires 0 <= r < 32 && x <= 1
    ensures var a, b := LastAliasedCall(calls, r), LastBankCall(calls, r);
      && (SameOutcome(calls, r) ==> ReadAfter(calls, a, x) == ReadAfter(calls, b, x))
      && (!SameOutcome(calls, r) && x == 1 - ReadAfter(calls, a, 0) ==>
            ReadAfter(calls, a, x) != ReadAfter(calls, b, x))
  {
  }

  lemma {:induction false} ReadsDecided(bank: seq<Word>, calls: seq<BankCall>, r: Irq)
    requires |bank| > 0 && Covers(bank, calls) && 0 <= r < 32
    ensures SameOutcome(calls, r) ==> WordGet(WordRun(bank[0], calls), r) == BankGet(BankRun(bank, calls), r)
    ensures !SameOutcome(calls, r) && bank[0] == UntouchedWord(calls, r) ==>
      WordGet(WordRun(bank[0], calls), r) != BankGet(BankRun(bank, calls), r)
  {
    LastAliasedWins(bank[0], calls, r);
    LastEnableWins(bank, calls, r);
    FirstWordRead(bank, r);
    UntouchedRead(calls, r);
    OutcomesDecided(calls, r, BankGet(bank, r));
  }
}
