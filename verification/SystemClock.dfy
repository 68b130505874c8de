/**
 The core clock recomputed from the clock-control registers: field extraction, table
 lookups and a chain of truncating divisions in 32-bit arithmetic.
 */
module SystemClock {
  import opened Bits

  const HSI_VALUE: Word := 16000000
  const HSE_VALUE: Word := 8000000

  const AHB_PRESC_TABLE: seq<nat> := [0, 0, 0, 0, 0, 0, 0, 0, 1, 2, 3, 4, 6, 7, 8, 9]

  const MSI_RANGE_TABLE: seq<Word> :=
    [100000, 200000, 400000, 800000, 1000000, 2000000, 4000000, 8000000, 16000000, 24000000, 32000000, 48000000]

  /** The registers that are read. */
  datatype Rcc = Rcc(cr: Word, csr: Word, cfgr: Word, pllcfgr: Word)

  /** The `width` bits of `x` from bit `pos` up, as a number. */
  function BitField(x: nat, pos: nat, width: nat): (f: nat)
    ensures f < Pow2(width)
  {
    Low(Shr(x, pos), width)
  }

  lemma {:induction false} BitFieldValue(x: nat, pos: nat, width: nat)
    ensures BitField(x, pos, width) == x / Pow2(pos) % Pow2(width)
  {
    ShrValue(x, pos);
    LowValue(Shr(x, pos), width);
  }

  /** How the source reads a field: mask, then shift down. The result is a digit of the word's value. */
  lemma {:induction false} MaskShiftIsField(x: Word, pos: nat, width: nat, mask: Word)
    requires pos < 32 && width <= 8 && mask == Scale(Mask(width), pos)
    ensures Shr(And(x, mask), pos) == BitField(x, pos, width) == x / Pow2(pos) % Pow2(width)
  {
    BitFieldValue(x, pos, width);
    SmallPower(width);
    WordExtensional(Shr(And(x, mask), pos), BitField(x, pos, width));
  }

  /** Field masks of the device header. */
  lemma {:induction false} FieldMasks()
    ensures Scale(Mask(4), 4) == 0xF0 && Scale(Mask(4), 8) == 0xF00
    ensures Scale(Mask(7), 8) == 0x7F00 && Scale(Mask(2), 25) == 0x600_0000
    ensures Scale(Mask(1), 3) == 0x8 && Scale(Mask(2), 2) == 0xC && Scale(Mask(2), 0) == 0x3
    ensures Pow2(4) == 16 && Pow2(7) == 128 && Pow2(2) == 4 && Pow2(1) == 2
  {
    assert Mask(1) == 1 && Mask(2) == 3 && Mask(4) == 0xF && Mask(7) == 0x7F;
    ScaleValue(0xF, 4);
    ScaleValue(0xF, 8);
    ScaleValue(0x7F, 8);
    ScaleValue(3, 25);
    ScaleValue(1, 3);
    ScaleValue(3, 2);
    assert Pow2(24) == 0x100_0000 by {
      PowersOfTwo();
    }
    PowersOfTwo();
  }

  // ---------------------------------------------------------------- what the registers say

  function MsiCode(rcc: Rcc): nat {
    if BitField(rcc.cr, 3, 1) == 0 then BitField(rcc.csr, 8, 4) else BitField(rcc.cr, 4, 4)
  }

  /** The internal oscillator's range codes 12 to 15 are reserved and have no table entry. */
  predicate RangeDefined(rcc: Rcc) {
    MsiCode(rcc) < |MSI_RANGE_TABLE|
  }

  function Switch(rcc: Rcc): nat {
    BitField(rcc.cfgr, 2, 2)
  }

  /** The frequency at the PLL's input. */
  function PllSource(pllcfgr: Word, msi: Word): Word {
    match BitField(pllcfgr, 0, 2)
    case 2 => HSI_VALUE
    case 3 => HSE_VALUE
    case _ => msi
  }

  /** The frequency that the selected oscillator, or the PLL's input, runs at. */
  function Source(rcc: Rcc): Word
    requires RangeDefined(rcc)
  {
    var msi := MSI_RANGE_TABLE[MsiCode(rcc)];
    match Switch(rcc)
    case 1 => HSI_VALUE
    case 2 => HSE_VALUE
    case 3 => PllSource(rcc.pllcfgr, msi)
    case _ => msi
  }

  function PllM(rcc: Rcc): (m: Word)
    ensures 1 <= m <= 16
  {
    PllFields(rcc.pllcfgr);
    BitField(rcc.pllcfgr, 4, 4) + 1
  }

  function PllN(rcc: Rcc): (n: Word)
    ensures n < 128
  {
    PllFields(rcc.pllcfgr);
    BitField(rcc.pllcfgr, 8, 7)
  }

  function PllR(rcc: Rcc): (r: Word)
    ensures 2 <= r <= 8
  {
    PllFields(rcc.pllcfgr);
    (BitField(rcc.pllcfgr, 25, 2) + 1) * 2
  }

  function AhbShift(rcc: Rcc): (h: nat)
    ensures h <= 9
  {
    CfgrFields(rcc.cfgr);
    AHB_PRESC_TABLE[BitField(rcc.cfgr, 4, 4)]
  }

  /** The PLL's output frequency in 32-bit arithmetic. */
  function PllOutput(source: Word, m: Word, n: Word, r: Word): Word
    requires m > 0 && r > 0
  {
    Div(Mul(Div(source, m), n), r)
  }

  /** The system clock before the AHB prescaler. */
  function SysClk(rcc: Rcc): Word
    requires RangeDefined(rcc)
  {
    if Switch(rcc) == 3 then PllOutput(Source(rcc), PllM(rcc), PllN(rcc), PllR(rcc)) else Source(rcc)
  }

  /** The core clock: the system clock divided by the AHB prescaler. */
  function CoreClock(rcc: Rcc): (c: Word)
    requires RangeDefined(rcc)
    ensures c == SysClk(rcc) / Pow2(AhbShift(rcc))
  {
    ShrValue(SysClk(rcc), AhbShift(rcc));
    Shr(SysClk(rcc), AhbShift(rcc))
  }

  /**
   The clock in the digits of the registers: the range of the internal oscillator, the
   switch, the PLL's source, divider, multiplier and output divider, and the AHB divisor.
   */
  ghost predicate InDigits(rcc: Rcc, clock: nat) {
    var code := if rcc.cr / 8 % 2 == 0 then rcc.csr / 256 % 16 else rcc.cr / 16 % 16;
    && code < 12
    && var msi := [100000, 200000, 400000, 800000, 1000000, 2000000, 4000000, 8000000,
                   16000000, 24000000, 32000000, 48000000][code];
    var s := if rcc.pllcfgr % 4 == 2 then 16000000 else if rcc.pllcfgr % 4 == 3 then 8000000 else msi;
    var m, n, r := rcc.pllcfgr / 16 % 16 + 1, rcc.pllcfgr / 256 % 128, (rcc.pllcfgr / 0x200_0000 % 4 + 1) * 2;
    var sysclk := [msi, 16000000, 8000000, s / m * n % 0x1_0000_0000 / r][rcc.cfgr / 4 % 4];
    clock == sysclk / [1, 1, 1, 1, 1, 1, 1, 1, 2, 4, 8, 16, 64, 128, 256, 512][rcc.cfgr / 16 % 16]
  }

  lemma {:induction false} OscillatorDigits(rcc: Rcc)
    ensures MsiCode(rcc) == if rcc.cr / 8 % 2 == 0 then rcc.csr / 256 % 16 else rcc.cr / 16 % 16
  {
    PowersOfTwo();
    BitFieldValue(rcc.cr, 3, 1);
    BitFieldValue(rcc.csr, 8, 4);
    BitFieldValue(rcc.cr, 4, 4);
  }

  lemma {:induction false} CfgrDigits(cfgr: Word)
    ensures BitField(cfgr, 2, 2) == cfgr / 4 % 4 && BitField(cfgr, 4, 4) == cfgr / 16 % 16
  {
    PowersOfTwo();
    BitFieldValue(cfgr, 2, 2);
    BitFieldValue(cfgr, 4, 4);
  }

  lemma {:induction false} PllDigits(pllcfgr: Word)
    ensures BitField(pllcfgr, 0, 2) == pllcfgr % 4 && BitField(pllcfgr, 4, 4) == pllcfgr / 16 % 16
    ensures BitField(pllcfgr, 8, 7) == pllcfgr / 256 % 128
  {
    BitFieldValue(pllcfgr, 0, 2);
    BitFieldValue(pllcfgr, 4, 4);
    BitFieldValue(pllcfgr, 8, 7);
    PowersOfTwo();
  }

  lemma {:induction false} PllOutputDigit(pllcfgr: Word)
    ensures BitField(pllcfgr, 25, 2) == pllcfgr / 0x200_0000 % 4
  {
    BitFieldValue(pllcfgr, 25, 2);
    assert Pow2(25) == 0x200_0000 && Pow2(2) == 4 by {
      PowersOfTwo();
      assert Pow2(25) == 2 * Pow2(24);
    }
  }

  /** The AHB divisor by its code: none below 8, and no 32. */
  lemma {:induction false} AhbDivisor(rcc: Rcc)
    ensures Pow2(AhbShift(rcc))
         == [1, 1, 1, 1, 1, 1, 1, 1, 2, 4, 8, 16, 64, 128, 256, 512][rcc.cfgr / 16 % 16]
  {
    CfgrDigits(rcc.cfgr);
    PowersOfTwo();
    assert Pow2(9) == 512;
  }

  lemma {:induction false} SysClkDigits(rcc: Rcc, msi: nat)
    requires RangeDefined(rcc) && msi == MSI_RANGE_TABLE[MsiCode(rcc)]
    ensures
      var s := if rcc.pllcfgr % 4 == 2 then 16000000 else if rcc.pllcfgr % 4 == 3 then 8000000 else msi;
      var m, n, r := rcc.pllcfgr / 16 % 16 + 1, rcc.pllcfgr / 256 % 128, (rcc.pllcfgr / 0x200_0000 % 4 + 1) * 2;
      SysClk(rcc) == [msi, 16000000, 8000000, s / m * n % 0x1_0000_0000 / r][rcc.cfgr / 4 % 4]
  {
    CfgrDigits(rcc.cfgr);
    PllDigits(rcc.pllcfgr);
    PllOutputDigit(rcc.pllcfgr);
  }

  /** The computed clock is the one in the digits, and the range is defined exactly below code 12. */
  lemma {:induction false} CoreClockInDigits(rcc: Rcc)
    ensures RangeDefined(rcc) <==> (if rcc.cr / 8 % 2 == 0 then rcc.csr / 256 % 16 else rcc.cr / 16 % 16) < 12
    ensures RangeDefined(rcc) ==> InDigits(rcc, CoreClock(rcc))
  {
    OscillatorDigits(rcc);
    if RangeDefined(rcc) {
      SysClkDigits(rcc, MSI_RANGE_TABLE[MsiCode(rcc)]);
      AhbDivisor(rcc);
    }
  }

  /** The application's setting, PLL from HSI times 12 over 2 and no AHB divisor: 96 MHz. */
  lemma {:induction false} ApplicationClock(cr: Word, csr: Word)
    requires RangeDefined(Rcc(cr, csr, 0xC, 0x100_0C02))
    ensures CoreClock(Rcc(cr, csr, 0xC, 0x100_0C02)) == 96000000
  {
    var rcc := Rcc(cr, csr, 0xC, 0x100_0C02);
    CoreClockInDigits(rcc);
    ApplicationDigits(rcc, CoreClock(rcc));
  }

  lemma {:induction false} ApplicationDigits(rcc: Rcc, clock: nat)
    requires rcc.cfgr == 0xC && rcc.pllcfgr == 0x100_0C02 && InDigits(rcc, clock)
    ensures clock == 96000000
  {
    assert 0xC / 4 % 4 == 3 && 0xC / 16 % 16 == 0;
    assert 0x100_0C02 % 4 == 2 && 0x100_0C02 / 16 % 16 == 0;
    assert 0x100_0C02 / 256 % 128 == 12 && 0x100_0C02 / 0x200_0000 % 4 == 0;
  }

  class Clock {
    var systemCoreClock: Word

    constructor ()
      ensures systemCoreClock == 4000000
    {
      systemCoreClock := 4000000;
    }

    /** `SystemCoreClockUpdate`. */
    method SystemCoreClockUpdate(rcc: Rcc)
      requires RangeDefined(rcc)
      modifies this
      ensures systemCoreClock == CoreClock(rcc) == SysClk(rcc) / Pow2(AhbShift(rcc))
      ensures InDigits(rcc, systemCoreClock)
    {
      CoreClockInDigits(rcc);
      MsiFields(rcc);
      CfgrFields(rcc.cfgr);
      var msirange: Word;
      if And(rcc.cr, 0x8) == 0 {
        msirange := Shr(And(rcc.csr, 0xF00), 8);
      } else {
        msirange := Shr(And(rcc.cr, 0xF0), 4);
      }
      msirange := MSI_RANGE_TABLE[msirange];
      var sws := And(rcc.cfgr, 0xC);
      if sws == 0x04 {
        systemCoreClock := HSI_VALUE;
      } else if sws == 0x08 {
        systemCoreClock := HSE_VALUE;
      } else if sws == 0x0C {
        systemCoreClock := PllCase(rcc, msirange);
      } else {
        // 0x00, which the default of the switch repeats
        systemCoreClock := msirange;
      }
      assert systemCoreClock == SysClk(rcc);
      var tmp := AHB_PRESC_TABLE[Shr(And(rcc.cfgr, 0xF0), 4)];
      ShrValue(systemCoreClock, tmp);
      systemCoreClock := Shr(systemCoreClock, tmp);
    }
  }

  /** The PLL case of the switch. */
  method PllCase(rcc: Rcc, msirange: Word) returns (clock: Word)
    ensures clock == PllOutput(PllSource(rcc.pllcfgr, msirange), PllM(rcc), PllN(rcc), PllR(rcc))
  {
    PllFields(rcc.pllcfgr);
    var pllsource := And(rcc.pllcfgr, 0x3);
    var pllm: Word := Shr(And(rcc.pllcfgr, 0xF0), 4) + 1;
    var pllvco: Word;
    if pllsource == 0x02 {
      pllvco := Div(HSI_VALUE, pllm);
    } else if pllsource == 0x03 {
      pllvco := Div(HSE_VALUE, pllm);
    } else {
      pllvco := Div(msirange, pllm);
    }
    pllvco := Mul(pllvco, Shr(And(rcc.pllcfgr, 0x7F00), 8));
    var pllr: Word := (Shr(And(rcc.pllcfgr, 0x600_0000), 25) + 1) * 2;
    clock := Div(pllvco, pllr);
  }

  /** The masked reads of the source are the fields. */
  lemma {:induction false} MsiFields(rcc: Rcc)
    ensures And(rcc.cr, 0x8) == 0 <==> BitField(rcc.cr, 3, 1) == 0
    ensures Shr(And(rcc.csr, 0xF00), 8) == BitField(rcc.csr, 8, 4)
    ensures Shr(And(rcc.cr, 0xF0), 4) == BitField(rcc.cr, 4, 4)
  {
    FieldMasks();
    MaskShiftIsField(rcc.cr, 3, 1, 0x8);
    MaskShiftIsField(rcc.csr, 8, 4, 0xF00);
    MaskShiftIsField(rcc.cr, 4, 4, 0xF0);
    InPlaceField(rcc.cr, 3, 1, 0x8);
  }

  lemma {:induction false} CfgrFields(cfgr: Word)
    ensures And(cfgr, 0xC) == 4 * BitField(cfgr, 2, 2) && BitField(cfgr, 2, 2) < 4
    ensures Shr(And(cfgr, 0xF0), 4) == BitField(cfgr, 4, 4) < 16
  {
    FieldMasks();
    MaskShiftIsField(cfgr, 2, 2, 0xC);
    MaskShiftIsField(cfgr, 4, 4, 0xF0);
    InPlaceField(cfgr, 2, 2, 0xC);
  }

  lemma {:induction false} PllFields(pllcfgr: Word)
    ensures And(pllcfgr, 0x3) == BitField(pllcfgr, 0, 2)
    ensures Shr(And(pllcfgr, 0xF0), 4) == BitField(pllcfgr, 4, 4) < 16
    ensures Shr(And(pllcfgr, 0x7F00), 8) == BitField(pllcfgr, 8, 7) < 128
    ensures Shr(And(pllcfgr, 0x600_0000), 25) == BitField(pllcfgr, 25, 2) < 4
  {
    FieldMasks();
    MaskShiftIsField(pllcfgr, 0, 2, 0x3);
    MaskShiftIsField(pllcfgr, 4, 4, 0xF0);
    MaskShiftIsField(pllcfgr, 8, 7, 0x7F00);
    MaskShiftIsField(pllcfgr, 25, 2, 0x600_0000);
  }

  lemma {:induction false} WholeUnits(x: nat, d: nat)
    requires d > 0
    ensures x / d * d <= x
  {
  }

  /** A masked field that is not shifted down is the field times its unit. */
  lemma {:induction false} InPlaceField(x: Word, pos: nat, width: nat, mask: Word)
    requires mask == Scale(Mask(width), pos)
    ensures And(x, mask) == Shr(And(x, mask), pos) * Pow2(pos)
  {
    var masked := And(x, mask);
    var back := Scale(Shr(masked, pos), pos);
    ScaleValue(Shr(masked, pos), pos);
    ShrValue(masked, pos);
    WholeUnits(masked, Pow2(pos));
    WordExtensional(masked, back);
  }

  // ---------------------------------------------------------------- how good the result is

  /** The clock computed for source S, divider m, multiplier n, output divider r and AHB shift h. */
  function Computed(s: Word, m: Word, n: Word, r: Word, h: nat): Word
    requires m > 0 && r > 0
  {
    Shr(PllOutput(s, m, n, r), h)
  }

  lemma {:induction false} ProductBound(x: nat, y: nat, a: nat, b: nat)
    requires x <= a && y <= b
    ensures x * y <= a * b
  {
    assert x * y <= a * y <= a * b;
  }

  /** The two divisions at the end are one. */
  lemma {:induction false} ComputedValue(s: Word, m: Word, n: Word, r: Word, h: nat)
    requires m > 0 && r > 0
    ensures r * Pow2(h) > 0
    ensures Computed(s, m, n, r, h) == s / m * n % 0x1_0000_0000 / (r * Pow2(h))
  {
    ShrValue(PllOutput(s, m, n, r), h);
    DivDiv(Mul(Div(s, m), n), r, Pow2(h));
  }

  /**
   The 32-bit result is the one without a width limit exactly when the product S / m * n
   fits in a word. `d` is the product of the last two divisors.
   */
  lemma {:induction false} NoOverflowExactly(s: Word, m: Word, n: Word, r: Word, h: nat, d: nat)
    requires m > 0 && r > 0 && d == r * Pow2(h) && 0 < d <= 0x1_0000_0000
    ensures Computed(s, m, n, r, h) == s / m * n / d <==> s / m * n < 0x1_0000_0000
  {
    ComputedValue(s, m, n, r, h);
    QuotientBound(s, m);
    CutQuotient(s / m * n, d);
  }

  lemma {:induction false} CutQuotient(v: nat, d: nat)
    requires 0 < d <= 0x1_0000_0000
    ensures v % 0x1_0000_0000 / d == v / d <==> v < 0x1_0000_0000
  {
    var low := v % 0x1_0000_0000;
    if v >= 0x1_0000_0000 {
      var q := low / d;
      assert low == d * q + low % d;
      assert d * (q + 1) <= low + d <= v;
      LowerQuotient(v, d, q + 1);
    }
  }

  lemma {:induction false} LowerQuotient(v: nat, d: nat, q: nat)
    requires d > 0 && d * q <= v
    ensures q <= v / d
  {
    var k := v / d;
    assert v == d * k + v % d;
    assert k < q ==> d * (k + 1) <= d * q;
  }

  /** The two truncations, written as remainders e and rest, add up to what the result misses. */
  lemma {:induction false} Truncations(s: nat, m: nat, n: nat, d: nat, q: nat, e: nat, c: nat, rest: nat)
    requires s == m * q + e && q * n == d * c + rest
    ensures s * n == c * (m * d) + (rest * m + e * n)
  {
    assert s * n == m * (q * n) + e * n by {
      Distribute(m, q, e, n);
    }
    Regroup(m, d, c, rest);
    Commute(c, m * d);
  }

  lemma {:induction false} Distribute(m: nat, q: nat, e: nat, n: nat)
    ensures (m * q + e) * n == m * (q * n) + e * n
  {
  }

  lemma {:induction false} Commute(x: int, y: int)
    ensures x * y == y * x
  {
  }

  lemma {:induction false} SmallerFactor(x: nat, y: nat, z: nat)
    requires x < y
    ensures x * z + z <= y * z
  {
    var k := y - x - 1;
    assert y * z == (x + 1) * z + k * z;
    assert k * z >= 0;
  }

  /** What the result misses: `slack` out of the m * d that make up one unit. */
  function Slack(s: nat, m: nat, n: nat, d: nat): (slack: nat)
    requires m > 0 && d > 0
  {
    var rest, e := s / m * n % d, s % m;
    rest * m + e * n
  }

  /**
   With no overflow the computed clock c misses the true quotient by the two truncations:
   S*n = c*(m*d) + slack, where slack stays below m*d + (m-1)*n.
   */
  lemma {:induction false} ErrorBound(s: nat, m: nat, n: nat, d: nat, c: nat)
    requires m > 0 && d > 0 && c == s / m * n / d
    ensures s * n == c * (m * d) + Slack(s, m, n, d)
    ensures c * (m * d) <= s * n < (c + 1) * (m * d) + (m - 1) * n
  {
    var q, e := s / m, s % m;
    var v := q * n;
    var rest := v % d;
    Truncations(s, m, n, d, q, e, c, rest);
    SmallerFactor(rest, d, m);
    SmallerFactor(e, m, n);
    Commute(d, m);
    UnitMore(c, m * d);
    UnitMore(m - 1, n);
  }

  lemma {:induction false} UnitMore(x: nat, y: nat)
    ensures (x + 1) * y == x * y + y
  {
  }

  /**
   The computed clock is the exact floor of S*n / (m*d) exactly when the slack stays below
   one unit; it always does when m divides S.
   */
  lemma {:induction false} FloorExactly(s: nat, m: nat, n: nat, d: nat)
    requires m > 0 && d > 0
    ensures m * d > 0
    ensures s / m * n / d == s * n / (m * d) <==> Slack(s, m, n, d) < m * d
    ensures s % m == 0 ==> Slack(s, m, n, d) < m * d
  {
    var c := s / m * n / d;
    ErrorBound(s, m, n, d, c);
    FloorOf(s * n, m * d, c, Slack(s, m, n, d));
    var rest := s / m * n % d;
    SmallerFactor(rest, d, m);
    Commute(d, m);
  }

  lemma {:induction false} FloorOf(x: nat, unit: nat, c: nat, slack: nat)
    requires unit > 0 && x == c * unit + slack
    ensures c == x / unit <==> slack < unit
  {
    if slack < unit {
      DivUnique(x, unit, c, slack);
    } else {
      UnitMore(c, unit);
      LowerQuotient(x, unit, c + 1);
    }
  }

  /** The product of the PLL's output divider and the AHB prescaler. */
  function OutputDivider(rcc: Rcc): (d: nat)
    ensures 0 < d <= 4096
  {
    assert Pow2(9) == 512;
    PowerMonotone(AhbShift(rcc), 9);
    ProductBound(PllR(rcc), Pow2(AhbShift(rcc)), 8, 512);
    assert PllR(rcc) * Pow2(AhbShift(rcc)) > 0;
    PllR(rcc) * Pow2(AhbShift(rcc))
  }

  /** How the clock c computed in 32-bit arithmetic relates to S*n / (m*d). */
  ghost predicate Accurate(c: nat, s: nat, m: nat, n: nat, d: nat) {
    && m > 0 && d > 0
    && (c == s / m * n / d <==> s / m * n < 0x1_0000_0000)
    && (s / m * n < 0x1_0000_0000 ==>
          && s * n == c * (m * d) + Slack(s, m, n, d)
          && c * (m * d) <= s * n < (c + 1) * (m * d) + (m - 1) * n
          && (Slack(s, m, n, d) < m * d <==> (UnitPositive(m, d); c == s * n / (m * d))))
  }

  lemma {:induction false} UnitPositive(m: nat, d: nat)
    requires m > 0 && d > 0
    ensures m * d > 0
  {
  }

  lemma {:induction false} ComputedAccurate(s: Word, m: Word, n: Word, r: Word, h: nat, d: nat)
    requires m > 0 && r > 0 && d == r * Pow2(h) && 0 < d <= 0x1_0000_0000
    ensures Accurate(Computed(s, m, n, r, h), s, m, n, d)
  {
    NoOverflowExactly(s, m, n, r, h, d);
    ErrorBound(s, m, n, d, s / m * n / d);
    FloorExactly(s, m, n, d);
  }

  /**
   When the PLL drives the core, the clock computed from the registers is S/m*n/d without a
   width limit exactly when S/m*n fits in a word, and then it misses S*n/(m*d) by the slack.
   */
  lemma {:induction false} PllClockAccuracy(rcc: Rcc)
    requires RangeDefined(rcc) && Switch(rcc) == 3
    ensures Accurate(CoreClock(rcc), Source(rcc), PllM(rcc), PllN(rcc), OutputDivider(rcc))
  {
    ComputedAccurate(Source(rcc), PllM(rcc), PllN(rcc), PllR(rcc), AhbShift(rcc), OutputDivider(rcc));
  }

  /** Only the internal multi-speed oscillator can make the product overflow. */
  lemma {:induction false} FixedSourcesFit(rcc: Rcc)
    requires RangeDefined(rcc) && Switch(rcc) == 3 && BitField(rcc.pllcfgr, 0, 2) >= 2
    ensures Source(rcc) / PllM(rcc) * PllN(rcc) < 0x1_0000_0000
  {
    PllFields(rcc.pllcfgr);
    FieldMasks();
    QuotientBound(Source(rcc), PllM(rcc));
    ProductBound(Source(rcc) / PllM(rcc), PllN(rcc), HSI_VALUE, 127);
  }

  /** Register contents for which it does: 48 MHz, undivided, times 127, halved. */
  const OVERFLOWING := Rcc(0xB8, 0, 0xC, 0x7F01)

  lemma {:induction false} OverflowingRange()
    ensures MsiCode(OVERFLOWING) == 11 && Switch(OVERFLOWING) == 3
  {
    BitFieldValue(0xB8, 3, 1);
    BitFieldValue(0xB8, 4, 4);
    BitFieldValue(0xC, 2, 2);
    PowersOfTwo();
  }

  lemma {:induction false} OverflowingDivider()
    ensures BitField(0x7F01, 4, 4) == 0
  {
    BitFieldValue(0x7F01, 4, 4);
    PowersOfTwo();
  }

  lemma {:induction false} OverflowingMultiplier()
    ensures BitField(0x7F01, 8, 7) == 127
  {
    BitFieldValue(0x7F01, 8, 7);
    PowersOfTwo();
  }

  lemma {:induction false} OverflowingOutputDivider()
    ensures BitField(0x7F01, 25, 2) == 0
  {
    PowersOfTwo();
    PowerMonotone(16, 25);
    HighFieldZero(0x7F01, 25, 2);
  }

  lemma {:induction false} HighFieldZero(x: nat, pos: nat, width: nat)
    requires x < Pow2(pos)
    ensures BitField(x, pos, width) == 0
  {
    BitFieldValue(x, pos, width);
    DivUnique(x, Pow2(pos), 0, x);
    DivUnique(0, Pow2(width), 0, 0);
  }

  lemma {:induction false} OverflowingPll()
    ensures PllM(OVERFLOWING) == 1 && PllN(OVERFLOWING) == 127 && PllR(OVERFLOWING) == 2
  {
    OverflowingDivider();
    OverflowingMultiplier();
    OverflowingOutputDivider();
  }

  lemma {:induction false} OverflowingSource()
    ensures RangeDefined(OVERFLOWING) && Source(OVERFLOWING) == 48000000
  {
    OverflowingRange();
    BitFieldValue(0x7F01, 0, 2);
    PowersOfTwo();
  }

  /** The clock read from these registers is less than a third of what it is. */
  lemma {:induction false} MsiOverflow()
    ensures RangeDefined(OVERFLOWING) && Switch(OVERFLOWING) == 3
    ensures SysClk(OVERFLOWING) == 900516352
    ensures Source(OVERFLOWING) / PllM(OVERFLOWING) * PllN(OVERFLOWING) / PllR(OVERFLOWING) == 3048000000
  {
    OverflowingRange();
    OverflowingSource();
    OverflowingPll();
    assert PllOutput(48000000, 1, 127, 2) == 900516352;
  }
}
