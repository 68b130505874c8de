/**
 The millisecond tick: timer 6 counts a prescaled clock, and its interrupt is enabled and
 given a priority. The length of a tick depends on how the prescaler was rounded.
 */
module TickBase {
  import opened Bits
  import opened PriorityCode
  import opened NvicPriority
  import opened MainlineNvic
  import opened NvicBanks

  datatype HalStatus = HalOk | HalError | HalBusy | HalTimeout

  /** The fields of `htim6.Init` that decide the rate. */
  datatype TimerInit = TimerInit(period: Word, prescaler: Word)

  const TIM6_DAC_IRQN: Irq := 54

  /** The timer's input clock: twice the bus clock when the bus is divided. */
  function TimerClock(apb1Undivided: bool, pclk1: Word): Word {
    if apb1Undivided then pclk1 else Mul(2, pclk1)
  }

  function Prescaler(timclock: Word): Word {
    Sub(Div(timclock, 1000000), 1)
  }

  /**
   The value `p` decodes to no subpriority, and to the requested level exactly when the
   group has room for it.
   */
  ghost predicate LevelKept(n: PrioBits, p: Word, group: Word, level: Word) {
    && DecodedSub(n, p, group) == 0
    && (DecodedPreempt(n, p, group) == level <==> level < Pow2(PreemptBits(n, group)))
  }

  /** The byte of a tick priority: there is no subpriority. */
  function TickByte(n: PrioBits, group: Word, level: Word): Byte {
    Field(n, Encode(n, group, level, 0))
  }

  lemma {:induction false} TickByteLevel(n: PrioBits, group: Word, level: Word)
    ensures LevelKept(n, Shr(TickByte(n, group, level), 8 - n), group, level)
  {
    EncodedPriorityReadBack(n, group, level, 0);
    InRange(level, Pow2(PreemptBits(n, group)));
    InRange(0, Pow2(SubBits(n, group)));
  }

  lemma {:induction false} ReadBackLevel(nvic: ByteNvic, group: Word, level: Word)
    requires nvic.Valid() && nvic.Implements(TIM6_DAC_IRQN)
    requires nvic.View()[TIM6_DAC_IRQN] == TickByte(nvic.prioBits, group, level)
    ensures LevelKept(nvic.prioBits, nvic.GetPriority(TIM6_DAC_IRQN), group, level)
  {
    TickByteLevel(nvic.prioBits, group, level);
  }

  lemma {:induction false} LevelLimit(n: PrioBits)
    ensures Shl(1, n) == Pow2(n)
  {
    SmallPower(n);
    ShlExact(1, n, Pow2(n));
  }

  lemma {:induction false} StoredSettings(init: TimerInit, apb1Undivided: bool, pclk1: Word)
    requires init == TimerInit(999, Prescaler(TimerClock(apb1Undivided, pclk1)))
    ensures var c := if apb1Undivided then pclk1 else 2 * pclk1;
      && (1000000 <= c < 0x1_0000_0000 ==> init.prescaler + 1 == c / 1000000 && KeepsTime(init, c))
      && (c < 1000000 ==> init.prescaler == 0xFFFF_FFFF)
  {
    var c := if apb1Undivided then pclk1 else 2 * pclk1;
    if 1000000 <= c < 0x1_0000_0000 {
      DividingKeepsTime(init, c);
    }
  }

  class TimeBase {
    const nvic: ByteNvic
    const banks: IrqBanks
    var init: TimerInit
    var uwTickPrio: Word

    ghost predicate Valid() {
      nvic.Valid() && nvic.Implements(TIM6_DAC_IRQN) && banks.Valid() && banks.Implements(TIM6_DAC_IRQN)
    }

    constructor (nvic: ByteNvic, banks: IrqBanks)
      requires nvic.Valid() && nvic.Implements(TIM6_DAC_IRQN) && banks.Valid() && banks.Implements(TIM6_DAC_IRQN)
      ensures Valid() && this.nvic == nvic && this.banks == banks
    {
      this.nvic := nvic;
      this.banks := banks;
      init := TimerInit(0, 0);
      uwTickPrio := 0;
    }

    /** The priority bytes once the tick interrupt has been given `level`. */
    ghost function WithTick(level: Word): Priorities
      requires Valid()
      reads nvic`aircrLow, nvic.ipr, nvic.shpr
    {
      nvic.View()[TIM6_DAC_IRQN := TickByte(nvic.prioBits, nvic.GetPriorityGrouping(), level)]
    }

    /** The last part of `HAL_InitTick`: a priority that is out of range is refused. */
    method ConfigurePriority(tickPriority: Word) returns (status: HalStatus)
      requires Valid()
      modifies this`uwTickPrio, nvic.ipr, nvic.shpr
      ensures if tickPriority < Pow2(nvic.prioBits)
              then status == HalOk && uwTickPrio == tickPriority && nvic.View() == old(WithTick(tickPriority))
              else status == HalError && uwTickPrio == old(uwTickPrio) && nvic.View() == old(nvic.View())
    {
      LevelLimit(nvic.prioBits);
      if tickPriority < Shl(1, nvic.prioBits) {
        nvic.HalSetPriority(TIM6_DAC_IRQN, tickPriority, 0);
        uwTickPrio := tickPriority;
        status := HalOk;
      } else {
        status := HalError;
      }
    }

    /** The first part of `HAL_InitTick`: the timer's settings from the bus clock. */
    method ConfigureTimer(apb1Undivided: bool, pclk1: Word)
      modifies this`init
      ensures init == TimerInit(999, Prescaler(TimerClock(apb1Undivided, pclk1)))
      ensures var c := if apb1Undivided then pclk1 else 2 * pclk1;
              && (1000000 <= c < 0x1_0000_0000 ==> init.prescaler + 1 == c / 1000000 && KeepsTime(init, c))
              && (c < 1000000 ==> init.prescaler == 0xFFFF_FFFF)
    {
      var uwTimclock := if apb1Undivided then pclk1 else Mul(2, pclk1);
      var uwPrescalerValue := Sub(Div(uwTimclock, 1000000), 1);
      init := TimerInit(1000000 / 1000 - 1, uwPrescalerValue);
      StoredSettings(init, apb1Undivided, pclk1);
    }

    /**
     `HAL_InitTick`. The clock configuration and the outcomes of the two timer calls are
     parameters. A priority that is out of range is refused only after the timer runs and
     its interrupt is enabled.
     */
    method InitTick(tickPriority: Word, apb1Undivided: bool, pclk1: Word, baseInit: HalStatus, startIt: HalStatus)
        returns (status: HalStatus)
      requires Valid()
      modifies this, nvic.ipr, nvic.shpr, banks.enabled
      ensures init == TimerInit(999, Prescaler(TimerClock(apb1Undivided, pclk1)))
      ensures var c := if apb1Undivided then pclk1 else 2 * pclk1;
              && (1000000 <= c < 0x1_0000_0000 ==> init.prescaler + 1 == c / 1000000 && KeepsTime(init, c))
              && (c < 1000000 ==> init.prescaler == 0xFFFF_FFFF)
      ensures status == if baseInit != HalOk then baseInit else if startIt != HalOk then startIt
                        else if tickPriority < Pow2(nvic.prioBits) then HalOk else HalError
      ensures Members(banks.enabled[..]) == old(Members(banks.enabled[..]))
                + if baseInit == HalOk && startIt == HalOk then {54} else {}
      ensures if status == HalOk then uwTickPrio == tickPriority && nvic.View() == old(WithTick(tickPriority))
              else uwTickPrio == old(uwTickPrio) && nvic.View() == old(nvic.View())
      ensures status == HalOk ==>
                LevelKept(nvic.prioBits, nvic.GetPriority(TIM6_DAC_IRQN), old(nvic.GetPriorityGrouping()), tickPriority)
    {
      ghost var before := nvic.View();
      ConfigureTimer(apb1Undivided, pclk1);
      status := baseInit;
      if status == HalOk {
        status := startIt;
        if status == HalOk {
          banks.EnableIRQ(TIM6_DAC_IRQN);
          assert nvic.View() == before;
          status := ConfigurePriority(tickPriority);
          if status == HalOk {
            ReadBackLevel(nvic, old(nvic.GetPriorityGrouping()), tickPriority);
          }
        }
      }
    }
  }

  lemma {:induction false} InRange(x: nat, d: nat)
    requires d > 0
    ensures x % d == x <==> x < d
  {
    if x < d {
      DivUnique(x, d, 0, x);
    }
  }

  /** Priority `p`, encoded with no subpriority, is decoded unchanged. */
  predicate KeepsLevel(n: PrioBits, group: Word, p: Word) {
    DecodedPreempt(n, Encode(n, group, p, 0), group) == p
  }

  lemma {:induction false} KeptLevels(n: PrioBits, group: Word, p: Word)
    ensures KeepsLevel(n, group, p) <==> p < Pow2(PreemptBits(n, group))
  {
    DecodeEncode(n, group, p, 0);
    InRange(p, Pow2(PreemptBits(n, group)));
  }

  /** Every tick priority that is accepted is kept exactly when the grouping leaves no bit for subpriorities. */
  lemma {:induction false} AllLevelsKeptExactly(n: PrioBits, group: Word)
    ensures (forall p: Word :: p < Pow2(n) ==> KeepsLevel(n, group, p)) <==> group % 8 + n <= 7
  {
    WidthsSum(n, group);
    var a := PreemptBits(n, group);
    forall p: Word ensures KeepsLevel(n, group, p) <==> p < Pow2(a) {
      KeptLevels(n, group, p);
    }
    if group % 8 + n > 7 {
      PowerMonotone(a, n - 1);
      SmallPower(n);
      var p: Word := Pow2(n - 1);
      assert p < Pow2(n) && !KeepsLevel(n, group, p);
    }
  }

  // ---------------------------------------------------------------- how long a tick is

  /** The settings divide a clock of `c` hertz by its whole megahertz, and count to a thousand. */
  predicate Divides(init: TimerInit, c: nat) {
    c >= 1000000 && init.period == 999 && init.prescaler + 1 == c / 1000000
  }

  /** The prescaler register has 16 bits; the value fits exactly when the clock reaches 1 MHz. */
  lemma {:induction false} PrescalerFitsExactly(timclock: Word)
    ensures Prescaler(timclock) < 0x1_0000 <==> timclock >= 1000000
  {
  }

  /** The time in milliseconds that `ticks` updates of the timer take at `timclock` hertz. */
  function Elapsed(init: TimerInit, timclock: nat, ticks: nat): real
    requires timclock > 0
  {
    (ticks * ((init.period + 1) * (init.prescaler + 1)) * 1000) as real / timclock as real
  }

  /** How far the tick count runs ahead of the time, in milliseconds. */
  function Drift(init: TimerInit, timclock: nat, ticks: nat): real
    requires timclock > 0
  {
    ticks as real - Elapsed(init, timclock, ticks)
  }

  lemma {:induction false} ElapsedValue(init: TimerInit, timclock: nat, ticks: nat)
    requires Divides(init, timclock)
    ensures Elapsed(init, timclock, ticks)
         == (ticks * (timclock - timclock % 1000000)) as real / timclock as real
  {
    var q := timclock / 1000000;
    Triple(ticks, q);
  }

  lemma {:induction false} Triple(ticks: nat, q: nat)
    ensures ticks * (1000 * q) * 1000 == ticks * (1000000 * q)
  {
  }

  lemma {:induction false} RealQuotient(a: int, b: int, d: nat)
    requires d > 0
    ensures (a - b) as real / d as real == a as real / d as real - b as real / d as real
  {
  }

  lemma {:induction false} RealCancel(k: nat, d: nat)
    requires d > 0
    ensures (k * d) as real / d as real == k as real
  {
    assert (k * d) as real == k as real * d as real;
  }

  /** The drift after any number of ticks is the clock's remainder below a whole megahertz, per tick. */
  lemma {:induction false} DriftExact(init: TimerInit, timclock: nat, ticks: nat)
    requires Divides(init, timclock)
    ensures Drift(init, timclock, ticks) == (ticks * (timclock % 1000000)) as real / timclock as real
  {
    var e := timclock % 1000000;
    ElapsedValue(init, timclock, ticks);
    assert ticks * (timclock - e) == ticks * timclock - ticks * e;
    RealQuotient(ticks * timclock, ticks * e, timclock);
    RealCancel(ticks, timclock);
  }

  /** There is no drift exactly when the clock is a whole number of megahertz. */
  lemma {:induction false} NoDriftExactly(init: TimerInit, timclock: nat, ticks: nat)
    requires Divides(init, timclock) && ticks > 0
    ensures Drift(init, timclock, ticks) == 0.0 <==> timclock % 1000000 == 0
    ensures Drift(init, timclock, ticks) >= 0.0
  {
    var e := timclock % 1000000;
    DriftExact(init, timclock, ticks);
    assert e > 0 ==> ticks * e > 0;
    assert e == 0 ==> ticks * e == 0;
    RealSign(ticks * e, timclock);
  }

  lemma {:induction false} RealSign(a: nat, d: nat)
    requires d > 0
    ensures a as real / d as real >= 0.0 && (a as real / d as real == 0.0 <==> a == 0)
  {
    var r := a as real / d as real;
    assert r * d as real == a as real;
  }

  /** With q whole megahertz, k ticks take more than k*q/(q+1) and at most k milliseconds. */
  lemma {:induction false} TickBounds(init: TimerInit, timclock: nat, ticks: nat)
    requires Divides(init, timclock) && ticks > 0
    ensures var q, t := timclock / 1000000, Elapsed(init, timclock, ticks);
      (ticks * q) as real / (q + 1) as real < t <= ticks as real
  {
    var q := timclock / 1000000;
    NoDriftExactly(init, timclock, ticks);
    ElapsedValue(init, timclock, ticks);
    var a := ticks * (timclock - timclock % 1000000);
    assert a == ticks * (1000000 * q);
    assert ticks * q > 0;
    Triple(ticks, q);
    ScaledProduct(ticks, q);
    CrossMultiply(ticks * q, q + 1, a, timclock);
  }

  lemma {:induction false} ScaledProduct(ticks: nat, q: nat)
    ensures ticks * (1000000 * q) == 1000000 * (ticks * q)
  {
  }

  lemma {:induction false} CrossMultiply(x: nat, y: nat, a: nat, d: nat)
    requires x > 0 && a == 1000000 * x && 0 < d < 1000000 * y
    ensures x as real / y as real < a as real / d as real
  {
    var l, r := x as real / y as real, a as real / d as real;
    assert l * y as real == x as real && r * d as real == a as real;
    assert l * (1000000 * y) as real == r * d as real;
    assert l > 0.0;
    assert l * d as real < l * (1000000 * y) as real;
    assert (r - l) * d as real > 0.0;
  }

  /** Every number of ticks takes close to as many milliseconds, and exactly as many at whole megahertz only. */
  ghost predicate KeepsTime(init: TimerInit, c: nat) {
    c > 0 && forall ticks: nat {:trigger Elapsed(init, c, ticks)} :: ticks > 0 ==>
      && (ticks * (c / 1000000)) as real / (c / 1000000 + 1) as real < Elapsed(init, c, ticks) <= ticks as real
      && (Elapsed(init, c, ticks) == ticks as real <==> c % 1000000 == 0)
  }

  lemma {:induction false} DividingKeepsTime(init: TimerInit, c: nat)
    requires Divides(init, c)
    ensures KeepsTime(init, c)
  {
    forall ticks: nat | ticks > 0
      ensures (ticks * (c / 1000000)) as real / (c / 1000000 + 1) as real < Elapsed(init, c, ticks) <= ticks as real
      ensures Elapsed(init, c, ticks) == ticks as real <==> c % 1000000 == 0
    {
      TickBounds(init, c, ticks);
      NoDriftExactly(init, c, ticks);
    }
  }

  /** Where there is drift it exceeds every bound in the end: this many ticks run `ms` ahead. */
  lemma {:induction false} DriftUnbounded(init: TimerInit, timclock: nat, ms: nat)
    requires Divides(init, timclock) && timclock % 1000000 != 0
    ensures Drift(init, timclock, ms * timclock) >= ms as real
  {
    var e := timclock % 1000000;
    var ticks := ms * timclock;
    DriftExact(init, timclock, ticks);
    Reorder(ms, timclock, e);
    RealCancel(ms * e, timclock);
    AtLeast(ms, e);
  }

  lemma {:induction false} AtLeast(x: nat, y: nat)
    requires y >= 1
    ensures x * y >= x
  {
  }

  lemma {:induction false} Reorder(x: nat, y: nat, z: nat)
    ensures x * y * z == x * z * y
  {
  }
}
