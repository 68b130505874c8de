/**
 Splitting an interrupt priority of N implemented bits into a preempt part and a
 subpriority part under a priority grouping, and putting it together again.
 */
module PriorityCode {
  import opened Bits

  /** `__NVIC_PRIO_BITS`. */
  type PrioBits = n: int | 1 <= n <= 8 witness 1

  function GroupOf(group: Word): (g: Word)
    ensures g == group % 8
  {
    PowersOfTwo();
    AndMask(group, 3);
    And(group, 7)
  }

  /** `PreemptPriorityBits`. */
  function PreemptBits(n: PrioBits, group: Word): Word {
    var g := GroupOf(group);
    if Sub(7, g) > n then n else Sub(7, g)
  }

  /** `SubPriorityBits`; the difference g - 7 wraps around before N is added. */
  function SubBits(n: PrioBits, group: Word): Word {
    var g := GroupOf(group);
    if Add(g, n) < 7 then 0 else Add(Sub(g, 7), n)
  }

  /** The two widths always share out the N bits, the wrapped difference notwithstanding. */
  lemma {:induction false} WidthsSum(n: PrioBits, group: Word)
    ensures PreemptBits(n, group) + SubBits(n, group) == n
    ensures SubBits(n, group) == if group % 8 + n <= 7 then 0 else group % 8 + n - 7
  {
  }

  /** `NVIC_EncodePriority`. */
  function Encode(n: PrioBits, group: Word, preempt: Word, sub: Word): Word {
    WidthsSum(n, group);
    var a, b := PreemptBits(n, group), SubBits(n, group);
    MaskWord(a);
    MaskWord(b);
    OrWord(Shl(And(preempt, Sub(Shl(1, a), 1)), b), And(sub, Sub(Shl(1, b), 1)))
  }

  /** The mask `(1UL << k) - 1UL` as the source computes it. */
  lemma {:induction false} MaskWord(k: nat)
    requires k <= 8
    ensures Sub(Shl(1, k), 1) == Mask(k)
  {
    SmallPower(k);
    ShlExact(1, k, Pow2(k));
  }

  function DecodedPreempt(n: PrioBits, priority: Word, group: Word): Word {
    WidthsSum(n, group);
    And(Shr(priority, SubBits(n, group)), Sub(Shl(1, PreemptBits(n, group)), 1))
  }

  function DecodedSub(n: PrioBits, priority: Word, group: Word): Word {
    WidthsSum(n, group);
    And(priority, Sub(Shl(1, SubBits(n, group)), 1))
  }

  /** `NVIC_DecodePriority`: the two results are the quotient and the remainder by the subpriority's range. */
  method DecodePriority(n: PrioBits, priority: Word, group: Word) returns (preempt: Word, sub: Word)
    ensures preempt == priority / Pow2(SubBits(n, group)) % Pow2(PreemptBits(n, group))
    ensures sub == priority % Pow2(SubBits(n, group))
    ensures preempt == DecodedPreempt(n, priority, group) && sub == DecodedSub(n, priority, group)
  {
    DecodedValue(n, priority, group);
    preempt := DecodedPreempt(n, priority, group);
    sub := DecodedSub(n, priority, group);
  }

  lemma {:induction false} DecodedValue(n: PrioBits, priority: Word, group: Word)
    ensures DecodedPreempt(n, priority, group) == priority / Pow2(SubBits(n, group)) % Pow2(PreemptBits(n, group))
    ensures DecodedSub(n, priority, group) == priority % Pow2(SubBits(n, group))
  {
    WidthsSum(n, group);
    var a, b := PreemptBits(n, group), SubBits(n, group);
    MaskWord(a);
    MaskWord(b);
    AndMask(Shr(priority, b), a);
    AndMask(priority, b);
    ShrValue(priority, b);
  }

  /** An encoded priority is the number whose two digits are the truncated parts. */
  lemma {:induction false} EncodedValue(n: PrioBits, group: Word, preempt: Word, sub: Word)
    ensures Encode(n, group, preempt, sub)
         == preempt % Pow2(PreemptBits(n, group)) * Pow2(SubBits(n, group)) + sub % Pow2(SubBits(n, group))
    ensures Encode(n, group, preempt, sub) < Pow2(n)
  {
    var a, b := PreemptBits(n, group), SubBits(n, group);
    EncodedDigits(n, group, preempt, sub, And(preempt, Mask(a)), And(sub, Mask(b)), a, b);
    AndMask(preempt, a);
    AndMask(sub, b);
  }

  lemma {:induction false} EncodedDigits(
      n: PrioBits, group: Word, preempt: Word, sub: Word, p: Word, s: Word, a: nat, b: nat)
    requires a == PreemptBits(n, group) && b == SubBits(n, group)
    requires p == And(preempt, Mask(a)) && s == And(sub, Mask(b))
    ensures Encode(n, group, preempt, sub) == p * Pow2(b) + s < Pow2(n)
  {
    EncodedFields(n, group, preempt, sub, p, s, a, b);
    PlacedDigits(p, s, a, b, n, Encode(n, group, preempt, sub));
  }

  lemma {:induction false} EncodedFields(
      n: PrioBits, group: Word, preempt: Word, sub: Word, p: Word, s: Word, a: nat, b: nat)
    requires a == PreemptBits(n, group) && b == SubBits(n, group)
    requires p == And(preempt, Mask(a)) && s == And(sub, Mask(b))
    ensures a + b == n && Encode(n, group, preempt, sub) == OrWord(Shl(p, b), s)
  {
    WidthsSum(n, group);
    MaskWord(a);
    MaskWord(b);
  }

  lemma {:induction false} PlacedDigits(p: Word, s: Word, a: nat, b: nat, n: nat, x: Word)
    requires a + b == n <= 8 && p <= Mask(a) && s <= Mask(b)
    requires x == OrWord(Shl(p, b), s)
    ensures x == p * Pow2(b) + s < Pow2(n)
  {
    PlacedFields(p, s, a, b);
  }

  lemma {:induction false} PlacedFields(p: Word, s: Word, a: nat, b: nat)
    requires a + b <= 8 && p < Pow2(a) && s < Pow2(b)
    ensures OrWord(Shl(p, b), s) == p * Pow2(b) + s < Pow2(a + b)
  {
    PowerSum(a, b);
    TwoDigits(p, s, Pow2(a), Pow2(b));
    SmallPower(a + b);
    ShlExact(p, b, p * Pow2(b));
    LowField(p, s, b);
  }

  /** A field shifted past the width of another shares no bit with it. */
  lemma {:induction false} LowField(p: Word, s: Word, b: nat)
    requires b < 32 && s < Pow2(b)
    ensures OrWord(Shl(p, b), s) == Shl(p, b) + s
  {
    var h := Shl(p, b);
    forall i: nat | i < 32 ensures !Bit(And(h, s), i) {
      if i >= b {
        HighBits(s, b, i);
      }
    }
    ZeroBits();
    WordExtensional(And(h, s), 0);
    OrDisjoint(h, s);
  }

  /** Decoding an encoded priority gives back both parts, truncated to their widths. */
  lemma {:induction false} DecodeEncode(n: PrioBits, group: Word, preempt: Word, sub: Word)
    ensures var x := Encode(n, group, preempt, sub);
      && DecodedPreempt(n, x, group) == preempt % Pow2(PreemptBits(n, group))
      && DecodedSub(n, x, group) == sub % Pow2(SubBits(n, group))
  {
    var x := Encode(n, group, preempt, sub);
    EncodedValue(n, group, preempt, sub);
    DecodedValue(n, x, group);
    var a, b := Pow2(PreemptBits(n, group)), Pow2(SubBits(n, group));
    Digits(x, preempt % a, sub % b, a, b);
  }

  lemma {:induction false} Digits(x: nat, p: nat, s: nat, a: nat, b: nat)
    requires p < a && s < b && x == p * b + s
    ensures x / b % a == p && x % b == s
  {
    DivUnique(x, b, p, s);
    DivUnique(p, a, 0, p);
  }

  /** Encoding a decoded priority gives it back, truncated to N bits. */
  lemma {:induction false} EncodeDecode(n: PrioBits, group: Word, x: Word)
    ensures Encode(n, group, DecodedPreempt(n, x, group), DecodedSub(n, x, group)) == x % Pow2(n)
  {
    var p, s := DecodedPreempt(n, x, group), DecodedSub(n, x, group);
    WidthsSum(n, group);
    EncodedValue(n, group, p, s);
    DecodedValue(n, x, group);
    PowerSum(PreemptBits(n, group), SubBits(n, group));
    Recompose(x, p, s, Pow2(PreemptBits(n, group)), Pow2(SubBits(n, group)));
  }

  lemma {:induction false} Recompose(x: nat, p: nat, s: nat, a: nat, b: nat)
    requires a > 0 && b > 0 && p == x / b % a && s == x % b
    ensures p % a * b + s % b == x % (a * b)
  {
    var q := x / b / a;
    DivUnique(p, a, 0, p);
    DivUnique(s, b, 0, s);
    TwoDigits(p, s, a, b);
    Regroup(b, a, q, p);
    DivUnique(x, a * b, q, p * b + s);
  }

  /** In-range parts are encoded in lexicographic order: preemption decides, then subpriority. */
  lemma {:induction false} EncodeOrder(n: PrioBits, group: Word, p: Word, s: Word, p': Word, s': Word)
    requires p < Pow2(PreemptBits(n, group)) && p' < Pow2(PreemptBits(n, group))
    requires s < Pow2(SubBits(n, group)) && s' < Pow2(SubBits(n, group))
    ensures Encode(n, group, p, s) < Encode(n, group, p', s') <==> p < p' || (p == p' && s < s')
  {
    var a, b := Pow2(PreemptBits(n, group)), Pow2(SubBits(n, group));
    EncodedValue(n, group, p, s);
    EncodedValue(n, group, p', s');
    DivUnique(p, a, 0, p);
    DivUnique(p', a, 0, p');
    DivUnique(s, b, 0, s);
    DivUnique(s', b, 0, s');
    if p < p' {
      TwoDigits(p, s, p', b);
    } else if p' < p {
      TwoDigits(p', s', p, b);
    }
  }
}
