/**
 Unsigned 32-bit words as naturals, the C operators on them, and the reasoning by
 single bits that the rest of the project uses. Every operator's contract says what it
 does to each bit; `Extensional` says that the bits determine the word.
 */
module Bits {

  /** `uint32_t`. */
  type Word = x: int | 0 <= x < 0x1_0000_0000

  /** `uint8_t`. */
  type Byte = x: int | 0 <= x < 0x100

  function Pow2(n: nat): (p: nat)
    ensures p > 0
  {
    if n == 0 then 1 else 2 * Pow2(n - 1)
  }

  lemma {:induction false} PowersOfTwo()
    ensures Pow2(0) == 1 && Pow2(1) == 2 && Pow2(2) == 4 && Pow2(3) == 8 && Pow2(4) == 16
    ensures Pow2(5) == 32 && Pow2(6) == 64 && Pow2(7) == 128 && Pow2(8) == 256
    ensures Pow2(16) == 0x1_0000 && Pow2(24) == 0x100_0000 && Pow2(31) == 0x8000_0000
    ensures Pow2(32) == 0x1_0000_0000
  {
    assert Pow2(8) == 256;
    assert Pow2(16) == 0x1_0000;
    assert Pow2(24) == 0x100_0000;
    assert Pow2(31) == 0x8000_0000;
  }

  lemma {:induction false} PowerSum(a: nat, b: nat)
    ensures Pow2(a + b) == Pow2(a) * Pow2(b)
  {
    if a > 0 {
      PowerSum(a - 1, b);
    }
  }

  lemma {:induction false} PowerMonotone(a: nat, b: nat)
    requires a <= b
    ensures Pow2(a) <= Pow2(b)
  {
    if a < b {
      PowerMonotone(a, b - 1);
    }
  }

  lemma {:induction false} SmallPower(k: nat)
    requires k <= 8
    ensures Pow2(k) <= 256
  {
    PowersOfTwo();
    PowerMonotone(k, 8);
  }

  /** Bit `i` of `x`, counted from the least significant one. */
  predicate Bit(x: nat, i: nat) {
    if i == 0 then x % 2 == 1 else Bit(x / 2, i - 1)
  }

  lemma {:induction false} ZeroBit(i: nat)
    ensures !Bit(0, i)
  {
    if i > 0 {
      ZeroBit(i - 1);
    }
  }

  lemma {:induction false} ZeroBits()
    ensures forall i: nat {:trigger Bit(0, i)} :: !Bit(0, i)
  {
    forall i: nat ensures !Bit(0, i) {
      ZeroBit(i);
    }
  }

  /** C's `&`. */
  function And(x: nat, y: nat): (r: nat)
    ensures r <= x && r <= y
    ensures forall i: nat {:trigger Bit(r, i)} :: Bit(r, i) <==> Bit(x, i) && Bit(y, i)
  {
    if x == 0 then
      ZeroBits();
      0
    else
      2 * And(x / 2, y / 2) + if x % 2 == 1 && y % 2 == 1 then 1 else 0
  }

  /** C's `|`. */
  function Or(x: nat, y: nat): (r: nat)
    ensures x <= r && y <= r <= x + y
    ensures forall i: nat {:trigger Bit(r, i)} :: Bit(r, i) <==> Bit(x, i) || Bit(y, i)
  {
    if x == 0 then
      ZeroBits();
      y
    else
      2 * Or(x / 2, y / 2) + if x % 2 == 1 || y % 2 == 1 then 1 else 0
  }

  lemma {:induction false} OrBounded(x: nat, y: nat, n: nat)
    requires x < Pow2(n) && y < Pow2(n)
    ensures Or(x, y) < Pow2(n)
  {
    if x != 0 {
      OrBounded(x / 2, y / 2, n - 1);
    }
  }

  /** C's `|` on `uint32_t`. */
  function OrWord(x: Word, y: Word): (r: Word)
    ensures forall i: nat {:trigger Bit(r, i)} :: Bit(r, i) <==> Bit(x, i) || Bit(y, i)
  {
    PowersOfTwo();
    OrBounded(x, y, 32);
    Or(x, y)
  }

  /** Numbers whose low `n` bits agree and that are below 2^n are equal. */
  lemma {:induction false} Extensional(x: nat, y: nat, n: nat)
    requires x < Pow2(n) && y < Pow2(n)
    requires forall i: nat :: i < n ==> Bit(x, i) == Bit(y, i)
    ensures x == y
  {
    if n > 0 {
      assert Bit(x, 0) == Bit(y, 0);
      forall i: nat | i < n - 1 ensures Bit(x / 2, i) == Bit(y / 2, i) {
        assert Bit(x, i + 1) == Bit(y, i + 1);
      }
      Extensional(x / 2, y / 2, n - 1);
    }
  }

  lemma {:induction false} WordExtensional(x: Word, y: Word)
    requires forall i: nat :: i < 32 ==> Bit(x, i) == Bit(y, i)
    ensures x == y
  {
    PowersOfTwo();
    Extensional(x, y, 32);
  }

  lemma {:induction false} HighBits(x: nat, n: nat, i: nat)
    requires x < Pow2(n) && n <= i
    ensures !Bit(x, i)
  {
    if n == 0 {
      ZeroBit(i);
    } else {
      HighBits(x / 2, n - 1, i - 1);
    }
  }

  lemma {:induction false} WordHighBits(x: Word)
    ensures forall i: nat :: i >= 32 ==> !Bit(x, i)
  {
    PowersOfTwo();
    forall i: nat | i >= 32 ensures !Bit(x, i) {
      HighBits(x, 32, i);
    }
  }

  /** A bit is a binary digit. */
  lemma {:induction false} BitIsDigit(x: nat, i: nat)
    ensures Bit(x, i) <==> x / Pow2(i) % 2 == 1
  {
    if i > 0 {
      BitIsDigit(x / 2, i - 1);
      DivDiv(x, 2, Pow2(i - 1));
    }
  }

  lemma {:induction false} DivDiv(x: nat, a: nat, b: nat)
    requires a > 0 && b > 0
    ensures a * b > 0
    ensures x / a / b == x / (a * b)
  {
    var q, r := x / a, x % a;
    var q', r' := q / b, q % b;
    TwoDigits(r', r, b, a);
    Regroup(a, b, q', r');
    DivUnique(x, a * b, q', r' * a + r);
  }

  lemma {:induction false} ExactQuotient(x: nat, q: nat, d: nat)
    requires d > 0 && x == q * d
    ensures x / d == q
  {
    DivUnique(x, d, q, 0);
  }

  lemma {:induction false} Regroup(a: int, b: int, q: int, r: int)
    ensures a * (b * q + r) == (a * b) * q + r * a
  {
  }

  lemma {:induction false} TwoDigits(p: nat, s: nat, a: nat, b: nat)
    requires p < a && s < b
    ensures p * b + s < a * b
  {
    assert p * b + b == (p + 1) * b <= a * b;
  }

  lemma {:induction false} DivUnique(x: int, d: nat, q: int, r: nat)
    requires d > 0 && r < d && x == d * q + r
    ensures x / d == q && x % d == r
  {
    var k := x / d - q;
    assert x == d * (x / d) + x % d;
    assert d * k == r - x % d;
    assert k >= 1 ==> d * k >= d;
    assert k <= -1 ==> d * (k + 1) <= 0;
  }

  /** C's `>>` on an unsigned operand. */
  function Shr(x: nat, k: nat): (r: nat)
    ensures r <= x
    ensures forall i: nat {:trigger Bit(r, i)} :: Bit(r, i) <==> Bit(x, i + k)
  {
    if k == 0 then x else Shr(x / 2, k - 1)
  }

  lemma {:induction false} ShrValue(x: nat, k: nat)
    ensures Shr(x, k) == x / Pow2(k)
  {
    if k > 0 {
      ShrValue(x / 2, k - 1);
      DivDiv(x, 2, Pow2(k - 1));
    }
  }

  /** The product x * 2^k, before any truncation. */
  function Scale(x: nat, k: nat): (r: nat)
    ensures forall i: nat {:trigger Bit(r, i)} :: Bit(r, i) <==> i >= k && Bit(x, i - k)
  {
    if k == 0 then x else 2 * Scale(x, k - 1)
  }

  lemma {:induction false} ScaleValue(x: nat, k: nat)
    ensures Scale(x, k) == x * Pow2(k)
  {
    if k > 0 {
      ScaleValue(x, k - 1);
    }
  }

  /** The low `n` bits of `x`. */
  function Low(x: nat, n: nat): (r: nat)
    ensures r < Pow2(n)
    ensures forall i: nat {:trigger Bit(r, i)} :: Bit(r, i) <==> i < n && Bit(x, i)
  {
    if n == 0 then
      ZeroBits();
      0
    else
      2 * Low(x / 2, n - 1) + x % 2
  }

  lemma {:induction false} LowValue(x: nat, n: nat)
    ensures Low(x, n) == x % Pow2(n)
  {
    if n > 0 {
      LowValue(x / 2, n - 1);
      LowStep(x, n);
    }
  }

  lemma {:induction false} LowStep(x: nat, n: nat)
    requires n > 0
    ensures x % Pow2(n) == 2 * (x / 2 % Pow2(n - 1)) + x % 2
  {
    var m := Pow2(n - 1);
    var q, r := x / 2 / m, x / 2 % m;
    assert x == 2 * (m * q + r) + x % 2;
    DivUnique(x, 2 * m, q, 2 * r + x % 2);
  }

  /** C's `<<` on `uint32_t`: bits shifted past bit 31 are lost. */
  function Shl(x: Word, k: nat): (r: Word)
    requires k < 32
    ensures forall i: nat {:trigger Bit(r, i)} :: Bit(r, i) <==> k <= i < 32 && Bit(x, i - k)
  {
    PowersOfTwo();
    Low(Scale(x, k), 32)
  }

  lemma {:induction false} ShlValue(x: Word, k: nat)
    requires k < 32
    ensures Shl(x, k) == x * Pow2(k) % 0x1_0000_0000
  {
    PowersOfTwo();
    ScaleValue(x, k);
    LowValue(Scale(x, k), 32);
  }

  /** A left shift that loses no bit is a multiplication. */
  lemma {:induction false} ShlExact(x: Word, k: nat, product: nat)
    requires k < 32 && product == x * Pow2(k) < 0x1_0000_0000
    ensures Shl(x, k) == product
  {
    ShlValue(x, k);
    WholeWord(product);
  }

  lemma {:induction false} WholeWord(v: nat)
    requires v < 0x1_0000_0000
    ensures v % 0x1_0000_0000 == v
  {
  }

  /** C's `~` on `uint32_t`. */
  function Not(x: Word): (r: Word)
    ensures forall i: nat {:trigger Bit(r, i)} :: Bit(r, i) <==> i < 32 && !Bit(x, i)
  {
    ComplementBits(x);
    0xFFFF_FFFF - x
  }

  lemma {:induction false} ComplementBits(x: Word)
    ensures forall i: nat {:trigger Bit(0xFFFF_FFFF - x, i)} :: Bit(0xFFFF_FFFF - x, i) <==> i < 32 && !Bit(x, i)
  {
    PowersOfTwo();
    forall i: nat {:trigger Bit(0xFFFF_FFFF - x, i)}
      ensures Bit(0xFFFF_FFFF - x, i) <==> i < 32 && !Bit(x, i)
    {
      ComplementBit(x, 32, i);
    }
  }

  lemma {:induction false} ComplementBit(x: nat, n: nat, i: nat)
    requires x < Pow2(n)
    ensures Bit(Pow2(n) - 1 - x, i) <==> i < n && !Bit(x, i)
  {
    if n == 0 {
      ZeroBit(i);
    } else if i > 0 {
      assert (Pow2(n) - 1 - x) / 2 == Pow2(n - 1) - 1 - x / 2;
      ComplementBit(x / 2, n - 1, i - 1);
    }
  }

  /** C's `-` on `uint32_t`, which wraps around. */
  function Sub(x: Word, y: Word): Word {
    if x >= y then x - y else x - y + 0x1_0000_0000
  }

  /** C's `-` on `uint8_t`, which wraps around. */
  function SubByte(x: Byte, y: Byte): Byte {
    if x >= y then x - y else x - y + 0x100
  }

  /** C's `+` on `uint32_t`, which wraps around. */
  function Add(x: Word, y: Word): Word {
    if x + y < 0x1_0000_0000 then x + y else x + y - 0x1_0000_0000
  }

  /** The constant 2^n - 1, written `(1UL << n) - 1UL` in the source. */
  function Mask(n: nat): (r: nat)
    ensures r == Pow2(n) - 1
    ensures forall i: nat {:trigger Bit(r, i)} :: Bit(r, i) <==> i < n
  {
    if n == 0 then
      ZeroBits();
      0
    else
      2 * Mask(n - 1) + 1
  }

  /** Masking with 2^n - 1 is the remainder modulo 2^n. */
  lemma {:induction false} AndMask(x: nat, n: nat)
    ensures And(x, Mask(n)) == x % Pow2(n)
  {
    Extensional(And(x, Mask(n)), Low(x, n), n);
    LowValue(x, n);
  }

  /** C's `*` on `uint32_t`, which wraps around. */
  function Mul(x: Word, y: Word): Word {
    x * y % 0x1_0000_0000
  }

  /** C's `/` on `uint32_t`. */
  function Div(x: Word, y: Word): (q: Word)
    requires y > 0
    ensures q == x / y
  {
    QuotientBound(x, y);
    x / y
  }

  lemma {:induction false} QuotientBound(x: nat, y: nat)
    requires y > 0
    ensures 0 <= x / y <= x
  {
    QuotientRange(x, y, x / y, x % y);
  }

  lemma {:induction false} QuotientRange(x: nat, y: nat, q: int, r: int)
    requires y > 0 && x == y * q + r && 0 <= r < y
    ensures 0 <= q <= x
  {
    assert q <= -1 ==> y * (q + 1) <= 0;
    assert q >= 0 ==> y * q >= q;
  }

  /** The bits of the constant 2^n. */
  lemma {:induction false} PowerBit(n: nat, i: nat)
    ensures Bit(Pow2(n), i) <==> i == n
  {
    if n == 0 {
      if i > 0 {
        ZeroBit(i - 1);
      }
    } else if i > 0 {
      PowerBit(n - 1, i - 1);
    }
  }

  lemma {:induction false} PowerBits(n: nat)
    ensures forall i: nat {:trigger Bit(Pow2(n), i)} :: Bit(Pow2(n), i) <==> i == n
  {
    forall i: nat ensures Bit(Pow2(n), i) <==> i == n {
      PowerBit(n, i);
    }
  }

  /** `|` of numbers that share no bit is their sum. */
  lemma {:induction false} OrDisjoint(x: nat, y: nat)
    requires And(x, y) == 0
    ensures Or(x, y) == x + y
  {
    if x != 0 {
      OrDisjoint(x / 2, y / 2);
    }
  }

  lemma {:induction false} OneBits()
    ensures forall i: nat {:trigger Bit(1, i)} :: Bit(1, i) <==> i == 0
  {
    ZeroBits();
  }

  lemma {:induction false} ShrShr(x: nat, a: nat, b: nat)
    ensures Shr(Shr(x, a), b) == Shr(x, a + b)
  {
    ShrValue(Shr(x, a), b);
    ShrValue(x, a);
    ShrValue(x, a + b);
    PowerSum(a, b);
    DivDiv(x, Pow2(a), Pow2(b));
  }

  /** The last position of `s` whose element satisfies `p`, or -1. */
  function LastWhere<T>(s: seq<T>, p: T -> bool): (j: int)
    ensures -1 <= j < |s|
    ensures j >= 0 ==> p(s[j])
    ensures forall i :: j < i < |s| ==> !p(s[i])
  {
    if s == [] then -1
    else
      var n := |s| - 1;
      if p(s[n]) then n else LastWhere(s[..n], p)
  }
}
