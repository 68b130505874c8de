/**
 The software forms of bit reversal, leading-zero count and rotation, with the laws
 that tie them to one another.
 */
module Instructions {
  import opened Bits

  // ---------------------------------------------------------------- reversal

  /** The low `n` bits of `x` in mirrored order. */
  function Reverse(x: nat, n: nat): (r: nat)
    ensures r < Pow2(n)
    ensures forall i: nat {:trigger Bit(r, i)} :: Bit(r, i) <==> i < n && Bit(x, n - 1 - i)
  {
    if n == 0 then
      ZeroBits();
      0
    else
      2 * Reverse(x, n - 1) + if Bit(x, n - 1) then 1 else 0
  }

  function Reversed(x: Word): (r: Word)
    ensures forall i: nat {:trigger Bit(r, i)} :: Bit(r, i) <==> i < 32 && Bit(x, 31 - i)
  {
    PowersOfTwo();
    Reverse(x, 32)
  }

  /** The low 32 - s bits of `value` stand mirrored in the low bits of `result`. */
  ghost predicate PartlyReversed(value: Word, result: Word, s: nat) {
    s <= 31 && forall j: nat {:trigger Bit(result, j)} :: j <= 31 - s ==> (Bit(result, j) <==> Bit(value, 31 - s - j))
  }

  lemma {:induction false} StartReversal(value: Word)
    ensures PartlyReversed(value, value, 31)
  {
  }

  /** While a bit is left there is a shift left to give. */
  lemma {:induction false} BitLeft(value: Word, s: nat, v: Word)
    requires s <= 31 && v == Shr(value, 32 - s) && v != 0
    ensures s > 0 && Sub(s, 1) == SubByte(s, 1) == s - 1
    ensures Shr(v, 1) == Shr(value, 33 - s) && Shr(v, 1) < v
  {
    if s == 0 {
      PowersOfTwo();
      ShrValue(value, 32);
    }
    ShrShr(value, 32 - s, 1);
    ShrValue(v, 1);
  }

  /** One turn of the loop moves one more bit of `value` over. */
  lemma {:induction false} ContinueReversal(value: Word, result: Word, s: nat, v: Word)
    requires PartlyReversed(value, result, s) && v == Shr(value, 32 - s) && s > 0
    ensures PartlyReversed(value, OrWord(Shl(result, 1), And(v, 1)), s - 1)
  {
    OneBits();
    var r := OrWord(Shl(result, 1), And(v, 1));
    forall j: nat | j <= 32 - s ensures Bit(r, j) <==> Bit(value, 32 - s - j) {
      if j > 0 {
        assert Bit(result, j - 1) <==> Bit(value, 32 - s - j);
      }
    }
  }

  /** Once no bit is left, the remaining shift puts the mirrored bits in place. */
  lemma {:induction false} FinishReversal(value: Word, result: Word, s: nat)
    requires PartlyReversed(value, result, s) && Shr(value, 32 - s) == 0
    ensures Shl(result, s) == Reversed(value)
  {
    ZeroBits();
    forall i: nat | i < 32 ensures Bit(Shl(result, s), i) == Bit(Reversed(value), i) {
      if i < s {
        assert Bit(Shr(value, 32 - s), s - 1 - i) == Bit(value, 31 - i);
      }
    }
    WordExtensional(Shl(result, s), Reversed(value));
  }

  /** `__RBIT` of the GCC header: stops as soon as the bits that are left are all zero. */
  method Rbit(value: Word) returns (result: Word)
    ensures result == Reversed(value)
  {
    var s: Word := 31;
    result := value;
    StartReversal(value);
    var v: Word := Shr(value, 1);
    while v != 0
      invariant PartlyReversed(value, result, s)
      invariant v == Shr(value, 32 - s)
      decreases v
    {
      BitLeft(value, s, v);
      ContinueReversal(value, result, s, v);
      result := Shl(result, 1);
      result := OrWord(result, And(v, 1));
      s := Sub(s, 1);
      v := Shr(v, 1);
    }
    FinishReversal(value, result, s);
    result := Shl(result, s);
  }

  /** `__RBIT` of the IAR header: the remaining shift is kept in an 8-bit counter. */
  method RbitIar(value: Word) returns (r: Word)
    ensures r == Reversed(value)
  {
    var sc: Byte := 31;
    r := value;
    StartReversal(value);
    var v: Word := Shr(value, 1);
    while v != 0
      invariant PartlyReversed(value, r, sc)
      invariant v == Shr(value, 32 - sc)
      decreases v
    {
      BitLeft(value, sc, v);
      ContinueReversal(value, r, sc, v);
      r := Shl(r, 1);
      r := OrWord(r, And(v, 1));
      sc := SubByte(sc, 1);
      v := Shr(v, 1);
    }
    FinishReversal(value, r, sc);
    r := Shl(r, sc);
  }

  lemma {:induction false} ReversedInvolution(x: Word)
    ensures Reversed(Reversed(x)) == x
  {
    WordExtensional(Reversed(Reversed(x)), x);
  }

  // ---------------------------------------------------------------- leading zeros

  /** `c` zeros stand above the highest set bit of `x`. */
  ghost predicate LeadingZeros(x: Word, c: nat) {
    && c <= 32
    && (forall i: nat :: 32 - c <= i < 32 ==> !Bit(x, i))
    && (c < 32 ==> Bit(x, 31 - c))
  }

  /** `c` zeros stand below the lowest set bit of `x`. */
  ghost predicate TrailingZeros(x: Word, c: nat) {
    && c <= 32
    && (forall i: nat :: i < c ==> !Bit(x, i))
    && (c < 32 ==> Bit(x, c))
  }

  /** `__CLZ` of the IAR header: moves a one-bit mask down until it meets a set bit. */
  method Clz(data: Word) returns (zeros: Byte)
    ensures LeadingZeros(data, zeros)
  {
    if data == 0 {
      ZeroBits();
      return 32;
    }
    var count: Word := 0;
    var mask: Word := 0x8000_0000;
    StartScan(data);
    while And(data, mask) == 0
      invariant Scanning(data, count, mask)
      decreases 31 - count
    {
      NextMask(data, count, mask);
      count := Add(count, 1);
      mask := Shr(mask, 1);
    }
    return count;
  }

  /** The mask stands on bit 31 - count and everything above it is clear. */
  ghost predicate Scanning(data: Word, count: nat, mask: nat) {
    && count <= 31
    && mask == Pow2(31 - count)
    && (And(data, mask) == 0 <==> !Bit(data, 31 - count))
    && forall i: nat :: i >= 32 - count ==> !Bit(data, i)
  }

  lemma {:induction false} StartScan(data: Word)
    ensures Scanning(data, 0, 0x8000_0000)
  {
    PowersOfTwo();
    SingleBitTest(data, 31);
    WordHighBits(data);
  }

  /** While the scan goes on there is a lower bit to look at, so the mask never reaches zero. */
  lemma {:induction false} NextMask(data: Word, count: nat, mask: nat)
    requires data != 0 && Scanning(data, count, mask) && And(data, mask) == 0
    ensures count < 31 && Scanning(data, count + 1, Shr(mask, 1))
  {
    if count == 31 {
      ZeroBits();
      WordExtensional(data, 0);
    }
    SingleBitTest(data, 30 - count);
    ShrValue(mask, 1);
    PowersOfTwo();
  }

  lemma {:induction false} SingleBitTest(x: nat, i: nat)
    ensures And(x, Pow2(i)) == 0 <==> !Bit(x, i)
  {
    PowerBits(i);
    ZeroBits();
    assert Bit(And(x, Pow2(i)), i) <==> Bit(x, i);
    if !Bit(x, i) {
      PowerMonotone(i, i + 1);
      PowerMonotone(i, i + x + 1);
      BelowItsPower(x, i + x + 1);
      Extensional(And(x, Pow2(i)), 0, i + x + 1);
    }
  }

  lemma {:induction false} BelowItsPower(x: nat, n: nat)
    requires x < n
    ensures x < Pow2(n)
  {
    if x > 0 {
      BelowItsPower(x - 1, n - 1);
    }
  }

  /** For a nonzero word the count is the one power-of-two bracket the word lies in. */
  lemma {:induction false} LeadingZerosBracket(x: Word, c: nat)
    requires c < 32
    ensures LeadingZeros(x, c) <==> Pow2(31 - c) <= x < Pow2(32 - c)
  {
    if LeadingZeros(x, c) {
      ClearAbove(x, 32 - c);
      if x < Pow2(31 - c) {
        HighBits(x, 31 - c, 31 - c);
      }
    } else if Pow2(31 - c) <= x < Pow2(32 - c) {
      forall i: nat | 32 - c <= i ensures !Bit(x, i) {
        HighBits(x, 32 - c, i);
      }
      ClearAbove(x, 31 - c);
    }
  }

  /** A word with no set bit at or above `n` is below 2^n. */
  lemma {:induction false} ClearAbove(x: Word, n: nat)
    requires n <= 32 && forall i: nat :: n <= i < 32 ==> !Bit(x, i)
    ensures x < Pow2(n)
  {
    PowersOfTwo();
    PowerMonotone(n, 32);
    WordExtensional(x, Low(x, n));
  }

  /** Counting the leading zeros of the reversed word counts the trailing zeros of the word. */
  lemma {:induction false} TrailingZerosByReversal(x: Word, c: nat)
    ensures LeadingZeros(Reversed(x), c) <==> TrailingZeros(x, c)
  {
    var y := Reversed(x);
    if LeadingZeros(y, c) {
      forall i: nat | i < c ensures !Bit(x, i) {
        assert !Bit(y, 31 - i);
      }
    }
    if TrailingZeros(x, c) {
      forall i: nat | 32 - c <= i < 32 ensures !Bit(y, i) {
        assert !Bit(x, 31 - i);
      }
    }
  }

  /** The trailing-zero count is the exponent of the largest power of two that divides the word. */
  lemma {:induction false} TrailingZerosDivide(x: Word, c: nat)
    requires c < 32
    ensures TrailingZeros(x, c) <==> x % Pow2(c) == 0 && x / Pow2(c) % 2 == 1
  {
    BitIsDigit(x, c);
    ZeroBits();
    var low := Low(x, c);
    LowValue(x, c);
    if TrailingZeros(x, c) {
      Extensional(low, 0, c);
    }
    if low == 0 {
      forall i: nat | i < c ensures !Bit(x, i) {
        assert Bit(low, i) == Bit(x, i);
      }
    }
  }

  // ---------------------------------------------------------------- rotation

  /** `__ROR` of the GCC header. */
  function Ror(op1: Word, op2: Word): Word {
    var n := op2 % 32;
    if n == 0 then op1 else OrWord(Shr(op1, n), Shl(op1, 32 - n))
  }

  lemma {:induction false} RotatedBit(x: Word, n: Word, i: nat)
    requires i < 32
    ensures Bit(Ror(x, n), i) <==> Bit(x, (i + n) % 32)
  {
    var m := n % 32;
    RotatedIndex(i, n);
    if m != 0 && i >= 32 - m {
      HighBit(x, i + m);
    }
  }

  lemma {:induction false} RotatedIndex(i: nat, n: Word)
    requires i < 32
    ensures (i + n) % 32 == if i < 32 - n % 32 then i + n % 32 else i + n % 32 - 32
  {
  }

  lemma {:induction false} HighBit(x: Word, i: nat)
    requires i >= 32
    ensures !Bit(x, i)
  {
    WordHighBits(x);
  }

  /** Rotations add up, also when the sum of the amounts wraps around at 2^32. */
  lemma {:induction false} RorCompose(x: Word, a: Word, b: Word)
    ensures Ror(Ror(x, a), b) == Ror(x, Add(a, b))
  {
    var y := Ror(x, a);
    var once, twice := Ror(x, Add(a, b)), Ror(y, b);
    forall i: nat | i < 32 ensures Bit(twice, i) == Bit(once, i) {
      RotatedBit(y, b, i);
      RotatedBit(x, a, (i + b) % 32);
      RotatedBit(x, Add(a, b), i);
      SumOfRotations(i, a, b);
    }
    WordExtensional(twice, once);
  }

  lemma {:induction false} SumOfRotations(i: nat, a: Word, b: Word)
    ensures ((i + b) % 32 + a) % 32 == (i + Add(a, b)) % 32
  {
  }

  /** Rotating by the rest of the word undoes a rotation. */
  lemma {:induction false} RorUndo(x: Word, a: Word)
    ensures Ror(Ror(x, a), 32 - a % 32) == x
  {
    RorCompose(x, a, 32 - a % 32);
    FullTurn(a);
  }

  lemma {:induction false} FullTurn(a: Word)
    ensures Add(a, 32 - a % 32) % 32 == 0
  {
    SumOfRotations(0, a, 32 - a % 32);
  }

  /** Reversal turns a rotation around. */
  lemma {:induction false} ReversedRor(x: Word, a: Word)
    ensures Reversed(Ror(x, a)) == Ror(Reversed(x), 32 - a % 32)
  {
    var n := 32 - a % 32;
    var y, z := Ror(x, a), Reversed(x);
    var w := Ror(z, n);
    var r := Reversed(y);
    forall i: nat | i < 32 ensures Bit(r, i) == Bit(w, i) {
      RotatedBit(x, a, 31 - i);
      RotatedBit(z, n, i);
      OppositeRotation(i, a);
    }
    WordExtensional(r, w);
  }

  lemma {:induction false} OppositeRotation(i: nat, a: Word)
    requires i < 32
    ensures 31 - (i + (32 - a % 32)) % 32 == (31 - i + a) % 32
  {
  }
}
