/** How dtoa turns a double and an exponent k into integers b, S, mlo and mhi. */
module Scaling {
  import opened Powers
  import opened Words
  import opened BigInts
  import opened Kernel
  import opened QuoRems
  import opened PowersOfFive
  import opened DoubleBits
  import opened Shortest
  import opened Decimals

  // ----- What the words of a double mean -----

  ghost function DoubleValue(word0: Word, word1: Word): real
  {
    Significand(word0, word1) as real * RPow(2, UnitExp(word0))
  }

  /** A normalised power of two whose lower neighbour lies in the next binade down. */
  predicate SpecialCase(word0: Word, word1: Word)
  {
    word1 == 0 && FracHigh(word0) == 0 && ExpField(word0) >= 2
  }

  /** Half the distance to the next double away from zero, and towards it. */
  ghost function HalfGapAbove(word0: Word): (h: real)
    ensures h > 0.0
  {
    RPow(2, UnitExp(word0) - 1)
  }

  ghost function HalfGapBelow(word0: Word, word1: Word): (h: real)
    ensures h > 0.0
  {
    if SpecialCase(word0, word1) then RPow(2, UnitExp(word0) - 2) else RPow(2, UnitExp(word0) - 1)
  }

  // ----- The exponents -----

  /**
   * The bookkeeping of b2, b5, s2, s5 and m2, with the powers of two that b and S have in common
   * removed. What matters are the differences.
   */
  method Exponents(word0: Word, be: int, bits: int, k: int, leftright: bool, ghost shift: nat)
    returns (b2: int, b5: int, s2: int, s5: int, m2: int)
    requires bits >= 1 && be == UnitExp(word0) + shift && (ExpField(word0) > 0 ==> bits == P - shift)
    ensures b2 >= 0 && b5 >= 0 && s2 >= 0 && s5 >= 0 && m2 >= 0
    ensures b2 - s2 == be - k && b5 - s5 == -k
    ensures leftright ==> m2 - s2 == UnitExp(word0) - 1 - k
  {
    var i;
    var denorm := ExpField(word0) == 0;
    if denorm {
      i := bits + be + (BIAS + (P - 1) - 1);
      i := i - ((BIAS + (P - 1) - 1) + 1);
    } else {
      i := ExpField(word0) - BIAS;
    }
    var j := bits - i - 1;
    if j >= 0 {
      b2, s2 := 0, j;
    } else {
      b2, s2 := -j, 0;
    }
    if k >= 0 {
      b5, s5 := 0, k;
      s2 := s2 + k;
    } else {
      b2 := b2 - k;
      b5, s5 := -k, 0;
    }
    m2 := b2;
    if leftright {
      i := if denorm then be + (BIAS + (P - 1) - 1 + 1) else 1 + P - bits;
      b2, s2 := b2 + i, s2 + i;
    }
    if m2 > 0 && s2 > 0 {
      i := if m2 < s2 then m2 else s2;
      b2, m2, s2 := b2 - i, m2 - i, s2 - i;
    }
  }

  lemma ScaleArith(a: real, f: real, c: real, e: real, x: real, y: real, k2: real, k5: real)
    requires x * k2 == a * e && y * k5 == f
    ensures (a * f) * (c * e) == ((c * x) * y) * (k2 * k5)
  {
    assert ((c * x) * y) * (k2 * k5) == c * ((x * k2) * (y * k5));
    assert c * ((a * e) * f) == (a * f) * (c * e);
  }

  lemma PowShift(b: nat, x: nat, k: int, s: nat, e: int)
    requires b > 0 && x - s == e - k
    ensures Pow(b, x) as real * RPow(b, k) == Pow(b, s) as real * RPow(b, e)
  {
    hide Pow, RPow;
    RPowNat(b, x);
    RPowNat(b, s);
    RPowAdd(b, x, k);
    RPowAdd(b, s, e);
    assert x + k == s + e;
  }

  /** An integer c 2^x2 5^x5 over 2^s2 5^s5 is c 2^e over 10^k when the exponents differ as they should. */
  lemma ScaledQuotient(c: nat, x2: nat, x5: nat, s2: nat, s5: nat, e: int, k: int, num: nat, den: nat)
    requires x2 - s2 == e - k && x5 - s5 == -k
    requires num == c * Pow(2, x2) * Pow(5, x5) && den == Pow(2, s2) * Pow(5, s5)
    ensures den as real * (c as real * RPow(2, e)) == num as real * RPow(10, k)
  {
    hide Pow, RPow;
    PowShift(2, x2, k, s2, e);
    FiveShift(x5, k, s5);
    RPowTen(k);
    QuotientArith(Pow(2, s2), Pow(5, s5), c, Pow(2, x2), Pow(5, x5), RPow(2, e), RPow(2, k), RPow(5, k), RPow(10, k));
  }

  lemma FiveShift(x: nat, k: int, s: nat)
    requires x - s == -k
    ensures Pow(5, x) as real * RPow(5, k) == Pow(5, s) as real
  {
    hide Pow, RPow;
    PowShift(5, x, k, s, 0);
    RPowZero(5);
  }

  lemma QuotientArith(a: nat, f: nat, c: nat, x: nat, y: nat, e2: real, k2: real, k5: real, k10: real)
    requires x as real * k2 == a as real * e2 && y as real * k5 == f as real && k10 == k2 * k5
    ensures (a * f) as real * (c as real * e2) == (c * x * y) as real * k10
  {
    AsReal(a, f);
    AsReal(c * x, y);
    AsReal(c, x);
    ScaleArith(a as real, f as real, c as real, e2, x as real, y as real, k2, k5);
  }

  // ----- The factors -----

  /** b and mhi times 5^b5, and S as 5^s5. The source's m5 is always b5. */
  method Numbers(cache: Pow5Cache, b0: Bigint, b5: nat, s5: nat) returns (b: Bigint, S: Bigint, mhi: Bigint)
    requires cache.Valid() && b0.Valid() && b0.Normal() && b0.Repr() !! cache.Repr
    modifies cache.Repr
    ensures cache.Valid() && fresh(cache.Repr - old(cache.Repr))
    ensures b.Valid() && b.Normal() && S.Valid() && S.Normal() && mhi.Valid() && mhi.Normal()
    ensures b.Value() == old(b0.Value()) * Pow(5, b5) && S.Value() == Pow(5, s5) && mhi.Value() == Pow(5, b5)
    ensures b == b0 || fresh(b.Repr())
    ensures fresh(S.Repr()) && fresh(mhi.Repr())
    ensures b.Repr() !! S.Repr() && b.Repr() !! mhi.Repr() && S.Repr() !! mhi.Repr()
    ensures b.Repr() !! cache.Repr && S.Repr() !! cache.Repr && mhi.Repr() !! cache.Repr
  {
    hide Pow, Val, Pow5Cache.Valid;
    mhi := FivePower(cache, b5);
    b := b0;
    if b5 > 0 {
      PowPositive(5, b5);
      PositiveHasWords(mhi);
      SwapFactors(mhi.Value(), b.Value());
      b := Mult(mhi, b);
    } else {
      PowZero(5);
    }
    S := FivePower(cache, s5);
  }

  /** `i2b(1)`, and pow5mult on it if there is anything to multiply by. */
  method FivePower(cache: Pow5Cache, n: nat) returns (p: Bigint)
    requires cache.Valid()
    modifies cache.Repr
    ensures cache.Valid() && fresh(cache.Repr - old(cache.Repr))
    ensures fresh(p.Repr()) && p.Repr() !! cache.Repr
    ensures p.Valid() && p.Normal() && p.Value() == Pow(5, n)
  {
    hide Pow, Val, Pow5Cache.Valid;
    PowZero(5);
    p := I2B(1);
    if n > 0 {
      p := cache.Pow5Mult(p, n);
    }
  }

  /** How far to shift so that the top word of the divisor gets exactly four leading zero bits. */
  method AlignShift(S: Bigint, s5: nat, s2: nat, ghost bits: int) returns (i: nat)
    requires S.Valid() && S.Normal() && S.Value() > 0 && HasBits(S.Value(), bits)
    requires s5 == 0 ==> S.Value() == 1
    ensures (bits + s2 + i) % 32 == 28
  {
    hide Val, Pow;
    var top := 1;
    if s5 != 0 {
      PositiveHasWords(S);
      TopNonzero(S);
      var h := Hi0Bits(S.x[S.wds - 1]);
      TopBits(S.x[..S.wds], h);
      SameBits(S.Value(), bits, 32 * S.wds - h);
      top := 32 - h;
    } else {
      OneBit();
      SameBits(1, bits, 1);
    }
    i := ToAlign(top + s2);
    Congruent(bits, top, S.wds, s2, i);
  }

  lemma Congruent(bits: int, top: int, wds: nat, s2: nat, i: nat)
    requires bits == top || bits == 32 * (wds - 1) + top
    requires (top + s2 + i) % 32 == 28
    ensures (bits + s2 + i) % 32 == 28
  {
  }

  /** The distance from x to the next number that is 28 modulo 32. */
  method ToAlign(x: nat) returns (i: nat)
    ensures (x + i) % 32 == 28 && i < 32
  {
    i := x % 32;
    if i != 0 {
      i := 32 - i;
    }
    if i > 4 {
      i := i - 4;
    } else if i < 4 {
      i := i + 28;
    } else {
      i := 0;
    }
  }

  lemma OneBit()
    ensures HasBits(1, 1)
  {
    assert Pow(2, 1) == 2 * Pow(2, 0);
  }

  lemma TopNonzero(S: Bigint)
    requires S.Valid() && S.Normal() && S.Value() > 0 && S.wds > 0
    ensures S.x[S.wds - 1] > 0
  {
    if S.x[S.wds - 1] == 0 {
      ValZeros(S.x[..1]);
    }
  }

  lemma SameBits(v: nat, m: int, n: int)
    requires HasBits(v, m) && HasBits(v, n)
    ensures m == n
  {
    hide Pow;
    if m < n {
      PowMonotone(2, m, n - 1);
    } else if n < m {
      PowMonotone(2, n, m - 1);
    }
  }

  lemma {:induction false} BitsExist(v: nat) returns (bits: int)
    requires v > 0
    ensures HasBits(v, bits)
  {
    if v == 1 {
      OneBit();
      return 1;
    }
    var h := BitsExist(v / 2);
    bits := h + 1;
    PowNext(2, h);
    PowNext(2, h - 1);
  }

  /** With bits congruent to 28 the top word is in [2^27, 2^28). */
  lemma AlignedByBits(S: Bigint, bits: int)
    requires S.Valid() && S.Normal() && S.Value() > 0 && HasBits(S.Value(), bits) && bits % 32 == 28
    ensures Aligned(S)
  {
    hide Val, Pow;
    PositiveHasWords(S);
    TopNonzero(S);
    var n, top: nat := S.wds - 1, S.x[S.wds - 1];
    ValTop(S.x[..S.wds]);
    ValBound(S.x[..S.wds]);
    BasePow(n);
    BasePow(n + 1);
    MulMonotone(1, top, Pow(BASE, n));
    PowReflects(2, bits - 1, 32 * (n + 1));
    PowReflects(2, 32 * n, bits);
    var q := bits / 32;
    assert bits == 32 * n + 28;
    PowAdd(2, 28, 32 * n);
    PowAdd(2, 27, 32 * n);
    Pow28();
    CancelBelow(top, Pow(2, 28), Pow(BASE, n));
    CancelBelow(Pow(2, 27), top + 1, Pow(BASE, n));
  }

  lemma Pow28()
    ensures Pow(2, 27) == 0x800_0000 && Pow(2, 28) == 0x1000_0000
  {
    Pow2Constants();
    assert Pow(2, 4) == 16;
    PowAdd(2, 16, 8);
    PowAdd(2, 4, 4);
    PowAdd(2, 24, 4);
    PowNext(2, 27);
  }

  /** Shifting left by s adds s bits. */
  lemma MoreBits(v: nat, bits: int, s: nat)
    requires HasBits(v, bits)
    ensures HasBits(v * Pow(2, s), bits + s)
  {
    hide Pow;
    PowAdd(2, bits - 1, s);
    PowAdd(2, bits, s);
    PowPositive(2, s);
    CancelBelow(Pow(2, bits - 1), v, Pow(2, s));
    CancelBelow(v, Pow(2, bits), Pow(2, s));
    assert bits - 1 + s == bits + s - 1;
  }
}
