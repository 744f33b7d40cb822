/** dtoa's exact path: printing a double with the fewest digits, or with a fixed number of them. */
module Dtoa {
  import opened Powers
  import opened Words
  import opened BigInts
  import opened Kernel
  import opened QuoRems
  import opened PowersOfFive
  import opened DoubleBits
  import opened DigitBuffer
  import opened Shortest
  import opened DigitLoops
  import opened Decimals
  import opened Minimal
  import opened Scaling

  const TEN_PMAX: int := 22

  /** What is printed: the double, its rounding interval, and in mode 0 also the ends of an even one. */
  ghost function TargetOf(word0: Word, word1: Word, inclusive: bool): Target
  {
    Target(DoubleValue(word0, word1), HalfGapBelow(word0, word1), HalfGapAbove(word0), inclusive)
  }

  // ----- Reals and integers -----

  /** Significand and exponent may be moved against each other. */
  lemma MovedExponent(b: nat, shift: nat, m: nat, u: int)
    requires ShiftedBy(b, shift, m)
    ensures m as real * RPow(2, u) == b as real * RPow(2, u + shift)
  {
    hide Pow, RPow;
    RPowAdd(2, shift, u);
    RPowNat(2, shift);
    AsReal(b, Pow(2, shift));
    assert u + shift == shift + u;
    RAssoc(b as real, RPow(2, shift), RPow(2, u));
  }

  /** x / y is cx / cy, so the two orders agree. */
  lemma CrossOrder(s: real, t: real, x: real, y: real, cx: real, cy: real)
    requires s > 0.0 && t > 0.0 && s * x == cx * t && s * y == cy * t
    ensures x < y <==> cx < cy
  {
    ScaleLess(s, x, y);
    ScaleLess(t, cx, cy);
  }

  lemma TenTimes(s: real, x: real, c: real, t: real)
    requires s * x == c * t
    ensures s * (10.0 * x) == (10.0 * c) * t
  {
    assert s * (10.0 * x) == 10.0 * (s * x);
  }

  lemma ProductOrder(s: nat, b: nat, d: real, t: real)
    requires s > 0 && t > 0.0 && s as real * d == b as real * t
    ensures b < s <==> d < t
    ensures b < 10 * s <==> d < 10.0 * t
    ensures 10 * b < s <==> 10.0 * d < t
  {
    var rs, rb := s as real, b as real;
    CrossOrder(rs, t, d, t, rb, rs);
    TenTimes(rs, t, rs, t);
    CrossOrder(rs, t, d, 10.0 * t, rb, 10.0 * rs);
    TenTimes(rs, d, rb, t);
    CrossOrder(rs, t, 10.0 * d, t, 10.0 * rb, rs);
  }

  /** The estimate of k is floor(log10(d)) or one more. */
  ghost predicate GoodEstimate(d: real, k: int)
  {
    RPow(10, k - 1) <= d < RPow(10, k + 1)
  }

  /** `dval(d) < tens[k]`, a comparison of two doubles that are both exact. */
  function BelowPowerOfTen(word0: Word, word1: Word, k: nat): bool
  {
    var u := UnitExp(word0);
    if u >= 0 then Significand(word0, word1) * Pow(2, u) < Pow(10, k)
    else Significand(word0, word1) < Pow(10, k) * Pow(2, -u)
  }

  lemma BelowIsLess(word0: Word, word1: Word, k: nat)
    ensures BelowPowerOfTen(word0, word1, k) <==> DoubleValue(word0, word1) < RPow(10, k)
  {
    var u, m := UnitExp(word0), Significand(word0, word1);
    hide Pow, RPow, Significand, UnitExp;
    RPowNat(10, k);
    if u >= 0 {
      RPowNat(2, u);
      AsReal(m, Pow(2, u));
    } else {
      RPowNat(2, -u);
      RPowAdd(2, u, -u);
      RPowZero(2);
      BelowNegative(m, Pow(10, k), Pow(2, -u), RPow(2, u));
    }
  }

  lemma BelowNegative(m: nat, t: nat, y: nat, x: real)
    requires x > 0.0 && x * y as real == 1.0
    ensures m < t * y <==> m as real * x < t as real
  {
    AsReal(t, y);
    ScaleLess(x, m as real, t as real * y as real);
    Cancelled(x, t as real, y as real);
  }

  lemma Cancelled(x: real, t: real, y: real)
    requires x * y == 1.0
    ensures x * (t * y) == t
  {
    assert x * (t * y) == t * (x * y);
  }

  // ----- Seventeen digits are always enough -----

  lemma LongInterval(m: nat, q: real, gap: real, c: real, bound: nat)
    requires q > 0.0 && m < bound && gap == c * q && c * 10000000000000000.0 > 4.0 * bound as real
    ensures gap * 10000000000000000.0 > m as real * (4.0 * q)
  {
    OrderByFactor(4.0 * m as real, c * 10000000000000000.0, q);
    assert gap * 10000000000000000.0 == (c * 10000000000000000.0) * q;
    assert m as real * (4.0 * q) == (4.0 * m as real) * q;
  }

  lemma SpecialSignificand(word0: Word, word1: Word)
    requires SpecialCase(word0, word1)
    ensures Significand(word0, word1) == 0x10_0000_0000_0000
  {
  }

  lemma Quarters(u: int)
    ensures RPow(2, u - 1) == 2.0 * RPow(2, u - 2) && RPow(2, u) == 4.0 * RPow(2, u - 2)
  {
    hide RPow;
    RPowStep(2, u - 2);
    RPowStep(2, u - 1);
    assert u - 2 + 1 == u - 1 && u - 1 + 1 == u;
  }

  /** The interval is longer than the distance of decimals with 17 digits. */
  lemma SeventeenDigits(word0: Word, word1: Word)
    ensures (HalfGapBelow(word0, word1) + HalfGapAbove(word0)) * Pow(10, 16) as real > DoubleValue(word0, word1)
  {
    var u, m := UnitExp(word0), Significand(word0, word1);
    SignificandBounds(word0, word1);
    Pow2Constants();
    Pow10Sixteen();
    Quarters(u);
    hide RPow, Pow, Significand, UnitExp;
    var q, gap := RPow(2, u - 2), HalfGapBelow(word0, word1) + HalfGapAbove(word0);
    if SpecialCase(word0, word1) {
      SpecialSignificand(word0, word1);
      LongInterval(m, q, gap, 3.0, 0x10_0000_0000_0001);
    } else {
      LongInterval(m, q, gap, 4.0, 0x20_0000_0000_0000);
    }
  }

  lemma Pow10Sixteen()
    ensures Pow(10, 16) == 10000000000000000
  {
    assert Pow(10, 4) == 10000;
    PowAdd(10, 4, 4);
    PowAdd(10, 8, 8);
  }

  // ----- Scaling -----

  /** `if (k >= 0 && k <= Ten_pmax) { if (dval(d) < tens[k]) k--; k_check = 0; }` */
  method CheckEstimate(word0: Word, word1: Word, k0: int) returns (k: int, kCheck: bool)
    requires GoodEstimate(DoubleValue(word0, word1), k0)
    ensures k == k0 || k == k0 - 1
    ensures GoodEstimate(DoubleValue(word0, word1), k)
    ensures if kCheck then k < 0 || k > TEN_PMAX else InDecade(DoubleValue(word0, word1), k)
  {
    k, kCheck := k0, true;
    hide RPow, DoubleValue, BelowPowerOfTen;
    if 0 <= k <= TEN_PMAX {
      BelowIsLess(word0, word1, k);
      assert k0 - 1 + 1 == k0;
      if BelowPowerOfTen(word0, word1, k) {
        RPowUpward(10, k0 - 1);
        k := k - 1;
      }
      kCheck := false;
    }
  }

  /** Aligning the divisor and the two lshifts; t is what was added to all the exponents of two. */
  method AlignAndShift(b0: Bigint, S0: Bigint, b2: nat, s2: nat, s5: nat) returns (b: Bigint, S: Bigint, t: nat)
    requires Good(b0) && b0.Value() > 0 && Good(S0) && S0.Value() > 0 && b0.Repr() !! S0.Repr()
    requires s5 == 0 ==> S0.Value() == 1
    ensures Good(b) && Good(S) && Aligned(S)
    ensures b.Value() == b0.Value() * Pow(2, b2 + t) && S.Value() == S0.Value() * Pow(2, s2 + t)
    ensures b == b0 || fresh(b.Repr())
    ensures S == S0 || fresh(S.Repr())
    ensures b.Repr() !! S.Repr()
  {
    hide Val, Pow, Aligned, Bigint.Value;
    ghost var bits := BitsExist(S0.Value());
    t := AlignShift(S0, s5, s2, bits);
    b, S := b0, S0;
    PowZero(2);
    if b2 + t > 0 {
      PositiveHasWords(b);
      b := LShift(b, b2 + t);
    }
    if s2 + t > 0 {
      PositiveHasWords(S);
      S := LShift(S, s2 + t);
    }
    MoreBits(S0.Value(), bits, s2 + t);
    PositiveShift(S0.Value(), s2 + t);
    AlignedByBits(S, bits + (s2 + t));
  }

  lemma PositiveShift(v: nat, s: nat)
    requires v > 0
    ensures v * Pow(2, s) > 0
  {
    PowPositive(2, s);
    hide Pow;
    MulMonotone(1, v, Pow(2, s));
  }

  /** x is c / s times 10^k. */
  ghost predicate Ratio(s: nat, x: real, c: nat, k: int)
  {
    s as real * x == c as real * RPow(10, k)
  }

  /** The state after the two lshifts: b / S is d / 10^k, and mhi still lacks its factor 2^m2. */
  ghost predicate Prepared(b: Bigint, S: Bigint, d: real, k: int)
    reads b`wds, b.x, S`wds, S.x
  {
    && Good(b) && b.Value() > 0 && Good(S) && S.Value() > 0 && Aligned(S) && b.Repr() !! S.Repr()
    && Ratio(S.Value(), d, b.Value(), k)
  }

  /** The exponent of two in the lower half-gap. */
  function GapExp(word0: Word, word1: Word): int
  {
    if SpecialCase(word0, word1) then UnitExp(word0) - 2 else UnitExp(word0) - 1
  }

  /** c 5^x5 2^x2 */
  ghost function Times(c: nat, x5: nat, x2: nat): nat
  {
    c * Pow(5, x5) * Pow(2, x2)
  }

  /** The value mhi will have once it is shifted by m2. */
  ghost function Shifted(v: nat, m2: nat): nat
  {
    v * Pow(2, m2)
  }

  lemma ScaleFacts(word0: Word, word1: Word, c: nat, shift: nat, k: int, b2: nat, b5: nat, s2: nat, s5: nat, m2: nat,
                   bv: nat, sv: nat, mv: nat)
    requires ShiftedBy(c, shift, Significand(word0, word1))
    requires b2 - s2 == UnitExp(word0) + shift - k && b5 - s5 == -k && m2 - s2 == GapExp(word0, word1) - k
    requires bv == Times(c, b5, b2) && sv == Times(1, s5, s2) && mv == Times(1, b5, m2)
    ensures Ratio(sv, DoubleValue(word0, word1), bv, k)
    ensures Ratio(sv, HalfGapBelow(word0, word1), mv, k)
  {
    hide Pow, RPow, Significand, UnitExp, ShiftedBy;
    MovedExponent(c, shift, Significand(word0, word1), UnitExp(word0));
    Commute3(c, Pow(5, b5), Pow(2, b2));
    Commute3(1, Pow(5, b5), Pow(2, m2));
    Commute3(1, Pow(5, s5), Pow(2, s2));
    ScaledQuotient(c, b2, b5, s2, s5, UnitExp(word0) + shift, k, bv, sv);
    ScaledQuotient(1, m2, b5, s2, s5, GapExp(word0, word1), k, mv, sv);
    assert 1 as real * RPow(2, GapExp(word0, word1)) == RPow(2, GapExp(word0, word1));
  }

  lemma Commute3(c: nat, x: nat, y: nat)
    ensures c * x * y == c * y * x
    ensures c == 1 ==> c * x * y == x * y && c * y * x == y * x
  {
  }

  /** What d2b makes of a double: an odd integer, the power of two it counts, and its length in bits. */
  ghost predicate Split(b: Bigint, be: int, bits: int, shift: nat, word0: Word, word1: Word)
    reads b`wds, b.x
  {
    && Good(b) && b.Value() > 0 && b.Value() % 2 == 1 && HasBits(b.Value(), bits)
    && ShiftedBy(b.Value(), shift, Significand(word0, word1)) && be == UnitExp(word0) + shift
    && (ExpField(word0) > 0 ==> bits == P - shift)
  }

  method SplitDouble(word0: Word, word1: Word) returns (b: Bigint, be: int, bits: int, ghost shift: nat)
    requires Significand(word0, word1) > 0
    ensures fresh(b.Repr()) && Split(b, be, bits, shift, word0, word1)
  {
    hide Val, Pow, Significand, UnitExp, HasBits, ShiftedBy;
    b, be, bits, shift := D2B(word0, word1);
    BitsPositive(b.Value(), bits);
  }

  /** The exponents, with those of the special case. */
  method PrintingExponents(word0: Word, word1: Word, b0: Bigint, be: int, bits: int, k: int, ghost shift: nat)
    returns (b2: nat, b5: nat, s2: nat, s5: nat, m2: nat)
    requires Split(b0, be, bits, shift, word0, word1)
    ensures b2 - s2 == UnitExp(word0) + shift - k && b5 - s5 == -k && m2 - s2 == GapExp(word0, word1) - k
  {
    hide Val, Pow, Significand, UnitExp, HasBits, ShiftedBy;
    BitsPositive(b0.Value(), bits);
    b2, b5, s2, s5, m2 := Exponents(word0, be, bits, k, true, shift);
    if SpecialCase(word0, word1) {
      b2, s2 := b2 + 1, s2 + 1;
    }
  }

  /** From the double and k to b, S and mhi. */
  method Prepare(cache: Pow5Cache, word0: Word, word1: Word, b0: Bigint, be: int, bits: int, k: int, ghost shift: nat)
    returns (b: Bigint, S: Bigint, mhi: Bigint, m2: nat)
    requires cache.Valid() && Split(b0, be, bits, shift, word0, word1) && b0.Repr() !! cache.Repr
    modifies cache.Repr
    ensures cache.Valid() && fresh(cache.Repr - old(cache.Repr))
    ensures Prepared(b, S, DoubleValue(word0, word1), k)
    ensures Good(mhi) && mhi.Value() > 0 && mhi.Repr() !! b.Repr() && mhi.Repr() !! S.Repr()
    ensures Ratio(S.Value(), HalfGapBelow(word0, word1), Shifted(mhi.Value(), m2), k)
    ensures b == b0 || fresh(b.Repr())
    ensures fresh(S.Repr()) && fresh(mhi.Repr())
    ensures b.Repr() !! cache.Repr && mhi.Repr() !! cache.Repr
  {
    hide Val, Pow, RPow, Aligned, Pow5Cache.Valid, Significand, UnitExp, GapExp, ShiftedBy, HalfGapBelow, DoubleValue,
         Times, Shifted, Ratio, HasBits;
    var b2, b5, s2, s5, m := PrintingExponents(word0, word1, b0, be, bits, k, shift);
    ghost var c := b0.Value();
    b, S, mhi, m2, b2, s2 := Factors(cache, b0, b2, b5, s2, s5, m);
    ScaleFacts(word0, word1, c, shift, k, b2, b5, s2, s5, m2, b.Value(), S.Value(), Shifted(mhi.Value(), m2));
  }

  lemma BitsPositive(b: nat, bits: int)
    requires HasBits(b, bits)
    ensures b > 0 && bits >= 1
  {
    PowPositive(2, bits - 1);
  }

  /** The multiplications and shifts once the exponents are known. */
  method Factors(cache: Pow5Cache, b0: Bigint, b20: nat, b5: nat, s20: nat, s5: nat, m20: nat)
    returns (b: Bigint, S: Bigint, mhi: Bigint, m2: nat, b2: nat, s2: nat)
    requires cache.Valid() && Good(b0) && b0.Value() > 0 && b0.Repr() !! cache.Repr
    modifies cache.Repr
    ensures cache.Valid() && fresh(cache.Repr - old(cache.Repr))
    ensures Good(b) && Good(S) && Aligned(S) && Good(mhi)
    ensures b2 - s2 == b20 - s20 && m2 - s2 == m20 - s20
    ensures b.Value() == Times(old(b0.Value()), b5, b2) > 0 && S.Value() == Times(1, s5, s2) > 0
    ensures mhi.Value() > 0 && Shifted(mhi.Value(), m2) == Times(1, b5, m2)
    ensures b.Repr() !! S.Repr() && mhi.Repr() !! b.Repr() && mhi.Repr() !! S.Repr()
    ensures b == b0 || fresh(b.Repr())
    ensures fresh(S.Repr()) && fresh(mhi.Repr())
    ensures b.Repr() !! cache.Repr && mhi.Repr() !! cache.Repr
  {
    hide Val, Pow, Aligned, Pow5Cache.Valid;
    var b1, S1;
    PowPositive(5, b5);
    PowPositive(5, s5);
    MulMonotone(1, b0.Value(), Pow(5, b5));
    b1, S1, mhi := Numbers(cache, b0, b5, s5);
    PowZero(5);
    var t;
    b, S, t := AlignAndShift(b1, S1, b20, s20, s5);
    m2, b2, s2 := m20 + t, b20 + t, s20 + t;
    PositiveShift(b1.Value(), b2);
    PositiveShift(S1.Value(), s2);
  }

  // ----- The k_check correction -----

  lemma TenDown(s: nat, x: real, c: nat, k: int)
    requires Ratio(s, x, c, k)
    ensures Ratio(s, x, c * 10, k - 1)
  {
    hide RPow;
    RPowStep(10, k - 1);
    assert k - 1 + 1 == k;
    assert (c * 10) as real * RPow(10, k - 1) == c as real * (10.0 * RPow(10, k - 1));
  }

  lemma EstimateTooLarge(b: nat, s: nat, d: real, k: int)
    requires s > 0 && Ratio(s, d, b, k) && GoodEstimate(d, k)
    ensures b < 10 * s
    ensures b < s ==> d < RPow(10, k) && s <= b * 10
    ensures b >= s ==> d >= RPow(10, k)
  {
    hide RPow;
    RPowStep(10, k - 1);
    RPowStep(10, k);
    assert k - 1 + 1 == k;
    ProductOrder(s, b, d, RPow(10, k));
  }

  /** `if (k_check && cmp(b, S) < 0) { k--; b = multadd(b, 10, 0); mhi = multadd(mhi, 10, 0); ... }` */
  method CorrectEstimate(b0: Bigint, S: Bigint, mhi0: Bigint, k0: int, kCheck: bool, ghost m2: nat, ghost g: Target)
    returns (b: Bigint, mhi: Bigint, k: int)
    requires Prepared(b0, S, g.d, k0) && GoodEstimate(g.d, k0) && (!kCheck ==> InDecade(g.d, k0))
    requires Good(mhi0) && mhi0.Value() > 0
    requires mhi0.Repr() !! b0.Repr() && mhi0.Repr() !! S.Repr()
    requires Ratio(S.Value(), g.lo, Shifted(mhi0.Value(), m2), k0)
    modifies b0, b0.x, mhi0, mhi0.x
    ensures Prepared(b, S, g.d, k) && InDecade(g.d, k)
    ensures S.Value() == old(S.Value()) <= b.Value() < 10 * S.Value()
    ensures Good(mhi) && mhi.Value() > 0
    ensures mhi.Repr() !! b.Repr() && mhi.Repr() !! S.Repr()
    ensures Ratio(S.Value(), g.lo, Shifted(mhi.Value(), m2), k)
    ensures b == b0 || fresh(b.Repr())
    ensures mhi == mhi0 || fresh(mhi.Repr())
  {
    hide Val, Pow, RPow, Aligned, Shifted, Ratio, Bigint.Value;
    b, mhi, k := b0, mhi0, k0;
    ghost var s, bv, mv := S.Value(), b.Value(), mhi.Value();
    EstimateTooLarge(bv, s, g.d, k0);
    if kCheck {
      PositiveHasWords(S);
      var c := Cmp(b, S);
      if c < 0 {
        k := k - 1;
        TenDown(s, g.d, bv, k0);
        TenDown(s, g.lo, Shifted(mv, m2), k0);
        ShiftedTen(mv, m2);
        b := MultAdd(b, 10, 0);
        mhi := MultAdd(mhi, 10, 0);
        assert k0 - 1 + 1 == k0;
      }
    }
  }

  lemma ShiftedTen(v: nat, m2: nat)
    ensures Shifted(v * 10, m2) == Shifted(v, m2) * 10
  {
    hide Pow;
    assert v * 10 * Pow(2, m2) == (v * Pow(2, m2)) * 10;
  }

  // ----- mlo and mhi -----

  /** mlo gets its power of two; mhi is twice that in the special case and the same object otherwise. */
  method Gaps(mhi0: Bigint, m2: nat, special: bool) returns (mlo: Bigint, mhi: Bigint)
    requires Good(mhi0) && mhi0.Value() > 0
    ensures Good(mlo) && Good(mhi) && mlo.Value() == Shifted(mhi0.Value(), m2) > 0
    ensures mhi.Value() == (if special then 2 else 1) * mlo.Value()
    ensures mlo == mhi0 || fresh(mlo.Repr())
    ensures mhi == mhi0 || fresh(mhi.Repr())
    ensures mlo == mhi || mlo.Repr() !! mhi.Repr()
  {
    hide Val, Pow;
    PowZero(2);
    PositiveShift(mhi0.Value(), m2);
    mhi := mhi0;
    if m2 > 0 {
      PositiveHasWords(mhi);
      mhi := LShift(mhi, m2);
    }
    mlo := mhi;
    if special {
      var copy := new Bigint.Balloc(mhi.k);
      Bcopy(copy, mhi);
      assert copy.x[..copy.wds] == mlo.x[..mlo.wds];
      PositiveHasWords(copy);
      CopyIsGood(copy, mlo);
      mhi := LShift(copy, 1);
      PowTwoOne();
    }
  }

  lemma CopyIsGood(c: Bigint, b: Bigint)
    requires c.Shaped() && Good(b) && c.maxwds == b.maxwds && b.wds > 0
    requires c.wds == b.wds && c.x[..c.wds] == b.x[..b.wds]
    ensures Good(c)
  {
    if c.wds > 1 {
      assert c.x[c.wds - 1] == c.x[..c.wds][c.wds - 1];
    }
  }
}
