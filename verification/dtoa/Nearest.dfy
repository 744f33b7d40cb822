/** The order of the doubles: reading back as a double is being nearest to it, with ties to even. */
module Nearest {
  import opened Powers
  import opened Words
  import opened DoubleBits
  import opened Decimals
  import opened Minimal
  import opened Scaling
  import opened Dtoa

  /** The first word of the first bit pattern beyond the finite positive doubles. */
  const INFINITY0: nat := 0x7FF0_0000

  predicate Finite(word0: Word)
  {
    word0 < INFINITY0
  }

  /** The next double away from zero; after the largest one, 2^1024, which is where overflow begins. */
  function Next(word0: Word, word1: Word): (r: (Word, Word))
    requires Finite(word0)
  {
    if word1 + 1 < BASE then (word0, word1 + 1) else (word0 + 1, 0)
  }

  lemma Fields(word0: Word)
    requires word0 < 0x8000_0000
    ensures word0 == ExpField(word0) * EXP_MSK1 + FracHigh(word0)
  {
  }

  lemma FieldsUnique(word0: Word, e: nat, f: nat)
    requires word0 == e * EXP_MSK1 + f && f < EXP_MSK1 && e < 2048
    ensures ExpField(word0) == e && FracHigh(word0) == f
  {
  }

  /** Either one more unit, or the significand wraps around and the unit doubles. */
  lemma NextSignificand(word0: Word, word1: Word)
    requires Finite(word0)
    ensures var (v0, v1) := Next(word0, word1);
            || (UnitExp(v0) == UnitExp(word0) && Significand(v0, v1) == Significand(word0, word1) + 1
                && !SpecialCase(v0, v1))
            || (UnitExp(v0) == UnitExp(word0) + 1 && Significand(word0, word1) == 0x1F_FFFF_FFFF_FFFF
                && Significand(v0, v1) == 0x10_0000_0000_0000 && SpecialCase(v0, v1))
  {
    var e, f := ExpField(word0), FracHigh(word0);
    Fields(word0);
    if word1 + 1 == BASE {
      if f + 1 < EXP_MSK1 {
        FieldsUnique(word0 + 1, e, f + 1);
      } else {
        FieldsUnique(word0 + 1, e + 1, 0);
      }
    }
  }

  /** m units of 2^u. */
  ghost function Units(m: nat, u: int): real
  {
    m as real * RPow(2, u)
  }

  /** The same number in a finer unit. */
  lemma FinerUnit(m: nat, u: int, n: nat)
    ensures Units(m, u + n) == Units(m * Pow(2, n), u)
  {
    hide RPow, Pow;
    RPowAdd(2, n, u);
    RPowNat(2, n);
    AsReal(m, Pow(2, n));
    assert n + u == u + n;
    RAssoc(m as real, RPow(2, n), RPow(2, u));
  }

  lemma UnitsOrder(m: nat, c: nat, u: int)
    ensures m < c ==> Units(m, u) + RPow(2, u) <= Units(c, u)
    ensures m <= c ==> Units(m, u) <= Units(c, u)
    ensures Units(m + 1, u) == Units(m, u) + RPow(2, u)
  {
    hide RPow;
    IntegersApart(m, c, RPow(2, u), Units(m, u), Units(c, u));
    IntegersApart(m, m + 1, RPow(2, u), Units(m, u), Units(m + 1, u));
  }

  lemma IntegersApart(m: nat, c: nat, q: real, x: real, y: real)
    requires q > 0.0 && x == m as real * q && y == c as real * q
    ensures m < c ==> x + q <= y
    ensures m <= c ==> x <= y
    ensures m + 1 == c ==> x + q == y
  {
    assert (m + 1) as real * q == m as real * q + q;
    if m < c {
      OrderByFactor((m + 1) as real, c as real, q);
    }
  }

  /** Neighbours share the gap between them, and one of the two is even. */
  lemma NextValue(word0: Word, word1: Word)
    requires Finite(word0)
    ensures var (v0, v1) := Next(word0, word1);
            && DoubleValue(v0, v1) == DoubleValue(word0, word1) + 2.0 * HalfGapAbove(word0)
            && HalfGapBelow(v0, v1) == HalfGapAbove(word0)
            && v1 % 2 != word1 % 2
  {
    hide RPow, Significand, SpecialCase, UnitExp, ExpField, FracHigh, DoubleValue, Units, HalfGapAbove, HalfGapBelow;
    var (v0, v1) := Next(word0, word1);
    var u, m := UnitExp(word0), Significand(word0, word1);
    NextSignificand(word0, word1);
    InUnits(word0, word1);
    InUnits(v0, v1);
    RPowStep(2, u - 1);
    UnitsOrder(m, m + 1, u);
    FinerUnit(0x10_0000_0000_0000, u, 1);
    TwoOnce();
    assert u - 1 + 1 == u && u + 1 - 2 == u - 1;
  }

  lemma InUnits(word0: Word, word1: Word)
    ensures DoubleValue(word0, word1) == Units(Significand(word0, word1), UnitExp(word0))
    ensures HalfGapAbove(word0) == RPow(2, UnitExp(word0) - 1)
    ensures HalfGapBelow(word0, word1) == RPow(2, UnitExp(word0) - if SpecialCase(word0, word1) then 2 else 1)
  {
    hide RPow, Significand, UnitExp, SpecialCase;
  }

  /** Every double but zero is the next one of another. */
  lemma Previous(word0: Word, word1: Word) returns (u0: Word, u1: Word)
    requires word0 <= INFINITY0 && (word0 == INFINITY0 ==> word1 == 0) && (word0, word1) != (0, 0)
    ensures Finite(u0) && Next(u0, u1) == (word0, word1)
  {
    if word1 > 0 {
      u0, u1 := word0, word1 - 1;
    } else {
      u0, u1 := word0 - 1, BASE - 1;
    }
  }

  // ----- The order of the doubles -----

  /** d' counts units of a power of two at least as large: an integer number of units of d. */
  lemma CoarserApart(m: nat, m': nat, u: int, u': int)
    requires u <= u'
    ensures Units(m, u) < Units(m', u') ==> Units(m, u) + RPow(2, u) <= Units(m', u')
    ensures Units(m', u') < Units(m, u) ==> Units(m', u') + RPow(2, u) <= Units(m, u)
    ensures Units(m, u) == Units(m', u') ==> m == m' * Pow(2, u' - u)
  {
    var n: nat := u' - u;
    assert u + n == u';
    hide RPow, Pow, Units;
    FinerUnit(m', u, n);
    UnitsOrder(m, m' * Pow(2, n), u);
    UnitsOrder(m' * Pow(2, n), m, u);
  }

  /** A double with a smaller unit is below a normal one by more than the gap there. */
  lemma FinerBelow(m: nat, m': nat, u: int, u': int)
    requires u' < u && m' <= 0x1F_FFFF_FFFF_FFFF && m >= 0x10_0000_0000_0000
    ensures Units(m', u') + RPow(2, u - 1) <= Units(m, u)
    ensures m > 0x10_0000_0000_0000 ==> Units(m', u') + RPow(2, u) <= Units(m, u)
  {
    var n: nat := u - 1 - u';
    hide RPow, Pow, Units;
    assert u - 1 + 1 == u && u' + n == u - 1;
    TwoOnce();
    FinerUnit(m, u - 1, 1);
    RPowStep(2, u - 1);
    BelowCoarser(m', u', n);
    UnitsOrder(m', m * 2, u - 1);
    if m > 0x10_0000_0000_0000 {
      UnitsOrder(m', m * 2 - 1, u - 1);
      UnitsOrder(m * 2 - 1, m * 2, u - 1);
    }
  }

  lemma TwoOnce()
    ensures Pow(2, 1) == 2
  {
  }

  /** Fewer large units are as good as as many small ones. */
  lemma BelowCoarser(m: nat, u: int, n: nat)
    ensures Units(m, u) <= Units(m, u + n)
  {
    hide RPow, Pow, Units;
    FinerUnit(m, u, n);
    PowPositive(2, n);
    MulAtLeast(m, Pow(2, n));
    UnitsOrder(m, m * Pow(2, n), u);
  }

  /** No double lies within a gap of another one. */
  lemma Apart(word0: Word, word1: Word, v0: Word, v1: Word)
    requires word0 <= INFINITY0 && v0 <= INFINITY0 && (v0, v1) != (word0, word1)
    ensures var d, d' := DoubleValue(word0, word1), DoubleValue(v0, v1);
            d' >= d + 2.0 * HalfGapAbove(word0) || d' <= d - 2.0 * HalfGapBelow(word0, word1)
  {
    var m, u, m', u' := Significand(word0, word1), UnitExp(word0), Significand(v0, v1), UnitExp(v0);
    hide RPow, Pow, Significand, Units, DoubleValue, UnitExp, ExpField, SpecialCase, HalfGapAbove, HalfGapBelow;
    Quarters(u);
    SignificandBounds(word0, word1);
    SignificandBounds(v0, v1);
    Pow2Constants();
    DifferentParts(word0, word1, v0, v1);
    InUnits(word0, word1);
    InUnits(v0, v1);
    if u <= u' {
      CoarserApart(m, m', u, u');
      PowZero(2);
      if u < u' && DoubleValue(word0, word1) == DoubleValue(v0, v1) {
        TooLarge(m, m', u' - u);
        assert false;
      }
    } else {
      FinerBelow(m, m', u, u');
      NotSpecial(word0, word1);
    }
  }

  lemma TooLarge(m: nat, m': nat, n: nat)
    requires n > 0 && m' >= 0x10_0000_0000_0000 && m < 0x20_0000_0000_0000
    ensures m != m' * Pow(2, n)
  {
    PowPositive(2, n - 1);
    hide Pow;
    PowNext(2, n - 1);
    MulMonotone(2, Pow(2, n), m');
  }

  lemma NotSpecial(word0: Word, word1: Word)
    requires ExpField(word0) >= 2
    ensures SpecialCase(word0, word1) <==> Significand(word0, word1) == 0x10_0000_0000_0000
  {
  }

  lemma DifferentParts(word0: Word, word1: Word, v0: Word, v1: Word)
    requires word0 <= INFINITY0 && v0 <= INFINITY0 && (v0, v1) != (word0, word1)
    ensures UnitExp(word0) == UnitExp(v0) ==> Significand(word0, word1) != Significand(v0, v1)
    ensures UnitExp(word0) < UnitExp(v0) ==> ExpField(v0) >= 2
    ensures UnitExp(word0) > UnitExp(v0) ==> ExpField(word0) >= 2
  {
    Fields(word0);
    Fields(v0);
  }

  // ----- Nearest -----

  /** No double is nearer to x than this one; another one that is as near means that this one is even. */
  ghost predicate IsNearest(word0: Word, word1: Word, x: real)
  {
    forall v0: Word, v1: Word ::
      v0 <= INFINITY0 && (v0 == INFINITY0 ==> v1 == 0) && (v0, v1) != (word0, word1) ==>
      Nearer(word0, word1, v0, v1, x)
  }

  ghost predicate Nearer(word0: Word, word1: Word, v0: Word, v1: Word, x: real)
  {
    var near, far := RAbs(x - DoubleValue(word0, word1)), RAbs(x - DoubleValue(v0, v1));
    near < far || (near == far && word1 % 2 == 0)
  }

  lemma NearestIfInside(word0: Word, word1: Word, x: real)
    requires word0 <= INFINITY0 && ReadsBack(TargetOf(word0, word1, word1 % 2 == 0), x)
    ensures IsNearest(word0, word1, x)
  {
    hide DoubleValue, HalfGapAbove, HalfGapBelow, Significand, UnitExp;
    forall v0: Word, v1: Word | v0 <= INFINITY0 && (v0, v1) != (word0, word1)
      ensures Nearer(word0, word1, v0, v1, x)
    {
      Apart(word0, word1, v0, v1);
    }
  }

  /** The rounding interval dtoa prints from is exactly the set of numbers to which the double is nearest. */
  lemma ReadsBackIsNearest(word0: Word, word1: Word, x: real)
    requires Finite(word0) && x >= 0.0
    ensures ReadsBack(TargetOf(word0, word1, word1 % 2 == 0), x) <==> IsNearest(word0, word1, x)
  {
    var even := word1 % 2 == 0;
    var g := TargetOf(word0, word1, even);
    hide DoubleValue, HalfGapAbove, HalfGapBelow, Significand, UnitExp;
    if ReadsBack(g, x) {
      NearestIfInside(word0, word1, x);
    } else if x >= g.d + g.hi {
      var (v0, v1) := Next(word0, word1);
      NextValue(word0, word1);
      assert !Nearer(word0, word1, v0, v1, x);
    } else {
      NotZero(word0, word1, x);
      var u0, u1 := Previous(word0, word1);
      NextValue(u0, u1);
      assert !Nearer(word0, word1, u0, u1, x);
    }
  }

  /** Different words are different numbers. */
  lemma SameDouble(word0: Word, word1: Word, v0: Word, v1: Word)
    requires word0 <= INFINITY0 && v0 <= INFINITY0 && DoubleValue(word0, word1) == DoubleValue(v0, v1)
    ensures (v0, v1) == (word0, word1)
  {
    hide DoubleValue, HalfGapAbove, HalfGapBelow;
    if (v0, v1) != (word0, word1) {
      Apart(word0, word1, v0, v1);
    }
  }

  /** Half-way above an odd double, the next one is nearest. */
  lemma TieUp(v0: Word, v1: Word, x: real)
    requires Finite(v0) && v1 % 2 == 1 && x >= 0.0 && x == DoubleValue(v0, v1) + HalfGapAbove(v0)
    ensures !IsNearest(v0, v1, x) && IsNearest(Next(v0, v1).0, Next(v0, v1).1, x)
  {
    hide DoubleValue, HalfGapAbove, HalfGapBelow, IsNearest;
    NextValue(v0, v1);
    ReadsBackIsNearest(v0, v1, x);
    NearestIfInside(Next(v0, v1).0, Next(v0, v1).1, x);
  }

  /** Below the half-way point to the previous double, but not below that one, or at it if v is odd. */
  lemma DownToPrevious(u0: Word, u1: Word, v0: Word, v1: Word, x: real)
    requires Finite(u0) && Finite(v0) && Next(u0, u1) == (v0, v1) && x >= 0.0
    requires var d, lo := DoubleValue(v0, v1), HalfGapBelow(v0, v1);
             (d - 2.0 * lo <= x < d - lo) || (v1 % 2 == 1 && x == d - lo)
    ensures !IsNearest(v0, v1, x) && IsNearest(u0, u1, x)
  {
    hide DoubleValue, HalfGapAbove, HalfGapBelow, IsNearest;
    NextValue(u0, u1);
    ReadsBackIsNearest(v0, v1, x);
    PositiveGap(u0, u1);
    NearestIfInside(u0, u1, x);
  }

  lemma PositiveGap(word0: Word, word1: Word)
    ensures HalfGapBelow(word0, word1) > 0.0
  {
  }

  lemma NotZero(word0: Word, word1: Word, x: real)
    requires x >= 0.0 && x <= DoubleValue(word0, word1) - HalfGapBelow(word0, word1)
    ensures (word0, word1) != (0, 0)
  {
    hide RPow;
  }
}
