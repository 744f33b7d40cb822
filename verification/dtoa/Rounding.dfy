/** The branches of strtod's refinement loop that end it: they leave the nearest double. */
module Rounding {
  import opened Powers
  import opened Words
  import opened BigInts
  import opened Kernel
  import opened DoubleBits
  import opened DigitLoops
  import opened PowersOfFive
  import opened Decimals
  import opened Minimal
  import opened Scaling
  import opened Dtoa
  import opened Nearest
  import opened Strtod
  import Printing

  // ----- The unscaled double -----

  /** The words strtod works on: scaled by 2^106 if the number may be denormal. */
  ghost predicate Stored(word0: Word, word1: Word, scale: nat)
  {
    && word0 <= INFINITY0 && (word0 == INFINITY0 ==> word1 == 0) && Significand(word0, word1) > 0
    && (if scale == 0 then ExpField(word0) > SCALE else scale == SCALE && OnGrid(word0, word1, scale))
  }

  /** The scaling is left out only for numbers of at least 10^-256, which are far above 2^-915. */
  predicate Ample(word0: Word, scale: nat)
  {
    scale == 0 ==> ExpField(word0) > SCALE + 1
  }

  /** m without its j low bits. */
  ghost function WithoutLow(m: nat, j: nat): (q: nat)
    ensures j > 0 ==> 2 * q <= m
  {
    PowPositive(2, j);
    if j > 0 then
      PowNext(2, j - 1); PowPositive(2, j - 1);
      HalfOrLess(m, Pow(2, j));
      m / Pow(2, j)
    else m
  }

  lemma HalfOrLess(m: nat, p: nat)
    requires p >= 2
    ensures 0 <= m / p && 2 * (m / p) <= m
  {
    DivSmaller(m, p);
    var q := m / p;
    assert m == q * p + m % p;
    assert q * p >= q * 2 by { MulMonotone(2, p, q); }
  }

  /** The words of the double that the scaled words stand for. */
  ghost function Unscaled(word0: Word, word1: Word, scale: nat): (Word, Word)
    requires Stored(word0, word1, scale)
  {
    if scale == 0 then (word0, word1)
    else if ExpField(word0) > SCALE then (word0 - SCALE * EXP_MSK1, word1)
    else
      var q := WithoutLow(Significand(word0, word1), SCALE + 1 - ExpField(word0));
      (q / BASE, q % BASE)
  }

  lemma QuotientOnGrid(m: nat, j: nat)
    requires MultipleOfPow(m, j)
    ensures ShiftedBy(WithoutLow(m, j), j, m)
  {
    var m1: nat :| ShiftedBy(m1, j, m);
    PowPositive(2, j);
    PowZero(2);
    hide Pow;
    ExactQuotient(m1, Pow(2, j));
  }

  lemma ExactQuotient(m: nat, p: nat)
    requires p > 0
    ensures m * p / p == m
  {
    var q := m * p / p;
    assert m * p == q * p + (m * p) % p;
    CancelBelow(m, q, p);
    CancelBelow(q + 1, m, p);
    assert (q + 1) * p == q * p + p;
  }

  lemma UnscaledFields(word0: Word, word1: Word, scale: nat)
    requires Stored(word0, word1, scale) && scale > 0
    ensures var (v0, v1) := Unscaled(word0, word1, scale);
            if ExpField(word0) > SCALE then
              ExpField(v0) == ExpField(word0) - SCALE && FracHigh(v0) == FracHigh(word0) && v1 == word1
            else
              ExpField(v0) == 0
              && Significand(v0, v1) == WithoutLow(Significand(word0, word1), SCALE + 1 - ExpField(word0))
  {
    hide WithoutLow, OnGrid;
    Fields(word0);
    if ExpField(word0) > SCALE {
      FieldsUnique(word0 - SCALE * EXP_MSK1, ExpField(word0) - SCALE, FracHigh(word0));
    } else {
      var q := WithoutLow(Significand(word0, word1), SCALE + 1 - ExpField(word0));
      FieldsUnique(q / BASE, 0, q / BASE);
    }
  }

  /** `!(word0 & Bndry_mask) && !word1` */
  predicate PowerOfTwo(word0: Word, word1: Word)
  {
    word1 == 0 && FracHigh(word0) == 0
  }

  /** A power of two whose lower neighbour is only half as far away as the upper one. */
  predicate Boundary(word0: Word, word1: Word)
  {
    PowerOfTwo(word0, word1) && ExpField(word0) > SCALE + 1
  }

  lemma QuotientHalf(m: nat, j: nat)
    requires j > 0
    ensures 2 * WithoutLow(m, j) <= m
  {
  }

  lemma DenormalFields(v0: Word, v1: Word)
    requires ExpField(v0) == 0 && v0 < EXP_MSK1
    ensures UnitExp(v0) == -1074 && Finite(v0) && !SpecialCase(v0, v1)
  {
  }

  lemma UnscaledDenormal(word0: Word, word1: Word)
    requires Stored(word0, word1, SCALE) && ExpField(word0) <= SCALE
    ensures var (v0, v1) := Unscaled(word0, word1, SCALE);
            DoubleValue(v0, v1) == Approximation(word0, word1, SCALE) && v0 < EXP_MSK1 && ExpField(v0) == 0
  {
    hide RPow, Pow, Significand, WithoutLow, ShiftedBy, ExpField;
    var (v0, v1) := Unscaled(word0, word1, SCALE);
    var m, j := Significand(word0, word1), SCALE + 1 - ExpField(word0);
    UnscaledFields(word0, word1, SCALE);
    SignificandBounds(word0, word1);
    Pow2Constants();
    QuotientHalf(m, j);
    QuotientOnGrid(m, j);
    MovedExponent(WithoutLow(m, j), j, m, UnitExp(word0) - SCALE);
  }

  /** It is the number the words stand for, and its gaps are those strtod works with. */
  lemma UnscaledValue(word0: Word, word1: Word, scale: nat)
    requires Stored(word0, word1, scale)
    ensures var (v0, v1) := Unscaled(word0, word1, scale);
            && DoubleValue(v0, v1) == Approximation(word0, word1, scale)
            && (Finite(word0) ==> Finite(v0)) && v0 <= INFINITY0
            && HalfGapAbove(v0) == HalfUlp(word0, scale)
            && (Ample(word0, scale) ==> (SpecialCase(v0, v1) <==> Boundary(word0, word1)))
  {
    if scale > 0 && ExpField(word0) <= SCALE {
      UnscaledDenormal(word0, word1);
      DenormalFields(Unscaled(word0, word1, scale).0, Unscaled(word0, word1, scale).1);
      assert HalfUlpExp(word0, scale) == -1075;
      hide RPow, Significand;
    } else if scale > 0 {
      UnscaledFields(word0, word1, scale);
      Fields(Unscaled(word0, word1, scale).0);
      hide RPow, OnGrid;
    }
  }

  lemma ApproximationIsScaled(word0: Word, word1: Word, scale: nat)
    ensures Approximation(word0, word1, scale) == DoubleValue(word0, word1) * RPow(2, -(scale as int))
  {
    hide RPow, Significand, UnitExp;
    RPowAdd(2, UnitExp(word0), -(scale as int));
    RAssoc(Significand(word0, word1) as real, RPow(2, UnitExp(word0)), RPow(2, -(scale as int)));
  }

  lemma ApproximationNext(word0: Word, word1: Word, scale: nat)
    requires Finite(word0)
    ensures var (n0, n1) := Next(word0, word1);
            Approximation(n0, n1, scale) == Approximation(word0, word1, scale) + 2.0 * RPow(2, UnitExp(word0) - 1 - scale)
  {
    hide RPow, DoubleValue, Approximation, UnitExp, Next, HalfGapBelow;
    var (n0, n1) := Next(word0, word1);
    var z := -(scale as int);
    NextValue(word0, word1);
    ApproximationIsScaled(word0, word1, scale);
    ApproximationIsScaled(n0, n1, scale);
    RPowAdd(2, UnitExp(word0) - 1, z);
    assert UnitExp(word0) - 1 + z == UnitExp(word0) - 1 - scale;
    Distributes(DoubleValue(word0, word1), HalfGapAbove(word0), RPow(2, z), DoubleValue(n0, n1));
  }

  lemma Distributes(d: real, h: real, q: real, n: real)
    requires n == d + 2.0 * h
    ensures n * q == d * q + 2.0 * (h * q)
  {
  }

  /** The next unscaled double, from any words a unit in the last place further on. */
  lemma UnscaledNext(word0: Word, word1: Word, n0: Word, n1: Word, scale: nat)
    requires Stored(word0, word1, scale) && Finite(word0) && Stored(n0, n1, scale)
    requires Approximation(n0, n1, scale) == Approximation(word0, word1, scale) + 2.0 * HalfUlp(word0, scale)
    ensures Finite(Unscaled(word0, word1, scale).0)
    ensures Unscaled(n0, n1, scale) == Next(Unscaled(word0, word1, scale).0, Unscaled(word0, word1, scale).1)
  {
    hide Stored, Unscaled, DoubleValue, Approximation, HalfUlp, HalfGapAbove, HalfGapBelow;
    var (v0, v1) := Unscaled(word0, word1, scale);
    UnscaledValue(word0, word1, scale);
    UnscaledValue(n0, n1, scale);
    NextValue(v0, v1);
    SameDouble(Unscaled(n0, n1, scale).0, Unscaled(n0, n1, scale).1, Next(v0, v1).0, Next(v0, v1).1);
  }

  /** Above the denormals the next words are those of the next double. */
  lemma NextIsNext(word0: Word, word1: Word, scale: nat)
    requires Stored(word0, word1, scale) && Finite(word0) && ExpField(word0) > SCALE
    ensures var (n0, n1) := Next(word0, word1);
            && Stored(n0, n1, scale) && Finite(Unscaled(word0, word1, scale).0)
            && Unscaled(n0, n1, scale) == Next(Unscaled(word0, word1, scale).0, Unscaled(word0, word1, scale).1)
  {
    var (n0, n1) := Next(word0, word1);
    NextSignificand(word0, word1);
    FieldGrows(word0, word1);
    ApproximationNext(word0, word1, scale);
    assert UnitExp(word0) - 1 - scale == HalfUlpExp(word0, scale);
    hide RPow, Approximation, Unscaled;
    UnscaledNext(word0, word1, n0, n1, scale);
  }

  lemma FieldGrows(word0: Word, word1: Word)
    requires Finite(word0)
    ensures ExpField(Next(word0, word1).0) >= ExpField(word0)
  {
    Fields(word0);
    Fields(Next(word0, word1).0);
  }

  // ----- Significands of all ones -----

  /** `0xffffffff << n`; C does not say what that is from 32 on. */
  function Mask(n: nat, wide: Word): Word
  {
    if n < 32 then (0xFFFF_FFFF * Pow(2, n)) % BASE else wide
  }

  /** No bit that the double has room for is zero: the next one is a power of two. */
  predicate AllOnes(word0: Word, word1: Word, scale: nat, wide: Word)
  {
    FracHigh(word0) == 0xF_FFFF
    && word1 == if scale > 0 && ExpField(word0) <= SCALE then Mask(SCALE + 1 - ExpField(word0), wide) else 0xFFFF_FFFF
  }

  lemma MaskValue(n: nat)
    requires n < 32
    ensures (0xFFFF_FFFF * Pow(2, n)) % BASE == BASE - Pow(2, n)
  {
    PowMonotone(2, n, 31);
    PowPositive(2, n);
    Pow2Constants();
    PowNext(2, 31);
    hide Pow;
    ModMinus(Pow(2, n));
  }

  lemma ModMinus(p: nat)
    requires 0 < p < BASE
    ensures (0xFFFF_FFFF * p) % BASE == BASE - p
  {
    assert 0xFFFF_FFFF * p == BASE * (p - 1) + (BASE - p);
  }

  /** The significand of a scaled denormal of all ones. */
  lemma AllOnesSignificand(word0: Word, word1: Word, wide: Word)
    requires Stored(word0, word1, SCALE) && 0 < ExpField(word0) <= SCALE && AllOnes(word0, word1, SCALE, wide)
    ensures var j := SCALE + 1 - ExpField(word0);
            j <= 32 && Significand(word0, word1) + Pow(2, j) == 0x20_0000_0000_0000
  {
    var m, j := Significand(word0, word1), SCALE + 1 - ExpField(word0);
    Pow2Constants();
    assert m == 0x20_0000_0000_0000 - BASE + word1;
    if j < 32 {
      MaskValue(j);
    } else {
      QuotientOnGrid(m, j);
      var q := WithoutLow(m, j);
      PowAdd(2, j - 32, 32);
      PowZero(2);
      if j > 32 {
        PowNext(2, j - 33);
      }
      hide Pow, WithoutLow;
      BaseMultiple(m, q, Pow(2, j - 32), if j > 32 then Pow(2, j - 33) else 0, word1);
    }
  }

  lemma BaseMultiple(m: nat, q: nat, p: nat, h: nat, w: Word)
    requires (p == 1 || p == 2 * h) && m == q * (p * BASE) && m == 0x20_0000_0000_0000 - BASE + w
    ensures w == 0 && p == 1
  {
    var c := q * p;
    assert m == c * BASE;
    assert c == 0x1F_FFFF;
    if p == 2 * h {
      EvenTimes(q, h);
      assert false;
    }
  }

  /** Rounding a scaled denormal of all ones up. */
  lemma AllOnesNext(word0: Word, word1: Word, wide: Word)
    requires Stored(word0, word1, SCALE) && Finite(word0) && ExpField(word0) <= SCALE && AllOnes(word0, word1, SCALE, wide)
    ensures var n0 := (ExpField(word0) + 1) * EXP_MSK1;
            && Stored(n0, 0, SCALE) && Finite(Unscaled(word0, word1, SCALE).0)
            && Unscaled(n0, 0, SCALE) == Next(Unscaled(word0, word1, SCALE).0, Unscaled(word0, word1, SCALE).1)
  {
    assert ExpField(word0) > 0;
    hide Stored, Unscaled, AllOnes, Approximation;
    var n0: Word := (ExpField(word0) + 1) * EXP_MSK1;
    AllOnesSignificand(word0, word1, wide);
    PowerOfTwoStored(word0);
    AllOnesGap(word0, word1);
    UnscaledNext(word0, word1, n0, 0, SCALE);
  }

  lemma PowerOfTwoWord(e: nat)
    requires 1 <= e < 2047
    ensures var n0: Word := e * EXP_MSK1;
            ExpField(n0) == e && Significand(n0, 0) == 0x10_0000_0000_0000 && n0 < INFINITY0
  {
    FieldsUnique(e * EXP_MSK1, e, 0);
  }

  lemma PowerOfTwoStored(word0: Word)
    requires SCALE + 1 - ExpField(word0) <= 32 && ExpField(word0) <= SCALE
    ensures var n0: Word := (ExpField(word0) + 1) * EXP_MSK1;
            Stored(n0, 0, SCALE) && ExpField(n0) == ExpField(word0) + 1 && Significand(n0, 0) == 0x10_0000_0000_0000
  {
    var e := ExpField(word0) + 1;
    PowerOfTwoWord(e);
    Pow52Multiple(if e <= SCALE then SCALE + 1 - e else 0);
    hide MultipleOfPow, Significand, ExpField;
  }

  lemma Pow52Multiple(j: nat)
    requires j <= 52
    ensures MultipleOfPow(0x10_0000_0000_0000, j)
  {
    PowAdd(2, 52 - j, j);
    Pow2Constants();
    hide Pow;
    assert ShiftedBy(Pow(2, 52 - j), j, 0x10_0000_0000_0000);
  }

  lemma AllOnesGap(word0: Word, word1: Word)
    requires Finite(word0) && SCALE + 1 - ExpField(word0) <= 32 && ExpField(word0) <= SCALE
    requires Significand(word0, word1) + Pow(2, SCALE + 1 - ExpField(word0)) == 0x20_0000_0000_0000
    ensures Approximation((ExpField(word0) + 1) * EXP_MSK1, 0, SCALE)
         == Approximation(word0, word1, SCALE) + 2.0 * HalfUlp(word0, SCALE)
  {
    hide Pow, RPow, Stored, Units, Significand, UnitExp, HalfUlpExp;
    PowerOfTwoStored(word0);
    var j, a := SCALE + 1 - ExpField(word0), UnitExp(word0) - SCALE;
    AllOnesExponents(word0, j, a);
    RPowStep(2, -1075);
    FinerUnit(1, a, j);
    UnitsOne(a + j);
    FinerUnit(0x10_0000_0000_0000, a, 1);
    TwoOnce();
    UnitsAdd(Significand(word0, word1), Pow(2, j), a);
    ApproximationInUnits(word0, word1, SCALE);
    ApproximationInUnits((ExpField(word0) + 1) * EXP_MSK1, 0, SCALE);
  }

  lemma AllOnesExponents(word0: Word, j: nat, a: int)
    requires Finite(word0) && SCALE + 1 - ExpField(word0) <= 32 && ExpField(word0) <= SCALE
    requires j == SCALE + 1 - ExpField(word0) && a == UnitExp(word0) - SCALE
    requires ExpField((ExpField(word0) + 1) * EXP_MSK1) == ExpField(word0) + 1
    ensures a + j == -1074 && HalfUlpExp(word0, SCALE) == -1075
    ensures UnitExp((ExpField(word0) + 1) * EXP_MSK1) - SCALE == a + 1
  {
  }

  lemma UnitsOne(u: int)
    ensures Units(1, u) == RPow(2, u)
  {
  }

  lemma ApproximationInUnits(word0: Word, word1: Word, scale: nat)
    ensures Approximation(word0, word1, scale) == Units(Significand(word0, word1), UnitExp(word0) - scale)
  {
  }

  lemma UnitsAdd(m: nat, n: nat, u: int)
    ensures Units(m + n, u) == Units(m, u) + Units(n, u)
  {
    hide RPow;
    var q := RPow(2, u);
    assert (m + n) as real * q == m as real * q + n as real * q;
  }

  // ----- Powers of two, oddness -----

  /** Above the denormals the lowest bit is that of the words; below, their own lowest bit is zero. */
  lemma LowestBit(word0: Word, word1: Word, scale: nat)
    requires Stored(word0, word1, scale)
    ensures if scale == 0 || ExpField(word0) > SCALE then Unscaled(word0, word1, scale).1 == word1 else word1 % 2 == 0
  {
    if scale > 0 && ExpField(word0) <= SCALE {
      var m, j := Significand(word0, word1), SCALE + 1 - ExpField(word0);
      assert m % 2 == word1 % 2;
      QuotientOnGrid(m, j);
      PowNext(2, j - 1);
      hide Pow, Significand;
      EvenTimes(WithoutLow(m, j), Pow(2, j - 1));
    }
  }

  /** A scaled denormal power of two is even, unless it is the smallest double. */
  lemma DenormalPowerOfTwo(word0: Word, word1: Word)
    requires Stored(word0, word1, SCALE) && ExpField(word0) <= SCALE && PowerOfTwo(word0, word1)
    ensures ExpField(word0) >= P + 2
    ensures ExpField(word0) > P + 2 ==> Unscaled(word0, word1, SCALE).1 % 2 == 0
    ensures ExpField(word0) == P + 2 ==> Unscaled(word0, word1, SCALE) == (0, 1)
  {
    hide Pow, Significand, WithoutLow, ShiftedBy, ExpField, FracHigh;
    var m, j := Significand(word0, word1), SCALE + 1 - ExpField(word0);
    PowerOfTwoSignificand(word0, word1);
    QuotientOnGrid(m, j);
    QuotientOfPower(WithoutLow(m, j), j, 52);
  }

  lemma PowerOfTwoSignificand(word0: Word, word1: Word)
    requires PowerOfTwo(word0, word1) && ExpField(word0) > 0
    ensures Significand(word0, word1) == Pow(2, 52)
  {
    Pow2Constants();
  }

  lemma QuotientOfPower(q: nat, j: nat, n: nat)
    requires ShiftedBy(q, j, Pow(2, n))
    ensures j <= n && (j == n ==> q == 1) && (j < n ==> q % 2 == 0)
  {
    hide Pow;
    if j > n {
      HigherPower(q, j, n);
      assert false;
    } else {
      LowerPower(q, j, n);
      PowZero(2);
      if j < n {
        PowNext(2, n - 1 - j);
      }
    }
  }

  lemma HigherPower(q: nat, j: nat, n: nat)
    requires j > n
    ensures q * Pow(2, j) != Pow(2, n)
  {
    PowPositive(2, n);
    PowMonotone(2, n + 1, j);
    PowNext(2, n);
    hide Pow;
    if q > 0 {
      MulAtLeast(Pow(2, j), q);
    }
  }

  lemma LowerPower(q: nat, j: nat, n: nat)
    requires j <= n && q * Pow(2, j) == Pow(2, n)
    ensures q == Pow(2, n - j)
  {
    hide Pow;
    PowPositive(2, j);
    PowAdd(2, n - j, j);
    CancelBelow(q, Pow(2, n - j), Pow(2, j));
    CancelBelow(Pow(2, n - j), q, Pow(2, j));
  }

  // ----- How the words get onto the grid -----

  /** x & (0xffffffff << n) */
  function ClearLow(x: Word, n: nat): (r: Word)
    requires n < 32
    ensures r <= x
  {
    PowPositive(2, n);
    ModSmaller(x, Pow(2, n));
    x - x % Pow(2, n)
  }

  lemma ModSmaller(x: nat, p: nat)
    requires p > 0
    ensures 0 <= x - x % p <= x
  {
    DivSmaller(x, p);
    var q := x / p;
    assert x == q * p + x % p;
    MulMonotone(0, q, p);
  }

  lemma ClearedMultiple(x: nat, p: nat)
    requires p > 0
    ensures x - x % p == (x / p) * p
  {
  }

  /**
   * Scaled down by 2^106 the number will be a denormal: the low bits it has no room for are
   * zapped, so that scaling it is exact. Too small a number becomes the smallest denormal.
   */
  method ZapLowBits(word0: Word, word1: Word) returns (w0: Word, w1: Word)
    requires 0 < ExpField(word0) && Finite(word0)
    ensures Stored(w0, w1, SCALE) && Finite(w0)
    ensures ExpField(word0) > SCALE ==> w0 == word0 && w1 == word1
    ensures P + 2 <= ExpField(word0) <= SCALE ==> ExpField(w0) == ExpField(word0)
    ensures P + 2 <= ExpField(word0) <= SCALE ==>
      0 <= Significand(word0, word1) - Significand(w0, w1) < Pow(2, SCALE + 1 - ExpField(word0))
    ensures ExpField(word0) < P + 2 ==> Unscaled(w0, w1, SCALE) == (0, 1)
  {
    w0, w1 := word0, word1;
    var j := SCALE + 1 - ExpField(word0);
    PositiveNormal(word0, word1);
    if j > 0 {
      if j >= 32 {
        w1 := 0;
        if j >= 53 {
          w0 := (P + 2) * EXP_MSK1;
          SmallestStored(w0);
        } else {
          w0 := ClearLow(word0, j - 32);
          ZappedHigh(word0, word1, j - 32);
        }
      } else {
        w1 := ClearLow(word1, j);
        ZappedLow(word0, word1, j);
      }
    }
  }

  lemma PositiveNormal(word0: Word, word1: Word)
    requires ExpField(word0) > 0
    ensures Significand(word0, word1) > 0
  {
  }

  lemma SmallestStored(w0: Word)
    requires w0 == (P + 2) * EXP_MSK1
    ensures Finite(w0) && Stored(w0, 0, SCALE) && Unscaled(w0, 0, SCALE) == (0, 1)
  {
    PowerOfTwoWord(P + 2);
    Pow52Multiple(52);
    FieldsUnique(w0, P + 2, 0);
    hide Pow, Significand, ExpField, FracHigh, WithoutLow;
    DenormalPowerOfTwo(w0, 0);
  }

  lemma WordsOf(word0: Word, word1: Word)
    requires ExpField(word0) > 0
    ensures Significand(word0, word1) == (EXP_MSK1 + FracHigh(word0)) * BASE + word1
  {
  }

  lemma ShiftedIs(q: nat, j: nat, p: nat, m: nat)
    requires p == Pow(2, j) && q * p == m
    ensures MultipleOfPow(m, j)
  {
    assert ShiftedBy(q, j, m);
  }

  lemma ZappedLow(word0: Word, word1: Word, j: nat)
    requires 0 < j < 32 && j == SCALE + 1 - ExpField(word0) && Finite(word0)
    ensures Stored(word0, ClearLow(word1, j), SCALE)
    ensures 0 <= Significand(word0, word1) - Significand(word0, ClearLow(word1, j)) < Pow(2, j)
  {
    hide Pow, Significand, ExpField, MultipleOfPow;
    var w1 := ClearLow(word1, j);
    PowPositive(2, j);
    PowAdd(2, 32 - j, j);
    Pow2Constants();
    PositiveNormal(word0, w1);
    WordsOf(word0, word1);
    WordsOf(word0, w1);
    var q := LowMultiple(EXP_MSK1 + FracHigh(word0), word1, Pow(2, 32 - j), Pow(2, j));
    ShiftedIs(q, j, Pow(2, j), Significand(word0, w1));
  }

  lemma LowMultiple(h: nat, x: nat, r: nat, p: nat) returns (q: nat)
    requires p > 0 && r * p == BASE
    ensures q * p == h * BASE + (x - x % p)
  {
    ClearedMultiple(x, p);
    DivSmaller(x, p);
    q := h * r + x / p;
    assert q * p == h * (r * p) + (x / p) * p;
  }

  lemma ZappedHigh(word0: Word, word1: Word, i: nat)
    requires i <= 20 && i + 32 == SCALE + 1 - ExpField(word0) && Finite(word0)
    ensures var w0 := ClearLow(word0, i);
            && Stored(w0, 0, SCALE) && Finite(w0) && ExpField(w0) == ExpField(word0)
            && 0 <= Significand(word0, word1) - Significand(w0, 0) < Pow(2, i + 32)
  {
    hide Pow, Significand, ExpField, FracHigh, MultipleOfPow;
    var w0 := ClearLow(word0, i);
    var e, f, p := ExpField(word0), FracHigh(word0), Pow(2, i);
    PowPositive(2, i);
    PowAdd(2, 20 - i, i);
    PowAdd(2, i, 32);
    Pow2Constants();
    Fields(word0);
    var q := HighMultiple(e, f, word0, Pow(2, 20 - i), p);
    FieldsUnique(w0, e, f - f % p);
    PositiveNormal(w0, 0);
    WordsOf(word0, word1);
    WordsOf(w0, 0);
    ShiftedIs(q, i + 32, Pow(2, i + 32), Significand(w0, 0));
    RemainderTimes(f, p, word1);
  }

  lemma HighMultiple(e: nat, f: nat, x: nat, r: nat, p: nat) returns (q: nat)
    requires p > 0 && r * p == EXP_MSK1 && x == e * EXP_MSK1 + f && f < EXP_MSK1
    ensures 0 <= f % p <= f && x - x % p == e * EXP_MSK1 + (f - f % p)
    ensures q * (p * BASE) == (EXP_MSK1 + (f - f % p)) * BASE
  {
    ModSmaller(f, p);
    ClearedMultiple(f, p);
    DivSmaller(f, p);
    assert x == (e * r) * p + f;
    SameRemainder(e * r, f, p);
    q := r + f / p;
    assert q * p == r * p + (f / p) * p;
    assert q * (p * BASE) == (q * p) * BASE;
  }

  lemma SameRemainder(c: int, f: int, p: int)
    requires p > 0
    ensures (c * p + f) % p == f % p
  {
    var q, r := f / p, f % p;
    assert c * p + f == (c + q) * p + r;
    UniqueRemainder(c * p + f, p, c + q, r);
  }

  lemma UniqueRemainder(x: int, p: int, q: int, r: int)
    requires p > 0 && x == q * p + r && 0 <= r < p
    ensures x % p == r
  {
    var d, m := x / p, x % p;
    assert x == d * p + m;
    SmallMultiple(d, q, p, r - m);
  }

  lemma SmallMultiple(d: int, q: int, p: int, z: int)
    requires p > 0 && -p < z < p && d * p - q * p == z
    ensures d == q
  {
    OneMore(q, p);
    OneMore(d, p);
    if d > q {
      MulMonotone(q + 1, d, p);
    } else if d < q {
      MulMonotone(d + 1, q, p);
    }
  }

  lemma OneMore(q: int, p: int)
    ensures (q + 1) * p == q * p + p
  {
  }

  lemma RemainderTimes(f: nat, p: nat, w: Word)
    requires p > 0
    ensures 0 <= (f % p) * BASE + w < p * BASE
  {
  }

  // ----- The branches -----

  /** The double the words stand for is the nearest one to x, ties going to even. */
  ghost predicate NearestTo(word0: Word, word1: Word, scale: nat, x: real)
    requires Stored(word0, word1, scale)
  {
    IsNearest(Unscaled(word0, word1, scale).0, Unscaled(word0, word1, scale).1, x)
  }

  /** When the approximation is the nearest double. */
  lemma NearestExactly(word0: Word, word1: Word, scale: nat, x: real)
    requires Stored(word0, word1, scale) && Ample(word0, scale) && Finite(word0) && x >= 0.0
    ensures var d, h, even := Approximation(word0, word1, scale), HalfUlp(word0, scale), Unscaled(word0, word1, scale).1 % 2 == 0;
            NearestTo(word0, word1, scale, x) <==>
            if d < x || !Boundary(word0, word1) then RAbs(d - x) < h || (even && RAbs(d - x) == h)
            else 2.0 * RAbs(d - x) < h || (even && 2.0 * RAbs(d - x) == h)
  {
    hide Stored, Unscaled, DoubleValue, Approximation, HalfUlp, HalfGapAbove, HalfGapBelow, SpecialCase, IsNearest;
    var (v0, v1) := Unscaled(word0, word1, scale);
    UnscaledValue(word0, word1, scale);
    ReadsBackIsNearest(v0, v1, x);
    Printing.GapAbove(v0, v1);
  }

  lemma BoundaryEven(word0: Word, word1: Word, scale: nat)
    requires Stored(word0, word1, scale) && Boundary(word0, word1)
    ensures Unscaled(word0, word1, scale).1 == 0
  {
    hide Significand, OnGrid;
  }

  /** Half a unit above an odd double. */
  lemma RoundUp(word0: Word, word1: Word, n0: Word, n1: Word, scale: nat, x: real)
    requires Stored(word0, word1, scale) && Finite(word0) && Stored(n0, n1, scale) && x >= 0.0
    requires var (v0, v1) := Unscaled(word0, word1, scale);
             Finite(v0) && v1 % 2 == 1 && Unscaled(n0, n1, scale) == Next(v0, v1)
    requires x == Approximation(word0, word1, scale) + HalfUlp(word0, scale)
    ensures !NearestTo(word0, word1, scale, x) && NearestTo(n0, n1, scale, x)
  {
    hide Stored, Unscaled, DoubleValue, Approximation, HalfUlp, HalfGapAbove, HalfGapBelow, IsNearest, Next;
    UnscaledValue(word0, word1, scale);
    TieUp(Unscaled(word0, word1, scale).0, Unscaled(word0, word1, scale).1, x);
  }

  /** Below the half-way point to the previous double, or at it if the approximation is odd. */
  lemma RoundDown(word0: Word, word1: Word, u0: Word, u1: Word, scale: nat, x: real)
    requires Stored(word0, word1, scale) && Ample(word0, scale) && Finite(word0) && Stored(u0, u1, scale) && Finite(u0) && x >= 0.0
    requires ExpField(u0) > SCALE && Next(u0, u1) == (word0, word1)
    requires var d, h := Approximation(word0, word1, scale), HalfUlp(word0, scale);
             if Boundary(word0, word1) then d - h <= x < d - h / 2.0
             else Unscaled(word0, word1, scale).1 % 2 == 1 && x == d - h
    ensures !NearestTo(word0, word1, scale, x) && NearestTo(u0, u1, scale, x)
  {
    hide Stored, Unscaled, DoubleValue, Approximation, HalfUlp, HalfGapAbove, HalfGapBelow, SpecialCase, IsNearest;
    UnscaledValue(word0, word1, scale);
    NextIsNext(u0, u1, scale);
    var (v0, v1) := Unscaled(word0, word1, scale);
    Printing.GapAbove(v0, v1);
    DownToPrevious(Unscaled(u0, u1, scale).0, Unscaled(u0, u1, scale).1, v0, v1, x);
  }

  // ----- The end of the loop -----

  /** The loop breaks with these words, or at undfl with zero, or goes on to correct its approximation. */
  datatype Outcome = Settled(word0: Word, word1: Word) | Underflow | Refine

  /**
   * Exactly half-way, a scaled denormal is kept whatever its own lowest bit is, because the code
   * looks at a bit of the scaled number that is always zero. It is odd, then, and stays so.
   */
  ghost predicate MissedTie(word0: Word, word1: Word, scale: nat, wide: Word, x: real)
    requires Stored(word0, word1, scale)
  {
    var d := Approximation(word0, word1, scale);
    && RAbs(d - x) == HalfUlp(word0, scale)
    && scale > 0 && ExpField(word0) <= SCALE && Unscaled(word0, word1, scale).1 % 2 == 1
    && !(if d < x then AllOnes(word0, word1, scale, wide) else PowerOfTwo(word0, word1))
  }

  /** The outcome is the double nearest to x; zero for an underflow. */
  ghost predicate Rounded(o: Outcome, scale: nat, x: real)
  {
    match o
    case Settled(v0, v1) => Stored(v0, v1, scale) && NearestTo(v0, v1, scale, x)
    case Underflow => IsNearest(0, 0, x)
    case Refine => true
  }

  /** What a trip through the branches has to establish, for the decimal x and the given words. */
  ghost predicate WellSettled(o: Outcome, word0: Word, word1: Word, scale: nat, wide: Word, x: real)
    requires Stored(word0, word1, scale)
  {
    var missed := MissedTie(word0, word1, scale, wide, x);
    && (Rounded(o, scale, x) <==> !missed)
    && (o == Settled(word0, word1) <==> missed || NearestTo(word0, word1, scale, x))
    && (o == Refine <==> RAbs(Approximation(word0, word1, scale) - x) > HalfUlp(word0, scale))
  }

  /** Label drop_down. */
  function DropDown(word0: Word, word1: Word, scale: nat): (o: Outcome)
    requires Finite(word0) && (scale == 0 ==> ExpField(word0) >= 1)
  {
    if scale > 0 && ExpField(word0) <= SCALE + 1 then
      if ExpField(word0) > P + 2 then Settled(word0, word1) else Underflow
    else Settled((ExpField(word0) - 1) * EXP_MSK1 + 0xF_FFFF, 0xFFFF_FFFF)
  }

  lemma DroppedWords(word0: Word, word1: Word)
    requires Finite(word0) && Boundary(word0, word1)
    ensures var u0: Word := (ExpField(word0) - 1) * EXP_MSK1 + 0xF_FFFF;
            && Finite(u0) && Next(u0, 0xFFFF_FFFF) == (word0, word1) && ExpField(u0) == ExpField(word0) - 1
            && Significand(u0, 0xFFFF_FFFF) > 0
  {
    Fields(word0);
    FieldsUnique((ExpField(word0) - 1) * EXP_MSK1 + 0xF_FFFF, ExpField(word0) - 1, 0xF_FFFF);
  }

  lemma DropBoundary(word0: Word, word1: Word, scale: nat, x: real)
    requires Stored(word0, word1, scale) && Ample(word0, scale) && Finite(word0) && Boundary(word0, word1) && x >= 0.0
    requires var d, h := Approximation(word0, word1, scale), HalfUlp(word0, scale); d - h <= x < d - h / 2.0
    ensures var o := DropDown(word0, word1, scale);
            o.Settled? && o != Settled(word0, word1) && Rounded(o, scale, x) && !NearestTo(word0, word1, scale, x)
  {
    var o := DropDown(word0, word1, scale);
    DroppedWords(word0, word1);
    StillStored(word0, word1, o.word0, o.word1, scale);
    hide Stored, Approximation, HalfUlp, ExpField;
    RoundDown(word0, word1, o.word0, o.word1, scale, x);
  }

  lemma StillStored(word0: Word, word1: Word, u0: Word, u1: Word, scale: nat)
    requires Stored(word0, word1, scale) && ExpField(word0) > SCALE + 1 && u0 < INFINITY0
    requires ExpField(u0) == ExpField(word0) - 1 && Significand(u0, u1) > 0
    ensures Stored(u0, u1, scale)
  {
    hide Significand;
  }

  /** `if (i < 0)`: the error is less than half a unit. */
  method BelowHalf(word0: Word, word1: Word, scale: nat, dsign: bool, delta: Bigint, bs: Bigint, wide: Word,
      ghost x: real)
    returns (o: Outcome)
    requires Stored(word0, word1, scale) && Ample(word0, scale) && Finite(word0) && x >= 0.0
    requires Good(delta) && delta.wds > 0 && Good(bs) && delta.Value() < bs.Value()
    requires Measures(delta.Value(), bs.Value(), dsign, Approximation(word0, word1, scale), x, HalfUlp(word0, scale))
    ensures WellSettled(o, word0, word1, scale, wide, x)
  {
    hide Val, Pow, Stored, Unscaled, Approximation, HalfUlp, OnGrid, ExpField, FracHigh, NearestTo, DropDown;
    NearestExactly(word0, word1, scale, x);
    o := Settled(word0, word1);
    if dsign || word1 != 0 || FracHigh(word0) != 0 || ExpField(word0) <= SCALE + 1 {
      return;
    }
    BoundaryEven(word0, word1, scale);
    var zero := IsZero(delta);
    if zero {
      return;
    }
    Doubled(delta.Value());
    PositiveHasWords(delta);
    var delta2 := LShift(delta, 1);
    var c := Cmp(delta2, bs);
    if c > 0 {
      DropBoundary(word0, word1, scale, x);
      o := DropDown(word0, word1, scale);
    }
  }

  lemma Doubled(x: nat)
    ensures x * Pow(2, 1) == 2 * x
  {
    TwoOnce();
  }

  lemma UpFromAllOnes(word0: Word, word1: Word, scale: nat, wide: Word, x: real)
    requires Stored(word0, word1, scale) && Finite(word0) && AllOnes(word0, word1, scale, wide) && x >= 0.0
    requires x == Approximation(word0, word1, scale) + HalfUlp(word0, scale)
    ensures var n0: Word := (ExpField(word0) + 1) * EXP_MSK1;
            Stored(n0, 0, scale) && NearestTo(n0, 0, scale, x) && !NearestTo(word0, word1, scale, x)
  {
    var n0: Word := (ExpField(word0) + 1) * EXP_MSK1;
    var (v0, v1) := Unscaled(word0, word1, scale);
    LowestBit(word0, word1, scale);
    UnscaledValue(word0, word1, scale);
    if scale > 0 && ExpField(word0) <= SCALE {
      AllOnesNext(word0, word1, wide);
      AllOnesSignificand(word0, word1, wide);
      PowerOfTwoStored(word0);
      NextIsEven(n0, scale);
      NextValue(v0, v1);
    } else {
      Fields(word0);
      assert Next(word0, word1) == (n0, 0);
      NextIsNext(word0, word1, scale);
    }
    hide Stored, Unscaled, Approximation, HalfUlp, ExpField, FracHigh, NearestTo, AllOnes, Next;
    RoundUp(word0, word1, n0, 0, scale, x);
  }

  lemma NextIsEven(n0: Word, scale: nat)
    requires Stored(n0, 0, scale) && scale > 0 && P + 2 < ExpField(n0) && FracHigh(n0) == 0
    ensures Unscaled(n0, 0, scale).1 % 2 == 0
  {
    LowestBit(n0, 0, scale);
    if ExpField(n0) <= SCALE {
      DenormalPowerOfTwo(n0, 0);
    }
  }

  lemma DownFromPowerOfTwo(word0: Word, word1: Word, scale: nat, x: real)
    requires Stored(word0, word1, scale) && Ample(word0, scale) && Finite(word0) && PowerOfTwo(word0, word1) && x >= 0.0
    requires x == Approximation(word0, word1, scale) - HalfUlp(word0, scale)
    ensures var o := DropDown(word0, word1, scale);
            Rounded(o, scale, x) && o != Refine && (o == Settled(word0, word1) <==> NearestTo(word0, word1, scale, x))
  {
    LowestBit(word0, word1, scale);
    hide Stored, Unscaled, Approximation, HalfUlp, ExpField, NearestTo, FracHigh, OnGrid;
    NearestExactly(word0, word1, scale, x);
    if Boundary(word0, word1) {
      DropBoundary(word0, word1, scale, x);
    } else if ExpField(word0) > P + 2 {
      if ExpField(word0) <= SCALE {
        DenormalPowerOfTwo(word0, word1);
      }
    } else {
      DenormalPowerOfTwo(word0, word1);
      SmallestDenormal(word0, word1, x);
    }
  }

  lemma SmallestDenormal(word0: Word, word1: Word, x: real)
    requires Stored(word0, word1, SCALE) && Finite(word0) && Unscaled(word0, word1, SCALE) == (0, 1) && x >= 0.0
    requires x == Approximation(word0, word1, SCALE) - HalfUlp(word0, SCALE)
    ensures IsNearest(0, 0, x) && !IsNearest(0, 1, x)
  {
    UnscaledValue(word0, word1, SCALE);
    hide Stored, Unscaled, Approximation, HalfUlp, DoubleValue, HalfGapAbove, HalfGapBelow, IsNearest;
    Printing.GapAbove(0, 1);
    DownToPrevious(0, 0, 0, 1, x);
  }

  lemma StepUp(word0: Word, word1: Word, scale: nat, x: real)
    requires Stored(word0, word1, scale) && Finite(word0) && word1 % 2 == 1 && x >= 0.0
    requires x == Approximation(word0, word1, scale) + HalfUlp(word0, scale)
    ensures var (n0, n1) := Next(word0, word1);
            Stored(n0, n1, scale) && NearestTo(n0, n1, scale, x) && !NearestTo(word0, word1, scale, x)
  {
    LowestBit(word0, word1, scale);
    var (n0, n1) := Next(word0, word1);
    assert ExpField(word0) > SCALE;
    hide Stored, Unscaled, Approximation, HalfUlp, ExpField, FracHigh, NearestTo, Next;
    NextIsNext(word0, word1, scale);
    RoundUp(word0, word1, n0, n1, scale, x);
  }

  lemma StepDown(word0: Word, word1: Word, scale: nat, x: real)
    requires Stored(word0, word1, scale) && Ample(word0, scale) && Finite(word0) && word1 % 2 == 1 && x >= 0.0
    requires x == Approximation(word0, word1, scale) - HalfUlp(word0, scale)
    ensures Stored(word0, word1 - 1, scale) && NearestTo(word0, word1 - 1, scale, x) && !NearestTo(word0, word1, scale, x)
  {
    LowestBit(word0, word1, scale);
    hide RPow, OnGrid, NearestTo, Approximation, HalfUlp, Unscaled;
    assert ExpField(word0) > SCALE;
    assert Stored(word0, word1 - 1, scale);
    RoundDown(word0, word1, word0, word1 - 1, scale, x);
  }

  /** `if (i == 0)`: exactly half-way. */
  method HalfWay(word0: Word, word1: Word, scale: nat, dsign: bool, wide: Word, ghost x: real) returns (o: Outcome)
    requires Stored(word0, word1, scale) && Ample(word0, scale) && Finite(word0) && x >= 0.0
    requires var d, h := Approximation(word0, word1, scale), HalfUlp(word0, scale);
             x == if dsign then d + h else d - h
    ensures WellSettled(o, word0, word1, scale, wide, x)
  {
    hide Stored, Unscaled, Approximation, HalfUlp, OnGrid, ExpField, FracHigh, NearestTo, DropDown, AllOnes, PowerOfTwo;
    NearestExactly(word0, word1, scale, x);
    LowestBit(word0, word1, scale);
    o := Settled(word0, word1);
    if dsign {
      if AllOnes(word0, word1, scale, wide) {
        UpFromAllOnes(word0, word1, scale, wide, x);
        o := Settled((ExpField(word0) + 1) * EXP_MSK1, 0);
        return;
      }
    } else if PowerOfTwo(word0, word1) {
      DownFromPowerOfTwo(word0, word1, scale, x);
      o := DropDown(word0, word1, scale);
      return;
    }
    if word1 % 2 == 0 {
      return;
    }
    if dsign {
      StepUp(word0, word1, scale, x);
      var (n0, n1) := Next(word0, word1);
      o := Settled(n0, n1);
    } else {
      StepDown(word0, word1, scale, x);
      o := Settled(word0, word1 - 1);
    }
  }

  /** `if (i > 0)`: on to the correction, which is done in floating point. */
  lemma BeyondHalf(word0: Word, word1: Word, scale: nat, wide: Word, x: real)
    requires Stored(word0, word1, scale) && Ample(word0, scale) && Finite(word0) && x >= 0.0
    requires RAbs(Approximation(word0, word1, scale) - x) > HalfUlp(word0, scale)
    ensures WellSettled(Refine, word0, word1, scale, wide, x)
  {
    hide Stored, Unscaled, Approximation, HalfUlp, ExpField, NearestTo, AllOnes, PowerOfTwo;
    NearestExactly(word0, word1, scale, x);
  }

  /**
   * One trip through strtod's refinement loop for the decimal bd0 10^e, as far as its exact part
   * goes. Where it ends the loop the double is the nearest one, but for the missed ties.
   */
  method RefineOnce(cache: Pow5Cache, bd0: Bigint, e: int, word0: Word, word1: Word, scale: nat, wide: Word)
    returns (o: Outcome)
    requires cache.Valid() && Good(bd0) && bd0.Value() > 0 && bd0.Repr() !! cache.Repr
    requires Stored(word0, word1, scale) && Ample(word0, scale) && Finite(word0)
    modifies cache.Repr
    ensures cache.Valid() && fresh(cache.Repr - old(cache.Repr))
    ensures WellSettled(o, word0, word1, scale, wide, Decimal(old(bd0.Value()), e))
  {
    hide Val, Pow, RPow, Unscaled, Approximation, HalfUlp, ExpField, NearestTo, Significand, WellSettled, Decimal,
         Pow5Cache.Valid;
    ghost var x := Decimal(bd0.Value(), e);
    DecimalPositive(bd0.Value(), e);
    var delta, bs, dsign, i := HalfUlpTest(cache, bd0, e, word0, word1, scale);
    if i < 0 {
      o := BelowHalf(word0, word1, scale, dsign, delta, bs, wide, x);
    } else if i == 0 {
      o := HalfWay(word0, word1, scale, dsign, wide, x);
    } else {
      BeyondHalf(word0, word1, scale, wide, x);
      o := Refine;
    }
  }

  lemma DecimalPositive(w: nat, t: int)
    ensures Decimal(w, t) >= 0.0
  {
    hide RPow;
    MulNonNegative(w as real, RPow(10, t));
  }

  lemma MulNonNegative(x: real, y: real)
    requires x >= 0.0 && y >= 0.0
    ensures x * y >= 0.0
  {
  }
}
