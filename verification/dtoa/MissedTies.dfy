/** The half-way points below the normal doubles that strtod does not round to even. */
module MissedTies {
  import opened Powers
  import opened Words
  import opened BigInts
  import opened DoubleBits
  import opened DigitLoops
  import opened PowersOfFive
  import opened Decimals
  import opened Minimal
  import opened Scaling
  import opened Dtoa
  import opened Nearest
  import opened Strtod
  import opened Rounding
  import opened RoundTrip

  // ----- The words strtod starts from -----

  /** An approximation of at least the smallest double has at least its exponent. */
  lemma FieldOfUnits(word0: Word, word1: Word, q: nat, n: nat)
    requires 0 < ExpField(word0) && q >= 1 && n == HALF_PLACES
    requires Units(q, 1 - n) <= Approximation(word0, word1, SCALE)
    ensures ExpField(word0) >= P + 2
  {
    hide RPow, Pow, Units, Significand, ExpField, Approximation;
    var a := UnitExp(word0) - SCALE;
    if ExpField(word0) < P + 2 {
      assert a + 53 <= 1 - n;
      ApproximationInUnits(word0, word1, SCALE);
      SignificandBounds(word0, word1);
      UnitsOrder(Significand(word0, word1), Pow(2, 53), a);
      BelowOneUnit(a, 53);
      RPowMonotone(2, a + 53, 1 - n);
      UnitsOne(1 - n);
      UnitsOrder(1, q, 1 - n);
      assert false;
    }
  }

  lemma BelowOneUnit(a: int, j: nat)
    ensures Units(Pow(2, j), a) == RPow(2, a + j)
  {
    hide RPow, Pow, Units;
    FinerUnit(1, a, j);
    UnitsOne(a + j);
  }

  /** Without its low bits a number between two multiples of 2^j is the lower one. */
  lemma LowerMultiple(m: nat, m1: nat, q: nat, j: nat)
    requires q * Pow(2, j) <= m < (q + 1) * Pow(2, j) && 0 <= m - m1 < Pow(2, j) && MultipleOfPow(m1, j)
    ensures WithoutLow(m1, j) == q
  {
    hide Pow, WithoutLow, MultipleOfPow;
    QuotientOnGrid(m1, j);
    PowPositive(2, j);
    OneBetween(m, m1, q, WithoutLow(m1, j), Pow(2, j));
  }

  lemma OneBetween(m: nat, m1: nat, q: nat, c: nat, p: nat)
    requires p > 0 && q * p <= m < (q + 1) * p && 0 <= m - m1 < p && m1 == c * p
    ensures c == q
  {
    OneMore(q, p);
    OneMore(c, p);
    if c > q {
      MulMonotone(q + 1, c, p);
    } else if c < q {
      MulMonotone(c + 1, q, p);
    }
  }

  lemma InUnitsOf(word0: Word, word1: Word, q: nat, j: nat, n: nat)
    requires 0 < ExpField(word0) <= SCALE && j == SCALE + 1 - ExpField(word0) && n == HALF_PLACES
    requires Units(q, 1 - n) <= Approximation(word0, word1, SCALE) < Units(q + 1, 1 - n)
    ensures q * Pow(2, j) <= Significand(word0, word1) < (q + 1) * Pow(2, j)
  {
    hide RPow, Pow, Units, Significand, Approximation;
    var a := UnitExp(word0) - SCALE;
    assert a + j == 1 - n;
    hide UnitExp, ExpField;
    ApproximationInUnits(word0, word1, SCALE);
    FinerUnit(q, a, j);
    FinerUnit(q + 1, a, j);
    UnitsOrder(Significand(word0, word1), q * Pow(2, j), a);
    UnitsOrder((q + 1) * Pow(2, j), Significand(word0, word1), a);
    UnitPositive(a);
  }

  lemma UnitPositive(u: int)
    ensures RPow(2, u) > 0.0
  {
  }

  /** Whatever approximation it finds between two denormals, strtod starts from the lower one. */
  lemma StartsFromLower(word0: Word, word1: Word, w0: Word, w1: Word, q: nat, n: nat)
    requires 0 < ExpField(word0) <= SCALE && n == HALF_PLACES && q >= 1
    requires Units(q, 1 - n) <= Approximation(word0, word1, SCALE) < Units(q + 1, 1 - n)
    requires Stored(w0, w1, SCALE)
    requires P + 2 <= ExpField(word0) ==> ExpField(w0) == ExpField(word0)
    requires P + 2 <= ExpField(word0) ==>
               0 <= Significand(word0, word1) - Significand(w0, w1) < Pow(2, SCALE + 1 - ExpField(word0))
    ensures ExpField(w0) <= SCALE && q < BASE * BASE && Unscaled(w0, w1, SCALE) == (q / BASE, q % BASE)
  {
    hide RPow, Pow, Units, Significand, Approximation, ExpField, MultipleOfPow, WithoutLow;
    FieldOfUnits(word0, word1, q, n);
    var j := SCALE + 1 - ExpField(word0);
    InUnitsOf(word0, word1, q, j, n);
    LowerMultiple(Significand(word0, word1), Significand(w0, w1), q, j);
    QuotientHalf(Significand(w0, w1), j);
    SignificandBounds(w0, w1);
    Pow2Constants();
  }

  // ----- Half-way points -----

  lemma FiveFactor(c: nat, n: nat)
    ensures Decimal(c * Pow(5, n), -(n as int)) == Units(c, -(n as int))
  {
    hide Pow, RPow;
    var z := -(n as int);
    RPowTen(z);
    RPowNat(5, n);
    RPowAdd(5, n, z);
    RPowZero(5);
    assert n + z == 0;
    AsReal(c, Pow(5, n));
    FiveArith(c as real, RPow(5, n), RPow(2, z), RPow(5, z));
  }

  lemma FiveArith(c: real, f: real, x: real, y: real)
    requires f * y == 1.0
    ensures (c * f) * (x * y) == c * x
  {
    assert (c * f) * (x * y) == (c * x) * (f * y);
  }

  /** All the bits of a denormal are ones only if it has many of them. */
  lemma ManyOnes(word0: Word, word1: Word, wide: Word, q: nat)
    requires Stored(word0, word1, SCALE) && ExpField(word0) <= SCALE && Unscaled(word0, word1, SCALE) == (q / BASE, q % BASE)
    requires q < BASE * BASE && AllOnes(word0, word1, SCALE, wide)
    ensures q >= 0x1F_FFFF
  {
    var j, m := SCALE + 1 - ExpField(word0), Significand(word0, word1);
    AllOnesSignificand(word0, word1, wide);
    QuotientOnGrid(m, j);
    PowMonotone(2, j, 32);
    Pow2Constants();
    hide Pow, Significand, WithoutLow, AllOnes, ExpField;
    assert q == q / BASE * BASE + q % BASE;
    OnesAtLeast(WithoutLow(m, j), Pow(2, j));
  }

  lemma OnesAtLeast(q: nat, p: nat)
    requires q * p + p == 0x20_0000_0000_0000 && p <= BASE
    ensures q >= 0x1F_FFFF
  {
    assert q * p + p == (q + 1) * p;
    MulMonotone(p, BASE, q + 1);
  }

  /** The words of a denormal q, and the point half-way to the next one. */
  lemma HalfAboveWords(w0: Word, w1: Word, q: nat, n: nat)
    requires Stored(w0, w1, SCALE) && ExpField(w0) <= SCALE && n == HALF_PLACES
    requires q < BASE * BASE && Unscaled(w0, w1, SCALE) == (q / BASE, q % BASE)
    ensures Units(2 * q + 1, -(n as int)) == Approximation(w0, w1, SCALE) + HalfUlp(w0, SCALE)
    ensures Unscaled(w0, w1, SCALE).1 % 2 == q % 2
  {
    hide RPow, Units, Stored, Unscaled, ExpField, Significand, Approximation, HalfUlp, UnitExp;
    var z := -(n as int);
    UnscaledDenormal(w0, w1);
    DenormalFields(q / BASE, q % BASE);
    WordsTogether(q);
    InUnits(q / BASE, q % BASE);
    DenormalHalf(w0);
    HalfUlpOf(w0, z);
    FinerUnit(q, z, 1);
    TwoOnce();
    UnitsOrder(2 * q, 0, z);
    assert z + 1 == -1074;
  }

  lemma WordsTogether(q: nat)
    requires q < BASE * BASE && ExpField(q / BASE) == 0 && q / BASE < EXP_MSK1
    ensures Significand(q / BASE, q % BASE) == q && q % BASE % 2 == q % 2
  {
    FieldsUnique(q / BASE, 0, q / BASE);
  }

  lemma HalfUlpOf(word0: Word, u: int)
    requires HalfUlpExp(word0, SCALE) == u
    ensures HalfUlp(word0, SCALE) == RPow(2, u)
  {
  }

  /** Half-way above an odd denormal the tie is missed, unless all its bits are ones: then the loop leaves the odd one. */
  lemma MissedAbove(w0: Word, w1: Word, wide: Word, q: nat, n: nat, o: Outcome)
    requires Stored(w0, w1, SCALE) && ExpField(w0) <= SCALE && Finite(w0) && n == HALF_PLACES
    requires q < BASE * BASE && Unscaled(w0, w1, SCALE) == (q / BASE, q % BASE)
    requires WellSettled(o, w0, w1, SCALE, wide, Decimal((2 * q + 1) * Pow(5, n), -(n as int)))
    ensures var x := Decimal((2 * q + 1) * Pow(5, n), -(n as int));
            && (MissedTie(w0, w1, SCALE, wide, x) <==> q % 2 == 1 && !AllOnes(w0, w1, SCALE, wide))
            && (Rounded(o, SCALE, x) <==> q % 2 == 0 || AllOnes(w0, w1, SCALE, wide))
            && (q % 2 == 1 && !AllOnes(w0, w1, SCALE, wide) ==> o == Settled(w0, w1) && !NearestTo(w0, w1, SCALE, x))
            && o != Refine
  {
    hide Pow, Decimal, Units, Stored, Unscaled, ExpField, Approximation, HalfUlp, AllOnes, PowerOfTwo, NearestTo;
    FiveFactor(2 * q + 1, n);
    HalfAboveWords(w0, w1, q, n);
  }

  /** The nearest double, ties going to even, is then the next one. */
  lemma NextIsNearest(w0: Word, w1: Word, q: nat, n: nat)
    requires Stored(w0, w1, SCALE) && ExpField(w0) <= SCALE && Finite(w0) && n == HALF_PLACES
    requires q < BASE * BASE && Unscaled(w0, w1, SCALE) == (q / BASE, q % BASE) && q % 2 == 1
    ensures var x := Decimal((2 * q + 1) * Pow(5, n), -(n as int));
            && Finite(q / BASE) && !IsNearest(q / BASE, q % BASE, x)
            && IsNearest(Next(q / BASE, q % BASE).0, Next(q / BASE, q % BASE).1, x)
  {
    hide Pow, Decimal, Units, Stored, Unscaled, ExpField, Approximation, HalfUlp, DoubleValue, HalfGapAbove, IsNearest, Next;
    FiveFactor(2 * q + 1, n);
    HalfAboveWords(w0, w1, q, n);
    UnscaledValue(w0, w1, SCALE);
    DecimalPositive((2 * q + 1) * Pow(5, n), -(n as int));
    TieUp(q / BASE, q % BASE, Decimal((2 * q + 1) * Pow(5, n), -(n as int)));
  }

  /**
   * strtod for the decimal (2q + 1) 5^1075 10^-1075, half-way above the denormal q, from any approximation
   * between q and the next one: it rounds to even exactly if q is even or has all its bits set.
   */
  method ReadHalfAbove(cache: Pow5Cache, bd0: Bigint, word0: Word, word1: Word, wide: Word, ghost q: nat, ghost n: nat)
    returns (w0: Word, w1: Word, o: Outcome)
    requires cache.Valid() && Good(bd0) && bd0.Value() == (2 * q + 1) * Pow(5, n) > 0 && bd0.Repr() !! cache.Repr
    requires n == HALF_PLACES && q >= 1 && 0 < ExpField(word0) <= SCALE && Finite(word0)
    requires Units(q, 1 - n) <= Approximation(word0, word1, SCALE) < Units(q + 1, 1 - n)
    modifies cache.Repr
    ensures cache.Valid() && fresh(cache.Repr - old(cache.Repr))
    ensures Stored(w0, w1, SCALE) && q < BASE * BASE && Unscaled(w0, w1, SCALE) == (q / BASE, q % BASE)
    ensures var x := Decimal((2 * q + 1) * Pow(5, n), -(n as int));
            && (Rounded(o, SCALE, x) <==> q % 2 == 0 || AllOnes(w0, w1, SCALE, wide)) && o != Refine
            && (q % 2 == 1 && q < 0x1F_FFFF ==> o == Settled(w0, w1) && !NearestTo(w0, w1, SCALE, x))
  {
    hide Val, Pow, RPow, Units, Stored, Unscaled, ExpField, Significand, Approximation, WellSettled, MissedTie, NearestTo,
         Decimal, AllOnes, Rounded, Pow5Cache.Valid;
    w0, w1 := ZapLowBits(word0, word1);
    StartsFromLower(word0, word1, w0, w1, q, n);
    o := RefineOnce(cache, bd0, -1075, w0, w1, SCALE, wide);
    MissedAbove(w0, w1, wide, q, n, o);
    if AllOnes(w0, w1, SCALE, wide) {
      ManyOnes(w0, w1, wide, q);
    }
  }

  /** 7/2 of the smallest double is left at three times it, although four times it is the even one. */
  lemma SevenHalves(w0: Word, w1: Word, wide: Word, n: nat, o: Outcome)
    requires Stored(w0, w1, SCALE) && ExpField(w0) <= SCALE && Finite(w0) && n == HALF_PLACES
    requires Unscaled(w0, w1, SCALE) == (0, 3)
    requires WellSettled(o, w0, w1, SCALE, wide, Decimal(7 * Pow(5, n), -(n as int)))
    ensures o == Settled(w0, w1)
    ensures !IsNearest(0, 3, Decimal(7 * Pow(5, n), -(n as int))) && IsNearest(0, 4, Decimal(7 * Pow(5, n), -(n as int)))
  {
    hide Pow, Decimal, Stored, Unscaled, ExpField, AllOnes, NearestTo, WellSettled, MissedTie, Rounded, IsNearest;
    MissedAbove(w0, w1, wide, 3, n, o);
    NextIsNearest(w0, w1, 3, n);
    if AllOnes(w0, w1, SCALE, wide) {
      ManyOnes(w0, w1, wide, 3);
    }
  }
}
