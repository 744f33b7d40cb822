/** What dtoa prints, strtod reads back as the same double. */
module RoundTrip {
  import opened Powers
  import opened Words
  import opened DoubleBits
  import opened DigitBuffer
  import opened Decimals
  import opened Minimal
  import opened Scaling
  import opened Dtoa
  import opened Nearest
  import opened Strtod
  import opened Rounding
  import opened Printing

  // ----- Half-way points of denormals have many digits -----

  lemma {:induction false} OddPower(n: nat)
    ensures Pow(5, n) % 2 == 1
  {
    if n > 0 {
      OddPower(n - 1);
      OddTimes(5, Pow(5, n - 1));
    }
  }

  lemma OddTimes(x: nat, y: nat)
    requires x % 2 == 1 && y % 2 == 1
    ensures (x * y) % 2 == 1
  {
    var a, b := x / 2, y / 2;
    assert x * y == 2 * (2 * a * b + a + b) + 1 by {
      assert x == 2 * a + 1 && y == 2 * b + 1;
    }
  }

  /** An odd number c over 2^n needs all the factors of five that 10^n has. */
  lemma HalfWayIsLong(d: nat, e: int, c: nat, n: nat)
    requires c % 2 == 1 && n > 0 && Decimal(d, e) == Units(c, -(n as int))
    ensures d >= Pow(5, n)
  {
    hide Pow, RPow;
    if e >= 0 {
      WholeDecimal(d, e, c, n);
      assert false;
    } else {
      var m: nat := -e;
      OddPower(m);
      OddTimes(c, Pow(5, m));
      FractionParts(d, e, c, n, m);
      if m < n {
        PowNext(2, n - m - 1);
        EvenTimes(d, Pow(2, n - m - 1));
        assert false;
      } else {
        PowPositive(2, m - n);
        PowMonotone(5, n, m);
        MultipleIsLarge(d, c, Pow(5, m), Pow(2, m - n));
      }
    }
  }

  lemma MultipleIsLarge(d: nat, c: nat, f: nat, p: nat)
    requires d == (c * f) * p && c >= 1 && p >= 1
    ensures d >= f
  {
    MulAtLeast(c * f, p);
    MulAtLeast(f, c);
  }

  lemma Cleared(d: real, c: real, a2: real, a5: real, b: real, p5: real, y: real)
    requires d * (a2 * a5) == c * b && a5 * p5 == 1.0
    ensures d * (a2 * y) == (c * (b * y)) * p5
  {
    var z := y * p5;
    assert (d * (a2 * a5)) * z == (d * (a2 * y)) * (a5 * p5) by {
      assert (a2 * a5) * z == (a2 * y) * (a5 * p5);
    }
    assert (c * b) * z == (c * (b * y)) * p5;
  }

  /** d and c times their powers of two and five, in terms of powers that are integers. */
  lemma ClearedPowers(d: nat, e: int, c: nat, n: nat, m: nat, j: nat)
    requires e == -(m as int) && Decimal(d, e) == Units(c, -(n as int)) && j >= n && j >= m
    ensures d * Pow(2, j - m) == (c * Pow(2, j - n)) * Pow(5, m)
  {
    hide RPow, Pow;
    RPowTen(e);
    RPowAdd(5, e, m);
    RPowNat(5, m);
    RPowZero(5);
    RPowAdd(2, e, j);
    RPowAdd(2, -(n as int), j);
    RPowNat(2, j - m);
    RPowNat(2, j - n);
    assert e + m == 0 && e + j == j - m && -(n as int) + j == j - n;
    ClearedIntegers(d, c, RPow(10, e), RPow(2, e), RPow(5, e), RPow(2, -(n as int)), RPow(2, j),
                    Pow(2, j - m), Pow(2, j - n), Pow(5, m));
  }

  lemma ClearedIntegers(d: nat, c: nat, a10: real, a2: real, a5: real, b: real, p: real, x: nat, y: nat, z: nat)
    requires a10 == a2 * a5 && d as real * a10 == c as real * b && a5 * z as real == 1.0
    requires a2 * p == x as real && b * p == y as real
    ensures d * x == (c * y) * z
  {
    Cleared(d as real, c as real, a2, a5, b, z as real, p);
    ToIntegers(d, x, c, y, z);
  }

  lemma ToIntegers(d: nat, x: nat, c: nat, y: nat, z: nat)
    requires d as real * x as real == (c as real * y as real) * z as real
    ensures d * x == (c * y) * z
  {
    AsReal(d, x);
    AsReal(c, y);
    AsReal(c * y, z);
  }

  /** The powers of two on the two sides, brought together. */
  lemma FractionParts(d: nat, e: int, c: nat, n: nat, m: nat)
    requires e == -(m as int) && Decimal(d, e) == Units(c, -(n as int))
    ensures m < n ==> d * Pow(2, n - m) == c * Pow(5, m)
    ensures m >= n ==> d == (c * Pow(5, m)) * Pow(2, m - n)
  {
    hide Pow, Decimal, Units;
    PowZero(2);
    ClearedPowers(d, e, c, n, m, if m < n then n else m);
    if m >= n {
      Reorder(c, Pow(2, m - n), Pow(5, m));
    }
  }

  lemma Reorder(x: int, y: int, z: int)
    ensures (x * y) * z == (x * z) * y
  {
  }

  lemma WholeDecimal(d: nat, e: nat, c: nat, n: nat)
    requires n > 0 && Decimal(d, e) == Units(c, -(n as int))
    ensures c % 2 == 0
  {
    hide Pow, RPow, Decimal, Units;
    var w := d * Pow(10, e);
    WholeValue(d, e);
    ClearedPowers(w, 0, c, n, 0, n);
    PowZero(2);
    PowZero(5);
    PowNext(2, n - 1);
    EvenTimes(w, Pow(2, n - 1));
  }

  lemma WholeValue(d: nat, e: nat)
    ensures Decimal(d * Pow(10, e), 0) == Decimal(d, e)
  {
    hide Pow, RPow;
    RPowNat(10, e);
    RPowZero(10);
    AsReal(d, Pow(10, e));
  }

  // ----- No tie is missed in reading back what was printed -----

  /** The number of binary places of a point half-way between two denormals. */
  const HALF_PLACES: nat := 1075

  lemma DenormalUnits(word0: Word, word1: Word, u: int) returns (q: nat)
    requires Stored(word0, word1, SCALE) && ExpField(word0) <= SCALE && Unscaled(word0, word1, SCALE).1 % 2 == 1
    requires u == 1 - HALF_PLACES
    ensures q % 2 == 1 && Approximation(word0, word1, SCALE) == Units(q, u)
    ensures HalfUlp(word0, SCALE) == RPow(2, u - 1)
  {
    hide Significand, Approximation, UnitExp, ExpField, RPow, Units;
    var (v0, v1) := Unscaled(word0, word1, SCALE);
    q := Significand(v0, v1);
    UnscaledDenormal(word0, word1);
    DenormalFields(v0, v1);
    OddWord(v0, v1);
    InUnits(v0, v1);
    DenormalHalf(word0);
  }

  lemma DenormalHalf(word0: Word)
    requires ExpField(word0) <= SCALE
    ensures HalfUlpExp(word0, SCALE) == 0 - (HALF_PLACES as int)
  {
  }

  lemma OddWord(v0: Word, v1: Word)
    ensures Significand(v0, v1) % 2 == v1 % 2
  {
  }

  /** A missed tie is an odd number of halves of the smallest double. */
  lemma MissedTieUnits(word0: Word, word1: Word, wide: Word, x: real, n: nat) returns (c: nat)
    requires Stored(word0, word1, SCALE) && MissedTie(word0, word1, SCALE, wide, x) && n == HALF_PLACES
    ensures c % 2 == 1 && x == Units(c, -(n as int))
  {
    hide Stored, Unscaled, Approximation, UnitExp, ExpField, RPow, Pow, Units, AllOnes, PowerOfTwo, HalfUlp, RAbs;
    var u := -(n as int);
    var q := DenormalUnits(word0, word1, u + 1);
    c := HalfOff(q, u, Approximation(word0, word1, SCALE), x);
  }

  lemma HalfOff(q: nat, u: int, d: real, x: real) returns (c: nat)
    requires q > 0 && d == Units(q, u + 1) && RAbs(d - x) == RPow(2, u)
    ensures c % 2 == 1 && x == Units(c, u)
  {
    hide Pow, RPow, Units;
    FinerUnit(q, u, 1);
    TwoOnce();
    if d < x {
      c := q * 2 + 1;
      UnitsOrder(q * 2, 0, u);
    } else {
      c := q * 2 - 1;
      UnitsOrder(c, 0, u);
    }
  }

  /** A decimal of fewer than 752 digits is no missed tie. */
  lemma NoMissedTie(word0: Word, word1: Word, scale: nat, wide: Word, d: nat, e: int, n: nat)
    requires Stored(word0, word1, scale) && n == HALF_PLACES && d < Pow(5, n)
    ensures !MissedTie(word0, word1, scale, wide, Decimal(d, e))
  {
    hide Pow, Decimal, Stored;
    if MissedTie(word0, word1, scale, wide, Decimal(d, e)) {
      assert scale == SCALE by { ScaleOf(word0, word1, scale); }
      var c := MissedTieUnits(word0, word1, wide, Decimal(d, e), n);
      HalfWayIsLong(d, e, c, n);
      assert false;
    }
  }

  lemma ScaleOf(word0: Word, word1: Word, scale: nat)
    requires Stored(word0, word1, scale)
    ensures scale == 0 || scale == SCALE
  {
  }

  lemma SeventeenDigitsAreFew(n: nat)
    requires n == HALF_PLACES
    ensures Pow(10, 17) <= Pow(5, n)
  {
    hide Pow;
    PowMonotone(5, 25, n);
    FivePowers();
    Pow10Sixteen();
    PowNext(10, 16);
  }

  lemma FivePowers()
    ensures Pow(5, 25) == 298023223876953125
  {
    assert Pow(5, 1) == 5 && Pow(5, 4) == 625;
    hide Pow;
    PowAdd(5, 4, 4);
    PowAdd(5, 8, 8);
    PowAdd(5, 16, 8);
    PowAdd(5, 24, 1);
  }

  // ----- Round trip -----

  lemma NearestUnique(word0: Word, word1: Word, v0: Word, v1: Word, x: real)
    requires Finite(word0) && v0 <= INFINITY0 && (v0 == INFINITY0 ==> v1 == 0) && x >= 0.0
    requires ReadsBack(TargetOf(word0, word1, word1 % 2 == 0), x) && IsNearest(v0, v1, x)
    ensures (v0, v1) == (word0, word1)
  {
    hide DoubleValue, HalfGapAbove, HalfGapBelow;
    if (v0, v1) != (word0, word1) {
      assert Nearer(v0, v1, word0, word1, x);
      Apart(word0, word1, v0, v1);
      if DoubleValue(v0, v1) > DoubleValue(word0, word1) {
        NextValue(word0, word1);
        var (n0, n1) := Next(word0, word1);
        SameDouble(v0, v1, n0, n1);
      } else {
        IsZeroDouble(word0, word1, v0, v1);
        var u0, u1 := Previous(word0, word1);
        NextValue(u0, u1);
        SameDouble(v0, v1, u0, u1);
      }
      assert false;
    }
  }

  lemma IsZeroDouble(word0: Word, word1: Word, v0: Word, v1: Word)
    requires DoubleValue(v0, v1) <= DoubleValue(word0, word1) && (v0, v1) != (word0, word1) && v0 <= INFINITY0
    ensures (word0, word1) != (0, 0)
  {
    if (word0, word1) == (0, 0) {
      hide DoubleValue, HalfGapAbove, HalfGapBelow;
      Apart(0, 0, v0, v1);
      ZeroValue();
      NonNegativeValue(v0, v1);
      assert false;
    }
  }

  lemma ZeroValue()
    ensures DoubleValue(0, 0) == 0.0
  {
  }

  lemma NonNegativeValue(v0: Word, v1: Word)
    ensures DoubleValue(v0, v1) >= 0.0
  {
    hide RPow, Significand, UnitExp;
    MulNonNegative(Significand(v0, v1) as real, RPow(2, UnitExp(v0)));
  }

  /**
   * Reading back what was printed. If the decimal d 10^e is the one dtoa prints for a double in
   * mode 0 or 1, in at most 17 digits, then however strtod has come by its approximation, the
   * exact part of its loop can end only with that double; and it ends if that is the approximation.
   */
  lemma PrintThenRead(word0: Word, word1: Word, inclusive: bool, digits: seq<char>, decpt: int, d: nat, e: int,
                      s0: Word, s1: Word, scale: nat, wide: Word, o: Outcome, n: nat)
    requires Finite(word0) && (word0, word1) != (0, 0) && (inclusive ==> word1 % 2 == 0)
    requires PrintsShortest(TargetOf(word0, word1, inclusive), digits, decpt)
    requires n == HALF_PLACES && d < Pow(5, n) && Decimal(d, e) == Printed(digits, decpt)
    requires Stored(s0, s1, scale) && Ample(s0, scale) && Finite(s0) && WellSettled(o, s0, s1, scale, wide, Decimal(d, e))
    ensures o != Refine ==> o.Settled? && Stored(o.word0, o.word1, scale) && Unscaled(o.word0, o.word1, scale) == (word0, word1)
    ensures Unscaled(s0, s1, scale) == (word0, word1) ==> o == Settled(s0, s1)
  {
    var x := Decimal(d, e);
    hide Pow, Decimal, Printed, Stored, Unscaled, NearestTo, MissedTie, DoubleValue, HalfGapAbove, HalfGapBelow,
         NoneWithFewer, NoneCloser, WellWritten, Approximation, HalfUlp;
    DecimalPositive(d, e);
    NoMissedTie(s0, s1, scale, wide, d, e, n);
    InsideAlsoInclusive(word0, word1, inclusive, x);
    match o {
      case Refine =>
      case Underflow =>
        NearestUnique(word0, word1, 0, 0, x);
        assert false;
      case Settled(v0, v1) =>
        SettledIsNearest(v0, v1, scale, x);
        NearestUnique(word0, word1, Unscaled(v0, v1, scale).0, Unscaled(v0, v1, scale).1, x);
    }
    if Unscaled(s0, s1, scale) == (word0, word1) {
      NearestIfInside(word0, word1, x);
      assert NearestTo(s0, s1, scale, x) by { NearestByWords(s0, s1, scale, x); }
    }
  }

  lemma InsideAlsoInclusive(word0: Word, word1: Word, inclusive: bool, x: real)
    requires ReadsBack(TargetOf(word0, word1, inclusive), x) && (inclusive ==> word1 % 2 == 0)
    ensures ReadsBack(TargetOf(word0, word1, word1 % 2 == 0), x)
  {
  }

  lemma NearestByWords(s0: Word, s1: Word, scale: nat, x: real)
    requires Stored(s0, s1, scale)
    ensures NearestTo(s0, s1, scale, x) <==> IsNearest(Unscaled(s0, s1, scale).0, Unscaled(s0, s1, scale).1, x)
  {
  }

  lemma SettledIsNearest(v0: Word, v1: Word, scale: nat, x: real)
    requires Rounded(Settled(v0, v1), scale, x)
    ensures Stored(v0, v1, scale)
    ensures var (u0, u1) := Unscaled(v0, v1, scale);
            IsNearest(u0, u1, x) && u0 <= INFINITY0 && (u0 == INFINITY0 ==> u1 == 0)
  {
    UnscaledValue(v0, v1, scale);
    if scale > 0 && ExpField(v0) <= SCALE {
      UnscaledDenormal(v0, v1);
    }
  }

  lemma DigitsWritten(digits: seq<char>)
    requires WellWritten(digits)
    ensures Digits(digits)
  {
  }

  lemma FewDigits(digits: seq<char>, n: nat)
    requires Digits(digits) && |digits| <= 17 && n == HALF_PLACES
    ensures Number(digits) < Pow(5, n)
  {
    hide Pow, Number;
    SeventeenDigitsAreFew(n);
    NumberBound(digits);
    PowMonotone(10, |digits|, 17);
  }

  lemma PrintedAs(digits: seq<char>, decpt: int)
    requires Digits(digits)
    ensures Decimal(Number(digits), decpt - |digits|) == Printed(digits, decpt)
  {
  }

  /**
   * The two together: what PrintShortest promises of its digits is enough. They have at most 17, so
   * no tie is missed, and reading them back can end only with the double that was printed.
   */
  lemma PrintedIsRead(word0: Word, word1: Word, inclusive: bool, digits: seq<char>, decpt: int,
                      s0: Word, s1: Word, scale: nat, wide: Word, o: Outcome, n: nat)
    requires Finite(word0) && (word0, word1) != (0, 0) && (inclusive ==> word1 % 2 == 0) && n == HALF_PLACES
    requires |digits| <= 17 && PrintsShortest(TargetOf(word0, word1, inclusive), digits, decpt)
    requires Stored(s0, s1, scale) && Ample(s0, scale) && Finite(s0)
    requires WellSettled(o, s0, s1, scale, wide, Printed(digits, decpt))
    ensures o != Refine ==> o.Settled? && Stored(o.word0, o.word1, scale) && Unscaled(o.word0, o.word1, scale) == (word0, word1)
    ensures Unscaled(s0, s1, scale) == (word0, word1) ==> o == Settled(s0, s1)
  {
    hide Pow, Number, Decimal, Printed, Stored, Unscaled, WellWritten, ReadsBack, NoneWithFewer, NoneCloser, WellSettled,
         TargetOf;
    assert Digits(digits) by { DigitsWritten(digits); }
    FewDigits(digits, n);
    PrintedAs(digits, decpt);
    PrintThenRead(word0, word1, inclusive, digits, decpt, Number(digits), decpt - |digits|, s0, s1, scale, wide, o, n);
  }
}
