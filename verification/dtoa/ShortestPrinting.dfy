/** dtoa in modes 0 and 1: the fewest digits that read back as the double. */
module ShortestPrinting {
  import opened Powers
  import opened Words
  import opened BigInts
  import opened Kernel
  import opened QuoRems
  import opened PowersOfFive
  import opened DoubleBits
  import opened DigitBuffer
  import opened Shortest
  import opened DigitLoops
  import opened Decimals
  import opened Minimal
  import opened Scaling
  import opened Dtoa
  import opened Printing
  import opened SmallIntegers

  // ----- Integers below 10^15 -----

  lemma {:induction false} NumberAtLeast(s: seq<char>)
    requires Digits(s) && |s| >= 1 && s[0] != '0'
    ensures Pow(10, |s| - 1) <= Number(s)
  {
    if |s| > 1 {
      NumberAtLeast(s[..|s| - 1]);
    }
  }

  /** Multiples of ten times a unit are a unit away from other multiples of it. */
  lemma TenApart(w: nat, x: nat, j: nat, e: int)
    requires w % 10 != 0 && j >= 1
    ensures RAbs(Decimal(x, e + j) - Decimal(w, e)) >= RPow(10, e)
  {
    hide RPow, Pow;
    Trimmed(x, e + j - 1, j, 0);
    PowNext(10, j - 1);
    assert e + j - 1 + 1 - 0 == e + j && e + j - 1 - j + 1 == e;
    TenDivides(x, Pow(10, j - 1), w);
    OneApart((x * Pow(10, j)) as real, w as real, RPow(10, e));
  }

  lemma TenDivides(x: nat, p: nat, w: nat)
    requires w % 10 != 0
    ensures x * (10 * p) >= w + 1 || x * (10 * p) <= w - 1
  {
    assert x * (10 * p) == 10 * (x * p);
  }

  lemma OneApart(x: real, y: real, u: real)
    requires u > 0.0 && (x >= y + 1.0 || x <= y - 1.0)
    ensures RAbs(x * u - y * u) >= u
  {
    assert x * u - y * u == (x - y) * u;
    if x >= y + 1.0 {
      OrderByFactor(1.0, x - y, u);
    } else {
      OrderByFactor(x - y, -1.0, u);
    }
  }

  /** A number with fewer digits and no larger unit is a unit below. */
  lemma ShorterIsLess(w: nat, n: nat, e: int, x: nat, t: int)
    requires n >= 1 && Pow(10, n - 1) <= w && x < Pow(10, n - 1) && t <= e
    ensures Decimal(x, t) + RPow(10, e) <= Decimal(w, e)
  {
    hide RPow, Pow;
    RPowMonotone(10, t, e);
    assert x as real + 1.0 <= w as real;
    OneLess(x as real, w as real, RPow(10, t), RPow(10, e));
  }

  lemma OneLess(x: real, w: real, u: real, v: real)
    requires 0.0 <= x && x + 1.0 <= w && u <= v && v > 0.0
    ensures x * u + v <= w * v
  {
    assert x * v - x * u == x * (v - u);
    assert (x + 1.0) * v == x * v + v;
    OrderByFactor(x + 1.0, w, v);
  }

  /** Decimals with fewer digits are at least a unit of the last place away. */
  lemma ShorterIsFar(w: nat, n: nat, e: int, x: nat, t: int)
    requires n >= 1 && w % 10 != 0 && Pow(10, n - 1) <= w && x < Pow(10, n - 1)
    ensures RAbs(Decimal(x, t) - Decimal(w, e)) >= RPow(10, e)
  {
    hide RPow, Pow, Decimal;
    if t > e {
      TenApart(w, x, t - e, e);
      assert e + (t - e) == t;
    } else {
      ShorterIsLess(w, n, e, x, t);
    }
  }

  /** Below 10^15 the half-gaps are less than one. */
  lemma SmallGaps(word0: Word, word1: Word)
    requires UnitExp(word0) < 0
    ensures 0.0 < HalfGapBelow(word0, word1) < 1.0 && 0.0 < HalfGapAbove(word0) < 1.0
  {
    GapAbove(word0, word1);
    RPowMonotone(2, UnitExp(word0) - 1, -1);
    RPowStep(2, -1);
    RPowZero(2);
    hide RPow, UnitExp;
  }

  lemma FarFromTarget(g: Target, x: real)
    requires g.lo < 1.0 && g.hi < 1.0 && RAbs(x - g.d) >= 1.0
    ensures !ReadsBack(g, x)
  {
  }

  lemma ItselfReadsBack(g: Target)
    requires g.lo > 0.0 && g.hi > 0.0
    ensures ReadsBack(g, g.d)
  {
  }

  lemma LastNotZero(s: seq<char>)
    requires Digits(s) && |s| >= 1 && s[|s| - 1] != '0'
    ensures Number(s) % 10 != 0
  {
  }

  /** The digits of an integer without its trailing zeros are what modes 0 and 1 promise. */
  lemma ExactIsShortest(word0: Word, word1: Word, inclusive: bool, digits: seq<char>, decpt: int)
    requires UnitExp(word0) < 0 && WellWritten(digits) && decpt >= |digits|
    requires Printed(digits, decpt) == DoubleValue(word0, word1)
    ensures PrintsShortest(TargetOf(word0, word1, inclusive), digits, decpt)
  {
    var g, n, e := TargetOf(word0, word1, inclusive), |digits|, decpt - |digits|;
    SmallGaps(word0, word1);
    NumberAtLeast(digits);
    LastNotZero(digits);
    RPowMonotone(10, 0, e);
    RPowZero(10);
    hide RPow, Pow, Number, ReadsBack, UnitExp, DoubleValue, HalfGapBelow, HalfGapAbove, Decimal;
    ItselfReadsBack(g);
    forall w: nat, t: int | w < Pow(10, n - 1)
      ensures !ReadsBack(g, Decimal(w, t))
    {
      ShorterIsFar(Number(digits), n, e, w, t);
      FarFromTarget(g, Decimal(w, t));
    }
    assert NoneCloser(g, n, Printed(digits, decpt));
  }

  /** A carry would lead out of the decade. */
  lemma NoCarry(d0: nat, k: nat, m: nat, digits: seq<char>, carried: bool)
    requires Pow(10, k) <= d0 < 10 * Pow(10, k) && 1 <= m && Left(d0, k, m) == 0
    requires Writes(digits, m, carried, ToEven(d0, k, m))
    ensures 1 <= |digits| <= m && Digits(digits) && digits[0] != '0'
    ensures !carried && Printed(digits, k + 1) == d0 as real
  {
    ExactValue(d0, k, m);
    WrittenValue(digits, m, carried, ToEven(d0, k, m), k);
    PowNext(10, k);
    RPowNat(10, k + 1);
    hide RPow, Pow, Kept, Left, ToEven;
    PowerDecimal(m, k - m + 1);
    assert k - m + 1 + m == k + 1;
  }

  /** The estimate is exact when it matters: k_check is off for integers with k up to Int_max. */
  lemma EstimateOfInteger(d: real, k: int)
    requires GoodEstimate(d, k) && IsInteger(d) && d > 0.0
    ensures k >= 0
  {
    hide RPow;
    if k < 0 {
      RPowMonotone(10, k + 1, 0);
      RPowZero(10);
      assert false;
    }
  }

  /** The branch for small integers; i is 18 in these modes. */
  method PrintInteger(word0: Word, word1: Word, k: int, inclusive: bool, buf: array<char>) returns (n: nat, decpt: int)
    requires buf.Length == 18 && Significand(word0, word1) > 0
    requires SmallInteger(DoubleValue(word0, word1), k) && InDecade(DoubleValue(word0, word1), k)
    modifies buf
    ensures 1 <= n <= 15 && PrintsShortest(TargetOf(word0, word1, inclusive), buf[..n], decpt)
  {
    hide Pow, RPow, Significand, UnitExp, DoubleValue, IntegerValue, InDecade, PrintsShortest, Writes, ToEven, Left;
    ValueOf(word0, word1, k);
    FineUnit(word0, word1, k);
    var carried;
    ghost var m;
    n, carried, m := IntegerLoop(IntegerValue(word0, word1), k, -1, buf);
    NoCarry(IntegerValue(word0, word1), k, m, buf[..n], carried);
    decpt := if carried then k + 2 else k + 1;
    ExactIsShortest(word0, word1, inclusive, buf[..n], decpt);
  }

  // ----- A power of ten at the upper end -----

  /** Below a power of ten, decimals of one digit are no more than nine tenths of it. */
  lemma OneDigitBelow(w: nat, t: int, k: int)
    requires w < 10 && Decimal(w, t) < RPow(10, k)
    ensures 10.0 * Decimal(w, t) <= 9.0 * RPow(10, k)
  {
    hide RPow;
    if w > 0 {
      if t >= k {
        RPowMonotone(10, k, t);
        OrderByFactor(1.0, w as real, RPow(10, t));
        assert false;
      }
      RPowMonotone(10, t + 1, k);
      RPowStep(10, t);
      NineTenths(w, RPow(10, t), RPow(10, k));
    }
  }

  lemma NineTenths(w: nat, p: real, q: real)
    requires w <= 9 && 10.0 * p <= q && p > 0.0
    ensures 10.0 * (w as real * p) <= 9.0 * q
  {
    OrderByFactor(w as real, 9.0, p);
  }

  lemma {:induction false} NotFive(n: nat)
    ensures Pow(2, n) % 5 != 0
  {
    if n > 0 {
      NotFive(n - 1);
    }
  }

  lemma NoMultipleOfTen(x: nat, j: nat, n: nat)
    requires j >= 1
    ensures x * Pow(10, j) != Pow(2, n)
  {
    hide Pow;
    NotFive(n);
    PowNext(10, j - 1);
    FiveDivides(x, Pow(10, j - 1), Pow(10, j));
  }

  lemma FiveDivides(x: nat, p: nat, q: nat)
    requires q == 10 * p
    ensures (x * q) % 5 == 0
  {
    assert x * q == 5 * (2 * (x * p));
  }

  /** A power of ten is no small number of units of 2^-n. */
  lemma NotSmall(x: nat, k: int, n: nat)
    requires x as real * RPow(2, -(n as int)) == RPow(10, k)
    ensures k >= 0 && x >= Pow(2, n)
  {
    hide RPow, Pow;
    var m := -(n as int);
    RPowAdd(2, n, m);
    RPowZero(2);
    RPowNat(2, n);
    assert x as real == RPow(10, k) * RPow(2, n) by {
      CancelFactor(x as real, RPow(2, m), RPow(10, k), RPow(2, n));
    }
    if k < 0 {
      RPowAdd(10, k, -k);
      RPowZero(10);
      RPowNat(10, -k);
      CancelFactor(RPow(2, n), RPow(10, k), x as real, RPow(10, -k));
      assert Pow(2, n) == x * Pow(10, -k) by {
        AsReal(x, Pow(10, -k));
      }
      NoMultipleOfTen(x, -k, n);
      assert false;
    }
    RPowMonotone(10, 0, k);
    RPowZero(10);
    OrderByFactor(1.0, RPow(10, k), RPow(2, n));
  }

  lemma CancelFactor(x: real, y: real, z: real, r: real)
    requires x * y == z && r * y == 1.0
    ensures x == z * r
  {
    assert (x * y) * r == x * (r * y);
  }

  /** A double at the upper end of whose interval there is a power of ten is many units large. */
  lemma ManyUnits(word0: Word, word1: Word, k: int)
    requires DoubleValue(word0, word1) + HalfGapAbove(word0) == RPow(10, k)
    ensures 19.0 * HalfGapAbove(word0) <= DoubleValue(word0, word1)
  {
    hide RPow, Pow, Significand, UnitExp;
    var m, u := Significand(word0, word1), UnitExp(word0);
    var h := RPow(2, u - 1);
    FewUnits(word0, word1);
    RPowStep(2, u - 1);
    InHalves(m, h, DoubleValue(word0, word1));
    if m < 10 {
      var n := 1 - u;
      NotSmall(2 * m + 1, k, n);
      Thousand(n);
      assert false;
    }
  }

  lemma FewUnits(word0: Word, word1: Word)
    ensures Significand(word0, word1) < 10 ==> UnitExp(word0) - 1 == -1075
  {
    SignificandBounds(word0, word1);
    Pow2Constants();
    hide Pow, Significand;
    PowMonotone(2, 11, 52);
  }

  lemma InHalves(m: nat, h: real, d: real)
    requires d == m as real * (2.0 * h) && h > 0.0
    ensures d + h == (2 * m + 1) as real * h && (m >= 10 ==> 19.0 * h <= d)
  {
    assert m as real * (2.0 * h) == (2 * m) as real * h;
    assert (2 * m + 1) as real * h == (2 * m) as real * h + h;
    if m >= 10 {
      OrderByFactor(20.0, (2 * m) as real, h);
    }
  }

  lemma Thousand(n: nat)
    requires n >= 10
    ensures Pow(2, n) > 1000
  {
    assert Pow(2, 10) == 1024;
    hide Pow;
    PowMonotone(2, 10, n);
  }

  /** It is closest then too: all other decimals of one digit are further below. */
  lemma TenIsClosest(word0: Word, word1: Word, inclusive: bool, digits: seq<char>, decpt: int)
    requires TenAtTheEnd(TargetOf(word0, word1, inclusive), digits, decpt)
    ensures NoneCloser(TargetOf(word0, word1, inclusive), |digits|, Printed(digits, decpt))
  {
    hide RPow, Pow, DoubleValue, HalfGapAbove, HalfGapBelow, Decimal, Printed;
    var g, k := TargetOf(word0, word1, inclusive), decpt - 1;
    var x := Printed(digits, decpt);
    OnePrinted(digits, decpt);
    ManyUnits(word0, word1, k);
    PowTen();
    forall w: nat, t: int | w < Pow(10, 1) && ReadsBack(g, Decimal(w, t))
      ensures RAbs(x - g.d) <= RAbs(Decimal(w, t) - g.d)
    {
      if Decimal(w, t) < x {
        OneDigitBelow(w, t, k);
      }
    }
  }

  lemma OnePrinted(digits: seq<char>, decpt: int)
    requires digits == "1"
    ensures Printed(digits, decpt) == RPow(10, decpt - 1)
  {
    hide RPow;
    assert digits == [] + [Digit(1)];
    NumberPush([], Digit(1));
  }

  lemma PowTen()
    ensures Pow(10, 1) == 10
  {
    assert Pow(10, 0) == 1;
  }

  // ----- Modes 0 and 1 -----

  lemma ClosestAnyway(word0: Word, word1: Word, inclusive: bool, digits: seq<char>, decpt: int)
    requires var g := TargetOf(word0, word1, inclusive);
             PrintsNoFewer(g, digits, decpt) && (NoneCloser(g, |digits|, Printed(digits, decpt)) || TenAtTheEnd(g, digits, decpt))
    ensures PrintsShortest(TargetOf(word0, word1, inclusive), digits, decpt)
  {
    hide NoneCloser, PrintsNoFewer, Printed;
    if TenAtTheEnd(TargetOf(word0, word1, inclusive), digits, decpt) {
      TenIsClosest(word0, word1, inclusive, digits, decpt);
    }
  }

  /** The multiprecision part. */
  method PrintLong(cache: Pow5Cache, word0: Word, word1: Word, b0: Bigint, be: int, bits: int, k0: int, kCheck: bool,
                   inclusive: bool, buf: array<char>, ghost shift: nat)
    returns (n: nat, decpt: int)
    requires cache.Valid() && Split(b0, be, bits, shift, word0, word1) && b0.Repr() !! cache.Repr
    requires Significand(word0, word1) > 0 && buf.Length == 18
    requires buf !in cache.Repr && buf !in b0.Repr()
    requires GoodEstimate(DoubleValue(word0, word1), k0) && (!kCheck ==> InDecade(DoubleValue(word0, word1), k0))
    modifies cache.Repr, b0, b0.x, buf
    ensures cache.Valid() && fresh(cache.Repr - old(cache.Repr))
    ensures 1 <= n <= 17 && PrintsShortest(TargetOf(word0, word1, inclusive), buf[..n], decpt)
  {
    hide Val, Pow, RPow, Aligned, Significand, DoubleValue, HalfGapAbove, HalfGapBelow, GoodEstimate, InDecade,
         Represents, IsShortest, PrintsShortest, PrintsNoFewer, NoneCloser, TenAtTheEnd, Good, Apart, Pow5Cache.Valid, Split;
    ghost var g := TargetOf(word0, word1, inclusive);
    GapBelowValue(word0, word1);
    var b, S, mlo, mhi, k := ScaleForPrinting(cache, word0, word1, b0, be, bits, k0, kCheck, shift, g);
    ReadyIsShaped(b, S, mlo, mhi, g, k);
    ghost var v := Scaled(b.Value(), S.Value(), mlo.Value(), mhi.Value(), inclusive);
    var carried;
    n, carried := ShortestLoop(b, S, mlo, mhi, buf, inclusive, 17);
    ShortestOverReals(v, g, k, buf[..n], if carried then 1 else 0);
    decpt := if carried then k + 2 else k + 1;
    ClosestAnyway(word0, word1, inclusive, buf[..n], decpt);
  }

  /** dtoa for a positive finite double in modes 0 and 1, given the estimate of its logarithm. */
  method PrintShortest(cache: Pow5Cache, word0: Word, word1: Word, mode: int, k0: int)
    returns (buf: array<char>, n: nat, decpt: int)
    requires cache.Valid() && Significand(word0, word1) > 0 && (mode == 0 || mode == 1)
    requires GoodEstimate(DoubleValue(word0, word1), k0)
    modifies cache.Repr
    ensures cache.Valid() && fresh(cache.Repr - old(cache.Repr))
    ensures fresh(buf) && 1 <= n <= 17 < buf.Length && buf[n] == '\0'
    ensures PrintsShortest(TargetOf(word0, word1, mode != 1 && word1 % 2 == 0), buf[..n], decpt)
  {
    hide Val, Pow, RPow, Significand, UnitExp, DoubleValue, GoodEstimate, InDecade, PrintsShortest, HasBits,
         ShiftedBy, Pow5Cache.Valid, IsInteger, HalfGapBelow, HalfGapAbove;
    var b0, be, bits;
    ghost var shift;
    b0, be, bits, shift := SplitDouble(word0, word1);
    var k, kCheck := CheckEstimate(word0, word1, k0);
    IntegerByExponent(b0.Value(), be, shift, word0, word1);
    GapBelowValue(word0, word1);
    buf := new char[18];
    var inclusive := mode != 1 && word1 % 2 == 0;
    if be >= 0 && k <= INT_MAX {
      EstimateOfInteger(DoubleValue(word0, word1), k);
      n, decpt := PrintInteger(word0, word1, k, inclusive, buf);
    } else {
      n, decpt := PrintLong(cache, word0, word1, b0, be, bits, k, kCheck, inclusive, buf, shift);
    }
    ghost var digits := buf[..n];
    buf[n] := '\0';
    assert buf[..n] == digits;
  }
}
