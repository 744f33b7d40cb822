/** The loop of dtoa for integers below 10^15, whose arithmetic on doubles is exact. */
module SmallIntegers {
  import opened Powers
  import opened Words
  import opened BigInts
  import opened DoubleBits
  import opened DigitBuffer
  import opened DigitLoops
  import opened Shortest
  import opened Decimals
  import opened Minimal
  import opened Scaling
  import opened Dtoa
  import opened Printing

  const INT_MAX: int := 14

  // ----- Which doubles they are -----

  ghost predicate IsInteger(d: real)
  {
    d == d.Floor as real
  }

  /** The guard `be >= 0 && k <= Int_max`. */
  ghost predicate SmallInteger(d: real, k: int)
  {
    IsInteger(d) && k <= INT_MAX
  }

  /** The value of a double that is an integer. */
  function IntegerValue(word0: Word, word1: Word): nat
  {
    var u := UnitExp(word0);
    if u >= 0 then Significand(word0, word1) * Pow(2, u)
    else
      PowPositive(2, -u);
      FloorOf(Significand(word0, word1), Pow(2, -u));
      Significand(word0, word1) / Pow(2, -u)
  }

  lemma FloorOf(x: nat, p: nat)
    requires p > 0
    ensures x / p >= 0
  {
    DivSmaller(x, p);
  }

  lemma IntegerIs(x: nat, d: real)
    requires d == x as real
    ensures IsInteger(d) && d.Floor == x
  {
  }

  lemma EvenMultiple(x: nat, n: nat)
    requires n > 0
    ensures x * Pow(2, n) % 2 == 0
  {
    PowNext(2, n - 1);
    assert x * (2 * Pow(2, n - 1)) == 2 * (x * Pow(2, n - 1));
  }

  /** What is left when the power of two has been moved to the other side. */
  lemma Cleared(d: real, b: real, x: real, y: real)
    requires d == b * x && x * y == 1.0
    ensures d * y == b
  {
    assert d * y == b * (x * y);
  }

  /** A double is an integer exactly if be is not negative. */
  lemma IntegerByExponent(b: nat, be: int, shift: nat, word0: Word, word1: Word)
    requires ShiftedBy(b, shift, Significand(word0, word1)) && be == UnitExp(word0) + shift && b % 2 == 1
    ensures be >= 0 <==> IsInteger(DoubleValue(word0, word1))
    ensures be >= 0 ==> DoubleValue(word0, word1) == (b * Pow(2, be)) as real
  {
    var d := DoubleValue(word0, word1);
    hide Pow, RPow, Significand, UnitExp;
    MovedExponent(b, shift, Significand(word0, word1), UnitExp(word0));
    if be >= 0 {
      RPowNat(2, be);
      AsReal(b, Pow(2, be));
      IntegerIs(b * Pow(2, be), d);
    } else {
      var n: nat := -be;
      PowerCancels(be, n);
      Cleared(d, b as real, RPow(2, be), RPow(2, n));
      RPowNat(2, n);
      NotNegative(b, RPow(2, be));
      EvenMultiple(if d.Floor >= 0 then d.Floor else 0, n);
      OddHasNoHalf(b, d, Pow(2, n));
    }
  }

  /** If d times p is odd and p even, d is no integer. */
  lemma OddHasNoHalf(b: nat, d: real, p: nat)
    requires d * p as real == b as real && d >= 0.0 && b % 2 == 1 && (d.Floor * p) % 2 == 0
    ensures !IsInteger(d)
  {
    var n := d.Floor;
    AsReal(n, p);
    SameAsReals(n * p, b);
    assert d == n as real ==> (n * p) as real == b as real;
  }

  lemma SameAsReals(x: int, y: int)
    ensures x as real == y as real ==> x == y
  {
  }

  lemma NotNegative(b: nat, x: real)
    requires x > 0.0
    ensures b as real * x >= 0.0
  {
  }

  lemma PowerCancels(be: int, n: nat)
    requires be == -(n as int)
    ensures RPow(2, be) * RPow(2, n) == 1.0 && RPow(2, be) > 0.0
  {
    hide RPow;
    RPowAdd(2, be, n);
    RPowZero(2);
  }

  /** Below 10^15 the lowest bit of a double is worth less than one. */
  lemma FineUnit(word0: Word, word1: Word, k: int)
    requires InDecade(DoubleValue(word0, word1), k) && k <= INT_MAX
    ensures UnitExp(word0) < 0
  {
    hide RPow, Pow, InDecade, Significand;
    DecadeOf(DoubleValue(word0, word1), k);
    RPowMonotone(10, k + 1, 15);
    TenToFifteen();
    if UnitExp(word0) >= 0 {
      SignificandBounds(word0, word1);
      Pow2Constants();
      RPowMonotone(2, 0, UnitExp(word0));
      RPowZero(2);
      Large(Significand(word0, word1) as real, RPow(2, UnitExp(word0)));
      assert false;
    }
  }

  lemma Large(m: real, x: real)
    requires x >= 1.0 && m >= 4503599627370496.0
    ensures m * x >= 4503599627370496.0
  {
  }

  lemma DecadeOf(d: real, k: int)
    requires InDecade(d, k)
    ensures RPow(10, k) <= d < RPow(10, k + 1)
  {
  }

  lemma TenToFifteen()
    ensures RPow(10, 15) == 1000000000000000.0 && Pow(10, 15) == 1000000000000000
  {
    hide RPow;
    RPowNat(10, 15);
    Pow10Fifteen();
  }

  lemma Pow10Fifteen()
    ensures Pow(10, 15) == 1000000000000000
  {
    assert Pow(10, 5) == 100000;
    hide Pow;
    PowAdd(10, 5, 5);
    PowAdd(10, 10, 5);
  }

  // ----- The loop -----

  /** What n digits of d over 10^k keep, and what they leave, in units of the last place. */
  function Kept(d: nat, k: nat, n: nat): nat
    requires n >= 1
  {
    PowPositive(10, k);
    FloorOf(d * Pow(10, n - 1), Pow(10, k));
    d * Pow(10, n - 1) / Pow(10, k)
  }

  function Left(d: nat, k: nat, n: nat): nat
    requires n >= 1
  {
    PowPositive(10, k);
    d * Pow(10, n - 1) % Pow(10, k)
  }

  /** Exactly half a unit is left and the last digit is even. */
  ghost predicate EvenTie(d: nat, k: nat, n: nat)
    requires n >= 1
  {
    2 * Left(d, k, n) == Pow(10, k) && Kept(d, k, n) % 2 == 0
  }

  /** More than half a unit is left, or half a unit and the last digit is odd. */
  ghost predicate RoundsUp(d: nat, k: nat, n: nat)
    requires n >= 1
  {
    2 * Left(d, k, n) >= Pow(10, k) && !EvenTie(d, k, n)
  }

  ghost function ToEven(d: nat, k: nat, n: nat): nat
    requires n >= 1
  {
    Kept(d, k, n) + if RoundsUp(d, k, n) then 1 else 0
  }

  /** The digits write t / 10^(m - n); carried means that they are a one for 10^m. */
  ghost predicate Writes(digits: seq<char>, m: nat, carried: bool, t: nat)
  {
    && 1 <= |digits| <= m && Digits(digits) && digits[0] != '0'
    && (!carried ==> Number(digits) * Pow(10, m - |digits|) == t)
    && (carried ==> digits == "1" && t == Pow(10, m))
  }

  /** The last digit is a zero: nothing was added to it, and there was a remainder. */
  ghost predicate ZeroLast(d: nat, k: nat, m: nat)
    requires m >= 1
  {
    Left(d, k, m) > 0 && !RoundsUp(d, k, m) && Kept(d, k, m) % 10 == 0
  }

  lemma Divided(x: nat, s: nat, q: nat, r: nat)
    requires x == q * s + r && r < s
    ensures x / s == q && x % s == r
  {
    var d := x / s;
    assert x == d * s + x % s;
    AMultipleMore(q, d, s);
    AMultipleMore(d, q, s);
  }

  lemma AMultipleMore(x: int, y: int, s: nat)
    ensures x < y ==> x * s + s <= y * s
  {
    if x < y {
      MulMonotone(x + 1, y, s);
      assert (x + 1) * s == x * s + s;
    }
  }

  /** After i digits. */
  ghost predicate LoopAt(d0: nat, k: nat, i: nat, w: nat, r: nat)
  {
    i >= 1 && d0 * Pow(10, i - 1) == w * Pow(10, k) + r && r < Pow(10, k)
  }

  lemma LoopMeans(d0: nat, k: nat, i: nat, w: nat, r: nat)
    requires LoopAt(d0, k, i, w, r)
    ensures Kept(d0, k, i) == w && Left(d0, k, i) == r
  {
    hide Pow;
    Divided(d0 * Pow(10, i - 1), Pow(10, k), w, r);
  }

  /** Before digit i. */
  ghost predicate LoopBefore(d0: nat, k: nat, i: nat, w: nat, d: nat)
  {
    i >= 1 && d0 * Pow(10, i - 1) == 10 * w * Pow(10, k) + d && 0 < d < 10 * Pow(10, k)
  }

  /** A digit is taken off what is left. */
  lemma TakeOne(d0: nat, k: nat, i: nat, w: nat, d: nat, s: nat)
    requires s == Pow(10, k) && LoopBefore(d0, k, i, w, d)
    ensures 0 <= d / s <= 9 && LoopAt(d0, k, i, 10 * w + d / s, d % s)
  {
    hide Pow;
    PowPositive(10, k);
    var q, r := d / s, d % s;
    assert d == q * s + r;
    DigitInRange(d, s, q, r);
    assert (10 * w + q) * s == 10 * w * s + q * s;
  }

  lemma DigitInRange(d: nat, s: nat, q: int, r: nat)
    requires s > 0 && d == q * s + r && r < s && d < 10 * s
    ensures 0 <= q <= 9
  {
    if q < 0 {
      MulMonotone(q, -1, s);
    } else if q > 9 {
      MulMonotone(10, q, s);
    }
  }

  lemma NextOne(d0: nat, k: nat, i: nat, w: nat, r: nat, s: nat)
    requires LoopAt(d0, k, i, w, r) && s == Pow(10, k) && r > 0
    ensures LoopBefore(d0, k, i + 1, w, 10 * r)
  {
    PowNext(10, i - 1);
    hide Pow;
    TenTimesSum(d0, Pow(10, i - 1), w, s, r);
  }

  lemma TenTimesSum(x: int, p: int, w: int, s: int, r: int)
    requires x * p == w * s + r
    ensures x * (10 * p) == 10 * w * s + 10 * r
  {
    assert x * (10 * p) == 10 * (x * p);
    assert 10 * (w * s) == 10 * w * s;
  }

  /** With k + 1 digits nothing is left. */
  lemma AllDigits(d0: nat, k: nat, w: nat, r: nat)
    requires LoopAt(d0, k, k + 1, w, r)
    ensures r == 0
  {
    hide Pow;
    Divided(d0 * Pow(10, k), Pow(10, k), w, r);
    Divided(d0 * Pow(10, k), Pow(10, k), d0, 0);
  }

  /**
   * Dividing doubles that are integers in this range and dropping the fraction is exact: a quotient
   * is rounded to within 2^-50, and not below an integer that it is not below.
   */
  lemma QuotientIsExact(d: nat, s: nat, q: real)
    requires 0 < s <= 100000000000000 && d < 10 * s
    requires (d / s) as real <= q && q - d as real / s as real <= 1.0 / 1125899906842624.0
    ensures q.Floor == d / s
  {
    var n, r := d / s, d % s;
    assert d == n * s + r;
    var c := s as real;
    assert d as real == n as real * c + r as real by {
      AsReal(n, s);
    }
    var x := d as real / c;
    QuotientBelow(n as real, c, r as real, d as real, x);
    Fraction(c, r as real);
  }

  lemma QuotientBelow(n: real, c: real, r: real, d: real, x: real)
    requires c > 0.0 && d == n * c + r && x == d / c
    ensures x == n + r / c
  {
    assert (n + r / c) * c == n * c + r;
  }

  lemma Fraction(c: real, r: real)
    requires 1.0 <= c <= 100000000000000.0 && r <= c - 1.0
    ensures r / c <= 1.0 - 1.0 / 100000000000000.0
  {
    var x := r / c;
    var e := 1.0 / 100000000000000.0;
    assert x * c == r;
    assert e * c <= 1.0;
    ScaleLess(c, 1.0 - e, x);
  }

  /** The bump_up code: it puts a zero in front of the increment if there are only nines. */
  method BumpUp(buf: array<char>, n: nat) returns (m: nat, carried: bool)
    requires 1 <= n <= buf.Length && Digits(buf[..n]) && buf[0] != '0'
    modifies buf
    ensures 1 <= m <= n && Writes(buf[..m], n, carried, old(Number(buf[..n])) + 1) && buf[m - 1] != '0'
  {
    ghost var first := buf[0];
    m, carried := RoundOff(buf, n);
    if m > 1 {
      assert buf[0] == buf[..m - 1][0] == first;
    }
    if carried {
      assert buf[..m] == "1";
    }
  }

  /** What is done with the last digit. */
  lemma Verdict(d0: nat, k: nat, i: nat, w: nat, digit: nat, r: nat, s: nat)
    requires LoopAt(d0, k, i, 10 * w + digit, r) && s == Pow(10, k) && digit <= 9
    ensures RoundsUp(d0, k, i) <==> 2 * r > s || (2 * r == s && digit % 2 == 1)
    ensures ToEven(d0, k, i) == 10 * w + digit + if RoundsUp(d0, k, i) then 1 else 0
    ensures ZeroLast(d0, k, i) <==> r > 0 && !RoundsUp(d0, k, i) && digit == 0
    ensures Left(d0, k, i) == r
  {
    LoopMeans(d0, k, i, 10 * w + digit, r);
    PowPositive(10, k);
    hide Pow, Kept, Left, LoopAt;
    LastOfTen(w, digit);
  }

  lemma LastOfTen(w: nat, digit: nat)
    requires digit <= 9
    ensures (10 * w + digit) % 10 == digit && (10 * w + digit) % 2 == digit % 2
  {
  }

  lemma AsTheyAre(digits: seq<char>, t: nat)
    requires |digits| >= 1 && Digits(digits) && digits[0] != '0' && Number(digits) == t
    ensures Writes(digits, |digits|, false, t)
  {
    PowZero(10);
  }

  lemma LoopStart(d0: nat, k: nat, nothing: seq<char>)
    requires nothing == [] && Pow(10, k) <= d0 < 10 * Pow(10, k)
    ensures Digits(nothing) && Number(nothing) == 0 && d0 > 0 && LoopBefore(d0, k, 1, 0, d0)
  {
  }

  /** One digit more, which is not zero if nothing is left or if it is the first. */
  method NextDigit(buf: array<char>, i: nat, d: nat, ds: nat, ghost d0: nat, ghost k: nat, ghost w: nat)
    returns (digit: nat, r: nat)
    requires 1 <= i <= buf.Length && Digits(buf[..i - 1]) && Number(buf[..i - 1]) == w && (i > 1 ==> buf[0] != '0')
    requires ds == Pow(10, k) && LoopBefore(d0, k, i, w, d) && (i == 1 ==> d >= ds)
    modifies buf
    ensures digit <= 9 && LoopAt(d0, k, i, 10 * w + digit, r) && (r == 0 ==> digit > 0)
    ensures Digits(buf[..i]) && Number(buf[..i]) == 10 * w + digit && buf[i - 1] == Digit(digit) && buf[0] != '0'
  {
    hide Pow, LoopAt, Number;
    TakeOne(d0, k, i, w, d, ds);
    digit, r := d / ds, d % ds;
    assert d == digit * ds + r;
    Positive(d, ds, digit, r);
    ghost var front := buf[..i - 1];
    PutDigit(buf, i, digit);
    if i > 1 {
      assert buf[0] == buf[..i - 1][0] == front[0];
    }
  }

  lemma Positive(d: nat, s: nat, q: nat, r: nat)
    requires d == q * s + r && d > 0 && r < s
    ensures r == 0 ==> q > 0
    ensures d >= s ==> q > 0
  {
  }

  /** `for(i = 1;; i++, dval(d) *= 10.)`, m times; ilim is negative in modes 0 and 1. */
  method IntegerLoop(d0: nat, k: nat, ilim: int, buf: array<char>) returns (n: nat, carried: bool, ghost m: nat)
    requires Pow(10, k) <= d0 < 10 * Pow(10, k) && ilim != 0
    requires (if ilim > 0 then ilim else k + 1) <= buf.Length
    modifies buf
    ensures 1 <= m <= k + 1 && (ilim > 0 ==> m <= ilim) && (m == ilim || Left(d0, k, m) == 0)
    ensures 1 <= n <= buf.Length && n <= m && Writes(buf[..n], m, carried, ToEven(d0, k, m))
    ensures buf[n - 1] == '0' <==> ZeroLast(d0, k, m)
  {
    PowPositive(10, k);
    LoopStart(d0, k, buf[..0]);
    hide Pow, Kept, Left, LoopAt, LoopBefore, Number, RoundsUp, ToEven, ZeroLast, Writes;
    var ds, d, i := Pow(10, k), d0, 1;
    ghost var w := 0;
    while true
      invariant 1 <= i <= k + 1 && (ilim > 0 ==> i <= ilim)
      invariant Digits(buf[..i - 1]) && Number(buf[..i - 1]) == w && (i > 1 ==> buf[0] != '0')
      invariant LoopBefore(d0, k, i, w, d) && (i == 1 ==> d == d0)
      decreases k + 1 - i
    {
      var L;
      L, d := NextDigit(buf, i, d, ds, d0, k, w);
      Verdict(d0, k, i, w, L, d, ds);
      AsTheyAre(buf[..i], 10 * w + L);
      if d == 0 {
        return i, false, i;
      }
      if i == ilim {
        m := i;
        if d + d > ds || (d + d == ds && L % 2 == 1) {
          n, carried := BumpUp(buf, i);
        } else {
          n, carried := i, false;
        }
        return;
      }
      if i == k + 1 {
        AllDigits(d0, k, 10 * w + L, d);
      }
      NextOne(d0, k, i, 10 * w + L, d, ds);
      w := 10 * w + L;
      d := d * 10;
      i := i + 1;
    }
  }

  // ----- What is printed -----

  /** The exact value of the guard's double, and its decade. */
  lemma ValueOf(word0: Word, word1: Word, k: int)
    requires SmallInteger(DoubleValue(word0, word1), k) && InDecade(DoubleValue(word0, word1), k)
    requires Significand(word0, word1) > 0
    ensures k >= 0 && DoubleValue(word0, word1) == IntegerValue(word0, word1) as real
    ensures Pow(10, k) <= IntegerValue(word0, word1) < 10 * Pow(10, k)
  {
    hide Pow, RPow, Significand, UnitExp, DoubleValue, IntegerValue;
    var d := DoubleValue(word0, word1);
    FineUnit(word0, word1, k);
    AtLeastOne(d, k);
    QuotientOf(word0, word1);
    RPowNat(10, k);
    RPowNat(10, k + 1);
    PowNext(10, k);
    WithinDecade(d, d.Floor, Pow(10, k));
  }

  lemma QuotientOf(word0: Word, word1: Word)
    requires UnitExp(word0) < 0 && IsInteger(DoubleValue(word0, word1)) && DoubleValue(word0, word1).Floor >= 0
    ensures IntegerValue(word0, word1) == DoubleValue(word0, word1).Floor
  {
    hide Pow, RPow, Significand, UnitExp;
    var n: nat := -UnitExp(word0);
    PowerCancels(UnitExp(word0), n);
    RPowNat(2, n);
    PowPositive(2, n);
    WholeQuotient(DoubleValue(word0, word1), Significand(word0, word1), RPow(2, UnitExp(word0)), Pow(2, n));
  }

  lemma WithinDecade(d: real, x: nat, p: nat)
    requires d == x as real && p as real <= d < (10 * p) as real
    ensures p <= x < 10 * p
  {
  }

  /** m / y, written with the inverse x of y, is an integer. */
  lemma WholeQuotient(d: real, m: nat, x: real, y: nat)
    requires d == m as real * x && x * y as real == 1.0 && y > 0 && IsInteger(d) && d.Floor >= 0
    ensures m / y == d.Floor
  {
    Cleared(d, m as real, x, y as real);
    AsReal(d.Floor, y);
    SameAsReals(d.Floor * y, m);
    Divided(m, y, d.Floor, 0);
  }

  /** A positive integer is at least one, so it lies in no decade below. */
  lemma AtLeastOne(d: real, k: int)
    requires IsInteger(d) && InDecade(d, k)
    ensures d.Floor >= 1 && k >= 0
  {
    hide RPow;
    PositiveDecade(k);
    if k < 0 {
      RPowMonotone(10, k + 1, 0);
      RPowZero(10);
      assert false;
    }
  }

  lemma PositiveDecade(k: int)
    ensures RPow(10, k) > 0.0
  {
  }

  /** The digits stand for t units of the place after m digits. */
  lemma WrittenValue(digits: seq<char>, m: nat, carried: bool, t: nat, k: int)
    requires Writes(digits, m, carried, t)
    ensures Printed(digits, if carried then k + 2 else k + 1) == Decimal(t, k - m + 1)
  {
    hide RPow, Pow;
    if carried {
      PrintedScaled(digits, k, 1);
      OneAndTen(k);
      PowerDecimal(m, k - m + 1);
      assert k - m + 1 + m == k + 1;
    } else {
      Trimmed(Number(digits), k, m, |digits|);
    }
  }

  /** Digits and zeros behind them. */
  lemma Trimmed(w: nat, k: int, n: nat, m: nat)
    requires m <= n
    ensures Decimal(w, k + 1 - m) == Decimal(w * Pow(10, n - m), k - n + 1)
  {
    hide RPow, Pow;
    RPowAdd(10, n - m, k - n + 1);
    RPowNat(10, n - m);
    assert n - m + (k - n + 1) == k + 1 - m;
    AsReal(w, Pow(10, n - m));
    RAssoc(w as real, Pow(10, n - m) as real, RPow(10, k - n + 1));
  }

  /** If nothing is left the digits are the number. */
  lemma ExactValue(d: nat, k: nat, m: nat)
    requires m >= 1 && Left(d, k, m) == 0
    ensures ToEven(d, k, m) == Kept(d, k, m) && Decimal(Kept(d, k, m), k - m + 1) == d as real
  {
    hide RPow, Pow, Kept, Left, RoundsUp;
    PowPositive(10, k);
    RPowNat(10, k);
    PowSplit(k, m);
    NothingLeft(d, k, m, Pow(10, k));
    ExactAt(d, Pow(10, m - 1), Pow(10, k), Kept(d, k, m), RPow(10, k - m + 1));
  }

  lemma NothingLeft(d: nat, k: nat, m: nat, s: nat)
    requires m >= 1 && Left(d, k, m) == 0 && s == Pow(10, k) && s > 0
    ensures d * Pow(10, m - 1) / s == Kept(d, k, m) && d * Pow(10, m - 1) % s == 0
    ensures !RoundsUp(d, k, m)
  {
    PowPositive(10, k);
  }

  lemma ExactAt(d: nat, p: nat, s: nat, q: nat, u: real)
    requires s > 0 && p > 0 && d * p / s == q && d * p % s == 0 && u * p as real == s as real
    ensures q as real * u == d as real
  {
    assert d * p == q * s;
    AsReal(d, p);
    AsReal(q, s);
    ExactReals(q as real, u, p as real, s as real, d as real);
  }

  lemma ExactReals(q: real, u: real, p: real, s: real, d: real)
    requires p > 0.0 && u * p == s && d * p == q * s
    ensures q * u == d
  {
    assert q * s == (q * u) * p;
    ScaleLess(p, q * u, d);
  }
}
