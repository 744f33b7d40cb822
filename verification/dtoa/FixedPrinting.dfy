/** dtoa in modes 2 and 3: a given number of significant digits, or of places after the point. */
module FixedPrinting {
  import opened Powers
  import opened Words
  import opened BigInts
  import opened Kernel
  import opened QuoRems
  import opened PowersOfFive
  import opened DoubleBits
  import opened DigitBuffer
  import opened Shortest
  import opened DigitLoops
  import opened Decimals
  import opened Minimal
  import opened Scaling
  import opened Dtoa
  import opened Printing
  import opened SmallIntegers
  import opened ShortestPrinting

  /** x is d rounded to a multiple of 10^e, halves going up. */
  ghost predicate RoundsTo(d: real, e: int, x: real)
  {
    && (exists t: nat :: x == Decimal(t, e))
    && x - RPow(10, e) / 2.0 <= d < x + RPow(10, e) / 2.0
  }

  /** The digits are d rounded at 10^e; a zero is written as one digit. */
  ghost predicate PrintsRounded(d: real, e: int, digits: seq<char>, decpt: int)
  {
    && Digits(digits) && (WellWritten(digits) || (digits == "0" && decpt == 1))
    && RoundsTo(d, e, Printed(digits, decpt))
  }

  // ----- Scaling without mlo and mhi -----

  method FixedExponents(word0: Word, word1: Word, b0: Bigint, be: int, bits: int, k: int, ghost shift: nat)
    returns (b2: nat, b5: nat, s2: nat, s5: nat)
    requires Split(b0, be, bits, shift, word0, word1)
    ensures b2 - s2 == UnitExp(word0) + shift - k && b5 - s5 == -k
  {
    hide Val, Pow, Significand, UnitExp, HasBits, ShiftedBy;
    var m2;
    BitsPositive(b0.Value(), bits);
    b2, b5, s2, s5, m2 := Exponents(word0, be, bits, k, false, shift);
  }

  method FactorsFixed(cache: Pow5Cache, b0: Bigint, b20: nat, b5: nat, s20: nat, s5: nat)
    returns (b: Bigint, S: Bigint, b2: nat, s2: nat)
    requires cache.Valid() && Good(b0) && b0.Value() > 0 && b0.Repr() !! cache.Repr
    modifies cache.Repr, b0, b0.x
    ensures cache.Valid() && fresh(cache.Repr - old(cache.Repr))
    ensures Good(b) && Good(S) && Aligned(S) && b2 - s2 == b20 - s20
    ensures b.Value() == Times(old(b0.Value()), b5, b2) > 0 && S.Value() == Times(1, s5, s2) > 0
    ensures b.Repr() !! S.Repr() && b.Repr() !! cache.Repr && S.Repr() !! cache.Repr
    ensures b == b0 || fresh(b.Repr())
    ensures fresh(S.Repr())
  {
    hide Val, Pow, Aligned, Pow5Cache.Valid;
    PowPositive(5, b5);
    PowPositive(5, s5);
    PowZero(5);
    MulMonotone(1, b0.Value(), Pow(5, b5));
    var b1 := b0;
    if b5 > 0 {
      b1 := cache.Pow5Mult(b0, b5);
    }
    var S1 := FivePower(cache, s5);
    var t;
    b, S, t := AlignAndShift(b1, S1, b20, s20, s5);
    b2, s2 := b20 + t, s20 + t;
    PositiveShift(b1.Value(), b2);
    PositiveShift(S1.Value(), s2);
  }

  lemma ScaleFixedFacts(word0: Word, word1: Word, c: nat, shift: nat, k: int, b2: nat, b5: nat, s2: nat, s5: nat,
                        bv: nat, sv: nat)
    requires ShiftedBy(c, shift, Significand(word0, word1))
    requires b2 - s2 == UnitExp(word0) + shift - k && b5 - s5 == -k
    requires bv == Times(c, b5, b2) && sv == Times(1, s5, s2)
    ensures Ratio(sv, DoubleValue(word0, word1), bv, k)
  {
    hide Pow, RPow, Significand, UnitExp, ShiftedBy;
    MovedExponent(c, shift, Significand(word0, word1), UnitExp(word0));
    Commute3(c, Pow(5, b5), Pow(2, b2));
    Commute3(1, Pow(5, s5), Pow(2, s2));
    ScaledQuotient(c, b2, b5, s2, s5, UnitExp(word0) + shift, k, bv, sv);
  }

  method PrepareFixed(cache: Pow5Cache, word0: Word, word1: Word, b0: Bigint, be: int, bits: int, k: int, ghost shift: nat)
    returns (b: Bigint, S: Bigint)
    requires cache.Valid() && Split(b0, be, bits, shift, word0, word1) && b0.Repr() !! cache.Repr
    modifies cache.Repr, b0, b0.x
    ensures cache.Valid() && fresh(cache.Repr - old(cache.Repr))
    ensures Prepared(b, S, DoubleValue(word0, word1), k)
    ensures b == b0 || fresh(b.Repr())
    ensures fresh(S.Repr()) && b.Repr() !! cache.Repr && S.Repr() !! cache.Repr
  {
    hide Val, Pow, RPow, Aligned, Pow5Cache.Valid, Significand, UnitExp, ShiftedBy, DoubleValue, Times, Ratio, HasBits;
    var b2, b5, s2, s5 := FixedExponents(word0, word1, b0, be, bits, k, shift);
    ghost var c := b0.Value();
    b, S, b2, s2 := FactorsFixed(cache, b0, b2, b5, s2, s5);
    ScaleFixedFacts(word0, word1, c, shift, k, b2, b5, s2, s5, b.Value(), S.Value());
  }

  /** The k_check, with `ilim = ilim1` when the estimate was too large. */
  method CorrectFixed(b0: Bigint, S: Bigint, k0: int, kCheck: bool, ilim0: int, ilim1: int, ghost d: real)
    returns (b: Bigint, k: int, ilim: int)
    requires Prepared(b0, S, d, k0) && GoodEstimate(d, k0) && (!kCheck ==> InDecade(d, k0))
    modifies b0, b0.x
    ensures Prepared(b, S, d, k) && InDecade(d, k)
    ensures S.Value() <= b.Value() < 10 * S.Value()
    ensures (k == k0 && ilim == ilim0) || (k == k0 - 1 && ilim == ilim1)
    ensures b == b0 || fresh(b.Repr())
  {
    hide Val, RPow, Aligned, Ratio;
    b, k, ilim := b0, k0, ilim0;
    ghost var s, bv := S.Value(), b.Value();
    EstimateTooLarge(bv, s, d, k0);
    if kCheck {
      PositiveHasWords(S);
      var c := Cmp(b, S);
      if c < 0 {
        k, ilim := k - 1, ilim1;
        TenDown(s, d, bv, k0);
        b := MultAdd(b, 10, 0);
        assert k0 - 1 + 1 == k0;
      }
    }
  }

  /** ScaleDouble for the modes without mlo and mhi. */
  method ScaleFixed(cache: Pow5Cache, word0: Word, word1: Word, b0: Bigint, be: int, bits: int, k0: int, kCheck: bool,
                    ilim0: int, ilim1: int, ghost shift: nat)
    returns (b: Bigint, S: Bigint, k: int, ilim: int)
    requires cache.Valid() && Split(b0, be, bits, shift, word0, word1) && b0.Repr() !! cache.Repr
    requires GoodEstimate(DoubleValue(word0, word1), k0) && (!kCheck ==> InDecade(DoubleValue(word0, word1), k0))
    modifies cache.Repr, b0, b0.x
    ensures cache.Valid() && fresh(cache.Repr - old(cache.Repr))
    ensures Prepared(b, S, DoubleValue(word0, word1), k) && InDecade(DoubleValue(word0, word1), k)
    ensures S.Value() <= b.Value() < 10 * S.Value()
    ensures (k == k0 && ilim == ilim0) || (k == k0 - 1 && ilim == ilim1)
    ensures b == b0 || fresh(b.Repr())
    ensures fresh(S.Repr()) && b.Repr() !! cache.Repr && S.Repr() !! cache.Repr
  {
    hide Val, Pow, RPow, Aligned, Significand, Ratio, DoubleValue, GoodEstimate, InDecade, Prepared, Pow5Cache.Valid, Split;
    ghost var d := DoubleValue(word0, word1);
    b, S := PrepareFixed(cache, word0, word1, b0, be, bits, k0, shift);
    PreparedApart(b, S, d, k0);
    b, k, ilim := CorrectFixed(b, S, k0, kCheck, ilim0, ilim1, d);
  }

  // ----- What the digits mean -----

  lemma BetweenReals(c: real, t: real, x: real, h: real, d: real, ws: real, sh: real, bp: real)
    requires c > 0.0 && t > 0.0 && c * x == ws * t && c * h == sh * t && c * d == bp * t
    ensures x - h <= d < x + h <==> ws - sh <= bp < ws + sh
  {
    assert c * (x - h) == c * x - c * h == (ws - sh) * t;
    assert c * (x + h) == c * x + c * h == (ws + sh) * t;
    CrossOrder(c, t, d, x - h, bp, ws - sh);
    CrossOrder(c, t, d, x + h, bp, ws + sh);
  }

  lemma HalfUnit(s: real, p: real, u: real, t: real)
    requires u * p == t
    ensures (s * p) * (u / 2.0) == (s / 2.0) * t
  {
    var h := u / 2.0;
    assert u == 2.0 * h;
    assert (s * p) * h == s * (h * p);
    assert t == 2.0 * (h * p);
  }

  lemma RoundedReals(s: nat, p: nat, t: real, u: real, d: real, b: nat, w: nat)
    requires s > 0 && p > 0 && t > 0.0 && u * p as real == t && s as real * d == b as real * t
    ensures (w as real * u - u / 2.0 <= d < w as real * u + u / 2.0)
      <==> (2 * (w * s) <= 2 * (b * p) + s && 2 * (b * p) < 2 * (w * s) + s)
  {
    ProductPositive(s as real, p as real);
    DecimalAt(s, p, w, u, t, s as real * p as real, w as real * u);
    PartAt(s, p, d, b, t, s as real * p as real);
    HalfUnit(s as real, p as real, u, t);
    HalvesOfIntegers(w * s, b * p, s);
    BetweenReals(s as real * p as real, t, w as real * u, u / 2.0, d, (w * s) as real, s as real / 2.0, (b * p) as real);
  }

  lemma HalvesOfIntegers(x: nat, y: nat, s: nat)
    ensures x as real - s as real / 2.0 <= y as real < x as real + s as real / 2.0 <==> 2 * x <= 2 * y + s && 2 * y < 2 * x + s
  {
    var a, b, c := x as real, y as real, s as real;
    assert 2.0 * a == (2 * x) as real && 2.0 * b + c == (2 * y + s) as real;
    assert 2.0 * b == (2 * y) as real && 2.0 * a + c == (2 * x + s) as real;
    assert a - c / 2.0 <= b <==> 2.0 * a <= 2.0 * b + c;
    assert b < a + c / 2.0 <==> 2.0 * b < 2.0 * a + c;
  }

  lemma RoundedAt(v: Scaled, d: real, k: int, n: nat, w: nat)
    requires n >= 1 && v.s > 0 && Ratio(v.s, d, v.b, k)
    ensures RoundsTo(d, k - n + 1, Decimal(w, k - n + 1)) <==> IsRounded(v.b, v.s, n, w)
  {
    hide RPow, Pow;
    PowSplit(k, n);
    RoundedReals(v.s, Pow(10, n - 1), RPow(10, k), RPow(10, k - n + 1), d, v.b, w);
  }

  lemma FixedOverReals(v: Scaled, d: real, k: int, n: nat, digits: seq<char>, shift: nat)
    requires n >= 1 && v.s > 0 && Ratio(v.s, d, v.b, k) && IsFixed(v, n, digits, shift)
    ensures PrintsRounded(d, k - n + 1, digits, k + 1 + shift)
  {
    var m := |digits|;
    var w := if shift == 0 then Number(digits) * Pow(10, n - m) else Pow(10, n);
    RoundedAt(v, d, k, n, w);
    if shift == 0 {
      Trimmed(Number(digits), k, n, m);
    } else {
      PrintedScaled(digits, k, 1);
      OneAndTen(k);
      hide RPow, Pow, IsRounded, Ratio, RoundsTo;
      PowerDecimal(n, k - n + 1);
      assert k - n + 1 + n == k + 1 && k - m + 1 == k;
    }
  }

  // ----- No digits at all -----

  lemma Tenth(e: int)
    ensures RPow(10, e) == RPow(10, e + 1) / 10.0
  {
    RPowStep(10, e);
  }

  /** With ilim < 0 the double is below a tenth of the last place, with ilim == 0 below the place itself. */
  lemma BelowHalfUnit(d: real, k: int, e: int)
    requires InDecade(d, k) && k + 1 <= e
    requires k + 1 < e || d < 5.0 * RPow(10, k)
    ensures d < RPow(10, e) / 2.0
  {
    if k + 1 < e {
      RPowMonotone(10, k + 1, e - 1);
      Tenth(e - 1);
      assert e - 1 + 1 == e;
    } else {
      Tenth(k);
    }
    hide RPow;
  }

  lemma PrintedZero(digits: seq<char>, decpt: int)
    requires digits == "0"
    ensures Digits(digits) && Printed(digits, decpt) == 0.0
  {
    hide RPow, Number, Decimal;
    assert digits == [] + [Digit(0)];
    NumberOfNothing([]);
    NumberPush([], Digit(0));
    ZeroDecimal(decpt - |digits|);
  }

  lemma RoundsToZero(d: real, e: int)
    requires 0.0 < d < RPow(10, e) / 2.0
    ensures RoundsTo(d, e, 0.0)
  {
    hide RPow;
    assert 0.0 == Decimal(0, e);
  }

  lemma NoDigits(d: real, k: int, e: int)
    requires d > 0.0 && InDecade(d, k) && k + 1 <= e
    requires k + 1 < e || d < 5.0 * RPow(10, k)
    ensures PrintsRounded(d, e, "0", 1)
  {
    hide RPow, Printed, RoundsTo, InDecade;
    BelowHalfUnit(d, k, e);
    PrintedZero("0", 1);
    RoundsToZero(d, e);
  }

  lemma OneDigit(d: real, k: int)
    requires InDecade(d, k) && d >= 5.0 * RPow(10, k)
    ensures PrintsRounded(d, k + 1, "1", k + 2)
  {
    NumberPush([], Digit(1));
    assert "1" == [] + [Digit(1)];
    OneAndTen(k + 1);
    Tenth(k);
    hide RPow;
    assert k + 2 - 1 == k + 1;
    assert Printed("1", k + 2) == Decimal(1, k + 1) == RPow(10, k + 1);
  }

  lemma FiveTimes(b: nat, s: nat, d: real, k: int)
    requires s > 0 && Ratio(s, d, b, k)
    ensures b < 5 * s <==> d < 5.0 * RPow(10, k)
  {
    var rs, t := s as real, RPow(10, k);
    hide RPow;
    assert rs * (5.0 * t) == (5.0 * rs) * t;
    CrossOrder(rs, t, d, 5.0 * t, b as real, 5.0 * rs);
  }

  /** The exponent of the last place asked for. */
  function LastPlace(mode: int, ndigits: int, k: int): int
  {
    if mode == 2 then k + 1 - (if ndigits <= 0 then 1 else ndigits) else -ndigits
  }

  /** `if (ilim <= 0 && mode == 3) ...`: one digit or none. */
  method PrintNothing(b: Bigint, S: Bigint, buf: array<char>, k0: int, ilim: int, ghost d: real)
    returns (decpt: int)
    requires Prepared(b, S, d, k0) && InDecade(d, k0) && d > 0.0 && ilim <= 0 && buf.Length >= 1
    modifies S, S.x, buf
    ensures PrintsRounded(d, k0 + 1 - ilim, buf[..1], decpt)
  {
    hide Val, RPow, Aligned, Ratio, PrintsRounded, InDecade;
    ghost var bv, sv := b.Value(), S.Value();
    FiveTimes(bv, sv, d, k0);
    var none := ilim < 0;
    if !none {
      var S5 := MultAdd(S, 5, 0);
      PositiveHasWords(b);
      var c := Cmp(b, S5);
      none := c < 0;
    }
    if none {
      buf[0] := '0';
      assert buf[..1] == "0";
      NoDigits(d, k0, k0 + 1 - ilim);
      decpt := 1;
    } else {
      buf[0] := '1';
      assert buf[..1] == "1";
      OneDigit(d, k0);
      decpt := k0 + 2;
    }
  }

  // ----- Integers below 10^15 -----

  /** t units of 10^e and a half. */
  ghost predicate HalfAbove(d: real, t: nat, e: int)
  {
    d == Decimal(t, e) + RPow(10, e) / 2.0
  }

  /** More than t units, by half a unit at most. */
  ghost predicate BarelyAbove(d: real, t: nat, e: int)
  {
    Decimal(t, e) < d <= Decimal(t, e) + RPow(10, e) / 2.0
  }

  /** d lies half-way above an even multiple of 10^e. */
  ghost predicate HalfOverEven(d: real, e: int)
  {
    exists t: nat :: t % 2 == 0 && HalfAbove(d, t, e)
  }

  /** d is no multiple of 10^e, and its digit there is a zero to which nothing is added. */
  ghost predicate ZeroKept(d: real, e: int)
  {
    exists t: nat :: t % 10 == 0 && BarelyAbove(d, t, e)
  }

  lemma Between(x: nat, s: nat, q: nat, r: nat, t: nat)
    requires x == q * s + r && r < s
    ensures 2 * x == 2 * (t * s) + s <==> t == q && 2 * r == s
    ensures t * s < x && 2 * x <= 2 * (t * s) + s <==> t == q && 0 < r && 2 * r <= s
  {
    AMultipleMore(t, q, s);
    AMultipleMore(q, t, s);
  }

  lemma HalvesScaled(d: real, p: real, s: real, u: real, t: real)
    requires p > 0.0 && u * p == s
    ensures d == t * u + u / 2.0 <==> 2.0 * (d * p) == 2.0 * (t * s) + s
    ensures t * u < d <==> t * s < d * p
    ensures d <= t * u + u / 2.0 <==> 2.0 * (d * p) <= 2.0 * (t * s) + s
  {
    var h := u / 2.0;
    assert (t * u) * p == t * s;
    assert u == 2.0 * h && 2.0 * (h * p) == s;
    assert (t * u + h) * p == t * s + h * p;
    ScaleLess(p, t * u, d);
    ScaleLess(p, d, t * u + h);
  }

  lemma HalvesOver(d: nat, p: nat, s: nat, u: real, t: nat)
    requires p > 0 && u * p as real == s as real
    ensures d as real == t as real * u + u / 2.0 <==> 2 * (d * p) == 2 * (t * s) + s
    ensures t as real * u < d as real <==> t * s < d * p
    ensures d as real <= t as real * u + u / 2.0 <==> 2 * (d * p) <= 2 * (t * s) + s
  {
    HalvesScaled(d as real, p as real, s as real, u, t as real);
    AsReal(d, p);
    AsReal(t, s);
    TwiceAndOne(d * p, t * s, s);
  }

  lemma TwiceAndOne(x: int, y: int, s: int)
    ensures 2.0 * x as real <= 2.0 * y as real + s as real <==> 2 * x <= 2 * y + s
    ensures 2.0 * x as real == 2.0 * y as real + s as real <==> 2 * x == 2 * y + s
    ensures y as real < x as real <==> y < x
  {
    assert 2.0 * x as real == (2 * x) as real && 2.0 * y as real + s as real == (2 * y + s) as real;
  }

  lemma PlaceOf(d: nat, k: nat, n: nat, t: nat)
    requires n >= 1
    ensures HalfAbove(d as real, t, k - n + 1) <==> t == Kept(d, k, n) && 2 * Left(d, k, n) == Pow(10, k)
    ensures BarelyAbove(d as real, t, k - n + 1)
       <==> t == Kept(d, k, n) && 0 < Left(d, k, n) && 2 * Left(d, k, n) <= Pow(10, k)
  {
    hide RPow, Pow, Kept, Left;
    PowPositive(10, k);
    PowSplit(k, n);
    RPowNat(10, k);
    KeptAndLeft(d, k, n, Pow(10, k), Pow(10, n - 1));
    PlaceAt(d, Pow(10, n - 1), Pow(10, k), Kept(d, k, n), Left(d, k, n), RPow(10, k - n + 1), t);
  }

  lemma PlaceAt(d: nat, p: nat, s: nat, q: nat, r: nat, u: real, t: nat)
    requires d * p == q * s + r && r < s && p > 0 && u * p as real == s as real
    ensures d as real == t as real * u + u / 2.0 <==> t == q && 2 * r == s
    ensures t as real * u < d as real <= t as real * u + u / 2.0 <==> t == q && 0 < r && 2 * r <= s
  {
    Between(d * p, s, q, r, t);
    HalvesOver(d, p, s, u, t);
  }

  lemma KeptAndLeft(d: nat, k: nat, n: nat, s: nat, p: nat)
    requires n >= 1 && s == Pow(10, k) && p == Pow(10, n - 1)
    ensures d * p == Kept(d, k, n) * s + Left(d, k, n) && Left(d, k, n) < s
  {
    PowPositive(10, k);
    hide Pow;
    var x := d * p;
    assert x == x / s * s + x % s;
  }

  /** The two exceptions, on integers and on reals. */
  lemma ExceptionsAre(d: nat, k: nat, n: nat)
    requires n >= 1
    ensures HalfOverEven(d as real, k - n + 1) <==> EvenTie(d, k, n)
    ensures ZeroKept(d as real, k - n + 1) <==> ZeroLast(d, k, n)
  {
    hide RPow, Pow, Kept, Left, HalfAbove, BarelyAbove;
    var x, e := d as real, k - n + 1;
    forall t: nat
      ensures HalfAbove(x, t, e) ==> t == Kept(d, k, n) && 2 * Left(d, k, n) == Pow(10, k)
    {
      PlaceOf(d, k, n, t);
    }
    forall t: nat
      ensures BarelyAbove(x, t, e)
          ==> t == Kept(d, k, n) && 0 < Left(d, k, n) && 2 * Left(d, k, n) <= Pow(10, k)
    {
      PlaceOf(d, k, n, t);
    }
    PlaceOf(d, k, n, Kept(d, k, n));
  }

  lemma RoundedParts(q: nat, r: nat, s: nat, x: nat, t: nat, up: bool)
    requires x == q * s + r && r < s && t == q + if up then 1 else 0
    ensures 2 * (t * s) <= 2 * x + s && 2 * x < 2 * (t * s) + s <==> if up then 2 * r >= s else 2 * r < s
  {
    assert (q + 1) * s == q * s + s;
  }

  /** What the loop writes is d rounded with halves up, except that half-way above an even multiple it stays there. */
  lemma RoundedInteger(d: nat, k: nat, n: nat)
    requires n >= 1
    ensures RoundsTo(d as real, k - n + 1, Decimal(ToEven(d, k, n), k - n + 1)) <==> !EvenTie(d, k, n)
    ensures EvenTie(d, k, n) ==> Decimal(ToEven(d, k, n), k - n + 1) + RPow(10, k - n + 1) / 2.0 == d as real
  {
    var s, p := Pow(10, k), Pow(10, n - 1);
    RPowNat(10, k);
    PowPositive(10, k);
    KeptAndLeft(d, k, n, s, p);
    RoundedParts(Kept(d, k, n), Left(d, k, n), s, d * p, ToEven(d, k, n), RoundsUp(d, k, n));
    PlaceOf(d, k, n, Kept(d, k, n));
    hide RPow, Pow, Kept, Left, RoundsTo;
    RoundedAt(Scaled(d, s, 1, 1, true), d as real, k, n, ToEven(d, k, n));
  }

  /** If the loop ends early, it has written what it would have written with zeros to the end. */
  lemma EndsEarly(d: nat, k: nat, m: nat, n: nat)
    requires 1 <= m <= n && (m == n || Left(d, k, m) == 0)
    ensures Decimal(ToEven(d, k, m), k - m + 1) == Decimal(ToEven(d, k, n), k - n + 1)
    ensures ZeroLast(d, k, m) <==> ZeroLast(d, k, n)
  {
    if m < n {
      PowPositive(10, k);
      PowAdd(10, m - 1, n - m);
      KeptAndLeft(d, k, m, Pow(10, k), Pow(10, m - 1));
      hide RPow, Pow;
      assert m - 1 + (n - m) == n - 1;
      ExactArith(d, Pow(10, m - 1), Pow(10, n - m), Kept(d, k, m), Pow(10, k));
      Divided(d * Pow(10, n - 1), Pow(10, k), Kept(d, k, m) * Pow(10, n - m), 0);
      Trimmed(Kept(d, k, m), k, n, m);
      assert k + 1 - m == k - m + 1;
    }
  }

  // ----- Modes 2 and 3 -----

  /** When the branch for small integers rounds to even, and when it leaves a zero at the end. */
  ghost predicate RoundsToEven(d: real, k: int, e: int)
  {
    SmallInteger(d, k) && e <= k && HalfOverEven(d, e)
  }

  ghost predicate LeavesZero(d: real, k: int, e: int)
  {
    SmallInteger(d, k) && e <= k && ZeroKept(d, e)
  }

  /** What the digits are, exactly: d rounded at 10^e with halves going up, but for the two exceptions. */
  ghost predicate PrintsFixed(d: real, k: int, e: int, digits: seq<char>, decpt: int)
  {
    && Digits(digits) && |digits| >= 1 && (digits[0] != '0' || (digits == "0" && decpt == 1))
    && (RoundsTo(d, e, Printed(digits, decpt)) <==> !RoundsToEven(d, k, e))
    && (RoundsToEven(d, k, e) ==> Printed(digits, decpt) + RPow(10, e) / 2.0 == d)
    && (digits != "0" && digits[|digits| - 1] == '0' <==> LeavesZero(d, k, e))
  }

  /** The double is rounded with halves going up and written without trailing zeros exactly outside both exceptions. */
  lemma WhenRounded(d: real, k: int, e: int, digits: seq<char>, decpt: int)
    requires PrintsFixed(d, k, e, digits, decpt)
    ensures PrintsRounded(d, e, digits, decpt) <==> !RoundsToEven(d, k, e) && !LeavesZero(d, k, e)
  {
    hide RoundsTo, RoundsToEven, LeavesZero, RPow, Number;
  }

  lemma NoException(d: real, k: int, e: int, digits: seq<char>, decpt: int)
    requires PrintsRounded(d, e, digits, decpt) && (e > k || !SmallInteger(d, k))
    ensures PrintsFixed(d, k, e, digits, decpt)
  {
    hide RoundsTo, SmallInteger, HalfOverEven, ZeroKept, Printed;
  }

  lemma IntegerDigits(d: real, d0: nat, k: nat, m: nat, n: nat, digits: seq<char>, carried: bool)
    requires d == d0 as real && k <= INT_MAX && 1 <= m <= n && (m == n || Left(d0, k, m) == 0)
    requires Writes(digits, m, carried, ToEven(d0, k, m))
    requires digits[|digits| - 1] == '0' <==> ZeroLast(d0, k, m)
    ensures PrintsFixed(d, k, k - n + 1, digits, if carried then k + 2 else k + 1)
  {
    WrittenValue(digits, m, carried, ToEven(d0, k, m), k);
    EndsEarly(d0, k, m, n);
    RoundedInteger(d0, k, n);
    ExceptionsAre(d0, k, n);
    IntegerIs(d0, d);
    hide RPow, Pow, ToEven, EvenTie, ZeroLast, RoundsTo, HalfOverEven, ZeroKept, Printed, Decimal, Number;
  }

  /** The branch for small integers. */
  method FixInteger(word0: Word, word1: Word, k: int, ilim: int, buf: array<char>) returns (n: nat, decpt: int)
    requires Significand(word0, word1) > 0 && 1 <= buf.Length && ilim <= buf.Length
    requires SmallInteger(DoubleValue(word0, word1), k) && InDecade(DoubleValue(word0, word1), k)
    modifies buf
    ensures 1 <= n <= if ilim <= 0 then 1 else ilim
    ensures PrintsFixed(DoubleValue(word0, word1), k, k + 1 - ilim, buf[..n], decpt)
  {
    hide Pow, RPow, Significand, UnitExp, DoubleValue, IntegerValue, InDecade, PrintsFixed, PrintsRounded, Writes,
         ZeroLast, ToEven, Left;
    ValueOf(word0, word1, k);
    var d := IntegerValue(word0, word1);
    if ilim <= 0 {
      n := 1;
      FiveOf(d, k);
      if ilim < 0 || d < 5 * Pow(10, k) {
        buf[0], decpt := '0', 1;
        assert buf[..1] == "0";
        NoDigits(DoubleValue(word0, word1), k, k + 1 - ilim);
      } else {
        buf[0], decpt := '1', k + 2;
        assert buf[..1] == "1";
        OneDigit(DoubleValue(word0, word1), k);
      }
      NoException(DoubleValue(word0, word1), k, k + 1 - ilim, buf[..1], decpt);
    } else {
      var carried;
      ghost var m;
      n, carried, m := IntegerLoop(d, k, ilim, buf);
      decpt := if carried then k + 2 else k + 1;
      assert buf[..n][n - 1] == buf[n - 1];
      IntegerDigits(DoubleValue(word0, word1), d, k, m, ilim, buf[..n], carried);
      assert k - ilim + 1 == k + 1 - ilim;
    }
  }

  lemma FiveOf(d: nat, k: nat)
    ensures d < 5 * Pow(10, k) <==> d as real < 5.0 * RPow(10, k)
  {
    RPowNat(10, k);
    hide RPow, Pow;
    assert (5 * Pow(10, k)) as real == 5.0 * Pow(10, k) as real;
  }

  /** The multiprecision part. */
  method FixLong(cache: Pow5Cache, word0: Word, word1: Word, b0: Bigint, be: int, bits: int, k0: int, kCheck: bool,
                 ilim0: int, ilim1: int, buf: array<char>, ghost shift: nat)
    returns (n: nat, decpt: int, ghost k: int, ghost ilim: int)
    requires cache.Valid() && Split(b0, be, bits, shift, word0, word1) && b0.Repr() !! cache.Repr
    requires Significand(word0, word1) > 0 && 1 <= buf.Length && ilim0 <= buf.Length && ilim1 <= buf.Length
    requires buf !in cache.Repr && buf !in b0.Repr()
    requires GoodEstimate(DoubleValue(word0, word1), k0) && (!kCheck ==> InDecade(DoubleValue(word0, word1), k0))
    modifies cache.Repr, b0, b0.x, buf
    ensures cache.Valid() && fresh(cache.Repr - old(cache.Repr))
    ensures InDecade(DoubleValue(word0, word1), k)
    ensures (k == k0 && ilim == ilim0) || (k == k0 - 1 && ilim == ilim1)
    ensures 1 <= n <= (if ilim <= 0 then 1 else ilim) <= buf.Length
    ensures PrintsRounded(DoubleValue(word0, word1), k + 1 - ilim, buf[..n], decpt)
  {
    hide Val, Pow, RPow, Aligned, Significand, DoubleValue, GoodEstimate, InDecade, Ratio, IsFixed, PrintsRounded,
         HalfGapBelow, HalfGapAbove, Pow5Cache.Valid, Split;
    ghost var d := DoubleValue(word0, word1);
    GapBelowValue(word0, word1);
    var b, S, kk, il := ScaleFixed(cache, word0, word1, b0, be, bits, k0, kCheck, ilim0, ilim1, shift);
    k, ilim := kk, il;
    ghost var v := Scaled(b.Value(), S.Value(), 1, 1, true);
    if il <= 0 {
      n := 1;
      decpt := PrintNothing(b, S, buf, kk, il, d);
    } else {
      var carried;
      n, carried := FixedLoop(b, S, buf, il);
      FixedOverReals(v, d, kk, il, buf[..n], if carried then 1 else 0);
      decpt := if carried then kk + 2 else kk + 1;
      assert kk - il + 1 == kk + 1 - il;
    }
  }

  /** The guard agrees with the decade found in the end. */
  lemma GuardMeans(d: real, k0: int, kCheck: bool, k: int)
    requires GoodEstimate(d, k0) && d > 0.0 && InDecade(d, k) && (k == k0 || k == k0 - 1)
    requires if kCheck then k0 < 0 || k0 > TEN_PMAX else InDecade(d, k0)
    ensures SmallInteger(d, k) <==> IsInteger(d) && k0 <= INT_MAX
  {
    hide RPow, IsInteger;
    if k0 < 0 {
      NotBelowOne(d, k0);
    }
    if k == k0 - 1 {
      assert k0 - 1 + 1 == k0;
    }
  }

  lemma NotBelowOne(d: real, k: int)
    requires GoodEstimate(d, k) && d > 0.0 && k < 0
    ensures !IsInteger(d)
  {
    hide RPow;
    RPowMonotone(10, k + 1, 0);
    RPowZero(10);
  }

  /** dtoa for a positive finite double in modes 6 and 7, which are 2 and 3 without the quick path. */
  method PrintFixed(cache: Pow5Cache, word0: Word, word1: Word, mode: int, ndigits: int, k0: int)
    returns (buf: array<char>, n: nat, decpt: int, ghost k: int)
    requires cache.Valid() && Significand(word0, word1) > 0 && (mode == 2 || mode == 3)
    requires GoodEstimate(DoubleValue(word0, word1), k0)
    modifies cache.Repr
    ensures cache.Valid() && fresh(cache.Repr - old(cache.Repr))
    ensures fresh(buf) && 1 <= n < buf.Length && buf[n] == '\0' && InDecade(DoubleValue(word0, word1), k)
    ensures PrintsFixed(DoubleValue(word0, word1), k, LastPlace(mode, ndigits, k), buf[..n], decpt)
  {
    hide Val, Pow, RPow, Significand, UnitExp, DoubleValue, GoodEstimate, InDecade, PrintsRounded, PrintsFixed, HasBits,
         ShiftedBy, Pow5Cache.Valid, IsInteger, SmallInteger, HalfGapBelow, HalfGapAbove;
    ghost var d := DoubleValue(word0, word1);
    var b0, be, bits;
    ghost var shift;
    b0, be, bits, shift := SplitDouble(word0, word1);
    var k1, kCheck := CheckEstimate(word0, word1, k0);
    IntegerByExponent(b0.Value(), be, shift, word0, word1);
    GapBelowValue(word0, word1);
    var ilim := if mode == 3 then ndigits + k1 + 1 else if ndigits <= 0 then 1 else ndigits;
    var ilim1 := if mode == 3 then ilim - 1 else ilim;
    var room := if ilim <= 0 then 1 else ilim;
    buf := new char[room + 1];
    k := k1;
    if be >= 0 && k1 <= INT_MAX {
      EstimateOfInteger(d, k1);
      GuardMeans(d, k1, kCheck, k1);
      n, decpt := FixInteger(word0, word1, k1, ilim, buf);
    } else {
      ghost var il;
      n, decpt, k, il := FixLong(cache, word0, word1, b0, be, bits, k1, kCheck, ilim, ilim1, buf, shift);
      GuardMeans(d, k1, kCheck, k);
      NoException(d, k, LastPlace(mode, ndigits, k), buf[..n], decpt);
    }
    ghost var digits := buf[..n];
    buf[n] := '\0';
    assert buf[..n] == digits;
  }

  // ----- The two exceptions -----

  lemma WholeDouble(word0: Word, word1: Word, x: nat, n: nat)
    requires UnitExp(word0) == -(n as int) && ShiftedBy(x, n, Significand(word0, word1))
    ensures DoubleValue(word0, word1) == x as real
  {
    hide RPow, Pow, ShiftedBy, UnitExp, Significand;
    MovedExponent(x, n, Significand(word0, word1), UnitExp(word0));
    assert UnitExp(word0) + n == 0;
    RPowZero(2);
  }

  lemma TwoTo48(n: nat)
    requires n == 48
    ensures Pow(2, n) == 0x1_0000_0000_0000
  {
    Pow2Constants();
    hide Pow;
    PowAdd(2, 32, 16);
  }

  lemma TwoTo43(n: nat)
    requires n == 43
    ensures Pow(2, n) == 0x800_0000_0000
  {
    Pow2Constants();
    assert Pow(2, 11) == 2048;
    hide Pow;
    PowAdd(2, 32, 11);
  }

  lemma TwoTo45(n: nat)
    requires n == 45
    ensures Pow(2, n) == 0x2000_0000_0000
  {
    Pow2Constants();
    assert Pow(2, 13) == 8192;
    hide Pow;
    PowAdd(2, 32, 13);
  }

  lemma SmallPowers()
    ensures RPow(10, 0) == 1.0 && RPow(10, 1) == 10.0 && RPow(10, 2) == 100.0
    ensures RPow(10, 3) == 1000.0 && RPow(10, 4) == 10000.0
  {
    RPowZero(10);
    RPowStep(10, 0);
    RPowStep(10, 1);
    RPowStep(10, 2);
    RPowStep(10, 3);
  }

  /** 1001 is no odd number of fifties. */
  lemma NotHalf(d: real, e: int)
    requires d == 1001.0 && e == 2
    ensures !HalfOverEven(d, e)
  {
    SmallPowers();
    hide RPow;
    forall t: nat
      ensures !HalfAbove(d, t, e)
    {
      assert t as real * 100.0 == (100 * t) as real;
    }
  }

  lemma Value25(n: nat)
    requires n == 48
    ensures DoubleValue(0x4039_0000, 0) == 25.0 && InDecade(25.0, 1)
  {
    TwoTo48(n);
    SmallPowers();
    hide RPow, Pow, Significand;
    Significand25();
    WholeDouble(0x4039_0000, 0, 25, n);
  }

  lemma Significand25()
    ensures Significand(0x4039_0000, 0) == 25 * 0x1_0000_0000_0000
    ensures Significand(0x408f_4800, 0) == 1001 * 0x800_0000_0000
    ensures Significand(0x4069_a000, 0) == 205 * 0x2000_0000_0000
  {
  }

  lemma Value1001(n: nat)
    requires n == 43
    ensures DoubleValue(0x408f_4800, 0) == 1001.0 && InDecade(1001.0, 3)
  {
    TwoTo43(n);
    SmallPowers();
    hide RPow, Pow, Significand;
    Significand25();
    WholeDouble(0x408f_4800, 0, 1001, n);
  }

  lemma Value205(n: nat)
    requires n == 45
    ensures DoubleValue(0x4069_a000, 0) == 205.0 && InDecade(205.0, 2)
  {
    TwoTo45(n);
    SmallPowers();
    hide RPow, Pow, Significand;
    Significand25();
    WholeDouble(0x4069_a000, 0, 205, n);
  }

  /** In one digit 25 is printed as 20, where halves going up would give 30. */
  lemma TwentyFive(k: int, digits: seq<char>, decpt: int, n: nat)
    requires n == 48 && InDecade(DoubleValue(0x4039_0000, 0), k)
    requires PrintsFixed(DoubleValue(0x4039_0000, 0), k, LastPlace(2, 1, k), digits, decpt)
    ensures DoubleValue(0x4039_0000, 0) == 25.0 && k == 1 && LastPlace(2, 1, k) == 1
    ensures Printed(digits, decpt) == 20.0
    ensures RoundsTo(25.0, 1, 30.0) && !RoundsTo(25.0, 1, 20.0)
  {
    hide RPow, Pow, Significand, UnitExp, DoubleValue, Printed, HalfAbove, ZeroKept, InDecade, RoundsTo;
    Value25(n);
    OneDecade(25.0, k, 1);
    IntegerIs(25, 25.0);
    TwoAndAHalf();
  }

  lemma TwoAndAHalf()
    ensures HalfAbove(25.0, 2, 1) && RoundsTo(25.0, 1, 30.0) && RPow(10, 1) == 10.0
  {
    SmallPowers();
    hide RPow;
    assert 30.0 == Decimal(3, 1);
  }

  lemma OneDecade(d: real, k: int, j: int)
    requires InDecade(d, k) && InDecade(d, j)
    ensures k == j
  {
    hide RPow;
    if k < j {
      RPowMonotone(10, k + 1, j);
    } else if k > j {
      RPowMonotone(10, j + 1, k);
    }
  }

  /** In two digits 205 is printed as 20 and not 21, with a zero at its end; the quick path would give up at this half. */
  lemma TwoHundredAndFive(k: int, digits: seq<char>, decpt: int, n: nat)
    requires n == 45 && InDecade(DoubleValue(0x4069_a000, 0), k)
    requires PrintsFixed(DoubleValue(0x4069_a000, 0), k, LastPlace(2, 2, k), digits, decpt)
    ensures DoubleValue(0x4069_a000, 0) == 205.0 && k == 2 && LastPlace(2, 2, k) == 1
    ensures Printed(digits, decpt) == 200.0 && |digits| >= 2 && digits[|digits| - 1] == '0'
    ensures RoundsTo(205.0, 1, 210.0) && !RoundsTo(205.0, 1, 200.0)
  {
    hide RPow, Pow, Significand, UnitExp, DoubleValue, Printed, HalfAbove, BarelyAbove, RoundsTo, InDecade;
    Value205(n);
    OneDecade(205.0, k, 2);
    IntegerIs(205, 205.0);
    TwentyAndAHalf();
    OneZero(digits);
  }

  lemma TwentyAndAHalf()
    ensures HalfAbove(205.0, 20, 1) && BarelyAbove(205.0, 20, 1) && RoundsTo(205.0, 1, 210.0) && RPow(10, 1) == 10.0
  {
    SmallPowers();
    hide RPow;
    assert 210.0 == Decimal(21, 1);
  }

  /** Without the quick path, so in mode 6, 1001 in two digits is printed with a zero at its end, though it is no half. */
  lemma ThousandAndOne(k: int, digits: seq<char>, decpt: int, n: nat)
    requires n == 43 && InDecade(DoubleValue(0x408f_4800, 0), k)
    requires PrintsFixed(DoubleValue(0x408f_4800, 0), k, LastPlace(2, 2, k), digits, decpt)
    ensures DoubleValue(0x408f_4800, 0) == 1001.0 && k == 3 && LastPlace(2, 2, k) == 2
    ensures RoundsTo(1001.0, 2, Printed(digits, decpt)) && |digits| >= 2 && digits[|digits| - 1] == '0'
  {
    hide RPow, Pow, Significand, UnitExp, DoubleValue, Printed, HalfOverEven, BarelyAbove, RoundsTo, InDecade;
    Value1001(n);
    OneDecade(1001.0, k, 3);
    IntegerIs(1001, 1001.0);
    NotHalf(1001.0, 2);
    OneOver();
    OneZero(digits);
  }

  lemma OneOver()
    ensures BarelyAbove(1001.0, 10, 2)
  {
    SmallPowers();
  }

  lemma OneZero(digits: seq<char>)
    ensures |digits| == 1 && digits[0] == '0' ==> digits == "0"
  {
  }
}
