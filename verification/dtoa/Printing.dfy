/** dtoa as a whole: what the digits it returns mean. */
module Printing {
  import opened Powers
  import opened Words
  import opened BigInts
  import opened Kernel
  import opened QuoRems
  import opened PowersOfFive
  import opened DoubleBits
  import opened DigitBuffer
  import opened Shortest
  import opened DigitLoops
  import opened Decimals
  import opened Minimal
  import opened Scaling
  import opened Dtoa

  ghost predicate WellWritten(digits: seq<char>)
  {
    |digits| >= 1 && Digits(digits) && digits[0] != '0' && digits[|digits| - 1] != '0'
  }

  /** The number 0.digits times 10^decpt, which is what the caller of dtoa makes of its result. */
  ghost function Printed(digits: seq<char>, decpt: int): real
    requires Digits(digits)
  {
    Decimal(Number(digits), decpt - |digits|)
  }

  /** No decimal with fewer than n digits reads back as the target. */
  ghost predicate NoneWithFewer(g: Target, n: nat)
    requires n >= 1
  {
    forall w: nat, t: int :: w < Pow(10, n - 1) ==> !ReadsBack(g, Decimal(w, t))
  }

  /** Of the decimals with up to n digits that read back as the target, none is closer to it than x. */
  ghost predicate NoneCloser(g: Target, n: nat, x: real)
  {
    forall w: nat, t: int :: w < Pow(10, n) && ReadsBack(g, Decimal(w, t)) ==> RAbs(x - g.d) <= RAbs(Decimal(w, t) - g.d)
  }

  /** The digits read back as the target, and no fewer would. */
  ghost predicate PrintsNoFewer(g: Target, digits: seq<char>, decpt: int)
  {
    && WellWritten(digits)
    && ReadsBack(g, Printed(digits, decpt))
    && NoneWithFewer(g, |digits|)
  }

  /** The digits read back as the target, no fewer would, and no others of that number are closer. */
  ghost predicate PrintsShortest(g: Target, digits: seq<char>, decpt: int)
  {
    PrintsNoFewer(g, digits, decpt) && NoneCloser(g, |digits|, Printed(digits, decpt))
  }

  /** A power of ten that is the upper end of what reads back as the target. */
  ghost predicate TenAtTheEnd(g: Target, digits: seq<char>, decpt: int)
  {
    digits == "1" && Printed(digits, decpt) == g.d + g.hi
  }

  // ----- From scaled integers to reals -----

  lemma PrintedScaled(digits: seq<char>, k: int, shift: nat)
    requires Digits(digits) && |digits| >= 1 && (shift == 0 || (shift == 1 && digits == "1"))
    ensures Printed(digits, k + 1 + shift)
         == Decimal(if shift == 0 then Number(digits) else 10, k - |digits| + 1)
  {
    if shift == 1 {
      assert digits == [] + [Digit(1)];
      NumberPush([], Digit(1));
      OneAndTen(k);
      OneAndTen(k + 1);
      assert k + 2 - 1 == k + 1;
    } else {
      assert k + 1 - |digits| == k - |digits| + 1;
    }
  }

  lemma ShortestOverReals(v: Scaled, g: Target, k: int, digits: seq<char>, shift: nat)
    requires Represents(v, g, k) && InDecade(g.d, k) && 0.0 < g.lo < g.d && 0.0 < g.hi
    requires IsShortest(v, digits, shift)
    ensures PrintsNoFewer(g, digits, k + 1 + shift)
    ensures NoneCloser(g, |digits|, Printed(digits, k + 1 + shift)) || TenAtTheEnd(g, digits, k + 1 + shift)
  {
    var n, w := |digits|, if shift == 0 then Number(digits) else 10;
    hide RPow, Pow, Represents, Closest, Decimal, InDecade, ReadsBack, InInterval, NoneShorter;
    PrintedScaled(digits, k, shift);
    IntervalOfReals(v, g, k, w, n);
    forall w': nat, t: int | w' < Pow(10, n - 1)
      ensures !ReadsBack(g, Decimal(w', t))
    {
      NoneAtAll(v, g, k, n, w', t);
    }
    if Closest(v, w, n) {
      forall w': nat, t: int | w' < Pow(10, n) && ReadsBack(g, Decimal(w', t))
        ensures RAbs(Printed(digits, k + 1 + shift) - g.d) <= RAbs(Decimal(w', t) - g.d)
      {
        ClosestAtAll(v, g, k, n, w, w', t);
      }
    } else {
      TenIsTheEnd(v, g, k);
    }
  }

  lemma TenIsTheEnd(v: Scaled, g: Target, k: int)
    requires Represents(v, g, k)
    ensures 10 * v.s == v.b + v.mh ==> Decimal(10, k) == g.d + g.hi
    ensures k - 1 + 1 == k
  {
    var s, t := v.s as real, RPow(10, k);
    hide RPow;
    if 10 * v.s == v.b + v.mh {
      assert s * (g.d + g.hi) == v.b as real * t + v.mh as real * t == (v.b + v.mh) as real * t;
      assert (10 * v.s) as real * t == s * (10.0 * t);
      MulCancel(s, g.d + g.hi, 10.0 * t);
    }
  }

  /** The half-gap below a double is less than the double. */
  lemma GapBelowValue(word0: Word, word1: Word)
    requires Significand(word0, word1) > 0
    ensures HalfGapBelow(word0, word1) < DoubleValue(word0, word1)
  {
    var u := UnitExp(word0);
    Quarters(u);
    hide RPow, Significand, UnitExp;
    AtLeastOnce(Significand(word0, word1) as real, RPow(2, u), DoubleValue(word0, word1));
  }

  lemma GapAbove(word0: Word, word1: Word)
    ensures HalfGapAbove(word0)
         == (if SpecialCase(word0, word1) then 2.0 else 1.0) * HalfGapBelow(word0, word1)
  {
    Quarters(UnitExp(word0));
  }

  lemma RatioTwice(s: nat, x: real, c: nat, k: int, f: nat, y: real, c': nat)
    requires Ratio(s, x, c, k) && (f == 1 || f == 2) && y == f as real * x && c' == f * c
    ensures Ratio(s, y, c', k)
  {
    hide RPow;
    var t := RPow(10, k);
    assert s as real * (2.0 * x) == 2.0 * (s as real * x);
    assert (2 * c) as real * t == 2.0 * (c as real * t);
  }

  lemma EnoughDigits(v: Scaled, g: Target, k: int)
    requires Represents(v, g, k) && InDecade(g.d, k) && (g.lo + g.hi) * Pow(10, 16) as real > g.d
    ensures (v.ml + v.mh) * Pow(10, 16) > v.s
  {
    Pow10Sixteen();
    var s, t, p := v.s as real, RPow(10, k), 10000000000000000.0;
    hide RPow, Pow;
    var m := v.ml + v.mh;
    assert s * (g.lo + g.hi) == v.ml as real * t + v.mh as real * t == m as real * t;
    Rescale(s, g.lo + g.hi, m, t, p);
    CrossOrder(s, t, t, (g.lo + g.hi) * p, s, m as real * p);
  }

  lemma Rescale(s: real, x: real, m: nat, t: real, p: real)
    requires s * x == m as real * t
    ensures s * (x * p) == (m as real * p) * t
  {
    assert s * (x * p) == (s * x) * p;
  }

  // ----- Modes 0 and 1 -----

  /** Everything the digit loop asks for, from what the preparation gives. */
  lemma ReadyForLoop(g: Target, k: int, s: nat, b: nat, ml: nat, mh: nat, special: bool)
    requires s > 0 && Ratio(s, g.d, b, k) && Ratio(s, g.lo, ml, k) && InDecade(g.d, k)
    requires g.hi == (if special then 2.0 else 1.0) * g.lo && mh == (if special then 2 else 1) * ml
    requires (g.lo + g.hi) * Pow(10, 16) as real > g.d
    ensures Represents(Scaled(b, s, ml, mh, g.inclusive), g, k)
    ensures (ml + mh) * Pow(10, 16) > s
  {
    hide Pow;
    RatioTwice(s, g.lo, ml, k, if special then 2 else 1, g.hi, mh);
    EnoughDigits(Scaled(b, s, ml, mh, g.inclusive), g, k);
  }

  /** b, S, mlo and mhi stand for g at scale 10^k, in the form the digit loop needs. */
  ghost predicate Ready(b: Bigint, S: Bigint, mlo: Bigint, mhi: Bigint, g: Target, k: int)
    reads b`wds, b.x, S`wds, S.x, mlo`wds, mlo.x, mhi`wds, mhi.x
  {
    && Good(b) && Good(S) && Aligned(S) && Good(mlo) && Good(mhi) && Apart(b, S, mlo, mhi)
    && S.Value() <= b.Value() < 10 * S.Value() && 0 < mlo.Value() <= mhi.Value()
    && (mlo.Value() + mhi.Value()) * Pow(10, 16) > S.Value()
    && Represents(Scaled(b.Value(), S.Value(), mlo.Value(), mhi.Value(), g.inclusive), g, k)
    && InDecade(g.d, k)
  }

  /** The scaling part of dtoa, as far as the k_check. */
  method ScaleDouble(cache: Pow5Cache, word0: Word, word1: Word, b0: Bigint, be: int, bits: int, k0: int, kCheck: bool,
                     ghost shift: nat, ghost g: Target)
    returns (b: Bigint, S: Bigint, mhi: Bigint, m2: nat, k: int)
    requires cache.Valid() && Split(b0, be, bits, shift, word0, word1) && b0.Repr() !! cache.Repr
    requires GoodEstimate(DoubleValue(word0, word1), k0) && (!kCheck ==> InDecade(DoubleValue(word0, word1), k0))
    requires g == TargetOf(word0, word1, g.inclusive)
    modifies cache.Repr, b0, b0.x
    ensures cache.Valid() && fresh(cache.Repr - old(cache.Repr))
    ensures Prepared(b, S, g.d, k) && InDecade(g.d, k) && S.Value() <= b.Value() < 10 * S.Value()
    ensures Good(mhi) && mhi.Value() > 0 && mhi.Repr() !! b.Repr() && mhi.Repr() !! S.Repr()
    ensures Ratio(S.Value(), g.lo, Shifted(mhi.Value(), m2), k)
    ensures b == b0 || fresh(b.Repr())
    ensures fresh(S.Repr()) && fresh(mhi.Repr())
    ensures b.Repr() !! cache.Repr && mhi.Repr() !! cache.Repr
  {
    hide Val, Pow, RPow, Aligned, Significand, Shifted, Ratio, DoubleValue, HalfGapAbove, HalfGapBelow,
         GoodEstimate, InDecade, Prepared, Pow5Cache.Valid, Split;
    b, S, mhi, m2 := Prepare(cache, word0, word1, b0, be, bits, k0, shift);
    PreparedApart(b, S, g.d, k0);
    b, mhi, k := CorrectEstimate(b, S, mhi, k0, kCheck, m2, g);
  }

  lemma PreparedApart(b: Bigint, S: Bigint, d: real, k: int)
    requires Prepared(b, S, d, k)
    ensures b.Repr() !! S.Repr() && b.wds <= b.x.Length && S.wds <= S.x.Length
  {
  }

  /** The whole scaling part of dtoa for modes 0 and 1. */
  method ScaleForPrinting(cache: Pow5Cache, word0: Word, word1: Word, b0: Bigint, be: int, bits: int, k0: int,
                          kCheck: bool, ghost shift: nat, ghost g: Target)
    returns (b: Bigint, S: Bigint, mlo: Bigint, mhi: Bigint, k: int)
    requires cache.Valid() && Split(b0, be, bits, shift, word0, word1) && b0.Repr() !! cache.Repr
    requires Significand(word0, word1) > 0
    requires GoodEstimate(DoubleValue(word0, word1), k0) && (!kCheck ==> InDecade(DoubleValue(word0, word1), k0))
    requires g == TargetOf(word0, word1, g.inclusive)
    modifies cache.Repr, b0, b0.x
    ensures cache.Valid() && fresh(cache.Repr - old(cache.Repr))
    ensures Ready(b, S, mlo, mhi, g, k)
    ensures b == b0 || fresh(b.Repr())
    ensures fresh(S.Repr()) && fresh(mlo.Repr()) && fresh(mhi.Repr())
    ensures b.Repr() !! cache.Repr && mlo.Repr() !! cache.Repr && mhi.Repr() !! cache.Repr
  {
    hide Val, Pow, RPow, Aligned, Significand, Shifted, Ratio, DoubleValue, HalfGapAbove, HalfGapBelow,
         GoodEstimate, InDecade, Represents, Pow5Cache.Valid, Split, Bigint.Value;
    var mhi0, m2;
    b, S, mhi0, m2, k := ScaleDouble(cache, word0, word1, b0, be, bits, k0, kCheck, shift, g);
    var special := SpecialCase(word0, word1);
    mlo, mhi := Gaps(mhi0, m2, special);
    GapAbove(word0, word1);
    SeventeenDigits(word0, word1);
    ReadyForLoop(g, k, S.Value(), b.Value(), mlo.Value(), mhi.Value(), special);
  }

  lemma ReadyIsShaped(b: Bigint, S: Bigint, mlo: Bigint, mhi: Bigint, g: Target, k: int)
    requires Ready(b, S, mlo, mhi, g, k)
    ensures b.wds <= b.x.Length && S.wds <= S.x.Length && mlo.wds <= mlo.x.Length && mhi.wds <= mhi.x.Length
  {
  }
}
