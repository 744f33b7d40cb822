/** What it means for a decimal to read back as the number being printed, and when no shorter one does. */
module Shortest {
  import opened Powers

  /**
   * The number being printed, scaled: v = b / s with a half-gap of ml / s below it and mh / s
   * above. The ends of that interval belong to it when inclusive holds.
   */
  datatype Scaled = Scaled(b: nat, s: nat, ml: nat, mh: nat, inclusive: bool)

  /** x is less than ml below b and less than mh above it, or on an end that counts. */
  predicate Within(x: int, b: int, ml: int, mh: int, inclusive: bool)
  {
    && (b - ml < x || (inclusive && b - ml == x))
    && (x < b + mh || (inclusive && x == b + mh))
  }

  /** The decimal w / 10^(n - 1) is in the interval around v. */
  ghost predicate InInterval(v: Scaled, w: nat, n: nat)
    requires n >= 1
  {
    var p := Pow(10, n - 1);
    Within(w * v.s, v.b * p, v.ml * p, v.mh * p, v.inclusive)
  }

  /** No decimal with fewer than n digits is in the interval. */
  ghost predicate NoneShorter(v: Scaled, n: nat)
  {
    forall m: nat, w: nat :: 1 <= m < n ==> !InInterval(v, w, m)
  }

  function Abs(x: int): nat
  {
    if x < 0 then -x else x
  }

  /** How far w / 10^(n - 1) is from v. */
  ghost function Distance(v: Scaled, w: nat, n: nat): nat
    requires n >= 1
  {
    Abs(w * v.s - v.b * Pow(10, n - 1))
  }

  /** Of the decimals of n digits in the interval, w is one that is closest to v. */
  ghost predicate Closest(v: Scaled, w: nat, n: nat)
    requires n >= 1
  {
    InInterval(v, w, n) && forall w': nat :: InInterval(v, w', n) ==> Distance(v, w, n) <= Distance(v, w', n)
  }

  /** After n digits: d is the number they write and b / s what is left of v, all at scale 10^(n - 1). */
  ghost predicate AfterDigit(v: Scaled, n: nat, d: nat, b: nat, ml: nat, mh: nat)
    requires n >= 1
  {
    && v.b * Pow(10, n - 1) == d * v.s + b && b < v.s
    && ml == v.ml * Pow(10, n - 1) && mh == v.mh * Pow(10, n - 1)
    && 0 < ml <= mh
  }

  /** Before the next digit: ten times the remainder. */
  ghost predicate BeforeDigit(v: Scaled, n: nat, d: nat, b: nat, ml: nat, mh: nat)
    requires n >= 1
  {
    && v.b * Pow(10, n - 1) == 10 * d * v.s + b && b < 10 * v.s
    && ml == v.ml * Pow(10, n - 1) && mh == v.mh * Pow(10, n - 1)
    && 0 < ml <= mh
  }

  /** Truncating is acceptable. */
  predicate LowOk(b: nat, ml: nat, inclusive: bool)
  {
    b < ml || (b == ml && inclusive)
  }

  /** Adding one in the last place is acceptable. */
  predicate HighOk(b: nat, mh: nat, s: nat, inclusive: bool)
  {
    b + mh > s || (b + mh == s && inclusive)
  }

  lemma NextMultiple(d: nat, s: nat)
    ensures (d + 1) * s == d * s + s
  {
  }

  /** At each length only d and d + 1 matter, and the two tests say which of them are in the interval. */
  lemma Candidates(v: Scaled, n: nat, d: nat, b: nat, ml: nat, mh: nat)
    requires n >= 1 && AfterDigit(v, n, d, b, ml, mh)
    ensures LowOk(b, ml, v.inclusive) <==> InInterval(v, d, n)
    ensures HighOk(b, mh, v.s, v.inclusive) <==> InInterval(v, d + 1, n)
  {
    NextMultiple(d, v.s);
  }

  lemma ChooseLow(v: Scaled, n: nat, d: nat, b: nat, ml: nat, mh: nat)
    requires n >= 1 && AfterDigit(v, n, d, b, ml, mh)
    requires LowOk(b, ml, v.inclusive) && (2 * b <= v.s || !HighOk(b, mh, v.s, v.inclusive))
    ensures Closest(v, d, n)
  {
    Candidates(v, n, d, b, ml, mh);
    forall w: nat | InInterval(v, w, n)
      ensures Distance(v, d, n) <= Distance(v, w, n)
    {
      NextMultiple(d, v.s);
      if w <= d {
        MulMonotone(w, d, v.s);
      } else {
        MulMonotone(d + 1, w, v.s);
      }
    }
  }

  lemma ChooseHigh(v: Scaled, n: nat, d: nat, b: nat, ml: nat, mh: nat)
    requires n >= 1 && AfterDigit(v, n, d, b, ml, mh)
    requires HighOk(b, mh, v.s, v.inclusive) && (2 * b >= v.s || !LowOk(b, ml, v.inclusive))
    ensures Closest(v, d + 1, n)
  {
    Candidates(v, n, d, b, ml, mh);
    forall w: nat | InInterval(v, w, n)
      ensures Distance(v, d + 1, n) <= Distance(v, w, n)
    {
      NextMultiple(d, v.s);
      if w <= d {
        MulMonotone(w, d, v.s);
      } else {
        MulMonotone(d + 1, w, v.s);
      }
    }
  }

  /** One digit off the quotient. */
  lemma TakeDigit(v: Scaled, n: nat, d: nat, b: nat, ml: nat, mh: nat, q: nat, r: nat)
    requires n >= 1 && BeforeDigit(v, n, d, b, ml, mh)
    requires b == q * v.s + r && r < v.s
    ensures AfterDigit(v, n, 10 * d + q, r, ml, mh)
  {
    assert (10 * d + q) * v.s == 10 * d * v.s + q * v.s;
  }

  /** Everything times ten. */
  lemma NextDigit(v: Scaled, n: nat, d: nat, b: nat, ml: nat, mh: nat)
    requires n >= 1 && AfterDigit(v, n, d, b, ml, mh)
    ensures BeforeDigit(v, n + 1, d, b * 10, ml * 10, mh * 10)
  {
    PowNext(10, n - 1);
    var p := Pow(10, n - 1);
    TimesTen(v.b, p);
    TimesTen(v.ml, p);
    TimesTen(v.mh, p);
    assert 10 * d * v.s == 10 * (d * v.s);
  }

  lemma OnlyCandidates(v: Scaled, n: nat, d: nat, b: nat, ml: nat, mh: nat, w: nat)
    requires n >= 1 && AfterDigit(v, n, d, b, ml, mh)
    requires !LowOk(b, ml, v.inclusive) && !HighOk(b, mh, v.s, v.inclusive)
    ensures !InInterval(v, w, n)
  {
    NextMultiple(d, v.s);
    if w <= d {
      MulMonotone(w, d, v.s);
    } else {
      MulMonotone(d + 1, w, v.s);
    }
  }

  /** If neither candidate will do, no decimal of this length will. */
  lemma NoneOfLength(v: Scaled, n: nat, d: nat, b: nat, ml: nat, mh: nat)
    requires n >= 1 && AfterDigit(v, n, d, b, ml, mh) && NoneShorter(v, n)
    requires !LowOk(b, ml, v.inclusive) && !HighOk(b, mh, v.s, v.inclusive)
    ensures NoneShorter(v, n + 1)
  {
    forall m: nat, w: nat | 1 <= m < n + 1
      ensures !InInterval(v, w, m)
    {
      if m == n {
        OnlyCandidates(v, n, d, b, ml, mh, w);
      }
    }
  }

  /** A trailing zero could have been left out, so none is ever written after the first digit. */
  lemma NoTrailingZero(v: Scaled, w: nat, n: nat)
    requires n >= 2 && NoneShorter(v, n)
    ensures !InInterval(v, 10 * w, n)
  {
    assert !InInterval(v, w, n - 1);
    PowNext(10, n - 2);
    var p := Pow(10, n - 2);
    TimesTen(v.b, p);
    TimesTen(v.ml, p);
    TimesTen(v.mh, p);
    assert (10 * w) * v.s == 10 * (w * v.s);
  }

  // ----- A fixed number of digits -----

  /** t is b / s times 10^(n - 1), rounded to an integer with halves going up. */
  ghost predicate IsRounded(b: nat, s: nat, n: nat, t: nat)
    requires n >= 1
  {
    var p := Pow(10, n - 1);
    2 * (t * s) <= 2 * (b * p) + s && 2 * (b * p) < 2 * (t * s) + s
  }

  /** A quotient that comes out even after i digits stays so with zeros appended. */
  lemma ExactDigits(v: Scaled, i: nat, n: nat, d: nat, ml: nat, mh: nat)
    requires 1 <= i <= n && AfterDigit(v, i, d, 0, ml, mh)
    ensures IsRounded(v.b, v.s, n, d * Pow(10, n - i))
  {
    PowAdd(10, i - 1, n - i);
    hide Pow;
    ExactArith(v.b, Pow(10, i - 1), Pow(10, n - i), d, v.s);
  }

  lemma ExactArith(b: int, p: int, q: int, d: int, s: int)
    requires b * p == d * s
    ensures b * (p * q) == (d * q) * s
  {
    assert b * (p * q) == (b * p) * q;
    assert (d * s) * q == (d * q) * s;
  }

  lemma RoundedDigits(v: Scaled, n: nat, d: nat, r: nat, ml: nat, mh: nat)
    requires n >= 1 && AfterDigit(v, n, d, r, ml, mh)
    ensures IsRounded(v.b, v.s, n, if 2 * r >= v.s then d + 1 else d)
  {
    NextMultiple(d, v.s);
  }
}
