/** Decimals as real numbers, and how the scaled integers of dtoa stand for them. */
module Decimals {
  import opened Powers
  import opened Shortest

  /** w times 10^t. */
  ghost function Decimal(w: nat, t: int): real
  {
    w as real * RPow(10, t)
  }

  /** A number to be printed, the half-gaps to its neighbours, and whether the midpoints round to it. */
  datatype Target = Target(d: real, lo: real, hi: real, inclusive: bool)

  /** x is read back as the target. */
  ghost predicate ReadsBack(g: Target, x: real)
  {
    && (g.d - g.lo < x || (g.inclusive && g.d - g.lo == x))
    && (x < g.d + g.hi || (g.inclusive && x == g.d + g.hi))
  }

  /** v describes g at scale t: b / s is d / t, and so on. */
  ghost predicate RepresentsAt(v: Scaled, g: Target, t: real)
  {
    && v.s > 0 && v.inclusive == g.inclusive
    && v.s as real * g.d == v.b as real * t
    && v.s as real * g.lo == v.ml as real * t
    && v.s as real * g.hi == v.mh as real * t
  }

  ghost predicate Represents(v: Scaled, g: Target, k: int)
  {
    RepresentsAt(v, g, RPow(10, k))
  }

  lemma ScaleLess(c: real, x: real, y: real)
    requires c > 0.0
    ensures c * x < c * y <==> x < y
    ensures c * x == c * y <==> x == y
  {
    assert c * (y - x) == c * y - c * x;
    if x < y {
      assert c * (y - x) > 0.0;
    } else if y < x {
      assert c * (x - y) > 0.0;
    }
  }

  /** (s p) x where x = w q, q p = t. */
  lemma ScaleDecimal(s: real, p: real, w: real, q: real, t: real)
    requires q * p == t
    ensures (s * p) * (w * q) == (w * s) * t
  {
    assert (s * p) * (w * q) == (w * s) * (q * p);
  }

  /** (s p) y where s y = b t. */
  lemma ScalePart(s: real, p: real, y: real, b: real, t: real)
    requires s * y == b * t
    ensures (s * p) * y == (b * p) * t
  {
    assert (s * p) * y == (s * y) * p;
    assert (b * t) * p == (b * p) * t;
  }

  /** x is n times t / c. */
  ghost predicate StandsFor(n: int, x: real, c: real, t: real)
  {
    c * x == n as real * t
  }

  /** The tests on integers and on reals agree. */
  lemma WithinReals(c: real, t: real, x: real, d: real, lo: real, hi: real,
                    w: int, b: int, ml: int, mh: int, inclusive: bool)
    requires c > 0.0 && t > 0.0
    requires StandsFor(w, x, c, t) && StandsFor(b, d, c, t) && StandsFor(ml, lo, c, t) && StandsFor(mh, hi, c, t)
    ensures Within(w, b, ml, mh, inclusive) <==> ReadsBack(Target(d, lo, hi, inclusive), x)
  {
    ScaleLess(c, d - lo, x);
    ScaleLess(c, x, d + hi);
    ScaleLess(t, (b - ml) as real, w as real);
    ScaleLess(t, w as real, (b + mh) as real);
    assert c * (d - lo) == c * d - c * lo;
    assert c * (d + hi) == c * d + c * hi;
    assert t * (b - ml) as real == b as real * t - ml as real * t;
    assert t * (b + mh) as real == b as real * t + mh as real * t;
  }

  /** InInterval, with the power of ten in p. */
  ghost predicate WithinAt(v: Scaled, w: nat, p: nat)
  {
    Within(w * v.s, v.b * p, v.ml * p, v.mh * p, v.inclusive)
  }

  lemma IntervalAt(v: Scaled, w: nat, n: nat, p: nat)
    requires n >= 1 && p == Pow(10, n - 1)
    ensures InInterval(v, w, n) <==> WithinAt(v, w, p)
  {
    hide Pow;
  }

  lemma WithinScaled(v: Scaled, g: Target, p: nat, t: real, q: real, w: nat, x: real)
    requires RepresentsAt(v, g, t) && p > 0 && t > 0.0 && q * p as real == t && x == w as real * q
    ensures WithinAt(v, w, p) <==> ReadsBack(g, x)
  {
    hide ReadsBack, Within, StandsFor;
    var s, b, ml, mh := v.s, v.b, v.ml, v.mh;
    var c := s as real * p as real;
    ProductPositive(s as real, p as real);
    DecimalAt(s, p, w, q, t, c, x);
    PartAt(s, p, g.d, b, t, c);
    PartAt(s, p, g.lo, ml, t, c);
    PartAt(s, p, g.hi, mh, t, c);
    WithinReals(c, t, x, g.d, g.lo, g.hi, w * s, b * p, ml * p, mh * p, g.inclusive);
  }

  lemma PartAt(s: nat, p: nat, y: real, b: nat, t: real, c: real)
    requires s as real * y == b as real * t && c == s as real * p as real
    ensures StandsFor(b * p, y, c, t)
  {
    ScalePart(s as real, p as real, y, b as real, t);
    AsReal(b, p);
  }

  lemma DecimalAt(s: nat, p: nat, w: nat, q: real, t: real, c: real, x: real)
    requires q * p as real == t && c == s as real * p as real && x == w as real * q
    ensures StandsFor(w * s, x, c, t)
  {
    ScaleDecimal(s as real, p as real, w as real, q, t);
    AsReal(w, s);
  }

  lemma PowSplit(k: int, n: nat)
    requires n >= 1
    ensures RPow(10, k - n + 1) * Pow(10, n - 1) as real == RPow(10, k)
    ensures Pow(10, n - 1) > 0
  {
    hide RPow, Pow;
    RPowAdd(10, k - n + 1, n - 1);
    RPowNat(10, n - 1);
    PowPositive(10, n - 1);
    assert k - n + 1 + (n - 1) == k;
  }

  /** The integer test for a decimal of n digits says whether it reads back as the target. */
  lemma IntervalOfReals(v: Scaled, g: Target, k: int, w: nat, n: nat)
    requires n >= 1 && Represents(v, g, k)
    ensures InInterval(v, w, n) <==> ReadsBack(g, Decimal(w, k - n + 1))
  {
    hide RPow, Pow, ReadsBack, WithinAt, InInterval, RepresentsAt;
    PowSplit(k, n);
    IntervalAt(v, w, n, Pow(10, n - 1));
    WithinScaled(v, g, Pow(10, n - 1), RPow(10, k), RPow(10, k - n + 1), w, Decimal(w, k - n + 1));
  }

  lemma AsReal(x: int, y: int)
    ensures (x * y) as real == x as real * y as real
  {
  }

  lemma ProductPositive(x: real, y: real)
    requires x > 0.0 && y > 0.0
    ensures x * y > 0.0
  {
  }
}
