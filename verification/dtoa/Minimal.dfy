/** The digits found by the loop are minimal among all decimals, of whatever magnitude. */
module Minimal {
  import opened Powers
  import opened Shortest
  import opened Decimals

  /** What lies beyond a number that does not read back as the target does not do so either. */
  lemma Beyond(g: Target, x: real, y: real)
    requires g.lo > 0.0 && g.hi > 0.0 && !ReadsBack(g, y)
    requires x <= y <= g.d || g.d <= y <= x
    ensures !ReadsBack(g, x)
  {
  }

  lemma {:induction false} RPowMonotone(b: nat, m: int, n: int)
    requires b >= 1 && m <= n
    ensures RPow(b, m) <= RPow(b, n)
    decreases n - m
  {
    hide RPow;
    if m < n {
      RPowMonotone(b, m, n - 1);
      RPowUpward(b, n);
    }
  }

  lemma RPowUpward(b: nat, n: int)
    requires b >= 1
    ensures RPow(b, n - 1) <= RPow(b, n)
  {
    hide RPow;
    RPowStep(b, n - 1);
    AtLeastOnce(b as real, RPow(b, n - 1), RPow(b, n - 1 + 1));
  }

  lemma AtLeastOnce(b: real, x: real, y: real)
    requires b >= 1.0 && x > 0.0 && y == b * x
    ensures x <= y
  {
    assert b * x - x == (b - 1.0) * x;
  }

  /** The number of digits of w. */
  function Length(w: nat): (n: nat)
    ensures w > 0 ==> n >= 1 && Pow(10, n - 1) <= w < Pow(10, n)
    ensures w == 0 ==> n == 0
  {
    if w == 0 then 0 else
      Length(w / 10) + 1
  }

  lemma LengthBelow(w: nat, m: nat)
    requires w > 0 && w < Pow(10, m)
    ensures 1 <= Length(w) <= m
  {
    hide Pow;
    PowReflects(10, Length(w) - 1, m);
  }

  lemma OrderByFactor(x: real, y: real, q: real)
    requires q > 0.0
    ensures x <= y ==> x * q <= y * q
    ensures x < y ==> x * q < y * q
  {
    assert (y - x) * q == y * q - x * q;
  }

  lemma PowerDecimal(j: nat, t: int)
    ensures Decimal(Pow(10, j), t) == RPow(10, t + j)
  {
    hide RPow, Pow;
    RPowAdd(10, t, j);
    RPowNat(10, j);
  }

  lemma DecimalOrder(w: nat, w': nat, t: int)
    ensures w <= w' ==> Decimal(w, t) <= Decimal(w', t)
    ensures w < w' ==> Decimal(w, t) < Decimal(w', t)
  {
    hide RPow;
    OrderByFactor(w as real, w' as real, RPow(10, t));
  }

  /** The decade in which a decimal lies. */
  lemma Decade(w: nat, t: int)
    requires w > 0
    ensures RPow(10, t + Length(w) - 1) <= Decimal(w, t) < RPow(10, t + Length(w))
  {
    hide RPow, Decimal;
    var j := Length(w);
    PowerDecimal(j - 1, t);
    PowerDecimal(j, t);
    assert t + (j - 1) == t + j - 1;
    DecimalOrder(Pow(10, j - 1), w, t);
    DecimalOrder(w, Pow(10, j), t);
  }

  /** 10^k <= d < 10^(k + 1) */
  ghost predicate InDecade(d: real, k: int)
  {
    RPow(10, k) <= d < RPow(10, k + 1)
  }

  lemma OneAndTen(k: int)
    ensures Decimal(1, k) == RPow(10, k) && Decimal(10, k) == RPow(10, k + 1)
  {
    RPowStep(10, k);
  }

  lemma NotAtLength(v: Scaled, g: Target, k: int, n: nat, w: nat, m: nat)
    requires Represents(v, g, k) && NoneShorter(v, n) && 1 <= m < n
    ensures !ReadsBack(g, Decimal(w, k - m + 1))
  {
    IntervalOfReals(v, g, k, w, m);
  }

  /**
   * If no integer multiple of a power of ten with fewer than n digits, aligned with the first
   * digit of d, reads back as d, then no decimal with fewer than n digits does, at any exponent.
   */
  lemma NoneAtAll(v: Scaled, g: Target, k: int, n: nat, w: nat, t: int)
    requires Represents(v, g, k) && InDecade(g.d, k) && 0.0 < g.lo < g.d && 0.0 < g.hi
    requires NoneShorter(v, n) && n >= 1 && w < Pow(10, n - 1)
    ensures !ReadsBack(g, Decimal(w, t))
  {
    if w == 0 {
      ZeroDecimal(t);
      return;
    }
    var x, j := Decimal(w, t), Length(w);
    LengthBelow(w, n - 1);
    Decade(w, t);
    OneAndTen(k);
    hide RPow, Decimal, ReadsBack, NoneShorter, Represents;
    if t + j - 1 == k {
      NotAtLength(v, g, k, n, w, j);
      assert t == k - j + 1;
    } else if t + j - 1 > k {
      NotAtLength(v, g, k, n, 10, 1);
      assert k - 1 + 1 == k;
      RPowMonotone(10, k + 1, t + j - 1);
      Beyond(g, x, RPow(10, k + 1));
    } else {
      NotAtLength(v, g, k, n, 1, 1);
      assert k - 1 + 1 == k;
      RPowMonotone(10, t + j, k);
      Beyond(g, x, RPow(10, k));
    }
  }

  lemma ZeroDecimal(t: int)
    ensures Decimal(0, t) == 0.0
  {
  }

  // ----- The closest of the shortest -----

  function RAbs(x: real): real
  {
    if x < 0.0 then -x else x
  }

  lemma ScaledAbs(c: real, t: real, y: real, z: int)
    requires c > 0.0 && t > 0.0 && c * y == z as real * t
    ensures c * RAbs(y) == Abs(z) as real * t
  {
    assert y < 0.0 <==> z < 0 by {
      ScaleLess(c, y, 0.0);
      ScaleLess(t, z as real, 0.0);
    }
    assert c * (-y) == -(c * y);
    assert (-z) as real * t == -(z as real * t);
  }

  lemma DistanceScaled(v: Scaled, g: Target, p: nat, t: real, q: real, w: nat)
    requires RepresentsAt(v, g, t) && p > 0 && t > 0.0 && q * p as real == t
    ensures v.s as real * p as real > 0.0
    ensures (v.s as real * p as real) * RAbs(w as real * q - g.d) == Abs(w * v.s - v.b * p) as real * t
  {
    hide RAbs, Abs;
    var c := v.s as real * p as real;
    ProductPositive(v.s as real, p as real);
    DecimalAt(v.s, p, w, q, t, c, w as real * q);
    PartAt(v.s, p, g.d, v.b, t, c);
    Difference(c, w as real * q, g.d, w * v.s, v.b * p, t);
    ScaledAbs(c, t, w as real * q - g.d, w * v.s - v.b * p);
  }

  lemma Difference(c: real, x: real, y: real, m: int, n: int, t: real)
    requires c * x == m as real * t && c * y == n as real * t
    ensures c * (x - y) == (m - n) as real * t
  {
    assert c * (x - y) == c * x - c * y;
    assert (m - n) as real * t == m as real * t - n as real * t;
  }

  /** Distances on integers order as distances on reals. */
  lemma CloserScaled(v: Scaled, g: Target, p: nat, t: real, q: real, w: nat, w': nat)
    requires RepresentsAt(v, g, t) && p > 0 && t > 0.0 && q * p as real == t
    requires Abs(w * v.s - v.b * p) <= Abs(w' * v.s - v.b * p)
    ensures RAbs(w as real * q - g.d) <= RAbs(w' as real * q - g.d)
  {
    hide RAbs, Abs, RepresentsAt;
    DistanceScaled(v, g, p, t, q, w);
    DistanceScaled(v, g, p, t, q, w');
    OrderBack(v.s as real * p as real, t, RAbs(w as real * q - g.d), RAbs(w' as real * q - g.d),
              Abs(w * v.s - v.b * p), Abs(w' * v.s - v.b * p));
  }

  lemma DistanceReals(v: Scaled, g: Target, k: int, n: nat, w: nat, w': nat)
    requires n >= 1 && Represents(v, g, k) && Distance(v, w, n) <= Distance(v, w', n)
    ensures RAbs(Decimal(w, k - n + 1) - g.d) <= RAbs(Decimal(w', k - n + 1) - g.d)
  {
    hide RPow, Pow, RepresentsAt, RAbs, Abs;
    PowSplit(k, n);
    CloserScaled(v, g, Pow(10, n - 1), RPow(10, k), RPow(10, k - n + 1), w, w');
  }

  lemma OrderBack(c: real, t: real, x: real, y: real, m: nat, n: nat)
    requires c > 0.0 && t > 0.0 && c * x == m as real * t && c * y == n as real * t && m <= n
    ensures x <= y
  {
    ScaleLess(c, y, x);
    ScaleLess(t, n as real, m as real);
  }

  /** w is closest among all decimals of up to n digits that read back as d, at any exponent. */
  lemma ClosestAtAll(v: Scaled, g: Target, k: int, n: nat, w: nat, w': nat, t: int)
    requires Represents(v, g, k) && InDecade(g.d, k) && 0.0 < g.lo < g.d && 0.0 < g.hi
    requires n >= 1 && NoneShorter(v, n) && Closest(v, w, n)
    requires w' < Pow(10, n) && ReadsBack(g, Decimal(w', t))
    ensures RAbs(Decimal(w, k - n + 1) - g.d) <= RAbs(Decimal(w', t) - g.d)
  {
    if w' == 0 {
      ZeroDecimal(t);
      assert false;
    }
    var x, j := Decimal(w', t), Length(w');
    LengthBelow(w', n);
    Decade(w', t);
    if t + j - 1 == k {
      assert t == k - j + 1;
      IntervalOfReals(v, g, k, w', j);
      assert j == n;
      DistanceReals(v, g, k, n, w, w');
    } else if t + j - 1 > k {
      RPowMonotone(10, k + 1, t + j - 1);
      AtBoundary(v, g, k, n, w, n, x);
    } else {
      RPowMonotone(10, t + j, k);
      AtBoundary(v, g, k, n, w, n - 1, x);
    }
  }

  /** A number outside d's decade is farther from d than the power of ten in between. */
  lemma AtBoundary(v: Scaled, g: Target, k: int, n: nat, w: nat, m: nat, x: real)
    requires Represents(v, g, k) && InDecade(g.d, k) && 0.0 < g.lo && 0.0 < g.hi
    requires n >= 1 && Closest(v, w, n) && ReadsBack(g, x)
    requires (m == n && RPow(10, k + 1) <= x) || (m == n - 1 && x < RPow(10, k))
    ensures RAbs(Decimal(w, k - n + 1) - g.d) <= RAbs(x - g.d)
  {
    hide RPow, Pow, Represents, Closest, Decimal;
    var y := Decimal(Pow(10, m), k - n + 1);
    PowerDecimal(m, k - n + 1);
    assert k - n + 1 + m == if m == n then k + 1 else k;
    if !ReadsBack(g, y) {
      Beyond(g, x, y);
    }
    IntervalOfReals(v, g, k, Pow(10, m), n);
    ClosestOne(v, w, n, Pow(10, m));
    DistanceReals(v, g, k, n, w, Pow(10, m));
  }

  lemma ClosestOne(v: Scaled, w: nat, n: nat, w': nat)
    requires n >= 1 && Closest(v, w, n) && InInterval(v, w', n)
    ensures Distance(v, w, n) <= Distance(v, w', n)
  {
  }
}
