/** Powers of natural numbers, and powers with an integer exponent over the reals. */
module Powers {

  function Pow(b: nat, e: nat): nat
  {
    if e == 0 then 1 else b * Pow(b, e - 1)
  }

  lemma PowZero(b: nat)
    ensures Pow(b, 0) == 1
  {
  }

  lemma PowNext(b: nat, e: nat)
    ensures Pow(b, e + 1) == b * Pow(b, e)
  {
  }

  lemma {:induction false} PowPositive(b: nat, e: nat)
    requires b > 0
    ensures Pow(b, e) > 0
  {
    if e > 0 {
      PowPositive(b, e - 1);
    }
  }

  lemma {:induction false} PowAdd(b: nat, m: nat, n: nat)
    ensures Pow(b, m + n) == Pow(b, m) * Pow(b, n)
  {
    if m > 0 {
      PowAdd(b, m - 1, n);
      assert Pow(b, m + n) == b * Pow(b, m + n - 1);
    }
  }

  lemma {:induction false} PowMonotone(b: nat, m: nat, n: nat)
    requires b > 0 && m <= n
    ensures Pow(b, m) <= Pow(b, n)
  {
    PowAdd(b, m, n - m);
    PowPositive(b, m);
    PowPositive(b, n - m);
    MulAtLeast(Pow(b, m), Pow(b, n - m));
  }

  lemma PowReflects(b: nat, m: nat, n: nat)
    requires b >= 1 && Pow(b, m) < Pow(b, n)
    ensures m < n
  {
    if m >= n {
      PowMonotone(b, n, m);
    }
  }

  lemma MulMonotone(x: int, y: int, p: nat)
    requires x <= y
    ensures x * p <= y * p
  {
    assert y * p == x * p + (y - x) * p;
  }

  lemma Assoc(x: int, y: int, z: int)
    ensures x * y * z == x * (y * z)
  {
  }

  lemma TimesTen(x: nat, p: nat)
    ensures x * (10 * p) == 10 * (x * p) == (10 * x) * p
  {
  }

  lemma MulAtLeast(x: nat, y: nat)
    requires y >= 1
    ensures x <= x * y
  {
    assert x * y == x + x * (y - 1);
  }

  lemma {:induction false} PowPow(b: nat, m: nat, n: nat)
    ensures Pow(Pow(b, m), n) == Pow(b, m * n)
  {
    if n > 0 {
      PowPow(b, m, n - 1);
      assert m * n == m + m * (n - 1);
      PowAdd(b, m, m * (n - 1));
    } else {
      assert m * n == 0;
    }
  }

  // ----- Integer exponents, over the reals -----

  /** b^e for an integer exponent. */
  function RPow(b: nat, e: int): (r: real)
    requires b > 0
    ensures r > 0.0
    decreases if e >= 0 then e else -e
  {
    if e == 0 then 1.0
    else if e > 0 then b as real * RPow(b, e - 1)
    else RPow(b, e + 1) / b as real
  }

  lemma RPowZero(b: nat)
    requires b > 0
    ensures RPow(b, 0) == 1.0
  {
  }

  lemma RPowStep(b: nat, e: int)
    requires b > 0
    ensures RPow(b, e + 1) == b as real * RPow(b, e)
  {
    if e < 0 {
      var x, c := RPow(b, e + 1), b as real;
      assert RPow(b, e) == x / c;
      assert c * (x / c) == x;
    }
  }

  lemma RAssoc(c: real, x: real, y: real)
    ensures (c * x) * y == c * (x * y)
  {
  }

  lemma MulCancel(c: real, x: real, y: real)
    requires c != 0.0 && c * x == c * y
    ensures x == y
  {
    assert c * (x - y) == 0.0;
  }

  lemma AssocCancel(c: real, x: real, y: real, z: real)
    requires c != 0.0 && c * z == (c * x) * y
    ensures z == x * y
  {
    RAssoc(c, x, y);
    MulCancel(c, z, x * y);
  }

  lemma {:induction false} RPowAdd(b: nat, m: int, n: int)
    requires b > 0
    ensures RPow(b, m + n) == RPow(b, m) * RPow(b, n)
    decreases if m >= 0 then m else -m
  {
    hide RPow;
    RPowZero(b);
    if m > 0 {
      RPowAdd(b, m - 1, n);
      RPowUp(b, m - 1, n);
    } else if m < 0 {
      RPowAdd(b, m + 1, n);
      RPowDown(b, m, n);
    }
  }

  lemma RPowUp(b: nat, m: int, n: int)
    requires b > 0 && RPow(b, m + n) == RPow(b, m) * RPow(b, n)
    ensures RPow(b, (m + 1) + n) == RPow(b, m + 1) * RPow(b, n)
  {
    hide RPow;
    RPowStep(b, m);
    RPowStep(b, m + n);
    RAssoc(b as real, RPow(b, m), RPow(b, n));
    assert m + n + 1 == (m + 1) + n;
  }

  lemma RPowDown(b: nat, m: int, n: int)
    requires b > 0 && RPow(b, m + 1 + n) == RPow(b, m + 1) * RPow(b, n)
    ensures RPow(b, m + n) == RPow(b, m) * RPow(b, n)
  {
    hide RPow;
    RPowStep(b, m);
    RPowStep(b, m + n);
    assert m + n + 1 == m + 1 + n;
    AssocCancel(b as real, RPow(b, m), RPow(b, n), RPow(b, m + n));
  }

  lemma {:induction false} RPowNat(b: nat, e: nat)
    requires b > 0
    ensures RPow(b, e) == Pow(b, e) as real
  {
    if e > 0 {
      RPowNat(b, e - 1);
      assert (b * Pow(b, e - 1)) as real == b as real * Pow(b, e - 1) as real;
    }
  }

  lemma RSwap(a: real, b: real, x: real, y: real)
    ensures (a * b) * (x * y) == (a * x) * (b * y)
  {
    RAssoc(a, b, x * y);
    RAssoc(b, x, y);
    RAssoc(x, b, y);
    RAssoc(a, x, b * y);
    assert b * x == x * b;
  }

  /** A power of ten splits into its powers of two and five. */
  lemma {:induction false} RPowTen(e: int)
    ensures RPow(10, e) == RPow(2, e) * RPow(5, e)
    decreases if e >= 0 then e else -e
  {
    hide RPow;
    if e == 0 {
      RPowZero(2);
      RPowZero(5);
      RPowZero(10);
    } else if e > 0 {
      RPowTen(e - 1);
      RPowTenStep(e - 1);
    } else {
      RPowTen(e + 1);
      RPowTenStep(e);
    }
  }

  lemma RPowTenStep(e: int)
    ensures RPow(10, e) == RPow(2, e) * RPow(5, e)
       <==> RPow(10, e + 1) == RPow(2, e + 1) * RPow(5, e + 1)
  {
    hide RPow;
    RPowStep(2, e);
    RPowStep(5, e);
    RPowStep(10, e);
    RSwap(2.0, 5.0, RPow(2, e), RPow(5, e));
  }
}
