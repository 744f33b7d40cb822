/** Addresses and sizes of arenas: 64-bit words, alignment, and the header of an oversized arena. */
module Addresses {
  const WORDS: nat := 0x1_0000_0000_0000_0000
  const ARENA_STRUCT: nat := 32      // sizeof(JSArena)
  const POOL_STRUCT: nat := 64       // sizeof(JSArenaPool), of which the first arena is the beginning
  const POINTER_SIZE: nat := 8            // sizeof(JSArena **), and its alignment

  function Power(k: nat): (m: nat)
    ensures m >= 1
  {
    if k == 0 then 1 else 2 * Power(k - 1)
  }

  /** n & ~(m - 1) for a power of two m. */
  function Floor(n: nat, m: nat): (r: nat)
    requires m >= 1
    ensures r <= n < r + m && r % m == 0
  {
    FloorFacts(n, m);
    n - n % m
  }

  lemma Times(q: int, d: int, m: nat)
    ensures q < d ==> q * m + m <= d * m
  {
    if q < d {
      var e := d - q - 1;
      NonNegative(e, m);
      Distributes(q, 1, m);
      Distributes(q + 1, e, m);
    }
  }

  lemma NonNegative(x: int, y: int)
    requires x >= 0 && y >= 0
    ensures x * y >= 0
  {
  }

  lemma Distributes(x: int, y: int, m: int)
    ensures (x + y) * m == x * m + y * m
  {
  }

  /** Quotient and remainder are unique. */
  lemma Remainder(x: int, m: nat, q: int, r: int)
    requires m >= 1 && x == q * m + r && 0 <= r < m
    ensures x % m == r && x / m == q
  {
    var d := x / m;
    assert x == d * m + x % m;
    Times(q, d, m);
    Times(d, q, m);
  }

  lemma FloorFacts(n: nat, m: nat)
    requires m >= 1
    ensures 0 <= n - n % m <= n < n - n % m + m && (n - n % m) % m == 0
  {
    var q := n / m;
    assert n == q * m + n % m;
    Times(q, 0, m);
    Remainder(q * m, m, q, 0);
  }

  lemma MultipleModulo(q: nat, m: nat)
    requires m >= 1
    ensures (q * m) % m == 0
  {
    Remainder(q * m, m, q, 0);
  }

  /** Sums of multiples are multiples. */
  lemma SumModulo(x: nat, y: nat, m: nat)
    requires m >= 1 && x % m == 0 && y % m == 0
    ensures (x + y) % m == 0
  {
    var a, b := x / m, y / m;
    assert x == a * m && y == b * m;
    assert x + y == (a + b) * m;
    MultipleModulo(a + b, m);
  }

  lemma MultiplesApart(x: nat, y: nat, m: nat)
    requires m >= 1 && x % m == 0 && y % m == 0 && x < y
    ensures x + m <= y
  {
    var a, b := x / m, y / m;
    Quotient(x, m);
    Quotient(y, m);
    if b <= a {
      Times(b, a, m);
      assert false;
    }
    Times(a, b, m);
  }

  lemma Quotient(x: nat, m: nat)
    requires m >= 1 && x % m == 0
    ensures x == (x / m) * m
  {
  }

  /** JS_ARENA_ALIGN, where the sum does not wrap around. */
  function Align(n: nat, m: nat): (r: nat)
    requires m >= 1
    ensures n <= r < n + m && r % m == 0
  {
    Floor(n + m - 1, m)
  }

  lemma AlignAligned(n: nat, m: nat)
    requires m >= 1 && n % m == 0
    ensures Align(n, m) == n
  {
    hide Align;
    if Align(n, m) > n {
      MultiplesApart(n, Align(n, m), m);
      assert false;
    }
  }

  /** HEADER_SIZE: a pointer, and padding if the pool is aligned less than pointers are. */
  function HeaderSize(m: nat): nat
    requires m >= 1
  {
    POINTER_SIZE + if m < POINTER_SIZE then POINTER_SIZE - m else 0
  }

  /** HEADER_BASE_MASK + 1, the larger of two powers of two. */
  function HeaderAlign(m: nat): nat
  {
    if m < POINTER_SIZE then POINTER_SIZE else m
  }

  lemma PowersDivide(j: nat, k: nat, x: nat)
    requires j <= k && x % Power(k) == 0
    ensures x % Power(j) == 0
  {
    if j < k {
      var h := Power(k - 1);
      var q := x / (2 * h);
      assert x == (2 * q) * h by {
        assert x == q * (2 * h);
      }
      MultipleModulo(2 * q, h);
      PowersDivide(j, k - 1, x);
    }
  }

  lemma {:induction false} PowerMonotone(j: nat, k: nat)
    requires j <= k
    ensures Power(j) <= Power(k)
  {
    if j < k {
      PowerMonotone(j, k - 1);
    }
  }

  /** For a power of two m, what is aligned for the header is aligned for the pool and for pointers. */
  lemma HeaderAlignment(k: nat, x: nat)
    requires x % HeaderAlign(Power(k)) == 0
    ensures x % Power(k) == 0 && x % POINTER_SIZE == 0
  {
    assert Power(3) == POINTER_SIZE;
    if Power(k) < POINTER_SIZE {
      if k > 3 {
        PowerMonotone(3, k);
      }
      PowersDivide(k, 3, x);
    } else {
      if k < 3 {
        PowerMonotone(k, 2);
      }
      PowersDivide(3, k, x);
    }
  }

  /**
   * The base of an oversized arena at address a: it is aligned, the slot for the back-pointer just
   * before it is aligned and lies behind the arena structure, and nb bytes fit behind it.
   */
  lemma OversizedBase(k: nat, a: nat, nb: nat)
    ensures var m := Power(k);
            var hdrsz := ARENA_STRUCT + HeaderSize(m) + (m - 1);
            var base := Floor(a + hdrsz, HeaderAlign(m));
            && base % m == 0 && base % POINTER_SIZE == 0
            && a + ARENA_STRUCT <= base - POINTER_SIZE
            && base + nb <= a + hdrsz + nb
  {
    var m := Power(k);
    var hdrsz := ARENA_STRUCT + HeaderSize(m) + (m - 1);
    HeaderAlignment(k, Floor(a + hdrsz, HeaderAlign(m)));
  }

  /** JS_CeilingLog2 */
  method CeilingLog2(n: nat) returns (k: nat)
    requires n >= 1
    ensures Power(k) >= n && (k > 0 ==> Power(k - 1) < n)
  {
    k := 0;
    var p := 1;
    while p < n
      invariant p == Power(k) && (k > 0 ==> Power(k - 1) < n)
      decreases n - p
    {
      k, p := k + 1, 2 * p;
    }
  }
}
