/** The rest of the multiprecision kernel of js/dtoa.c: shifting, comparing, subtracting. */
module Kernel {
  import opened Powers
  import opened Words
  import opened BigInts

  // ----- lshift -----

  /** A word shifted left by k bits: the bits that stay and the bits that move to the next word. */
  lemma ShiftSplit(w: Word, hi: nat, lo: nat, z: nat)
    requires hi > 0 && lo > 0 && hi * lo == BASE && z < hi
    ensures w / lo < hi
    ensures 0 <= (w * hi) % BASE + z < BASE
    ensures (w * hi) % BASE + z + (w / lo) * BASE == w * hi + z
  {
    var q, l := w / lo, w % lo;
    assert w == q * lo + l;
    SplitArith(q, l, hi, lo, w);
    ModUnique(w * hi, q, l * hi);
    if q >= hi {
      MulMonotone(hi, q, lo);
      assert false;
    }
  }

  lemma SplitArith(q: nat, l: nat, hi: nat, lo: nat, w: int)
    requires hi > 0 && hi * lo == BASE && l < lo && w == q * lo + l
    ensures w * hi == q * BASE + l * hi
    ensures 0 <= l * hi <= BASE - hi
  {
    assert w * hi == (q * lo) * hi + l * hi;
    assert (q * lo) * hi == q * (hi * lo);
    assert lo * hi == l * hi + (lo - l) * hi;
    MulMonotone(1, lo - l, hi);
  }

  lemma ModUnique(v: int, q: int, r: int)
    requires v == q * BASE + r && 0 <= r < BASE
    ensures v % BASE == r && v / BASE == q
  {
  }

  ghost predicate ShiftDone(x1: seq<Word>, x: seq<Word>, n: nat, hi: nat, i: nat, z: nat)
  {
    && i <= |x| && n + i <= |x1| && z < hi
    && Val(x1[..n + i]) + z * Pow(BASE, n + i) == Val(x[..i]) * hi * Pow(BASE, n)
    && (i > 0 && x[i - 1] > 0 ==> x1[n + i - 1] > 0 || z > 0)
  }

  lemma ShiftArith(p: nat, q: nat, v: nat, v0: nat, w: nat, w0: nat, hi: nat, z: nat, z': nat)
    requires v + z * (p * q) == v0 * hi * p
    requires w + z' * BASE == w0 * hi + z
    ensures (v + w * (p * q)) + z' * (BASE * (p * q)) == (v0 + w0 * q) * hi * p
  {
    var t := p * q;
    assert z' * (BASE * t) == (z' * BASE) * t;
    assert (w + z' * BASE) * t == w * t + (z' * BASE) * t;
    assert (w0 * hi + z) * t == (w0 * hi) * t + z * t;
    assert (w0 * hi) * t == (w0 * q) * hi * p;
    assert (v0 + w0 * q) * hi == v0 * hi + (w0 * q) * hi;
    assert (v0 * hi + (w0 * q) * hi) * p == v0 * hi * p + (w0 * q) * hi * p;
  }

  lemma ShiftNext(x1: seq<Word>, x: seq<Word>, n: nat, hi: nat, lo: nat, i: nat, z: nat, w: Word)
    requires ShiftDone(x1, x, n, hi, i, z) && i < |x| && n + i < |x1|
    requires hi > 0 && lo > 0 && hi * lo == BASE
    requires w == (x[i] * hi) % BASE + z
    ensures ShiftDone(x1[n + i := w], x, n, hi, i + 1, x[i] / lo)
  {
    var x2 := x1[n + i := w];
    assert x2[..n + i] == x1[..n + i];
    ValNext(x2, n + i);
    ValNext(x, i);
    PowAdd(BASE, n, i);
    PowNext(BASE, n + i);
    ShiftSplit(x[i], hi, lo, z);
    hide Val, Pow;
    ShiftArith(Pow(BASE, n), Pow(BASE, i), Val(x1[..n + i]), Val(x[..i]), w, x[i], hi, z, x[i] / lo);
    if x[i] > 0 {
      MulMonotone(1, x[i], hi);
    }
  }

  lemma ShiftStart(x1: seq<Word>, x: seq<Word>, n: nat, hi: nat)
    requires hi > 0 && n <= |x1| && forall i :: 0 <= i < n ==> x1[i] == 0
    ensures ShiftDone(x1, x, n, hi, 0, 0)
  {
    ValZeros(x1[..n]);
    assert Val(x[..0]) == 0;
  }

  /** The loop of lshift for a shift that is not a whole number of words; z is what is left for the next word. */
  method ShiftWords(b1: Bigint, b: Bigint, n: nat, k: nat) returns (z: Word)
    requires b1.Shaped() && b.Valid() && b.wds > 0 && b.x != b1.x
    requires n + b.wds <= b1.x.Length && 0 < k < 32
    requires forall i :: 0 <= i < n ==> b1.x[i] == 0
    modifies b1.x
    ensures ShiftDone(b1.x[..], b.x[..b.wds], n, Pow(2, k), b.wds, z)
  {
    hide Val, Pow;
    var k1 := 32 - k;
    PowPositive(2, k);
    PowPositive(2, k1);
    PowAdd(2, k, k1);
    BasePow1();
    var i := 0;
    z := 0;
    ShiftStart(b1.x[..], b.x[..b.wds], n, Pow(2, k));
    while i == 0 || i < b.wds
      invariant i <= b.wds
      invariant ShiftDone(b1.x[..], b.x[..b.wds], n, Pow(2, k), i, z)
      decreases b.wds - i
    {
      ghost var before := b1.x[..];
      ShiftSplit(b.x[i], Pow(2, k), Pow(2, k1), z);
      var w := (b.x[i] * Pow(2, k)) % BASE + z;
      b1.x[n + i] := w;
      assert b1.x[..] == before[n + i := w];
      ShiftNext(before, b.x[..b.wds], n, Pow(2, k), Pow(2, k1), i, z, w);
      z := b.x[i] / Pow(2, k1);
      i := i + 1;
    }
  }

  lemma BasePow1()
    ensures Pow(2, 32) == BASE
  {
    BasePow(1);
    assert Pow(BASE, 1) == BASE * Pow(BASE, 0);
  }

  lemma ShiftedValue(k: nat, v: nat, r: nat)
    requires r == v * Pow(2, k % 32) * Pow(BASE, k / 32)
    ensures r == v * Pow(2, k)
  {
    hide Pow;
    BasePow(k / 32);
    assert k % 32 + 32 * (k / 32) == k;
    PowAdd(2, k % 32, 32 * (k / 32));
    Assoc(v, Pow(2, k % 32), Pow(BASE, k / 32));
  }

  lemma {:induction false} CopiedValue(x1: seq<Word>, x: seq<Word>, n: nat)
    requires |x1| == n + |x| && x1[n..] == x && forall i :: 0 <= i < n ==> x1[i] == 0
    ensures Val(x1) == Val(x) * Pow(BASE, n)
    decreases |x|
  {
    if |x| == 0 {
      ValZeros(x1);
    } else {
      var m := |x| - 1;
      CopiedValue(x1[..n + m], x[..m], n);
      assert x1[n + m] == x[m];
      assert x1 == x1[..n + m] + [x[m]] && x == x[..m] + [x[m]];
      CopiedStep(x1[..n + m], x[..m], n, x[m]);
    }
  }

  lemma CopiedStep(x1: seq<Word>, x: seq<Word>, n: nat, w: Word)
    requires |x1| == n + |x| && Val(x1) == Val(x) * Pow(BASE, n)
    ensures Val(x1 + [w]) == Val(x + [w]) * Pow(BASE, n)
  {
    hide Val, Pow;
    ValPush(x1, w);
    ValPush(x, w);
    PowAdd(BASE, n, |x|);
    CopiedArith(Val(x), w, Pow(BASE, n), Pow(BASE, |x|));
  }

  lemma CopiedArith(v: nat, w: nat, p: nat, q: nat)
    ensures v * p + w * (p * q) == (v + w * q) * p
  {
    assert (v + w * q) * p == v * p + (w * q) * p;
  }

  /** The two ways in which lshift fills its result. Returns the number of words in use. */
  method ShiftFill(b1: Bigint, b: Bigint, k: nat) returns (len: nat)
    requires b1.Shaped() && b.Valid() && b.wds > 0 && b1.x != b.x
    requires k / 32 + b.wds + 1 <= b1.x.Length
    modifies b1.x
    ensures k / 32 + b.wds <= len <= k / 32 + b.wds + 1
    ensures Val(b1.x[..len]) == b.Value() * Pow(2, k)
    ensures b.x[b.wds - 1] > 0 ==> b1.x[len - 1] > 0
  {
    hide Val, Pow;
    var n := k / 32;
    len := n + b.wds;
    forall i | 0 <= i < n {
      b1.x[i] := 0;
    }
    ghost var bw := b.x[..b.wds];
    if k % 32 != 0 {
      var z := ShiftWords(b1, b, n, k % 32);
      ghost var s := b1.x[..];
      b1.x[len] := z;
      assert b1.x[..len + 1] == s[..len] + [z] && b1.x[..len] == s[..len];
      ValPush(s[..len], z);
      assert bw[..b.wds] == bw;
      ShiftedValue(k, Val(bw), Val(b1.x[..len + 1]));
      if z != 0 {
        len := len + 1;
      }
    } else {
      forall i | 0 <= i < b.wds {
        b1.x[n + i] := b.x[i];
      }
      assert b1.x[..len][n..] == bw;
      CopiedValue(b1.x[..len], bw, n);
      PowZero(2);
      ShiftedValue(k, Val(bw), Val(b1.x[..len]));
    }
  }

  /** Multiplies by 2^k into a fresh Bigint of just enough capacity. */
  method LShift(b: Bigint, k: nat) returns (b1: Bigint)
    requires b.Valid() && b.wds > 0
    ensures fresh(b1.Repr()) && b1.Valid() && b1.sign == 0 && b1.wds > 0
    ensures b1.Value() == b.Value() * Pow(2, k)
    ensures b.Normal() && b.Value() > 0 ==> b1.Normal()
  {
    var n1 := k / 32 + b.wds + 1;
    var k1, i := b.k, b.maxwds;
    while n1 > i
      invariant i == Pow(2, k1) && i > 0
      decreases n1 - i
    {
      i := i * 2;
      k1 := k1 + 1;
    }
    hide Pow;
    b1 := new Bigint.Balloc(k1);
    b1.wds := ShiftFill(b1, b, k);
    if b.wds == 1 && b.x[0] == 0 {
      ValZeros(b.x[..1]);
    }
  }

  // ----- cmp -----

  function Sign(x: int): int
  {
    if x < 0 then -1 else if x > 0 then 1 else 0
  }

  ghost predicate Comparable(a: Bigint, b: Bigint)
    reads a`wds, a.x, b`wds, b.x
  {
    a.Valid() && a.Normal() && b.Valid() && b.Normal() && (a.wds > 0 || b.wds > 0)
  }

  lemma LongerIsLarger(a: Bigint, b: Bigint)
    requires Comparable(a, b) && a.wds < b.wds
    ensures a.Value() < b.Value() || a.Value() == b.Value() == 0
  {
    if b.wds == 1 && b.x[0] == 0 {
      ValZeros(b.x[..1]);
    } else {
      ValLonger(a.x[..a.wds], b.x[..b.wds]);
    }
  }

  /**
   * Orders two Bigints by length and then from the most significant word down. The two ways of
   * writing zero are told apart.
   */
  method Cmp(a: Bigint, b: Bigint) returns (r: int)
    requires Comparable(a, b)
    ensures a.Value() != b.Value() ==> Sign(r) == Sign(a.Value() - b.Value())
    ensures a.Value() == b.Value() ==> r == a.wds - b.wds
    ensures a.Value() == b.Value() > 0 ==> r == 0
  {
    var j := b.wds;
    r := a.wds - j;
    if r != 0 {
      if r < 0 {
        LongerIsLarger(a, b);
      } else {
        LongerIsLarger(b, a);
      }
      return;
    }
    var i := j;
    while true
      invariant 0 < i <= j == a.wds
      invariant forall m :: i <= m < j ==> a.x[m] == b.x[m]
      decreases i
    {
      i := i - 1;
      if a.x[i] != b.x[i] {
        if a.x[i] < b.x[i] {
          ValCompare(a.x[..j], b.x[..j], i);
          return -1;
        } else {
          ValCompare(b.x[..j], a.x[..j], i);
          return 1;
        }
      }
      if i <= 0 {
        break;
      }
    }
    assert a.x[..j] == b.x[..j];
    return 0;
  }

  // ----- Subtraction with borrow, in 64-bit unsigned arithmetic -----

  const ULLONG: nat := 0x1_0000_0000_0000_0000

  function LowWord(y: int): Word
  {
    (y % ULLONG) % BASE
  }

  function BorrowBit(y: int): nat
  {
    (y % ULLONG) / BASE % 2
  }

  lemma BorrowSplit(y: int)
    requires 0 <= y + BASE && y < BASE
    ensures BorrowBit(y) <= 1 && LowWord(y) - BorrowBit(y) * BASE == y
  {
    if y < 0 {
      var u := y + ULLONG;
      assert y % ULLONG == u;
      assert u / BASE == BASE - 1;
    }
  }

  // ----- diff -----

  ghost predicate SubDone(c: seq<Word>, a: seq<Word>, b: seq<Word>, i: nat, borrow: nat)
  {
    && i <= |a| == |b| && i <= |c| && borrow <= 1
    && Val(c[..i]) == Val(a[..i]) - Val(b[..i]) + borrow * Pow(BASE, i)
  }

  lemma SubNext(c: seq<Word>, a: seq<Word>, b: seq<Word>, i: nat, borrow: nat)
    requires SubDone(c, a, b, i, borrow) && i < |a| && i < |c|
    ensures var y := a[i] - b[i] - borrow;
            SubDone(c[i := LowWord(y)], a, b, i + 1, BorrowBit(y))
  {
    var y := a[i] - b[i] - borrow;
    var c1 := c[i := LowWord(y)];
    BorrowSplit(y);
    assert c1[..i] == c[..i];
    ValNext(c1, i);
    ValNext(a, i);
    ValNext(b, i);
    PowNext(BASE, i);
    hide Val, Pow;
    SubArith(Pow(BASE, i), Val(c[..i]), Val(a[..i]), Val(b[..i]), LowWord(y), a[i], b[i], borrow, BorrowBit(y));
  }

  lemma SubArith(p: nat, v: int, va: int, vb: int, w: int, wa: int, wb: int, c: int, c': int)
    requires v == va - vb + c * p
    requires w == wa - wb - c + c' * BASE
    ensures v + w * p == (va + wa * p) - (vb + wb * p) + c' * (BASE * p)
  {
    assert (wa - wb - c + c' * BASE) * p == wa * p - wb * p - c * p + (c' * BASE) * p;
    assert (c' * BASE) * p == c' * (BASE * p);
  }

  /** b's words, with zeros above them up to n words. */
  ghost function Extended(b: seq<Word>, n: nat): (s: seq<Word>)
    requires |b| <= n
    ensures |s| == n && s[..|b|] == b && Val(s) == Val(b)
  {
    var s := b + seq(n - |b|, _ => 0);
    ValTrim(s, |b|);
    assert s[..|b|] == b;
    s
  }

  /** The two loops of diff: c receives a - b for a larger a. */
  method SubWords(c: Bigint, a: Bigint, b: Bigint)
    requires c.Shaped() && a.Valid() && b.Valid() && c.x != a.x && c.x != b.x
    requires 0 < b.wds <= a.wds <= c.x.Length && b.Value() <= a.Value()
    modifies c.x
    ensures Val(c.x[..a.wds]) == a.Value() - b.Value()
  {
    hide Val, Pow;
    ghost var aw := a.x[..a.wds];
    ghost var bw := Extended(b.x[..b.wds], a.wds);
    var i, borrow: nat := 0, 0;
    SubStart(c.x[..], aw, bw);
    while i == 0 || i < b.wds
      invariant i <= b.wds
      invariant SubDone(c.x[..], aw, bw, i, borrow)
      decreases b.wds - i
    {
      ghost var before := c.x[..];
      SubNext(before, aw, bw, i, borrow);
      assert b.x[i] == b.x[..b.wds][i] == bw[i];
      var y := a.x[i] - b.x[i] - borrow;
      borrow := BorrowBit(y);
      c.x[i] := LowWord(y);
      assert c.x[..] == before[i := LowWord(y)];
      i := i + 1;
    }
    while i < a.wds
      invariant b.wds <= i <= a.wds
      invariant SubDone(c.x[..], aw, bw, i, borrow)
    {
      ghost var before := c.x[..];
      SubNext(before, aw, bw, i, borrow);
      ExtendedAbove(b.x[..b.wds], a.wds, i);
      var y := a.x[i] - borrow;
      borrow := BorrowBit(y);
      c.x[i] := LowWord(y);
      assert c.x[..] == before[i := LowWord(y)];
      i := i + 1;
    }
    SubEnd(c.x[..], aw, bw, borrow);
    assert c.x[..][..a.wds] == c.x[..a.wds];
  }

  lemma SubStart(c: seq<Word>, a: seq<Word>, b: seq<Word>)
    requires |a| == |b|
    ensures SubDone(c, a, b, 0, 0)
  {
  }

  lemma ExtendedAbove(b: seq<Word>, n: nat, i: nat)
    requires |b| <= i < n
    ensures Extended(b, n)[i] == 0
  {
  }

  lemma SubEnd(c: seq<Word>, a: seq<Word>, b: seq<Word>, borrow: nat)
    requires SubDone(c, a, b, |a|, borrow) && Val(b) <= Val(a)
    ensures Val(c[..|a|]) == Val(a) - Val(b)
  {
    assert a[..|a|] == a && b[..|b|] == b;
    ValBound(c[..|a|]);
  }

  /** The absolute difference, with its sign. */
  method Diff(a0: Bigint, b0: Bigint) returns (c: Bigint)
    requires a0.Valid() && a0.Normal() && a0.wds > 0
    requires b0.Valid() && b0.Normal() && b0.wds > 0
    ensures fresh(c.Repr()) && c.Valid() && c.Normal() && c.wds > 0
    ensures c.Value() == (if a0.Value() < b0.Value() then b0.Value() - a0.Value() else a0.Value() - b0.Value())
    ensures c.sign == if a0.Value() < b0.Value() then 1 else 0
  {
    hide Val;
    var i := Cmp(a0, b0);
    if a0.Value() == b0.Value() == 0 {
      ZeroIsShort(a0);
      ZeroIsShort(b0);
    }
    if i == 0 {
      c := new Bigint.Balloc(0);
      c.wds := 1;
      c.x[0] := 0;
      ValZeros(c.x[..1]);
    } else if i < 0 {
      c := Subtract(b0, a0, 1);
    } else {
      c := Subtract(a0, b0, 0);
    }
  }

  lemma ZeroIsShort(b: Bigint)
    requires b.Valid() && b.Normal() && b.Value() == 0
    ensures b.wds <= 1
  {
    if b.wds > 1 {
      ValTop(b.x[..b.wds]);
      PowPositive(BASE, b.wds - 1);
      MulMonotone(1, b.x[b.wds - 1], Pow(BASE, b.wds - 1));
    }
  }

  /** diff after a and b have been put in order. */
  method Subtract(a: Bigint, b: Bigint, sign: int) returns (c: Bigint)
    requires a.Valid() && a.Normal() && b.Valid() && b.Normal() && b.wds > 0 && a.wds > 0
    requires b.Value() < a.Value()
    ensures fresh(c.Repr()) && c.Valid() && c.Normal() && c.wds > 0
    ensures c.Value() == a.Value() - b.Value() && c.sign == sign
  {
    if a.wds < b.wds {
      LongerIsLarger(a, b);
      assert false;
    }
    c := new Bigint.Balloc(a.k);
    c.sign := sign;
    SubWords(c, a, b);
    c.wds := TrimmedLength(c, a.wds);
  }
}
