/** The multiprecision kernel of js/dtoa.c: Bigint objects and the operations on them. */
module BigInts {
  import opened Powers
  import opened Words

  class Bigint {
    var next: Bigint?       // links the cached powers of five
    const k: nat            // the capacity is 2^k words
    const maxwds: nat
    var sign: int
    var wds: nat
    const x: array<Word>    // only x[..wds] is meaningful

    /** Balloc: room for 2^k words, whose contents are not initialised. */
    constructor Balloc(k: nat)
      ensures this.k == k && Shaped()
      ensures sign == 0 && wds == 0
      ensures next == null && fresh(x)
    {
      PowPositive(2, k);
      this.k, maxwds := k, Pow(2, k);
      next, sign, wds := null, 0, 0;
      x := new Word[Pow(2, k)];
    }

    ghost predicate Shaped()
    {
      maxwds == x.Length == Pow(2, k) && maxwds > 0
    }

    /** Zero is represented by one zero word or by no words at all; in the latter case x[0] is still zero. */
    ghost predicate Valid()
      reads `wds, x
    {
      Shaped() && wds <= maxwds && (wds == 0 ==> x[0] == 0)
    }

    ghost function Value(): nat
      requires wds <= x.Length
      reads `wds, x
    {
      Val(x[..wds])
    }

    /** No leading zero word, except in the one-word zero. */
    ghost predicate Normal()
      requires wds <= x.Length
      reads `wds, x
    {
      wds <= 1 || x[wds - 1] != 0
    }

    ghost function Repr(): set<object>
    {
      {this, x}
    }
  }

  lemma PositiveHasWords(b: Bigint)
    requires b.wds <= b.x.Length && b.Value() > 0
    ensures b.wds > 0
  {
  }

  /** Copies the sign, the word count and the words in use. */
  method Bcopy(to: Bigint, from: Bigint)
    requires to.Shaped() && from.Valid() && from.wds <= to.maxwds
    requires to != from && to.x != from.x
    modifies to`sign, to`wds, to.x
    ensures to.sign == from.sign && to.wds == from.wds
    ensures to.x[..from.wds] == from.x[..from.wds]
  {
    to.sign, to.wds := from.sign, from.wds;
    forall i | 0 <= i < from.wds {
      to.x[i] := from.x[i];
    }
  }

  // ----- multadd -----

  /** The first i words of x hold those of x0 times m plus a, with carry still to add at position i. */
  ghost predicate MultAddDone(x: seq<Word>, x0: seq<Word>, i: nat, carry: nat, m: nat, a: nat)
  {
    && i <= |x| == |x0| && carry < BASE
    && x[i..] == x0[i..]
    && Val(x[..i]) + carry * Pow(BASE, i) == Val(x0[..i]) * m + a
    && (i > 0 && x0[i - 1] > 0 && m > 0 ==> x[i - 1] > 0 || carry > 0)
  }

  lemma MultAddArith(p: nat, v: nat, v0: nat, w: nat, w0: nat, m: nat, c: nat, c': nat, a: nat)
    requires v + c * p == v0 * m + a
    requires w + c' * BASE == w0 * m + c
    ensures (v + w * p) + c' * (BASE * p) == (v0 + w0 * p) * m + a
  {
    assert c' * (BASE * p) == (c' * BASE) * p;
    assert (w + c' * BASE) * p == w * p + (c' * BASE) * p;
    assert (w0 * m + c) * p == (w0 * m) * p + c * p;
    assert (w0 * m) * p == (w0 * p) * m;
    assert (v0 + w0 * p) * m == v0 * m + (w0 * p) * m;
  }

  lemma WordTimes(w: Word, m: nat, c: nat)
    requires m < BASE && c < BASE
    ensures 0 <= w * m + c && (w * m + c) / BASE < BASE
    ensures w > 0 && m > 0 ==> w * m + c > 0
  {
    MulBound(w, m, BASE - 1);
  }

  lemma MultAddNext(x: seq<Word>, x0: seq<Word>, i: nat, c: nat, m: nat, a: nat, w: Word, c': nat)
    requires MultAddDone(x, x0, i, c, m, a) && i < |x|
    requires m < BASE && w == (x0[i] * m + c) % BASE && c' == (x0[i] * m + c) / BASE
    ensures MultAddDone(x[i := w], x0, i + 1, c', m, a)
  {
    WordTimes(x0[i], m, c);
    var x1 := x[i := w];
    assert x1[..i] == x[..i];
    assert x1[i + 1..] == x[i..][1..];
    assert x0[i + 1..] == x0[i..][1..];
    ValNext(x1, i);
    ValNext(x0, i);
    assert w + c' * BASE == x0[i] * m + c;
    MultAddArith(Pow(BASE, i), Val(x[..i]), Val(x0[..i]), w, x0[i], m, c, c', a);
  }

  /** Multiplies by m and adds a, in place unless a word more is needed than there is room for. */
  method MultAdd(b: Bigint, m: nat, a: nat) returns (r: Bigint)
    requires b.Valid() && m < BASE && a < BASE
    requires b.wds == 0 ==> a == 0
    modifies b, b.x
    ensures r.Valid() && (r == b || fresh(r.Repr()))
    ensures r.Value() == old(b.Value()) * m + a
    ensures old(b.Normal()) && m > 0 ==> r.Normal()
    ensures old(b.wds) <= r.wds <= old(b.wds) + 1
    ensures r.k <= b.k + 1 && r.sign == old(b.sign) && b.next == old(b.next)
  {
    hide Val, Pow;
    var wds := b.wds;
    var i: nat, carry: nat := 0, a;
    ghost var x0 := b.x[..];
    MultAddStart(x0, m, a);
    while i == 0 || i < wds
      invariant i <= (if wds == 0 then 1 else wds)
      invariant wds == 0 ==> carry == 0 && b.x[0] == 0
      invariant MultAddDone(b.x[..], x0, i, carry, m, a)
      decreases wds - i
      modifies b.x
    {
      ghost var before, carry0 := b.x[..], carry;
      assert b.x[i] == x0[i] by { assert b.x[i] == before[i..][0] == x0[i..][0]; }
      WordTimes(b.x[i], m, carry);
      var y := b.x[i] * m + carry;
      carry := y / BASE;
      b.x[i] := y % BASE;
      assert b.x[..] == before[i := y % BASE];
      MultAddNext(before, x0, i, carry0, m, a, y % BASE, carry);
      i := i + 1;
    }
    MultAddStart(b.x[..], m, a);
    assert b.x[..][..wds] == b.x[..wds] && x0[..wds] == old(b.x[..wds]);
    r := b;
    if carry != 0 {
      ValPush(b.x[..wds], carry);
      r := PushWord(b, carry);
    }
  }

  lemma MultAddStart(x0: seq<Word>, m: nat, a: nat)
    requires a < BASE
    ensures MultAddDone(x0, x0, 0, a, m, a)
    ensures Val(x0[..0]) == 0 * m == 0
  {
  }

  /** The overflow branch of multadd: one more significant word. */
  method PushWord(b: Bigint, w: Word) returns (r: Bigint)
    requires b.Valid() && b.wds > 0
    modifies b, b.x
    ensures r.Valid() && (r == b || fresh(r.Repr()))
    ensures r.wds == old(b.wds) + 1 && r.x[..r.wds] == old(b.x[..b.wds]) + [w]
    ensures r.k <= b.k + 1 && r.sign == old(b.sign) && b.next == old(b.next)
  {
    r := b;
    var wds := b.wds;
    if wds >= b.maxwds {
      var b1 := new Bigint.Balloc(b.k + 1);
      Bcopy(b1, b);
      r := b1;
    }
    r.x[wds] := w;
    r.wds := wds + 1;
  }

  /** A Bigint holding a small number. */
  method I2B(i: Word) returns (b: Bigint)
    ensures fresh(b.Repr()) && b.Valid() && b.Normal() && b.Value() == i && b.wds == 1
    ensures b.k == 1 && b.sign == 0 && b.next == null
  {
    b := new Bigint.Balloc(1);
    assert Pow(2, 1) == 2;
    b.x[0] := i;
    b.wds := 1;
    ValPush([], i);
    assert b.x[..1] == [] + [i];
  }

  // ----- mult -----

  /** Row j of the schoolbook product: a[..i] times y has been added at position j, with carry still to add. */
  ghost predicate RowDone(x: seq<Word>, x0: seq<Word>, a: seq<Word>, j: nat, y: nat, i: nat, carry: nat)
  {
    && i <= |a| && j + |a| < |x| == |x0| && carry < BASE
    && x[j + i..] == x0[j + i..]
    && Val(x[..j + i]) + carry * Pow(BASE, j + i) == Val(x0[..j + i]) + Val(a[..i]) * y * Pow(BASE, j)
  }

  lemma RowArith(p: nat, q: nat, v: nat, v0: nat, va: nat, w: nat, w0: nat, ai: nat, y: nat, c: nat, c': nat)
    requires v + c * (q * p) == v0 + va * y * p
    requires w + c' * BASE == ai * y + w0 + c
    ensures (v + w * (q * p)) + c' * (BASE * (q * p)) == (v0 + w0 * (q * p)) + (va + ai * q) * y * p
  {
    var t := q * p;
    assert c' * (BASE * t) == (c' * BASE) * t;
    assert (w + c' * BASE) * t == w * t + (c' * BASE) * t;
    assert (ai * y + w0 + c) * t == (ai * y) * t + w0 * t + c * t;
    assert (va + ai * q) * y == va * y + (ai * q) * y;
    assert (va * y + (ai * q) * y) * p == va * y * p + (ai * q) * y * p;
    assert (ai * q) * y * p == (ai * y) * t;
  }

  lemma RowBound(a: Word, y: Word, w: Word, c: nat)
    requires c < BASE
    ensures 0 <= a * y + w + c && (a * y + w + c) / BASE < BASE
  {
    MulBound(a, y, BASE - 1);
  }

  lemma MulBound(a: nat, y: nat, m: nat)
    requires a <= m && y <= m
    ensures 0 <= a * y <= m * m
  {
    assert m * m == a * y + a * (m - y) + (m - a) * m;
  }

  lemma RowNext(x: seq<Word>, x0: seq<Word>, a: seq<Word>, j: nat, y: Word, i: nat, c: nat, w: Word, c': nat)
    requires RowDone(x, x0, a, j, y, i, c) && i < |a|
    requires 0 <= a[i] * y + x0[j + i] + c
    requires w == (a[i] * y + x0[j + i] + c) % BASE && c' == (a[i] * y + x0[j + i] + c) / BASE
    ensures RowDone(x[j + i := w], x0, a, j, y, i + 1, c')
  {
    RowBound(a[i], y, x0[j + i], c);
    var x1 := x[j + i := w];
    assert x1[..j + i] == x[..j + i];
    assert x1[j + i + 1..] == x[j + i..][1..];
    assert x0[j + i + 1..] == x0[j + i..][1..];
    ValNext(x1, j + i);
    ValNext(x0, j + i);
    ValNext(a, i);
    PowAdd(BASE, i, j);
    assert w + c' * BASE == a[i] * y + x0[j + i] + c;
    var p, q := Pow(BASE, j), Pow(BASE, i);
    hide Val, Pow;
    assert Val(x[..j + i]) + c * (q * p) == Val(x0[..j + i]) + Val(a[..i]) * y * p;
    RowArith(p, q, Val(x[..j + i]), Val(x0[..j + i]), Val(a[..i]), w, x0[j + i], a[i], y, c, c');
    PowNext(BASE, j + i);
  }

  /** The inner loop of mult: adds a times y to c at position j; the word above receives the last carry. */
  method MulRow(c: Bigint, j: nat, a: Bigint, y: Word)
    requires c.Shaped() && a.Valid() && a.wds > 0 && c.x != a.x
    requires j + a.wds < c.x.Length
    modifies c.x
    ensures Val(c.x[..j + a.wds + 1]) == Val(old(c.x[..j + a.wds])) + a.Value() * y * Pow(BASE, j)
    ensures c.x[j + a.wds + 1..] == old(c.x[j + a.wds + 1..])
  {
    hide Val, Pow;
    ghost var aw, x0 := a.x[..a.wds], c.x[..];
    var i: nat, carry: nat := 0, 0;
    RowStart(x0, aw, j, y);
    while i == 0 || i < a.wds
      invariant i <= a.wds
      invariant RowDone(c.x[..], x0, aw, j, y, i, carry)
      decreases a.wds - i
    {
      ghost var before, carry0 := c.x[..], carry;
      assert c.x[j + i] == x0[j + i] by { assert c.x[j + i] == before[j + i..][0] == x0[j + i..][0]; }
      RowBound(a.x[i], y, c.x[j + i], carry);
      var z := a.x[i] * y + c.x[j + i] + carry;
      carry := z / BASE;
      c.x[j + i] := z % BASE;
      assert c.x[..] == before[j + i := z % BASE];
      RowNext(before, x0, aw, j, y, i, carry0, z % BASE, carry);
      i := i + 1;
    }
    ghost var last := c.x[..];
    c.x[j + i] := carry;
    assert c.x[..j + i + 1] == last[..j + i] + [carry];
    assert x0[j + i + 1..] == x0[j + i..][1..] == last[j + i..][1..] == c.x[j + i + 1..];
    ValPush(last[..j + i], carry);
    assert aw[..i] == aw;
  }

  lemma RowStart(x0: seq<Word>, a: seq<Word>, j: nat, y: nat)
    requires j + |a| < |x0|
    ensures RowDone(x0, x0, a, j, y, 0, 0)
  {
    assert Val(a[..0]) == 0;
  }

  /** The product of a and of the first j words of b is in x[..n], and the words above j + |a| are zero. */
  ghost predicate ProductDone(x: seq<Word>, a: seq<Word>, b: seq<Word>, j: nat)
  {
    && j <= |b| && |a| + |b| <= |x|
    && (forall i :: j + |a| <= i < |a| + |b| ==> x[i] == 0)
    && Val(x[..j + |a|]) == Val(a) * Val(b[..j])
  }

  lemma ProductStart(x: seq<Word>, a: seq<Word>, b: seq<Word>)
    requires |a| + |b| <= |x|
    requires forall i :: 0 <= i < |a| + |b| ==> x[i] == 0
    ensures ProductDone(x, a, b, 0)
  {
    ValZeros(x[..|a|]);
    assert Val(b[..0]) == 0;
  }

  lemma ProductNext(x: seq<Word>, x1: seq<Word>, a: seq<Word>, b: seq<Word>, j: nat)
    requires ProductDone(x, a, b, j) && j < |b| && |x1| == |x|
    requires Val(x1[..j + |a| + 1]) == Val(x[..j + |a|]) + Val(a) * b[j] * Pow(BASE, j)
    requires x1[j + |a| + 1..] == x[j + |a| + 1..]
    ensures ProductDone(x1, a, b, j + 1)
  {
    hide Val, Pow;
    ValNext(b, j);
    Distribute(Val(a), Val(b[..j]), b[j], Pow(BASE, j));
    var n := j + |a| + 1;
    forall i | n <= i < |a| + |b|
      ensures x1[i] == 0
    {
      assert x1[i] == x1[n..][i - n] == x[n..][i - n];
    }
  }

  lemma Distribute(a: nat, v: nat, w: nat, p: nat)
    ensures a * (v + w * p) == a * v + a * w * p
  {
    assert a * (w * p) == a * w * p;
    assert a * (v + w * p) == a * v + a * (w * p);
  }

  /** A row of zeros may be skipped. */
  lemma ProductSkip(x: seq<Word>, a: seq<Word>, b: seq<Word>, j: nat)
    requires ProductDone(x, a, b, j) && j < |b| && b[j] == 0
    ensures ProductDone(x, a, b, j + 1)
  {
    hide Val, Pow;
    ValNext(b, j);
    ValNext(x, j + |a|);
  }

  /** The outer loop of mult, on a cleared c. */
  method MultRows(c: Bigint, a: Bigint, b: Bigint)
    requires c.Shaped() && a.Valid() && b.Valid() && c.x != a.x && c.x != b.x
    requires b.wds <= a.wds && a.wds + b.wds <= c.x.Length
    requires forall i :: 0 <= i < a.wds + b.wds ==> c.x[i] == 0
    modifies c.x
    ensures Val(c.x[..a.wds + b.wds]) == a.Value() * b.Value()
  {
    hide Val, Pow;
    var wa, wb := a.wds, b.wds;
    ghost var aw, bw := a.x[..wa], b.x[..wb];
    ProductStart(c.x[..], aw, bw);
    var j := 0;
    while j < wb
      invariant j <= wb
      invariant ProductDone(c.x[..], aw, bw, j)
    {
      var y := b.x[j];
      ghost var before := c.x[..];
      if y != 0 {
        assert before[..j + wa] == c.x[..j + wa];
        MulRow(c, j, a, y);
        assert c.x[..][..j + wa + 1] == c.x[..j + wa + 1];
        ProductNext(before, c.x[..], aw, bw, j);
      } else {
        ProductSkip(before, aw, bw, j);
      }
      j := j + 1;
    }
    assert bw[..j] == bw && c.x[..][..wa + wb] == c.x[..wa + wb];
  }

  /** The exact product, in the capacity of the longer factor or one step more. */
  method Mult(a0: Bigint, b0: Bigint) returns (c: Bigint)
    requires a0.Valid() && b0.Valid() && (a0.wds > 0 || b0.wds > 0)
    ensures fresh(c.Repr()) && c.Valid() && c.Normal()
    ensures c.Value() == a0.Value() * b0.Value()
    ensures c.wds <= a0.wds + b0.wds && (c.wds > 0 ==> c.x[c.wds - 1] != 0)
    ensures c.sign == 0 && c.next == null
  {
    hide Val;
    var a, b := a0, b0;
    if a.wds < b.wds {
      a, b := b, a;
    }
    var k := a.k;
    var wc := a.wds + b.wds;
    if wc > a.maxwds {
      k := k + 1;
    }
    c := new Bigint.Balloc(k);
    forall i | 0 <= i < wc {
      c.x[i] := 0;
    }
    MultRows(c, a, b);
    SwapFactors(Val(a.x[..a.wds]), Val(b.x[..b.wds]));
    c.wds := TrimmedLength(c, wc);
  }

  /** The loops that drop leading zero words; they stop at zero words here. */
  method TrimmedLength(c: Bigint, n: nat) returns (wc: nat)
    requires c.Shaped() && n <= c.x.Length
    ensures wc <= n && Val(c.x[..wc]) == Val(c.x[..n])
    ensures wc > 0 ==> c.x[wc - 1] != 0
    ensures wc == 0 && n > 0 ==> c.x[0] == 0
  {
    wc := n;
    while wc > 0 && c.x[wc - 1] == 0
      invariant wc <= n && Val(c.x[..wc]) == Val(c.x[..n])
      invariant wc < n ==> c.x[wc] == 0
    {
      ValNext(c.x[..n], wc - 1);
      assert c.x[..n][..wc] == c.x[..wc] && c.x[..n][..wc - 1] == c.x[..wc - 1];
      wc := wc - 1;
    }
  }

  lemma SwapFactors(x: nat, y: nat)
    ensures x * y == y * x
  {
  }
}
