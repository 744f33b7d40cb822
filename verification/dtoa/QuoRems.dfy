/** quorem: one decimal digit of a quotient of Bigints, leaving the remainder. */
module QuoRems {
  import opened Powers
  import opened Words
  import opened BigInts
  import opened Kernel

  /** S is prepared by dtoa so that its top word has exactly four leading zero bits. */
  ghost predicate Aligned(S: Bigint)
    reads S`wds, S.x
  {
    S.Valid() && S.wds > 0 && 0x800_0000 <= S.x[S.wds - 1] < 0x1000_0000
  }

  // ----- The quotient estimate -----

  function Estimate(bt: nat, st: nat): nat
  {
    bt / (st + 1)
  }

  /** top(b) / (top(S) + 1) is the quotient or one less. */
  lemma EstimateIsClose(b: nat, s: nat, bt: nat, st: nat, p: nat, q: nat)
    requires p > 0 && 10 <= st
    requires bt * p <= b < (bt + 1) * p && st * p <= s < (st + 1) * p
    requires b < 10 * s
    requires q == bt / (st + 1)
    ensures q * s <= b < (q + 2) * s && q <= 9
  {
    var d := st + 1;
    assert q * d <= bt < (q + 1) * d;
    // below
    MulMonotone(q * d, bt, p);
    Assoc(q, d, p);
    MulMonotone(s, d * p, q);
    // at most nine
    if q >= 10 {
      MulMonotone(10, q, s);
      assert false;
    }
    // above
    MulMonotone(bt + 1, (q + 1) * d, p);
    Assoc(q + 1, d, p);
    MulMonotone(q + 1, st, p);
    EstimateAbove(q, s, st, p);
  }

  lemma EstimateAbove(q: nat, s: nat, st: nat, p: nat)
    requires st * p <= s && (q + 1) * p <= st * p
    ensures (q + 1) * ((st + 1) * p) <= (q + 2) * s
  {
    assert (st + 1) * p == st * p + p;
    assert (q + 1) * (st * p + p) == (q + 1) * (st * p) + (q + 1) * p;
    MulMonotone(st * p, s, q + 1);
    assert (q + 2) * s == (q + 1) * s + s;
  }

  /** A dividend below ten divisors is not longer than an aligned divisor. */
  lemma DividendFits(b: Bigint, S: Bigint)
    requires b.Valid() && b.Normal() && Aligned(S) && b.Value() < 10 * S.Value()
    ensures b.wds <= S.wds
  {
    if b.wds > S.wds {
      var bw, sw := b.x[..b.wds], S.x[..S.wds];
      var n := S.wds;
      hide Val, Pow;
      ValTop(sw);
      ValTop(bw);
      PowMonotone(BASE, n, b.wds - 1);
      MulMonotone(1, b.x[b.wds - 1], Pow(BASE, b.wds - 1));
      PowNext(BASE, n - 1);
      MulMonotone(sw[n - 1] + 1, 0x1000_0000, Pow(BASE, n - 1));
      assert false;
    }
  }

  // ----- Subtracting a multiple of S in place -----

  ghost predicate SubMulDone(x: seq<Word>, b: seq<Word>, s: seq<Word>, q: nat, i: nat, carry: nat, borrow: nat)
  {
    && i <= |s| <= |x| == |b| && carry < BASE && borrow <= 1
    && x[i..] == b[i..]
    && Val(x[..i]) == Val(b[..i]) - q * Val(s[..i]) + (carry + borrow) * Pow(BASE, i)
  }

  lemma SubMulNext(x: seq<Word>, b: seq<Word>, s: seq<Word>, q: Word, i: nat, carry: nat, borrow: nat,
                   ys: nat, y: int)
    requires SubMulDone(x, b, s, q, i, carry, borrow) && i < |s|
    requires ys == s[i] * q + carry && y == b[i] - ys % BASE - borrow
    ensures SubMulDone(x[i := LowWord(y)], b, s, q, i + 1, ys / BASE, BorrowBit(y))
  {
    WordTimes(s[i], q, carry);
    var x1 := x[i := LowWord(y)];
    BorrowSplit(y);
    assert x1[..i] == x[..i];
    assert x1[i + 1..] == x[i..][1..] == b[i..][1..] == b[i + 1..];
    ValNext(x1, i);
    ValNext(b, i);
    ValNext(s, i);
    PowNext(BASE, i);
    hide Val, Pow;
    SubMulArith(Pow(BASE, i), Val(x[..i]), Val(b[..i]), Val(s[..i]), LowWord(y), b[i], s[i], q,
                carry, borrow, ys / BASE, BorrowBit(y));
  }

  lemma SubMulArith(p: nat, v: int, vb: int, vs: int, w: int, wb: int, ws: int, q: int,
                    c: int, d: int, c': int, d': int)
    requires v == vb - q * vs + (c + d) * p
    requires w == wb - (ws * q + c - c' * BASE) - d + d' * BASE
    ensures v + w * p == (vb + wb * p) - q * (vs + ws * p) + (c' + d') * (BASE * p)
  {
    assert w * p == wb * p - (ws * q) * p - (c + d) * p + ((c' + d') * BASE) * p;
    assert ((c' + d') * BASE) * p == (c' + d') * (BASE * p);
    assert q * (vs + ws * p) == q * vs + (ws * q) * p;
  }

  lemma SubMulEnd(x: seq<Word>, b: seq<Word>, s: seq<Word>, q: nat, carry: nat, borrow: nat)
    requires |x| == |b| == |s| && SubMulDone(x[..|s|], b[..|s|], s[..|s|], q, |s|, carry, borrow)
    requires q * Val(s) <= Val(b)
    ensures Val(x) == Val(b) - q * Val(s)
  {
    ValBound(x);
    assert x[..|s|] == x && b[..|s|] == b && s[..|s|] == s;
    var t := q * Val(s);
    hide Val, Pow;
    NothingLeft(Val(x), Val(b), t, carry + borrow, Pow(BASE, |s|));
  }

  lemma NothingLeft(x: nat, b: nat, t: int, c: nat, p: nat)
    requires x == b - t + c * p && t <= b && x < p
    ensures x == b - t
  {
    if c > 0 {
      MulMonotone(1, c, p);
    }
  }

  lemma SubMulStart(b: seq<Word>, s: seq<Word>, q: nat)
    requires |s| <= |b|
    ensures SubMulDone(b, b, s, q, 0, 0, 0)
  {
    assert Val(s[..0]) == 0;
  }

  /** The two subtraction loops of quorem, which differ only in the multiplier. */
  method SubtractMultiple(b: Bigint, S: Bigint, q: Word)
    requires b.Valid() && S.Valid() && b.x != S.x
    requires 0 < S.wds == b.wds && q * S.Value() <= b.Value()
    modifies b.x
    ensures Val(b.x[..b.wds]) == old(b.Value()) - q * S.Value()
  {
    hide Val, Pow;
    ghost var n := S.wds;
    ghost var b0, sw := b.x[..n], S.x[..n];
    var i, borrow: nat, carry: nat := 0, 0, 0;
    SubMulStart(b0, sw, q);
    while i == 0 || i < S.wds
      invariant i <= n
      invariant SubMulDone(b.x[..n], b0, sw, q, i, carry, borrow)
      decreases n - i
    {
      ghost var before := b.x[..n];
      assert b.x[i] == b0[i] by { assert b.x[i] == before[i..][0] == b0[i..][0]; }
      WordTimes(S.x[i], q, carry);
      var ys := S.x[i] * q + carry;
      var y := b.x[i] - ys % BASE - borrow;
      SubMulNext(before, b0, sw, q, i, carry, borrow, ys, y);
      carry := ys / BASE;
      borrow := BorrowBit(y);
      b.x[i] := LowWord(y);
      assert b.x[..n] == before[i := LowWord(y)];
      i := i + 1;
    }
    assert b.x[..n][..n] == b.x[..n] && b0[..n] == b0 && sw[..n] == sw;
    SubMulEnd(b.x[..n], b0, sw, q, carry, borrow);
  }

  /** `if (!*bxe) { while (--bxe > bx && !*bxe) --n; b->wds = n; }` with bxe at index n. */
  method DropLeadingZeros(b: Bigint, n: nat)
    requires b.Valid() && b.wds == n + 1
    modifies b`wds
    ensures b.Valid() && b.Normal() && b.wds <= n + 1
    ensures b.Value() == old(b.Value())
    ensures old(b.x[n]) != 0 ==> b.wds == n + 1
    ensures n > 0 ==> b.wds > 0
  {
    if b.x[n] == 0 {
      var m := n;
      ValNext(b.x[..n + 1], n);
      assert b.x[..n + 1][..n] == b.x[..n];
      assert b.x[..n + 1][..n + 1] == b.x[..n + 1];
      while m > 1 && b.x[m - 1] == 0
        invariant m <= n && (n > 0 ==> m > 0)
        invariant Val(b.x[..m]) == old(b.Value())
      {
        ValNext(b.x[..n], m - 1);
        assert b.x[..n][..m] == b.x[..m] && b.x[..n][..m - 1] == b.x[..m - 1];
        m := m - 1;
      }
      b.wds := m;
    }
  }

  /** The first half of quorem: subtracts the estimated multiple of S. */
  method QuoEstimate(b: Bigint, S: Bigint) returns (q: nat)
    requires b.Valid() && b.Normal() && Aligned(S) && b != S && b.x != S.x
    requires b.wds == S.wds && b.Value() < 10 * S.Value()
    modifies b`wds, b.x
    ensures b.Valid() && b.Normal() && q <= 9
    ensures old(b.Value()) == q * S.Value() + b.Value() && b.Value() < 2 * S.Value()
    ensures b.wds <= S.wds && (S.wds > 1 ==> b.wds > 0)
  {
    hide Val, Pow, Estimate;
    ghost var b0, s := b.Value(), S.Value();
    var n := S.wds - 1;
    q := Estimate(b.x[n], S.x[n]);
    EstimateDigit(b.x[..b.wds], S.x[..S.wds], b.x[n], S.x[n], q);
    EstimateLeft(b0, s, q);
    if q != 0 {
      SubtractMultiple(b, S, q);
      DropLeadingZeros(b, n);
    }
  }

  lemma EstimateDigit(b: seq<Word>, s: seq<Word>, bt: nat, st: nat, q: nat)
    requires |b| == |s| > 0 && bt == b[|b| - 1] && st == s[|s| - 1]
    requires 10 <= st && Val(b) < 10 * Val(s) && q == Estimate(bt, st)
    ensures q * Val(s) <= Val(b) < (q + 2) * Val(s) && q <= 9
  {
    hide Val, Pow;
    ValTop(s);
    ValTop(b);
    PowPositive(BASE, |s| - 1);
    EstimateIsClose(Val(b), Val(s), bt, st, Pow(BASE, |s| - 1), q);
  }

  lemma EstimateLeft(b: nat, s: nat, q: nat)
    requires q * s <= b < (q + 2) * s
    ensures b == q * s + (b - q * s) && 0 <= b - q * s < 2 * s
    ensures q == 0 ==> q * s == 0
  {
    assert (q + 2) * s == q * s + 2 * s;
  }

  /**
   * The exact quotient of b by S, a digit, with the remainder left in b. The estimate from the
   * top words is the quotient or one less, so that one correction suffices.
   */
  method QuoRem(b: Bigint, S: Bigint) returns (q: nat)
    requires b.Valid() && b.Normal() && Aligned(S) && b != S && b.x != S.x
    requires b.Value() < 10 * S.Value()
    modifies b`wds, b.x
    ensures b.Valid() && b.Normal() && b.wds <= S.wds
    ensures old(b.Value()) == q * S.Value() + b.Value() && b.Value() < S.Value()
    ensures q <= 9
  {
    hide Val, Pow;
    DividendFits(b, S);
    AlignedPositive(S);
    if b.wds < S.wds {
      LongerIsLarger(b, S);
      assert 0 * S.Value() == 0;
      return 0;
    }
    q := QuoEstimate(b, S);
    ghost var r, s := b.Value(), S.Value();
    var c := Cmp(b, S);
    if c >= 0 {
      if b.wds < S.wds {
        LongerIsLarger(b, S);
        assert false;
      }
      DigitAtMostNine(q, s, r);
      OneMore(q, s, r);
      q := q + 1;
      SubtractMultiple(b, S, 1);
      DropLeadingZeros(b, S.wds - 1);
    }
  }

  lemma AlignedPositive(S: Bigint)
    requires Aligned(S)
    ensures S.Value() > 0
  {
    ValTop(S.x[..S.wds]);
    PowPositive(BASE, S.wds - 1);
    MulMonotone(1, S.x[S.wds - 1], Pow(BASE, S.wds - 1));
  }

  lemma DigitAtMostNine(q: nat, s: nat, r: nat)
    requires q * s + r < 10 * s && r >= s
    ensures q + 1 <= 9
  {
    if q >= 9 {
      MulMonotone(9, q, s);
      assert false;
    }
  }

  lemma OneMore(q: nat, s: nat, r: int)
    ensures q * s + r == (q + 1) * s + (r - s)
  {
  }
}
