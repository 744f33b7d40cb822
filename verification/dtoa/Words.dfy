/** Little-endian numbers in base 2^32, the contents of a Bigint's word array. */
module Words {
  import opened Powers

  const BASE: nat := 0x1_0000_0000

  type Word = w: int | 0 <= w < 0x1_0000_0000

  /** The number whose least significant word is s[0]. */
  function Val(s: seq<Word>): nat
  {
    if |s| == 0 then 0
    else
      MulNonnegative(s[|s| - 1], Pow(BASE, |s| - 1));
      Val(s[..|s| - 1]) + s[|s| - 1] * Pow(BASE, |s| - 1)
  }

  lemma MulNonnegative(x: int, y: int)
    requires x >= 0 && y >= 0
    ensures x * y >= 0
  {
  }

  lemma ValPush(s: seq<Word>, w: Word)
    ensures Val(s + [w]) == Val(s) + w * Pow(BASE, |s|)
  {
    assert (s + [w])[..|s|] == s;
  }

  lemma ValNext(s: seq<Word>, i: nat)
    requires i < |s|
    ensures Val(s[..i + 1]) == Val(s[..i]) + s[i] * Pow(BASE, i)
  {
    assert s[..i + 1] == s[..i] + [s[i]];
    ValPush(s[..i], s[i]);
  }

  lemma {:induction false} ValBound(s: seq<Word>)
    ensures Val(s) < Pow(BASE, |s|)
  {
    if |s| > 0 {
      var n := |s| - 1;
      ValBound(s[..n]);
      BoundStep(Val(s[..n]), s[n], Pow(BASE, n));
    }
  }

  lemma BoundStep(v: nat, w: Word, p: nat)
    requires v < p
    ensures v + w * p < BASE * p
  {
    assert w * p <= (BASE - 1) * p;
    assert (BASE - 1) * p == BASE * p - p;
  }

  lemma {:induction false} ValZeros(s: seq<Word>)
    requires forall i :: 0 <= i < |s| ==> s[i] == 0
    ensures Val(s) == 0
  {
    if |s| > 0 {
      ValZeros(s[..|s| - 1]);
    }
  }

  /** Words above position i that are all zero do not change the value. */
  lemma {:induction false} ValTrim(s: seq<Word>, i: nat)
    requires i <= |s|
    requires forall j :: i <= j < |s| ==> s[j] == 0
    ensures Val(s) == Val(s[..i])
    decreases |s|
  {
    if i < |s| {
      var t := s[..|s| - 1];
      ValTrim(t, i);
      assert t[..i] == s[..i];
    } else {
      assert s[..i] == s;
    }
  }

  /** A nonzero top word gives a lower bound. */
  lemma ValTop(s: seq<Word>)
    requires |s| > 0
    ensures s[|s| - 1] * Pow(BASE, |s| - 1) <= Val(s) < (s[|s| - 1] + 1) * Pow(BASE, |s| - 1)
  {
    var n := |s| - 1;
    ValBound(s[..n]);
    var w: nat, p := s[n], Pow(BASE, n);
    assert (w + 1) * p == w * p + p;
  }

  /** Two numbers that agree above position i compare as their words at i do. */
  lemma {:induction false} ValCompare(s: seq<Word>, t: seq<Word>, i: nat)
    requires |s| == |t| && i < |s|
    requires forall j :: i < j < |s| ==> s[j] == t[j]
    requires s[i] < t[i]
    ensures Val(s) < Val(t)
    decreases |s|
  {
    var n := |s| - 1;
    if i < n {
      ValCompare(s[..n], t[..n], i);
    } else {
      ValTop(s);
      ValTop(t);
      MulMonotone(s[n] + 1, t[n], Pow(BASE, n));
    }
  }

  /** More significant words mean a larger number. */
  lemma ValLonger(s: seq<Word>, t: seq<Word>)
    requires |s| < |t| && t[|t| - 1] != 0
    ensures Val(s) < Val(t)
  {
    hide Val, Pow;
    ValBound(s);
    ValTop(t);
    PowMonotone(BASE, |s|, |t| - 1);
    MulMonotone(1, t[|t| - 1], Pow(BASE, |t| - 1));
  }

  lemma BasePow(n: nat)
    ensures Pow(BASE, n) == Pow(2, 32 * n)
  {
    assert Pow(2, 32) == BASE by {
      PowAdd(2, 16, 16);
      PowAdd(2, 8, 8);
      assert Pow(2, 8) == 256;
    }
    PowPow(2, 32, n);
  }
}
