/** The two digit generation loops of dtoa. */
module DigitLoops {
  import opened Powers
  import opened Words
  import opened BigInts
  import opened Kernel
  import opened QuoRems
  import opened DigitBuffer
  import opened Shortest

  datatype Choice = Down | Up | More

  ghost predicate Good(b: Bigint)
    reads b`wds, b.x
  {
    b.Valid() && b.Normal()
  }

  /** `!b->x[0] && b->wds <= 1` */
  method IsZero(b: Bigint) returns (z: bool)
    requires Good(b)
    ensures z <==> b.Value() == 0
  {
    z := b.x[0] == 0 && b.wds <= 1;
    if z {
      ValZeros(b.x[..b.wds]);
    } else if b.wds > 1 {
      ValTop(b.x[..b.wds]);
      PowPositive(BASE, b.wds - 1);
      MulMonotone(1, b.x[b.wds - 1], Pow(BASE, b.wds - 1));
    } else {
      assert b.x[..1] == [] + [b.x[0]];
      ValPush([], b.x[0]);
      PowZero(BASE);
    }
  }

  /** j compares b with mlo, j1 compares b + mhi with S. */
  method Ends(b: Bigint, S: Bigint, mlo: Bigint, mhi: Bigint) returns (j: int, j1: int)
    requires Good(b) && Good(S) && Good(mlo) && Good(mhi)
    requires S.Value() > 0 && mlo.Value() > 0 && mhi.Value() > 0
    ensures Sign(j) == Sign(b.Value() - mlo.Value())
    ensures b.Value() + mhi.Value() != S.Value() ==> Sign(j1) == Sign(b.Value() + mhi.Value() - S.Value())
    ensures b.Value() + mhi.Value() == S.Value() ==> j1 <= 0 && (b.Value() > 0 ==> j1 == 0)
  {
    hide Val;
    PositiveHasWords(S);
    PositiveHasWords(mlo);
    PositiveHasWords(mhi);
    j := Cmp(b, mlo);
    var delta := Diff(S, mhi);
    if delta.sign != 0 {
      j1 := 1;
    } else {
      j1 := Cmp(b, delta);
      if b.Value() == delta.Value() == 0 {
        ZeroIsShort(b);
        ZeroIsShort(delta);
      }
    }
  }

  /** The decision taken after each digit: stop at dig, stop at dig + 1, or go on. */
  method Choose(b: Bigint, S: Bigint, j: int, j1: int, dig: nat, inclusive: bool, ghost ml: nat, ghost mh: nat)
    returns (c: Choice)
    requires Good(b) && Good(S) && S.Value() > 0 && 0 < ml <= mh
    requires Sign(j) == Sign(b.Value() - ml)
    requires b.Value() + mh != S.Value() ==> Sign(j1) == Sign(b.Value() + mh - S.Value())
    requires b.Value() + mh == S.Value() ==> j1 <= 0 && (b.Value() > 0 ==> j1 == 0)
    ensures c == Down ==> LowOk(b.Value(), ml, inclusive)
    ensures c == Down ==> 2 * b.Value() <= S.Value() || !HighOk(b.Value(), mh, S.Value(), inclusive)
    ensures c == Up ==> HighOk(b.Value(), mh, S.Value(), inclusive)
    ensures c == Up ==> (2 * b.Value() >= S.Value() || !LowOk(b.Value(), ml, inclusive)
                         || (dig == 9 && b.Value() + mh == S.Value()))
    ensures c == More ==> !LowOk(b.Value(), ml, inclusive) && !HighOk(b.Value(), mh, S.Value(), inclusive)
  {
    hide Val;
    if j1 == 0 && inclusive {
      if dig == 9 || j > 0 {
        return Up;
      }
      return Down;
    }
    if j < 0 || (j == 0 && inclusive) {
      var z := IsZero(b);
      if z {
        return Down;
      }
      if j1 > 0 {
        PositiveHasWords(b);
        var b2 := LShift(b, 1);
        PowTwoOne();
        var j2 := Cmp(b2, S);
        if j2 > 0 || (j2 == 0 && dig % 2 == 1) {
          return Up;
        }
      }
      return Down;
    }
    return if j1 > 0 then Up else More;
  }

  lemma PowTwoOne()
    ensures Pow(2, 1) == 2
  {
    assert Pow(2, 1) == 2 * Pow(2, 0);
  }

  /** The multiplications by ten at the end of the loop; mlo and mhi may be the same object. */
  method Advance(b0: Bigint, mlo0: Bigint, mhi0: Bigint) returns (b: Bigint, mlo: Bigint, mhi: Bigint)
    requires Good(b0) && Good(mlo0) && Good(mhi0)
    requires b0.Repr() !! mlo0.Repr() && b0.Repr() !! mhi0.Repr()
    requires mlo0 == mhi0 || mlo0.Repr() !! mhi0.Repr()
    modifies b0, b0.x, mlo0, mlo0.x, mhi0, mhi0.x
    ensures Good(b) && Good(mlo) && Good(mhi)
    ensures b.Value() == old(b0.Value()) * 10
    ensures mlo.Value() == old(mlo0.Value()) * 10 && mhi.Value() == old(mhi0.Value()) * 10
    ensures b == b0 || fresh(b.Repr())
    ensures mlo == mlo0 || fresh(mlo.Repr())
    ensures mhi == mhi0 || fresh(mhi.Repr())
    ensures b.Repr() !! mlo.Repr() && b.Repr() !! mhi.Repr()
    ensures mlo == mhi || mlo.Repr() !! mhi.Repr()
  {
    hide Val, Bigint.Normal, Bigint.Shaped, Bigint.Value;
    b := MultAdd(b0, 10, 0);
    if mlo0 == mhi0 {
      mhi := MultAdd(mhi0, 10, 0);
      mlo := mhi;
    } else {
      mlo := MultAdd(mlo0, 10, 0);
      mhi := MultAdd(mhi0, 10, 0);
    }
  }

  // ----- The shortest digits -----

  /**
   * The decimal digits[0].digits[1..] times 10^shift is in the interval around v, no decimal with
   * fewer digits is, and of those with as many digits it is one that is closest to v; except that
   * 10 may be chosen over 9 when it is the upper end of the interval itself.
   */
  ghost predicate IsShortest(v: Scaled, digits: seq<char>, shift: nat)
  {
    && |digits| >= 1 && Digits(digits) && digits[0] != '0' && digits[|digits| - 1] != '0'
    && (shift == 0 || (shift == 1 && digits == "1"))
    && var w := if shift == 0 then Number(digits) else 10;
       && InInterval(v, w, |digits|)
       && NoneShorter(v, |digits|)
       && (Closest(v, w, |digits|) || (shift == 1 && 10 * v.s == v.b + v.mh))
  }

  lemma NumberOfDigit(buf: seq<char>, i: nat, q: nat)
    requires 1 <= i <= |buf| && Digits(buf[..i - 1]) && q <= 9 && buf[i - 1] == Digit(q)
    ensures Digits(buf[..i]) && Number(buf[..i]) == 10 * Number(buf[..i - 1]) + q
  {
    NumberPush(buf[..i - 1], Digit(q));
    assert buf[..i] == buf[..i - 1] + [Digit(q)];
  }

  /** Stopping at dig: what is in the buffer is the answer. */
  method StopDown(buf: array<char>, i: nat, dig: nat, ghost v: Scaled, ghost b: nat, ghost ml: nat, ghost mh: nat)
    requires 1 <= i <= buf.Length && Digits(buf[..i - 1]) && dig <= 9
    requires if i == 1 then dig > 0 else buf[0] != '0'
    requires AfterDigit(v, i, 10 * Number(buf[..i - 1]) + dig, b, ml, mh) && NoneShorter(v, i)
    requires LowOk(b, ml, v.inclusive) && (2 * b <= v.s || !HighOk(b, mh, v.s, v.inclusive))
    modifies buf
    ensures IsShortest(v, buf[..i], 0)
  {
    hide Number, Pow;
    ghost var prefix := buf[..i - 1];
    ChooseLow(v, i, 10 * Number(prefix) + dig, b, ml, mh);
    if dig == 0 {
      NoTrailingZero(v, Number(prefix), i);
      assert false;
    }
    buf[i - 1] := Digit(dig);
    assert buf[..][..i] == buf[..i] && buf[..][..i - 1] == prefix;
    NumberOfDigit(buf[..], i, dig);
  }

  /** Stopping at dig + 1; after a 9 this is only possible at the first digit. */
  method StopUp(buf: array<char>, i: nat, dig: nat, ghost v: Scaled, ghost b: nat, ghost ml: nat, ghost mh: nat)
    returns (n: nat, carried: bool)
    requires 1 <= i <= buf.Length && Digits(buf[..i - 1]) && dig <= 9
    requires i > 1 ==> buf[0] != '0'
    requires AfterDigit(v, i, 10 * Number(buf[..i - 1]) + dig, b, ml, mh) && NoneShorter(v, i)
    requires HighOk(b, mh, v.s, v.inclusive)
    requires 2 * b >= v.s || !LowOk(b, ml, v.inclusive) || (dig == 9 && b + mh == v.s)
    modifies buf
    ensures 1 <= n <= i && IsShortest(v, buf[..n], if carried then 1 else 0)
  {
    hide Number, Pow;
    ghost var prefix := buf[..i - 1];
    ghost var d := 10 * Number(prefix) + dig;
    Candidates(v, i, d, b, ml, mh);
    if 2 * b >= v.s || !LowOk(b, ml, v.inclusive) {
      ChooseHigh(v, i, d, b, ml, mh);
    }
    if dig == 9 {
      if i > 1 {
        NoTrailingZero(v, Number(prefix) + 1, i);
        assert false;
      }
      NumberOfNothing(prefix);
      NineUp(v, b, ml, mh);
      n, carried := StopNine(buf);
    } else {
      n, carried := i, false;
      buf[i - 1] := Digit(dig + 1);
      assert buf[..][..i] == buf[..i] && buf[..][..i - 1] == prefix;
      NumberOfDigit(buf[..], i, dig + 1);
    }
  }

  lemma NumberOfNothing(s: seq<char>)
    requires |s| == 0
    ensures Number(s) == 0
  {
  }

  /** Label round_9_up at the first digit. */
  method StopNine(buf: array<char>) returns (n: nat, carried: bool)
    requires buf.Length >= 1
    modifies buf
    ensures n == 1 && carried && buf[..n] == "1"
  {
    buf[0] := '9';
    assert buf[..1] == [] + [Digit(9)];
    NumberPush([], Digit(9));
    n, carried := RoundOff(buf, 1);
    NumberBound(buf[..n]);
    PowZero(10);
    PowNext(10, 0);
  }

  lemma NineUp(v: Scaled, b: nat, ml: nat, mh: nat)
    requires AfterDigit(v, 1, 9, b, ml, mh)
    ensures b + mh == v.s ==> 10 * v.s == v.b + v.mh
  {
    PowZero(10);
  }

  lemma FirstDigit(b: nat, s: nat, q: nat, r: nat)
    requires b == q * s + r && r < s <= b
    ensures q > 0
  {
    if q == 0 {
      MulZero(q, s);
    }
  }

  lemma MulZero(q: nat, s: nat)
    requires q == 0
    ensures q * s == 0
  {
  }

  /** While neither candidate will do, the half-gaps have not yet outgrown s; so there is room for a digit. */
  lemma RoomForDigit(v: Scaled, i: nat, d: nat, b: nat, ml: nat, mh: nat, cap: nat)
    requires 1 <= i <= cap && AfterDigit(v, i, d, b, ml, mh)
    requires !LowOk(b, ml, v.inclusive) && !HighOk(b, mh, v.s, v.inclusive)
    requires (v.ml + v.mh) * Pow(10, cap - 1) > v.s
    ensures i < cap
  {
    assert (v.ml + v.mh) * Pow(10, i - 1) == ml + mh;
  }

  lemma StartDigits(v: Scaled, s: seq<char>)
    requires |s| == 0 && v.b < 10 * v.s && 0 < v.ml <= v.mh
    ensures Digits(s) && BeforeDigit(v, 1, Number(s), v.b, v.ml, v.mh) && NoneShorter(v, 1)
  {
    PowZero(10);
  }

  /** The operands of the loop may share no storage, except that mlo and mhi may be one object. */
  ghost predicate Apart(b: Bigint, S: Bigint, mlo: Bigint, mhi: Bigint)
  {
    && b.Repr() !! S.Repr() && mlo.Repr() !! S.Repr() && mhi.Repr() !! S.Repr()
    && b.Repr() !! mlo.Repr() && b.Repr() !! mhi.Repr()
    && (mlo == mhi || mlo.Repr() !! mhi.Repr())
  }

  /** The state in which round i of the loop begins. */
  ghost predicate LoopState(v: Scaled, i: nat, b: Bigint, S: Bigint, mlo: Bigint, mhi: Bigint, buf: array<char>,
                            cap: nat)
    reads b`wds, b.x, S`wds, S.x, mlo`wds, mlo.x, mhi`wds, mhi.x, buf
  {
    && Good(b) && Good(S) && Good(mlo) && Good(mhi) && Apart(b, S, mlo, mhi)
    && Aligned(S) && S.Value() == v.s > 0
    && 1 <= i <= cap <= buf.Length && Digits(buf[..i - 1])
    && (if i == 1 then v.s <= b.Value() else buf[0] != '0')
    && BeforeDigit(v, i, Number(buf[..i - 1]), b.Value(), mlo.Value(), mhi.Value())
    && NoneShorter(v, i)
    && (v.ml + v.mh) * Pow(10, cap - 1) > v.s
  }

  /** One round of the loop for modes 0 and 1, up to the multiplications by ten. */
  method OneDigit(b: Bigint, S: Bigint, mlo: Bigint, mhi: Bigint, buf: array<char>, i: nat, inclusive: bool,
                  ghost v: Scaled, ghost cap: nat) returns (done: bool, n: nat, carried: bool)
    requires LoopState(v, i, b, S, mlo, mhi, buf, cap) && v.inclusive == inclusive
    modifies b`wds, b.x, buf
    ensures Good(b)
    ensures done ==> 1 <= n <= i && IsShortest(v, buf[..n], if carried then 1 else 0)
    ensures !done ==> i < cap && Digits(buf[..i]) && buf[0] != '0'
    ensures !done ==> AfterDigit(v, i, Number(buf[..i]), b.Value(), mlo.Value(), mhi.Value())
    ensures !done ==> NoneShorter(v, i + 1)
  {
    hide Val, Pow, Number, BeforeDigit, AfterDigit, NoneShorter, IsShortest, LowOk, HighOk, Aligned, Bigint.Value;
    ghost var b1, d, ml, mh := b.Value(), Number(buf[..i - 1]), mlo.Value(), mhi.Value();
    BeforeBounds(v, i, d, b1, ml, mh);
    var dig := QuoRem(b, S);
    ghost var r := b.Value();
    TakeDigit(v, i, d, b1, ml, mh, dig, r);
    if i == 1 {
      FirstDigit(b1, v.s, dig, r);
    }
    var j, j1 := Ends(b, S, mlo, mhi);
    var c := Choose(b, S, j, j1, dig, inclusive, ml, mh);
    done, n, carried := true, i, false;
    if c == Down {
      StopDown(buf, i, dig, v, r, ml, mh);
    } else if c == Up {
      n, carried := StopUp(buf, i, dig, v, r, ml, mh);
    } else {
      done := false;
      NoneOfLength(v, i, 10 * d + dig, r, ml, mh);
      RoomForDigit(v, i, 10 * d + dig, r, ml, mh, cap);
      PutDigit(buf, i, dig);
    }
  }

  /** A whole round. */
  method Round(b0: Bigint, S: Bigint, mlo0: Bigint, mhi0: Bigint, buf: array<char>, i: nat, inclusive: bool,
               ghost v: Scaled, ghost cap: nat)
    returns (done: bool, n: nat, carried: bool, b: Bigint, mlo: Bigint, mhi: Bigint)
    requires LoopState(v, i, b0, S, mlo0, mhi0, buf, cap) && v.inclusive == inclusive
    modifies buf, b0, b0.x, mlo0, mlo0.x, mhi0, mhi0.x
    ensures done ==> 1 <= n <= i && IsShortest(v, buf[..n], if carried then 1 else 0)
    ensures !done ==> i < cap && LoopState(v, i + 1, b, S, mlo, mhi, buf, cap)
    ensures b == b0 || fresh(b.Repr())
    ensures mlo == mlo0 || fresh(mlo.Repr())
    ensures mhi == mhi0 || fresh(mhi.Repr())
  {
    hide Val, Pow, Number, BeforeDigit, AfterDigit, NoneShorter, IsShortest, Aligned, Bigint.Value;
    b, mlo, mhi := b0, mlo0, mhi0;
    done, n, carried := OneDigit(b, S, mlo, mhi, buf, i, inclusive, v, cap);
    if !done {
      NextDigit(v, i, Number(buf[..i]), b.Value(), mlo.Value(), mhi.Value());
      b, mlo, mhi := Advance(b, mlo, mhi);
    }
  }

  /**
   * The loop for modes 0 and 1. From a scaled start it always ends, within the room the buffer
   * has, with the shortest digits that read back as the number being printed.
   */
  method ShortestLoop(b0: Bigint, S: Bigint, mlo0: Bigint, mhi0: Bigint, buf: array<char>, inclusive: bool,
                      ghost cap: nat)
    returns (n: nat, carried: bool)
    requires Good(b0) && Good(S) && Aligned(S) && Good(mlo0) && Good(mhi0) && Apart(b0, S, mlo0, mhi0)
    requires S.Value() <= b0.Value() < 10 * S.Value() && 0 < mlo0.Value() <= mhi0.Value()
    requires 1 <= cap <= buf.Length && (mlo0.Value() + mhi0.Value()) * Pow(10, cap - 1) > S.Value()
    modifies buf, b0, b0.x, mlo0, mlo0.x, mhi0, mhi0.x
    ensures 1 <= n <= cap
    ensures IsShortest(old(Scaled(b0.Value(), S.Value(), mlo0.Value(), mhi0.Value(), inclusive)),
                       buf[..n], if carried then 1 else 0)
  {
    hide Val, Pow, IsShortest, LoopState;
    ghost var v := Scaled(b0.Value(), S.Value(), mlo0.Value(), mhi0.Value(), inclusive);
    var b, mlo, mhi := b0, mlo0, mhi0;
    var i := 1;
    StartLoop(v, b0, S, mlo0, mhi0, buf, cap);
    while true
      invariant 1 <= i <= cap && LoopState(v, i, b, S, mlo, mhi, buf, cap)
      invariant b == b0 || fresh(b.Repr())
      invariant mlo == mlo0 || fresh(mlo.Repr())
      invariant mhi == mhi0 || fresh(mhi.Repr())
      decreases cap - i
    {
      var done;
      done, n, carried, b, mlo, mhi := Round(b, S, mlo, mhi, buf, i, inclusive, v, cap);
      if done {
        return;
      }
      i := i + 1;
    }
  }

  lemma StartLoop(v: Scaled, b: Bigint, S: Bigint, mlo: Bigint, mhi: Bigint, buf: array<char>, cap: nat)
    requires Good(b) && Good(S) && Aligned(S) && Good(mlo) && Good(mhi) && Apart(b, S, mlo, mhi)
    requires v == Scaled(b.Value(), S.Value(), mlo.Value(), mhi.Value(), v.inclusive)
    requires v.s <= v.b < 10 * v.s && 0 < v.ml <= v.mh
    requires 1 <= cap <= buf.Length && (v.ml + v.mh) * Pow(10, cap - 1) > v.s
    ensures LoopState(v, 1, b, S, mlo, mhi, buf, cap)
  {
    hide Val, Pow, Number, BeforeDigit, NoneShorter, Aligned;
    StartDigits(v, buf[..0]);
  }

  lemma BeforeBounds(v: Scaled, n: nat, d: nat, b: nat, ml: nat, mh: nat)
    requires n >= 1 && BeforeDigit(v, n, d, b, ml, mh)
    ensures b < 10 * v.s && 0 < ml <= mh
  {
  }

  /** `*s++ = dig` */
  method PutDigit(buf: array<char>, i: nat, dig: nat)
    requires 1 <= i <= buf.Length && Digits(buf[..i - 1]) && dig <= 9
    modifies buf
    ensures Digits(buf[..i]) && Number(buf[..i]) == 10 * old(Number(buf[..i - 1])) + dig
    ensures buf[i - 1] == Digit(dig) && buf[..i - 1] == old(buf[..i - 1])
  {
    ghost var prefix := buf[..i - 1];
    buf[i - 1] := Digit(dig);
    assert buf[..][..i] == buf[..i] && buf[..][..i - 1] == prefix;
    NumberOfDigit(buf[..], i, dig);
  }

  // ----- A fixed number of digits -----

  /** digits times 10^shift is v to n digits, rounded half up, without trailing zeros. */
  ghost predicate IsFixed(v: Scaled, n: nat, digits: seq<char>, shift: nat)
    requires n >= 1
  {
    && 1 <= |digits| <= n && Digits(digits) && digits[0] != '0' && digits[|digits| - 1] != '0'
    && (shift == 0 || (shift == 1 && digits == "1"))
    && IsRounded(v.b, v.s, n, if shift == 0 then Number(digits) * Pow(10, n - |digits|) else Pow(10, n))
  }

  /** The code from "Round off last digit" to ret. */
  method RoundLast(b: Bigint, S: Bigint, buf: array<char>, n0: nat, ghost v: Scaled)
    returns (n: nat, carried: bool)
    requires Good(b) && b.Value() > 0 && Good(S) && S.Value() == v.s > 0
    requires 1 <= n0 <= buf.Length && Digits(buf[..n0]) && buf[0] != '0'
    requires AfterDigit(v, n0, Number(buf[..n0]), b.Value(), Pow(10, n0 - 1), Pow(10, n0 - 1))
    modifies buf
    ensures 1 <= n <= n0 && IsFixed(v, n0, buf[..n], if carried then 1 else 0)
  {
    hide Val, Pow, Number, AfterDigit, IsRounded;
    RoundedDigits(v, n0, Number(buf[..n0]), b.Value(), Pow(10, n0 - 1), Pow(10, n0 - 1));
    PositiveHasWords(b);
    var b2 := LShift(b, 1);
    PowTwoOne();
    var j := Cmp(b2, S);
    if j >= 0 {
      n, carried := RoundOff(buf, n0);
      assert n > 1 ==> buf[0] == buf[..n - 1][0];
      assert carried ==> buf[..n] == "1";
    } else {
      n := TrimZeros(buf, n0);
      carried := false;
    }
  }

  lemma StartFixed(v: Scaled, s: seq<char>)
    requires |s| == 0 && v.b < 10 * v.s && v.ml == v.mh == 1
    ensures Digits(s) && BeforeDigit(v, 1, Number(s), v.b, Pow(10, 0), Pow(10, 0))
  {
    PowZero(10);
  }

  /** `*s++ = dig = quorem(b, S) + '0'` */
  method FixedDigit(b: Bigint, S: Bigint, buf: array<char>, i: nat, ghost v: Scaled)
    requires Good(b) && Good(S) && Aligned(S) && b.Repr() !! S.Repr() && S.Value() == v.s > 0
    requires 1 <= i <= buf.Length && Digits(buf[..i - 1])
    requires b.Value() > 0 && if i == 1 then v.s <= b.Value() else buf[0] != '0'
    requires BeforeDigit(v, i, Number(buf[..i - 1]), b.Value(), Pow(10, i - 1), Pow(10, i - 1))
    modifies b`wds, b.x, buf
    ensures Good(b) && Digits(buf[..i]) && buf[0] != '0'
    ensures AfterDigit(v, i, Number(buf[..i]), b.Value(), Pow(10, i - 1), Pow(10, i - 1))
    ensures b.Value() == 0 ==> buf[i - 1] != '0'
  {
    hide Val, Pow, Number, BeforeDigit, AfterDigit, Aligned;
    ghost var b1, d, m := b.Value(), Number(buf[..i - 1]), Pow(10, i - 1);
    BeforeBounds(v, i, d, b1, m, m);
    var dig := QuoRem(b, S);
    TakeDigit(v, i, d, b1, m, m, dig, b.Value());
    if i == 1 {
      FirstDigit(b1, v.s, dig, b.Value());
    }
    if dig == 0 {
      MulZero(dig, v.s);
    }
    PutDigit(buf, i, dig);
    assert i > 1 ==> buf[0] == buf[..i - 1][0];
  }

  /** The state in which round i of the loop for modes 2 and 3 begins. */
  ghost predicate FixedState(v: Scaled, i: nat, b: Bigint, S: Bigint, buf: array<char>, ilim: nat)
    reads b`wds, b.x, S`wds, S.x, buf
  {
    && Good(b) && Good(S) && Aligned(S) && b.Repr() !! S.Repr() && S.Value() == v.s > 0
    && 1 <= i <= ilim <= buf.Length && Digits(buf[..i - 1])
    && b.Value() > 0 && (if i == 1 then v.s <= b.Value() else buf[0] != '0')
    && BeforeDigit(v, i, Number(buf[..i - 1]), b.Value(), Pow(10, i - 1), Pow(10, i - 1))
  }

  /** A whole round. */
  method FixedRound(b0: Bigint, S: Bigint, buf: array<char>, i: nat, ilim: nat, ghost v: Scaled)
    returns (done: bool, n: nat, carried: bool, b: Bigint)
    requires FixedState(v, i, b0, S, buf, ilim)
    modifies buf, b0, b0.x
    ensures done ==> 1 <= n <= ilim && IsFixed(v, ilim, buf[..n], if carried then 1 else 0)
    ensures !done ==> i < ilim && FixedState(v, i + 1, b, S, buf, ilim)
    ensures b == b0 || fresh(b.Repr())
  {
    hide Val, Pow, Number, BeforeDigit, AfterDigit, Aligned, IsRounded;
    b := b0;
    FixedDigit(b, S, buf, i, v);
    done, n, carried := true, i, false;
    var z := IsZero(b);
    if z {
      ExactDigits(v, i, ilim, Number(buf[..i]), Pow(10, i - 1), Pow(10, i - 1));
      assert buf[..i][0] == buf[0] && buf[..i][i - 1] == buf[i - 1];
    } else if i >= ilim {
      n, carried := RoundLast(b, S, buf, ilim, v);
    } else {
      done := false;
      NextDigit(v, i, Number(buf[..i]), b.Value(), Pow(10, i - 1), Pow(10, i - 1));
      PowNext(10, i - 1);
      b := MultAdd(b, 10, 0);
    }
  }

  /** The loop for modes 2 and 3: ilim digits, or fewer if the quotient comes out even. */
  method FixedLoop(b0: Bigint, S: Bigint, buf: array<char>, ilim: nat) returns (n: nat, carried: bool)
    requires Good(b0) && Good(S) && Aligned(S) && b0.Repr() !! S.Repr()
    requires S.Value() <= b0.Value() < 10 * S.Value() && 1 <= ilim <= buf.Length
    modifies buf, b0, b0.x
    ensures 1 <= n <= ilim
    ensures IsFixed(old(Scaled(b0.Value(), S.Value(), 1, 1, true)), ilim, buf[..n], if carried then 1 else 0)
  {
    ghost var v := Scaled(b0.Value(), S.Value(), 1, 1, true);
    var b, i := b0, 1;
    hide Val, Pow, BeforeDigit, Aligned, IsFixed;
    StartFixed(v, buf[..0]);
    assert FixedState(v, 1, b, S, buf, ilim);
    hide FixedState;
    while true
      invariant 1 <= i <= ilim && FixedState(v, i, b, S, buf, ilim)
      invariant b == b0 || fresh(b.Repr())
      decreases ilim - i
    {
      var done;
      done, n, carried, b := FixedRound(b, S, buf, i, ilim, v);
      if done {
        return;
      }
      i := i + 1;
    }
  }
}
