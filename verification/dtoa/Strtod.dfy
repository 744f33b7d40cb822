/** The exact half of strtod: is the approximation within half a unit in the last place of the decimal? */
module Strtod {
  import opened Powers
  import opened Words
  import opened BigInts
  import opened Kernel
  import opened PowersOfFive
  import opened DoubleBits
  import opened DigitBuffer
  import opened Shortest
  import opened DigitLoops
  import opened Decimals
  import opened Minimal
  import opened Scaling
  import opened Dtoa

  // ----- s2b -----

  /** nd digits of which nd0 come before the decimal point, which is one character. */
  predicate Written(s: seq<char>, nd0: nat, nd: nat)
  {
    1 <= nd0 <= nd && (if nd0 < nd then nd < |s| else nd <= |s|)
    && (forall p :: 0 <= p < nd0 ==> IsDigit(s[p]))
    && (nd0 < nd ==> forall p :: nd0 < p <= nd ==> IsDigit(s[p]))
  }

  /** The digits without the point. */
  function AllDigits(s: seq<char>, nd0: nat, nd: nat): (ds: seq<char>)
    requires Written(s, nd0, nd)
    ensures |ds| == nd && Digits(ds)
  {
    seq(nd, j requires 0 <= j < nd => s[if j < nd0 then j else j + 1])
  }

  /** b = multadd(b, 10, *s++ - '0') */
  method AppendDigit(b0: Bigint, ghost ds: seq<char>, c: char, ghost i: nat) returns (b: Bigint)
    requires b0.Valid() && b0.Normal() && b0.wds > 0
    requires Digits(ds) && i < |ds| && c == ds[i] && b0.Value() == Number(ds[..i])
    modifies b0, b0.x
    ensures b.Valid() && b.Normal() && b.wds > 0 && (b == b0 || fresh(b.Repr()))
    ensures b.Value() == Number(ds[..i + 1])
  {
    NumberTake(ds, i);
    hide Val, Number;
    b := MultAdd(b0, 10, c as int - '0' as int);
  }

  /** A Bigint with room for nd digits, holding the first nine of them. */
  method FirstNine(nd: nat, y9: Word) returns (b: Bigint)
    ensures fresh(b.Repr()) && b.Valid() && b.Normal() && b.wds == 1 && b.Value() == y9
  {
    var x := (nd + 8) / 9;
    var k, y := 0, 1;
    while x > y
      invariant y == Pow(2, k) && y > 0
      decreases x - y
    {
      y := y * 2;
      k := k + 1;
    }
    b := new Bigint.Balloc(k);
    b.x[0] := y9;
    b.wds := 1;
    OneWord(b.x[..1]);
  }

  /** The digits as a Bigint, given that y9 is the number the first nine of them write. */
  method S2B(s: seq<char>, nd0: nat, nd: nat, y9: Word) returns (b: Bigint)
    requires Written(s, nd0, nd)
    requires y9 == Number(AllDigits(s, nd0, nd)[..if nd < 9 then nd else 9])
    ensures fresh(b.Repr()) && b.Valid() && b.Normal() && b.wds > 0
    ensures b.Value() == Number(AllDigits(s, nd0, nd))
  {
    b := FirstNine(nd, y9);
    ghost var ds := AllDigits(s, nd0, nd);
    hide Val, Number, Pow;
    var i, p := 9, 10;
    if 9 < nd0 {
      b := AppendRun(b, ds, s, 9, nd0, 9);
      i, p := nd0, nd0 + 1;
    }
    if i < nd {
      b := AppendRun(b, ds, s, i, nd, p);
    }
    assert ds[..nd] == ds;
  }

  /** The digits from number i0 up to but not including i1, which are written from position p0 on. */
  method AppendRun(b0: Bigint, ghost ds: seq<char>, s: seq<char>, i0: nat, i1: nat, p0: nat) returns (b: Bigint)
    requires i0 <= i1 <= |ds| && p0 + (i1 - i0) <= |s| && ds[i0..i1] == s[p0..p0 + (i1 - i0)] && Digits(ds)
    requires b0.Valid() && b0.Normal() && b0.wds > 0 && b0.Value() == Number(ds[..i0])
    modifies b0, b0.x
    ensures b.Valid() && b.Normal() && b.wds > 0 && (b == b0 || fresh(b.Repr()))
    ensures b.Value() == Number(ds[..i1])
  {
    hide Val, Number, Pow;
    b := b0;
    var i, p := i0, p0;
    while i < i1
      invariant i0 <= i <= i1 && p == p0 + (i - i0)
      invariant b.Valid() && b.Normal() && b.wds > 0 && (b == b0 || fresh(b.Repr()))
      invariant b.Value() == Number(ds[..i])
    {
      assert s[p] == s[p0..p0 + (i1 - i0)][i - i0] == ds[i];
      b := AppendDigit(b, ds, s[p], i);
      i, p := i + 1, p + 1;
    }
  }

  lemma OneWord(s: seq<Word>)
    requires |s| == 1
    ensures Val(s) == s[0]
  {
    assert s == [] + [s[0]];
    ValPush([], s[0]);
    PowZero(BASE);
  }

  // ----- The exponents -----

  /** What strtod subtracts from its approximation when it may become denormal: it works on rv times 2^106. */
  const SCALE: nat := 2 * P

  /** The unit in the last place of the unscaled approximation is twice this power of two. */
  function HalfUlpExp(word0: Word, scale: nat): int
  {
    var h := UnitExp(word0) - scale - 1;
    if h < -1075 then -1075 else h
  }

  /**
   * The bookkeeping of bb2, bb5, bd2, bd5 and bs2: how the exponents of the approximation, of the
   * decimal and of half a unit differ.
   */
  method HalfUlpExponents(word0: Word, bbe: int, bbbits: int, scale: nat, e: int, ghost shift: nat)
    returns (bb2: int, bb5: int, bd2: int, bd5: int, bs2: int)
    requires bbe == UnitExp(word0) + shift && bbbits >= 1
    requires if ExpField(word0) > 0 then bbbits == P - shift else bbe + bbbits - 1 < -1022
    requires bbe - scale >= -1074
    ensures bb2 >= 0 && bb5 >= 0 && bd2 >= 0 && bd5 >= 0 && bs2 >= 0
    ensures bb2 - bd2 == bbe - scale - e && bs2 - bd2 == HalfUlpExp(word0, scale) - e && bb5 - bd5 == -e
  {
    if e >= 0 {
      bb2, bb5 := 0, 0;
      bd2, bd5 := e, e;
    } else {
      bb2, bb5 := -e, -e;
      bd2, bd5 := 0, 0;
    }
    if bbe >= 0 {
      bb2 := bb2 + bbe;
    } else {
      bd2 := bd2 - bbe;
    }
    bs2 := bb2;
    var j := bbe - scale;
    var i := j + bbbits - 1;
    if i < -1022 {
      j := j + P + 1022;
    } else {
      j := P + 1 - bbbits;
    }
    bb2 := bb2 + j;
    bd2 := bd2 + j + scale;
    i := if bb2 < bd2 then bb2 else bd2;
    if i > bs2 {
      i := bs2;
    }
    if i > 0 {
      bb2, bd2, bs2 := bb2 - i, bd2 - i, bs2 - i;
    }
  }

  // ----- The factors -----

  method Copy(from: Bigint) returns (b: Bigint)
    requires Good(from) && from.Value() > 0
    ensures fresh(b.Repr()) && Good(b) && b.Value() == from.Value()
  {
    PositiveHasWords(from);
    hide Val, Pow;
    b := new Bigint.Balloc(from.k);
    Bcopy(b, from);
    assert b.x[b.wds - 1] == b.x[..b.wds][b.wds - 1] == from.x[..b.wds][b.wds - 1];
  }

  method ShiftUp(b0: Bigint, n: nat) returns (b: Bigint)
    requires Good(b0) && b0.Value() > 0
    ensures Good(b) && b.Value() == b0.Value() * Pow(2, n) && b.Value() > 0
    ensures b == b0 || fresh(b.Repr())
  {
    PositiveShift(b0.Value(), n);
    PowZero(2);
    hide Val, Pow;
    b := b0;
    if n > 0 {
      PositiveHasWords(b);
      b := LShift(b, n);
    }
  }

  method TimesFive(cache: Pow5Cache, b0: Bigint, n: nat) returns (b: Bigint)
    requires cache.Valid() && Good(b0) && b0.Value() > 0 && b0.Repr() !! cache.Repr
    modifies cache.Repr, b0, b0.x
    ensures cache.Valid() && fresh(cache.Repr - old(cache.Repr))
    ensures Good(b) && b.Value() == old(b0.Value()) * Pow(5, n) && b.Value() > 0
    ensures (b == b0 || fresh(b.Repr())) && b.Repr() !! cache.Repr
  {
    PowZero(5);
    PowPositive(5, n);
    MulMonotone(1, b0.Value(), Pow(5, n));
    hide Val, Pow, Pow5Cache.Valid;
    b := b0;
    if n > 0 {
      b := cache.Pow5Mult(b, n);
    }
  }

  /** `if (bb5 > 0)` bb is multiplied by bs, which is 5^bb5. */
  method MultFives(bs: Bigint, bb0: Bigint, bb5: nat) returns (bb: Bigint)
    requires Good(bs) && bs.Value() == Pow(5, bb5) && Good(bb0) && bb0.Value() > 0
    ensures Good(bb) && bb.Value() == bb0.Value() * Pow(5, bb5) && bb.Value() > 0
    ensures bb == bb0 || fresh(bb.Repr())
  {
    PowPositive(5, bb5);
    PowZero(5);
    MulMonotone(1, bb0.Value(), Pow(5, bb5));
    hide Val, Pow;
    bb := bb0;
    if bb5 > 0 {
      PositiveHasWords(bs);
      SwapFactors(bs.Value(), bb.Value());
      bb := Mult(bs, bb);
    }
  }

  /** bs and bb times 5^bb5. */
  method Fives(cache: Pow5Cache, bb0: Bigint, bb5: nat) returns (bb: Bigint, bs: Bigint)
    requires cache.Valid() && Good(bb0) && bb0.Value() > 0 && bb0.Repr() !! cache.Repr
    modifies cache.Repr
    ensures cache.Valid() && fresh(cache.Repr - old(cache.Repr))
    ensures Good(bb) && Good(bs) && bb.Value() > 0 && bs.Value() > 0
    ensures bb.Value() == old(bb0.Value()) * Pow(5, bb5) && bs.Value() == Pow(5, bb5)
    ensures (bb == bb0 || fresh(bb.Repr())) && bb.Repr() !! cache.Repr
    ensures fresh(bs.Repr()) && bs.Repr() !! cache.Repr
  {
    PowPositive(5, bb5);
    hide Val, Pow, Pow5Cache.Valid, Bigint.Valid, Bigint.Normal, Bigint.Shaped;
    bs := FivePower(cache, bb5);
    bb := MultFives(bs, bb0, bb5);
  }

  /** The multiplications and shifts: bb, bd and bs with all their factors. */
  method CommonScale(cache: Pow5Cache, bb0: Bigint, bd0: Bigint, bb2: nat, bb5: nat, bd2: nat, bd5: nat, bs2: nat)
    returns (bb: Bigint, bd: Bigint, bs: Bigint)
    requires cache.Valid() && Good(bb0) && bb0.Value() > 0 && Good(bd0) && bd0.Value() > 0
    requires bb0.Repr() !! cache.Repr && bd0.Repr() !! cache.Repr && bb0.Repr() !! bd0.Repr()
    modifies cache.Repr, bd0, bd0.x
    ensures cache.Valid() && fresh(cache.Repr - old(cache.Repr))
    ensures Good(bb) && Good(bd) && Good(bs) && bb.Value() > 0 && bd.Value() > 0 && bs.Value() > 0
    ensures bb.Value() == Times(old(bb0.Value()), bb5, bb2)
    ensures bd.Value() == Times(old(bd0.Value()), bd5, bd2)
    ensures bs.Value() == Times(1, bb5, bs2)
  {
    hide Val, Pow, Pow5Cache.Valid, Bigint.Valid, Bigint.Normal, Bigint.Shaped;
    bb, bs := Fives(cache, bb0, bb5);
    bb := ShiftUp(bb, bb2);
    bd := TimesFive(cache, bd0, bd5);
    bd := ShiftUp(bd, bd2);
    bs := ShiftUp(bs, bs2);
  }

  // ----- The test -----

  /** The double with these words, before the scaling by 2^scale that keeps it normal. */
  ghost function Approximation(word0: Word, word1: Word, scale: nat): real
  {
    Significand(word0, word1) as real * RPow(2, UnitExp(word0) - scale)
  }

  ghost function HalfUlp(word0: Word, scale: nat): (h: real)
    ensures h > 0.0
  {
    RPow(2, HalfUlpExp(word0, scale))
  }

  /** The low bits that a scaled number could not keep as a denormal are zero. */
  ghost predicate OnGrid(word0: Word, word1: Word, scale: nat)
  {
    scale == 0
    || (ExpField(word0) > 0
        && (ExpField(word0) <= SCALE ==> MultipleOfPow(Significand(word0, word1), SCALE + 1 - ExpField(word0))))
  }

  ghost predicate MultipleOfPow(m: nat, j: nat)
  {
    exists m1: nat :: ShiftedBy(m1, j, m)
  }

  /** An odd number times 2^k that is a multiple of 2^j has k >= j. */
  lemma OddPart(b: nat, k: nat, m: nat, m1: nat, j: nat)
    requires ShiftedBy(b, k, m) && b % 2 == 1 && ShiftedBy(m1, j, m)
    ensures k >= j
  {
    if k < j {
      PowAdd(2, k, j - k);
      PowNext(2, j - k - 1);
      PowPositive(2, k);
      assert b * Pow(2, k) == m1 * Pow(2, k + (j - k));
      hide Pow;
      CancelFactor(b, m1, Pow(2, j - k), Pow(2, k));
      EvenTimes(m1, Pow(2, j - k - 1));
      assert false;
    }
  }

  lemma CancelFactor(b: nat, m: nat, q: nat, p: nat)
    requires p > 0 && b * p == m * (p * q)
    ensures b == m * q
  {
    assert m * (p * q) == (m * q) * p;
    CancelBelow(b, m * q, p);
    CancelBelow(m * q, b, p);
  }

  lemma EvenTimes(m: nat, h: nat)
    ensures m * (2 * h) % 2 == 0
  {
    assert m * (2 * h) == 2 * (m * h);
  }

  /** c 2^a over 2^bd2 5^bd5, in units of 10^e. */
  lemma TimesRatio(c: nat, x2: nat, x5: nat, bd2: nat, bd5: nat, a: int, e: int, num: nat, den: nat)
    requires x2 - bd2 == a - e && x5 - bd5 == -e && num == Times(c, x5, x2) && den == Times(1, bd5, bd2)
    ensures Ratio(den, c as real * RPow(2, a), num, e)
  {
    hide Pow, RPow;
    Commute3(c, Pow(5, x5), Pow(2, x2));
    Commute3(1, Pow(5, bd5), Pow(2, bd2));
    assert num == c * Pow(2, x2) * Pow(5, x5) && den == Pow(2, bd2) * Pow(5, bd5);
    hide Times, Ratio;
    ScaledQuotient(c, x2, x5, bd2, bd5, a, e, num, den);
    IsRatio(den, c as real * RPow(2, a), num, e);
  }

  lemma IsRatio(s: nat, x: real, c: nat, k: int)
    requires s as real * x == c as real * RPow(10, k)
    ensures Ratio(s, x, c, k)
  {
  }

  lemma DecimalRatio(d: nat, bd2: nat, bd5: nat, e: int, num: nat, den: nat)
    requires num == Times(d, bd5, bd2) && den == Times(1, bd5, bd2)
    ensures Ratio(den, Decimal(d, e), num, e)
  {
    var x, y, t := Pow(5, bd5), Pow(2, bd2), RPow(10, e);
    hide Pow, RPow;
    Commute3(1, x, y);
    assert d * x * y == (x * y) * d;
    AsReal(x * y, d);
    RAssoc((x * y) as real, d as real, t);
  }

  /** What comparing integers says about the real numbers they measure in units of 10^e / den. */
  lemma Decided(den: nat, e: int, x: real, y: real, h: real, cx: nat, cy: nat, ch: nat)
    requires den > 0 && Ratio(den, x, cx, e) && Ratio(den, y, cy, e) && Ratio(den, h, ch, e)
    ensures x < y <==> cx < cy
    ensures Abs(cx - cy) < ch <==> RAbs(x - y) < h
    ensures Abs(cx - cy) > ch <==> RAbs(x - y) > h
    ensures 2 * Abs(cx - cy) > ch <==> 2.0 * RAbs(x - y) > h
    ensures x == y <==> Abs(cx - cy) == 0
  {
    var s, t := den as real, RPow(10, e);
    hide RPow;
    assert s * x == cx as real * t && s * y == cy as real * t && s * h == ch as real * t;
    hide Ratio;
    Distances(s, t, x, y, cx, cy);
    hide RAbs, Abs;
    Compared(s, t, RAbs(x - y), h, Abs(cx - cy), ch);
  }

  lemma Compared(s: real, t: real, x: real, h: real, c: nat, ch: nat)
    requires s > 0.0 && t > 0.0 && s * x == c as real * t && s * h == ch as real * t
    ensures c < ch <==> x < h
    ensures c > ch <==> x > h
    ensures 2 * c > ch <==> 2.0 * x > h
  {
    CrossOrder(s, t, x, h, c as real, ch as real);
    CrossOrder(s, t, h, x, ch as real, c as real);
    assert s * (2.0 * x) == (2 * c) as real * t;
    CrossOrder(s, t, h, 2.0 * x, ch as real, (2 * c) as real);
  }

  lemma Distances(s: real, t: real, x: real, y: real, cx: nat, cy: nat)
    requires s > 0.0 && t > 0.0 && s * x == cx as real * t && s * y == cy as real * t
    ensures x < y <==> cx < cy
    ensures x == y <==> cx == cy
    ensures s * RAbs(x - y) == Abs(cx - cy) as real * t
  {
    CrossOrder(s, t, x, y, cx as real, cy as real);
    CrossOrder(s, t, y, x, cy as real, cx as real);
    assert s * (x - y) == s * x - s * y && s * (y - x) == s * y - s * x;
    assert (cx - cy) as real * t == cx as real * t - cy as real * t;
    assert (cy - cx) as real * t == cy as real * t - cx as real * t;
  }

  // ----- The test -----

  /** delta and bs compare as the distance of rv and x does with half a unit in the last place of rv. */
  ghost predicate Measures(delta: nat, bs: nat, dsign: bool, rv: real, x: real, half: real)
  {
    && bs > 0 && (dsign <==> rv < x) && (delta == 0 <==> rv == x)
    && (delta < bs <==> RAbs(rv - x) < half)
    && (delta > bs <==> RAbs(rv - x) > half)
    && (2 * delta > bs <==> 2.0 * RAbs(rv - x) > half)
  }

  lemma GridShift(word0: Word, word1: Word, scale: nat, b: nat, shift: nat)
    requires (scale == 0 || scale == SCALE) && OnGrid(word0, word1, scale)
    requires b % 2 == 1 && ShiftedBy(b, shift, Significand(word0, word1))
    ensures UnitExp(word0) + shift - scale >= -1074
  {
    hide ShiftedBy, Significand;
    if scale > 0 && ExpField(word0) <= SCALE {
      var j := SCALE + 1 - ExpField(word0);
      var m1: nat :| ShiftedBy(m1, j, Significand(word0, word1));
      OddPart(b, shift, Significand(word0, word1), m1, j);
    }
  }

  lemma DenormalBits(word0: Word, word1: Word, b: nat, shift: nat, bits: int)
    requires ExpField(word0) == 0 && ShiftedBy(b, shift, Significand(word0, word1)) && HasBits(b, bits)
    ensures bits + shift <= 52 && UnitExp(word0) == -1074
  {
    Pow2Constants();
    assert Significand(word0, word1) < Pow(2, 52);
    hide Significand, Pow;
    MoreBits(b, bits, shift);
    PowReflects(2, bits + shift - 1, 52);
  }

  /** d2b and the exponents of the three numbers. */
  method SplitApproximation(word0: Word, word1: Word, scale: nat, e: int)
    returns (bb: Bigint, bb2: nat, bb5: nat, bd2: nat, bd5: nat, bs2: nat, ghost shift: nat)
    requires Significand(word0, word1) > 0 && (scale == 0 || scale == SCALE) && OnGrid(word0, word1, scale)
    ensures fresh(bb.Repr()) && Good(bb) && bb.Value() > 0
    ensures ShiftedBy(bb.Value(), shift, Significand(word0, word1))
    ensures bb2 - bd2 == UnitExp(word0) - scale + shift - e && bs2 - bd2 == HalfUlpExp(word0, scale) - e
    ensures bb5 - bd5 == -e
  {
    hide Val, Pow, Significand, UnitExp, HasBits, ShiftedBy, OnGrid;
    var bbe, bbbits;
    bb, bbe, bbbits, shift := D2B(word0, word1);
    BitsPositive(bb.Value(), bbbits);
    GridShift(word0, word1, scale, bb.Value(), shift);
    if ExpField(word0) == 0 {
      DenormalBits(word0, word1, bb.Value(), shift, bbbits);
    }
    bb2, bb5, bd2, bd5, bs2 := HalfUlpExponents(word0, bbe, bbbits, scale, e, shift);
  }

  /** The integers of the test measure what they should. */
  lemma TestFacts(word0: Word, word1: Word, scale: nat, c: nat, shift: nat, d: nat, e: int,
                  bb2: nat, bb5: nat, bd2: nat, bd5: nat, bs2: nat, bb: nat, bd: nat, bs: nat)
    requires ShiftedBy(c, shift, Significand(word0, word1))
    requires bb2 - bd2 == UnitExp(word0) - scale + shift - e && bs2 - bd2 == HalfUlpExp(word0, scale) - e
    requires bb5 - bd5 == -e
    requires bb == Times(c, bb5, bb2) && bd == Times(d, bd5, bd2) && bs == Times(1, bb5, bs2) && bs > 0
    ensures Measures(Abs(bb - bd), bs, bb < bd, Approximation(word0, word1, scale), Decimal(d, e), HalfUlp(word0, scale))
  {
    hide Pow, RPow, Significand, UnitExp, HalfUlpExp, ShiftedBy, Times, Ratio, Decimal, Distance, RAbs;
    var a := UnitExp(word0) - scale;
    var den := Times(1, bd5, bd2);
    TimesPositive(bd5, bd2);
    MovedExponent(c, shift, Significand(word0, word1), a);
    TimesRatio(c, bb2, bb5, bd2, bd5, a + shift, e, bb, den);
    TimesRatio(1, bs2, bb5, bd2, bd5, HalfUlpExp(word0, scale), e, bs, den);
    OneReal(RPow(2, HalfUlpExp(word0, scale)));
    DecimalRatio(d, bd2, bd5, e, bd, den);
    Decided(den, e, Approximation(word0, word1, scale), Decimal(d, e), HalfUlp(word0, scale), bb, bd, bs);
  }

  lemma OneReal(x: real)
    ensures 1 as real * x == x
  {
  }

  lemma TimesPositive(x5: nat, x2: nat)
    ensures Times(1, x5, x2) > 0
  {
    PowPositive(5, x5);
    PowPositive(2, x2);
    hide Pow;
    MulMonotone(1, Pow(5, x5), Pow(2, x2));
  }

  /** The approximation, the decimal and half a unit, scaled to integers. */
  method ThreeNumbers(cache: Pow5Cache, bd0: Bigint, e: int, word0: Word, word1: Word, scale: nat)
    returns (bb: Bigint, bd: Bigint, bs: Bigint)
    requires cache.Valid() && Good(bd0) && bd0.Value() > 0 && bd0.Repr() !! cache.Repr
    requires Significand(word0, word1) > 0 && (scale == 0 || scale == SCALE) && OnGrid(word0, word1, scale)
    modifies cache.Repr
    ensures cache.Valid() && fresh(cache.Repr - old(cache.Repr))
    ensures Good(bb) && bb.Value() > 0 && Good(bd) && bd.Value() > 0 && Good(bs) && bs.Value() > 0
    ensures Measures(Abs(bb.Value() - bd.Value()), bs.Value(), bb.Value() < bd.Value(),
                     Approximation(word0, word1, scale), Decimal(old(bd0.Value()), e), HalfUlp(word0, scale))
  {
    hide Val, Pow, Significand, UnitExp, OnGrid, ShiftedBy, HalfUlpExp, Measures, Pow5Cache.Valid,
         Bigint.Normal, Distance;
    ghost var d := bd0.Value();
    bd := Copy(bd0);
    var bb2, bb5, bd2, bd5, bs2;
    ghost var shift;
    bb, bb2, bb5, bd2, bd5, bs2, shift := SplitApproximation(word0, word1, scale, e);
    ghost var c := bb.Value();
    assert bd.Value() == d && Good(bd);
    bb, bd, bs := CommonScale(cache, bb, bd, bb2, bb5, bd2, bd5, bs2);
    TestFacts(word0, word1, scale, c, shift, d, e, bb2, bb5, bd2, bd5, bs2, bb.Value(), bd.Value(), bs.Value());
  }

  /**
   * One comparison of strtod's refinement loop: how far the approximation is from the decimal
   * bd0 10^e, and on which side.
   */
  method HalfUlpTest(cache: Pow5Cache, bd0: Bigint, e: int, word0: Word, word1: Word, scale: nat)
    returns (delta: Bigint, bs: Bigint, dsign: bool, i: int)
    requires cache.Valid() && Good(bd0) && bd0.Value() > 0 && bd0.Repr() !! cache.Repr
    requires Significand(word0, word1) > 0 && (scale == 0 || scale == SCALE) && OnGrid(word0, word1, scale)
    modifies cache.Repr
    ensures cache.Valid() && fresh(cache.Repr - old(cache.Repr))
    ensures Good(delta) && delta.wds > 0 && Good(bs) && bs.Value() > 0
    ensures Measures(delta.Value(), bs.Value(), dsign, Approximation(word0, word1, scale),
                     Decimal(old(bd0.Value()), e), HalfUlp(word0, scale))
    ensures Sign(i) == Sign(delta.Value() - bs.Value())
  {
    hide Val, Pow, Significand, UnitExp, OnGrid, HalfUlpExp, Measures, Pow5Cache.Valid;
    var bb, bd;
    bb, bd, bs := ThreeNumbers(cache, bd0, e, word0, word1, scale);
    PositiveHasWords(bb);
    PositiveHasWords(bd);
    delta := Diff(bb, bd);
    dsign := delta.sign != 0;
    delta.sign := 0;
    i := Cmp(delta, bs);
  }
}
