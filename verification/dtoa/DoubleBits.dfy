/** Doubles as two 32-bit words, and their conversion to a Bigint and an exponent. */
module DoubleBits {
  import opened Powers
  import opened Words
  import opened BigInts
  import Kernel

  const EXP_MSK1: nat := 0x10_0000
  const BIAS: nat := 1023
  const P: nat := 53

  /** The exponent field. */
  function ExpField(word0: Word): (e: nat)
    ensures e < 2048
  {
    (word0 % 0x8000_0000) / EXP_MSK1
  }

  function FracHigh(word0: Word): (f: nat)
    ensures f < EXP_MSK1
  {
    word0 % EXP_MSK1
  }

  function HiddenBit(word0: Word): nat
  {
    if ExpField(word0) > 0 then EXP_MSK1 else 0
  }

  /** The double with these words is, but for its sign, Significand times 2^UnitExp. */
  function Significand(word0: Word, word1: Word): nat
  {
    (HiddenBit(word0) + FracHigh(word0)) * BASE + word1
  }

  function UnitExp(word0: Word): int
  {
    (if ExpField(word0) > 0 then ExpField(word0) else 1) - 1075
  }

  /** The weight of the lowest bit grows with the exponent field; a normal significand has 53 bits. */
  lemma SignificandBounds(word0: Word, word1: Word)
    ensures Significand(word0, word1) < Pow(2, 53)
    ensures ExpField(word0) > 0 ==> Pow(2, 52) <= Significand(word0, word1)
  {
    Pow2Constants();
  }

  lemma Pow2Constants()
    ensures Pow(2, 16) == 0x1_0000 && Pow(2, 20) == 0x10_0000 && Pow(2, 32) == BASE
    ensures Pow(2, 52) == 0x10_0000_0000_0000 && Pow(2, 53) == 0x20_0000_0000_0000
  {
    assert Pow(2, 4) == 16;
    PowAdd(2, 4, 4);
    PowAdd(2, 8, 8);
    PowAdd(2, 16, 4);
    PowAdd(2, 16, 16);
    PowAdd(2, 32, 20);
    PowNext(2, 52);
  }

  lemma Pow2Small()
    ensures Pow(2, 0) == 1 && Pow(2, 1) == 2 && Pow(2, 2) == 4 && Pow(2, 4) == 16
    ensures Pow(2, 8) == 256 && Pow(2, 16) == 0x1_0000
  {
    Pow2Constants();
    assert Pow(2, 4) == 16;
    PowAdd(2, 4, 4);
  }

  /** x and y differ by k binary places. */
  ghost predicate ShiftedBy(x: nat, k: nat, y: nat)
  {
    x * Pow(2, k) == y
  }

  lemma ShiftMore(x: nat, k: nat, y: nat, j: nat, x1: nat)
    requires ShiftedBy(x, k, y) && x == x1 * Pow(2, j)
    ensures ShiftedBy(x1, k + j, y)
  {
    PowAdd(2, k, j);
    assert (x1 * Pow(2, j)) * Pow(2, k) == x1 * (Pow(2, k) * Pow(2, j));
  }

  /** x is not a multiple of m * n: one of those low bits is set. */
  predicate SetBelow(x: nat, m: nat, n: nat)
    requires m > 0 && n > 0
  {
    x % m != 0 || x / m % n != 0
  }

  /** If j more low bits are zero, they go; else one of them stays set. */
  method LoStep(x: Word, k: nat, ghost y: nat, j: nat, m: nat) returns (k1: nat, x1: Word)
    requires m > 0 && m == Pow(2, j) && ShiftedBy(x, k, y) && SetBelow(x, m, m)
    ensures ShiftedBy(x1, k1, y) && k <= k1 <= k + j && SetBelow(x1, m, 1)
  {
    k1, x1 := k, x;
    if x % m == 0 {
      DivSmaller(x, m);
      ShiftMore(x, k, y, j, x / m);
      k1, x1 := k + j, x / m;
    }
  }

  lemma DivSmaller(x: nat, m: nat)
    requires m > 0
    ensures 0 <= x / m <= x
    ensures x % m == 0 ==> x == (x / m) * m
  {
    var q := x / m;
    assert x == q * m + x % m;
    if q < 0 {
      MulMonotone(q, -1, m);
    } else {
      MulAtLeast(q, m);
    }
  }

  /** `if (x & 7)`: at most two trailing zeros. */
  method LoFew(y: Word) returns (k: nat, x: Word)
    requires y % 8 != 0
    ensures k <= 2 && x % 2 == 1 && ShiftedBy(x, k, y)
  {
    Pow2Small();
    if y % 2 != 0 {
      return 0, y;
    }
    if y / 2 % 2 != 0 {
      return 1, y / 2;
    }
    return 2, y / 4;
  }

  lemma Finer16(x: nat)
    requires SetBelow(x, 0x1_0000, 1)
    ensures SetBelow(x, 0x100, 0x100)
  {
  }

  lemma Finer8(x: nat)
    requires SetBelow(x, 0x100, 1)
    ensures SetBelow(x, 0x10, 0x10)
  {
  }

  lemma Finer4(x: nat)
    requires SetBelow(x, 0x10, 1)
    ensures SetBelow(x, 4, 4)
  {
  }

  lemma Finer2(x: nat)
    requires SetBelow(x, 4, 1)
    ensures SetBelow(x, 2, 2)
  {
  }

  lemma One(x: nat)
    ensures x % 1 == 0
  {
  }

  /** The number of trailing zero bits of a nonzero word, and the word shifted right by it. */
  method Lo0Bits(y: Word) returns (k: nat, x: Word)
    requires y > 0
    ensures k < 32 && x % 2 == 1 && ShiftedBy(x, k, y)
  {
    if y % 8 != 0 {
      k, x := LoFew(y);
      return;
    }
    Pow2Small();
    k, x := 0, y;
    assert ShiftedBy(x, k, y);
    assert SetBelow(x, 0x1_0000, 0x1_0000);
    hide Pow, ShiftedBy, SetBelow;
    k, x := LoStep(x, k, y, 16, 0x1_0000);
    Finer16(x);
    k, x := LoStep(x, k, y, 8, 0x100);
    Finer8(x);
    k, x := LoStep(x, k, y, 4, 0x10);
    Finer4(x);
    k, x := LoStep(x, k, y, 2, 4);
    Finer2(x);
    k, x := LoStep(x, k, y, 1, 2);
    IsOdd(x);
  }

  lemma IsOdd(x: nat)
    requires SetBelow(x, 2, 1)
    ensures x % 2 == 1
  {
    One(x / 2);
  }

  /** The number of leading zero bits of a word. */
  method Hi0Bits(x0: Word) returns (k: nat)
    ensures x0 == 0 ==> k == 32
    ensures x0 > 0 ==> k < 32 && 0x8000_0000 <= x0 * Pow(2, k) < BASE
  {
    Pow2Small();
    var x := x0;
    k := 0;
    hide Pow;
    if x < 0x1_0000 {
      HiMore(x0, k, x, 16, x * 0x1_0000);
      k, x := 16, x * 0x1_0000;
    }
    if x < 0x100_0000 {
      HiMore(x0, k, x, 8, x * 0x100);
      k, x := k + 8, x * 0x100;
    }
    if x < 0x1000_0000 {
      HiMore(x0, k, x, 4, x * 0x10);
      k, x := k + 4, x * 0x10;
    }
    if x < 0x4000_0000 {
      HiMore(x0, k, x, 2, x * 4);
      k, x := k + 2, x * 4;
    }
    if x < 0x8000_0000 {
      HiMore(x0, k, x, 1, x * 2);
      k := k + 1;
      if x < 0x4000_0000 {
        return 32;
      }
    }
  }

  lemma HiMore(x0: nat, k: nat, x: nat, j: nat, x1: nat)
    requires x0 * Pow(2, k) == x && x1 == x * Pow(2, j)
    ensures x0 * Pow(2, k + j) == x1
  {
    PowAdd(2, k, j);
    assert (x0 * Pow(2, k)) * Pow(2, j) == x0 * (Pow(2, k) * Pow(2, j));
  }

  // ----- d2b -----

  /** b has the given number of bits. */
  ghost predicate HasBits(b: nat, bits: int)
  {
    bits >= 1 && Pow(2, bits - 1) <= b < Pow(2, bits)
  }

  lemma CancelBelow(x: nat, y: nat, p: nat)
    requires p > 0
    ensures x * p <= y * p <==> x <= y
    ensures x * p < y * p <==> x < y
  {
    if x <= y {
      MulMonotone(x, y, p);
    }
    if x < y {
      MulMonotone(x + 1, y, p);
      assert (x + 1) * p == x * p + p;
    }
    if x > y {
      MulMonotone(y + 1, x, p);
      assert (y + 1) * p == y * p + p;
    }
  }

  /** Shifting right by k takes k bits away. */
  lemma ShiftBits(b: nat, k: nat, m: nat, bits: nat)
    requires b > 0 && ShiftedBy(b, k, m) && HasBits(m, bits)
    ensures HasBits(b, bits - k)
  {
    hide Pow;
    PowPositive(2, k);
    MulMonotone(1, b, Pow(2, k));
    PowReflects(2, k, bits);
    PowAdd(2, bits - 1 - k, k);
    PowAdd(2, bits - k, k);
    CancelBelow(Pow(2, bits - 1 - k), b, Pow(2, k));
    CancelBelow(b, Pow(2, bits - k), Pow(2, k));
    assert bits - k >= 1;
    assert bits - k - 1 == bits - 1 - k;
  }

  /** A word with h leading zeros has 32 - h bits. */
  lemma WordBits(top: nat, h: nat)
    requires h < 32 && 0x8000_0000 <= top * Pow(2, h) < BASE
    ensures Pow(2, 31 - h) <= top && top + 1 <= Pow(2, 32 - h)
  {
    Pow2Constants();
    PowNext(2, 31);
    PowAdd(2, 31 - h, h);
    PowAdd(2, 32 - h, h);
    PowPositive(2, h);
    hide Pow;
    CancelBelow(Pow(2, 31 - h), top, Pow(2, h));
    CancelBelow(top, Pow(2, 32 - h), Pow(2, h));
  }

  /** The bits of a Bigint from the leading zeros of its top word. */
  lemma TopBits(s: seq<Word>, h: nat)
    requires |s| > 0 && h < 32 && 0x8000_0000 <= s[|s| - 1] * Pow(2, h) < BASE
    ensures HasBits(Val(s), 32 * |s| - h)
  {
    hide Pow, Val;
    var n, top: nat := |s| - 1, s[|s| - 1];
    ValTop(s);
    WordBits(top, h);
    BasePow(n);
    PowAdd(2, 31 - h, 32 * n);
    PowAdd(2, 32 - h, 32 * n);
    MulMonotone(Pow(2, 31 - h), top, Pow(BASE, n));
    MulMonotone(top + 1, Pow(2, 32 - h), Pow(BASE, n));
    assert 31 - h + 32 * n == 32 * |s| - h - 1;
    assert 32 - h + 32 * n == 32 * |s| - h;
  }

  /** The words of z * 2^32 + y after the k trailing zeros of y have been shifted out. */
  method ShiftOut(y: Word, z: Word) returns (k: nat, x0: Word, x1: Word)
    requires y > 0
    ensures k < 32 && x0 % 2 == 1
    ensures ShiftedBy(x0 + x1 * BASE, k, z * BASE + y)
  {
    var y1;
    k, y1 := Lo0Bits(y);
    PowPositive(2, k);
    if k != 0 {
      HighPart(y, z, k, y1);
      hide Pow, ShiftedBy;
      x0, x1 := y1 + (z * Pow(2, 32 - k)) % BASE, z / Pow(2, k);
    } else {
      PowZero(2);
      x0, x1 := y1, z;
    }
  }

  lemma HighPart(y: Word, z: Word, k: nat, y1: Word)
    requires 0 < k < 32 && ShiftedBy(y1, k, y) && y1 % 2 == 1
    ensures Pow(2, k) > 0 && 0 <= z / Pow(2, k) < BASE
    ensures 0 <= (z * Pow(2, 32 - k)) % BASE && y1 + (z * Pow(2, 32 - k)) % BASE < BASE
    ensures (y1 + (z * Pow(2, 32 - k)) % BASE) % 2 == 1
    ensures ShiftedBy(y1 + (z * Pow(2, 32 - k)) % BASE + (z / Pow(2, k)) * BASE, k, z * BASE + y)
  {
    PowPositive(2, k);
    PowPositive(2, 32 - k);
    PowAdd(2, 32 - k, k);
    PowNext(2, 31 - k);
    Pow2Constants();
    hide Pow;
    ShiftedWords(y, z, Pow(2, 32 - k), Pow(2, k), y1);
    EvenProduct(z, Pow(2, 31 - k));
    OddSum(y1, (z * Pow(2, 32 - k)) % BASE);
  }

  lemma OddSum(x: int, y: int)
    requires x % 2 == 1 && y % 2 == 0
    ensures (x + y) % 2 == 1
  {
  }

  lemma EvenProduct(z: int, h: int)
    ensures (z * (2 * h)) % BASE % 2 == 0
  {
    assert z * (2 * h) == 2 * (z * h);
  }

  lemma ShiftedWords(y: Word, z: Word, hi: nat, lo: nat, y1: Word)
    requires hi > 0 && lo > 0 && hi * lo == BASE && y1 * lo == y
    ensures 0 <= (z * hi) % BASE && y1 + (z * hi) % BASE < BASE && 0 <= z / lo < BASE
    ensures (y1 + (z * hi) % BASE + (z / lo) * BASE) * lo == z * BASE + y
  {
    CancelBelow(y1, hi, lo);
    Kernel.ShiftSplit(z, hi, lo, y1);
    DivSmaller(z, lo);
    TimesLow(y1 + (z * hi) % BASE + (z / lo) * BASE, z, hi, lo, y1);
  }

  lemma TimesLow(t: int, z: int, hi: int, lo: int, y1: int)
    requires t == z * hi + y1 && hi * lo == BASE
    ensures t * lo == z * BASE + y1 * lo
  {
    assert (z * hi + y1) * lo == z * (hi * lo) + y1 * lo;
  }

  lemma TwoWords(s: seq<Word>)
    requires |s| == 2
    ensures Val(s) == s[0] + s[1] * BASE && Val(s[..1]) == s[0]
  {
    PowZero(BASE);
    PowNext(BASE, 0);
    assert s[..1][..0] == [];
    assert s == s[..1] + [s[1]];
    ValPush(s[..1], s[1]);
    assert s[..1] == [] + [s[0]];
    ValPush([], s[0]);
  }

  /** The first part of d2b: the significand without its trailing zeros. */
  method Stripped(word0: Word, word1: Word) returns (b: Bigint, k: nat)
    requires Significand(word0, word1) > 0
    ensures fresh(b.Repr()) && b.Valid() && b.Normal() && b.wds > 0 && b.x[b.wds - 1] > 0
    ensures ShiftedBy(b.Value(), k, Significand(word0, word1)) && b.Value() % 2 == 1
  {
    hide Significand, Val, ShiftedBy, Pow, ExpField, FracHigh;
    Pow2Small();
    b := new Bigint.Balloc(1);
    var z: Word := FracHigh(word0) + HiddenBit(word0);
    SignificandParts(word0, word1);
    if word1 != 0 {
      k, b.x[0], b.x[1] := ShiftOut(word1, z);
      b.wds := if b.x[1] != 0 then 2 else 1;
    } else {
      k, z := Lo0Bits(z);
      b.x[0] := z;
      b.wds := 1;
      Pow2Constants();
      ShiftBase(z, k, FracHigh(word0) + HiddenBit(word0));
      k := k + 32;
    }
    TwoWords(b.x[..2]);
    assert b.x[..2][..1] == b.x[..1];
  }

  lemma SignificandParts(word0: Word, word1: Word)
    ensures Significand(word0, word1) == (FracHigh(word0) + HiddenBit(word0)) * BASE + word1
  {
  }

  lemma ShiftBase(x: nat, k: nat, y: nat)
    requires ShiftedBy(x, k, y)
    ensures ShiftedBy(x, k + 32, y * BASE)
  {
    Pow2Constants();
    PowAdd(2, k, 32);
    hide Pow;
    assert x * (Pow(2, k) * BASE) == (x * Pow(2, k)) * BASE;
  }

  /** |d| as an integer, the power of two it counts, and its length in bits. */
  method D2B(word0: Word, word1: Word) returns (b: Bigint, e: int, bits: int, ghost k: nat)
    requires Significand(word0, word1) > 0
    ensures fresh(b.Repr()) && b.Valid() && b.Normal() && b.wds > 0
    ensures ShiftedBy(b.Value(), k, Significand(word0, word1)) && e == UnitExp(word0) + k
    ensures HasBits(b.Value(), bits) && b.Value() % 2 == 1
    ensures ExpField(word0) > 0 ==> bits == P - k
  {
    var shift;
    b, shift := Stripped(word0, word1);
    k := shift;
    var de := ExpField(word0);
    SignificandBounds(word0, word1);
    hide Val, Pow, Significand, ShiftedBy;
    if de != 0 {
      e := de - BIAS - (P - 1) + shift;
      bits := P - shift;
      NonZero(b.Value(), shift, Significand(word0, word1));
      ShiftBits(b.Value(), shift, Significand(word0, word1), 53);
    } else {
      e := de - BIAS - (P - 1) + 1 + shift;
      var h := Hi0Bits(b.x[b.wds - 1]);
      bits := 32 * b.wds - h;
      TopBits(b.x[..b.wds], h);
    }
  }

  lemma NonZero(x: nat, k: nat, y: nat)
    requires ShiftedBy(x, k, y) && y > 0
    ensures x > 0
  {
    hide Pow;
  }
}
