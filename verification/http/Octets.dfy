/** Octets, the characters that matter in messages, lines, and numbers written in digits. */
module Octets {
  type Octet = n: int | 0 <= n < 256

  const SIZE_MAX: nat := 0xFFFF_FFFF_FFFF_FFFF

  const HT: Octet := 9
  const LF: Octet := 10
  const CR: Octet := 13
  const SP: Octet := 32
  const COMMA: Octet := 44
  const COLON: Octet := 58
  const SEMICOLON: Octet := 59

  const CRLF: seq<Octet> := [CR, LF]

  predicate IsLws(c: Octet)
  {
    c == CR || c == LF || c == SP || c == HT
  }

  /** strchr finds the NUL at the end of the string of separators as well. */
  predicate IsSeparator(c: Octet)
  {
    c == 0 || c == 40 || c == 41 || c == 60 || c == 62 || c == 64 || c == COMMA || c == SEMICOLON || c == COLON
    || c == 92 || c == 34 || c == 47 || c == 91 || c == 93 || c == 63 || c == 61 || c == 123 || c == 125 || c == SP || c == HT
  }

  predicate IsTokenChar(c: Octet)
  {
    32 <= c <= 126 && !IsSeparator(c)
  }

  /** A line with its line feed, or what there is of it. */
  function Line(s: seq<Octet>): (l: seq<Octet>)
    ensures |l| <= |s| && l == s[..|l|]
  {
    if s == [] then [] else if s[0] == LF then [LF] else [s[0]] + Line(s[1..])
  }

  predicate IsLine(l: seq<Octet>)
  {
    l != [] && l[|l| - 1] == LF && LF !in l[..|l| - 1]
  }

  lemma {:induction false} LineOfLine(l: seq<Octet>, rest: seq<Octet>)
    requires IsLine(l)
    ensures Line(l + rest) == l
  {
    if |l| == 1 {
      assert l == [LF];
    } else {
      assert (l + rest)[1..] == l[1..] + rest;
      assert LF !in l[1..][..|l| - 2] by {
        assert l[1..][..|l| - 2] == l[..|l| - 1][1..];
      }
      assert l[0] in l[..|l| - 1];
      LineOfLine(l[1..], rest);
    }
  }

  lemma {:induction false} LineIsLineOrAll(s: seq<Octet>)
    ensures IsLine(Line(s)) || Line(s) == s
    ensures s != [] ==> Line(s) != []
  {
    if s != [] && s[0] != LF {
      LineIsLineOrAll(s[1..]);
      var l := Line(s[1..]);
      if IsLine(l) {
        assert ([s[0]] + l)[..|l|] == [s[0]] + l[..|l| - 1];
      }
    }
  }

  /** What digits stand for in a base. */
  function Number(digits: seq<nat>, base: nat): nat
  {
    if digits == [] then 0 else Number(digits[..|digits| - 1], base) * base + digits[|digits| - 1]
  }

  lemma NumberNext(digits: seq<nat>, d: nat, base: nat)
    ensures Number(digits + [d], base) == Number(digits, base) * base + d
  {
    assert (digits + [d])[..|digits|] == digits;
  }

  lemma {:induction false} NumberGrows(digits: seq<nat>, more: seq<nat>, base: nat)
    requires base >= 1
    ensures Number(digits + more, base) >= Number(digits, base)
  {
    if more == [] {
      assert digits + more == digits;
    } else {
      var n := |more| - 1;
      NumberGrows(digits, more[..n], base);
      assert digits + more == digits + more[..n] + [more[n]];
      NumberNext(digits + more[..n], more[n], base);
      Product(Number(digits + more[..n], base), base);
    }
  }

  lemma Product(x: nat, base: nat)
    requires base >= 1
    ensures x <= x * base
  {
  }

  /** The two checks made before a digit is taken on find out exactly whether the value fits. */
  lemma Overflow(value: nat, digit: nat, base: nat)
    requires base >= 1
    ensures value * base + digit <= SIZE_MAX <==> value <= SIZE_MAX / base && value * base <= SIZE_MAX - digit
  {
    var q, r := SIZE_MAX / base, SIZE_MAX % base;
    assert SIZE_MAX == q * base + r;
    if value > q {
      assert value * base >= (q + 1) * base;
    }
  }

  function Lower(c: Octet): Octet
  {
    if 65 <= c <= 90 then c + 32 else c
  }

  /** strcasecmp */
  predicate SameButCase(s: seq<Octet>, t: seq<Octet>)
  {
    |s| == |t| && forall i :: 0 <= i < |s| ==> Lower(s[i]) == Lower(t[i])
  }
}
