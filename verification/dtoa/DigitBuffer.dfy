/** The digit buffer of dtoa, and the two ways in which it is fixed up at the end. */
module DigitBuffer {
  import opened Powers

  predicate IsDigit(c: char)
  {
    '0' <= c <= '9'
  }

  predicate Digits(s: seq<char>)
  {
    forall i :: 0 <= i < |s| ==> IsDigit(s[i])
  }

  function Digit(d: nat): (c: char)
    requires d <= 9
    ensures IsDigit(c) && c as int == '0' as int + d
  {
    (d + '0' as int) as char
  }

  /** The number written by a string of digits. */
  function Number(s: seq<char>): nat
    requires Digits(s)
  {
    if |s| == 0 then 0
    else 10 * Number(s[..|s| - 1]) + (s[|s| - 1] as int - '0' as int)
  }

  lemma NumberPush(s: seq<char>, c: char)
    requires Digits(s) && IsDigit(c)
    ensures Digits(s + [c]) && Number(s + [c]) == 10 * Number(s) + (c as int - '0' as int)
  {
    assert (s + [c])[..|s|] == s;
  }

  lemma {:induction false} NumberBound(s: seq<char>)
    requires Digits(s)
    ensures Number(s) < Pow(10, |s|)
  {
    if |s| > 0 {
      NumberBound(s[..|s| - 1]);
    }
  }

  lemma NumberTake(s: seq<char>, n: nat)
    requires Digits(s) && n < |s|
    ensures Number(s[..n + 1]) == 10 * Number(s[..n]) + (s[n] as int - '0' as int)
  {
    assert s[..n + 1][..n] == s[..n];
  }

  lemma CarryNine(s: seq<char>, m: nat, n: nat)
    requires Digits(s) && 1 <= m <= n == |s| && s[m - 1] == '9'
    ensures (Number(s[..m - 1]) + 1) * Pow(10, n - (m - 1)) == (Number(s[..m]) + 1) * Pow(10, n - m)
    ensures m == 1 ==> Number(s[..m - 1]) == 0
  {
    NumberTake(s, m - 1);
    PowNext(10, n - m);
    TimesTen(Number(s[..m - 1]) + 1, Pow(10, n - m));
  }

  /**
   * The code at label roundoff: adds one in the last place, dropping the nines it turns into
   * zeros. If there are only nines the result is a single one, and carried reports the k++.
   */
  method RoundOff(buf: array<char>, n: nat) returns (m: nat, carried: bool)
    requires 1 <= n <= buf.Length && Digits(buf[..n])
    modifies buf
    ensures 1 <= m <= n && Digits(buf[..m]) && buf[m - 1] != '0'
    ensures buf[..m - 1] == old(buf[..m - 1])
    ensures !carried ==> Number(buf[..m]) * Pow(10, n - m) == Number(old(buf[..n])) + 1
    ensures carried ==> m == 1 && buf[0] == '1' && Pow(10, n) == Number(old(buf[..n])) + 1
  {
    ghost var s := buf[..n];
    m := n;
    PowZero(10);
    assert s[..n] == s;
    hide Number, Pow;
    while true
      invariant 1 <= m <= n && buf[..n] == s
      invariant (Number(s[..m]) + 1) * Pow(10, n - m) == Number(s) + 1
      decreases m
    {
      assert s[m - 1] == buf[m - 1];
      if buf[m - 1] != '9' {
        break;
      }
      CarryNine(s, m, n);
      if m == 1 {
        buf[0] := '1';
        return 1, true;
      }
      m := m - 1;
    }
    carried := false;
    ghost var t := buf[..m];
    buf[m - 1] := (buf[m - 1] as int + 1) as char;
    assert t == s[..m] && buf[..m] == t[m - 1 := buf[m - 1]];
    BumpLast(t, buf[m - 1]);
  }

  lemma BumpLast(s: seq<char>, c: char)
    requires Digits(s) && |s| > 0 && s[|s| - 1] != '9' && c as int == s[|s| - 1] as int + 1
    ensures Digits(s[|s| - 1 := c]) && Number(s[|s| - 1 := c]) == Number(s) + 1
  {
    assert s[|s| - 1 := c][..|s| - 1] == s[..|s| - 1];
  }

  lemma TrimZero(s: seq<char>, m: nat, n: nat)
    requires Digits(s) && 1 <= m <= n && m <= |s| && s[m - 1] == '0'
    ensures Number(s[..m - 1]) * Pow(10, n - (m - 1)) == Number(s[..m]) * Pow(10, n - m)
  {
    NumberTake(s, m - 1);
    PowNext(10, n - m);
    TimesTen(Number(s[..m - 1]), Pow(10, n - m));
  }

  /** `while (*--s == '0'); s++;` */
  method TrimZeros(buf: array<char>, n: nat) returns (m: nat)
    requires 1 <= n <= buf.Length && Digits(buf[..n]) && buf[0] != '0'
    ensures 1 <= m <= n && buf[m - 1] != '0'
    ensures Number(buf[..m]) * Pow(10, n - m) == Number(buf[..n])
  {
    m := n;
    PowZero(10);
    ghost var s := buf[..n];
    assert s[..n] == s;
    hide Number, Pow;
    while buf[m - 1] == '0'
      invariant 1 <= m <= n
      invariant Number(s[..m]) * Pow(10, n - m) == Number(s)
      decreases m
    {
      TrimZero(s, m, n);
      m := m - 1;
    }
    assert buf[..m] == s[..m];
  }
}
