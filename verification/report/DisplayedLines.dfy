/** A text as it is displayed: every line terminator has become one line feed, and the lines are the same. */
module DisplayedLines {
  import opened LineScanner

  /** What one character becomes; the carriage return before a line feed disappears. */
  function Displayed(cs: seq<JSChar>): seq<JSChar>
    requires cs != []
  {
    if !EndsLine(cs[0]) then [cs[0]] else if cs[0] == CR && |cs| > 1 && cs[1] == LF then [] else [LF]
  }

  function Normalised(cs: seq<JSChar>): seq<JSChar>
  {
    if cs == [] then [] else Displayed(cs) + Normalised(cs[1..])
  }

  lemma {:induction false} NormalisedPrefix(cs: seq<JSChar>, k: nat)
    requires k <= |cs| && forall i :: 0 <= i < k ==> !EndsLine(cs[i])
    ensures Normalised(cs) == cs[..k] + Normalised(cs[k..])
  {
    if k > 0 {
      NormalisedPrefix(cs[1..], k - 1);
      assert cs[1..][k - 1..] == cs[k..];
      assert [cs[0]] + (cs[1..][..k - 1] + Normalised(cs[k..])) == cs[..k] + Normalised(cs[k..]);
    } else {
      assert cs[0..] == cs;
      assert cs[..0] + Normalised(cs) == Normalised(cs);
    }
  }

  lemma NormalisedTerminator(cs: seq<JSChar>)
    requires cs != [] && EndsLine(cs[0])
    ensures Normalised(cs) == [LF] + Normalised(cs[FullLength(cs)..])
  {
    assert LineLength(cs) == 0;
    if cs[0] == CR && |cs| > 1 && cs[1] == LF {
      assert FullLength(cs) == 2 && cs[1..][1..] == cs[2..];
      assert Displayed(cs[1..]) == [LF] && Displayed(cs) == [];
      assert [] + Normalised(cs[1..]) == Normalised(cs[1..]);
    }
  }

  lemma NormalisedLine(cs: seq<JSChar>)
    requires cs != []
    ensures var n, m := LineLength(cs), FullLength(cs);
            Normalised(cs) == if n == |cs| then cs else cs[..n] + ([LF] + Normalised(cs[m..]))
  {
    var n := LineLength(cs);
    NormalisedPrefix(cs, n);
    if n == |cs| {
      assert cs[..n] + [] == cs;
    } else {
      var rest := cs[n..];
      NormalisedTerminator(rest);
      assert LineLength(rest) == 0;
      assert rest[FullLength(rest)..] == cs[FullLength(cs)..];
    }
  }

  lemma FirstLine(s: seq<JSChar>, line: seq<JSChar>, rest: seq<JSChar>)
    requires (forall i :: 0 <= i < |line| ==> !EndsLine(line[i])) && s == line + ([LF] + rest)
    ensures LineLength(s) == |line| && FullLength(s) == |line| + 1
    ensures s[|line| + 1..] == rest && s[..|line|] == line
  {
    assert s[|line|] == LF;
    LineLengthIs(s, |line|);
  }

  /** A text that begins with a line and a line feed. */
  lemma LinesFirst(line: seq<JSChar>, rest: seq<JSChar>)
    requires forall i :: 0 <= i < |line| ==> !EndsLine(line[i])
    ensures Lines(line + ([LF] + rest)) == [line] + Lines(rest)
  {
    hide LineLength, FullLength;
    FirstLine(line + ([LF] + rest), line, rest);
  }

  lemma LinesOnly(line: seq<JSChar>)
    requires line != [] && forall i :: 0 <= i < |line| ==> !EndsLine(line[i])
    ensures Lines(line) == [line]
  {
    LineLengthIs(line, |line|);
    assert line[|line|..] == [] && line[..|line|] == line;
  }

  /** What is displayed has the lines that the scanner of directives finds in the source. */
  lemma {:induction false} SameLines(cs: seq<JSChar>)
    ensures Lines(Normalised(cs)) == Lines(cs)
    decreases |cs|
  {
    if cs != [] {
      var n, m := LineLength(cs), FullLength(cs);
      NormalisedLine(cs);
      if n < |cs| {
        SameLines(cs[m..]);
        LinesFirst(cs[..n], Normalised(cs[m..]));
      }
    }
  }

  lemma TerminatorLast(s: seq<JSChar>)
    ensures LineLength(s) < |s| == FullLength(s) ==> EndsLine(s[|s| - 1])
  {
  }

  /** The first line of a text that has more than one. */
  lemma FirstOfMany(s: seq<JSChar>, more: seq<JSChar>)
    requires LineLength(s) < |s| && FullLength(s) < |s|
    ensures LineLength(s + more) == LineLength(s) && FullLength(s + more) == FullLength(s)
  {
    var n, t := LineLength(s), s + more;
    assert n + 1 < |s|;
    assert t[n] == s[n] && t[n + 1] == s[n + 1];
    LineLengthIs(t, n);
  }

  /** A line feed at the end does not make another line. */
  lemma {:induction false} FinalLineFeed(s: seq<JSChar>)
    requires s != [] && !EndsLine(s[|s| - 1])
    ensures Lines(s + [LF]) == Lines(s)
    decreases |s|
  {
    hide LineLength, FullLength;
    var n, m := LineLength(s), FullLength(s);
    if n == |s| {
      assert s + [LF] == s + ([LF] + []);
      LinesFirst(s, []);
      LinesOnly(s);
    } else {
      TerminatorLast(s);
      FirstOfMany(s, [LF]);
      FinalLineFeed(s[m..]);
      assert (s + [LF])[m..] == s[m..] + [LF];
      assert (s + [LF])[..n] == s[..n];
    }
  }
}
