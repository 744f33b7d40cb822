/** The line scanner that looks for directives, and the writer of the source lines, agree on lines. */
module LineScanner {
  /** A UTF-16 code unit. */
  type JSChar = c: nat | c < 0x1_0000

  const CR: JSChar := 0xD
  const LF: JSChar := 0xA

  predicate EndsLine(c: JSChar)
  {
    c == CR || c == LF || c == 0x2028 || c == 0x2029
  }

  /** The length of the first line. */
  function LineLength(cs: seq<JSChar>): (n: nat)
    ensures n <= |cs| && (n < |cs| ==> EndsLine(cs[n]))
    ensures forall i :: 0 <= i < n ==> !EndsLine(cs[i])
  {
    if |cs| == 0 || EndsLine(cs[0]) then 0 else 1 + LineLength(cs[1..])
  }

  /** Its length together with its terminator; CR and LF together are one. */
  function FullLength(cs: seq<JSChar>): (n: nat)
    ensures LineLength(cs) <= n <= |cs| && (|cs| > 0 ==> n > 0)
  {
    var n := LineLength(cs);
    if n == |cs| then n
    else if cs[n] == CR && n + 1 < |cs| && cs[n + 1] == LF then n + 2
    else n + 1
  }

  /** The lines of a text; there is no empty line after the last terminator. */
  function Lines(cs: seq<JSChar>): seq<seq<JSChar>>
  {
    if |cs| == 0 then [] else [cs[..LineLength(cs)]] + Lines(cs[FullLength(cs)..])
  }

  lemma LineLengthIs(cs: seq<JSChar>, n: nat)
    requires n <= |cs| && (n < |cs| ==> EndsLine(cs[n]))
    requires forall i :: 0 <= i < n ==> !EndsLine(cs[i])
    ensures LineLength(cs) == n
  {
  }

  /** The inner loop of the scanner: the end of the line that begins at start, and where the next one begins. */
  method ScanLine(cs: seq<JSChar>, start: nat) returns (end: nat, next: nat)
    requires start < |cs|
    ensures end == start + LineLength(cs[start..]) && next == start + FullLength(cs[start..])
    ensures start <= end <= next <= |cs| && start < next
  {
    var i := start;
    var done := false;
    while !done && i < |cs|
      invariant start <= i <= |cs|
      invariant forall j :: start <= j < i ==> !EndsLine(cs[j])
      invariant done ==> i < |cs| && EndsLine(cs[i])
      decreases |cs| - i, !done
    {
      if EndsLine(cs[i]) {
        done := true;
      } else {
        i := i + 1;
      }
    }
    end := i;
    LineLengthIs(cs[start..], end - start);
    if i < |cs| {
      var c := cs[i];
      i := i + 1;
      if c == CR && i < |cs| && cs[i] == LF {
        i := i + 1;
      }
    }
    next := i;
  }

  // ----- Directives -----

  const IF_DIRECTIVE := "//#JSCOVERAGE_IF"
  const ENDIF_DIRECTIVE := "//#JSCOVERAGE_ENDIF"

  predicate StartsWith(line: seq<JSChar>, prefix: string)
  {
    |prefix| <= |line| && forall i :: 0 <= i < |prefix| ==> line[i] as int == prefix[i] as int
  }

  predicate WhiteSpace(cs: seq<JSChar>)
  {
    forall i :: 0 <= i < |cs| ==> cs[i] in {0x9, 0xB, 0xC, 0x20, 0xA0}
  }

  /** characters_start_with */
  method CharactersStartWith(cs: seq<JSChar>, start: nat, end: nat, prefix: string) returns (r: bool)
    requires start <= end <= |cs|
    ensures r <==> StartsWith(cs[start..end], prefix)
  {
    var cp, bp := start, 0;
    while true
      invariant bp <= |prefix| && cp == start + bp <= end
      invariant forall i :: 0 <= i < bp ==> cs[start..end][i] as int == prefix[i] as int
      decreases |prefix| - bp
    {
      if bp == |prefix| {
        return true;
      } else if cp == end {
        return false;
      } else if cs[cp] as int != prefix[bp] as int {
        assert cs[start..end][bp] == cs[cp];
        return false;
      }
      assert cs[start..end][bp] == cs[cp];
      bp, cp := bp + 1, cp + 1;
    }
  }

  /** characters_are_white_space */
  method CharactersAreWhiteSpace(cs: seq<JSChar>, start: nat, end: nat) returns (r: bool)
    requires start <= end <= |cs|
    ensures r <==> WhiteSpace(cs[start..end])
  {
    var p := start;
    while p < end
      invariant start <= p <= end
      invariant forall i :: 0 <= i < p - start ==> cs[start..end][i] in {0x9, 0xB, 0xC, 0x20, 0xA0}
    {
      var c := cs[p];
      assert cs[start..end][p - start] == c;
      if c == 0x9 || c == 0xB || c == 0xC || c == 0x20 || c == 0xA0 {
        p := p + 1;
      } else {
        return false;
      }
    }
    return true;
  }

  datatype Kind = Exclusive | Conditional | EndIf | Ordinary

  function KindOf(line: seq<JSChar>): Kind
  {
    if StartsWith(line, IF_DIRECTIVE) then
      if WhiteSpace(line[16..]) then Exclusive else Conditional
    else if StartsWith(line, ENDIF_DIRECTIVE) then EndIf
    else Ordinary
  }

  /** A conditional directive; end is 0 while there is no matching end. */
  datatype IfDirective = IfDirective(condition: seq<JSChar>, start: nat, end: nat)

  /** The directives found in the first lines, the latest one first. */
  function Found(lines: seq<seq<JSChar>>): seq<IfDirective>
  {
    if |lines| == 0 then [] else
    var before, line, n := Found(lines[..|lines| - 1]), lines[|lines| - 1], |lines|;
    match KindOf(line)
    case Conditional => [IfDirective(line[16..], n, 0)] + before
    case EndIf => CloseFirst(before, n)
    case Exclusive => before
    case Ordinary => before
  }

  /** An end belongs to the latest directive that has none. */
  function CloseFirst(ds: seq<IfDirective>, n: nat): (r: seq<IfDirective>)
    ensures |r| == |ds|
  {
    if |ds| == 0 then []
    else if ds[0].end == 0 then [ds[0].(end := n)] + ds[1..]
    else [ds[0]] + CloseFirst(ds[1..], n)
  }

  /** `for (p = if_directives; p != NULL; p = p->next)` */
  method CloseDirective(ds: seq<IfDirective>, n: nat) returns (r: seq<IfDirective>)
    ensures r == CloseFirst(ds, n)
  {
    hide CloseFirst;
    var p := 0;
    assert ds[..0] + CloseFirst(ds[0..], n) == CloseFirst(ds, n) by {
      assert ds[0..] == ds;
    }
    while p < |ds|
      invariant 0 <= p <= |ds|
      invariant CloseFirst(ds, n) == ds[..p] + CloseFirst(ds[p..], n)
    {
      CloseNext(ds, p, n);
      if ds[p].end == 0 {
        r := ds[p := ds[p].(end := n)];
        return;
      }
      p := p + 1;
    }
    assert ds[..p] == ds && CloseFirst(ds[p..], n) == [];
    return ds;
  }

  lemma CloseNext(ds: seq<IfDirective>, p: nat, n: nat)
    requires p < |ds|
    ensures ds[..p] + CloseFirst(ds[p..], n)
         == if ds[p].end == 0 then ds[p := ds[p].(end := n)] else ds[..p + 1] + CloseFirst(ds[p + 1..], n)
  {
    assert ds[p..][1..] == ds[p + 1..] && ds[p..][0] == ds[p];
  }

  lemma {:induction false} LinesAppend(done: seq<seq<JSChar>>, cs: seq<JSChar>)
    requires |cs| > 0
    ensures done + Lines(cs) == (done + [cs[..LineLength(cs)]]) + Lines(cs[FullLength(cs)..])
  {
  }

  /** The state of the scan when these lines have been seen. */
  ghost predicate Scanned(marks: seq<bool>, done: seq<seq<JSChar>>, found: seq<IfDirective>, any: bool)
  {
    && found == Found(done)
    && (forall j :: 0 <= j < |marks| ==> (marks[j] <==> j < |done| && KindOf(done[j]) == Exclusive))
    && (any <==> exists j :: 0 <= j < |done| && KindOf(done[j]) in {Exclusive, Conditional})
  }

  lemma ScannedNext(marks: seq<bool>, done: seq<seq<JSChar>>, found: seq<IfDirective>, any: bool, line: seq<JSChar>,
                    marks1: seq<bool>, found1: seq<IfDirective>)
    requires Scanned(marks, done, found, any) && (KindOf(line) == Exclusive ==> |done| < |marks|)
    requires var n := |done|;
             match KindOf(line)
             case Exclusive => marks1 == marks[n := true] && found1 == found
             case Conditional => marks1 == marks && found1 == [IfDirective(line[16..], n + 1, 0)] + found
             case EndIf => marks1 == marks && found1 == CloseFirst(found, n + 1)
             case Ordinary => marks1 == marks && found1 == found
    ensures Scanned(marks1, done + [line], found1, any || KindOf(line) in {Exclusive, Conditional})
  {
    var n, next := |done|, done + [line];
    assert next[..n] == done && next[n] == line;
    assert forall j :: 0 <= j < n ==> next[j] == done[j];
    if any {
      var j :| 0 <= j < n && KindOf(done[j]) in {Exclusive, Conditional};
      assert KindOf(next[j]) in {Exclusive, Conditional};
    }
  }

  /** What is done with line number n, which is cs[start..end]; not ok is a write behind the array. */
  method Directive(cs: seq<JSChar>, start: nat, end: nat, n: nat, exclusive: array<bool>,
                   found0: seq<IfDirective>, any0: bool, ghost done: seq<seq<JSChar>>)
    returns (ok: bool, found: seq<IfDirective>, any: bool)
    requires start <= end <= |cs| && n == |done| + 1
    requires Scanned(exclusive[..], done, found0, any0)
    modifies exclusive
    ensures ok <==> (KindOf(cs[start..end]) == Exclusive ==> n <= exclusive.Length)
    ensures ok ==> Scanned(exclusive[..], done + [cs[start..end]], found, any)
  {
    ghost var line, marks := cs[start..end], exclusive[..];
    ok, found, any := true, found0, any0;
    var isIf := CharactersStartWith(cs, start, end, IF_DIRECTIVE);
    if isIf {
      any := true;
      assert line[16..] == cs[start + 16..end];
      var blank := CharactersAreWhiteSpace(cs, start + 16, end);
      if blank {
        if n > exclusive.Length {
          return false, found, any;
        }
        exclusive[n - 1] := true;
      } else {
        found := [IfDirective(cs[start + 16..end], n, 0)] + found;
      }
    } else {
      var isEnd := CharactersStartWith(cs, start, end, ENDIF_DIRECTIVE);
      if isEnd {
        found := CloseDirective(found, n);
      }
    }
    ScannedNext(marks, done, found0, any0, line, exclusive[..], found);
  }

  /** Every exclusive directive is on one of the first n lines. */
  ghost predicate ExclusiveWithin(lines: seq<seq<JSChar>>, n: nat)
  {
    forall i :: n <= i < |lines| ==> KindOf(lines[i]) != Exclusive
  }

  const UINT32_MAX: nat := 0xFFFF_FFFF

  /** How the scan ends: at the end of the text, with an error, or with a directive that the array has no place for. */
  datatype Outcome = Finished | TooManyLines | OutOfBounds

  /** The lines that can get a number. */
  function Numbered(lines: seq<seq<JSChar>>): seq<seq<JSChar>>
  {
    if |lines| <= UINT32_MAX then lines else lines[..UINT32_MAX]
  }

  /**
   * The scan for directives: marks the lines of the exclusive ones, and returns the others. The array has
   * a place for each line up to the last token of the parse tree. An exclusive directive behind that is
   * written behind the array: the scan is taken to end there.
   */
  method ScanDirectives(cs: seq<JSChar>, exclusive: array<bool>) returns (outcome: Outcome, found: seq<IfDirective>, any: bool)
    requires forall i :: 0 <= i < exclusive.Length ==> !exclusive[i]
    modifies exclusive
    ensures outcome == if !ExclusiveWithin(Numbered(Lines(cs)), exclusive.Length) then OutOfBounds
                       else if |Lines(cs)| > UINT32_MAX then TooManyLines else Finished
    ensures outcome.Finished? ==> found == Found(Lines(cs))
    ensures outcome.Finished? ==> forall i :: 0 <= i < exclusive.Length ==>
      (exclusive[i] <==> i < |Lines(cs)| && KindOf(Lines(cs)[i]) == Exclusive)
    ensures outcome.Finished? ==>
      (any <==> exists i :: 0 <= i < |Lines(cs)| && KindOf(Lines(cs)[i]) in {Exclusive, Conditional})
  {
    found, any := [], false;
    var i, n := 0, 0;
    ghost var done: seq<seq<JSChar>> := [];
    assert cs[0..] == cs;
    hide Found, KindOf, Scanned, Lines, LineLength, FullLength, ExclusiveWithin, Numbered;
    NothingScanned(exclusive[..]);
    NoneBehind(exclusive.Length);
    while i < |cs|
      invariant 0 <= i <= |cs| && |done| == n <= UINT32_MAX && done + Lines(cs[i..]) == Lines(cs)
      invariant Scanned(exclusive[..], done, found, any) && ExclusiveWithin(done, exclusive.Length)
      decreases |cs| - i
    {
      if n == UINT32_MAX {
        SomeLine(cs[i..]);
        NumberedSoFar(Lines(cs), done, exclusive.Length);
        return TooManyLines, found, any;
      }
      n := n + 1;
      var start := i;
      var end;
      end, i := ScanLine(cs, start);
      NextLine(cs, start, end, i, done);
      OneMoreLine(Lines(cs), done, cs[start..end], exclusive.Length);
      var ok;
      ok, found, any := Directive(cs, start, end, n, exclusive, found, any, done);
      if !ok {
        return OutOfBounds, found, any;
      }
      done := done + [cs[start..end]];
    }
    NoLines(done, cs[i..]);
    NumberedSoFar(Lines(cs), done, exclusive.Length);
    WhenScanned(exclusive[..], done, found, any);
    outcome := Finished;
  }

  lemma SomeLine(cs: seq<JSChar>)
    requires |cs| > 0
    ensures |Lines(cs)| > 0
  {
  }

  lemma NoneBehind(n: nat)
    ensures ExclusiveWithin([], n)
  {
  }

  lemma NumberedSoFar(lines: seq<seq<JSChar>>, done: seq<seq<JSChar>>, n: nat)
    requires done <= lines && ExclusiveWithin(done, n) && (done == lines || |done| == UINT32_MAX < |lines|) && |done| <= UINT32_MAX
    ensures ExclusiveWithin(Numbered(lines), n)
  {
    assert Numbered(lines) == done;
  }

  /** One line further; it has a number, and what is found behind the array stays there. */
  lemma OneMoreLine(lines: seq<seq<JSChar>>, done: seq<seq<JSChar>>, line: seq<JSChar>, n: nat)
    requires done + [line] <= lines && |done| < UINT32_MAX && ExclusiveWithin(done, n)
    ensures if KindOf(line) == Exclusive ==> |done| + 1 <= n then ExclusiveWithin(done + [line], n)
            else !ExclusiveWithin(Numbered(lines), n)
  {
    hide KindOf;
    var i := |done|;
    assert lines[i] == (done + [line])[i] == line;
    assert Numbered(lines)[i] == line;
  }

  lemma NextLine(cs: seq<JSChar>, start: nat, end: nat, next: nat, done: seq<seq<JSChar>>)
    requires start < |cs| && start <= end <= next <= |cs|
    requires end == start + LineLength(cs[start..]) && next == start + FullLength(cs[start..])
    ensures done + Lines(cs[start..]) == (done + [cs[start..end]]) + Lines(cs[next..])
    ensures |Lines(cs[start..])| > 0 && (done + Lines(cs[start..]))[|done|] == cs[start..end]
  {
    LinesAppend(done, cs[start..]);
    assert cs[start..][..end - start] == cs[start..end] && cs[start..][next - start..] == cs[next..];
  }

  lemma NoLines(done: seq<seq<JSChar>>, cs: seq<JSChar>)
    requires |cs| == 0
    ensures done + Lines(cs) == done
  {
  }

  lemma NothingScanned(marks: seq<bool>)
    requires forall i :: 0 <= i < |marks| ==> !marks[i]
    ensures Scanned(marks, [], [], false)
  {
  }

  lemma WhenScanned(marks: seq<bool>, done: seq<seq<JSChar>>, found: seq<IfDirective>, any: bool)
    requires Scanned(marks, done, found, any)
    ensures found == Found(done)
    ensures forall j :: 0 <= j < |marks| ==> (marks[j] <==> j < |done| && KindOf(done[j]) == Exclusive)
    ensures any <==> exists j :: 0 <= j < |done| && KindOf(done[j]) in {Exclusive, Conditional}
  {
  }

  // ----- A directive behind the last token -----

  /** The scan of a text of two lines, of which the second one is an exclusive directive, with an array for one line. */
  lemma DirectiveBehind(cs: seq<JSChar>, line: seq<JSChar>, directive: seq<JSChar>)
    requires cs == line + ([LF] + directive) && (forall i :: 0 <= i < |line| ==> !EndsLine(line[i]))
    requires |directive| == |IF_DIRECTIVE| && forall i :: 0 <= i < |directive| ==> directive[i] as int == IF_DIRECTIVE[i] as int
    ensures Lines(cs) == [line, directive] && !ExclusiveWithin(Numbered(Lines(cs)), 1)
  {
    assert cs[|line|] == LF;
    LineLengthIs(cs, |line|);
    assert cs[|line| + 1..] == directive && cs[..|line|] == line;
    NoTerminator(directive);
    LineLengthIs(directive, |directive|);
    assert directive[|directive|..] == [] && directive[..|directive|] == directive;
    assert Lines(directive) == [directive];
    assert directive[16..] == [];
    assert Lines(cs)[1] == directive && KindOf(directive) == Exclusive;
  }

  lemma NoTerminator(directive: seq<JSChar>)
    requires |directive| == |IF_DIRECTIVE| && forall i :: 0 <= i < |directive| ==> directive[i] as int == IF_DIRECTIVE[i] as int
    ensures forall i :: 0 <= i < |directive| ==> !EndsLine(directive[i])
  {
    assert forall i :: 0 <= i < |IF_DIRECTIVE| ==> IF_DIRECTIVE[i] >= '#';
  }
}
