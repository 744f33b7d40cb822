/** The copy of the source in the instrumented file: one string for every line, none of them lossy. */
module SourceWriter {
  import opened LineScanner

  function DigitOf(d: nat): (c: char)
    requires d < 10
    ensures '0' <= c <= '9'
  {
    ('0' as int + d) as char
  }

  /** %d */
  function Decimal(n: nat): (s: string)
    ensures |s| > 0 && forall i :: 0 <= i < |s| ==> '0' <= s[i] <= '9'
  {
    if n < 10 then [DigitOf(n)] else Decimal(n / 10) + [DigitOf(n % 10)]
  }

  /** A character inside a quoted JavaScript string that holds HTML. */
  function Escape(c: JSChar): string
  {
    if c == 0x8 then "\\b"
    else if c == 0x9 then "\\t"
    else if c == 0xC then "\\f"
    else if c == '"' as int then "\\\""
    else if c == '\\' as int then "\\\\"
    else if c == '&' as int then "&amp;"
    else if c == '<' as int then "&lt;"
    else if c == '>' as int then "&gt;"
    else if 32 <= c <= 126 then [c as char]
    else "&#" + Decimal(c) + ";"
  }

  function EscapeLine(line: seq<JSChar>): string
  {
    if |line| == 0 then "" else EscapeLine(line[..|line| - 1]) + Escape(line[|line| - 1])
  }

  /** The beginning of an array literal with one string for each of the lines. */
  function Written(lines: seq<seq<JSChar>>): string
  {
    if |lines| == 0 then "["
    else Written(lines[..|lines| - 1]) + (if |lines| == 1 then "" else ",") + "\"" + EscapeLine(lines[|lines| - 1]) + "\""
  }

  /** The inner loop of jscoverage_write_source. */
  method WriteLine(cs: seq<JSChar>, start: nat, output: string) returns (next: nat, out: string)
    requires start < |cs|
    ensures next == start + FullLength(cs[start..]) && start < next <= |cs|
    ensures out == output + EscapeLine(cs[start..start + LineLength(cs[start..])])
  {
    hide Escape, EscapeLine, FullLength, LineLength;
    var i := start;
    ghost var end := start;
    out := output;
    var done := false;
    NothingWritten(cs, start, output);
    while !done
      invariant start <= end <= i <= |cs| && out == output + EscapeLine(cs[start..end])
      invariant !done ==> i == end < |cs|
      invariant forall j :: start <= j < end ==> !EndsLine(cs[j])
      invariant done ==> Ended(cs, end, i)
      decreases |cs| - end, !done
    {
      var c := cs[i];
      if c == 0xA || c == 0x2028 || c == 0x2029 {
        done := true;
      } else if c == 0xD {
        done := true;
        if i + 1 < |cs| && cs[i + 1] == 0xA {
          i := i + 1;
        }
      } else {
        EscapePush(cs, start, end, output);
        out := out + Escape(c);
        end := end + 1;
      }
      i := i + 1;
      if i >= |cs| {
        done := true;
      }
    }
    FullLengthIs(cs, start, end);
    next := i;
  }

  /** The line ends at end, and the next one begins at i. */
  predicate Ended(cs: seq<JSChar>, end: nat, i: nat)
  {
    && end <= |cs| && (end < |cs| ==> EndsLine(cs[end]))
    && i == end + if end == |cs| then 0 else if cs[end] == CR && end + 1 < |cs| && cs[end + 1] == LF then 2 else 1
  }

  lemma NothingWritten(cs: seq<JSChar>, start: nat, output: string)
    requires start <= |cs|
    ensures output + EscapeLine(cs[start..start]) == output
  {
  }

  lemma EscapePush(cs: seq<JSChar>, start: nat, end: nat, output: string)
    requires start <= end < |cs|
    ensures output + EscapeLine(cs[start..end]) + Escape(cs[end]) == output + EscapeLine(cs[start..end + 1])
  {
    var line := cs[start..end + 1];
    assert line[..|line| - 1] == cs[start..end] && line[|line| - 1] == cs[end];
  }

  lemma FullLengthIs(cs: seq<JSChar>, start: nat, end: nat)
    requires start <= end <= |cs| && (end < |cs| ==> EndsLine(cs[end]))
    requires forall j :: start <= j < end ==> !EndsLine(cs[j])
    ensures LineLength(cs[start..]) == end - start
    ensures FullLength(cs[start..]) == end - start
      + if end == |cs| then 0 else if cs[end] == CR && end + 1 < |cs| && cs[end + 1] == LF then 2 else 1
  {
    assert forall j :: 0 <= j < end - start ==> cs[start..][j] == cs[start + j];
    LineLengthIs(cs[start..], end - start);
  }

  /** One trip through the outer loop. */
  method WriteString(cs: seq<JSChar>, start: nat, output: string) returns (next: nat, out: string)
    requires start < |cs|
    ensures next == start + FullLength(cs[start..]) && start < next <= |cs|
    ensures out == output + (if start == 0 then "" else ",") + "\""
                   + EscapeLine(cs[start..start + LineLength(cs[start..])]) + "\""
  {
    out := output + if start == 0 then "" else ",";
    out := out + "\"";
    next, out := WriteLine(cs, start, out);
    out := out + "\"";
  }

  /** jscoverage_write_source, without highlighting: the same lines as those the scanner counts. */
  method WriteSource(cs: seq<JSChar>) returns (output: string)
    ensures output == Written(Lines(cs)) + "]"
  {
    hide LineLength, FullLength, EscapeLine;
    output := "[";
    var i := 0;
    ghost var done: seq<seq<JSChar>> := [];
    assert cs[0..] == cs;
    assert Progress(cs, i, done, output);
    hide Progress;
    while i < |cs|
      invariant 0 <= i <= |cs| && Progress(cs, i, done, output)
      decreases |cs| - i
    {
      ghost var start, before := i, output;
      i, output := WriteString(cs, i, output);
      NextProgress(cs, start, i, done, before, output);
      done := done + [cs[start..start + LineLength(cs[start..])]];
    }
    WhenDone(cs, i, done, output);
    output := output + "]";
  }

  /** The lines done have been written, those from i on are still to come. */
  ghost predicate Progress(cs: seq<JSChar>, i: nat, done: seq<seq<JSChar>>, output: string)
  {
    i <= |cs| && (i > 0 <==> |done| > 0) && done + Lines(cs[i..]) == Lines(cs) && output == Written(done)
  }

  lemma NextProgress(cs: seq<JSChar>, i: nat, next: nat, done: seq<seq<JSChar>>, before: string, output: string)
    requires Progress(cs, i, done, before) && i < next <= |cs| && next == i + FullLength(cs[i..])
    requires output == before + (if i == 0 then "" else ",") + "\"" + EscapeLine(cs[i..i + LineLength(cs[i..])]) + "\""
    ensures Progress(cs, next, done + [cs[i..i + LineLength(cs[i..])]], output)
  {
    hide Lines, LineLength, FullLength, EscapeLine, Written;
    var line := cs[i..i + LineLength(cs[i..])];
    NextString(done, line);
    NextLine(cs, i, i + LineLength(cs[i..]), next, done);
  }

  lemma WhenDone(cs: seq<JSChar>, i: nat, done: seq<seq<JSChar>>, output: string)
    requires Progress(cs, i, done, output) && i == |cs|
    ensures output == Written(Lines(cs))
  {
    hide Written;
    NoLines(done, cs[i..]);
  }

  lemma NextString(lines: seq<seq<JSChar>>, line: seq<JSChar>)
    ensures Written(lines + [line])
         == Written(lines) + (if |lines| == 0 then "" else ",") + "\"" + EscapeLine(line) + "\""
  {
    assert (lines + [line])[..|lines|] == lines;
  }

  // ----- Reading it back -----

  function Value(digits: string): nat
    requires forall i :: 0 <= i < |digits| ==> '0' <= digits[i] <= '9'
  {
    if |digits| == 0 then 0 else 10 * Value(digits[..|digits| - 1]) + (digits[|digits| - 1] as int - '0' as int)
  }

  lemma {:induction false} DecimalValue(n: nat)
    ensures Value(Decimal(n)) == n
  {
    if n >= 10 {
      DecimalValue(n / 10);
      assert Decimal(n)[..|Decimal(n)| - 1] == Decimal(n / 10);
    } else {
      assert [DigitOf(n)][..0] == "";
    }
  }

  function Digits(s: string): (n: nat)
    ensures n <= |s| && forall i :: 0 <= i < n ==> '0' <= s[i] <= '9'
  {
    if |s| > 0 && '0' <= s[0] <= '9' then 1 + Digits(s[1..]) else 0
  }

  lemma {:induction false} DigitsOf(d: string, rest: string)
    requires forall i :: 0 <= i < |d| ==> '0' <= d[i] <= '9'
    requires |rest| > 0 && rest[0] == ';'
    ensures Digits(d + rest) == |d|
  {
    if |d| > 0 {
      assert (d + rest)[1..] == d[1..] + rest;
      DigitsOf(d[1..], rest);
    } else {
      assert d + rest == rest;
    }
  }

  /** What a browser makes of the string: first the escapes of JavaScript, then the entities of HTML. */
  function Shown(s: string): seq<nat>
  {
    if |s| == 0 then []
    else if s[0] == '\\' && |s| > 1 then
      [if s[1] == 'b' then 0x8 else if s[1] == 't' then 0x9 else if s[1] == 'f' then 0xC else s[1] as int] + Shown(s[2..])
    else if "&amp;" <= s then ['&' as int] + Shown(s[5..])
    else if "&lt;" <= s then ['<' as int] + Shown(s[4..])
    else if "&gt;" <= s then ['>' as int] + Shown(s[4..])
    else if "&#" <= s && Digits(s[2..]) > 0 && 2 + Digits(s[2..]) < |s| then
      [Value(s[2..][..Digits(s[2..])])] + Shown(s[3 + Digits(s[2..])..])
    else [s[0] as int] + Shown(s[1..])
  }

  lemma EntityShown(c: JSChar, rest: string)
    ensures Shown("&#" + Decimal(c) + ";" + rest) == [c as int] + Shown(rest)
  {
    var d := Decimal(c);
    var s := "&#" + d + ";" + rest;
    assert s[2..] == d + (";" + rest);
    DigitsOf(d, ";" + rest);
    DecimalValue(c);
    assert s[2..][..|d|] == d;
    assert s[3 + |d|..] == rest;
    assert s[0] == '&' && s[1] == '#' && "&#" <= s;
  }

  lemma PlainShown(c: char, rest: string)
    requires c != '\\' && c != '&'
    ensures Shown([c] + rest) == [c as int] + Shown(rest)
  {
    assert ([c] + rest)[1..] == rest;
  }

  lemma BackslashShown(c: char, rest: string)
    ensures Shown(['\\', c] + rest)
         == [if c == 'b' then 0x8 else if c == 't' then 0x9 else if c == 'f' then 0xC else c as int] + Shown(rest)
  {
    assert (['\\', c] + rest)[2..] == rest;
  }

  lemma NamedShown(rest: string)
    ensures Shown("&amp;" + rest) == ['&' as int] + Shown(rest)
    ensures Shown("&lt;" + rest) == ['<' as int] + Shown(rest)
    ensures Shown("&gt;" + rest) == ['>' as int] + Shown(rest)
  {
    assert ("&amp;" + rest)[5..] == ("&lt;" + rest)[4..] == ("&gt;" + rest)[4..] == rest;
  }

  lemma EscapeShown(c: JSChar, rest: string)
    ensures Shown(Escape(c) + rest) == [c as int] + Shown(rest)
  {
    hide Shown, Decimal;
    var e := Escape(c);
    if |e| == 1 {
      PlainShown(e[0], rest);
    } else if e[0] == '\\' {
      BackslashShown(e[1], rest);
    } else if c == '&' as int || c == '<' as int || c == '>' as int {
      NamedShown(rest);
    } else {
      EntityShown(c, rest);
    }
  }

  lemma EscapeLast(line: seq<JSChar>)
    requires |line| > 0
    ensures EscapeLine(line) == EscapeLine(line[..|line| - 1]) + Escape(line[|line| - 1])
  {
  }

  lemma Associative<T>(a: seq<T>, b: seq<T>, c: seq<T>)
    ensures (a + b) + c == a + (b + c)
  {
  }

  lemma SplitLast(line: seq<JSChar>, rest: string, shown: seq<nat>)
    requires |line| > 0
    ensures var before, c := line[..|line| - 1], line[|line| - 1];
            && EscapeLine(line) + rest == EscapeLine(before) + (Escape(c) + rest)
            && before + ([c as int] + shown) == line + shown
  {
    hide Escape;
    var before, c := line[..|line| - 1], line[|line| - 1];
    EscapeLast(line);
    Associative(EscapeLine(before), Escape(c), rest);
    assert line == before + [c];
    Associative(before, [c as int], shown);
  }

  /** What is shown for a line is the line. */
  lemma {:induction false} LineShown(line: seq<JSChar>, rest: string)
    ensures Shown(EscapeLine(line) + rest) == line + Shown(rest)
  {
    if |line| == 0 {
      assert "" + rest == rest;
      assert line + Shown(rest) == Shown(rest);
    } else {
      hide Shown, Escape, EscapeLine;
      var before, c := line[..|line| - 1], line[|line| - 1];
      SplitLast(line, rest, Shown(rest));
      LineShown(before, Escape(c) + rest);
      EscapeShown(c, rest);
    }
  }
}
