/** The copy of the highlighted page in the instrumented file: one string for every line of the source. */
module HighlightedSource {
  import opened DisplayedLines
  import opened Highlighting
  import opened LineScanner
  import opened Markup
  import opened Options
  import opened SourceWriter
  import opened TokenPlaces

  // ----- The lines of a page -----

  predicate Breaks(c: char)
  {
    c == '\n' || c == '\r'
  }

  /** The length of the first line of a page. */
  function Break(s: string): (n: nat)
    ensures n <= |s| && (n < |s| ==> Breaks(s[n]))
    ensures forall i :: 0 <= i < n ==> !Breaks(s[i])
  {
    if s == "" || Breaks(s[0]) then 0 else 1 + Break(s[1..])
  }

  /** Its length with its terminator. */
  function FullBreak(s: string): (n: nat)
    ensures Break(s) <= n <= |s| && (s != "" ==> n > 0)
  {
    var n := Break(s);
    if n == |s| then n else if s[n] == '\r' && n + 1 < |s| && s[n + 1] == '\n' then n + 2 else n + 1
  }

  function PageLines(s: string): seq<string>
  {
    if s == "" then [] else [s[..Break(s)]] + PageLines(s[FullBreak(s)..])
  }

  lemma BreakIs(s: string, n: nat)
    requires n <= |s| && (n < |s| ==> Breaks(s[n])) && forall i :: 0 <= i < n ==> !Breaks(s[i])
    ensures Break(s) == n
  {
  }

  // ----- The copy -----

  /** A character inside a quoted JavaScript string. */
  function EscapeChar(c: char): string
  {
    if c == 8 as char then "\\b"
    else if c == '\t' then "\\t"
    else if c == 12 as char then "\\f"
    else if c == '"' then "\\\""
    else if c == '\\' then "\\\\"
    else [c]
  }

  function EscapePage(line: string): string
  {
    if line == "" then "" else EscapePage(line[..|line| - 1]) + EscapeChar(line[|line| - 1])
  }

  /** The beginning of an array literal with one string for each of the lines. */
  function WrittenPage(lines: seq<string>): string
  {
    if lines == [] then "["
    else
      var n := |lines| - 1;
      WrittenPage(lines[..n]) + (if n == 0 then "" else ",") + "\"" + EscapePage(lines[n]) + "\""
  }

  /** What the escapes of JavaScript stand for. */
  function Unescaped(s: string): string
  {
    if s == "" then ""
    else if s[0] == '\\' && |s| > 1 then
      [if s[1] == 'b' then 8 as char else if s[1] == 't' then '\t' else if s[1] == 'f' then 12 as char else s[1]] + Unescaped(s[2..])
    else [s[0]] + Unescaped(s[1..])
  }

  lemma OneUnescaped(c: char, rest: string)
    ensures Unescaped(EscapeChar(c) + rest) == [c] + Unescaped(rest)
  {
    var s := EscapeChar(c) + rest;
    if |EscapeChar(c)| == 1 {
      assert s[1..] == rest;
    } else {
      assert s[2..] == rest;
    }
  }

  lemma EscapeLastChar(line: string, c: char, rest: string)
    ensures EscapePage(line + [c]) + rest == EscapePage(line) + (EscapeChar(c) + rest)
  {
    assert (line + [c])[..|line|] == line;
  }

  /** The string that is written for a line stands for that line. */
  lemma {:induction false} LineCopied(line: string, rest: string)
    ensures Unescaped(EscapePage(line) + rest) == line + Unescaped(rest)
  {
    hide EscapeChar, Unescaped;
    if line == "" {
      assert EscapePage(line) + rest == rest;
    } else {
      hide EscapePage;
      var before, c := line[..|line| - 1], line[|line| - 1];
      assert line == before + [c];
      EscapeLastChar(before, c, rest);
      LineCopied(before, EscapeChar(c) + rest);
      OneUnescaped(c, rest);
    }
  }

  /** The inner loop for a highlighted page. */
  method CopyLine(page: string, start: nat, output: string) returns (next: nat, out: string)
    requires start < |page|
    ensures next == start + FullBreak(page[start..]) && start < next <= |page|
    ensures out == output + EscapePage(page[start..start + Break(page[start..])])
  {
    hide EscapeChar, EscapePage, FullBreak, Break;
    var i := start;
    ghost var end := start;
    out := output;
    var done := false;
    NothingCopied(page, start, output);
    while !done
      invariant start <= end <= i <= |page| && out == output + EscapePage(page[start..end])
      invariant !done ==> i == end < |page|
      invariant forall j :: start <= j < end ==> !Breaks(page[j])
      invariant done ==> EndsAt(page, end, i)
      decreases |page| - end, !done
    {
      var c := page[i];
      if c == '\n' {
        done := true;
      } else if c == '\r' {
        done := true;
        if i + 1 < |page| && page[i + 1] == '\n' {
          i := i + 1;
        }
      } else {
        CharCopied(page, start, end, output);
        out := out + EscapeChar(c);
        end := end + 1;
      }
      i := i + 1;
      if i >= |page| {
        done := true;
      }
    }
    FullBreakIs(page, start, end);
    next := i;
  }

  /** The line ends at end, and the next one begins at i. */
  predicate EndsAt(page: string, end: nat, i: nat)
  {
    && end <= |page| && (end < |page| ==> Breaks(page[end]))
    && i == end + if end == |page| then 0 else if page[end] == '\r' && end + 1 < |page| && page[end + 1] == '\n' then 2 else 1
  }

  lemma NothingCopied(page: string, start: nat, output: string)
    requires start <= |page|
    ensures output + EscapePage(page[start..start]) == output
  {
  }

  lemma CharCopied(page: string, start: nat, end: nat, output: string)
    requires start <= end < |page|
    ensures output + EscapePage(page[start..end]) + EscapeChar(page[end]) == output + EscapePage(page[start..end + 1])
  {
    hide EscapeChar;
    var line := page[start..end + 1];
    assert line[..|line| - 1] == page[start..end] && line[|line| - 1] == page[end];
  }

  lemma FullBreakIs(page: string, start: nat, end: nat)
    requires start <= end <= |page| && (end < |page| ==> Breaks(page[end]))
    requires forall j :: start <= j < end ==> !Breaks(page[j])
    ensures Break(page[start..]) == end - start
    ensures FullBreak(page[start..]) == end - start
      + if end == |page| then 0 else if page[end] == '\r' && end + 1 < |page| && page[end + 1] == '\n' then 2 else 1
  {
    assert forall j :: 0 <= j < end - start ==> page[start..][j] == page[start + j];
    BreakIs(page[start..], end - start);
  }

  /** The copy of a page: an array literal with one string for each of its lines. */
  method CopyPage(page: string) returns (output: string)
    ensures output == WrittenPage(PageLines(page)) + "]"
  {
    hide Break, FullBreak, EscapePage, PageLines, WrittenPage;
    output := "[";
    var i := 0;
    ghost var done: seq<string> := [];
    NoLinesYet(page);
    while i < |page|
      invariant 0 <= i <= |page| && (i > 0 <==> |done| > 0)
      invariant done + PageLines(page[i..]) == PageLines(page) && output == WrittenPage(done)
      decreases |page| - i
    {
      ghost var start, before := i, output;
      if i > 0 {
        output := output + ",";
      }
      output := output + "\"";
      i, output := CopyLine(page, i, output);
      output := output + "\"";
      ghost var line := page[start..start + Break(page[start..])];
      NextCopied(page, start, i, done, line);
      done := done + [line];
    }
    AllCopied(page, i, done);
    output := output + "]";
  }

  lemma NoLinesYet(page: string)
    ensures [] + PageLines(page[0..]) == PageLines(page) && WrittenPage([]) == "["
  {
    assert page[0..] == page;
  }

  lemma NextCopied(page: string, start: nat, next: nat, done: seq<string>, line: string)
    requires start < next <= |page| && next == start + FullBreak(page[start..])
    requires line == page[start..start + Break(page[start..])]
    ensures done + PageLines(page[start..]) == (done + [line]) + PageLines(page[next..])
    ensures WrittenPage(done + [line]) == WrittenPage(done) + (if |done| == 0 then "" else ",") + "\"" + EscapePage(line) + "\""
  {
    hide EscapePage, PageLines, Break, FullBreak, WrittenPage;
    var s := page[start..];
    FirstOfPage(s);
    assert s[FullBreak(s)..] == page[next..];
    assert s[..Break(s)] == line;
    OneMore(done, line, PageLines(page[next..]));
    NextString(done, line);
  }

  lemma FirstOfPage(s: string)
    requires s != ""
    ensures PageLines(s) == [s[..Break(s)]] + PageLines(s[FullBreak(s)..])
  {
    hide Break, FullBreak;
  }

  lemma OneMore(done: seq<string>, line: string, more: seq<string>)
    ensures done + ([line] + more) == (done + [line]) + more
  {
  }

  lemma NextString(done: seq<string>, line: string)
    ensures WrittenPage(done + [line]) == WrittenPage(done) + (if |done| == 0 then "" else ",") + "\"" + EscapePage(line) + "\""
  {
    hide EscapePage;
    assert (done + [line])[..|done|] == done;
  }

  lemma AllCopied(page: string, i: nat, done: seq<string>)
    requires i == |page| && done + PageLines(page[i..]) == PageLines(page)
    ensures done == PageLines(page)
  {
  }

  // ----- The lines of a highlighted page are those of the source -----

  lemma {:induction false} InsideAppend(a: seq<Item>, b: seq<Item>)
    requires Inside(a) == Some(CLASS_NONE)
    ensures Inside(a + b) == Inside(b)
  {
    hide Html, Inside, InsideWith;
    if b == [] {
      assert a + b == a;
      NothingShown();
    } else {
      var n := |b| - 1;
      InsideAppend(a, b[..n]);
      LastOf(a, b);
    }
  }

  /** The last item of two pieces. */
  lemma LastOf(a: seq<Item>, b: seq<Item>)
    requires b != []
    ensures var n := |b| - 1;
            && Inside(a + b) == (if Inside(a + b[..n]).None? then None else InsideWith(Inside(a + b[..n]).value, b[n]))
            && Inside(b) == (if Inside(b[..n]).None? then None else InsideWith(Inside(b[..n]).value, b[n]))
            && Render(a + b) == Render(a + b[..n]) + Html(b[n]) && Render(b) == Render(b[..n]) + Html(b[n])
  {
    hide Html, Inside, InsideWith, Render, Painted;
    var n := |b| - 1;
    assert a + b == (a + b[..n]) + [b[n]];
    LastItem(a + b[..n], b[n]);
    assert b == b[..n] + [b[n]];
    LastItem(b[..n], b[n]);
  }

  lemma {:induction false} RenderAppend(a: seq<Item>, b: seq<Item>)
    ensures Render(a + b) == Render(a) + Render(b)
  {
    hide Html, Render, InsideWith;
    if b == [] {
      assert a + b == a;
      assert Render(b) == "" by { NothingRendered(); }
      assert Render(a) + "" == Render(a);
    } else {
      var n := |b| - 1;
      RenderAppend(a, b[..n]);
      LastOf(a, b);
      TextAssoc(Render(a), Render(b[..n]), Html(b[n]));
    }
  }

  lemma NothingRendered()
    ensures Render([]) == ""
  {
  }

  lemma {:induction false} PaintedAppend(a: seq<Item>, b: seq<Item>)
    requires Inside(a) == Some(CLASS_NONE) && Inside(b).Some?
    ensures Inside(a + b).Some? && Painted(a + b) == Painted(a) + Painted(b)
  {
    hide Html, Inside, InsideWith, Render, Painted;
    InsideAppend(a, b);
    if b == [] {
      assert a + b == a;
      NothingShown();
      assert Painted(a) + [] == Painted(a);
    } else {
      var n := |b| - 1;
      var front, last := a + b[..n], b[n];
      InsidePrefix(b, n);
      InsideAppend(a, b[..n]);
      PaintedAppend(a, b[..n]);
      var shown := if last.Char? then [Glyph(last.c, Inside(b[..n]).value)] else [];
      assert a + b == front + [last];
      LastItem(front, last);
      assert b == b[..n] + [last];
      LastItem(b[..n], last);
      TextAssoc(Painted(a), Painted(b[..n]), shown);
    }
  }

  lemma TextAssoc<T>(a: seq<T>, b: seq<T>, c: seq<T>)
    ensures (a + b) + c == a + (b + c)
  {
  }

  /** What one item more does depends on what was open before only. */
  lemma LastItem(items: seq<Item>, item: Item)
    ensures Render(items + [item]) == Render(items) + Html(item)
    ensures Inside(items + [item]) == if Inside(items).None? then None else InsideWith(Inside(items).value, item)
    ensures Inside(items + [item]).Some? ==>
      Inside(items).Some?
      && Painted(items + [item]) == Painted(items) + if item.Char? then [Glyph(item.c, Inside(items).value)] else []
  {
    hide Html;
    assert (items + [item])[..|items|] == items;
  }

  function InsideWith(open: Class, item: Item): Option<Class>
  {
    match item
    case Open(class_) => if open.CLASS_NONE? && !class_.CLASS_NONE? then Some(class_) else None
    case Close => if open.CLASS_NONE? then None else Some(CLASS_NONE)
    case Char(c) => if c == LF && !open.CLASS_NONE? then None else Some(open)
  }

  lemma {:induction false} InsidePrefix(items: seq<Item>, n: nat)
    requires Inside(items).Some? && n <= |items|
    ensures Inside(items[..n]).Some?
    decreases |items|
  {
    if n < |items| {
      InsidePrefix(items[..|items| - 1], n);
      assert items[..|items| - 1][..n] == items[..n];
    } else {
      assert items[..n] == items;
    }
  }

  lemma {:induction false} CharsAppend(a: seq<Glyph>, b: seq<Glyph>)
    ensures Chars(a + b) == Chars(a) + Chars(b)
  {
    if b == [] {
      assert a + b == a;
    } else {
      var n := |b| - 1;
      assert (a + b)[..|a + b| - 1] == a + b[..n];
      CharsAppend(a, b[..n]);
    }
  }

  /** The only line terminators are line feeds. */
  ghost predicate LineFeedsOnly(items: seq<Item>)
  {
    forall i :: 0 <= i < |items| && items[i].Char? && EndsLine(items[i].c) ==> items[i].c == LF
  }

  ghost predicate NoLineFeed(items: seq<Item>)
  {
    forall i :: 0 <= i < |items| ==> items[i] != Char(LF)
  }

  lemma ItemBreaks(item: Item)
    requires item.Char? ==> !EndsLine(item.c)
    ensures forall i :: 0 <= i < |Html(item)| ==> !Breaks(Html(item)[i])
    ensures item.Char? ==> Html(item) != ""
  {
    match item
    case Open(c) =>
      if !c.CLASS_NONE? {
        assert |ClassName(c)| == 1 && ClassName(c)[0] in {'c', 't', 's', 'k'};
        assert forall i :: 0 <= i < 13 ==> Html(item)[i] == "<span class=\""[i];
      }
    case Close =>
    case Char(c) =>
  }

  lemma {:induction false} RenderBreaks(items: seq<Item>)
    requires LineFeedsOnly(items) && NoLineFeed(items)
    ensures forall i :: 0 <= i < |Render(items)| ==> !Breaks(Render(items)[i])
    ensures items != [] && items[|items| - 1].Char? ==> Render(items) != ""
  {
    if items != [] {
      hide Html;
      var n := |items| - 1;
      assert forall i :: 0 <= i < n ==> items[..n][i] == items[i];
      RenderBreaks(items[..n]);
      ItemBreaks(items[n]);
    }
  }

  /** The characters shown are those put in. */
  lemma {:induction false} PaintedEnds(items: seq<Item>)
    requires LineFeedsOnly(items) && NoLineFeed(items) && Inside(items).Some?
    ensures forall c :: c in Chars(Painted(items)) ==> !EndsLine(c)
    ensures items != [] && items[|items| - 1].Char? ==> Chars(Painted(items)) != []
  {
    hide Inside, Painted, Chars;
    if items == [] {
      NothingShown();
    } else {
      var n := |items| - 1;
      InsidePrefix(items, n);
      assert forall i :: 0 <= i < n ==> items[..n][i] == items[i];
      PaintedEnds(items[..n]);
      assert items == items[..n] + [items[n]];
      LastItem(items[..n], items[n]);
      if items[n].Char? {
        CharsNext(Painted(items[..n]), Glyph(items[n].c, Inside(items[..n]).value));
      } else {
        assert Painted(items) == Painted(items[..n]);
      }
    }
  }

  lemma NothingShown()
    ensures Inside([]) == Some(CLASS_NONE) && Painted([]) == [] && Chars([]) == []
  {
  }

  function FirstLineFeed(items: seq<Item>): (n: nat)
    ensures n <= |items| && (n < |items| ==> items[n] == Char(LF))
    ensures forall i :: 0 <= i < n ==> items[i] != Char(LF)
  {
    if items == [] || items[0] == Char(LF) then 0 else 1 + FirstLineFeed(items[1..])
  }

  /** A line of a page: a piece of HTML of its own, whose spans are closed, that shows this text. */
  ghost predicate LineOf(line: string, text: seq<JSChar>)
  {
    exists items :: line == Render(items) && Inside(items) == Some(CLASS_NONE) && Chars(Painted(items)) == text
  }

  /** The string that is written for a line: without escapes, tags and entities it is the text of that line. */
  lemma StringShows(line: string, text: seq<JSChar>)
    requires LineOf(line, text)
    ensures Erased(Unescaped(EscapePage(line))) == text
  {
    hide EscapePage, Erased, Render, Inside, Painted, Chars;
    var items :| line == Render(items) && Inside(items) == Some(CLASS_NONE) && Chars(Painted(items)) == text;
    TextOf(items);
    LineCopied(line, "");
    assert EscapePage(line) + "" == EscapePage(line) && line + Unescaped("") == line;
  }

  /** Line by line. */
  ghost predicate Shown(lines: seq<string>, texts: seq<seq<JSChar>>)
  {
    |lines| == |texts| && forall k :: 0 <= k < |lines| ==> LineOf(lines[k], texts[k])
  }

  lemma ShownFirst(line: string, text: seq<JSChar>, lines: seq<string>, texts: seq<seq<JSChar>>)
    requires LineOf(line, text) && Shown(lines, texts)
    ensures Shown([line] + lines, [text] + texts)
  {
    hide LineOf;
  }

  /** A page without a line feed. */
  lemma OneLine(items: seq<Item>)
    requires LineFeedsOnly(items) && NoLineFeed(items) && Inside(items) == Some(CLASS_NONE)
    requires items != [] && items[|items| - 1].Char?
    ensures PageLines(Render(items)) == [Render(items)] && Lines(Chars(Painted(items))) == [Chars(Painted(items))]
  {
    hide Render, Painted, Chars;
    RenderBreaks(items);
    PaintedEnds(items);
    var shown := Chars(Painted(items));
    assert forall i :: 0 <= i < |shown| ==> shown[i] in shown;
    var page := Render(items);
    BreakIs(page, |page|);
    assert page[..|page|] == page && page[|page|..] == "";
    LinesOnly(shown);
  }

  lemma FirstPageLine(line: string, rest: string)
    requires forall i :: 0 <= i < |line| ==> !Breaks(line[i])
    ensures PageLines(line + ("\n" + rest)) == [line] + PageLines(rest)
  {
    var s := line + ("\n" + rest);
    assert s[|line|] == '\n';
    BreakIs(s, |line|);
    assert s[..|line|] == line && s[|line| + 1..] == rest;
  }

  /** The first line feed parts a page, its spans and its text. */
  lemma AtLineFeed(items: seq<Item>, n: nat)
    requires n < |items| && items[n] == Char(LF) && Inside(items) == Some(CLASS_NONE)
    ensures var front, rest := items[..n], items[n + 1..];
            && Inside(front) == Some(CLASS_NONE) && Inside(rest) == Some(CLASS_NONE)
            && Render(items) == Render(front) + ("\n" + Render(rest))
            && Chars(Painted(items)) == Chars(Painted(front)) + ([LF] + Chars(Painted(rest)))
  {
    hide Render, Painted, Chars, Inside;
    var front, rest := items[..n], items[n + 1..];
    var upTo := front + [Char(LF)];
    InsidePrefix(items, n);
    InsidePrefix(items, n + 1);
    assert items[..n + 1] == upTo && items == upTo + rest;
    LastItem(front, Char(LF));
    InsideAppend(upTo, rest);
    PaintedAppend(upTo, rest);
    RenderAppend(upTo, rest);
    assert Html(Char(LF)) == "\n";
    TextAssoc(Render(front), "\n", Render(rest));
    var shown, end := Painted(front), [Glyph(LF, CLASS_NONE)];
    CharsAppend(shown, end + Painted(rest));
    CharsAppend(end, Painted(rest));
    TextAssoc(shown, end, Painted(rest));
    CharsNext([], Glyph(LF, CLASS_NONE));
    EmptyErased();
    assert [] + end == end;
  }

  /** The lines of a page show the lines of its text, one by one. */
  lemma {:induction false} LinesShown(items: seq<Item>)
    requires Inside(items) == Some(CLASS_NONE) && LineFeedsOnly(items) && EndsInChar(items)
    ensures Shown(PageLines(Render(items)), Lines(Chars(Painted(items))))
    decreases |items|
  {
    if items == [] {
      assert Shown([], []);
    } else {
      hide Render, Painted, Chars, Inside, PageLines, Lines, Shown, LineOf;
      var n := FirstLineFeed(items);
      if n == |items| {
        OneLine(items);
        LastLine(items);
      } else {
        var front, rest := items[..n], items[n + 1..];
        AtLineFeed(items, n);
        Parts(items, n);
        RenderBreaks(front);
        PaintedEnds(front);
        var shown := Chars(Painted(front));
        assert forall i :: 0 <= i < |shown| ==> shown[i] in shown;
        FirstPageLine(Render(front), Render(rest));
        LinesFirst(shown, Chars(Painted(rest)));
        LinesShown(rest);
        IsLineOf(front);
        ShownFirst(Render(front), Chars(Painted(front)), PageLines(Render(rest)), Lines(Chars(Painted(rest))));
      }
    }
  }

  lemma Parts(items: seq<Item>, n: nat)
    requires LineFeedsOnly(items) && EndsInChar(items) && n < |items| && items[n] == Char(LF)
    requires forall i :: 0 <= i < n ==> items[i] != Char(LF)
    ensures LineFeedsOnly(items[..n]) && NoLineFeed(items[..n]) && LineFeedsOnly(items[n + 1..]) && EndsInChar(items[n + 1..])
  {
    var rest := items[n + 1..];
    assert forall i :: 0 <= i < |rest| ==> rest[i] == items[n + 1 + i];
  }

  lemma IsLineOf(items: seq<Item>)
    requires Inside(items) == Some(CLASS_NONE)
    ensures LineOf(Render(items), Chars(Painted(items)))
  {
  }

  lemma LastLine(items: seq<Item>)
    requires Inside(items) == Some(CLASS_NONE)
    ensures Shown([Render(items)], [Chars(Painted(items))])
  {
    IsLineOf(items);
  }

  lemma {:induction false} PaintEnds(cs: seq<JSChar>, classes: seq<Class>)
    requires |classes| <= |cs|
    ensures forall i :: 0 <= i < |Paint(cs, classes)| && EndsLine(Paint(cs, classes)[i].c) ==> Paint(cs, classes)[i].c == LF
  {
    if classes != [] {
      PaintEnds(cs, classes[..|classes| - 1]);
    }
  }

  lemma {:induction false} CharsAreGlyphs(items: seq<Item>)
    requires Inside(items).Some?
    requires forall i :: 0 <= i < |Painted(items)| && EndsLine(Painted(items)[i].c) ==> Painted(items)[i].c == LF
    ensures LineFeedsOnly(items)
  {
    if items != [] {
      var n := |items| - 1;
      var shown, front := Painted(items), Painted(items[..n]);
      assert forall i :: 0 <= i < |front| ==> shown[i] == front[i];
      CharsAreGlyphs(items[..n]);
      assert items[n].Char? ==> shown[|front|].c == items[n].c;
      assert forall i :: 0 <= i < n ==> items[..n][i] == items[i];
    }
  }

  lemma TextOf(items: seq<Item>)
    requires Inside(items).Some?
    ensures Erased(Render(items)) == Chars(Painted(items))
  {
    hide Inside, Render, Painted, Chars, Erased;
    RenderErased(items, "");
    EmptyErased();
    assert Render(items) + "" == Render(items) && Chars(Painted(items)) + [] == Chars(Painted(items));
  }

  /** The lines of the page show the lines of the source. */
  lemma SourceShown(cs: seq<JSChar>, items: seq<Item>, text: seq<JSChar>)
    requires Inside(items) == Some(CLASS_NONE) && EndsInChar(items)
    requires exists classes, end :: PaintedAs(cs, items, classes, end)
    requires Erased(Render(items)) == text && Lines(text) == Lines(cs)
    ensures Shown(PageLines(Render(items)), Lines(cs))
  {
    hide Inside, Render, Paint, Painted, Lines, PageLines, Shown, EndsInChar, Chars, Erased;
    var classes, end :| PaintedAs(cs, items, classes, end);
    PaintEnds(cs, classes);
    CharsAreGlyphs(items);
    LinesShown(items);
    TextOf(items);
  }

  ghost predicate PaintedAs(cs: seq<JSChar>, items: seq<Item>, classes: seq<Class>, end: seq<Glyph>)
    requires Inside(items).Some?
  {
    |classes| == |cs| && end in {[], [Glyph(LF, CLASS_NONE)]} && Painted(items) == Paint(cs, classes) + end
  }

  /**
   * jscoverage_write_source with highlighting. It succeeds if the highlighter does; then there is one string
   * for each line of the source. Each of them stands for HTML with closed spans that shows that line.
   */
  method WriteHighlightedSource(cs: seq<JSChar>, tokens: seq<Token>) returns (ok: bool, output: string, ghost lines: seq<string>)
    ensures ok <==> Succeeds(cs, tokens)
    ensures ok ==> output == WrittenPage(lines) + "]" && Shown(lines, Lines(cs))
  {
    hide Inside, Render, Paint, Painted, Lines, PageLines, Shown, WrittenPage, Succeeds, Erased;
    var page;
    ghost var classes, items;
    ok, page, classes, items := Highlight(cs, tokens);
    output, lines := "", [];
    if ok {
      ghost var end :| end in {[], [Glyph(LF, CLASS_NONE)]} && Painted(items) == Paint(cs, classes) + end;
      assert PaintedAs(cs, items, classes, end);
      ghost var text: seq<JSChar> :| Erased(page) == text && Lines(text) == Lines(cs);
      SourceShown(cs, items, text);
      output := CopyPage(page);
      lines := PageLines(page);
    }
  }
}
