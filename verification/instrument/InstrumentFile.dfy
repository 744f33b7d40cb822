/** jscoverage_instrument_js: a whole file, and what running the result shows. */
module InstrumentFile {
  import opened Syntax
  import opened Semantics
  import opened Instrumentation
  import opened Counters
  import opened LineScanner
  import opened Options
  import opened SourceWriter
  import opened Walker
  import opened Meaning

  import HighlightedSource
  import Highlighting
  import TokenPlaces

  /** The parts of an instrumented file: the counters set to zero, the source, and the program. */
  datatype Instrumented =
    | Fatal
    | WroteOutOfBounds
    | File(zeros: seq<nat>, source: string, conditionals: bool, program: Stmts, directives: seq<IfDirective>)

  /** Which lines have an exclusive directive. */
  function ExclusiveLines(cs: seq<JSChar>, n: nat): (ds: seq<bool>)
    ensures |ds| == n
  {
    seq(n, i requires 0 <= i < n => i < |Lines(cs)| && KindOf(Lines(cs)[i]) == Exclusive)
  }

  predicate Ascending(s: seq<nat>)
  {
    forall i, j :: 0 <= i < j < |s| ==> s[i] < s[j]
  }

  /** The loop that initialises the counters of the marked lines. */
  method InitialiseCounters(lines: array<bool>) returns (zeros: seq<nat>)
    ensures Ascending(zeros)
    ensures forall n :: n in zeros <==> 1 <= n <= lines.Length && lines[n - 1]
  {
    zeros := [];
    for i := 0 to lines.Length
      invariant Ascending(zeros) && forall j :: 0 <= j < |zeros| ==> zeros[j] <= i
      invariant forall n :: n in zeros <==> 1 <= n <= i && lines[n - 1]
    {
      ghost var before := zeros;
      if lines[i] {
        zeros := zeros + [i + 1];
        assert forall n :: n in zeros <==> n in before || n == i + 1;
      }
    }
  }

  /** The copy of the source: one string for each line, which stands for HTML that shows it. */
  ghost predicate IsCopy(source: string, cs: seq<JSChar>, highlight: Option<seq<TokenPlaces.Token>>)
  {
    if highlight.None? then source == Written(Lines(cs)) + "]"
    else exists lines :: source == HighlightedSource.WrittenPage(lines) + "]" && HighlightedSource.Shown(lines, Lines(cs))
  }

  /** jscoverage_write_source; the tokens are those that the highlighter gets. */
  method CopySource(cs: seq<JSChar>, highlight: Option<seq<TokenPlaces.Token>>) returns (ok: bool, source: string)
    ensures ok <==> (highlight.Some? ==> Highlighting.Succeeds(cs, highlight.value))
    ensures ok ==> IsCopy(source, cs, highlight)
  {
    hide Lines, Written, HighlightedSource.WrittenPage, HighlightedSource.Shown, Highlighting.Succeeds;
    if highlight.None? {
      ok := true;
      source := WriteSource(cs);
    } else {
      ghost var lines;
      ok, source, lines := HighlightedSource.WriteHighlightedSource(cs, highlight.value);
    }
  }

  /**
   * numLines is the line of the last token; there may be more lines, and an exclusive directive on one of them is
   * written out of bounds.
   */
  method InstrumentJS(cs: seq<JSChar>, numLines: nat, program: Stmts, highlight: Option<seq<TokenPlaces.Token>>)
    returns (r: Instrumented)
    ensures r.WroteOutOfBounds? <==> !ExclusiveWithin(Numbered(Lines(cs)), numLines)
    ensures r.Fatal? <==>
      ExclusiveWithin(Numbered(Lines(cs)), numLines)
      && (|Lines(cs)| > UINT32_MAX || !FitsList(program, numLines)
          || (highlight.Some? && !Highlighting.Succeeds(cs, highlight.value)))
    ensures r.File? ==> r.program == InstrumentList(program, ExclusiveLines(cs, numLines))
    ensures r.File? ==> Ascending(r.zeros) && forall n :: n in r.zeros <==> n in OfList(r.program)
    ensures r.File? ==> IsCopy(r.source, cs, highlight) && r.directives == Found(Lines(cs))
    ensures r.File? ==>
      (r.conditionals <==> exists i :: 0 <= i < |Lines(cs)| && KindOf(Lines(cs)[i]) in {Exclusive, Conditional})
  {
    hide Lines, KindOf, Found, Written, FitsList, InstrumentList, OfList, Ascending, Numbered, ExclusiveWithin, IsCopy,
         Highlighting.Succeeds;
    var walker := new Instrumenter(numLines);
    var outcome, directives, any := ScanDirectives(cs, walker.directives);
    if outcome.OutOfBounds? {
      return WroteOutOfBounds;
    } else if outcome.TooManyLines? {
      return Fatal;
    }
    assert walker.directives[..] == ExclusiveLines(cs, numLines);
    var ok, out := walker.List(program);
    if !ok {
      return Fatal;
    }
    var zeros := InitialiseCounters(walker.lines);
    var source;
    ok, source := CopySource(cs, highlight);
    if !ok {
      return Fatal;
    }
    r := File(zeros, source, any, out, directives);
  }

  /** An exclusive directive behind the last token, as in a file of `x;` and the directive: it is written behind the array. */
  method InstrumentDirectiveBehind(cs: seq<JSChar>, line: seq<JSChar>, directive: seq<JSChar>, program: Stmts)
    returns (r: Instrumented)
    requires cs == line + ([LF] + directive) && (forall i :: 0 <= i < |line| ==> !EndsLine(line[i]))
    requires |directive| == |IF_DIRECTIVE| && forall i :: 0 <= i < |directive| ==> directive[i] as int == IF_DIRECTIVE[i] as int
    ensures r == WroteOutOfBounds
  {
    DirectiveBehind(cs, line, directive);
    r := InstrumentJS(cs, 1, program, None);
  }

  /** What the initialisation section leaves. */
  function InitialCounts(zeros: seq<nat>): map<nat, Counter>
  {
    map n | n in zeros :: Num(0)
  }

  /** Running an instrumented file: nothing but the counters tells it from the original. */
  lemma InstrumentedFileRun<S, V>(m: Machine<S, V>, fuel: nat, program: Stmts, ds: seq<bool>, r: Instrumented, store: S)
    requires WellBehaved(program) && r.File? && r.program == InstrumentList(program, ds)
    requires forall n :: n in r.zeros <==> n in OfList(r.program)
    ensures var (k1, w1) := RunProgram(m, fuel, program, store, map[]);
            var (k2, w2) := RunProgram(m, fuel, r.program, store, InitialCounts(r.zeros));
            && k1 == k2 && w1.store == w2.store
            && (forall n :: n in w2.counts <==> n in r.zeros) && (forall n :: n in w1.log ==> n in r.zeros)
            && (forall n :: n in r.zeros ==> w2.counts[n] == Num(multiset(w1.log)[n]))
  {
    assert InitialCounts(r.zeros) == Zeros(OfList(r.program));
    InstrumentedRun(m, fuel, program, ds, store);
  }
}
