/** Conditional directives and their ends match like brackets. */
module Nesting {
  import opened LineScanner

  function Weight(line: seq<JSChar>): int
  {
    match KindOf(line)
    case Conditional => 1
    case EndIf => -1
    case Exclusive => 0
    case Ordinary => 0
  }

  /** How many more directives than ends there are on lines a to b - 1, counted from 0. */
  function Net(lines: seq<seq<JSChar>>, a: nat, b: nat): int
    requires b <= |lines|
    decreases b
  {
    if b <= a then 0 else Net(lines, a, b - 1) + Weight(lines[b - 1])
  }

  ghost predicate NeverBelow(lines: seq<seq<JSChar>>, a: nat, b: nat)
    requires b <= |lines|
  {
    forall m :: a <= m <= b ==> Net(lines, a, m) >= 0
  }

  /** The end on line b belongs to the directive on line a: what lies between them is balanced. */
  ghost predicate Closes(lines: seq<seq<JSChar>>, a: nat, b: nat)
  {
    a < b < |lines| && KindOf(lines[b]) == EndIf && NeverBelow(lines, a + 1, b) && Net(lines, a + 1, b) == 0
  }

  /** The number of directives without an end among the first j. */
  function Opens(ds: seq<IfDirective>, j: nat): (n: nat)
    requires j <= |ds|
  {
    if j == 0 then 0 else Opens(ds, j - 1) + if ds[j - 1].end == 0 then 1 else 0
  }

  /** Each directive has the end that closes it, or none does. */
  ghost predicate Matched(lines: seq<seq<JSChar>>, d: IfDirective, depth: nat)
  {
    && 1 <= d.start <= |lines| && KindOf(lines[d.start - 1]) == Conditional
    && d.condition == lines[d.start - 1][16..]
    && if d.end == 0 then NeverBelow(lines, d.start, |lines|) && Net(lines, d.start, |lines|) == depth
       else Closes(lines, d.start - 1, d.end - 1)
  }

  lemma {:induction false} NetPrefix(lines: seq<seq<JSChar>>, n: nat, a: nat, b: nat)
    requires b <= n <= |lines|
    ensures Net(lines[..n], a, b) == Net(lines, a, b)
    decreases b
  {
    if b > a {
      NetPrefix(lines, n, a, b - 1);
    }
  }

  lemma {:induction false} MatchedStays(lines: seq<seq<JSChar>>, n: nat, d: IfDirective, depth: nat)
    requires n <= |lines| && Matched(lines[..n], d, depth) && d.end != 0
    ensures Matched(lines, d, 0)
  {
    forall m | d.start <= m <= d.end - 1
      ensures Net(lines, d.start, m) == Net(lines[..n], d.start, m)
    {
      NetPrefix(lines, n, d.start, m);
    }
  }

  lemma {:induction false} OpenStays(lines: seq<seq<JSChar>>, d: IfDirective, depth: nat)
    requires |lines| > 0 && Matched(lines[..|lines| - 1], d, depth) && d.end == 0
    requires depth + Weight(lines[|lines| - 1]) >= 0
    ensures Matched(lines, d, depth + Weight(lines[|lines| - 1]))
  {
    var n := |lines| - 1;
    forall m | d.start <= m <= n
      ensures Net(lines, d.start, m) == Net(lines[..n], d.start, m)
    {
      NetPrefix(lines, n, d.start, m);
    }
  }

  lemma {:induction false} OpenCloses(lines: seq<seq<JSChar>>, d: IfDirective)
    requires |lines| > 0 && Matched(lines[..|lines| - 1], d, 0) && d.end == 0 && KindOf(lines[|lines| - 1]) == EndIf
    ensures Matched(lines, d.(end := |lines|), 0)
  {
    var n := |lines| - 1;
    forall m | d.start <= m <= n
      ensures Net(lines, d.start, m) == Net(lines[..n], d.start, m)
    {
      NetPrefix(lines, n, d.start, m);
    }
  }

  /** The first directive without an end gets it. */
  lemma {:induction false} CloseFirstAt(ds: seq<IfDirective>, n: nat, j: nat)
    requires j < |ds|
    ensures ds[j].end == 0 && Opens(ds, j) == 0 ==> CloseFirst(ds, n)[j] == ds[j].(end := n)
    ensures ds[j].end != 0 || Opens(ds, j) > 0 ==> CloseFirst(ds, n)[j] == ds[j]
  {
    OpensTail(ds, j);
    if ds[0].end != 0 && j > 0 {
      CloseFirstAt(ds[1..], n, j - 1);
    }
  }

  lemma {:induction false} OpensTail(ds: seq<IfDirective>, j: nat)
    requires j <= |ds|
    ensures j > 0 ==> Opens(ds, j) == (if ds[0].end == 0 then 1 else 0) + Opens(ds[1..], j - 1)
  {
    if j > 1 {
      OpensTail(ds, j - 1);
    }
  }

  lemma {:induction false} OpensClosed(ds: seq<IfDirective>, n: nat, j: nat)
    requires j <= |ds| && n > 0
    ensures Opens(CloseFirst(ds, n), j) == if Opens(ds, j) > 0 then Opens(ds, j) - 1 else 0
  {
    if j > 0 {
      OpensClosed(ds, n, j - 1);
      CloseFirstAt(ds, n, j - 1);
    }
  }

  lemma OpensPush(d: IfDirective, ds: seq<IfDirective>, j: nat)
    requires j <= |ds| && d.end == 0
    ensures Opens([d] + ds, j + 1) == 1 + Opens(ds, j)
  {
    OpensTail([d] + ds, j + 1);
    assert ([d] + ds)[1..] == ds;
  }

  /** All directives found are matched; of those still open, the latest is the innermost. */
  lemma {:induction false} AllMatched(lines: seq<seq<JSChar>>, j: nat)
    requires j < |Found(lines)|
    ensures Matched(lines, Found(lines)[j], Opens(Found(lines), j))
    decreases |lines|
  {
    var n := |lines| - 1;
    var before, line := Found(lines[..n]), lines[n];
    hide Matched, Opens, CloseFirst, KindOf;
    var k := KindOf(line);
    if k == Conditional && j == 0 {
      NewMatched(lines);
    } else if k == Conditional {
      AllMatched(lines[..n], j - 1);
      OpensPush(IfDirective(line[16..], n + 1, 0), before, j - 1);
      KeepMatched(lines, before[j - 1], Opens(before, j - 1), Opens(before, j - 1) + 1);
    } else {
      FoundBefore(lines);
      AllMatched(lines[..n], j);
      if k == EndIf {
        EndMatched(lines, j);
      } else {
        KeepMatched(lines, before[j], Opens(before, j), Opens(before, j));
      }
    }
  }

  lemma FoundBefore(lines: seq<seq<JSChar>>)
    requires |lines| > 0 && KindOf(lines[|lines| - 1]) != Conditional
    ensures var before := Found(lines[..|lines| - 1]);
            Found(lines) == if KindOf(lines[|lines| - 1]) == EndIf then CloseFirst(before, |lines|) else before
  {
    hide CloseFirst, KindOf;
  }

  /** The end belongs to the latest directive that is open, and the others stay as they are. */
  lemma EndMatched(lines: seq<seq<JSChar>>, j: nat)
    requires |lines| > 0 && KindOf(lines[|lines| - 1]) == EndIf && j < |Found(lines[..|lines| - 1])|
    requires var before := Found(lines[..|lines| - 1]); Matched(lines[..|lines| - 1], before[j], Opens(before, j))
    ensures j < |Found(lines)| && Matched(lines, Found(lines)[j], Opens(Found(lines), j))
  {
    hide Matched, Opens, CloseFirst, KindOf, Found;
    FoundBefore(lines);
    var before := Found(lines[..|lines| - 1]);
    CloseFirstAt(before, |lines|, j);
    OpensClosed(before, |lines|, j);
    if before[j].end == 0 && Opens(before, j) == 0 {
      OpenCloses(lines, before[j]);
    } else {
      KeepMatched(lines, before[j], Opens(before, j), Opens(Found(lines), j));
    }
  }

  lemma NewMatched(lines: seq<seq<JSChar>>)
    requires |lines| > 0 && KindOf(lines[|lines| - 1]) == Conditional
    ensures Matched(lines, Found(lines)[0], Opens(Found(lines), 0))
  {
  }

  lemma KeepMatched(lines: seq<seq<JSChar>>, d: IfDirective, depth: nat, depth1: nat)
    requires |lines| > 0 && Matched(lines[..|lines| - 1], d, depth)
    requires d.end == 0 ==> depth1 == depth + Weight(lines[|lines| - 1])
    ensures Matched(lines, d, depth1)
  {
    if d.end == 0 {
      OpenStays(lines, d, depth);
    } else {
      MatchedStays(lines, |lines| - 1, d, depth);
    }
  }

  /** A directive ends on the line that closes it, and only there. */
  lemma DirectiveEnd(lines: seq<seq<JSChar>>, j: nat, b: nat)
    requires j < |Found(lines)|
    ensures 1 <= Found(lines)[j].start <= |lines| && KindOf(lines[Found(lines)[j].start - 1]) == Conditional
    ensures Found(lines)[j].end == b + 1 <==> Closes(lines, Found(lines)[j].start - 1, b)
  {
    AllMatched(lines, j);
    var d := Found(lines)[j];
    if Closes(lines, d.start - 1, b) {
      OneEnd(lines, d, Opens(Found(lines), j), b);
    }
  }

  lemma OneEnd(lines: seq<seq<JSChar>>, d: IfDirective, depth: nat, b: nat)
    requires Matched(lines, d, depth) && Closes(lines, d.start - 1, b)
    ensures d.end == b + 1
  {
    assert Net(lines, d.start, b + 1) == -1;
    if d.end == 0 {
      assert false;
    } else {
      var e := d.end - 1;
      var first, second := if e < b then e else b, if e < b then b else e;
      assert Net(lines, d.start, first + 1) == -1;
      assert NeverBelow(lines, d.start, second);
    }
  }
}
