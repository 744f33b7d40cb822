/** The summary of a file: which lines are counted as missing, and how they are grouped into ranges. */
module Ranges {
  import opened Options

  /** The counters of a file, by line; a line without a statement has none. */
  type Counters = seq<Option<nat>>

  predicate Executed(cc: Counters, n: int)
  {
    0 <= n < |cc| && cc[n].Some? && cc[n].value > 0
  }

  // ----- Conditional lines -----

  /** currentConditionalEnd when line n has been looked at; 0 stands for no entry. */
  function ConditionalEnd(ends: seq<nat>, n: nat): nat
    requires n < |ends|
  {
    var before := if n == 0 then 0 else ConditionalEnd(ends, n - 1);
    if n == before then 0 else if before == 0 then ends[n] else before
  }

  /** Line s begins to be left out because of its own entry. */
  predicate Opens(ends: seq<nat>, s: int)
  {
    0 < s < |ends| && ends[s] != 0 && ConditionalEnd(ends, s - 1) == 0
  }

  /** The end given for line s has not come up by line n; one that is not behind s never does. */
  predicate Lasts(ends: seq<nat>, s: int, n: int)
  {
    0 <= s <= n && s < |ends| && !(s < ends[s] <= n)
  }

  /** What is left out, for any entries: the lines up to the end of an entry at which nothing was being left out. */
  lemma {:induction false} LeftOut(ends: seq<nat>, n: nat)
    requires n < |ends|
    ensures ConditionalEnd(ends, n) != 0 <==> exists s :: Opens(ends, s) && Lasts(ends, s, n)
    ensures ConditionalEnd(ends, n) != 0 ==>
      exists s :: Opens(ends, s) && Lasts(ends, s, n) && ConditionalEnd(ends, n) == ends[s]
  {
    if n > 0 {
      LeftOut(ends, n - 1);
    }
    var before := if n == 0 then 0 else ConditionalEnd(ends, n - 1);
    forall s | Opens(ends, s) && Lasts(ends, s, n) ensures ConditionalEnd(ends, n) != 0 {
      StillLeftOut(ends, s, n);
    }
    if ConditionalEnd(ends, n) != 0 {
      if before == 0 {
        assert Opens(ends, n) && Lasts(ends, n, n);
      } else {
        var s :| Opens(ends, s) && Lasts(ends, s, n - 1) && before == ends[s];
        assert Lasts(ends, s, n);
      }
    }
  }

  lemma {:induction false} StillLeftOut(ends: seq<nat>, s: nat, n: nat)
    requires n < |ends| && Opens(ends, s) && Lasts(ends, s, n)
    ensures ConditionalEnd(ends, n) == ends[s]
    decreases n - s
  {
    if s < n {
      StillLeftOut(ends, s, n - 1);
    }
  }

  // ----- Entries as they are meant -----

  /** Lines count from 1, and every entry ends after it begins. */
  ghost predicate Forward(ends: seq<nat>)
  {
    (ends != [] ==> ends[0] == 0) && forall s :: 0 <= s < |ends| && ends[s] != 0 ==> s < ends[s]
  }

  predicate Covers(ends: seq<nat>, s: int, n: int)
  {
    0 <= s < |ends| && s <= n < ends[s]
  }

  ghost predicate InConditional(ends: seq<nat>, n: int)
  {
    exists s :: Covers(ends, s, n)
  }

  /** Entry t begins among the lines left out because of s, or right behind them, and goes on further. */
  predicate Crosses(ends: seq<nat>, s: int, t: int)
  {
    Opens(ends, s) && t < |ends| && s < t <= ends[s] < ends[t] && ends[s] < |ends|
  }

  /** Only lines that an entry covers are left out, */
  lemma OnlyCovered(ends: seq<nat>, n: nat)
    requires Forward(ends) && n < |ends|
    ensures ConditionalEnd(ends, n) != 0 ==> InConditional(ends, n)
  {
    LeftOut(ends, n);
    if ConditionalEnd(ends, n) != 0 {
      var s :| Opens(ends, s) && Lasts(ends, s, n);
      assert Covers(ends, s, n);
    }
  }

  /** and all of them are, exactly if no entry crosses another. */
  lemma AllCovered(ends: seq<nat>)
    requires Forward(ends)
    ensures (forall n :: 0 <= n < |ends| && InConditional(ends, n) ==> ConditionalEnd(ends, n) != 0)
       <==> forall s, t :: !Crosses(ends, s, t)
  {
    forall s, t | Crosses(ends, s, t)
      ensures InConditional(ends, ends[s]) && ConditionalEnd(ends, ends[s]) == 0
    {
      assert Covers(ends, t, ends[s]);
      StillLeftOut(ends, s, ends[s] - 1);
    }
    forall n | 0 <= n < |ends| && InConditional(ends, n) && ConditionalEnd(ends, n) == 0
      ensures exists s, t :: Crosses(ends, s, t)
    {
      var t :| Covers(ends, t, n);
      CrossedBefore(ends, t, n);
    }
  }

  lemma CrossedBefore(ends: seq<nat>, t: nat, n: nat)
    requires Forward(ends) && n < |ends| && Covers(ends, t, n) && ConditionalEnd(ends, n) == 0
    ensures exists s :: Crosses(ends, s, t)
  {
    LeftOut(ends, n);
    assert Lasts(ends, t, n);
    assert !Opens(ends, t);
    LeftOut(ends, t - 1);
    var s :| Opens(ends, s) && Lasts(ends, s, t - 1);
    assert !Lasts(ends, s, n);
    assert Crosses(ends, s, t);
  }

  /** An else branch may be marked within the lines of the branch before it: lines 5 and 6 are then counted. */
  lemma CountedAlthoughCovered(ends: seq<nat>)
    requires ends == [0, 0, 0, 5, 7, 0, 0, 0]
    ensures Crosses(ends, 3, 4) && InConditional(ends, 5) && ConditionalEnd(ends, 5) == 0
    ensures InConditional(ends, 6) && ConditionalEnd(ends, 6) == 0
  {
    assert ConditionalEnd(ends, 0) == 0 && ConditionalEnd(ends, 1) == 0 && ConditionalEnd(ends, 2) == 0;
    assert ConditionalEnd(ends, 3) == 5 && ConditionalEnd(ends, 4) == 5 && ConditionalEnd(ends, 5) == 0;
    assert ConditionalEnd(ends, 6) == 0;
    assert Covers(ends, 4, 5) && Covers(ends, 4, 6);
  }

  // ----- Counting -----

  predicate Missing(cc: Counters, ends: seq<nat>, n: int)
    requires |ends| == |cc|
  {
    0 <= n < |cc| && cc[n] == Some(0) && ConditionalEnd(ends, n) == 0
  }

  predicate Counted(cc: Counters, ends: seq<nat>, n: int)
    requires |ends| == |cc|
  {
    0 <= n < |cc| && cc[n].Some? && ConditionalEnd(ends, n) == 0
  }

  function CountedLines(cc: Counters, ends: seq<nat>, n: nat): set<nat>
    requires |ends| == |cc| && n <= |cc|
  {
    set m: nat | m < n && Counted(cc, ends, m)
  }

  function ExecutedLines(cc: Counters, ends: seq<nat>, n: nat): set<nat>
    requires |ends| == |cc| && n <= |cc|
  {
    set m: nat | m < n && Counted(cc, ends, m) && Executed(cc, m)
  }

  predicate Increasing(s: seq<nat>)
  {
    forall i, j :: 0 <= i < j < |s| ==> s[i] < s[j]
  }

  lemma IncreasingNext(s: seq<nat>, n: nat)
    requires Increasing(s) && forall m :: m in s ==> m < n
    ensures Increasing(s + [n])
  {
    forall i, j | 0 <= i < j < |s + [n]| ensures (s + [n])[i] < (s + [n])[j] {
      assert s[i] in s;
    }
  }

  method Count(cc: Counters, ends: seq<nat>) returns (statements: nat, executed: nat, missing: seq<nat>)
    requires |ends| == |cc|
    ensures statements == |CountedLines(cc, ends, |cc|)| && executed == |ExecutedLines(cc, ends, |cc|)|
    ensures Increasing(missing) && forall n :: n in missing <==> Missing(cc, ends, n)
  {
    statements, executed, missing := 0, 0, [];
    var currentConditionalEnd := 0;
    var n := 0;
    while n < |cc|
      invariant n <= |cc| && currentConditionalEnd == (if n == 0 then 0 else ConditionalEnd(ends, n - 1))
      invariant statements == |CountedLines(cc, ends, n)| && executed == |ExecutedLines(cc, ends, n)|
      invariant Increasing(missing) && forall m :: m in missing <==> m < n && Missing(cc, ends, m)
    {
      if n == currentConditionalEnd {
        currentConditionalEnd := 0;
      } else if currentConditionalEnd == 0 && ends[n] != 0 {
        currentConditionalEnd := ends[n];
      }
      assert currentConditionalEnd == ConditionalEnd(ends, n);
      NextLine(cc, ends, n);
      if currentConditionalEnd == 0 && cc[n].Some? {
        if cc[n].value == 0 {
          IncreasingNext(missing, n);
          missing := missing + [n];
        } else {
          executed := executed + 1;
        }
        statements := statements + 1;
      }
      n := n + 1;
    }
  }

  lemma NextLine(cc: Counters, ends: seq<nat>, n: nat)
    requires |ends| == |cc| && n < |cc|
    ensures |CountedLines(cc, ends, n + 1)| == |CountedLines(cc, ends, n)| + if Counted(cc, ends, n) then 1 else 0
    ensures |ExecutedLines(cc, ends, n + 1)|
         == |ExecutedLines(cc, ends, n)| + if Counted(cc, ends, n) && Executed(cc, n) then 1 else 0
  {
    assert CountedLines(cc, ends, n + 1) == CountedLines(cc, ends, n) + if Counted(cc, ends, n) then {n} else {};
    assert ExecutedLines(cc, ends, n + 1)
        == ExecutedLines(cc, ends, n) + if Counted(cc, ends, n) && Executed(cc, n) then {n} else {};
  }

  // ----- Grouping -----

  /** What is shown for a range: one number, or two with a hyphen. */
  datatype Range = Single(line: nat) | Span(begin: nat, end: nat)
  {
    function First(): nat
    {
      if Single? then line else begin
    }

    function Last(): nat
    {
      if Single? then line else end
    }
  }

  ghost predicate IsRange(cc: Counters, missing: set<nat>, r: Range)
  {
    && r.First() in missing && r.Last() in missing && (r.Span? ==> r.begin < r.end)
    && forall n :: r.First() <= n <= r.Last() ==> !Executed(cc, n)
  }

  ghost predicate Apart(cc: Counters, a: int, b: int)
  {
    exists n :: a < n < b && Executed(cc, n)
  }

  /**
   * The ranges begin and end with missing lines, contain no line that has been executed and every line
   * that is missing, and between two of them there is a line that has been executed.
   */
  ghost predicate Groups(cc: Counters, missing: set<nat>, ranges: seq<Range>)
  {
    AllRanges(cc, missing, ranges) && AllApart(cc, ranges) && AllIn(missing, ranges)
  }

  ghost predicate AllRanges(cc: Counters, missing: set<nat>, ranges: seq<Range>)
  {
    forall k :: 0 <= k < |ranges| ==> IsRange(cc, missing, ranges[k])
  }

  ghost predicate AllApart(cc: Counters, ranges: seq<Range>)
  {
    forall j, k :: 0 <= j < k < |ranges| && k == j + 1 ==> Apart(cc, ranges[j].Last(), ranges[k].First())
  }

  ghost predicate AllIn(missing: set<nat>, ranges: seq<Range>)
  {
    forall n :: n in missing ==> InRanges(ranges, n)
  }

  ghost predicate InRanges(ranges: seq<Range>, n: nat)
  {
    exists k :: 0 <= k < |ranges| && ranges[k].First() <= n <= ranges[k].Last()
  }

  lemma RangeAt(cc: Counters, missing: set<nat>, ranges: seq<Range>, k: nat)
    requires Groups(cc, missing, ranges) && k < |ranges|
    ensures IsRange(cc, missing, ranges[k]) && ranges[k].First() <= ranges[k].Last()
  {
    assert IsRange(cc, missing, ranges[k]);
  }

  lemma GapBefore(cc: Counters, missing: set<nat>, ranges: seq<Range>, k: nat)
    requires Groups(cc, missing, ranges) && 0 < k < |ranges|
    ensures Apart(cc, ranges[k - 1].Last(), ranges[k].First())
  {
  }

  lemma RangeOf(cc: Counters, missing: set<nat>, ranges: seq<Range>, n: nat) returns (k: nat)
    requires Groups(cc, missing, ranges) && n in missing
    ensures k < |ranges| && ranges[k].First() <= n <= ranges[k].Last()
  {
    assert InRanges(ranges, n);
    k :| 0 <= k < |ranges| && ranges[k].First() <= n <= ranges[k].Last();
  }

  lemma ApartFurther(cc: Counters, a: int, b: int, c: int)
    requires Apart(cc, a, b) && b <= c
    ensures Apart(cc, a, c) && a < c
  {
    var n :| a < n < b && Executed(cc, n);
    assert a < n < c && Executed(cc, n);
  }

  lemma {:induction false} RangesOrdered(cc: Counters, missing: set<nat>, ranges: seq<Range>, j: nat, k: nat)
    requires Groups(cc, missing, ranges) && j < k < |ranges|
    ensures Apart(cc, ranges[j].Last(), ranges[k].First()) && ranges[j].Last() < ranges[k].First()
  {
    hide Groups, Apart, IsRange;
    GapBefore(cc, missing, ranges, k);
    ApartFurther(cc, ranges[k - 1].Last(), ranges[k].First(), ranges[k].First());
    if j < k - 1 {
      RangesOrdered(cc, missing, ranges, j, k - 1);
      RangeAt(cc, missing, ranges, k - 1);
      ApartFurther(cc, ranges[j].Last(), ranges[k - 1].First(), ranges[k].First());
    }
  }

  /** Every missing line is in one range only. */
  lemma InOneRange(cc: Counters, missing: set<nat>, ranges: seq<Range>, n: nat, j: nat, k: nat)
    requires Groups(cc, missing, ranges) && j < |ranges| && k < |ranges|
    requires ranges[j].First() <= n <= ranges[j].Last() && ranges[k].First() <= n <= ranges[k].Last()
    ensures j == k
  {
    hide Groups, Apart;
    if j < k {
      RangesOrdered(cc, missing, ranges, j, k);
    } else if k < j {
      RangesOrdered(cc, missing, ranges, k, j);
    }
  }

  /** There is no other way to group the missing lines like this. */
  lemma {:induction false} GroupsUnique(cc: Counters, missing: set<nat>, r: seq<Range>, s: seq<Range>)
    requires Groups(cc, missing, r) && Groups(cc, missing, s)
    ensures r == s
    decreases |r|
  {
    hide Groups, Apart;
    if r == [] || s == [] {
      NoRanges(cc, missing, r, s);
      NoRanges(cc, missing, s, r);
    } else {
      FirstIsLeast(cc, missing, r, s);
      FirstIsLeast(cc, missing, s, r);
      LastIsLast(cc, missing, r, s);
      LastIsLast(cc, missing, s, r);
      RangeAt(cc, missing, r, 0);
      RangeAt(cc, missing, s, 0);
      assert r[0] == s[0];
      var rest := set n | n in missing && n > r[0].Last();
      RestGroups(cc, missing, r, rest);
      RestGroups(cc, missing, s, rest);
      GroupsUnique(cc, rest, r[1..], s[1..]);
      assert r == [r[0]] + r[1..] && s == [s[0]] + s[1..];
    }
  }

  lemma NoRanges(cc: Counters, missing: set<nat>, r: seq<Range>, s: seq<Range>)
    requires Groups(cc, missing, r) && Groups(cc, missing, s)
    ensures r == [] ==> s == []
  {
    hide Groups;
    if s != [] {
      RangeAt(cc, missing, s, 0);
      var k := RangeOf(cc, missing, r, s[0].First());
    }
  }

  lemma FirstIsLeast(cc: Counters, missing: set<nat>, r: seq<Range>, s: seq<Range>)
    requires Groups(cc, missing, r) && Groups(cc, missing, s) && r != [] && s != []
    ensures r[0].First() <= s[0].First()
  {
    hide Groups, Apart;
    RangeAt(cc, missing, s, 0);
    RangeAt(cc, missing, r, 0);
    var k := RangeOf(cc, missing, r, s[0].First());
    if k > 0 {
      RangesOrdered(cc, missing, r, 0, k);
    }
  }

  lemma LastIsLast(cc: Counters, missing: set<nat>, r: seq<Range>, s: seq<Range>)
    requires Groups(cc, missing, r) && Groups(cc, missing, s) && r != [] && s != [] && r[0].First() == s[0].First()
    ensures s[0].Last() <= r[0].Last()
  {
    hide Groups;
    RangeAt(cc, missing, s, 0);
    RangeAt(cc, missing, r, 0);
    var k := RangeOf(cc, missing, r, s[0].Last());
    if k > 0 {
      RangesOrdered(cc, missing, r, 0, k);
    }
  }

  lemma RestGroups(cc: Counters, missing: set<nat>, r: seq<Range>, rest: set<nat>)
    requires Groups(cc, missing, r) && r != [] && rest == set n | n in missing && n > r[0].Last()
    ensures Groups(cc, rest, r[1..])
  {
    hide Apart, AllRanges, AllApart, AllIn;
    RestRanges(cc, missing, r, rest);
    RestApart(cc, missing, r);
    RestIn(cc, missing, r, rest);
  }

  lemma RestRanges(cc: Counters, missing: set<nat>, r: seq<Range>, rest: set<nat>)
    requires Groups(cc, missing, r) && r != [] && rest == set n | n in missing && n > r[0].Last()
    ensures AllRanges(cc, rest, r[1..])
  {
    hide Groups, Apart;
    forall k | 0 <= k < |r[1..]| ensures IsRange(cc, rest, r[1..][k]) {
      RangesOrdered(cc, missing, r, 0, k + 1);
      RangeAt(cc, missing, r, k + 1);
    }
  }

  lemma RestApart(cc: Counters, missing: set<nat>, r: seq<Range>)
    requires Groups(cc, missing, r) && r != []
    ensures AllApart(cc, r[1..])
  {
    hide Groups, Apart;
    forall j, k | 0 <= j < k < |r[1..]| && k == j + 1 ensures Apart(cc, r[1..][j].Last(), r[1..][k].First()) {
      GapBefore(cc, missing, r, k + 1);
    }
  }

  lemma RestIn(cc: Counters, missing: set<nat>, r: seq<Range>, rest: set<nat>)
    requires Groups(cc, missing, r) && r != [] && rest == set n | n in missing && n > r[0].Last()
    ensures AllIn(rest, r[1..])
  {
    hide Groups;
    forall n | n in rest ensures InRanges(r[1..], n) {
      var k := RangeOf(cc, missing, r, n);
      assert r[1..][k - 1] == r[k];
    }
  }

  // ----- The loops -----

  function Elements(s: seq<nat>): set<nat>
  {
    set n | n in s
  }

  /** How many missing lines follow one another from i on. */
  method RunLength(missing: seq<nat>, i: nat) returns (j: nat)
    requires i < |missing|
    ensures 1 <= j && i + j <= |missing| && forall k :: i <= k < i + j ==> missing[k] == missing[i] + (k - i)
  {
    j := 1;
    while i + j < |missing| && missing[i + j] == missing[i] + j
      invariant 1 <= j && i + j <= |missing| && forall k :: i <= k < i + j ==> missing[k] == missing[i] + (k - i)
    {
      j := j + 1;
    }
  }

  /** Lines that have not been executed are passed over. */
  method PassOver(cc: Counters, cur0: nat, next: nat) returns (cur: nat)
    requires cur0 <= next <= |cc|
    ensures cur0 <= cur <= next && (cur < next ==> Executed(cc, cur))
    ensures forall n :: cur0 <= n < cur ==> !Executed(cc, n)
  {
    cur := cur0;
    while cur < next && (cc[cur].None? || cc[cur].value == 0)
      invariant cur0 <= cur <= next && forall n :: cur0 <= n < cur ==> !Executed(cc, n)
    {
      cur := cur + 1;
    }
  }

  /** The missing lines from the one at i0 on that belong together; i + j - 1 is the last of them. */
  method Extend(cc: Counters, missing: seq<nat>, i0: nat) returns (i: nat, j: nat)
    requires Increasing(missing) && i0 < |missing|
    requires forall n :: n in missing ==> n < |cc| && cc[n] == Some(0)
    ensures i0 <= i && 1 <= j && i + j <= |missing|
    ensures missing[i + j - 1] == missing[i] + j - 1
    ensures forall n :: missing[i0] <= n <= missing[i + j - 1] ==> !Executed(cc, n)
    ensures i + j < |missing| ==> Apart(cc, missing[i + j - 1], missing[i + j])
  {
    i := i0;
    while true
      invariant i0 <= i < |missing| && forall n :: missing[i0] <= n <= missing[i] ==> !Executed(cc, n)
      decreases |missing| - i
    {
      j := RunLength(missing, i);
      forall n | missing[i0] <= n <= missing[i + j - 1] ensures !Executed(cc, n) {
        if n > missing[i] {
          assert missing[i + (n - missing[i])] in missing;
        }
      }
      if i + j >= |missing| {
        break;
      }
      var next := missing[i + j];
      assert next in missing;
      var cur := PassOver(cc, missing[i] + j, next);
      if cur < next || cur >= |cc| {
        break;
      }
      i := i + j;
    }
  }

  /** What Extend has found is one more range. */
  ghost predicate Fits(cc: Counters, missing: seq<nat>, i0: nat, i: nat, r: Range)
  {
    && i0 <= i < |missing| && r.First() == missing[i0] && r.Last() == missing[i] && (r.Span? ==> r.begin < r.end)
    && forall n :: missing[i0] <= n <= missing[i] ==> !Executed(cc, n)
  }

  lemma OneMoreRange(cc: Counters, missing: seq<nat>, i0: nat, i: nat, r: Range, ranges: seq<Range>)
    requires Increasing(missing) && Fits(cc, missing, i0, i, r) && Groups(cc, Elements(missing[..i0]), ranges)
    requires ranges != [] ==> Apart(cc, ranges[|ranges| - 1].Last(), r.First())
    ensures Groups(cc, Elements(missing[..i + 1]), ranges + [r])
  {
    hide Apart, AllRanges, AllApart, AllIn, Elements, Increasing;
    var before, now := Elements(missing[..i0]), Elements(missing[..i + 1]);
    MoreElements(missing, i0, i);
    RangesNext(cc, before, now, r, ranges, missing, i0, i);
    ApartNext(cc, before, r, ranges);
    InNext(cc, before, now, r, ranges);
  }

  lemma MoreElements(missing: seq<nat>, i0: nat, i: nat)
    requires Increasing(missing) && i0 <= i < |missing|
    ensures Elements(missing[..i0]) <= Elements(missing[..i + 1])
    ensures missing[i0] in Elements(missing[..i + 1]) && missing[i] in Elements(missing[..i + 1])
    ensures forall n :: n in Elements(missing[..i + 1]) ==> n in Elements(missing[..i0]) || missing[i0] <= n <= missing[i]
  {
    assert missing[i0] == missing[..i + 1][i0] && missing[i] == missing[..i + 1][i];
    forall n | n in missing[..i0] ensures n in missing[..i + 1] {
      var k :| 0 <= k < i0 && missing[..i0][k] == n;
      assert missing[..i + 1][k] == n;
    }
    forall n | n in missing[..i + 1] ensures n in missing[..i0] || missing[i0] <= n <= missing[i] {
      var k :| 0 <= k <= i && missing[..i + 1][k] == n;
      assert k < i0 ==> missing[..i0][k] == n;
    }
  }

  lemma RangesNext(cc: Counters, before: set<nat>, now: set<nat>, r: Range, ranges: seq<Range>,
      missing: seq<nat>, i0: nat, i: nat)
    requires Groups(cc, before, ranges) && before <= now && Fits(cc, missing, i0, i, r) && missing[i0] in now && missing[i] in now
    ensures AllRanges(cc, now, ranges + [r])
  {
    hide Groups;
    forall k | 0 <= k < |ranges + [r]| ensures IsRange(cc, now, (ranges + [r])[k]) {
      if k < |ranges| {
        RangeAt(cc, before, ranges, k);
      }
    }
  }

  lemma ApartNext(cc: Counters, before: set<nat>, r: Range, ranges: seq<Range>)
    requires Groups(cc, before, ranges) && (ranges != [] ==> Apart(cc, ranges[|ranges| - 1].Last(), r.First()))
    ensures AllApart(cc, ranges + [r])
  {
    hide Groups, Apart;
    var all := ranges + [r];
    forall j, k | 0 <= j < k < |all| && k == j + 1 ensures Apart(cc, all[j].Last(), all[k].First()) {
      if k < |ranges| {
        GapBefore(cc, before, ranges, k);
      }
    }
  }

  lemma InNext(cc: Counters, before: set<nat>, now: set<nat>, r: Range, ranges: seq<Range>)
    requires Groups(cc, before, ranges) && forall n :: n in now ==> n in before || r.First() <= n <= r.Last()
    ensures AllIn(now, ranges + [r])
  {
    hide Groups;
    var all := ranges + [r];
    forall n | n in now ensures InRanges(all, n) {
      if n in before {
        var k := RangeOf(cc, before, ranges, n);
        assert all[k] == ranges[k];
      } else {
        assert all[|ranges|] == r;
      }
    }
  }

  lemma NothingToGroup(cc: Counters, missing: seq<nat>)
    ensures Groups(cc, Elements(missing[..0]), [])
  {
  }

  method GroupMissing(cc: Counters, missing: seq<nat>) returns (ranges: seq<Range>)
    requires Increasing(missing) && forall n :: n in missing ==> n < |cc| && cc[n] == Some(0)
    ensures Groups(cc, Elements(missing), ranges)
  {
    hide Groups, Apart, Elements, Increasing;
    ranges := [];
    NothingToGroup(cc, missing);
    var i := 0;
    while i < |missing|
      invariant i <= |missing| && Groups(cc, Elements(missing[..i]), ranges)
      invariant ranges != [] ==> i > 0 && ranges[|ranges| - 1].Last() == missing[i - 1]
      invariant i > 0 && i < |missing| ==> Apart(cc, missing[i - 1], missing[i])
    {
      var i0, start := i, missing[i];
      var j;
      i, j := Extend(cc, missing, i0);
      AlongRun(missing, i0, i, j);
      var r := Single(start);
      if start != missing[i] || j > 1 {
        i := i + j - 1;
        r := Span(start, missing[i]);
      }
      OneMoreRange(cc, missing, i0, i, r, ranges);
      ranges := ranges + [r];
      i := i + 1;
    }
    assert missing[..i] == missing;
  }

  lemma AlongRun(missing: seq<nat>, i0: nat, i: nat, j: nat)
    requires Increasing(missing) && i0 <= i && 1 <= j && i + j <= |missing|
    ensures missing[i0] != missing[i] || j > 1 ==> missing[i0] < missing[i + j - 1]
    ensures missing[i0] == missing[i] ==> i0 == i
  {
  }
}
