/** Where the highlighter finds the tokens: the lines and columns it counts, against those the tokens carry. */
module TokenPlaces {
  import opened LineScanner
  import opened Markup
  import opened Options

  datatype Position = Position(line: nat, column: nat)

  /** A token of the scanner; class_ is what its type and operator stand for, and is missing for those not expected here. */
  datatype Token = Token(class_: Option<Class>, isString: bool, begin: Position, end: Position)

  /** A place in the text, and the line and column counted there. */
  datatype Spot = Spot(offset: nat, at: Position)

  const START := Spot(0, Position(1, 0))

  // ----- One character further -----

  /** The last character of a line; a carriage return before a line feed is not. */
  predicate LastOfLine(cs: seq<JSChar>, i: nat)
    requires i < |cs|
  {
    EndsLine(cs[i]) && !(cs[i] == CR && i + 1 < |cs| && cs[i + 1] == LF)
  }

  /** Lines and columns are counted up to a limit. */
  function MoveOver(at: Position, newLine: bool): Option<Position>
  {
    if at.column == UINT32_MAX then None
    else if !newLine then Some(Position(at.line, at.column + 1))
    else if at.line == UINT32_MAX then None
    else Some(Position(at.line + 1, 0))
  }

  function Move(cs: seq<JSChar>, s: Spot): (r: Option<Spot>)
    requires s.offset < |cs|
    ensures r.Some? ==> r.value.offset == s.offset + 1
  {
    match MoveOver(s.at, LastOfLine(cs, s.offset))
    case None => None
    case Some(at) => Some(Spot(s.offset + 1, at))
  }

  function MoveTwo(cs: seq<JSChar>, s: Spot): (r: Option<Spot>)
    requires s.offset + 1 < |cs|
    ensures r.Some? ==> r.value.offset == s.offset + 2
  {
    match Move(cs, s)
    case None => None
    case Some(t) => Move(cs, t)
  }

  // ----- From one token to the next -----

  /** What is left of a line comment or of a comment with a star is followed by what is outside again. */
  datatype State = STATE_NORMAL | STATE_LINE_COMMENT | STATE_MULTILINE_COMMENT

  predicate At(cs: seq<JSChar>, i: nat, c: char, d: char)
  {
    i + 1 < |cs| && cs[i] == c as int && cs[i + 1] == d as int
  }

  /** A comment with a star begins or ends: two characters are taken at once. */
  predicate TakesTwo(state: State, cs: seq<JSChar>, i: nat)
  {
    (state.STATE_NORMAL? && At(cs, i, '/', '*')) || (state.STATE_MULTILINE_COMMENT? && At(cs, i, '*', '/'))
  }

  function NextState(state: State, cs: seq<JSChar>, i: nat): State
    requires i < |cs|
  {
    match state
    case STATE_NORMAL =>
      if At(cs, i, '/', '*') then STATE_MULTILINE_COMMENT else if At(cs, i, '/', '/') then STATE_LINE_COMMENT else STATE_NORMAL
    case STATE_LINE_COMMENT => if EndsLine(cs[i]) then STATE_NORMAL else STATE_LINE_COMMENT
    case STATE_MULTILINE_COMMENT => if At(cs, i, '*', '/') then STATE_NORMAL else STATE_MULTILINE_COMMENT
  }

  /** The test between tokens; line 0 stands for the end of the text. */
  predicate Past(at: Position, end: Position)
  {
    (end.line != 0 && at.line > end.line) || (at.line == end.line && at.column >= end.column)
  }

  /** Where the characters before a token end; there is no answer if a NUL or a limit comes first. */
  function GapEnd(cs: seq<JSChar>, state: State, s: Spot, end: Position): (r: Option<Spot>)
    requires s.offset <= |cs|
    ensures r.Some? ==> s.offset <= r.value.offset <= |cs|
    ensures r.Some? ==> r.value.offset == |cs| || Past(r.value.at, end)
    decreases |cs| - s.offset
  {
    if s.offset == |cs| || Past(s.at, end) then Some(s)
    else if cs[s.offset] == 0 then None
    else
      var next := if TakesTwo(state, cs, s.offset) then MoveTwo(cs, s) else Move(cs, s);
      if next.None? then None else GapEnd(cs, NextState(state, cs, s.offset), next.value, end)
  }

  // ----- From the beginning of a token to its end -----

  /** The test within a token. */
  predicate Reached(at: Position, end: Position)
  {
    at.line > end.line || (at.line == end.line && at.column >= end.column)
  }

  predicate Escapes(isString: bool, cs: seq<JSChar>, i: nat)
    requires i < |cs|
  {
    isString && cs[i] == '\\' as int
  }

  /** Where the token that begins here ends; it has one character at least, and must be in the text. */
  function TokenEnd(cs: seq<JSChar>, isString: bool, s: Spot, end: Position): (r: Option<Spot>)
    requires s.offset <= |cs|
    ensures r.Some? ==> s.offset < r.value.offset <= |cs| && Reached(r.value.at, end)
    decreases |cs| - s.offset
  {
    if s.offset == |cs| then None
    else if Escapes(isString, cs, s.offset) && s.offset + 1 == |cs| then None
    else
      var next := if Escapes(isString, cs, s.offset) then MoveTwo(cs, s) else Move(cs, s);
      if next.None? then None
      else if Reached(next.value.at, end) then next
      else TokenEnd(cs, isString, next.value, end)
  }

  /** The beginning of a token is where it says; its end is on the line it says, and the column is set to what it says. */
  function AfterToken(cs: seq<JSChar>, t: Token, s: Spot): (r: Option<Spot>)
    requires s.offset <= |cs|
    ensures r.Some? ==> s.offset < r.value.offset <= |cs|
  {
    var b := GapEnd(cs, STATE_NORMAL, s, t.begin);
    if b.None? || t.class_.None? || b.value.at != t.begin then None
    else if t.begin.line == t.end.line && t.begin.column >= t.end.column then None
    else
      var e := TokenEnd(cs, t.isString, b.value, t.end);
      if e.None? || e.value.at.line != t.end.line || t.end.column == 0 then None else Some(Spot(e.value.offset, t.end))
  }

  function AfterTokens(cs: seq<JSChar>, tokens: seq<Token>): (r: Option<Spot>)
    ensures r.Some? ==> r.value.offset <= |cs|
  {
    if tokens == [] then Some(START)
    else
      match AfterTokens(cs, tokens[..|tokens| - 1])
      case None => None
      case Some(s) => AfterToken(cs, tokens[|tokens| - 1], s)
  }

  lemma AfterNext(cs: seq<JSChar>, tokens: seq<Token>, i: nat)
    requires i < |tokens|
    ensures AfterTokens(cs, tokens[..i + 1])
         == match AfterTokens(cs, tokens[..i]) case None => None case Some(s) => AfterToken(cs, tokens[i], s)
  {
    assert tokens[..i + 1][..i] == tokens[..i];
  }

  lemma {:induction false} AfterSome(cs: seq<JSChar>, tokens: seq<Token>, i: nat)
    requires i <= |tokens| && AfterTokens(cs, tokens).Some?
    ensures AfterTokens(cs, tokens[..i]).Some?
    decreases |tokens|
  {
    if i < |tokens| {
      AfterSome(cs, tokens[..|tokens| - 1], i);
      assert tokens[..|tokens| - 1][..i] == tokens[..i];
    } else {
      assert tokens[..i] == tokens;
    }
  }

  // ----- Tokens whose positions are those of the text -----

  /** The line and column after the first n characters, with no limit. */
  function PositionAt(cs: seq<JSChar>, n: nat): (at: Position)
    requires n <= |cs|
    ensures at.line >= 1
  {
    if n == 0 then START.at
    else
      var at := PositionAt(cs, n - 1);
      if LastOfLine(cs, n - 1) then Position(at.line + 1, 0) else Position(at.line, at.column + 1)
  }

  function SpotAt(cs: seq<JSChar>, n: nat): Spot
    requires n <= |cs|
  {
    Spot(n, PositionAt(cs, n))
  }

  /** No line or column reaches the limit. */
  ghost predicate WithinLimits(cs: seq<JSChar>)
  {
    forall n :: 0 <= n <= |cs| ==> PositionAt(cs, n).line < UINT32_MAX && PositionAt(cs, n).column < UINT32_MAX
  }

  /** Between tokens: without a NUL, and no beginning or end of a comment is cut in two. */
  predicate GapBetween(state: State, cs: seq<JSChar>, i: nat, b: nat)
    requires i <= b <= |cs|
    decreases b - i
  {
    i == b ||
    (cs[i] != 0 &&
     var n := if TakesTwo(state, cs, i) then 2 else 1;
     i + n <= b && GapBetween(NextState(state, cs, i), cs, i + n, b))
  }

  /** In a token: in a string, no backslash is cut off from what follows it. */
  predicate TokenBetween(isString: bool, cs: seq<JSChar>, i: nat, e: nat)
    requires i <= e <= |cs|
    decreases e - i
  {
    i == e ||
    (var n := if Escapes(isString, cs, i) then 2 else 1;
     i + n <= e && TokenBetween(isString, cs, i + n, e))
  }

  /** From where to where a token goes. */
  datatype Place = Place(begin: nat, end: nat)

  /** The token is at this place, not before i, and its positions are those of the place. */
  predicate IsAt(cs: seq<JSChar>, t: Token, i: nat, place: Place)
  {
    && i <= place.begin < place.end <= |cs|
    && t.class_.Some? && t.begin == PositionAt(cs, place.begin) && t.end == PositionAt(cs, place.end)
    && t.end.column > 0
    && GapBetween(STATE_NORMAL, cs, i, place.begin) && TokenBetween(t.isString, cs, place.begin, place.end)
  }

  function LastEnd(places: seq<Place>): nat
  {
    if places == [] then 0 else places[|places| - 1].end
  }

  /** The tokens are at these places, one after the other. */
  predicate Match(cs: seq<JSChar>, tokens: seq<Token>, places: seq<Place>)
  {
    && |tokens| == |places|
    && (tokens == [] ||
        (var n := |tokens| - 1;
         Match(cs, tokens[..n], places[..n]) && IsAt(cs, tokens[n], LastEnd(places[..n]), places[n])))
  }

  /** Every token ends in the column it says, so that setting the column changes nothing. */
  predicate Straight(cs: seq<JSChar>, tokens: seq<Token>)
    requires AfterTokens(cs, tokens).Some?
  {
    tokens == [] ||
    (var n := |tokens| - 1;
     var t := tokens[n];
     var s := AfterTokens(cs, tokens[..n]).value;
     Straight(cs, tokens[..n]) && TokenEnd(cs, t.isString, GapEnd(cs, STATE_NORMAL, s, t.begin).value, t.end).value.at == t.end)
  }

  predicate Before(a: Position, b: Position)
  {
    a.line < b.line || (a.line == b.line && a.column < b.column)
  }

  lemma {:induction false} LaterAt(cs: seq<JSChar>, i: nat, j: nat)
    requires i < j <= |cs|
    ensures Before(PositionAt(cs, i), PositionAt(cs, j))
  {
    if i < j - 1 {
      LaterAt(cs, i, j - 1);
    }
  }

  lemma MoveFrom(cs: seq<JSChar>, i: nat)
    requires WithinLimits(cs) && i < |cs|
    ensures Move(cs, SpotAt(cs, i)) == Some(SpotAt(cs, i + 1))
    ensures i + 1 < |cs| ==> MoveTwo(cs, SpotAt(cs, i)) == Some(SpotAt(cs, i + 2))
  {
    assert PositionAt(cs, i).line < UINT32_MAX;
    if i + 1 < |cs| {
      assert PositionAt(cs, i + 1).line < UINT32_MAX;
    }
  }

  lemma OtherPosition(cs: seq<JSChar>, i: nat, j: nat)
    requires i <= |cs| && j <= |cs|
    ensures PositionAt(cs, i) == PositionAt(cs, j) <==> i == j
    ensures Past(PositionAt(cs, i), PositionAt(cs, j)) <==> j <= i
    ensures Reached(PositionAt(cs, i), PositionAt(cs, j)) <==> j <= i
  {
    if i < j {
      LaterAt(cs, i, j);
    } else if j < i {
      LaterAt(cs, j, i);
    }
  }

  /** Between tokens, the first place that is past the end is found exactly if nothing is in between. */
  lemma {:induction false} GapEndsPast(cs: seq<JSChar>, state: State, i: nat, b: nat, end: Position)
    requires WithinLimits(cs) && i <= b <= |cs|
    requires forall k :: i <= k < b ==> !Past(PositionAt(cs, k), end)
    requires b == |cs| || Past(PositionAt(cs, b), end)
    ensures GapEnd(cs, state, SpotAt(cs, i), end) == Some(SpotAt(cs, b)) <==> GapBetween(state, cs, i, b)
    decreases b - i
  {
    hide WithinLimits, PositionAt, Move, MoveTwo, Past, NextState;
    if i < b {
      MoveFrom(cs, i);
      var n := if TakesTwo(state, cs, i) then 2 else 1;
      if i + n <= b {
        GapEndsPast(cs, NextState(state, cs, i), i + n, b, end);
      }
    }
  }

  lemma GapEndsAt(cs: seq<JSChar>, state: State, i: nat, b: nat)
    requires WithinLimits(cs) && i <= b <= |cs|
    ensures GapEnd(cs, state, SpotAt(cs, i), PositionAt(cs, b)) == Some(SpotAt(cs, b)) <==> GapBetween(state, cs, i, b)
  {
    hide WithinLimits, PositionAt, GapEnd, Past;
    forall k | i <= k <= b
      ensures Past(PositionAt(cs, k), PositionAt(cs, b)) <==> k == b
    {
      OtherPosition(cs, k, b);
    }
    GapEndsPast(cs, state, i, b, PositionAt(cs, b));
  }

  lemma GapEndsAtEnd(cs: seq<JSChar>, state: State, i: nat)
    requires WithinLimits(cs) && i <= |cs|
    ensures var r := GapEnd(cs, state, SpotAt(cs, i), Position(0, 0));
            (r.Some? <==> GapBetween(state, cs, i, |cs|)) && (r.Some? ==> r == Some(SpotAt(cs, |cs|)))
  {
    hide WithinLimits, GapEnd;
    GapEndsPast(cs, state, i, |cs|, Position(0, 0));
    GapEndIsAt(cs, state, i, Position(0, 0));
  }

  /** And nothing else is found than positions of the text. */
  lemma {:induction false} GapEndIsAt(cs: seq<JSChar>, state: State, i: nat, end: Position)
    requires WithinLimits(cs) && i <= |cs|
    ensures var r := GapEnd(cs, state, SpotAt(cs, i), end); r.Some? ==> r.value == SpotAt(cs, r.value.offset)
    decreases |cs| - i
  {
    hide WithinLimits, PositionAt, Move, MoveTwo, Past, NextState;
    if i < |cs| {
      MoveFrom(cs, i);
      var n := if TakesTwo(state, cs, i) then 2 else 1;
      GapEndIsAt(cs, NextState(state, cs, i), i + n, end);
    }
  }

  lemma {:induction false} TokenEndsAt(cs: seq<JSChar>, isString: bool, i: nat, e: nat)
    requires WithinLimits(cs) && i < e <= |cs|
    ensures TokenEnd(cs, isString, SpotAt(cs, i), PositionAt(cs, e)) == Some(SpotAt(cs, e)) <==> TokenBetween(isString, cs, i, e)
    decreases e - i
  {
    hide WithinLimits, PositionAt, Move, MoveTwo, Reached;
    MoveFrom(cs, i);
    var n := if Escapes(isString, cs, i) then 2 else 1;
    if i + n <= |cs| {
      OtherPosition(cs, i + n, e);
      if i + n < e {
        TokenEndsAt(cs, isString, i + n, e);
      }
    }
  }

  lemma {:induction false} TokenEndIsAt(cs: seq<JSChar>, isString: bool, i: nat, end: Position)
    requires WithinLimits(cs) && i <= |cs|
    ensures var r := TokenEnd(cs, isString, SpotAt(cs, i), end); r.Some? ==> r.value == SpotAt(cs, r.value.offset)
    decreases |cs| - i
  {
    hide WithinLimits, PositionAt, Move, MoveTwo, Reached;
    if i < |cs| {
      MoveFrom(cs, i);
      var n := if Escapes(isString, cs, i) then 2 else 1;
      if i + n <= |cs| {
        TokenEndIsAt(cs, isString, i + n, end);
      }
    }
  }

  lemma PlaceFound(cs: seq<JSChar>, t: Token, i: nat, place: Place)
    requires WithinLimits(cs) && IsAt(cs, t, i, place)
    ensures AfterToken(cs, t, SpotAt(cs, i)) == Some(SpotAt(cs, place.end))
    ensures GapEnd(cs, STATE_NORMAL, SpotAt(cs, i), t.begin) == Some(SpotAt(cs, place.begin))
    ensures TokenEnd(cs, t.isString, SpotAt(cs, place.begin), t.end) == Some(SpotAt(cs, place.end))
  {
    hide WithinLimits, PositionAt, GapEnd, TokenEnd, GapBetween, TokenBetween;
    GapEndsAt(cs, STATE_NORMAL, i, place.begin);
    TokenEndsAt(cs, t.isString, place.begin, place.end);
    LaterAt(cs, place.begin, place.end);
  }

  /** Where a token is found, if it ends in the column it says. */
  lemma FoundPlace(cs: seq<JSChar>, t: Token, i: nat) returns (place: Place)
    requires WithinLimits(cs) && i <= |cs| && AfterToken(cs, t, SpotAt(cs, i)).Some?
    requires TokenEnd(cs, t.isString, GapEnd(cs, STATE_NORMAL, SpotAt(cs, i), t.begin).value, t.end).value.at == t.end
    ensures IsAt(cs, t, i, place) && AfterToken(cs, t, SpotAt(cs, i)) == Some(SpotAt(cs, place.end))
  {
    hide WithinLimits, PositionAt, GapBetween, TokenBetween;
    var b := GapEnd(cs, STATE_NORMAL, SpotAt(cs, i), t.begin).value;
    var e := TokenEnd(cs, t.isString, b, t.end).value;
    hide GapEnd, TokenEnd;
    place := Place(b.offset, e.offset);
    GapEndIsAt(cs, STATE_NORMAL, i, t.begin);
    TokenEndIsAt(cs, t.isString, b.offset, t.end);
    GapEndsAt(cs, STATE_NORMAL, i, b.offset);
    TokenEndsAt(cs, t.isString, b.offset, e.offset);
  }

  /** Tokens that carry the positions of the text are found at their places. */
  lemma {:induction false} PlacesFound(cs: seq<JSChar>, tokens: seq<Token>, places: seq<Place>)
    requires WithinLimits(cs) && Match(cs, tokens, places)
    ensures LastEnd(places) <= |cs| && AfterTokens(cs, tokens) == Some(SpotAt(cs, LastEnd(places)))
    ensures Straight(cs, tokens)
    decreases |tokens|
  {
    hide WithinLimits, IsAt, GapEnd, TokenEnd, AfterToken;
    if tokens == [] {
      assert PositionAt(cs, 0) == START.at;
    } else {
      hide PositionAt;
      var n := |tokens| - 1;
      PlacesFound(cs, tokens[..n], places[..n]);
      PlaceFound(cs, tokens[n], LastEnd(places[..n]), places[n]);
      WithinText(cs, tokens[n], LastEnd(places[..n]), places[n]);
    }
  }

  lemma WithinText(cs: seq<JSChar>, t: Token, i: nat, place: Place)
    requires IsAt(cs, t, i, place)
    ensures place.end <= |cs| && PositionAt(cs, place.end) == t.end
  {
  }

  /** Tokens that are found, and end in the columns they say, carry the positions of the text. */
  lemma {:induction false} FoundPlaces(cs: seq<JSChar>, tokens: seq<Token>) returns (places: seq<Place>)
    requires WithinLimits(cs) && AfterTokens(cs, tokens).Some? && Straight(cs, tokens)
    ensures Match(cs, tokens, places)
    decreases |tokens|
  {
    hide WithinLimits, IsAt, GapEnd, TokenEnd, AfterToken, PositionAt;
    places := [];
    if tokens != [] {
      var n := |tokens| - 1;
      var before := FoundPlaces(cs, tokens[..n]);
      PlacesFound(cs, tokens[..n], before);
      var place := FoundPlace(cs, tokens[n], LastEnd(before));
      places := before + [place];
      assert places[..n] == before;
    }
  }
}
