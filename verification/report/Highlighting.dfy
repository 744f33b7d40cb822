/** Syntax highlighting: every character of the source is written once, in a span of its class. */
module Highlighting {
  import opened DisplayedLines
  import opened LineScanner
  import opened Markup
  import opened Options
  import opened SourceWriter
  import opened TokenPlaces

  // ----- What is displayed -----

  /** A character c in place i; the end of a line is never in a span. */
  function Glyphs(cs: seq<JSChar>, i: nat, c: JSChar, class_: Class): seq<Glyph>
  {
    if !EndsLine(c) then [Glyph(c, class_)]
    else if c == CR && i + 1 < |cs| && cs[i + 1] == LF then []
    else [Glyph(LF, CLASS_NONE)]
  }

  /** The first characters of the source, each with a class. */
  function Paint(cs: seq<JSChar>, classes: seq<Class>): seq<Glyph>
    requires |classes| <= |cs|
  {
    if classes == [] then []
    else
      var n := |classes| - 1;
      Paint(cs, classes[..n]) + Glyphs(cs, n, cs[n], classes[n])
  }

  lemma PaintNext(cs: seq<JSChar>, classes: seq<Class>, class_: Class)
    requires |classes| < |cs|
    ensures Paint(cs, classes + [class_]) == Paint(cs, classes) + Glyphs(cs, |classes|, cs[|classes|], class_)
  {
    assert (classes + [class_])[..|classes|] == classes;
  }

  lemma GlyphsDisplayed(front: seq<Glyph>, cs: seq<JSChar>, n: nat, class_: Class)
    requires n < |cs|
    ensures Chars(front + Glyphs(cs, n, cs[n], class_)) == Chars(front) + Displayed(cs[n..])
  {
    hide Chars;
    var shown := Glyphs(cs, n, cs[n], class_);
    if shown == [] {
      assert front + shown == front;
    } else {
      assert shown == [shown[0]];
      CharsNext(front, shown[0]);
    }
  }

  lemma NormalisedNext(cs: seq<JSChar>, n: nat)
    requires n < |cs|
    ensures Normalised(cs[n..]) == Displayed(cs[n..]) + Normalised(cs[n + 1..])
  {
    assert cs[n..][1..] == cs[n + 1..];
  }

  /** Whatever the classes, what is displayed is the source with its line terminators made line feeds. */
  lemma {:induction false} PaintChars(cs: seq<JSChar>, classes: seq<Class>)
    requires |classes| <= |cs|
    ensures Chars(Paint(cs, classes)) + Normalised(cs[|classes|..]) == Normalised(cs)
  {
    hide Normalised, Displayed, Glyphs, Chars;
    if classes == [] {
      NothingPainted(cs);
    } else {
      var n := |classes| - 1;
      PaintChars(cs, classes[..n]);
      GlyphsDisplayed(Paint(cs, classes[..n]), cs, n, classes[n]);
      NormalisedNext(cs, n);
      Together(Chars(Paint(cs, classes[..n])), Displayed(cs[n..]), Normalised(cs[n + 1..]));
    }
  }

  lemma NothingPainted(cs: seq<JSChar>)
    ensures Chars(Paint(cs, [])) + Normalised(cs[0..]) == Normalised(cs)
  {
    assert cs[0..] == cs;
  }

  lemma Together(a: seq<JSChar>, b: seq<JSChar>, c: seq<JSChar>)
    ensures (a + b) + c == a + (b + c)
  {
  }

  // ----- The classes of characters between tokens and in tokens -----

  /** The length of a comment with a star, which may lack its end. */
  function CommentEnd(cs: seq<JSChar>): (n: nat)
    ensures n <= |cs| && (|cs| > 0 ==> n > 0)
  {
    if cs == [] then 0
    else if cs[0] == '*' as int && |cs| > 1 && cs[1] == '/' as int then 2
    else 1 + CommentEnd(cs[1..])
  }

  predicate Begins(cs: seq<JSChar>, c: char, d: char)
  {
    |cs| > 1 && cs[0] == c as int && cs[1] == d as int
  }

  function Repeat(n: nat, class_: Class): (s: seq<Class>)
    ensures |s| == n
  {
    seq(n, _ => class_)
  }

  /** Outside of tokens there are comments, and anything else has no class. */
  function GapClasses(cs: seq<JSChar>): (s: seq<Class>)
    ensures |s| == |cs|
  {
    if cs == [] then []
    else if Begins(cs, '/', '/') then
      var n := LineLength(cs);
      LineCommentLength(cs);
      Repeat(n, CLASS_COMMENT) + GapClasses(cs[n..])
    else if Begins(cs, '/', '*') then
      var n := 2 + CommentEnd(cs[2..]);
      Repeat(n, CLASS_COMMENT) + GapClasses(cs[n..])
    else [CLASS_NONE] + GapClasses(cs[1..])
  }

  lemma LineCommentLength(cs: seq<JSChar>)
    requires Begins(cs, '/', '/')
    ensures LineLength(cs) >= 1
  {
  }

  /** In a string, a backslash and what follows it are special; otherwise a token has its own class. */
  function TokenClasses(isString: bool, class_: Class, cs: seq<JSChar>): (s: seq<Class>)
    ensures |s| == |cs|
  {
    if cs == [] then []
    else if isString && cs[0] == '\\' as int then
      if |cs| == 1 then [CLASS_SPECIALCHAR]
      else [CLASS_SPECIALCHAR, CLASS_SPECIALCHAR] + TokenClasses(isString, class_, cs[2..])
    else [class_] + TokenClasses(isString, class_, cs[1..])
  }

  /** The classes of what comes between tokens, in the middle of a comment perhaps. */
  function ClassesFrom(state: State, cs: seq<JSChar>): (s: seq<Class>)
    ensures |s| == |cs|
  {
    match state
    case STATE_NORMAL => GapClasses(cs)
    case STATE_LINE_COMMENT => Repeat(LineLength(cs), CLASS_COMMENT) + GapClasses(cs[LineLength(cs)..])
    case STATE_MULTILINE_COMMENT => Repeat(CommentEnd(cs), CLASS_COMMENT) + GapClasses(cs[CommentEnd(cs)..])
  }

  lemma RepeatNext(n: nat, class_: Class)
    ensures Repeat(n + 1, class_) == [class_] + Repeat(n, class_)
  {
  }

  lemma RestOf(cs: seq<JSChar>, n: nat)
    requires n < |cs|
    ensures cs[n + 1..] == cs[1..][n..]
  {
  }

  /** A line comment begins, or goes on. */
  lemma LineCommentNext(state: State, cs: seq<JSChar>)
    requires cs != [] && !EndsLine(cs[0])
    requires state.STATE_LINE_COMMENT? || (state.STATE_NORMAL? && Begins(cs, '/', '/'))
    ensures ClassesFrom(state, cs) == [CLASS_COMMENT] + ClassesFrom(STATE_LINE_COMMENT, cs[1..])
  {
    var n := LineLength(cs[1..]);
    assert LineLength(cs) == n + 1;
    RepeatNext(n, CLASS_COMMENT);
    RestOf(cs, n);
    Assoc([CLASS_COMMENT], Repeat(n, CLASS_COMMENT), GapClasses(cs[n + 1..]));
  }

  lemma LineCommentEnds(cs: seq<JSChar>)
    requires cs != [] && EndsLine(cs[0])
    ensures ClassesFrom(STATE_LINE_COMMENT, cs) == [CLASS_NONE] + ClassesFrom(STATE_NORMAL, cs[1..])
  {
    assert cs[0..] == cs && Repeat(0, CLASS_COMMENT) == [];
    assert [] + GapClasses(cs) == GapClasses(cs);
  }

  lemma MultilineBegins(cs: seq<JSChar>)
    requires Begins(cs, '/', '*')
    ensures ClassesFrom(STATE_NORMAL, cs) == [CLASS_COMMENT, CLASS_COMMENT] + ClassesFrom(STATE_MULTILINE_COMMENT, cs[2..])
  {
    var n := CommentEnd(cs[2..]);
    assert cs[n + 2..] == cs[2..][n..];
    assert Repeat(n + 2, CLASS_COMMENT) == [CLASS_COMMENT, CLASS_COMMENT] + Repeat(n, CLASS_COMMENT);
    Assoc([CLASS_COMMENT, CLASS_COMMENT], Repeat(n, CLASS_COMMENT), GapClasses(cs[n + 2..]));
  }

  lemma MultilineNext(cs: seq<JSChar>)
    requires cs != [] && !Begins(cs, '*', '/')
    ensures ClassesFrom(STATE_MULTILINE_COMMENT, cs) == [CLASS_COMMENT] + ClassesFrom(STATE_MULTILINE_COMMENT, cs[1..])
  {
    var n := CommentEnd(cs[1..]);
    assert CommentEnd(cs) == n + 1;
    RepeatNext(n, CLASS_COMMENT);
    RestOf(cs, n);
    Assoc([CLASS_COMMENT], Repeat(n, CLASS_COMMENT), GapClasses(cs[n + 1..]));
  }

  lemma MultilineEnds(cs: seq<JSChar>)
    requires Begins(cs, '*', '/')
    ensures ClassesFrom(STATE_MULTILINE_COMMENT, cs) == [CLASS_COMMENT, CLASS_COMMENT] + ClassesFrom(STATE_NORMAL, cs[2..])
  {
    assert Repeat(2, CLASS_COMMENT) == [CLASS_COMMENT, CLASS_COMMENT];
  }

  /** One character further, except where two are taken at once. */
  lemma OneFurther(before: State, after: State, cs: seq<JSChar>)
    requires cs != []
    requires !(before.STATE_NORMAL? && Begins(cs, '/', '*')) && !(before.STATE_MULTILINE_COMMENT? && Begins(cs, '*', '/'))
    requires after == match before
                      case STATE_NORMAL => if Begins(cs, '/', '/') then STATE_LINE_COMMENT else STATE_NORMAL
                      case STATE_LINE_COMMENT => if EndsLine(cs[0]) then STATE_NORMAL else STATE_LINE_COMMENT
                      case STATE_MULTILINE_COMMENT => STATE_MULTILINE_COMMENT
    ensures ClassesFrom(before, cs)
         == [if after.STATE_NORMAL? then CLASS_NONE else CLASS_COMMENT] + ClassesFrom(after, cs[1..])
  {
    match before
    case STATE_NORMAL =>
      if Begins(cs, '/', '/') {
        LineCommentNext(before, cs);
      }
    case STATE_LINE_COMMENT =>
      if EndsLine(cs[0]) {
        LineCommentEnds(cs);
      } else {
        LineCommentNext(before, cs);
      }
    case STATE_MULTILINE_COMMENT =>
      MultilineNext(cs);
  }

  lemma Assoc(a: seq<Class>, b: seq<Class>, c: seq<Class>)
    ensures (a + b) + c == a + (b + c)
  {
  }

  // ----- The classes of a text with tokens -----

  /** The classes with those of one token more. */
  function WithToken(cs: seq<JSChar>, t: Token, s: Spot, classes: seq<Class>): (r: seq<Class>)
    requires s.offset <= |cs| && AfterToken(cs, t, s).Some? && |classes| == s.offset
    ensures |r| == AfterToken(cs, t, s).value.offset
  {
    var b := GapEnd(cs, STATE_NORMAL, s, t.begin).value.offset;
    var e := AfterToken(cs, t, s).value.offset;
    classes + GapClasses(cs[s.offset..])[..b - s.offset] + TokenClasses(t.isString, t.class_.value, cs[b..])[..e - b]
  }

  /** The classes of the characters up to the end of the last token. */
  function ClassesTo(cs: seq<JSChar>, tokens: seq<Token>): (classes: seq<Class>)
    requires AfterTokens(cs, tokens).Some?
    ensures |classes| == AfterTokens(cs, tokens).value.offset
  {
    if tokens == [] then []
    else
      var n := |tokens| - 1;
      WithToken(cs, tokens[n], AfterTokens(cs, tokens[..n]).value, ClassesTo(cs, tokens[..n]))
  }

  /** The classes of all characters: what lies between tokens has those of gaps, and they have their own. */
  function AllClasses(cs: seq<JSChar>, tokens: seq<Token>): (classes: seq<Class>)
    requires AfterTokens(cs, tokens).Some?
    ensures |classes| == |cs|
  {
    ClassesTo(cs, tokens) + GapClasses(cs[AfterTokens(cs, tokens).value.offset..])
  }

  /** The class of the span that is open after these characters. */
  function Current(cs: seq<JSChar>, classes: seq<Class>): Class
    requires |classes| <= |cs|
  {
    if classes == [] || EndsLine(cs[|classes| - 1]) then CLASS_NONE else classes[|classes| - 1]
  }

  /** The tokens are found where they say, what follows them has no NUL, and there is room for a last line feed if it takes one. */
  predicate Succeeds(cs: seq<JSChar>, tokens: seq<Token>)
  {
    && AfterTokens(cs, tokens).Some?
    && var end := GapEnd(cs, STATE_NORMAL, AfterTokens(cs, tokens).value, Position(0, 0));
       && end.Some?
       && (Current(cs, AllClasses(cs, tokens)).CLASS_NONE? || MoveOver(end.value.at, true).Some?)
  }

  /**
   * In a text that keeps to the limits: the highlighter succeeds, without ever changing a column, exactly
   * if the tokens carry the positions of places in the text that follow each other, and there is no NUL
   * between them and no comment is cut in two.
   */
  lemma MatchingTokens(cs: seq<JSChar>, tokens: seq<Token>)
    requires WithinLimits(cs)
    ensures Succeeds(cs, tokens) && Straight(cs, tokens) <==>
            exists places :: Match(cs, tokens, places) && LastEnd(places) <= |cs|
                             && GapBetween(STATE_NORMAL, cs, LastEnd(places), |cs|)
  {
    hide GapEnd, GapBetween, Match, LastEnd, AfterTokens, Straight, AllClasses;
    if Succeeds(cs, tokens) && Straight(cs, tokens) {
      var places := FoundPlaces(cs, tokens);
      PlacesFound(cs, tokens, places);
      GapEndsAtEnd(cs, STATE_NORMAL, LastEnd(places));
    }
    forall places | Match(cs, tokens, places) && LastEnd(places) <= |cs| && GapBetween(STATE_NORMAL, cs, LastEnd(places), |cs|)
      ensures Succeeds(cs, tokens) && Straight(cs, tokens)
    {
      PlacesFound(cs, tokens, places);
      GapEndsAtEnd(cs, STATE_NORMAL, LastEnd(places));
      assert PositionAt(cs, |cs|).line < UINT32_MAX;
    }
  }

  lemma QuoteSpots(cs: seq<JSChar>)
    requires cs == ['\'' as int, '\\' as int, '\'' as int]
    ensures Move(cs, START) == Some(Spot(1, Position(1, 1))) && MoveTwo(cs, Spot(1, Position(1, 1))) == Some(Spot(3, Position(1, 3)))
  {
    assert !EndsLine(cs[0]) && !EndsLine(cs[1]) && !EndsLine(cs[2]);
  }

  /** A string that ends between a backslash and what follows it: the column goes back by one, and that is no error. */
  lemma ColumnSet(cs: seq<JSChar>, t: Token)
    requires cs == ['\'' as int, '\\' as int, '\'' as int]
    requires t == Token(Some(CLASS_STRING), true, Position(1, 0), Position(1, 2))
    ensures Succeeds(cs, [t]) && !Straight(cs, [t]) && AfterTokens(cs, [t]) == Some(Spot(3, Position(1, 2)))
  {
    QuoteSpots(cs);
    hide Move, MoveTwo;
    assert [t][..0] == [] && AfterTokens(cs, []) == Some(START);
    assert GapEnd(cs, STATE_NORMAL, START, t.begin) == Some(START);
    TokenStep(cs, true, START, t.end);
    TokenStep(cs, true, Spot(1, Position(1, 1)), t.end);
    assert TokenEnd(cs, true, START, t.end) == Some(Spot(3, Position(1, 3)));
    assert GapEnd(cs, STATE_NORMAL, Spot(3, Position(1, 2)), Position(0, 0)) == Some(Spot(3, Position(1, 2)));
  }

  // ----- The highlighter -----

  /** Nothing is opened or closed behind the last character. */
  predicate EndsInChar(items: seq<Item>)
  {
    items == [] || items[|items| - 1].Char?
  }

  class Highlighter {
    const characters: seq<JSChar>
    var output: string
    var offset: nat
    var lineNum: nat
    var columnNum: nat
    var currentClass: Class
    ghost var items: seq<Item>

    ghost predicate Valid()
      reads this
    {
      && output == Render(items) && Inside(items) == Some(currentClass) && lineNum > 0
      && (!currentClass.CLASS_NONE? ==> Painted(items) != [] && !EndsLine(Painted(items)[|Painted(items)| - 1].c))
    }

    function Here(): Spot
      reads this
    {
      Spot(offset, Position(lineNum, columnNum))
    }

    /** What has been written shows the characters before offset, in these classes. */
    ghost predicate Shows(classes: seq<Class>)
      reads this
    {
      && Valid() && offset == |classes| <= |characters| && Painted(items) == Paint(characters, classes)
      && currentClass == Current(characters, classes)
      && (EndsInChar(items) || (offset < |characters| && characters[offset] == LF))
    }

    constructor (characters: seq<JSChar>)
      ensures Shows([]) && this.characters == characters && lineNum == 1 && columnNum == 0
    {
      this.characters := characters;
      output, offset, lineNum, columnNum, currentClass, items := "", 0, 1, 0, CLASS_NONE, [];
    }

    /** A span is closed and another one opened, where that is needed. */
    method ChangeClass(class_: Class)
      requires Valid()
      modifies this`output, this`currentClass, this`items
      ensures output == Render(items) && Inside(items) == Some(currentClass) && currentClass == class_
      ensures Painted(items) == old(Painted(items))
    {
      hide Render, Inside, Painted;
      if class_ != currentClass {
        if !currentClass.CLASS_NONE? {
          RenderNext(items, Close);
          InsideNext(items, Close);
          items := items + [Close];
          output := output + "</span>";
        }
        currentClass := class_;
        if !currentClass.CLASS_NONE? {
          RenderNext(items, Open(class_));
          InsideNext(items, Open(class_));
          items := items + [Open(class_)];
          output := output + ("<span class=\"" + ClassName(class_) + "\">");
        }
      }
    }

    method WriteChar(c: JSChar, text: string)
      requires output == Render(items) && Inside(items) == Some(currentClass) && text == Entity(c)
      requires c == LF ==> currentClass.CLASS_NONE?
      modifies this`output, this`items
      ensures output == Render(items) && Inside(items) == Some(currentClass)
      ensures Painted(items) == old(Painted(items)) + [Glyph(c, currentClass)] && EndsInChar(items)
    {
      RenderNext(items, Char(c));
      InsideNext(items, Char(c));
      items := items + [Char(c)];
      output := output + text;
    }

    /** The character ends a line on the page; c is the one at offset, or a line feed behind all of them. */
    predicate LineEndHere(c: JSChar)
      reads this`offset
    {
      EndsLine(c) && !(c == CR && offset + 1 < |characters| && characters[offset + 1] == LF)
    }

    /** output_character; not ok is the end of the program. */
    method OutputCharacter(c: JSChar, class0: Class) returns (ok: bool)
      requires Valid()
      modifies this
      ensures var at := MoveOver(old(Here()).at, old(LineEndHere(c)));
              (ok <==> at.Some?) && (ok ==> Valid() && Here() == Spot(old(offset) + 1, at.value))
      ensures ok ==> currentClass == if EndsLine(c) then CLASS_NONE else class0
      ensures ok ==> EndsInChar(items) || (EndsLine(c) && !old(LineEndHere(c)))
      ensures ok ==> Painted(items) == old(Painted(items)) + Glyphs(characters, old(offset), c, class0)
    {
      hide Render, Inside, Painted, Decimal;
      var class_ := if EndsLine(c) then CLASS_NONE else class0;
      ChangeClass(class_);
      if columnNum == UINT32_MAX {
        return false;
      }
      columnNum := columnNum + 1;
      if c == '&' as int {
        WriteChar(c, "&amp;");
      } else if c == '<' as int {
        WriteChar(c, "&lt;");
      } else if c == '>' as int {
        WriteChar(c, "&gt;");
      } else if c == 0x9 {
        WriteChar(c, [c as char]);
      } else if EndsLine(c) {
        if !(c == CR && offset + 1 < |characters| && characters[offset + 1] == LF) {
          WriteChar(LF, "\n");
          columnNum := 0;
          if lineNum == UINT32_MAX {
            return false;
          }
          lineNum := lineNum + 1;
        }
      } else if 32 <= c <= 126 {
        WriteChar(c, [c as char]);
      } else {
        WriteChar(c, "&#" + Decimal(c) + ";");
      }
      offset := offset + 1;
      ok := true;
    }

    /** The character at offset. */
    method Output(class_: Class, ghost classes: seq<Class>) returns (ok: bool)
      requires Shows(classes) && offset < |characters|
      modifies this
      ensures var next := Move(characters, old(Here()));
              (ok <==> next.Some?) && (ok ==> Shows(classes + [class_]) && Here() == next.value)
    {
      PaintNext(characters, classes, class_);
      ok := OutputCharacter(characters[offset], class_);
    }

    /** The next two characters. */
    method OutputTwo(class_: Class, ghost classes: seq<Class>) returns (ok: bool)
      requires Shows(classes) && offset + 1 < |characters|
      modifies this
      ensures var next := MoveTwo(characters, old(Here()));
              (ok <==> next.Some?) && (ok ==> Shows(classes + [class_, class_]) && Here() == next.value)
    {
      ok := Output(class_, classes);
      if ok {
        ok := Output(class_, classes + [class_]);
        assert classes + [class_] + [class_] == classes + [class_, class_];
      }
    }

    /** mark_nontoken_chars: up to a position, or to the end if the line is 0. */
    method MarkNontokenChars(end: Position, ghost classes: seq<Class>) returns (ok: bool, ghost classes': seq<Class>)
      requires Shows(classes)
      modifies this
      ensures var r := GapEnd(characters, STATE_NORMAL, old(Here()), end);
              (ok <==> r.Some?) && (ok ==> Shows(classes') && Here() == r.value)
      ensures ok ==> classes' <= classes + GapClasses(characters[|classes|..]) && |classes'| >= |classes|
    {
      hide Paint, Render, Inside, Painted, GapClasses, ClassesFrom, GapEnd, Move, MoveTwo, Current, EndsInChar;
      ghost var all := classes + ClassesFrom(STATE_NORMAL, characters[offset..]);
      NormalIsGap(characters[offset..]);
      var state := STATE_NORMAL;
      classes' := classes;
      while offset < |characters|
        invariant Shows(classes') && |classes'| >= |classes|
        invariant all == classes' + ClassesFrom(state, characters[offset..])
        invariant GapEnd(characters, STATE_NORMAL, old(Here()), end) == GapEnd(characters, state, Here(), end)
        decreases |characters| - offset
      {
        GapStep(characters, state, Here(), end);
        if end.line != 0 && lineNum > end.line {
          return true, classes';
        } else if lineNum == end.line && columnNum >= end.column {
          return true, classes';
        }
        var c := characters[offset];
        if c == 0 {
          return false, classes';
        }
        ghost var before, rest := state, characters[offset..];
        AtRest(characters, offset);
        if state.STATE_NORMAL? && At(characters, offset, '/', '*') {
          MultilineBegins(rest);
          state := STATE_MULTILINE_COMMENT;
          ok := OutputTwo(CLASS_COMMENT, classes');
          if !ok {
            return;
          }
          Assoc(classes', [CLASS_COMMENT, CLASS_COMMENT], ClassesFrom(state, characters[offset..]));
          classes' := classes' + [CLASS_COMMENT, CLASS_COMMENT];
          continue;
        } else if state.STATE_MULTILINE_COMMENT? && At(characters, offset, '*', '/') {
          MultilineEnds(rest);
          ok := OutputTwo(CLASS_COMMENT, classes');
          if !ok {
            return;
          }
          state := STATE_NORMAL;
          Assoc(classes', [CLASS_COMMENT, CLASS_COMMENT], ClassesFrom(state, characters[offset..]));
          classes' := classes' + [CLASS_COMMENT, CLASS_COMMENT];
          continue;
        }
        if state.STATE_NORMAL? && At(characters, offset, '/', '/') {
          state := STATE_LINE_COMMENT;
        } else if state.STATE_LINE_COMMENT? && EndsLine(c) {
          state := STATE_NORMAL;
        }
        OneFurther(before, state, rest);
        var class_ := if state.STATE_NORMAL? then CLASS_NONE else CLASS_COMMENT;
        ok := Output(class_, classes');
        if !ok {
          return;
        }
        Assoc(classes', [class_], ClassesFrom(state, characters[offset..]));
        classes' := classes' + [class_];
      }
      GapStep(characters, state, Here(), end);
      ok := true;
    }

    /** A turn of the loop that marks a token: an escape of a string, or one character. */
    method OutputInToken(isString: bool, class_: Class, end: Position, ghost classes: seq<Class>)
      returns (ok: bool, ghost classes': seq<Class>)
      requires Shows(classes)
      modifies this
      ensures ok ==> Shows(classes') && |classes'| > |classes|
      ensures TokenEnd(characters, isString, old(Here()), end)
           == if !ok then None
              else if Reached(Here().at, end) then Some(Here())
              else TokenEnd(characters, isString, Here(), end)
      ensures ok ==>
        classes' + TokenClasses(isString, class_, characters[offset..])
        == classes + TokenClasses(isString, class_, characters[old(offset)..])
    {
      hide Paint, Render, Inside, Painted, TokenClasses, Valid, TokenEnd, Move, MoveTwo, Current, EndsInChar, Reached;
      classes' := classes;
      TokenStep(characters, isString, Here(), end);
      if offset >= |characters| {
        return false, classes';
      }
      AtRest(characters, offset);
      TokenNext(isString, class_, characters[offset..]);
      if isString && characters[offset] == '\\' as int {
        if offset + 1 >= |characters| {
          return false, classes';
        }
        ok := OutputTwo(CLASS_SPECIALCHAR, classes');
        if ok {
          Assoc(classes', [CLASS_SPECIALCHAR, CLASS_SPECIALCHAR], TokenClasses(isString, class_, characters[offset..]));
          classes' := classes' + [CLASS_SPECIALCHAR, CLASS_SPECIALCHAR];
        }
      } else {
        ok := Output(class_, classes');
        if ok {
          Assoc(classes', [class_], TokenClasses(isString, class_, characters[offset..]));
          classes' := classes' + [class_];
        }
      }
    }

    /** The loop that marks a token; there is at least one character in it. */
    method MarkToken(t: Token, class_: Class, ghost classes: seq<Class>) returns (ok: bool, ghost classes': seq<Class>)
      requires Shows(classes)
      modifies this
      ensures var r := TokenEnd(characters, t.isString, old(Here()), t.end);
              && (ok <==> r.Some? && r.value.at.line == t.end.line && t.end.column != 0)
              && (ok ==> Shows(classes') && Here() == Spot(r.value.offset, t.end))
      ensures ok ==> classes' <= classes + TokenClasses(t.isString, class_, characters[|classes|..]) && |classes'| > |classes|
    {
      hide Paint, Render, Inside, Painted, TokenClasses, Valid, TokenEnd, Move, MoveTwo, Current, EndsInChar;
      ghost var all := classes + TokenClasses(t.isString, class_, characters[offset..]);
      classes' := classes;
      ok := true;
      var more := true;
      while more
        invariant Shows(classes') && |classes'| >= |classes| && (!more ==> |classes'| > |classes|)
        invariant TokenEnd(characters, t.isString, old(Here()), t.end)
               == if more then TokenEnd(characters, t.isString, Here(), t.end) else Some(Here())
        invariant all == classes' + TokenClasses(t.isString, class_, characters[offset..])
        decreases |characters| - offset, more
      {
        ok, classes' := OutputInToken(t.isString, class_, t.end, classes');
        if !ok {
          return;
        }
        more := !(lineNum > t.end.line || (lineNum == t.end.line && columnNum >= t.end.column));
      }
      if lineNum != t.end.line || t.end.column == 0 {
        return false, classes';
      }
      SetColumn(t.end.column, classes');
    }

    /** What is written as an assertion that the columns are equal is an assignment. */
    method SetColumn(column: nat, ghost classes: seq<Class>)
      requires Shows(classes)
      modifies this`columnNum
      ensures Shows(classes) && Here() == Spot(old(offset), Position(old(lineNum), column))
    {
      hide Paint, Render, Inside, Painted;
      columnNum := column;
    }

    /** The characters before a token, and the token; false if the scanner's positions are not the ones reached here. */
    method MarkNext(t: Token, ghost classes: seq<Class>) returns (ok: bool, ghost classes': seq<Class>)
      requires Shows(classes)
      modifies this
      ensures var r := AfterToken(characters, t, old(Here()));
              (ok <==> r.Some?) && (ok ==> Shows(classes') && Here() == r.value)
      ensures ok ==> classes' == WithToken(characters, t, old(Here()), classes)
    {
      hide GapClasses, TokenClasses, Paint, Painted, Render, Inside, GapEnd, TokenEnd;
      ok, classes' := MarkNontokenChars(t.begin, classes);
      if !ok {
        return;
      }
      if t.class_.None? || lineNum != t.begin.line || columnNum != t.begin.column {
        return false, classes';
      }
      if t.begin.line == t.end.line && t.begin.column >= t.end.column {
        return false, classes';
      }
      ghost var before := classes';
      Taken(classes, GapClasses(characters[|classes|..]), before);
      ok, classes' := MarkToken(t, t.class_.value, classes');
      if ok {
        Taken(before, TokenClasses(t.isString, t.class_.value, characters[|before|..]), classes');
      }
    }
  }

  lemma ClassesNext(cs: seq<JSChar>, tokens: seq<Token>, i: nat)
    requires i < |tokens| && AfterTokens(cs, tokens[..i]).Some? && AfterTokens(cs, tokens[..i + 1]).Some?
    requires AfterToken(cs, tokens[i], AfterTokens(cs, tokens[..i]).value).Some?
    ensures ClassesTo(cs, tokens[..i + 1])
         == WithToken(cs, tokens[i], AfterTokens(cs, tokens[..i]).value, ClassesTo(cs, tokens[..i]))
  {
    hide GapClasses, TokenClasses, GapEnd, TokenEnd, AfterToken;
    assert tokens[..i + 1][..i] == tokens[..i];
  }

  lemma Taken(before: seq<Class>, more: seq<Class>, classes: seq<Class>)
    requires |before| <= |classes| && classes <= before + more
    ensures classes == before + more[..|classes| - |before|]
  {
  }

  lemma GapStep(cs: seq<JSChar>, state: State, s: Spot, end: Position)
    requires s.offset <= |cs|
    ensures GapEnd(cs, state, s, end)
         == if s.offset == |cs| || Past(s.at, end) then Some(s)
            else if cs[s.offset] == 0 then None
            else
              var next := if TakesTwo(state, cs, s.offset) then MoveTwo(cs, s) else Move(cs, s);
              if next.None? then None else GapEnd(cs, NextState(state, cs, s.offset), next.value, end)
  {
  }

  lemma TokenStep(cs: seq<JSChar>, isString: bool, s: Spot, end: Position)
    requires s.offset <= |cs|
    ensures TokenEnd(cs, isString, s, end)
         == if s.offset == |cs| then None
            else if Escapes(isString, cs, s.offset) && s.offset + 1 == |cs| then None
            else
              var next := if Escapes(isString, cs, s.offset) then MoveTwo(cs, s) else Move(cs, s);
              if next.None? then None
              else if Reached(next.value.at, end) then next
              else TokenEnd(cs, isString, next.value, end)
  {
  }

  lemma {:induction false} LastChar(glyphs: seq<Glyph>)
    requires glyphs != []
    ensures Chars(glyphs)[|glyphs| - 1] == glyphs[|glyphs| - 1].c
  {
  }

  /** What a finished page shows: the source, line by line. */
  lemma ShowsSource(cs: seq<JSChar>, classes: seq<Class>, items: seq<Item>, extra: seq<Glyph>)
    requires |classes| == |cs| && Inside(items).Some? && Painted(items) == Paint(cs, classes) + extra
    requires extra == [] || (extra == [Glyph(LF, CLASS_NONE)] && Paint(cs, classes) != []
      && !EndsLine(Paint(cs, classes)[|Paint(cs, classes)| - 1].c))
    ensures Erased(Render(items)) == Normalised(cs) + Chars(extra)
    ensures Lines(Normalised(cs) + Chars(extra)) == Lines(cs)
  {
    hide Erased, Render, Inside, Painted, Paint, Normalised, Lines, Chars;
    var shown := Paint(cs, classes);
    RenderErased(items, "");
    assert Render(items) + "" == Render(items);
    EmptyErased();
    AllPainted(cs, classes);
    SameLines(cs);
    if extra == [] {
      assert shown + extra == shown;
      assert Normalised(cs) + Chars(extra) == Normalised(cs);
    } else {
      CharsNext(shown, extra[0]);
      CharsNext([], extra[0]);
      assert [] + [extra[0]] == extra && Chars(extra) == [LF];
      LastChar(shown);
      FinalLineFeed(Normalised(cs));
    }
  }

  lemma AllPainted(cs: seq<JSChar>, classes: seq<Class>)
    requires |classes| == |cs|
    ensures Chars(Paint(cs, classes)) == Normalised(cs)
  {
    PaintChars(cs, classes);
    assert cs[|cs|..] == [];
  }

  lemma EmptyErased()
    ensures Erased("") == [] && Chars([]) == []
  {
  }

  /**
   * jscoverage_highlight_js, for any tokens at all. It succeeds exactly if the tokens are found where they
   * say. Then the spans are balanced, are not nested and do not cross the end of a line; without them and
   * without entities the page is the source, perhaps with a line feed at the end; and its lines are the
   * ones that the scanner of directives counts.
   */
  method Highlight(characters: seq<JSChar>, tokens: seq<Token>)
    returns (ok: bool, output: string, ghost classes: seq<Class>, ghost items: seq<Item>)
    ensures ok <==> Succeeds(characters, tokens)
    ensures ok ==> classes == AllClasses(characters, tokens) && output == Render(items) && Inside(items) == Some(CLASS_NONE)
    ensures ok ==> EndsInChar(items)
    ensures ok ==> exists end :: end in {[], [Glyph(LF, CLASS_NONE)]} && Painted(items) == Paint(characters, classes) + end
                                 && Erased(output) == Normalised(characters) + Chars(end)
    ensures ok ==> exists text: seq<JSChar> :: Erased(output) == text && Lines(text) == Lines(characters)
  {
    hide AfterTokens, AfterToken, GapEnd, ClassesTo, WithToken, GapClasses, Paint, Painted, Render, Inside, Erased, Lines, Normalised;
    var h := new Highlighter(characters);
    classes, items, output := [], [], "";
    NoTokens(characters);
    var i := 0;
    assert tokens[..0] == [];
    while i < |tokens|
      invariant i <= |tokens| && fresh(h) && h.characters == characters && h.Shows(classes)
      invariant AfterTokens(characters, tokens[..i]) == Some(h.Here()) && classes == ClassesTo(characters, tokens[..i])
    {
      AfterNext(characters, tokens, i);
      ok, classes := h.MarkNext(tokens[i], classes);
      if !ok {
        NeverMind(characters, tokens, i + 1);
        return;
      }
      ClassesNext(characters, tokens, i);
      i := i + 1;
    }
    assert tokens[..i] == tokens;
    ghost var before := classes;
    AllOfIt(characters, h.Here());
    ok, classes := h.MarkNontokenChars(Position(0, 0), classes);
    if !ok {
      return;
    }
    Taken(before, GapClasses(characters[|before|..]), classes);
    ghost var end: seq<Glyph> := [];
    assert Painted(h.items) == Paint(characters, classes) + end;
    assert classes == AllClasses(characters, tokens);
    if !h.currentClass.CLASS_NONE? {
      end := [Glyph(LF, CLASS_NONE)];
      ok := h.OutputCharacter(LF, CLASS_NONE);
      if !ok {
        return;
      }
    }
    output, items := h.output, h.items;
    ShowsSource(characters, classes, items, end);
    assert end in {[], [Glyph(LF, CLASS_NONE)]};
  }

  lemma NoTokens(cs: seq<JSChar>)
    ensures AfterTokens(cs, []) == Some(START) && ClassesTo(cs, []) == []
  {
  }

  /** What fails for the first tokens fails for all. */
  lemma NeverMind(cs: seq<JSChar>, tokens: seq<Token>, i: nat)
    requires i <= |tokens| && AfterTokens(cs, tokens[..i]).None?
    ensures AfterTokens(cs, tokens).None?
  {
    hide AfterTokens;
    if AfterTokens(cs, tokens).Some? {
      AfterSome(cs, tokens, i);
    }
  }

  /** Up to line 0 means up to the end. */
  lemma {:induction false} AllOfIt(cs: seq<JSChar>, s: Spot)
    requires s.offset <= |cs| && s.at.line > 0
    ensures var r := GapEnd(cs, STATE_NORMAL, s, Position(0, 0)); r.Some? ==> r.value.offset == |cs|
  {
    NeverAtZero(cs, STATE_NORMAL, s);
  }

  lemma {:induction false} NeverAtZero(cs: seq<JSChar>, state: State, s: Spot)
    requires s.offset <= |cs| && s.at.line > 0
    ensures var r := GapEnd(cs, state, s, Position(0, 0)); r.Some? ==> r.value.at.line > 0 && r.value.offset == |cs|
    decreases |cs| - s.offset
  {
    GapStep(cs, state, s, Position(0, 0));
    hide GapEnd;
    if s.offset < |cs| {
      var next := if TakesTwo(state, cs, s.offset) then MoveTwo(cs, s) else Move(cs, s);
      if next.Some? {
        NeverAtZero(cs, NextState(state, cs, s.offset), next.value);
      }
    }
  }

  lemma TokenNext(isString: bool, class_: Class, cs: seq<JSChar>)
    requires cs != []
    ensures TokenClasses(isString, class_, cs)
         == if isString && cs[0] == '\\' as int then
              if |cs| == 1 then [CLASS_SPECIALCHAR]
              else [CLASS_SPECIALCHAR, CLASS_SPECIALCHAR] + TokenClasses(isString, class_, cs[2..])
            else [class_] + TokenClasses(isString, class_, cs[1..])
  {
  }

  lemma NormalIsGap(cs: seq<JSChar>)
    ensures ClassesFrom(STATE_NORMAL, cs) == GapClasses(cs)
  {
  }

  lemma AtRest(cs: seq<JSChar>, i: nat)
    requires i < |cs|
    ensures cs[i..][0] == cs[i] && (i + 1 < |cs| ==> cs[i..][1] == cs[i + 1])
    ensures cs[i..][1..] == cs[i + 1..] && (i + 2 <= |cs| ==> cs[i..][2..] == cs[i + 2..])
  {
  }
}
