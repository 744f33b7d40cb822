/** The HTML that the highlighter writes: spans, entities, and what is left when they are taken out. */
module Markup {
  import opened LineScanner
  import opened Options
  import opened SourceWriter

  datatype Class =
    | CLASS_NONE | CLASS_COMMENT | CLASS_REGEXP | CLASS_NUMBER | CLASS_STRING
    | CLASS_SPECIALCHAR | CLASS_KEYWORD | CLASS_TYPE | CLASS_SYMBOL | CLASS_CBRACKET

  /** get_class_name */
  function ClassName(c: Class): string
    requires !c.CLASS_NONE?
  {
    match c
    case CLASS_COMMENT => "c"
    case CLASS_SPECIALCHAR => "t"
    case CLASS_REGEXP => "s"
    case CLASS_NUMBER => "s"
    case CLASS_STRING => "s"
    case _ => "k"
  }

  datatype Item = Open(class_: Class) | Close | Char(c: JSChar)

  function Entity(c: JSChar): string
  {
    if c == '&' as int then "&amp;"
    else if c == '<' as int then "&lt;"
    else if c == '>' as int then "&gt;"
    else if c == 0x9 || c == LF || 32 <= c <= 126 then [c as char]
    else "&#" + Decimal(c) + ";"
  }

  function Html(item: Item): string
  {
    match item
    case Open(class_) => if class_.CLASS_NONE? then "" else "<span class=\"" + ClassName(class_) + "\">"
    case Close => "</span>"
    case Char(c) => Entity(c)
  }

  function Render(items: seq<Item>): string
  {
    if items == [] then "" else Render(items[..|items| - 1]) + Html(items[|items| - 1])
  }

  /**
   * The class of the span that is open after these items. There is no answer if spans are nested, closed
   * without being open, or open at the end of a line.
   */
  function Inside(items: seq<Item>): Option<Class>
  {
    if items == [] then Some(CLASS_NONE)
    else match Inside(items[..|items| - 1])
      case None => None
      case Some(open) =>
        match items[|items| - 1]
        case Open(class_) => if open.CLASS_NONE? && !class_.CLASS_NONE? then Some(class_) else None
        case Close => if open.CLASS_NONE? then None else Some(CLASS_NONE)
        case Char(c) => if c == LF && !open.CLASS_NONE? then None else Some(open)
  }

  /** A character on the screen, and the class of the span around it. */
  datatype Glyph = Glyph(c: JSChar, class_: Class)

  function Painted(items: seq<Item>): seq<Glyph>
    requires Inside(items).Some?
  {
    if items == [] then []
    else
      var front := items[..|items| - 1];
      var last := items[|items| - 1];
      Painted(front) + if last.Char? then [Glyph(last.c, Inside(front).value)] else []
  }

  function Chars(glyphs: seq<Glyph>): (s: seq<JSChar>)
    ensures |s| == |glyphs|
  {
    if glyphs == [] then [] else Chars(glyphs[..|glyphs| - 1]) + [glyphs[|glyphs| - 1].c]
  }

  lemma RenderNext(items: seq<Item>, item: Item)
    ensures Render(items + [item]) == Render(items) + Html(item)
    ensures Inside(items).Some? && Inside(items + [item]).Some? ==>
      Painted(items + [item]) == Painted(items) + if item.Char? then [Glyph(item.c, Inside(items).value)] else []
  {
    assert (items + [item])[..|items|] == items;
  }

  lemma InsideNext(items: seq<Item>, item: Item)
    requires Inside(items).Some?
    ensures var open := Inside(items).value;
            Inside(items + [item])
            == match item
               case Open(class_) => if open.CLASS_NONE? && !class_.CLASS_NONE? then Some(class_) else None
               case Close => if open.CLASS_NONE? then None else Some(CLASS_NONE)
               case Char(c) => if c == LF && !open.CLASS_NONE? then None else Some(open)
  {
    assert (items + [item])[..|items|] == items;
  }

  lemma CharsNext(glyphs: seq<Glyph>, g: Glyph)
    ensures Chars(glyphs + [g]) == Chars(glyphs) + [g.c]
  {
    assert (glyphs + [g])[..|glyphs|] == glyphs;
  }

  // ----- Taking the markup out again -----

  function TagLength(s: string): (n: nat)
    ensures n <= |s| && (|s| > 0 ==> n > 0)
  {
    if s == "" then 0 else if s[0] == '>' then 1 else 1 + TagLength(s[1..])
  }

  /** The text of a piece of HTML. */
  function Erased(s: string): seq<nat>
  {
    if s == "" then []
    else if s[0] == '<' then Erased(s[TagLength(s)..])
    else if "&amp;" <= s then ['&' as int] + Erased(s[5..])
    else if "&lt;" <= s then ['<' as int] + Erased(s[4..])
    else if "&gt;" <= s then ['>' as int] + Erased(s[4..])
    else if "&#" <= s && Digits(s[2..]) > 0 && 2 + Digits(s[2..]) < |s| then
      [Value(s[2..][..Digits(s[2..])])] + Erased(s[3 + Digits(s[2..])..])
    else [s[0] as int] + Erased(s[1..])
  }

  lemma {:induction false} TagIs(t: string, rest: string)
    requires t != "" && t[|t| - 1] == '>' && forall i :: 0 <= i < |t| - 1 ==> t[i] != '>'
    ensures TagLength(t + rest) == |t|
  {
    if |t| > 1 {
      assert (t + rest)[1..] == t[1..] + rest;
      TagIs(t[1..], rest);
    }
  }

  lemma TagErased(t: string, rest: string)
    requires t != "" && t[0] == '<' && t[|t| - 1] == '>' && forall i :: 0 <= i < |t| - 1 ==> t[i] != '>'
    ensures Erased(t + rest) == Erased(rest)
  {
    TagIs(t, rest);
    assert (t + rest)[|t|..] == rest;
  }

  lemma NumberErased(c: JSChar, rest: string)
    ensures Erased("&#" + Decimal(c) + ";" + rest) == [c as int] + Erased(rest)
  {
    var d := Decimal(c);
    var s := "&#" + d + ";" + rest;
    assert s[2..] == d + (";" + rest);
    DigitsOf(d, ";" + rest);
    DecimalValue(c);
    assert s[2..][..|d|] == d;
    assert s[3 + |d|..] == rest;
    assert s[0] == '&' && s[1] == '#' && "&#" <= s;
  }

  lemma EntityErased(c: JSChar, rest: string)
    ensures Erased(Entity(c) + rest) == [c as int] + Erased(rest)
  {
    var s := Entity(c) + rest;
    if |Entity(c)| == 1 {
      assert s[1..] == rest;
    } else if c == '&' as int {
      assert "&amp;" <= s && s[5..] == rest;
    } else if c == '<' as int {
      assert "&lt;" <= s && s[1] == 'l' && s[4..] == rest;
    } else if c == '>' as int {
      assert "&gt;" <= s && s[1] == 'g' && s[4..] == rest;
    } else {
      NumberErased(c, rest);
      assert s == "&#" + Decimal(c) + ";" + rest;
    }
  }

  lemma OpenTag(c: Class)
    requires !c.CLASS_NONE?
    ensures var t := Html(Open(c)); t != "" && t[0] == '<' && t[|t| - 1] == '>' && forall i :: 0 <= i < |t| - 1 ==> t[i] != '>'
  {
    var n := ClassName(c);
    assert |n| == 1 && n[0] in {'c', 't', 's', 'k'};
    var t := "<span class=\"" + n + "\">";
    assert forall i :: 0 <= i < 13 ==> t[i] == "<span class=\""[i];
  }

  lemma ItemErased(item: Item, rest: string)
    requires item.Open? ==> !item.class_.CLASS_NONE?
    ensures Erased(Html(item) + rest) == if item.Char? then [item.c as int] + Erased(rest) else Erased(rest)
  {
    hide Erased;
    match item
    case Open(c) =>
      OpenTag(c);
      TagErased(Html(item), rest);
    case Close =>
      TagErased("</span>", rest);
    case Char(c) =>
      EntityErased(c, rest);
  }

  /** Without tags and entities, exactly the characters that were put in are left. */
  lemma {:induction false} RenderErased(items: seq<Item>, rest: string)
    requires Inside(items).Some?
    ensures Erased(Render(items) + rest) == Chars(Painted(items)) + Erased(rest)
  {
    hide Erased, Html;
    if items == [] {
      assert "" + rest == rest;
      assert Chars(Painted(items)) + Erased(rest) == Erased(rest);
    } else {
      var front, last := items[..|items| - 1], items[|items| - 1];
      var more := Html(last) + rest;
      RenderErased(front, more);
      ItemErased(last, rest);
      assert Render(items) + rest == Render(front) + more;
      if last.Char? {
        CharsNext(Painted(front), Glyph(last.c, Inside(front).value));
        assert Chars(Painted(front)) + ([last.c as int] + Erased(rest)) == Chars(Painted(items)) + Erased(rest);
      } else {
        assert Painted(items) == Painted(front);
      }
    }
  }
}
