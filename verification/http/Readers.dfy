/** Reading lines and header texts from a connection, and taking a header text apart. */
module Readers {
  import opened Connections
  import opened Headers
  import opened Octets
  import opened Options

  lemma {:induction false} LineWithoutEnd(l: seq<Octet>)
    requires LF !in l
    ensures Line(l) == l
  {
    if l != [] {
      LineWithoutEnd(l[1..]);
    }
  }

  /** read_line: the line is appended to the stream; only at the end of input can it be incomplete. */
  method ReadLine(stream: seq<Octet>, connection: HTTPConnection) returns (result: nat, stream': seq<Octet>)
    requires connection.Valid()
    modifies connection`inputOffset, connection`inputLength, connection.inputBuffer, connection.s`incoming
    ensures connection.Valid() && connection.Output() == old(connection.Output())
    ensures var input := old(connection.Input());
            var l := Line(input);
            stream' == stream + l && connection.Input() == input[|l|..]
            && result == if IsLine(l) then 0 else connection.s.ending
  {
    stream' := stream;
    ghost var input, l: seq<Octet> := connection.Input(), [];
    while true
      invariant connection.Valid() && connection.Output() == old(connection.Output())
      invariant input == l + connection.Input() && LF !in l && stream' == stream + l
      decreases |connection.Input()|
    {
      ghost var rest := connection.Input();
      var octet;
      result, octet := connection.ReadOctet();
      if result != 0 || octet == -1 {
        assert input == l;
        LineWithoutEnd(l);
        return;
      }
      assert rest == [octet] + connection.Input();
      Move(l, octet, connection.Input());
      l := l + [octet];
      stream' := stream' + [octet];
      if octet == LF {
        LineOfLine(l, connection.Input());
        return;
      }
    }
  }

  lemma Move(l: seq<Octet>, c: Octet, rest: seq<Octet>)
    ensures l + ([c] + rest) == l + [c] + rest
  {
  }

  predicate Continues(input: seq<Octet>)
  {
    input != [] && (input[0] == SP || input[0] == HT)
  }

  /** read_header into an empty stream: a line and the lines that continue it. */
  method ReadHeader(connection: HTTPConnection) returns (result: nat, stream: seq<Octet>)
    requires connection.Valid()
    modifies connection`inputOffset, connection`inputLength, connection.inputBuffer, connection.s`incoming
    ensures connection.Valid() && connection.Output() == old(connection.Output())
    ensures var input := old(connection.Input());
            var text := HeaderText(input);
            if result == 0 then stream == text && connection.Input() == input[|text|..]
            else connection.s.ending != 0 && text == input
  {
    stream := [];
    ghost var input := connection.Input();
    while true
      invariant connection.Valid() && connection.Output() == old(connection.Output())
      invariant input == stream + connection.Input()
      invariant stream != [] ==> HeaderText(input) == stream + Folded(connection.Input()) && Continues(connection.Input())
      decreases |connection.Input()|
    {
      ghost var before, rest := stream, connection.Input();
      result, stream := ReadLine(stream, connection);
      OneMoreLine(input, before, rest);
      if result != 0 {
        return;
      }
      if Blank(stream) {
        break;
      }
      var c;
      result, c := connection.PeekOctet();
      if result != 0 {
        return;
      }
      if c != SP && c != HT {
        break;
      }
    }
  }

  /** What a line adds to a header text. */
  lemma OneMoreLine(input: seq<Octet>, before: seq<Octet>, rest: seq<Octet>)
    requires input == before + rest
    requires before != [] ==> HeaderText(input) == before + Folded(rest) && Continues(rest)
    ensures var l := Line(rest);
            && input == (before + l) + rest[|l|..]
            && (l == [] ==> rest == [])
            && (!IsLine(l) ==> HeaderText(input) == input)
            && HeaderText(input) == if Blank(before + l) then before + l else before + l + Folded(rest[|l|..])
  {
    var l := Line(rest);
    hide Line, IsLine;
    LineIsLineOrAll(rest);
    assert rest == l + rest[|l|..];
    if before == [] {
      assert before + l == l && input == rest;
      if !Blank(l) {
        assert HeaderText(input) == l + Folded(rest[|l|..]);
      }
    } else {
      assert !Blank(before + l) by {
        assert (before + l)[|before|] == rest[0];
      }
      assert Folded(rest) == l + Folded(rest[|l|..]);
    }
  }

  // ----- Header texts, ended by a NUL as in the code -----

  predicate Ended(data: seq<Octet>, text: seq<Octet>)
  {
    data == text + [0] && 0 !in text
  }

  lemma NotAtEnd(data: seq<Octet>, text: seq<Octet>, q: nat)
    requires Ended(data, text) && q <= |text|
    ensures data[q] == 0 <==> q == |text|
    ensures q < |text| ==> data[q] == text[q]
  {
    assert q < |text| ==> text[q] in text;
  }

  lemma OneMoreInToken(text: seq<Octet>, p: nat, q: nat)
    requires p <= q < |text| && IsTokenChar(text[q]) && Token(text[p..]) == text[p..q] + Token(text[q..])
    ensures Token(text[p..]) == text[p..q + 1] + Token(text[q + 1..])
  {
    assert text[q..][1..] == text[q + 1..];
    assert text[p..q] + ([text[q]] + Token(text[q + 1..])) == text[p..q + 1] + Token(text[q + 1..]);
  }

  lemma NoMoreInToken(text: seq<Octet>, q: nat)
    requires q <= |text| && (q < |text| ==> !IsTokenChar(text[q]))
    ensures Token(text[q..]) == []
  {
  }

  method SkipLwsFrom(data: seq<Octet>, p: nat, ghost text: seq<Octet>) returns (q: nat)
    requires Ended(data, text) && p <= |text|
    ensures p <= q <= |text| && SkipLws(text[p..]) == text[q..]
    ensures data[q] == if q == |text| then 0 else text[q]
  {
    q := p;
    while data[q] != 0 && IsLws(data[q])
      invariant p <= q <= |text| && SkipLws(text[p..]) == SkipLws(text[q..])
      decreases |text| - q
    {
      NotAtEnd(data, text, q);
      assert text[q..][1..] == text[q + 1..];
      q := q + 1;
    }
    NotAtEnd(data, text, q);
  }

  /** parse_token; there is none if q == p. */
  method ParseToken(data: seq<Octet>, p: nat, ghost text: seq<Octet>) returns (q: nat)
    requires Ended(data, text) && p <= |text|
    ensures p <= q <= |text| && Token(text[p..]) == text[p..q]
  {
    hide Token;
    q := p;
    assert text[p..q] + Token(text[q..]) == Token(text[p..]);
    while data[q] != 0 && IsTokenChar(data[q])
      invariant p <= q <= |text| && Token(text[p..]) == text[p..q] + Token(text[q..])
      decreases |text| - q
    {
      NotAtEnd(data, text, q);
      OneMoreInToken(text, p, q);
      q := q + 1;
    }
    NotAtEnd(data, text, q);
    NoMoreInToken(text, q);
    assert text[p..q] + [] == text[p..q];
  }

  /** The name ends at p, and what follows the white space after it begins at q. */
  ghost predicate NameThen(text: seq<Octet>, p: nat, q: nat)
  {
    p <= q <= |text| && Token(text) == text[..p] && SkipLws(text[p..]) == text[q..]
  }

  lemma NameAtFront(data: seq<Octet>, text: seq<Octet>, n: nat)
    requires Ended(data, text) && n <= |text|
    ensures text[..n] == data[..n]
  {
  }

  lemma NameIs(text: seq<Octet>, n: nat)
    requires n <= |text| && Token(text[0..]) == text[0..n]
    ensures Token(text) == text[..n]
  {
    assert text[0..] == text;
  }

  lemma NoName(text: seq<Octet>)
    requires Token(text) == []
    ensures ParseHeader(text) == Bad
  {
  }

  lemma NoColon(text: seq<Octet>, p: nat, q: nat)
    requires NameThen(text, p, q) && (q == |text| || text[q] != COLON)
    ensures ParseHeader(text) == Bad
  {
    hide Token, SkipLws, DropLws;
  }

  lemma NoValue(text: seq<Octet>, p: nat, q: nat)
    requires NameThen(text, p, q) && 0 < p <= q < |text| && text[q] == COLON && SkipLws(text[q + 1..]) == []
    ensures ParseHeader(text) == Empty
  {
    hide Token, SkipLws, DropLws;
    assert text[q..][0] == text[q] && text[q..][1..] == text[q + 1..];
  }

  lemma ValueFrom(text: seq<Octet>, p: nat, q: nat, v: nat)
    requires NameThen(text, p, q) && 0 < p <= q < v < |text| && text[q] == COLON && SkipLws(text[q + 1..]) == text[v..]
    ensures ParseHeader(text) == Field(Header(text[..p], DropLws(text[v..])))
    ensures !IsLws(text[v])
  {
    hide Token, SkipLws, DropLws;
    assert text[q..][0] == text[q] && text[q..][1..] == text[q + 1..];
    assert text[v..][0] == text[v];
  }

  /** The value ends before the white space at the end. */
  method ValueEnd(data: seq<Octet>, p: nat, ghost text: seq<Octet>) returns (end: nat)
    requires Ended(data, text) && p < |text| && !IsLws(text[p])
    ensures p <= end < |text| && DropLws(text[p..]) == data[p..end + 1]
  {
    end := |data| - 2;
    assert text[p..end + 1] == text[p..];
    while end > p && IsLws(data[end])
      invariant p <= end < |text| && DropLws(text[p..]) == DropLws(text[p..end + 1])
    {
      assert text[p..end + 1][..end - p] == text[p..end];
      end := end - 1;
    }
    assert data[p..end + 1] == text[p..end + 1];
  }

  /** From the colon on, which is at p, after a name that ends at n. */
  method ParseValue(data: seq<Octet>, name: seq<Octet>, p: nat, ghost text: seq<Octet>, ghost n: nat) returns (r: Parsed)
    requires Ended(data, text) && NameThen(text, n, p) && 0 < n <= p < |text| && text[p] == COLON && name == text[..n]
    ensures r == ParseHeader(text)
  {
    hide Token, SkipLws, DropLws, ParseHeader, NameThen, IsLws;
    var v := SkipLwsFrom(data, p + 1, text);
    NotAtEnd(data, text, v);
    if data[v] == 0 {
      NoValue(text, n, p);
      return Empty;
    }
    ValueFrom(text, n, p, v);
    var end := ValueEnd(data, v, text);
    r := Field(Header(name, data[v..end + 1]));
  }

  /** The part of the reading loop that takes one header text apart. */
  method ParseText(text: seq<Octet>) returns (r: Parsed)
    requires 0 !in text
    ensures r == ParseHeader(text)
  {
    hide Token, SkipLws, DropLws, ParseHeader;
    var data := text + [0];
    var n := ParseToken(data, 0, text);
    NameIs(text, n);
    if n == 0 {
      NoName(text);
      return Bad;
    }
    NameAtFront(data, text, n);
    var name := data[..n];
    var p := SkipLwsFrom(data, n, text);
    NotAtEnd(data, text, p);
    assert NameThen(text, n, p);
    if data[p] != COLON {
      NoColon(text, n, p);
      return Bad;
    }
    r := ParseValue(data, name, p, text, n);
  }
}
