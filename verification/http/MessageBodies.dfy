/** A whole message: its head, and the body that the head announces. */
module MessageBodies {
  import opened ChunkedBodies
  import opened Connections
  import opened Headers
  import opened Messages
  import opened Octets
  import opened Options
  import opened TransferCodings

  function ContentLength(hs: seq<Header>): Option<nat>
  {
    var v := FindHeader(hs, CONTENT_LENGTH);
    if v.None? then None else Length(v.value)
  }

  function Announced(hs: seq<Header>): nat
  {
    if ContentLength(hs).None? then 0 else ContentLength(hs).value
  }

  const IDENTITY: seq<Octet> := [105, 100, 101, 110, 116, 105, 116, 121]

  /** There is a Transfer-Encoding, and it has any value other than identity. */
  predicate Coded(te: Option<seq<Octet>>)
  {
    te.Some? && !SameButCase(te.value, IDENTITY)
  }

  /**
   * Section 4.4 of RFC 2616, rules 2, 3 and 5: with a Transfer-Encoding other than identity, a Content-Length
   * is ignored whatever it is; the body is in chunks if the last coding says so, and ends with the connection if
   * not. Fields with one name, in any case, are joined as section 4.2 says.
   */
  ghost function Meant(fields: seq<Header>, rest: seq<Octet>): Option<Decoded>
  {
    var te, length := AllValues(fields, TRANSFER_ENCODING), AllValues(fields, CONTENT_LENGTH);
    if te.Some? && !IsList(UpToNul(te.value)) then None
    else if Coded(te) then if EndsInChunked(te) then Chunks(rest) else Plain(false, 0, rest)
    else if length.None? then Plain(false, 0, rest)
    else if Length(length.value).None? then None
    else Plain(true, Length(length.value).value, rest)
  }

  /** What the code takes for the body. */
  ghost function AsRead(head: Head): Option<Decoded>
  {
    if BadCoding(head.headers) || BadLength(head.headers) then None
    else if IsChunked(head.headers) then Remaining(false, Announced(head.headers), head.rest)
    else Plain(ContentLength(head.headers).Some?, Announced(head.headers), head.rest)
  }

  /** There is no length, or it is a zero. */
  predicate NoLength(hs: seq<Header>)
  {
    FindHeader(hs, CONTENT_LENGTH).None? || ContentLength(hs) == Some(0)
  }

  /**
   * When a message with a Transfer-Encoding other than identity is read right: what is found of it is accepted,
   * and says like all of it whether the body is chunked; and a length that is found is a number, and 0 if the
   * body is chunked, and otherwise not less than all that comes.
   */
  ghost predicate CodedRight(fields: seq<Header>, rest: seq<Octet>)
  {
    var hs, te := Merged(fields), AllValues(fields, TRANSFER_ENCODING);
    && !BadCoding(hs) && (IsChunked(hs) <==> EndsInChunked(te))
    && (FindHeader(hs, CONTENT_LENGTH).Some? ==>
          ContentLength(hs).Some? && if IsChunked(hs) then ContentLength(hs).value == 0 else ContentLength(hs).value >= |rest|)
  }

  /** The message has no Transfer-Encoding but identity, or is read right with the one it has. */
  ghost predicate ReadRight(fields: seq<Header>, rest: seq<Octet>)
  {
    Coded(AllValues(fields, TRANSFER_ENCODING)) ==> CodedRight(fields, rest)
  }

  /** A message is read as it is meant if and only if it is read right. */
  lemma ReadAsMeant(startLine: seq<Octet>, fields: seq<Header>, rest: seq<Octet>)
    requires Meant(fields, rest).Some?
    ensures AsRead(Head(startLine, Merged(fields), rest)) == Meant(fields, rest) <==> ReadRight(fields, rest)
  {
    hide FindHeader, Length, Chunks, Remaining, AllValues, Merged, IsList, LastIsChunked, UpToNul, SameButCase;
    if Coded(AllValues(fields, TRANSFER_ENCODING)) {
      Overheads(Announced(Merged(fields)), rest);
    } else {
      UncodedFound(fields);
    }
  }

  /** Chunks take more than what is in them, and a length in front of them is not ignored. */
  lemma Overheads(n: nat, rest: seq<Octet>)
    ensures Chunks(rest).Some? ==> |Chunks(rest).value.body| + |Chunks(rest).value.rest| < |rest|
    ensures var r := Remaining(false, n, rest); r.Some? ==> |r.value.body| + |r.value.rest| < |rest|
    ensures Chunks(rest).Some? ==> (Remaining(false, n, rest) == Chunks(rest) <==> n == 0)
  {
    hide Chunks, InChunk;
    LengthNotIgnored(n, rest);
    if Chunks(rest).Some? {
      ChunksShorter(rest);
    }
    if n > 0 && InChunk(n, rest).Some? {
      InChunkShorter(n, rest);
    }
  }

  /** Without a Transfer-Encoding but identity, what is found is what all the fields say. */
  lemma UncodedFound(fields: seq<Header>)
    requires !Coded(AllValues(fields, TRANSFER_ENCODING))
    ensures FindHeader(Merged(fields), TRANSFER_ENCODING) == AllValues(fields, TRANSFER_ENCODING)
    ensures !BadCoding(Merged(fields)) && !IsChunked(Merged(fields))
    ensures var length := AllValues(fields, CONTENT_LENGTH);
            length.None? || Length(length.value).Some? ==> FindHeader(Merged(fields), CONTENT_LENGTH) == length
  {
    hide FindHeader, AllValues, Merged, LastIsChunked, UpToNul, Length;
    var te, length := AllValues(fields, TRANSFER_ENCODING), AllValues(fields, CONTENT_LENGTH);
    if te.Some? {
      IdentityIsToken(te.value);
    }
    OneField(fields, TRANSFER_ENCODING);
    if length.Some? && Length(length.value).Some? {
      NoComma(length.value);
    }
    OneField(fields, CONTENT_LENGTH);
  }

  lemma NoComma(s: seq<Octet>)
    requires Length(s).Some?
    ensures COMMA !in s
  {
    hide Number;
  }

  lemma IdentityIsToken(s: seq<Octet>)
    requires SameButCase(s, IDENTITY)
    ensures COMMA !in s && LastIsChunked(UpToNul(s)) == Some(false)
  {
    forall i | 0 <= i < |s|
      ensures IsTokenChar(s[i]) && s[i] != COMMA && s[i] != 0
    {
      assert Lower(s[i]) == Lower(IDENTITY[i]) && IDENTITY[i] in {105, 100, 101, 110, 116, 121};
    }
    OneTokenRead(s);
  }

  /** A coding without parameters, and white space in front of it. */
  function Bare(w: seq<Octet>, name: seq<Octet>): Coding
  {
    Coding(w, name, [], [])
  }

  lemma BareWritten(w: seq<Octet>, name: seq<Octet>)
    requires IsToken(name) && AllLws(w)
    ensures GoodCoding(Bare(w, name)) && WrittenCoding(Bare(w, name)) == w + name
  {
    hide IsToken, AllLws;
    assert AllLws([]) by { NoSpace(); }
    assert WrittenParameters([]) == [];
    assert name + ([] + []) == name;
  }

  lemma NoSpace()
    ensures AllLws([]) && AllLws([SP])
  {
  }

  lemma ListRead(s: seq<Octet>, cs: seq<Coding>, name: seq<Octet>)
    requires GoodCodings(cs) && s == WrittenCodings(cs) && 0 !in s && cs[|cs| - 1].name == name
    ensures LastIsChunked(UpToNul(s)) == Some(SameButCase(name, CHUNKED)) && IsList(UpToNul(s))
  {
    hide LastIsChunked, UpToNul, SameButCase, GoodCodings, WrittenCodings, IsReading;
    ListIsReading(s, cs);
    CodingsRead(s, cs, []);
  }

  /** A name alone is a list of transfer codings. */
  lemma OneTokenRead(s: seq<Octet>)
    requires IsToken(s) && 0 !in s
    ensures LastIsChunked(UpToNul(s)) == Some(SameButCase(s, CHUNKED)) && IsList(UpToNul(s))
  {
    hide LastIsChunked, UpToNul, IsToken, SameButCase, GoodCoding, WrittenCoding, IsReading, IsList;
    var c := Bare([], s);
    NoSpace();
    BareWritten([], s);
    assert [] + s == s;
    assert WrittenCodings([c]) == s + [] == s;
    ListRead(s, [c], s);
  }

  /** Two names with a comma between them. */
  lemma TwoTokensRead(first: seq<Octet>, second: seq<Octet>)
    requires IsToken(first) && IsToken(second) && 0 !in first && 0 !in second
    ensures var te := first + [COMMA, SP] + second;
            IsList(UpToNul(te)) && LastIsChunked(UpToNul(te)) == Some(SameButCase(second, CHUNKED))
  {
    hide LastIsChunked, UpToNul, IsToken, SameButCase, GoodCoding, WrittenCoding, WrittenCodings, IsReading, IsList;
    var te := first + [COMMA, SP] + second;
    var c, d := Bare([], first), Bare([SP], second);
    NoSpace();
    BareWritten([], first);
    BareWritten([SP], second);
    TwoWritten(c, d);
    TwoParts(first, second);
    ListRead(te, [c, d], second);
  }

  lemma TwoParts(first: seq<Octet>, second: seq<Octet>)
    ensures ([] + first) + ([COMMA] + ([SP] + second)) == first + [COMMA, SP] + second
    ensures 0 !in first && 0 !in second ==> 0 !in first + [COMMA, SP] + second
  {
  }

  lemma TwoWritten(c: Coding, d: Coding)
    ensures WrittenCodings([c, d]) == WrittenCoding(c) + ([COMMA] + WrittenCoding(d))
  {
    hide WrittenCoding;
    assert [c, d][1..] == [d] && WrittenCoding(d) + [] == WrittenCoding(d);
  }

  /** If all values joined have no comma in them, there is one field with the name, or none. */
  lemma {:induction false} OneField(fields: seq<Header>, name: seq<Octet>)
    ensures AllValues(fields, name).None? || COMMA !in AllValues(fields, name).value ==>
      FindHeader(Merged(fields), name) == AllValues(fields, name)
  {
    hide FindHeader, Merged, AllValues, SameButCase;
    MergedMeaning(fields, name);
    AloneIsAlike(fields, name);
  }

  lemma {:induction false} AloneIsAlike(fields: seq<Header>, name: seq<Octet>)
    ensures AllValues(fields, name).None? <==> forall i :: 0 <= i < |fields| ==> !SameButCase(fields[i].name, name)
    ensures AllValues(fields, name).Some? && COMMA !in AllValues(fields, name).value ==> SpelledAlike(fields, name)
  {
    hide SameButCase;
    if fields != [] {
      var n := |fields| - 1;
      AloneIsAlike(fields[..n], name);
      assert forall i :: 0 <= i < n ==> fields[..n][i] == fields[i];
      if SameButCase(fields[n].name, name) && AllValues(fields[..n], name).Some? {
        assert AllValues(fields, name).value[|AllValues(fields[..n], name).value|] == COMMA;
      }
    }
  }

  /** If all Transfer-Encoding fields are spelled alike, being read right is a matter of the length alone. */
  lemma WhenSpelledAlike(fields: seq<Header>, rest: seq<Octet>)
    requires SpelledAlike(fields, TRANSFER_ENCODING) && Meant(fields, rest).Some?
    ensures var hs := Merged(fields);
            CodedRight(fields, rest) <==>
            FindHeader(hs, CONTENT_LENGTH).None?
            || (ContentLength(hs).Some? && if IsChunked(hs) then ContentLength(hs).value == 0 else ContentLength(hs).value >= |rest|)
  {
    hide FindHeader, AllValues, Merged, LastIsChunked, UpToNul, Length, Chunks, SameButCase, IsList, BeginsWithList;
    MergedMeaning(fields, TRANSFER_ENCODING);
    var te := AllValues(fields, TRANSFER_ENCODING);
    if te.Some? {
      WhenAccepted(UpToNul(te.value));
    }
  }

  /** What the octets of a message mean, if they are one. */
  ghost function MeaningOf(input: seq<Octet>): Option<Decoded>
  {
    if ReadHead(input).None? || FieldsBehind(input).None? then None
    else Meant(FieldsBehind(input).value.fields, FieldsBehind(input).value.rest)
  }

  ghost predicate ReadsRight(input: seq<Octet>)
  {
    FieldsBehind(input).Some? ==> ReadRight(FieldsBehind(input).value.fields, FieldsBehind(input).value.rest)
  }

  lemma WhatIsRead(input: seq<Octet>)
    ensures MeaningOf(input).Some? ==>
      ReadHead(input).Some? && (AsRead(ReadHead(input).value) == MeaningOf(input) <==> ReadsRight(input))
  {
    hide ReadHead, FieldsBehind, Merged, Meant, ReadRight, AsRead;
    if MeaningOf(input).Some? {
      HeadIsMerged(input);
      var f := FieldsBehind(input).value;
      ReadAsMeant(ReadHead(input).value.startLine, f.fields, f.rest);
    }
  }

  /**
   * The start line, the headers and the whole body. On a connection that does not fail, a message that means
   * something is read as it is meant exactly if its fields are such that it is read right.
   */
  method ReadMessage(m: HTTPMessage) returns (result: int, body: seq<Octet>)
    requires m.Valid() && !m.isChunked && !m.hasContentLength && m.bytesRemaining == 0 && m.state == CHUNK_SIZE
    modifies m, m.connection`inputOffset, m.connection`inputLength, m.connection.inputBuffer, m.connection.s`incoming
    ensures m.Valid() && m.connection.Output() == old(m.connection.Output())
    ensures var head := ReadHead(old(m.connection.Input()));
            if result != 0 then
              head.None? || (m.connection.s.ending != 0 && head.value.rest == [])
              || Fails(AsRead(head.value), m.connection.s.ending)
            else
              head.Some? && head.value.startLine == m.startLine && head.value.headers == m.headers
              && AsRead(head.value) == Some(Decoded(body, m.connection.Input()))
    ensures m.connection.s.ending == 0 && MeaningOf(old(m.connection.Input())).Some? ==>
              ((result == 0 && MeaningOf(old(m.connection.Input())) == Some(Decoded(body, m.connection.Input())))
               <==> ReadsRight(old(m.connection.Input())))
  {
    hide ReadHead, FieldsBehind, FindHeader, AllValues, Merged, Length, Distinct, Chunks, InChunk, Plain, MeaningOf, ReadsRight,
         AsRead, IsChunked, BadCoding, BadLength;
    ghost var input := m.connection.Input();
    ghost var head := ReadHead(input);
    WhatIsRead(input);
    body := [];
    result := m.ReadStartLineAndHeaders();
    if result == 0 {
      PendingIsRead(m, head.value);
      result, body := m.ReadEntireEntityBody([]);
      assert forall b: seq<Octet> :: [] + b == b;
    } else if head.Some? {
      RefusedIsNone(head.value);
    }
  }

  lemma PendingIsRead(m: HTTPMessage, head: Head)
    requires m.Valid() && head == Head(m.startLine, m.headers, m.connection.Input()) && m.state == CHUNK_SIZE
    requires !BadLength(head.headers) && !BadCoding(head.headers)
    requires m.hasContentLength == FindHeader(head.headers, CONTENT_LENGTH).Some?
    requires m.bytesRemaining == if m.hasContentLength then Length(FindHeader(head.headers, CONTENT_LENGTH).value).value else 0
    requires m.isChunked == IsChunked(head.headers)
    ensures m.Pending() == AsRead(head)
  {
    hide FindHeader, Length, Chunks, InChunk, Distinct, LastIsChunked, UpToNul;
  }

  lemma RefusedIsNone(head: Head)
    ensures BadLength(head.headers) || BadCoding(head.headers) ==> AsRead(head).None?
  {
  }

  /** So a chunked message sent with a length is read as it was sent exactly if the length is zero. */
  lemma ChunkedMessage(startLine: seq<Octet>, hs: seq<Header>, chunks: seq<Chunk>, last: seq<Octet>, rest: seq<Octet>)
    requires IsStartLine(startLine) && Distinct(hs) && AllWritable(hs) && AllTrimmed(hs)
    requires (forall i :: 0 <= i < |chunks| ==> WellFormed(chunks[i])) && SizeLine(last, 0)
    requires IsChunked(SetHeader(hs, Header(CONNECTION, CLOSE)))
    ensures var hs' := SetHeader(hs, Header(CONNECTION, CLOSE));
            var head := ReadHead(WrittenHead(startLine, hs) + (Encoded(chunks, last) + rest));
            && head == Some(Head(startLine, hs', Encoded(chunks, last) + rest))
            && (AsRead(head.value) == Some(Decoded(Body(chunks), rest)) <==> NoLength(hs'))
  {
    hide ReadHead, WrittenHead, FindHeader, Length, IsStartLine, Distinct, Chars, AllWritable, AllTrimmed, SetHeader, Chunks, Encoded,
         Remaining, SizeLine, WellFormed, NoLength, AsRead;
    HeadRoundTrip(startLine, hs, Encoded(chunks, last) + rest);
    DecodesEncoded(chunks, last, rest);
    LengthNotIgnored(Announced(SetHeader(hs, Header(CONNECTION, CLOSE))), Encoded(chunks, last) + rest);
    ChunkedAsRead(Head(startLine, SetHeader(hs, Header(CONNECTION, CLOSE)), Encoded(chunks, last) + rest));
  }

  lemma ChunkedAsRead(head: Head)
    requires IsChunked(head.headers)
    ensures AsRead(head) == if BadLength(head.headers) then None else Remaining(false, Announced(head.headers), head.rest)
    ensures BadLength(head.headers) ==> !NoLength(head.headers)
    ensures NoLength(head.headers) <==> !BadLength(head.headers) && Announced(head.headers) == 0
  {
    hide FindHeader, Length, Remaining, LastIsChunked, UpToNul;
  }

  // ----- Messages for which it is not zero, or that are coded otherwise -----

  lemma ZeroLine(l: seq<Octet>)
    requires l == [48, CR, LF]
    ensures SizeLine(l, 0)
  {
    DigitsAre(l, [0]);
    NumberNext([], 0, 16);
  }

  lemma LengthOne(s: seq<Octet>)
    requires s == [49]
    ensures Length(s) == Some(1)
  {
    hide Number;
    assert IsDecimal(s) && Values(s) == [] + [1];
    NumberOne([], 10);
  }

  lemma NumberOne(nothing: seq<nat>, base: nat)
    requires nothing == []
    ensures Number(nothing + [1], base) == 1
  {
    NumberNext(nothing, 1, base);
  }

  /** Two fields with names that differ in more than case. */
  lemma TwoFields(fields: seq<Header>, coding: seq<Octet>)
    requires fields == [Header(TRANSFER_ENCODING, coding), Header(CONTENT_LENGTH, [49])]
    ensures Merged(fields) == fields
    ensures FindHeader(fields, TRANSFER_ENCODING) == AllValues(fields, TRANSFER_ENCODING) == Some(coding)
    ensures FindHeader(fields, CONTENT_LENGTH) == AllValues(fields, CONTENT_LENGTH) == Some([49])
  {
    assert |TRANSFER_ENCODING| == 17 && |CONTENT_LENGTH| == 14;
    hide Chars;
    var first, second := fields[0], fields[1];
    assert fields[..1] == [first] && [first][..0] == [] && [first][1..] == [];
    assert fields[1..] == [second];
    assert Merged([first]) == [first] && AddHeader([first], second) == [first] + AddHeader([], second);
    assert AllValues([first], TRANSFER_ENCODING) == Some(coding) && AllValues([first], CONTENT_LENGTH) == None;
  }

  lemma ChunkedIsChunked()
    ensures LastIsChunked(UpToNul(CHUNKED)) == Some(true) && IsList(UpToNul(CHUNKED))
  {
    hide LastIsChunked, UpToNul;
    assert forall i :: 0 <= i < |CHUNKED| ==> CHUNKED[i] in {99, 104, 117, 110, 107, 101, 100};
    assert IsToken(CHUNKED) && 0 !in CHUNKED;
    OneTokenRead(CHUNKED);
  }

  /** With "chunked x" as its transfer coding, a message without a length is read as one that is not chunked: up to the end. */
  lemma ChunkedAndMoreIsPlain(head: Head, value: seq<Octet>)
    requires value == CHUNKED + [SP, 120]
    requires FindHeader(head.headers, TRANSFER_ENCODING) == Some(value) && FindHeader(head.headers, CONTENT_LENGTH).None?
    ensures !IsList(value) && AsRead(head) == Some(Decoded(head.rest, []))
  {
    hide LastIsChunked, UpToNul, FindHeader;
    ChunkedAndMore(value);
    assert 0 !in value;
  }

  /** An empty chunked body announced with a length of one: the zero that ends it is taken for its only octet. */
  lemma EmptyBodyNotEmpty(startLine: seq<Octet>)
    ensures var fields := [Header(TRANSFER_ENCODING, CHUNKED), Header(CONTENT_LENGTH, [49])];
            var rest := [48, CR, LF, 48, CR, LF];
            Meant(fields, rest) == Some(Decoded([], [48, CR, LF]))
            && AsRead(Head(startLine, Merged(fields), rest)) == Some(Decoded([48], []))
  {
    hide FindHeader, AllValues, Merged, Length, Chunks, InChunk, SizeLine, Chars, LastIsChunked, UpToNul, IsList;
    var fields := [Header(TRANSFER_ENCODING, CHUNKED), Header(CONTENT_LENGTH, [49])];
    TwoFields(fields, CHUNKED);
    ChunkedIsChunked();
    assert |CHUNKED| != |IDENTITY|;
    LengthOne([49]);
    TwoZeros([48, CR, LF], [48, CR, LF, 48, CR, LF]);
  }

  const GZIP: seq<Octet> := [103, 122, 105, 112]

  lemma GzipIsCoded()
    ensures IsList(UpToNul(GZIP)) && LastIsChunked(UpToNul(GZIP)) == Some(false) && !SameButCase(GZIP, IDENTITY)
  {
    hide UpToNul, LastIsChunked;
    assert forall i :: 0 <= i < |GZIP| ==> GZIP[i] in {103, 122, 105, 112};
    assert IsToken(GZIP) && 0 !in GZIP;
    OneTokenRead(GZIP);
  }

  /** With the coding gzip and a length of one, one octet is read of a body that goes to the end of the connection. */
  lemma GzipCutShort(startLine: seq<Octet>, rest: seq<Octet>)
    requires |rest| > 1
    ensures var fields := [Header(TRANSFER_ENCODING, GZIP), Header(CONTENT_LENGTH, [49])];
            Meant(fields, rest) == Some(Decoded(rest, []))
            && AsRead(Head(startLine, Merged(fields), rest)) == Some(Decoded(rest[..1], rest[1..]))
  {
    hide FindHeader, AllValues, Merged, Length, Chars, LastIsChunked, UpToNul, IsList, SameButCase;
    TwoFields([Header(TRANSFER_ENCODING, GZIP), Header(CONTENT_LENGTH, [49])], GZIP);
    GzipIsCoded();
    LengthOne([49]);
  }

  const LOWER_CASE: seq<Octet> := Chars("transfer-encoding")

  lemma TwoSpellings()
    ensures TRANSFER_ENCODING != LOWER_CASE && SameButCase(TRANSFER_ENCODING, LOWER_CASE)
  {
    var s, t := "Transfer-Encoding", "transfer-encoding";
    assert TRANSFER_ENCODING[0] == 84 && LOWER_CASE[0] == 116;
    assert TRANSFER_ENCODING[9] == 69 && LOWER_CASE[9] == 101;
    forall i | 0 <= i < 17
      ensures Lower(TRANSFER_ENCODING[i]) == Lower(LOWER_CASE[i])
    {
      assert i != 0 && i != 9 ==> s[i] == t[i];
    }
  }

  /** Of two fields whose names are spelled differently the first one counts alone: the chunks are not looked for. */
  lemma SecondCodingLost(startLine: seq<Octet>, rest: seq<Octet>)
    requires Chunks(rest).Some?
    ensures var fields := [Header(TRANSFER_ENCODING, GZIP), Header(LOWER_CASE, CHUNKED)];
            Meant(fields, rest) == Chunks(rest)
            && AsRead(Head(startLine, Merged(fields), rest)) == Some(Decoded(rest, []))
  {
    hide Length, Chars, LastIsChunked, UpToNul, IsList, Chunks, SameButCase;
    var first, second := Header(TRANSFER_ENCODING, GZIP), Header(LOWER_CASE, CHUNKED);
    TwoSpellings();
    SecondSpellingLost(first, second);
    NoSuchHeader(first, second);
    GzipIsCoded();
    GzipChunked();
    hide FindHeader, AllValues, Merged;
    AlikeToAll([first, second], TRANSFER_ENCODING, LOWER_CASE);
    AlikeFound([first, second], TRANSFER_ENCODING, LOWER_CASE);
  }

  lemma NoSuchHeader(first: Header, second: Header)
    requires first.name == TRANSFER_ENCODING && second.name == LOWER_CASE
    ensures FindHeader([first, second], CONTENT_LENGTH).None?
  {
    assert |TRANSFER_ENCODING| == 17 && |LOWER_CASE| == 17 && |CONTENT_LENGTH| == 14;
    hide Chars;
    assert !SameButCase(first.name, CONTENT_LENGTH) && !SameButCase(second.name, CONTENT_LENGTH);
    assert [first, second][1..] == [second] && [second][1..] == [];
    assert FindHeader([second], CONTENT_LENGTH).None?;
  }

  /** A name stands for all that are the same but for case. */
  lemma {:induction false} AlikeToAll(fields: seq<Header>, name: seq<Octet>, other: seq<Octet>)
    requires SameButCase(name, other)
    ensures AllValues(fields, name) == AllValues(fields, other)
  {
    if fields != [] {
      AlikeToAll(fields[..|fields| - 1], name, other);
    }
  }

  lemma {:induction false} AlikeFound(hs: seq<Header>, name: seq<Octet>, other: seq<Octet>)
    requires SameButCase(name, other)
    ensures FindHeader(hs, name) == FindHeader(hs, other)
  {
    if hs != [] {
      AlikeFound(hs[1..], name, other);
    }
  }

  lemma GzipChunked()
    ensures var te := GZIP + [COMMA, SP] + CHUNKED;
            IsList(UpToNul(te)) && LastIsChunked(UpToNul(te)) == Some(true) && !SameButCase(te, IDENTITY)
  {
    hide UpToNul, LastIsChunked;
    assert forall i :: 0 <= i < |GZIP| ==> GZIP[i] in {103, 122, 105, 112};
    assert forall i :: 0 <= i < |CHUNKED| ==> CHUNKED[i] in {99, 104, 117, 110, 107, 101, 100};
    assert IsToken(GZIP) && IsToken(CHUNKED) && 0 !in GZIP && 0 !in CHUNKED;
    TwoTokensRead(GZIP, CHUNKED);
    assert |GZIP + [COMMA, SP] + CHUNKED| == 13;
  }

  lemma TwoZeros(zero: seq<Octet>, input: seq<Octet>)
    requires zero == [48, CR, LF] && input == [48, CR, LF, 48, CR, LF]
    ensures Chunks(input) == Some(Decoded([], zero)) && InChunk(1, input) == Some(Decoded([48], []))
  {
    hide Chunks, InChunk, SizeLine;
    ZeroLine(zero);
    DecodesLast(zero, zero);
    DecodesLast(zero, []);
    LastInChunk(48, CR, LF, zero);
    assert input == zero + zero == [48] + ([CR] + ([LF] + zero)) && zero == zero + [];
    assert [48] + [] == [48];
  }
}
