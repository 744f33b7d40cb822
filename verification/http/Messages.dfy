/** HTTP messages: reading and writing the start line and headers, and reading the body. */
module Messages {
  import opened ChunkedBodies
  import opened Connections
  import opened Headers
  import opened Octets
  import opened Options
  import opened Readers
  import opened TransferCodings

  function Chars(s: string): seq<Octet>
    requires forall i :: 0 <= i < |s| ==> s[i] < 256 as char
  {
    seq(|s|, i requires 0 <= i < |s| => s[i] as int)
  }

  const CONNECTION: seq<Octet> := Chars("Connection")
  const CLOSE: seq<Octet> := Chars("close")
  const CONTENT_LENGTH: seq<Octet> := Chars("Content-Length")
  const TRANSFER_ENCODING: seq<Octet> := Chars("Transfer-Encoding")

  // ----- Header values -----

  predicate IsDecimal(s: seq<Octet>)
  {
    forall i :: 0 <= i < |s| ==> 48 <= s[i] <= 57
  }

  function Values(s: seq<Octet>): seq<nat>
    requires IsDecimal(s)
  {
    seq(|s|, i requires 0 <= i < |s| => s[i] - 48)
  }

  /** A length is a decimal number that a size_t can hold. */
  function Length(s: seq<Octet>): (n: Option<nat>)
    ensures n.Some? ==> n.value <= SIZE_MAX
  {
    if IsDecimal(s) && Number(Values(s), 10) <= SIZE_MAX then Some(Number(Values(s), 10)) else None
  }

  lemma LengthTooBig(s: seq<Octet>, i: nat)
    requires i < |s| && IsDecimal(s[..i + 1]) && Number(Values(s[..i + 1]), 10) > SIZE_MAX
    ensures Length(s).None?
  {
    if IsDecimal(s) {
      assert Values(s) == Values(s[..i + 1]) + Values(s[i + 1..]);
      NumberGrows(Values(s[..i + 1]), Values(s[i + 1..]), 10);
    }
  }

  method ReadLength(contentLength: seq<Octet>) returns (r: Option<nat>)
    ensures r == Length(contentLength)
  {
    var value: nat := 0;
    var i := 0;
    while i < |contentLength|
      invariant i <= |contentLength| && IsDecimal(contentLength[..i]) && value == Number(Values(contentLength[..i]), 10) <= SIZE_MAX
    {
      var digit := contentLength[i];
      ghost var done := Values(contentLength[..i]);
      if SIZE_MAX / 10 < value {
        if 48 <= digit <= 57 {
          assert Values(contentLength[..i + 1]) == done + [digit - 48];
          NumberNext(done, digit - 48, 10);
          LengthTooBig(contentLength, i);
        }
        return None;
      }
      if digit < 48 || digit > 57 {
        return None;
      }
      assert Values(contentLength[..i + 1]) == done + [digit - 48];
      NumberNext(done, digit - 48, 10);
      if SIZE_MAX - (digit - 48) < value * 10 {
        LengthTooBig(contentLength, i);
        return None;
      }
      value := value * 10 + (digit - 48);
      i := i + 1;
    }
    assert contentLength[..i] == contentLength;
    r := Some(value);
  }

  // ----- A message without its body -----

  datatype Head = Head(startLine: seq<Octet>, headers: seq<Header>, rest: seq<Octet>)

  function ReadHead(input: seq<Octet>): Option<Head>
  {
    var l := Line(input);
    if 0 in l then None
    else match Headers.Headers(input[|l|..], [])
      case None => None
      case Some(r) => Some(Head(l, r.headers, r.rest))
  }

  /** The fields behind the start line. */
  function FieldsBehind(input: seq<Octet>): Option<Fields>
  {
    FieldsOf(input[|Line(input)|..])
  }

  lemma HeadIsMerged(input: seq<Octet>)
    requires ReadHead(input).Some?
    ensures var head := ReadHead(input).value;
            var f := FieldsBehind(input);
            f.Some? && head.headers == Merged(f.value.fields) && head.rest == f.value.rest
  {
    hide Headers.Headers, FieldsOf, Merged, Line;
    var l := Line(input);
    HeadersAreMerged(input[|l|..], []);
    NothingMerged();
    assert forall fields: seq<Header> :: [] + fields == fields;
  }

  lemma NothingMerged()
    ensures Merged([]) == []
  {
  }

  predicate IsStartLine(l: seq<Octet>)
  {
    IsLine(l) && 0 !in l && |l| >= 2 && l[|l| - 2] == CR
  }

  function WrittenHead(startLine: seq<Octet>, hs: seq<Header>): seq<Octet>
  {
    startLine + Written(SetHeader(hs, Header(CONNECTION, CLOSE)))
  }

  ghost predicate AllWritable(hs: seq<Header>)
  {
    forall i :: 0 <= i < |hs| ==> Writable(hs[i])
  }

  lemma {:induction false} SetKeepsWritable(hs: seq<Header>, h: Header)
    requires AllWritable(hs) && Writable(h)
    ensures AllWritable(SetHeader(hs, h))
  {
    hide Writable;
    if hs != [] {
      assert Writable(hs[0]);
      assert AllWritable(hs[1..]);
      SetKeepsWritable(hs[1..], h);
    }
  }

  lemma {:induction false} SetKeepsTrimmed(hs: seq<Header>, h: Header)
    requires AllTrimmed(hs) && Trimmed(h.value)
    ensures AllTrimmed(SetHeader(hs, h))
  {
    hide Trimmed;
    if hs != [] {
      assert Trimmed(hs[0].value);
      assert AllTrimmed(hs[1..]);
      SetKeepsTrimmed(hs[1..], h);
    }
  }

  lemma ConnectionClose()
    ensures Writable(Header(CONNECTION, CLOSE)) && Trimmed(CLOSE)
  {
    assert CONNECTION[0] == 67;
    assert forall i :: 0 <= i < |CONNECTION| ==> CONNECTION[i] in {67, 111, 110, 101, 99, 116, 105};
    assert forall i :: 0 <= i < |CLOSE| ==> CLOSE[i] in {99, 108, 111, 115, 101};
  }

  /**
   * What has been written is read back, with Connection: close among the headers: whatever follows,
   * however the octets arrive, and with the same headers unless a value is empty or not trimmed.
   */
  lemma HeadRoundTrip(startLine: seq<Octet>, hs: seq<Header>, rest: seq<Octet>)
    requires IsStartLine(startLine) && Distinct(hs) && AllWritable(hs)
    ensures var hs' := SetHeader(hs, Header(CONNECTION, CLOSE));
            ReadHead(WrittenHead(startLine, hs) + rest) == Some(Head(startLine, Normal(hs'), rest))
            && (AllTrimmed(hs) ==> Normal(hs') == hs')
  {
    hide Written, Headers.Headers, Normal, Writable, SetHeader, Trimmed, IsLine, Line, Chars, Distinct;
    var close := Header(CONNECTION, CLOSE);
    var hs' := SetHeader(hs, close);
    ConnectionClose();
    SetKeepsDistinct(hs, close);
    SetKeepsWritable(hs, close);
    assert [] + hs' == hs' && [] + Normal(hs') == Normal(hs');
    ReadsWritten(hs', rest, []);
    AfterStartLine(startLine, Written(hs'), rest);
    NormalUnchanged(hs');
    if AllTrimmed(hs) {
      SetKeepsTrimmed(hs, close);
    }
  }

  lemma AfterStartLine(l: seq<Octet>, s: seq<Octet>, rest: seq<Octet>)
    requires IsLine(l)
    ensures Line((l + s) + rest) == l && ((l + s) + rest)[|l|..] == s + rest
  {
    LineOfLine(l, s + rest);
    assert (l + s) + rest == l + (s + rest);
  }

  /** A body that is not chunked, with a length or without. */
  function Plain(hasLength: bool, n: nat, input: seq<Octet>): Option<Decoded>
  {
    if hasLength && n < |input| then Some(Decoded(input[..n], input[n..])) else Some(Decoded(input, []))
  }

  lemma NextOctet(hasLength: bool, n: nat, c: Octet, input: seq<Octet>)
    requires hasLength ==> n > 0
    ensures Plain(hasLength, n, [c] + input) == Prepended([c], Plain(hasLength, if hasLength then n - 1 else 0, input))
    ensures !hasLength ==> forall m: nat :: Plain(hasLength, m, input) == Plain(hasLength, 0, input)
  {
    if hasLength && n < |[c] + input| {
      assert ([c] + input)[..n] == [c] + input[..n - 1];
      assert ([c] + input)[n..] == input[n - 1..];
    }
  }

  lemma LengthReached(input: seq<Octet>)
    ensures Plain(true, 0, input) == Some(Decoded([], input))
  {
  }

  // ----- Messages -----

  datatype ChunkedBodyState = CHUNK_SIZE | CHUNK_DATA | TRAILER | DONE

  class HTTPMessage {
    const connection: HTTPConnection
    var startLine: seq<Octet>
    var headers: seq<Header>
    var hasContentLength: bool
    var isChunked: bool
    var bytesRemaining: nat
    var state: ChunkedBodyState
    var chunkBuffer: seq<Octet>
    var isStarted: bool

    ghost predicate Valid()
      reads this, connection, connection.s
    {
      connection.Valid() && Distinct(headers) && bytesRemaining <= SIZE_MAX
    }

    constructor (connection: HTTPConnection)
      requires connection.Valid()
      ensures Valid() && this.connection == connection && headers == []
      ensures !hasContentLength && !isChunked && bytesRemaining == 0 && state == CHUNK_SIZE && !isStarted
    {
      this.connection := connection;
      startLine, headers := [], [];
      hasContentLength, isChunked, bytesRemaining, state, chunkBuffer := false, false, 0, CHUNK_SIZE, [];
      isStarted := false;
    }

    method AddHeaderTo(name: seq<Octet>, value: seq<Octet>)
      requires Valid()
      modifies this`headers
      ensures Valid() && headers == AddHeader(old(headers), Header(name, value))
    {
      ghost var hs, h := headers, Header(name, value);
      AddKeepsDistinct(hs, h);
      var i := 0;
      while i < |headers| && headers[i].name != name
        invariant i <= |hs| && !HasName(hs[..i], name)
        modifies {}
      {
        PassName(hs, i, name);
        i := i + 1;
      }
      if i < |headers| {
        AddAt(hs, i, h);
        headers := headers[i := Header(name, headers[i].value + [COMMA, SP] + value)];
      } else {
        assert hs[..i] == hs;
        AddNew(hs, h);
        headers := headers + [Header(name, value)];
      }
    }

    method SetHeaderIn(name: seq<Octet>, value: seq<Octet>)
      requires Valid()
      modifies this`headers
      ensures Valid() && headers == SetHeader(old(headers), Header(name, value))
    {
      ghost var hs, h := headers, Header(name, value);
      SetKeepsDistinct(hs, h);
      var i := 0;
      while i < |headers| && headers[i].name != name
        invariant i <= |hs| && !HasName(hs[..i], name)
        modifies {}
      {
        PassName(hs, i, name);
        i := i + 1;
      }
      if i < |headers| {
        SetAt(hs, i, h);
        headers := headers[i := Header(name, value)];
      } else {
        assert hs[..i] == hs;
        AddNew(hs, h);
        SetNew(hs, h);
        AddHeaderTo(name, value);
      }
    }

    method ReadStartLineAndHeaders() returns (result: int)
      requires Valid() && !isChunked && !hasContentLength
      modifies this, connection`inputOffset, connection`inputLength, connection.inputBuffer, connection.s`incoming
      ensures Valid() && connection.Output() == old(connection.Output())
      ensures state == old(state) && isStarted == old(isStarted)
      ensures var r := ReadHead(old(connection.Input()));
              if result != 0 then
                r.None? || (connection.s.ending != 0 && r.value.rest == [])
                || BadLength(r.value.headers) || BadCoding(r.value.headers)
              else
                r == Some(Head(startLine, headers, connection.Input()))
                && !BadLength(headers) && !BadCoding(headers)
                && hasContentLength == FindHeader(headers, CONTENT_LENGTH).Some?
                && bytesRemaining == (if hasContentLength then Length(FindHeader(headers, CONTENT_LENGTH).value).value
                                      else old(bytesRemaining))
                && isChunked == IsChunked(headers)
    {
      hide ReadHead, FindHeader, Length, Distinct, Chars, BadCoding, IsChunked;
      result := ReadHeadLines();
      if result != 0 {
        return;
      }
      var contentLength := FindHeader(headers, CONTENT_LENGTH);
      if contentLength.Some? {
        var n := ReadLength(contentLength.value);
        if n.None? {
          return -1;
        }
        bytesRemaining, hasContentLength := n.value, true;
      }
      result := ReadCoding();
    }

    /** The transfer codings, of which the last one counts. */
    method ReadCoding() returns (result: int)
      requires Valid() && !isChunked
      modifies this`isChunked, this`chunkBuffer
      ensures Valid() && if result != 0 then BadCoding(headers) else !BadCoding(headers) && isChunked == IsChunked(headers)
    {
      hide FindHeader, Distinct, Chars, LastIsChunked, UpToNul;
      result := 0;
      var transferEncoding := FindHeader(headers, TRANSFER_ENCODING);
      if transferEncoding.Some? {
        var chunked;
        result, chunked := ScanTransferEncoding(transferEncoding.value);
        if result == 0 && chunked {
          isChunked, chunkBuffer := true, [];
        }
      }
    }

    /** Up to the blank line after the headers. */
    method ReadHeadLines() returns (result: int)
      requires Valid()
      modifies this`startLine, this`headers, connection`inputOffset, connection`inputLength, connection.inputBuffer, connection.s`incoming
      ensures Valid() && connection.Output() == old(connection.Output())
      ensures var r := ReadHead(old(connection.Input()));
              if result != 0 then r.None? || (connection.s.ending != 0 && r.value.rest == [])
              else r == Some(Head(startLine, headers, connection.Input()))
    {
      hide Headers.Headers, IsLine, Line, Distinct;
      ghost var input := connection.Input();
      var read, stream := ReadLine([], connection);
      assert stream == Line(input);
      if read != 0 {
        HeadOfUnfinished(input);
        return -1;
      }
      if 0 in stream {
        return -1;
      }
      startLine := stream;
      headers := [];
      assert Distinct(headers) by { NoHeaders(); }
      ghost var rest := connection.Input();
      var more := true;
      result := 0;
      while more
        invariant Valid() && connection.Output() == old(connection.Output()) && result == 0 && startLine == stream
        invariant Headers.Headers(rest, [])
               == if more then Headers.Headers(connection.Input(), headers) else Some(Read(headers, connection.Input()))
        decreases |connection.Input()|, more
      {
        result, more := ReadNextHeader();
        if result != 0 {
          return;
        }
      }
    }

    /** One turn of the loop; at the blank line there are no more. */
    method ReadNextHeader() returns (result: int, more: bool)
      requires Valid()
      modifies this`headers, connection`inputOffset, connection`inputLength, connection.inputBuffer, connection.s`incoming
      ensures Valid() && connection.Output() == old(connection.Output())
      ensures var input := old(connection.Input());
              var r := Headers.Headers(input, old(headers));
              if result != 0 then r.None? || (connection.s.ending != 0 && r.value.rest == [])
              else if more then r == Headers.Headers(connection.Input(), headers) && |connection.Input()| < |input|
              else r == Some(Read(headers, connection.Input())) && |connection.Input()| <= |input|
    {
      hide HeaderText, ParseHeader, AddHeader, Distinct;
      result, more := 0, true;
      ghost var input := connection.Input();
      var read, stream := ReadHeader(connection);
      if read != 0 {
        HeadersOfUnfinished(input, headers);
        return -1, false;
      }
      if Blank(stream) {
        return 0, false;
      }
      if 0 in stream {
        return -1, false;
      }
      var parsed := ParseText(stream);
      if parsed.Bad? {
        return -1, false;
      }
      if parsed.Field? {
        AddHeaderTo(parsed.header.name, parsed.header.value);
      }
    }

    method WriteStartLineAndHeaders() returns (result: nat)
      requires Valid() && IsStartLine(startLine)
      modifies this`headers, this`isStarted, connection`outputLength, connection.outputBuffer, connection.s`sent, connection.s`sendErrors
      ensures Valid() && isStarted && connection.Input() == old(connection.Input())
      ensures if old(isStarted) then result == 0 && headers == old(headers) && connection.Output() == old(connection.Output())
              else result == 0 ==>
                headers == SetHeader(old(headers), Header(CONNECTION, CLOSE))
                && connection.Output() == old(connection.Output()) + WrittenHead(startLine, old(headers))
    {
      hide SetHeader, Written, Distinct, IsLine, Chars;
      result := 0;
      if isStarted {
        return;
      }
      isStarted := true;
      ghost var out := connection.Output();
      ghost var k;
      result, k := connection.Write(startLine);
      if result != 0 {
        return;
      }
      assert startLine[..k] == startLine;
      SetHeaderIn(CONNECTION, CLOSE);
      result := WriteHeaders();
      assert out + startLine + Written(headers) == out + (startLine + Written(headers));
    }

    method WriteHeaders() returns (result: nat)
      requires Valid()
      modifies connection`outputLength, connection.outputBuffer, connection.s`sent, connection.s`sendErrors
      ensures Valid() && connection.Input() == old(connection.Input())
      ensures result == 0 ==> connection.Output() == old(connection.Output()) + Written(headers)
    {
      hide HeaderLine, Distinct;
      ghost var out := connection.Output();
      var i := 0;
      result := 0;
      assert headers[0..] == headers;
      while i < |headers|
        invariant Valid() && i <= |headers| && result == 0 && connection.Input() == old(connection.Input())
        invariant connection.Output() + Written(headers[i..]) == out + Written(headers)
      {
        ghost var done := connection.Output();
        result := WriteHeader(headers[i]);
        if result != 0 {
          return;
        }
        OneMoreHeader(done, headers[i], headers[i + 1..]);
        assert headers[i..] == [headers[i]] + headers[i + 1..];
        i := i + 1;
      }
      assert headers[i..] == [];
      ghost var k;
      result, k := connection.Write(CRLF);
      assert CRLF[..2] == CRLF;
    }

    /** Name, colon and space, value, end of line. */
    method WriteHeader(h: Header) returns (result: nat)
      requires Valid()
      modifies connection`outputLength, connection.outputBuffer, connection.s`sent, connection.s`sendErrors
      ensures Valid() && connection.Input() == old(connection.Input())
      ensures result == 0 ==> connection.Output() == old(connection.Output()) + HeaderLine(h)
    {
      ghost var out := connection.Output();
      ghost var k;
      result, k := connection.Write(h.name);
      if result != 0 {
        return;
      }
      assert h.name[..k] == h.name;
      result, k := connection.Write([COLON, SP]);
      if result != 0 {
        return;
      }
      assert [COLON, SP][..k] == [COLON, SP];
      result, k := connection.Write(h.value);
      if result != 0 {
        return;
      }
      assert h.value[..k] == h.value;
      result, k := connection.Write(CRLF);
      if result == 0 {
        assert CRLF[..k] == CRLF;
        OneLine(out, h);
      }
    }

    // ----- Bodies -----

    /** What reading the body has still to deliver, and what of the input it leaves; nothing if it is malformed. */
    ghost function Pending(): Option<Decoded>
      requires Valid()
      reads this, connection, connection.inputBuffer, connection.s
    {
      var input := connection.Input();
      if isChunked then Remaining(state.DONE?, bytesRemaining, input)
      else Plain(hasContentLength, bytesRemaining, input)
    }

    method ReadChunkSizeLine() returns (result: int)
      requires Valid()
      modifies this`chunkBuffer, connection`inputOffset, connection`inputLength, connection.inputBuffer, connection.s`incoming
      ensures Valid() && connection.Output() == old(connection.Output())
      ensures var input := old(connection.Input());
              var l := Line(input);
              && chunkBuffer == l && connection.Input() == input[|l|..]
              && (|l| < 2 ==> result != 0)
              && (result != 0 ==> |l| < 2 || (!IsLine(l) && connection.s.ending != 0))
    {
      result, chunkBuffer := ReadLine([], connection);
      if result != 0 {
        return;
      }
      if |chunkBuffer| < 2 {
        return -1;
      }
      result := 0;
    }

    /** Between two chunks. */
    method StartChunk() returns (result: int)
      requires Valid() && !state.DONE? && bytesRemaining == 0
      modifies this`chunkBuffer, this`bytesRemaining, this`state,
        connection`inputOffset, connection`inputLength, connection.inputBuffer, connection.s`incoming
      ensures Valid() && connection.Output() == old(connection.Output())
      ensures |connection.Input()| <= |old(connection.Input())|
      ensures var r := Chunks(old(connection.Input()));
              if result != 0 then Fails(r, connection.s.ending)
              else r == Remaining(state.DONE?, bytesRemaining, connection.Input()) && (state.DONE? <==> bytesRemaining == 0)
    {
      hide Line, IsLine, ChunkSize, InChunk;
      ghost var input := connection.Input();
      result := ReadChunkSizeLine();
      if result != 0 {
        UnfinishedSize(input);
        return;
      }
      var chunkSize;
      result, chunkSize := ReadChunkSize(chunkBuffer);
      if result != 0 {
        return;
      }
      SizeFits(chunkBuffer);
      bytesRemaining := chunkSize;
      if chunkSize == 0 {
        state := DONE;
      }
    }

    /** One octet of a chunk, and the end of the line if it is the last one. */
    method ReadChunkOctet() returns (result: int, c: int)
      requires Valid() && !state.DONE? && bytesRemaining > 0
      modifies this`bytesRemaining, this`state,
        connection`inputOffset, connection`inputLength, connection.inputBuffer, connection.s`incoming
      ensures Valid() && connection.Output() == old(connection.Output())
      ensures |connection.Input()| <= |old(connection.Input())|
      ensures result == 0 ==> 0 <= c < 256 && !state.DONE? && |connection.Input()| < |old(connection.Input())|
      ensures var r := InChunk(old(bytesRemaining), old(connection.Input()));
              if result != 0 then r.None?
              else r == Prepended([c], Remaining(false, bytesRemaining, connection.Input()))
    {
      hide Chunks, InChunk;
      ghost var n, input := bytesRemaining, connection.Input();
      result, c := connection.ReadOctet();
      if result != 0 || c == -1 {
        CutShort(n, input);
        if result == 0 {
          result, state := -1, DONE;
        }
        return;
      }
      ghost var rest := connection.Input();
      bytesRemaining := bytesRemaining - 1;
      if bytesRemaining == 0 {
        var end;
        result, end := ReadLineEnd();
        LastOctet(c, rest, connection.Input(), end);
        if !end && result == 0 {
          result, state := -1, DONE;
        }
      } else {
        NextInChunk(n, c, rest);
      }
    }

    /** CR and LF after a chunk, or something else. */
    method ReadLineEnd() returns (result: int, end: bool)
      requires Valid()
      modifies connection`inputOffset, connection`inputLength, connection.inputBuffer, connection.s`incoming
      ensures Valid() && connection.Output() == old(connection.Output())
      ensures |connection.Input()| <= |old(connection.Input())|
      ensures end <==> CRLF <= old(connection.Input())
      ensures end ==> result == 0 && old(connection.Input()) == CRLF + connection.Input()
    {
      ghost var input := connection.Input();
      assert CRLF <= input ==> input[0] == CRLF[0] && input[1] == CRLF[1];
      var c;
      result, c := connection.ReadOctet();
      if result != 0 || c != CR {
        return result, false;
      }
      result, c := connection.ReadOctet();
      end := result == 0 && c == LF;
    }

    /** p[..bytesRead] is what has been read. */
    method ReadChunkedEntityBody(p: array<Octet>, capacity: nat) returns (result: int, bytesRead: nat)
      requires Valid() && isChunked && capacity <= p.Length && p != connection.inputBuffer && p != connection.outputBuffer
      modifies p, this`chunkBuffer, this`bytesRemaining, this`state,
        connection`inputOffset, connection`inputLength, connection.inputBuffer, connection.s`incoming
      ensures Valid() && connection.Output() == old(connection.Output())
      ensures bytesRead <= capacity && |connection.Input()| + (if result == 0 then bytesRead else 0) <= |old(connection.Input())|
      ensures p[bytesRead..] == old(p[bytesRead..])
      ensures if result != 0 then Fails(old(Pending()), connection.s.ending)
              else old(Pending()) == Prepended(p[..bytesRead], Pending()) && (bytesRead < capacity ==> state.DONE?)
    {
      hide Chunks, InChunk, Fails, Prepended;
      ghost var all := Pending();
      result, bytesRead := 0, 0;
      assert p[..0] == [];
      PrependedNothing(all);
      DoneDelivers(connection.Input());
      if state.DONE? {
        return;
      }
      while bytesRead < capacity
        invariant Valid() && connection.Output() == old(connection.Output()) && result == 0
        invariant bytesRead <= capacity && |connection.Input()| + bytesRead <= |old(connection.Input())|
        invariant p[bytesRead..] == old(p[..])[bytesRead..]
        invariant !state.DONE? && isChunked && all == Prepended(p[..bytesRead], Pending())
        decreases capacity - bytesRead
      {
        ghost var bytes := p[..bytesRead];
        FailsAfter(bytes, Pending(), connection.s.ending);
        if bytesRemaining == 0 {
          result := StartChunk();
          if result != 0 || state.DONE? {
            break;
          }
          FailsAfter(bytes, Pending(), connection.s.ending);
        }
        var c;
        result, c := ReadChunkOctet();
        if result != 0 {
          NothingFails(connection.s.ending);
          break;
        }
        PrependedTwice(bytes, [c], Pending());
        ghost var others := p[bytesRead..];
        p[bytesRead] := c;
        bytesRead := bytesRead + 1;
        assert p[..bytesRead] == bytes + [c] && p[bytesRead..] == others[1..];
      }
    }

    /** The part of read_message_body for a message that is not chunked; without a length it goes on to the end of input. */
    method ReadPlainBody(p: array<Octet>, capacity: nat) returns (result: int, bytesRead: nat)
      requires Valid() && !isChunked && capacity <= p.Length && p != connection.inputBuffer && p != connection.outputBuffer
      modifies p, this`bytesRemaining, connection`inputOffset, connection`inputLength, connection.inputBuffer, connection.s`incoming
      ensures Valid() && connection.Output() == old(connection.Output())
      ensures bytesRead <= capacity && |connection.Input()| + bytesRead == |old(connection.Input())|
      ensures p[bytesRead..] == old(p[bytesRead..])
      ensures old(Pending()) == Prepended(p[..bytesRead], Pending())
      ensures result != 0 ==> connection.s.ending != 0 && connection.Input() == []
      ensures result == 0 && bytesRead < capacity ==> Pending() == Some(Decoded([], connection.Input()))
    {
      hide Prepended;
      ghost var all := Pending();
      result, bytesRead := 0, 0;
      assert p[..0] == [];
      PrependedNothing(all);
      while bytesRead < capacity
        invariant Valid() && connection.Output() == old(connection.Output()) && result == 0
        invariant bytesRead <= capacity && |connection.Input()| + bytesRead == |old(connection.Input())|
        invariant p[bytesRead..] == old(p[..])[bytesRead..]
        invariant all == Prepended(p[..bytesRead], Pending())
      {
        if hasContentLength && bytesRemaining == 0 {
          LengthReached(connection.Input());
          break;
        }
        ghost var n, input, bytes := bytesRemaining, connection.Input(), p[..bytesRead];
        var c;
        result, c := connection.ReadOctet();
        if result != 0 || c == -1 {
          break;
        }
        NextOctet(hasContentLength, n, c, connection.Input());
        PrependedTwice(bytes, [c], Plain(hasContentLength, if hasContentLength then n - 1 else 0, connection.Input()));
        p[bytesRead] := c;
        bytesRead := bytesRead + 1;
        assert p[..bytesRead] == bytes + [c];
        bytesRemaining := if bytesRemaining == 0 then SIZE_MAX else bytesRemaining - 1;
      }
    }

    method ReadEntityBody(p: array<Octet>, capacity: nat) returns (result: int, bytesRead: nat)
      requires Valid() && capacity <= p.Length && p != connection.inputBuffer && p != connection.outputBuffer
      modifies p, this`chunkBuffer, this`bytesRemaining, this`state,
        connection`inputOffset, connection`inputLength, connection.inputBuffer, connection.s`incoming
      ensures Valid() && connection.Output() == old(connection.Output())
      ensures bytesRead <= capacity && |connection.Input()| + (if result == 0 then bytesRead else 0) <= |old(connection.Input())|
      ensures p[bytesRead..] == old(p[bytesRead..])
      ensures if result != 0 then Fails(old(Pending()), connection.s.ending)
              else (old(Pending()) == Prepended(p[..bytesRead], Pending())
                    && (bytesRead < capacity ==> Pending() == Some(Decoded([], connection.Input()))))
    {
      if isChunked {
        result, bytesRead := ReadChunkedEntityBody(p, capacity);
      } else {
        ghost var all := Pending();
        result, bytesRead := ReadPlainBody(p, capacity);
        PlainRest(all, p[..bytesRead], Pending(), connection.Input());
      }
    }

    /**
     * The whole body, in any number of pieces: reading succeeds exactly if the body is well formed,
     * unless the connection fails right after it, and then delivers it and leaves what follows it.
     */
    method ReadEntireEntityBody(input: seq<Octet>) returns (result: int, input': seq<Octet>)
      requires Valid()
      modifies this`chunkBuffer, this`bytesRemaining, this`state,
        connection`inputOffset, connection`inputLength, connection.inputBuffer, connection.s`incoming
      ensures Valid() && connection.Output() == old(connection.Output())
      ensures if result != 0 then Fails(old(Pending()), connection.s.ending)
              else exists body :: input' == input + body && old(Pending()) == Some(Decoded(body, connection.Input()))
    {
      hide Remaining, Fails, Prepended;
      ghost var all, body: seq<Octet> := Pending(), [];
      PrependedNothing(all);
      var buffer := new Octet[8192];
      input' := input;
      assert input' == input + body;
      while true
        invariant Valid() && connection.Output() == old(connection.Output())
        invariant fresh(buffer) && buffer.Length == 8192
        invariant input' == input + body && all == Prepended(body, Pending())
        decreases |connection.Input()|
      {
        FailsAfter(body, Pending(), connection.s.ending);
        var bytesRead;
        result, bytesRead := ReadEntityBody(buffer, 8192);
        if result != 0 {
          break;
        }
        PrependedTwice(body, buffer[..bytesRead], Pending());
        if bytesRead == 0 {
          AllDelivered(body, buffer[..bytesRead], connection.Input());
          break;
        }
        assert input + (body + buffer[..bytesRead]) == input' + buffer[..bytesRead];
        body := body + buffer[..bytesRead];
        input' := input' + buffer[..bytesRead];
      }
    }
  }

  /** Reading may fail because the body is malformed, or because the connection does at its end. */
  ghost predicate Fails(r: Option<Decoded>, ending: nat)
  {
    r.None? || (ending != 0 && r.value.rest == [])
  }

  lemma FailsAfter(bytes: seq<Octet>, r: Option<Decoded>, ending: nat)
    ensures Fails(r, ending) ==> Fails(Prepended(bytes, r), ending)
  {
  }

  lemma NothingFails(ending: nat)
    ensures Fails(None, ending)
  {
  }

  lemma DoneDelivers(input: seq<Octet>)
    ensures Remaining(true, 0, input) == Some(Decoded([], input))
  {
  }

  lemma PlainRest(all: Option<Decoded>, bytes: seq<Octet>, r: Option<Decoded>, input: seq<Octet>)
    requires all == Prepended(bytes, r)
    ensures r == Some(Decoded([], input)) && input == [] ==> all.Some? && all.value.rest == []
  {
  }

  lemma AllDelivered(body: seq<Octet>, nothing: seq<Octet>, input: seq<Octet>)
    requires nothing == []
    ensures Prepended(body + nothing, Some(Decoded([], input))) == Some(Decoded(body, input))
  {
    assert body + nothing + [] == body;
  }

  lemma UnfinishedSize(input: seq<Octet>)
    ensures |Line(input)| < 2 ==> Chunks(input).None?
    ensures !IsLine(Line(input)) && Chunks(input).Some? ==> Chunks(input).value.rest == []
  {
    LineIsLineOrAll(input);
    if !IsLine(Line(input)) {
      assert input[|input|..] == [];
    }
  }

  lemma SizeFits(s: seq<Octet>)
    ensures ChunkSize(s).Some? ==> ChunkSize(s).value <= SIZE_MAX
  {
  }

  lemma LastOctet(c: Octet, rest: seq<Octet>, after: seq<Octet>, end: bool)
    requires end <==> CRLF <= rest
    requires end ==> rest == CRLF + after
    ensures InChunk(1, [c] + rest) == if end then Prepended([c], Chunks(after)) else None
  {
    var s := [c] + rest;
    if end {
      assert s == [c] + ([CR] + ([LF] + after));
      LastInChunk(c, CR, LF, after);
    } else if |s| >= 3 {
      assert s[1..3] == rest[..2];
    }
  }

  ghost predicate BadLength(hs: seq<Header>)
  {
    var v := FindHeader(hs, CONTENT_LENGTH);
    v.Some? && Length(v.value).None?
  }

  ghost predicate BadCoding(hs: seq<Header>)
  {
    var v := FindHeader(hs, TRANSFER_ENCODING);
    v.Some? && LastIsChunked(UpToNul(v.value)).None?
  }

  /** The last transfer coding is chunked. */
  predicate IsChunked(hs: seq<Header>)
  {
    EndsInChunked(FindHeader(hs, TRANSFER_ENCODING))
  }

  predicate EndsInChunked(v: Option<seq<Octet>>)
  {
    v.Some? && LastIsChunked(UpToNul(v.value)) == Some(true)
  }

  lemma PassName(hs: seq<Header>, i: nat, name: seq<Octet>)
    requires i < |hs| && hs[i].name != name && !HasName(hs[..i], name)
    ensures !HasName(hs[..i + 1], name)
  {
    var names := hs[..i + 1];
    forall j | 0 <= j < |names| ensures names[j].name != name {
      assert j < i ==> hs[..i][j] == hs[j];
    }
  }

  lemma {:induction false} AddAt(hs: seq<Header>, i: nat, h: Header)
    requires i < |hs| && hs[i].name == h.name && !HasName(hs[..i], h.name)
    ensures AddHeader(hs, h) == hs[i := Header(h.name, hs[i].value + [COMMA, SP] + h.value)]
  {
    if i > 0 {
      NotAtFront(hs, i, h.name);
      AddAt(hs[1..], i - 1, h);
    }
  }

  lemma {:induction false} SetAt(hs: seq<Header>, i: nat, h: Header)
    requires i < |hs| && hs[i].name == h.name && !HasName(hs[..i], h.name)
    ensures SetHeader(hs, h) == hs[i := h]
  {
    if i > 0 {
      NotAtFront(hs, i, h.name);
      SetAt(hs[1..], i - 1, h);
    }
  }

  lemma {:induction false} SetNew(hs: seq<Header>, h: Header)
    requires !HasName(hs, h.name)
    ensures SetHeader(hs, h) == hs + [h]
  {
    if hs != [] {
      assert hs[..|hs|] == hs;
      NotAtFront(hs, |hs|, h.name);
      assert hs[1..][..|hs| - 1] == hs[1..];
      SetNew(hs[1..], h);
    }
  }

  lemma NotAtFront(hs: seq<Header>, i: nat, name: seq<Octet>)
    requires 0 < i <= |hs| && !HasName(hs[..i], name)
    ensures hs[0].name != name && !HasName(hs[1..][..i - 1], name)
  {
    assert hs[..i][0] == hs[0];
    var names := hs[1..][..i - 1];
    forall j | 0 <= j < |names| ensures names[j].name != name {
      assert hs[..i][j + 1] == names[j];
    }
  }

  lemma OneMoreHeader(out: seq<Octet>, h: Header, hs: seq<Header>)
    ensures out + Written([h] + hs) == out + HeaderLine(h) + Written(hs)
  {
    assert ([h] + hs)[1..] == hs;
    assert out + (HeaderLine(h) + Written(hs)) == out + HeaderLine(h) + Written(hs);
  }

  lemma OneLine(out: seq<Octet>, h: Header)
    ensures out + h.name + [COLON, SP] + h.value + CRLF == out + HeaderLine(h)
  {
  }

  lemma NoHeaders()
    ensures Distinct([])
  {
  }

  lemma HeadOfUnfinished(input: seq<Octet>)
    requires !IsLine(Line(input))
    ensures ReadHead(input).Some? ==> ReadHead(input).value.rest == []
  {
    LineIsLineOrAll(input);
  }

  lemma HeadersOfUnfinished(input: seq<Octet>, hs: seq<Header>)
    requires HeaderText(input) == input
    ensures Headers.Headers(input, hs).Some? ==> Headers.Headers(input, hs).value.rest == []
  {
    assert input[|input|..] == [];
  }
}
