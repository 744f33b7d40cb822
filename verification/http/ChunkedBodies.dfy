/** The chunked transfer coding, section 3.6.1 of RFC 2616: what it says, octet by octet and chunk by chunk. */
module ChunkedBodies {
  import opened Octets
  import opened Options

  // ----- Chunk sizes -----

  function HexDigit(c: Octet): (d: Option<nat>)
    ensures d.Some? ==> d.value < 16
  {
    if 48 <= c <= 57 then Some(c - 48)
    else if 97 <= c <= 102 then Some(c - 97 + 10)
    else if 65 <= c <= 70 then Some(c - 65 + 10)
    else None
  }

  /** The hexadecimal digits at the beginning. */
  function HexDigits(s: seq<Octet>): (d: seq<nat>)
    ensures |d| <= |s| && (|d| < |s| ==> HexDigit(s[|d|]).None?)
    ensures forall i :: 0 <= i < |d| ==> HexDigit(s[i]) == Some(d[i])
  {
    if s == [] || HexDigit(s[0]).None? then [] else [HexDigit(s[0]).value] + HexDigits(s[1..])
  }

  /** A size ends at white space or a semicolon, and must be one that a size_t can hold. */
  function ChunkSize(s: seq<Octet>): Option<nat>
  {
    var d := HexDigits(s);
    if (|d| == |s| || IsLws(s[|d|]) || s[|d|] == SEMICOLON) && Number(d, 16) <= SIZE_MAX
    then Some(Number(d, 16)) else None
  }

  lemma {:induction false} DigitsAre(s: seq<Octet>, d: seq<nat>)
    requires |d| <= |s| && (|d| < |s| ==> HexDigit(s[|d|]).None?)
    requires forall i :: 0 <= i < |d| ==> HexDigit(s[i]) == Some(d[i])
    ensures HexDigits(s) == d
  {
    if d != [] {
      assert forall i :: 0 <= i < |d| - 1 ==> s[1..][i] == s[i + 1] && d[1..][i] == d[i + 1];
      DigitsAre(s[1..], d[1..]);
    }
  }

  method ReadChunkSize(stream: seq<Octet>) returns (result: int, chunkSize: nat)
    ensures result == if ChunkSize(stream).Some? then 0 else -1
    ensures result == 0 ==> chunkSize == ChunkSize(stream).value
  {
    var value: nat := 0;
    ghost var d: seq<nat> := [];
    var i := 0;
    while i < |stream|
      invariant i == |d| <= |stream| && value == Number(d, 16) <= SIZE_MAX
      invariant forall j :: 0 <= j < i ==> HexDigit(stream[j]) == Some(d[j])
    {
      var digit := HexDigit(stream[i]);
      if digit.None? {
        DigitsAre(stream, d);
        if IsLws(stream[i]) || stream[i] == SEMICOLON {
          break;
        }
        return -1, 0;
      }
      Overflow(value, digit.value, 16);
      NumberNext(d, digit.value, 16);
      if SIZE_MAX / 16 < value || SIZE_MAX - digit.value < value * 16 {
        TooMany(stream, d, digit.value);
        return -1, 0;
      }
      value := value * 16 + digit.value;
      d := d + [digit.value];
      i := i + 1;
    }
    if i == |stream| {
      DigitsAre(stream, d);
    }
    return 0, value;
  }

  lemma {:induction false} DigitsBegin(s: seq<Octet>, d: seq<nat>)
    requires |d| <= |s| && forall i :: 0 <= i < |d| ==> HexDigit(s[i]) == Some(d[i])
    ensures |d| <= |HexDigits(s)| && HexDigits(s)[..|d|] == d
  {
    if d != [] {
      assert forall i :: 0 <= i < |d| - 1 ==> s[1..][i] == s[i + 1] && d[1..][i] == d[i + 1];
      DigitsBegin(s[1..], d[1..]);
      assert HexDigits(s) == [d[0]] + HexDigits(s[1..]);
      assert d == [d[0]] + d[1..];
    }
  }

  /** More digits do not make the value smaller. */
  lemma TooMany(s: seq<Octet>, d: seq<nat>, digit: nat)
    requires |d| < |s| && forall i :: 0 <= i < |d| ==> HexDigit(s[i]) == Some(d[i])
    requires HexDigit(s[|d|]) == Some(digit) && Number(d + [digit], 16) > SIZE_MAX
    ensures ChunkSize(s).None?
  {
    hide Number, HexDigit, ChunkSize, HexDigits;
    var begin := d + [digit];
    DigitsBegin(s, begin);
    NumberGrows(begin, HexDigits(s)[|begin|..], 16);
    assert HexDigits(s) == begin + HexDigits(s)[|begin|..];
    SizeTooBig(s);
  }

  lemma SizeTooBig(s: seq<Octet>)
    requires Number(HexDigits(s), 16) > SIZE_MAX
    ensures ChunkSize(s).None?
  {
    hide Number, HexDigits;
  }

  // ----- The coding, chunk by chunk -----

  datatype Decoded = Decoded(body: seq<Octet>, rest: seq<Octet>)

  /** What comes before the body has been decoded so far. */
  function Prepended(bytes: seq<Octet>, o: Option<Decoded>): Option<Decoded>
  {
    if o.None? then None else Some(o.value.(body := bytes + o.value.body))
  }

  lemma PrependedTwice(a: seq<Octet>, b: seq<Octet>, o: Option<Decoded>)
    ensures Prepended(a, Prepended(b, o)) == Prepended(a + b, o)
  {
    if o.Some? {
      assert a + (b + o.value.body) == (a + b) + o.value.body;
    }
  }

  lemma PrependedNothing(o: Option<Decoded>)
    ensures Prepended([], o) == o
  {
    if o.Some? {
      assert [] + o.value.body == o.value.body;
    }
  }

  /** Chunks up to the last one, which has size 0; the trailer is not looked at. */
  function Chunks(input: seq<Octet>): Option<Decoded>
    decreases |input|, 0
  {
    var l := Line(input);
    if |l| < 2 then None
    else if ChunkSize(l).None? then None
    else if ChunkSize(l).value == 0 then Some(Decoded([], input[|l|..]))
    else InChunk(ChunkSize(l).value, input[|l|..])
  }

  /** n octets of a chunk are still to come. */
  function InChunk(n: nat, input: seq<Octet>): Option<Decoded>
    requires n > 0
    decreases |input|, 1
  {
    if |input| < n + 2 || input[n..n + 2] != CRLF then None
    else Prepended(input[..n], Chunks(input[n + 2..]))
  }

  /** What a message in this state still has to deliver. */
  function Remaining(done: bool, n: nat, input: seq<Octet>): Option<Decoded>
  {
    if done then Some(Decoded([], input)) else if n == 0 then Chunks(input) else InChunk(n, input)
  }

  // ----- A length is not ignored -----

  function Feeds(s: seq<Octet>): nat
  {
    if s == [] then 0 else (if s[0] == LF then 1 else 0) + Feeds(s[1..])
  }

  lemma {:induction false} FeedsAdd(s: seq<Octet>, t: seq<Octet>)
    ensures Feeds(s + t) == Feeds(s) + Feeds(t)
  {
    if s == [] {
      assert s + t == t;
    } else {
      assert (s + t)[1..] == s[1..] + t;
      FeedsAdd(s[1..], t);
    }
  }

  lemma {:induction false} FeedsOfLine(s: seq<Octet>)
    ensures Feeds(Line(s)) == if Line(s) == [] then 0 else LastFeed(Line(s))
  {
    if s != [] {
      var l := Line(s);
      if s[0] == LF {
        assert l[1..] == [];
      } else {
        FeedsOfLine(s[1..]);
        assert l[1..] == Line(s[1..]);
      }
    }
  }

  lemma FeedsOfCrlf()
    ensures Feeds(CRLF) == 1
  {
    var lf: seq<Octet> := [LF];
    assert lf[1..] == [] && Feeds(lf) == 1;
    assert CRLF[0] == CR && CRLF[1..] == lf;
  }

  /** The line feeds of what was taken off the input and did not get into the body, modulo 2, without a final one. */
  function Overhead(taken: seq<Octet>, body: seq<Octet>): nat
    requires taken != []
  {
    (Feeds(taken) + Feeds(body) + LastFeed(taken)) % 2
  }

  function LastFeed(s: seq<Octet>): nat
    requires s != []
  {
    if s[|s| - 1] == LF then 1 else 0
  }

  function Taken(input: seq<Octet>, rest: seq<Octet>): seq<Octet>
    requires |rest| <= |input|
  {
    input[..|input| - |rest|]
  }

  lemma {:induction false} OverheadMore(front: seq<Octet>, data: seq<Octet>, taken: seq<Octet>, body: seq<Octet>)
    requires taken != []
    ensures Overhead(front + taken, data + body) == (Feeds(front) + Feeds(data) + Overhead(taken, body)) % 2
  {
    FeedsAdd(front, taken);
    FeedsAdd(data, body);
    assert LastFeed(front + taken) == LastFeed(taken);
    hide Feeds, LastFeed;
    SumsModulo(Feeds(front) + Feeds(data), Feeds(taken) + Feeds(body) + LastFeed(taken));
  }

  lemma SumsModulo(x: nat, y: nat)
    ensures (x + y) % 2 == (x + y % 2) % 2
  {
  }

  /** d comes of taking octets off the input, leaving out this many line feeds, modulo 2. */
  predicate Leaves(input: seq<Octet>, d: Decoded, overhead: nat)
  {
    |d.rest| < |input| && d.rest == input[|input| - |d.rest|..] && Overhead(Taken(input, d.rest), d.body) == overhead
  }

  lemma {:induction false} LeavesMore(front: seq<Octet>, data: seq<Octet>, input: seq<Octet>, d: Decoded, overhead: nat)
    requires Leaves(input, d, overhead)
    ensures Leaves(front + input, Decoded(data + d.body, d.rest), (Feeds(front) + Feeds(data) + overhead) % 2)
  {
    hide Overhead, Feeds;
    assert Taken(front + input, d.rest) == front + Taken(input, d.rest);
    OverheadMore(front, data, Taken(input, d.rest), d.body);
  }

  lemma {:induction false} LastLeaves(l: seq<Octet>, rest: seq<Octet>)
    requires l != [] && Feeds(l) == LastFeed(l)
    ensures Leaves(l + rest, Decoded([], rest), 0)
  {
    hide Feeds, LastFeed;
    assert Taken(l + rest, rest) == l;
    assert (l + rest)[|l|..] == rest;
    NoFeeds();
  }

  /** Every chunk comes with two line feeds, so decoding from the beginning of a chunk leaves out an even number, */
  lemma {:induction false} EvenOverhead(input: seq<Octet>)
    requires Chunks(input).Some?
    ensures Leaves(input, Chunks(input).value, 0)
    decreases |input|, 0
  {
    hide Feeds, LastFeed, Leaves, Line, IsLine, ChunkSize, InChunk;
    var l := Line(input);
    var after := input[|l|..];
    FeedsOfLine(input);
    assert input == l + after;
    if ChunkSize(l).value == 0 {
      LastLeaves(l, after);
    } else {
      OddOverhead(ChunkSize(l).value, after);
      var d := Chunks(input).value;
      LineEnds(input);
      assert after != [] by { NotNothing(ChunkSize(l).value, after); }
      LeavesMore(l, [], after, d, 1);
      assert [] + d.body == d.body;
      NoFeeds();
    }
  }

  lemma NoFeeds()
    ensures Feeds([]) == 0
  {
  }

  lemma LineEnds(input: seq<Octet>)
    ensures |Line(input)| < |input| ==> Line(input) != [] && LastFeed(Line(input)) == 1
  {
    LineIsLineOrAll(input);
  }

  lemma NotNothing(n: nat, input: seq<Octet>)
    requires n > 0 && InChunk(n, input).Some?
    ensures input != []
  {
  }

  /** and from within a chunk an odd one. */
  lemma {:induction false} OddOverhead(n: nat, input: seq<Octet>)
    requires n > 0 && InChunk(n, input).Some?
    ensures Leaves(input, InChunk(n, input).value, 1)
    decreases |input|, 1
  {
    hide Feeds, Leaves, Chunks;
    var data, after := input[..n], input[n + 2..];
    assert input == (data + CRLF) + after;
    EvenOverhead(after);
    FeedsAdd(data, CRLF);
    FeedsOfCrlf();
    LeavesMore(data + CRLF, data, after, Chunks(after).value, 0);
  }

  /** Sizes and ends of chunks do not get into the body. */
  lemma {:induction false} ChunksShorter(input: seq<Octet>)
    requires Chunks(input).Some?
    ensures var d := Chunks(input).value; |d.body| + |d.rest| < |input|
    decreases |input|, 0
  {
    hide Line, ChunkSize, InChunk;
    var l := Line(input);
    if ChunkSize(l).value > 0 {
      InChunkShorter(ChunkSize(l).value, input[|l|..]);
    }
  }

  lemma {:induction false} InChunkShorter(n: nat, input: seq<Octet>)
    requires n > 0 && InChunk(n, input).Some?
    ensures var d := InChunk(n, input).value; |d.body| + |d.rest| < |input|
    decreases |input|, 1
  {
    hide Chunks;
    ChunksShorter(input[n + 2..]);
  }

  /**
   * Section 4.4 of RFC 2616 has a length ignored when the body is chunked. Here the octets it counts are
   * taken for the rest of a chunk, which never comes to the same, whatever the chunks and the octets in them.
   */
  lemma LengthNotIgnored(n: nat, input: seq<Octet>)
    ensures Remaining(false, n, input) == Chunks(input)
       <==> n == 0 || (Chunks(input).None? && Remaining(false, n, input).None?)
  {
    if n > 0 && Chunks(input).Some? && InChunk(n, input).Some? {
      EvenOverhead(input);
      OddOverhead(n, input);
    }
  }

  // ----- One octet at a time -----

  lemma NextInChunk(n: nat, c: Octet, input: seq<Octet>)
    requires n > 1
    ensures InChunk(n, [c] + input) == Prepended([c], InChunk(n - 1, input))
  {
    var s := [c] + input;
    if |s| >= n + 2 {
      assert s[n..n + 2] == input[n - 1..n + 1];
      assert s[n + 2..] == input[n + 1..];
      assert s[..n] == [c] + input[..n - 1];
      PrependedTwice([c], input[..n - 1], Chunks(input[n + 1..]));
    }
  }

  lemma LastInChunk(c: Octet, cr: Octet, lf: Octet, input: seq<Octet>)
    ensures InChunk(1, [c] + ([cr] + ([lf] + input)))
         == if cr == CR && lf == LF then Prepended([c], Chunks(input)) else None
  {
    var s := [c] + ([cr] + ([lf] + input));
    assert s[1..3] == [cr, lf];
    assert s[3..] == input && s[..1] == [c];
  }

  lemma CutShort(n: nat, input: seq<Octet>)
    requires n > 0 && |input| < n + 2
    ensures InChunk(n, input).None?
  {
  }

  // ----- Encoding -----

  /** A line that gives a size, in whatever way: with capital letters, leading zeros, extensions. */
  predicate SizeLine(l: seq<Octet>, n: nat)
  {
    IsLine(l) && |l| >= 2 && ChunkSize(l) == Some(n)
  }

  datatype Chunk = Chunk(line: seq<Octet>, data: seq<Octet>)

  predicate WellFormed(c: Chunk)
  {
    c.data != [] && SizeLine(c.line, |c.data|)
  }

  function Body(chunks: seq<Chunk>): seq<Octet>
  {
    if chunks == [] then [] else chunks[0].data + Body(chunks[1..])
  }

  function Encoded(chunks: seq<Chunk>, last: seq<Octet>): seq<Octet>
  {
    if chunks == [] then last else chunks[0].line + (chunks[0].data + (CRLF + Encoded(chunks[1..], last)))
  }

  /** Decoding undoes every encoding, whatever follows it. */
  lemma {:induction false} DecodesEncoded(chunks: seq<Chunk>, last: seq<Octet>, rest: seq<Octet>)
    requires (forall i :: 0 <= i < |chunks| ==> WellFormed(chunks[i])) && SizeLine(last, 0)
    ensures Chunks(Encoded(chunks, last) + rest) == Some(Decoded(Body(chunks), rest))
  {
    hide Chunks, SizeLine, WellFormed;
    if chunks == [] {
      DecodesLast(last, rest);
    } else {
      var c, code := chunks[0], Encoded(chunks[1..], last);
      DecodesEncoded(chunks[1..], last, rest);
      DecodesChunk(c, code + rest);
      Regroup(c.line, c.data, CRLF, code, rest);
    }
  }

  lemma Regroup(a: seq<Octet>, b: seq<Octet>, c: seq<Octet>, d: seq<Octet>, e: seq<Octet>)
    ensures (a + (b + (c + d))) + e == a + (b + (c + (d + e)))
  {
  }

  lemma DecodesLast(last: seq<Octet>, rest: seq<Octet>)
    requires SizeLine(last, 0)
    ensures Chunks(last + rest) == Some(Decoded([], rest))
  {
    LineOfLine(last, rest);
    assert (last + rest)[|last|..] == rest;
  }

  lemma DecodesChunk(c: Chunk, more: seq<Octet>)
    requires WellFormed(c)
    ensures Chunks(c.line + (c.data + (CRLF + more))) == Prepended(c.data, Chunks(more))
  {
    var n, after := |c.data|, c.data + (CRLF + more);
    LineOfLine(c.line, after);
    assert (c.line + after)[|c.line|..] == after;
    assert after[..n] == c.data;
    assert after[n..n + 2] == CRLF;
    assert after[n + 2..] == more;
  }

  function HexChar(d: nat): (c: Octet)
    requires d < 16
    ensures HexDigit(c) == Some(d) && c != LF
  {
    if d < 10 then 48 + d else 97 + d - 10
  }

  /** The usual way to write a number. */
  function Hex(n: nat): seq<Octet>
  {
    (if n < 16 then [] else Hex(n / 16)) + [HexChar(n % 16)]
  }

  function HexValues(n: nat): seq<nat>
  {
    (if n < 16 then [] else HexValues(n / 16)) + [n % 16]
  }

  /** The digits of a number and the octets they are written with. */
  ghost predicate Writes(h: seq<Octet>, d: seq<nat>, n: nat)
  {
    && |d| == |h| && Number(d, 16) == n && LF !in h
    && (forall i :: 0 <= i < |d| ==> HexDigit(h[i]) == Some(d[i]))
  }

  lemma WritesMore(h: seq<Octet>, d: seq<nat>, n: nat, v: nat)
    requires Writes(h, d, n) && v < 16
    ensures Writes(h + [HexChar(v)], d + [v], n * 16 + v)
  {
    NumberNext(d, v, 16);
    hide HexChar, HexDigit, Number;
  }

  lemma {:induction false} HexWrites(n: nat)
    ensures Writes(Hex(n), HexValues(n), n)
  {
    if n < 16 {
      WritesMore([], [], 0, n);
    } else {
      HexWrites(n / 16);
      WritesMore(Hex(n / 16), HexValues(n / 16), n / 16, n % 16);
    }
  }

  /** A written size is read again exactly if a size_t can hold it. */
  lemma WrittenSize(n: nat)
    ensures SizeLine(Hex(n) + CRLF, n) <==> n <= SIZE_MAX
  {
    var l, d := Hex(n) + CRLF, HexValues(n);
    HexWrites(n);
    hide Hex, HexValues, Number;
    DigitsAre(l, d);
    assert l[..|l| - 1] == Hex(n) + [CR];
    assert IsLws(l[|d|]);
  }
}
