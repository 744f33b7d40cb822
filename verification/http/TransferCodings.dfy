/** The value of Transfer-Encoding, section 3.6 of RFC 2616: transfer codings with parameters, of which the last one counts. */
module TransferCodings {
  import opened Headers
  import opened Octets
  import opened Options
  import opened Readers

  const QUOTE: Octet := 34
  const EQUALS: Octet := 61
  const BACKSLASH: Octet := 92

  const CHUNKED: seq<Octet> := [99, 104, 117, 110, 107, 101, 100]

  predicate IsText(c: Octet)
  {
    !(c <= 31 || c == 127)
  }

  // ----- What the value amounts to -----

  /** What follows a quoted string, from behind the quote it begins with. */
  function AfterQuoted(s: seq<Octet>): Option<seq<Octet>>
  {
    if s == [] then None
    else if s[0] == QUOTE then Some(s[1..])
    else if s[0] == BACKSLASH then
      if |s| < 2 || s[1] < 1 || s[1] > 127 then None else AfterQuoted(s[2..])
    else if IsText(s[0]) then AfterQuoted(s[1..])
    else None
  }

  /** What follows the value of a parameter. */
  function AfterValue(s: seq<Octet>): Option<seq<Octet>>
  {
    if s != [] && s[0] == QUOTE then AfterQuoted(s[1..])
    else if Token(s) == [] then None
    else Some(s[|Token(s)|..])
  }

  lemma {:induction false} AfterQuotedShorter(s: seq<Octet>)
    ensures AfterQuoted(s).Some? ==> |AfterQuoted(s).value| < |s| && AfterQuoted(s).value == s[|s| - |AfterQuoted(s).value|..]
  {
    if s != [] && s[0] != QUOTE {
      if s[0] == BACKSLASH {
        if |s| >= 2 {
          AfterQuotedShorter(s[2..]);
        }
      } else {
        AfterQuotedShorter(s[1..]);
      }
    }
  }

  lemma AfterValueShorter(s: seq<Octet>)
    ensures AfterValue(s).Some? ==> |AfterValue(s).value| < |s| && AfterValue(s).value == s[|s| - |AfterValue(s).value|..]
  {
    if s != [] {
      AfterQuotedShorter(s[1..]);
    }
  }

  /** What follows the equals sign of a parameter and its value, without white space. */
  function AfterSign(s: seq<Octet>): (r: Option<seq<Octet>>)
    ensures r.Some? ==> |r.value| < |s|
  {
    hide AfterValue, SkipLws;
    if s == [] || s[0] != EQUALS then None
    else
      var value := SkipLws(s[1..]);
      AfterValueShorter(value);
      if AfterValue(value).None? then None else Some(SkipLws(AfterValue(value).value))
  }

  /** What follows one parameter, from its name on. */
  function AfterParameter(s: seq<Octet>): (r: Option<seq<Octet>>)
    ensures r.Some? ==> |r.value| < |s|
  {
    hide Token, SkipLws, AfterSign;
    if Token(s) == [] then None else AfterSign(SkipLws(s[|Token(s)|..]))
  }

  /** The same, with white space before the name. */
  function AfterSemicolon(s: seq<Octet>): (r: Option<seq<Octet>>)
    ensures r.Some? ==> |r.value| < |s|
  {
    hide SkipLws, AfterParameter;
    AfterParameter(SkipLws(s))
  }

  /** What follows all parameters. */
  function AfterParameters(s: seq<Octet>): Option<seq<Octet>>
    decreases |s|
  {
    hide AfterSemicolon;
    if s == [] || s[0] != SEMICOLON then Some(s)
    else
      var rest := AfterSemicolon(s[1..]);
      if rest.None? then None else AfterParameters(rest.value)
  }

  lemma {:induction false} AfterParametersShorter(s: seq<Octet>)
    ensures AfterParameters(s).Some? ==> |AfterParameters(s).value| <= |s|
    decreases |s|
  {
    hide AfterSemicolon;
    if s != [] && s[0] == SEMICOLON && AfterSemicolon(s[1..]).Some? {
      AfterParametersShorter(AfterSemicolon(s[1..]).value);
    }
  }

  /** The name of the last transfer coding, and what comes behind it; nothing if there is none where one must be. */
  function LastCoding(s: seq<Octet>): Option<(seq<Octet>, seq<Octet>)>
    decreases |s|, 1
  {
    hide Token, SkipLws, AfterParameters;
    var coding := SkipLws(s);
    var rest := SkipLws(coding[|Token(coding)|..]);
    AfterParametersShorter(rest);
    Concluded(Token(coding), AfterParameters(rest))
  }

  /** What there is to say after a name and its parameters: only a comma makes the scan go on. */
  function Concluded(name: seq<Octet>, rest: Option<seq<Octet>>): Option<(seq<Octet>, seq<Octet>)>
    decreases if rest.Some? then |rest.value| else 0, 0
  {
    if name == [] || rest.None? then None
    else if rest.value != [] && rest.value[0] == COMMA then LastCoding(rest.value[1..])
    else Some((name, rest.value))
  }

  /** Whether a value that is accepted is taken to end in the coding chunked. */
  function LastIsChunked(s: seq<Octet>): Option<bool>
  {
    match LastCoding(s)
    case None => None
    case Some((name, rest)) => Some(rest == [] && SameButCase(name, CHUNKED))
  }

  /** A value as the string it is for the code. */
  function UpToNul(s: seq<Octet>): (t: seq<Octet>)
    ensures 0 !in t && (0 !in s ==> t == s)
  {
    if s == [] || s[0] == 0 then [] else [s[0]] + UpToNul(s[1..])
  }

  // ----- The scan -----

  /** parse_quoted_string; there is a quote at p. */
  method ParseQuotedString(data: seq<Octet>, p: nat, ghost text: seq<Octet>) returns (ok: bool, q: nat)
    requires Ended(data, text) && p < |text| && text[p] == QUOTE
    ensures ok ==> p < q <= |text| && AfterQuoted(text[p + 1..]) == Some(text[q..])
    ensures !ok ==> AfterQuoted(text[p + 1..]).None?
  {
    hide AfterQuoted;
    q := p + 1;
    NotAtEnd(data, text, q);
    while data[q] != 0 && data[q] != QUOTE
      invariant p < q <= |text| && AfterQuoted(text[p + 1..]) == AfterQuoted(text[q..])
      decreases |text| - q
    {
      NotAtEnd(data, text, q);
      QuotedStep(text, q);
      if data[q] == BACKSLASH {
        q := q + 1;
        NotAtEnd(data, text, q);
        if data[q] < 1 || data[q] > 127 {
          return false, q;
        }
        q := q + 1;
      } else if IsText(data[q]) {
        q := q + 1;
      } else {
        return false, q;
      }
    }
    NotAtEnd(data, text, q);
    if data[q] != QUOTE {
      NoQuote(text[q..]);
      return false, q;
    }
    QuotedStep(text, q);
    return true, q + 1;
  }

  lemma NoQuote(s: seq<Octet>)
    requires s == []
    ensures AfterQuoted(s).None?
  {
  }

  lemma QuotedStep(text: seq<Octet>, q: nat)
    requires q < |text|
    ensures AfterQuoted(text[q..])
         == if text[q] == QUOTE then Some(text[q + 1..])
            else if text[q] == BACKSLASH then
              if q + 1 >= |text| || text[q + 1] < 1 || text[q + 1] > 127 then None else AfterQuoted(text[q + 2..])
            else if IsText(text[q]) then AfterQuoted(text[q + 1..]) else None
  {
    assert text[q..][1..] == text[q + 1..];
    if q + 1 < |text| {
      assert text[q..][2..] == text[q + 2..];
    }
  }

  /** The value of a parameter: a quoted string or a token. */
  method ParseParameterValue(data: seq<Octet>, p: nat, ghost text: seq<Octet>) returns (ok: bool, q: nat)
    requires Ended(data, text) && p <= |text|
    ensures ok ==> p <= q <= |text| && AfterValue(text[p..]) == Some(text[q..])
    ensures !ok ==> AfterValue(text[p..]).None?
  {
    hide Token, AfterQuoted;
    NotAtEnd(data, text, p);
    if data[p] == QUOTE {
      assert text[p..][1..] == text[p + 1..];
      ok, q := ParseQuotedString(data, p, text);
    } else {
      q := ParseToken(data, p, text);
      assert |Token(text[p..])| == q - p;
      assert text[p..][q - p..] == text[q..];
      ok := q > p;
    }
  }

  /** The equals sign and the value. */
  method ParseSign(data: seq<Octet>, p: nat, ghost text: seq<Octet>) returns (ok: bool, q: nat)
    requires Ended(data, text) && p <= |text|
    ensures ok ==> p <= q <= |text| && AfterSign(text[p..]) == Some(text[q..])
    ensures !ok ==> AfterSign(text[p..]).None?
  {
    hide SkipLws, AfterValue;
    NotAtEnd(data, text, p);
    if data[p] != EQUALS {
      return false, p;
    }
    assert text[p..][1..] == text[p + 1..];
    q := SkipLwsFrom(data, p + 1, text);
    ok, q := ParseParameterValue(data, q, text);
    if ok {
      q := SkipLwsFrom(data, q, text);
    }
  }

  /** One turn of the inner loop, from the name on. */
  method ParseParameter(data: seq<Octet>, p: nat, ghost text: seq<Octet>) returns (ok: bool, q: nat)
    requires Ended(data, text) && p <= |text|
    ensures ok ==> p <= q <= |text| && AfterParameter(text[p..]) == Some(text[q..])
    ensures !ok ==> AfterParameter(text[p..]).None?
  {
    hide Token, SkipLws, AfterSign;
    q := ParseToken(data, p, text);
    TokenTaken(text, p, q);
    if q == p {
      return false, q;
    }
    q := SkipLwsFrom(data, q, text);
    ok, q := ParseSign(data, q, text);
  }

  lemma TokenTaken(text: seq<Octet>, p: nat, q: nat)
    requires p <= q <= |text| && Token(text[p..]) == text[p..q]
    ensures (Token(text[p..]) == [] <==> q == p) && text[p..][|Token(text[p..])|..] == text[q..]
  {
    hide Token;
  }

  /** `while (*p == ';')` */
  method ParseParameters(data: seq<Octet>, p: nat, ghost text: seq<Octet>) returns (ok: bool, q: nat)
    requires Ended(data, text) && p <= |text|
    ensures ok ==> p <= q <= |text| && AfterParameters(text[p..]) == Some(text[q..])
    ensures !ok ==> AfterParameters(text[p..]).None?
  {
    hide AfterParameter, SkipLws;
    ok, q := true, p;
    NotAtEnd(data, text, q);
    while data[q] == SEMICOLON
      invariant p <= q <= |text| && AfterParameters(text[p..]) == AfterParameters(text[q..])
      decreases |text| - q
    {
      NotAtEnd(data, text, q);
      assert text[q..][1..] == text[q + 1..];
      q := SkipLwsFrom(data, q + 1, text);
      ok, q := ParseParameter(data, q, text);
      if !ok {
        return;
      }
    }
    NotAtEnd(data, text, q);
  }

  /** What one turn of the loop looks at. */
  lemma OneCoding(text: seq<Octet>, p: nat, start: nat, end: nat, next: nat)
    requires p <= start <= end <= next <= |text| && SkipLws(text[p..]) == text[start..]
    requires Token(text[start..]) == text[start..end] && SkipLws(text[end..]) == text[next..]
    ensures LastCoding(text[p..]) == Concluded(text[start..end], AfterParameters(text[next..]))
  {
    hide Token, SkipLws, AfterParameters, Concluded;
    TokenTaken(text, start, end);
  }

  lemma NoCoding(text: seq<Octet>, p: nat, start: nat)
    requires p <= start <= |text| && SkipLws(text[p..]) == text[start..] && Token(text[start..]) == []
    ensures LastCoding(text[p..]).None?
  {
    hide Token, SkipLws, AfterParameters;
  }

  lemma WhenConcluded(name: seq<Octet>, rest: seq<Octet>)
    requires name != []
    ensures Concluded(name, Some(rest)) == if rest != [] && rest[0] == COMMA then LastCoding(rest[1..]) else Some((name, rest))
  {
  }

  lemma NothingConcluded(name: seq<Octet>)
    ensures Concluded(name, None).None?
  {
  }

  lemma Refused(s: seq<Octet>)
    ensures LastCoding(s).None? <==> LastIsChunked(s).None?
  {
  }

  lemma Accepted(s: seq<Octet>)
    requires LastCoding(s).Some?
    ensures var (name, rest) := LastCoding(s).value; LastIsChunked(s) == Some(rest == [] && SameButCase(name, CHUNKED))
  {
  }

  /** One turn of the loop: the name of a coding, its parameters, and the white space around them. */
  method ParseCoding(data: seq<Octet>, from: nat, ghost text: seq<Octet>) returns (ok: bool, token: seq<Octet>, p: nat)
    requires Ended(data, text) && from <= |text|
    ensures ok ==> from <= p <= |text| && token != [] && LastCoding(text[from..]) == Concluded(token, Some(text[p..]))
    ensures ok ==> p > from
    ensures !ok ==> LastCoding(text[from..]).None?
  {
    hide Token, SkipLws, AfterParameters, LastCoding, Concluded;
    p := SkipLwsFrom(data, from, text);
    var start := p;
    p := ParseToken(data, start, text);
    var end := p;
    if end == start {
      NoCoding(text, from, start);
      return false, [], p;
    }
    token := data[start..end];
    assert token == text[start..end];
    p := SkipLwsFrom(data, p, text);
    OneCoding(text, from, start, end, p);
    ok, p := ParseParameters(data, p, text);
    if !ok {
      NothingConcluded(token);
    }
  }

  /** The loop over transfer codings; result is -1 if there is none where one must be. */
  method ScanTransferEncoding(value: seq<Octet>) returns (result: int, isChunked: bool)
    ensures var r := LastIsChunked(UpToNul(value));
            if result != 0 then r.None? else r == Some(isChunked)
  {
    hide SameButCase, LastCoding, LastIsChunked, Concluded, UpToNul;
    ghost var text := UpToNul(value);
    var data := UpToNul(value) + [0];
    var p := 0;
    assert text[0..] == text;
    while true
      invariant p <= |text| && LastCoding(text) == LastCoding(text[p..])
      decreases |text| - p
    {
      var ok, token;
      ok, token, p := ParseCoding(data, p, text);
      if !ok {
        Refused(text);
        return -1, false;
      }
      NotAtEnd(data, text, p);
      WhenConcluded(token, text[p..]);
      if data[p] != COMMA {
        Accepted(text);
        return 0, data[p] == 0 && SameButCase(token, CHUNKED);
      }
      assert text[p..][1..] == text[p + 1..];
      p := p + 1;
    }
  }

  // ----- Lists of transfer codings as they are written, with white space where it may be -----

  /** A quoted string as it stands between its quotes. */
  datatype Value = Bare(token: seq<Octet>) | Quoted(raw: seq<Octet>)

  datatype Parameter =
    Parameter(w0: seq<Octet>, attribute: seq<Octet>, w1: seq<Octet>, w2: seq<Octet>, value: Value, w3: seq<Octet>)

  datatype Coding = Coding(w0: seq<Octet>, name: seq<Octet>, w1: seq<Octet>, parameters: seq<Parameter>)

  function WrittenValue(v: Value): seq<Octet>
  {
    match v
    case Bare(token) => token
    case Quoted(raw) => [QUOTE] + (raw + [QUOTE])
  }

  /** From the name on. */
  function WrittenParameter(p: Parameter): seq<Octet>
  {
    p.w0 + (p.attribute + (p.w1 + ([EQUALS] + (p.w2 + (WrittenValue(p.value) + p.w3)))))
  }

  function WrittenParameters(ps: seq<Parameter>): seq<Octet>
  {
    if ps == [] then [] else [SEMICOLON] + (WrittenParameter(ps[0]) + WrittenParameters(ps[1..]))
  }

  function WrittenCoding(c: Coding): seq<Octet>
  {
    c.w0 + (c.name + (c.w1 + WrittenParameters(c.parameters)))
  }

  function WrittenCodings(cs: seq<Coding>): seq<Octet>
  {
    if cs == [] then [] else WrittenCoding(cs[0]) + if |cs| == 1 then [] else [COMMA] + WrittenCodings(cs[1..])
  }

  /** Text without quotes and backslashes, or pairs of a backslash and a character. */
  predicate GoodRaw(raw: seq<Octet>)
  {
    raw == [] ||
    if raw[0] == BACKSLASH then |raw| >= 2 && 1 <= raw[1] <= 127 && GoodRaw(raw[2..])
    else raw[0] != QUOTE && IsText(raw[0]) && GoodRaw(raw[1..])
  }

  predicate GoodValue(v: Value)
  {
    match v
    case Bare(token) => IsToken(token)
    case Quoted(raw) => GoodRaw(raw)
  }

  predicate GoodParameter(p: Parameter)
  {
    IsToken(p.attribute) && GoodValue(p.value) && AllLws(p.w0) && AllLws(p.w1) && AllLws(p.w2) && AllLws(p.w3)
  }

  predicate GoodParameters(ps: seq<Parameter>)
  {
    forall i :: 0 <= i < |ps| ==> GoodParameter(ps[i])
  }

  predicate GoodCoding(c: Coding)
  {
    IsToken(c.name) && AllLws(c.w0) && AllLws(c.w1) && GoodParameters(c.parameters)
  }

  predicate GoodCodings(cs: seq<Coding>)
  {
    cs != [] && forall i :: 0 <= i < |cs| ==> GoodCoding(cs[i])
  }

  /** Nothing that would go on what comes before it: white space, or a token if that is one. */
  predicate Stops(open: bool, s: seq<Octet>)
  {
    s == [] || (!IsLws(s[0]) && (open ==> !IsTokenChar(s[0])))
  }

  predicate OpenParameter(p: Parameter)
  {
    p.value.Bare? && p.w3 == []
  }

  /** The coding ends in a token. */
  predicate Open(w: seq<Octet>, ps: seq<Parameter>)
  {
    if ps == [] then w == [] else OpenParameter(ps[|ps| - 1])
  }

  /** The codings, and something behind them that neither goes on the last one nor leads to another. */
  predicate IsReading(s: seq<Octet>, cs: seq<Coding>, rest: seq<Octet>)
  {
    && GoodCodings(cs) && s == WrittenCodings(cs) + rest
    && Stops(Open(cs[|cs| - 1].w1, cs[|cs| - 1].parameters), rest)
    && (rest != [] ==> rest[0] != SEMICOLON && rest[0] != COMMA)
  }

  /** The whole value is a list of transfer codings. */
  ghost predicate IsList(s: seq<Octet>)
  {
    exists cs :: GoodCodings(cs) && s == WrittenCodings(cs)
  }

  lemma SpaceSkipped(w: seq<Octet>, s: seq<Octet>)
    requires AllLws(w) && (s != [] ==> !IsLws(s[0]))
    ensures SkipLws(w + s) == s
  {
    SkipBefore(w, s);
  }

  /** A token ends before white space, and before what stops it. */
  lemma TokenEnds(t: seq<Octet>, w: seq<Octet>, s: seq<Octet>)
    requires IsToken(t) && AllLws(w) && Stops(w == [], s)
    ensures Token(t + (w + s)) == t && (t + (w + s))[|t|..] == w + s && SkipLws(w + s) == s
    ensures !IsLws((t + (w + s))[0]) && (t + (w + s))[0] != QUOTE
  {
    var rest := w + s;
    if w != [] {
      assert rest[0] == w[0];
    } else {
      assert rest == s;
    }
    TokenBefore(t, rest);
    SpaceSkipped(w, s);
  }

  lemma {:induction false} QuotedRead(raw: seq<Octet>, rest: seq<Octet>)
    requires GoodRaw(raw)
    ensures AfterQuoted(raw + ([QUOTE] + rest)) == Some(rest)
  {
    hide IsText;
    var s := raw + ([QUOTE] + rest);
    if raw == [] {
      assert s[1..] == rest;
    } else if raw[0] == BACKSLASH {
      QuotedRead(raw[2..], rest);
      assert s[2..] == raw[2..] + ([QUOTE] + rest);
    } else {
      QuotedRead(raw[1..], rest);
      assert s[1..] == raw[1..] + ([QUOTE] + rest);
    }
  }

  lemma BareRead(token: seq<Octet>, w: seq<Octet>, s: seq<Octet>)
    requires IsToken(token) && AllLws(w) && Stops(w == [], s)
    ensures AfterValue(token + (w + s)) == Some(w + s) && SkipLws(token + (w + s)) == token + (w + s)
  {
    hide AfterQuoted, Token, AllLws, Stops;
    TokenEnds(token, w, s);
  }

  lemma WholeRead(raw: seq<Octet>, rest: seq<Octet>)
    requires GoodRaw(raw)
    ensures var s := [QUOTE] + (raw + [QUOTE]) + rest; AfterValue(s) == Some(rest) && SkipLws(s) == s
  {
    hide Token, AfterQuoted, GoodRaw;
    QuotedRead(raw, rest);
    var s := [QUOTE] + (raw + [QUOTE]) + rest;
    assert s[1..] == raw + ([QUOTE] + rest);
  }

  lemma ValueRead(v: Value, w: seq<Octet>, s: seq<Octet>)
    requires GoodValue(v) && AllLws(w) && Stops(v.Bare? && w == [], s)
    ensures AfterValue(WrittenValue(v) + (w + s)) == Some(w + s) && SkipLws(w + s) == s
    ensures SkipLws(WrittenValue(v) + (w + s)) == WrittenValue(v) + (w + s)
  {
    hide AfterValue, GoodRaw, IsToken, SkipLws, AllLws;
    SpaceSkipped(w, s);
    match v
    case Bare(token) =>
      BareRead(token, w, s);
    case Quoted(raw) =>
      WholeRead(raw, w + s);
  }

  lemma SignRead(p: Parameter, s: seq<Octet>)
    requires GoodParameter(p) && Stops(OpenParameter(p), s)
    ensures AfterSign([EQUALS] + (p.w2 + (WrittenValue(p.value) + (p.w3 + s)))) == Some(s)
  {
    hide SkipLws, AfterValue, WrittenValue, GoodValue, AllLws, IsToken, Stops;
    var value := WrittenValue(p.value) + (p.w3 + s);
    ValueRead(p.value, p.w3, s);
    SkipBefore(p.w2, value);
    assert ([EQUALS] + (p.w2 + value))[1..] == p.w2 + value;
  }

  lemma ParameterIs(p: Parameter, s: seq<Octet>)
    ensures WrittenParameter(p) + s
         == p.w0 + (p.attribute + (p.w1 + ([EQUALS] + (p.w2 + (WrittenValue(p.value) + (p.w3 + s))))))
  {
  }

  lemma ParameterRead(p: Parameter, s: seq<Octet>)
    requires GoodParameter(p) && Stops(OpenParameter(p), s)
    ensures AfterSemicolon(WrittenParameter(p) + s) == Some(s)
  {
    hide Token, SkipLws, AfterSign, WrittenValue, WrittenParameter, GoodValue;
    var sign := [EQUALS] + (p.w2 + (WrittenValue(p.value) + (p.w3 + s)));
    ParameterIs(p, s);
    TokenEnds(p.attribute, p.w1, sign);
    SpaceSkipped(p.w0, p.attribute + (p.w1 + sign));
    SignRead(p, s);
  }

  lemma NextParameter(more: seq<Octet>, rest: seq<Octet>)
    requires AfterSemicolon(more) == Some(rest)
    ensures AfterParameters([SEMICOLON] + more) == AfterParameters(rest)
  {
    hide AfterSemicolon;
    assert ([SEMICOLON] + more)[1..] == more;
  }

  lemma {:induction false} ParametersRead(ps: seq<Parameter>, rest: seq<Octet>)
    requires GoodParameters(ps) && (rest != [] ==> rest[0] != SEMICOLON) && (ps != [] ==> Stops(Open([], ps), rest))
    ensures AfterParameters(WrittenParameters(ps) + rest) == Some(rest)
  {
    hide AfterSemicolon, AfterParameters, WrittenParameter, GoodParameter, OpenParameter;
    if ps == [] {
      assert WrittenParameters(ps) + rest == rest;
      NoParameters(rest);
    } else {
      var s := WrittenParameters(ps[1..]) + rest;
      ParametersRead(ps[1..], rest);
      assert ps[1..] == [] ==> s == rest;
      assert ps[1..] != [] ==> s[0] == SEMICOLON && ps[1..][|ps| - 2] == ps[|ps| - 1];
      ParameterRead(ps[0], s);
      NextParameter(WrittenParameter(ps[0]) + s, s);
      FirstParameter(ps, rest);
    }
  }

  lemma FirstParameter(ps: seq<Parameter>, rest: seq<Octet>)
    requires ps != []
    ensures WrittenParameters(ps) + rest == [SEMICOLON] + (WrittenParameter(ps[0]) + (WrittenParameters(ps[1..]) + rest))
  {
    hide WrittenParameter;
  }

  lemma NoParameters(rest: seq<Octet>)
    requires rest != [] ==> rest[0] != SEMICOLON
    ensures AfterParameters(rest) == Some(rest)
  {
  }

  lemma NameRead(c: Coding, s: seq<Octet>)
    requires GoodCoding(c) && Stops(c.w1 == [], s)
    ensures LastCoding(c.w0 + (c.name + (c.w1 + s))) == Concluded(c.name, AfterParameters(s))
  {
    hide Token, SkipLws, AfterParameters, Concluded;
    TokenEnds(c.name, c.w1, s);
    SpaceSkipped(c.w0, c.name + (c.w1 + s));
  }

  /** One coding, and what comes behind it. */
  lemma CodingRead(c: Coding, rest: seq<Octet>)
    requires GoodCoding(c) && Stops(Open(c.w1, c.parameters), rest) && (rest != [] ==> rest[0] != SEMICOLON)
    ensures c.name != [] && LastCoding(WrittenCoding(c) + rest) == Concluded(c.name, Some(rest))
  {
    hide LastCoding, Concluded, AfterParameters, GoodParameters, OpenParameter, AllLws, WrittenCoding;
    var s := WrittenParameters(c.parameters) + rest;
    ParametersRead(c.parameters, rest);
    if c.parameters == [] {
      assert s == rest;
    } else {
      assert s[0] == SEMICOLON;
    }
    NameRead(c, s);
    CodingIs(c, rest);
  }

  lemma CodingIs(c: Coding, rest: seq<Octet>)
    ensures WrittenCoding(c) + rest == c.w0 + (c.name + (c.w1 + (WrittenParameters(c.parameters) + rest)))
  {
    hide WrittenParameters;
  }

  /**
   * Of transfer codings that are written, whatever parameters and white space there are, exactly the last
   * one counts, if nothing comes behind it. What comes behind is not looked at.
   */
  lemma {:induction false} CodingsRead(s: seq<Octet>, cs: seq<Coding>, rest: seq<Octet>)
    requires IsReading(s, cs, rest)
    ensures LastCoding(s) == Some((cs[|cs| - 1].name, rest))
    ensures LastIsChunked(s) == Some(rest == [] && SameButCase(cs[|cs| - 1].name, CHUNKED))
    decreases |cs|
  {
    hide LastCoding, WrittenCoding, SameButCase, GoodCoding, Open, Concluded;
    if |cs| == 1 {
      assert s == WrittenCoding(cs[0]) + rest;
      CodingRead(cs[0], rest);
      WhenConcluded(cs[0].name, rest);
    } else {
      var more := WrittenCodings(cs[1..]) + rest;
      assert cs[1..][|cs| - 2] == cs[|cs| - 1];
      CodingsRead(more, cs[1..], rest);
      CodingRead(cs[0], [COMMA] + more);
      WhenConcluded(cs[0].name, [COMMA] + more);
      assert s == WrittenCoding(cs[0]) + ([COMMA] + more) && ([COMMA] + more)[1..] == more;
    }
  }

  // ----- What is accepted has been written like that -----

  lemma {:induction false} RawFound(s: seq<Octet>) returns (raw: seq<Octet>)
    requires AfterQuoted(s).Some?
    ensures GoodRaw(raw) && s == raw + ([QUOTE] + AfterQuoted(s).value)
  {
    hide IsText;
    if s[0] == QUOTE {
      raw := [];
      assert s == [QUOTE] + s[1..];
    } else {
      var n := if s[0] == BACKSLASH then 2 else 1;
      var more := RawFound(s[n..]);
      raw := s[..n] + more;
      Regrouped(s, n, more, [QUOTE] + AfterQuoted(s).value);
    }
  }

  lemma Regrouped(s: seq<Octet>, n: nat, more: seq<Octet>, rest: seq<Octet>)
    requires n <= |s| && s[n..] == more + rest
    ensures s == (s[..n] + more) + rest && (s[..n] + more)[n..] == more
  {
    assert s == s[..n] + s[n..];
  }

  lemma {:induction false} SpaceSkippedIs(s: seq<Octet>)
    ensures AllLws(s[..|s| - |SkipLws(s)|])
  {
    hide IsLws;
    if s != [] && IsLws(s[0]) {
      var w := s[1..][..|s[1..]| - |SkipLws(s[1..])|];
      SpaceSkippedIs(s[1..]);
      forall i | 0 < i < |w| + 1
        ensures IsLws(s[i])
      {
        assert w[i - 1] == s[i];
      }
    }
  }

  lemma Parted(s: seq<Octet>, n: nat)
    requires n <= |s|
    ensures s == s[..n] + s[n..]
  {
  }

  /** White space that is skipped. */
  lemma SpaceFound(s: seq<Octet>) returns (w: seq<Octet>)
    ensures AllLws(w) && s == w + SkipLws(s) && (w == [] ==> s == SkipLws(s))
  {
    w := s[..|s| - |SkipLws(s)|];
    SpaceSkippedIs(s);
    hide AllLws;
    Parted(s, |s| - |SkipLws(s)|);
    if w == [] {
      assert s[0..] == s;
    }
  }

  /** A token and the white space behind it. */
  lemma TokenFound(s: seq<Octet>) returns (w: seq<Octet>)
    requires Token(s) != []
    ensures var rest := SkipLws(s[|Token(s)|..]);
            IsToken(Token(s)) && AllLws(w) && s == Token(s) + (w + rest) && Stops(w == [], rest)
  {
    var t := Token(s);
    var more := s[|t|..];
    Parted(s, |t|);
    assert more != [] ==> more[0] == s[|t|];
    w := SpaceFound(more);
    hide Token, AllLws;
  }

  lemma ValueFound(s: seq<Octet>) returns (v: Value)
    requires AfterValue(s).Some?
    ensures GoodValue(v) && s == WrittenValue(v) + AfterValue(s).value
    ensures var more := AfterValue(s).value; more != [] && IsTokenChar(more[0]) ==> v.Quoted?
  {
    hide GoodRaw, AfterQuoted;
    if s != [] && s[0] == QUOTE {
      var raw := RawFound(s[1..]);
      v := Quoted(raw);
      assert s == [QUOTE] + s[1..];
    } else {
      v := Bare(Token(s));
      assert s == Token(s) + s[|Token(s)|..];
    }
  }

  /** What white space is behind a value goes with it. */
  lemma ValueEnds(s: seq<Octet>) returns (v: Value, w: seq<Octet>)
    requires AfterValue(s).Some?
    ensures var rest := SkipLws(AfterValue(s).value);
            GoodValue(v) && AllLws(w) && s == WrittenValue(v) + (w + rest) && Stops(v.Bare? && w == [], rest)
  {
    hide AfterValue, GoodValue, WrittenValue, AllLws, SkipLws;
    v := ValueFound(s);
    w := SpaceFound(AfterValue(s).value);
    var rest := SkipLws(AfterValue(s).value);
    assert w == [] ==> rest == AfterValue(s).value;
  }

  lemma SignFound(s: seq<Octet>) returns (w2: seq<Octet>, v: Value, w3: seq<Octet>)
    requires AfterSign(s).Some?
    ensures var rest := AfterSign(s).value;
            && GoodValue(v) && AllLws(w2) && AllLws(w3) && Stops(v.Bare? && w3 == [], rest)
            && s == [EQUALS] + (w2 + (WrittenValue(v) + (w3 + rest)))
  {
    hide AfterValue, GoodValue, WrittenValue, AllLws, SkipLws, Stops;
    w2 := SpaceFound(s[1..]);
    v, w3 := ValueEnds(SkipLws(s[1..]));
    assert s == [EQUALS] + s[1..];
  }

  lemma ParameterFound(s: seq<Octet>) returns (p: Parameter)
    requires AfterSemicolon(s).Some?
    ensures var rest := AfterSemicolon(s).value;
            GoodParameter(p) && s == WrittenParameter(p) + rest && Stops(OpenParameter(p), rest)
  {
    hide Token, AfterSign, GoodValue, WrittenValue, AllLws, SkipLws, Stops, IsToken;
    var w0 := SpaceFound(s);
    var t := SkipLws(s);
    var w1 := TokenFound(t);
    var w2, v, w3 := SignFound(SkipLws(t[|Token(t)|..]));
    p := Parameter(w0, Token(t), w1, w2, v, w3);
    ParameterIs(p, AfterSemicolon(s).value);
  }

  lemma {:induction false} ParametersFound(s: seq<Octet>) returns (ps: seq<Parameter>)
    requires AfterParameters(s).Some?
    ensures var rest := AfterParameters(s).value;
            && GoodParameters(ps) && s == WrittenParameters(ps) + rest && (rest != [] ==> rest[0] != SEMICOLON)
            && (ps != [] ==> Stops(Open([], ps), rest))
    decreases |s|
  {
    hide AfterSemicolon, GoodParameter, WrittenParameter, OpenParameter;
    ps := [];
    if s != [] && s[0] == SEMICOLON {
      var rest := AfterParameters(s).value;
      var p := ParameterFound(s[1..]);
      var after := AfterSemicolon(s[1..]).value;
      ps := ParametersFound(after);
      if ps == [] {
        assert after == rest;
      }
      ps := AnotherParameter(p, ps);
      assert s == [SEMICOLON] + s[1..];
      FirstParameter(ps, rest);
    }
  }

  lemma AnotherParameter(p: Parameter, ps: seq<Parameter>) returns (all: seq<Parameter>)
    requires GoodParameter(p) && GoodParameters(ps)
    ensures GoodParameters(all) && all != [] && all[0] == p && all[1..] == ps
    ensures all[|all| - 1] == if ps == [] then p else ps[|ps| - 1]
  {
    hide GoodParameter;
    all := [p] + ps;
  }

  /** The first coding, and what comes behind it. */
  lemma CodingFound(s: seq<Octet>) returns (c: Coding, rest: seq<Octet>)
    requires LastCoding(s).Some?
    ensures GoodCoding(c) && s == WrittenCoding(c) + rest && Stops(Open(c.w1, c.parameters), rest)
    ensures LastCoding(s) == Concluded(c.name, Some(rest)) && c.name != [] && (rest != [] ==> rest[0] != SEMICOLON)
  {
    hide Token, AfterParameters, AllLws, SkipLws, GoodParameters, WrittenParameters, WrittenCoding, OpenParameter, LastCoding,
         Concluded, Stops, IsToken;
    var w0 := SpaceFound(s);
    var t := SkipLws(s);
    NameThere(s);
    var w1 := TokenFound(t);
    var more := SkipLws(t[|Token(t)|..]);
    var ps := ParametersFound(more);
    rest := AfterParameters(more).value;
    c := Coding(w0, Token(t), w1, ps);
    if ps == [] {
      NothingWritten(rest);
    }
    CodingIs(c, rest);
  }

  lemma NothingWritten(rest: seq<Octet>)
    ensures WrittenParameters([]) + rest == rest
  {
  }

  lemma NameThere(s: seq<Octet>)
    requires LastCoding(s).Some?
    ensures var t := SkipLws(s);
            var rest := AfterParameters(SkipLws(t[|Token(t)|..]));
            Token(t) != [] && rest.Some? && LastCoding(s) == Concluded(Token(t), rest)
  {
    hide Token, SkipLws, AfterParameters;
  }

  /** What is accepted is a reading of transfer codings. */
  lemma {:induction false} CodingsFound(s: seq<Octet>) returns (cs: seq<Coding>, rest: seq<Octet>)
    requires LastCoding(s).Some?
    ensures IsReading(s, cs, rest)
    decreases |s|
  {
    hide LastCoding, WrittenCoding, GoodCoding, Open, Concluded, Stops;
    var c;
    c, rest := CodingFound(s);
    WhenConcluded(c.name, rest);
    if rest == [] || rest[0] != COMMA {
      cs := [c];
      assert WrittenCodings(cs) == WrittenCoding(c);
    } else {
      var after := rest;
      WrittenNotEmpty(c);
      cs, rest := CodingsFound(after[1..]);
      cs := AnotherCoding(c, cs);
      assert after == [COMMA] + after[1..];
      assert s == WrittenCodings(cs) + rest;
    }
  }

  lemma WrittenNotEmpty(c: Coding)
    requires c.name != []
    ensures WrittenCoding(c) != []
  {
  }

  lemma AnotherCoding(c: Coding, cs: seq<Coding>) returns (all: seq<Coding>)
    requires GoodCoding(c) && GoodCodings(cs)
    ensures GoodCodings(all) && all[|all| - 1] == cs[|cs| - 1]
    ensures WrittenCodings(all) == WrittenCoding(c) + ([COMMA] + WrittenCodings(cs))
  {
    hide GoodCoding, WrittenCoding;
    all := [c] + cs;
    assert all[1..] == cs;
  }

  /** The value is something else than a list, but begins with one that nothing goes on. */
  ghost predicate BeginsWithList(s: seq<Octet>)
  {
    exists cs, rest :: rest != [] && IsReading(s, cs, rest)
  }

  /**
   * A value is accepted exactly if it is a list of transfer codings, or, although malformed, begins with
   * one that is followed by something else than a comma; it is taken to be chunked only if it is a list.
   */
  lemma WhenAccepted(s: seq<Octet>)
    ensures LastIsChunked(s).Some? <==> IsList(s) || BeginsWithList(s)
    ensures !(IsList(s) && BeginsWithList(s))
    ensures BeginsWithList(s) ==> LastIsChunked(s) == Some(false)
    ensures LastIsChunked(s) == Some(true) <==>
      exists cs: seq<Coding> :: GoodCodings(cs) && s == WrittenCodings(cs) && SameButCase(cs[|cs| - 1].name, CHUNKED)
  {
    hide LastCoding, GoodCoding, WrittenCodings, SameButCase, Open;
    Refused(s);
    if LastCoding(s).Some? {
      var cs, rest := CodingsFound(s);
      CodingsRead(s, cs, rest);
      if rest == [] {
        assert s == WrittenCodings(cs);
      }
    }
    if IsList(s) {
      var cs :| GoodCodings(cs) && s == WrittenCodings(cs);
      ListIsReading(s, cs);
      CodingsRead(s, cs, []);
    }
    forall cs: seq<Coding> | GoodCodings(cs) && s == WrittenCodings(cs)
      ensures LastIsChunked(s) == Some(SameButCase(cs[|cs| - 1].name, CHUNKED))
    {
      ListIsReading(s, cs);
      CodingsRead(s, cs, []);
    }
    forall cs, rest | IsReading(s, cs, rest)
      ensures LastCoding(s).Some? && LastCoding(s).value.1 == rest && (rest != [] ==> LastIsChunked(s) == Some(false))
    {
      CodingsRead(s, cs, rest);
    }
  }

  lemma ListIsReading(s: seq<Octet>, cs: seq<Coding>)
    requires GoodCodings(cs) && s == WrittenCodings(cs)
    ensures IsReading(s, cs, [])
  {
    hide GoodCoding, WrittenCodings, Open;
    assert s == WrittenCodings(cs) + [];
  }

  /** "chunked x" is no list of transfer codings, but is accepted, as a value that does not end in chunked. */
  lemma ChunkedAndMore(s: seq<Octet>)
    requires s == CHUNKED + [SP, 120]
    ensures !IsList(s) && BeginsWithList(s) && LastIsChunked(s) == Some(false)
  {
    var c := Coding([], CHUNKED, [SP], []);
    assert forall i :: 0 <= i < |CHUNKED| ==> IsTokenChar(CHUNKED[i]);
    assert WrittenCodings([c]) == WrittenCoding(c) == CHUNKED + [SP];
    assert s == (CHUNKED + [SP]) + [120];
    assert IsReading(s, [c], [120]);
    WhenAccepted(s);
  }

  /** An empty element, which section 2.1 of RFC 2616 allows in lists, is refused at the end of one. */
  lemma {:induction false} EmptyElementRefused(cs: seq<Coding>, w: seq<Octet>)
    requires GoodCodings(cs) && AllLws(w)
    ensures LastIsChunked(WrittenCodings(cs) + ([COMMA] + w)).None?
    decreases |cs|
  {
    hide LastCoding, WrittenCoding, GoodCoding, Open, Concluded;
    var end := [COMMA] + w;
    var s := WrittenCodings(cs) + end;
    var rest := if |cs| == 1 then end else [COMMA] + (WrittenCodings(cs[1..]) + end);
    CodingRead(cs[0], rest);
    WhenConcluded(cs[0].name, rest);
    assert s == WrittenCoding(cs[0]) + rest;
    if |cs| == 1 {
      assert end[1..] == w;
      OnlySpace(w);
    } else {
      assert rest[1..] == WrittenCodings(cs[1..]) + end;
      EmptyElementRefused(cs[1..], w);
      Refused(rest[1..]);
    }
    Refused(s);
  }

  lemma OnlySpace(w: seq<Octet>)
    requires AllLws(w)
    ensures LastCoding(w).None?
  {
    SkipBefore(w, []);
    assert w + [] == w;
  }
}
