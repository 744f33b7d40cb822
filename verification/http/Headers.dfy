/** Message headers, section 4.2 of RFC 2616: fields, folded lines, and lists of fields without duplicates. */
module Headers {
  import opened Octets
  import opened Options

  datatype Header = Header(name: seq<Octet>, value: seq<Octet>)

  // ----- One field -----

  function Token(s: seq<Octet>): (t: seq<Octet>)
    ensures |t| <= |s| && t == s[..|t|] && (|t| < |s| ==> !IsTokenChar(s[|t|]))
    ensures forall i :: 0 <= i < |t| ==> IsTokenChar(t[i])
  {
    if s == [] || !IsTokenChar(s[0]) then [] else [s[0]] + Token(s[1..])
  }

  function SkipLws(s: seq<Octet>): (t: seq<Octet>)
    ensures |t| <= |s| && t == s[|s| - |t|..] && (t != [] ==> !IsLws(t[0]))
  {
    if s == [] || !IsLws(s[0]) then s else SkipLws(s[1..])
  }

  function DropLws(s: seq<Octet>): (t: seq<Octet>)
    ensures |t| <= |s| && t == s[..|t|] && (t != [] ==> !IsLws(t[|t| - 1]))
  {
    if s == [] || !IsLws(s[|s| - 1]) then s else DropLws(s[..|s| - 1])
  }

  function Trim(s: seq<Octet>): seq<Octet>
  {
    DropLws(SkipLws(s))
  }

  datatype Parsed = Bad | Empty | Field(header: Header)

  /** A name, a colon, and a value without the white space around it; there is no field without a value. */
  function ParseHeader(s: seq<Octet>): Parsed
  {
    var name := Token(s);
    var r := SkipLws(s[|name|..]);
    if name == [] || r == [] || r[0] != COLON then Bad
    else if SkipLws(r[1..]) == [] then Empty
    else Field(Header(name, Trim(r[1..])))
  }

  predicate AllLws(s: seq<Octet>)
  {
    forall i :: 0 <= i < |s| ==> IsLws(s[i])
  }

  predicate IsToken(s: seq<Octet>)
  {
    s != [] && forall i :: 0 <= i < |s| ==> IsTokenChar(s[i])
  }

  lemma {:induction false} TokenBefore(t: seq<Octet>, rest: seq<Octet>)
    requires (forall i :: 0 <= i < |t| ==> IsTokenChar(t[i])) && (rest != [] ==> !IsTokenChar(rest[0]))
    ensures Token(t + rest) == t
  {
    if t == [] {
      assert t + rest == rest;
    } else {
      assert (t + rest)[1..] == t[1..] + rest;
      TokenBefore(t[1..], rest);
    }
  }

  lemma {:induction false} SkipBefore(w: seq<Octet>, s: seq<Octet>)
    requires AllLws(w)
    ensures SkipLws(w + s) == SkipLws(s)
  {
    if w == [] {
      assert w + s == s;
    } else {
      assert (w + s)[1..] == w[1..] + s;
      SkipBefore(w[1..], s);
    }
  }

  lemma {:induction false} DropAfter(s: seq<Octet>, w: seq<Octet>)
    requires AllLws(w)
    ensures DropLws(s + w) == DropLws(s)
  {
    if w == [] {
      assert s + w == s;
    } else {
      var n := |w| - 1;
      assert (s + w)[..|s + w| - 1] == s + w[..n];
      DropAfter(s, w[..n]);
    }
  }

  lemma {:induction false} SkipKeepsEnd(s: seq<Octet>, w: seq<Octet>)
    requires AllLws(w)
    ensures SkipLws(s + w) == if SkipLws(s) == [] then [] else SkipLws(s) + w
  {
    if s == [] {
      assert s + w == w == w + [];
      SkipBefore(w, []);
    } else if IsLws(s[0]) {
      assert (s + w)[1..] == s[1..] + w;
      SkipKeepsEnd(s[1..], w);
    } else {
      assert (s + w)[0] == s[0];
    }
  }

  /** However much white space is put around colon and value, the field is the same. */
  lemma FieldIsParsed(name: seq<Octet>, before: seq<Octet>, value: seq<Octet>, after: seq<Octet>)
    requires IsToken(name) && AllLws(before) && AllLws(after)
    ensures ParseHeader(name + (before + ([COLON] + (value + after))))
         == if Trim(value) == [] then Empty else Field(Header(name, Trim(value)))
  {
    var r, rest := [COLON] + (value + after), before + ([COLON] + (value + after));
    NotInToken(before, r);
    TokenBefore(name, rest);
    assert (name + rest)[|name|..] == rest;
    SkipBefore(before, r);
    assert SkipLws(r) == r && r[1..] == value + after;
    SkipKeepsEnd(value, after);
    if SkipLws(value) != [] {
      DropAfter(SkipLws(value), after);
      DropKeepsFirst(SkipLws(value));
    }
  }

  lemma NotInToken(before: seq<Octet>, r: seq<Octet>)
    requires AllLws(before) && r != [] && r[0] == COLON
    ensures !IsTokenChar((before + r)[0])
  {
    if before != [] {
      assert IsLws(before[0]);
    }
  }

  lemma {:induction false} DropKeepsFirst(s: seq<Octet>)
    requires s != [] && !IsLws(s[0])
    ensures DropLws(s) != []
  {
    if IsLws(s[|s| - 1]) {
      DropKeepsFirst(s[..|s| - 1]);
    }
  }

  // ----- Header texts -----

  predicate Blank(s: seq<Octet>)
  {
    s == [] || s == [LF] || s == CRLF
  }

  /** The lines that continue a header. */
  function Folded(input: seq<Octet>): (s: seq<Octet>)
    ensures |s| <= |input| && s == input[..|s|]
  {
    if input == [] || (input[0] != SP && input[0] != HT) then []
    else
      var l := Line(input);
      var more := Folded(input[|l|..]);
      Prefixes(input, l, more);
      l + more
  }

  lemma Prefixes(input: seq<Octet>, l: seq<Octet>, more: seq<Octet>)
    requires |l| <= |input| && l == input[..|l|] && |more| <= |input| - |l| && more == input[|l|..][..|more|]
    ensures l + more == input[..|l + more|]
  {
  }

  function HeaderText(input: seq<Octet>): (s: seq<Octet>)
    ensures |s| <= |input| && s == input[..|s|]
  {
    var l := Line(input);
    if Blank(l) then l
    else
      var more := Folded(input[|l|..]);
      Prefixes(input, l, more);
      l + more
  }

  // ----- Lists of headers -----

  function AddHeader(hs: seq<Header>, h: Header): seq<Header>
  {
    if hs == [] then [h]
    else if hs[0].name == h.name then [Header(h.name, hs[0].value + [COMMA, SP] + h.value)] + hs[1..]
    else [hs[0]] + AddHeader(hs[1..], h)
  }

  function SetHeader(hs: seq<Header>, h: Header): seq<Header>
  {
    if hs == [] then [h] else if hs[0].name == h.name then [h] + hs[1..] else [hs[0]] + SetHeader(hs[1..], h)
  }

  predicate HasName(hs: seq<Header>, name: seq<Octet>)
  {
    exists i :: 0 <= i < |hs| && hs[i].name == name
  }

  ghost predicate Distinct(hs: seq<Header>)
  {
    forall i, j :: 0 <= i < |hs| && 0 <= j < |hs| && hs[i].name == hs[j].name ==> i == j
  }

  lemma {:induction false} AddToNames(hs: seq<Header>, h: Header, name: seq<Octet>)
    ensures HasName(AddHeader(hs, h), name) <==> HasName(hs, name) || h.name == name
  {
    var hs' := AddHeader(hs, h);
    if hs == [] {
      assert hs' == [h] + [];
      NameInFront(h, [], name);
    } else {
      NameInFront(hs[0], hs[1..], name);
      assert hs == [hs[0]] + hs[1..];
      if hs[0].name == h.name {
        NameInFront(hs'[0], hs[1..], name);
      } else {
        AddToNames(hs[1..], h, name);
        NameInFront(hs[0], AddHeader(hs[1..], h), name);
      }
    }
  }

  lemma NameInFront(h: Header, hs: seq<Header>, name: seq<Octet>)
    ensures HasName([h] + hs, name) <==> h.name == name || HasName(hs, name)
  {
    var all := [h] + hs;
    if HasName(hs, name) {
      var i :| 0 <= i < |hs| && hs[i].name == name;
      assert all[i + 1].name == name;
    }
    if h.name == name {
      assert all[0].name == name;
    }
    if i :| 0 <= i < |all| && all[i].name == name {
      assert i > 0 ==> hs[i - 1].name == name;
    }
  }

  lemma DistinctInFront(h: Header, hs: seq<Header>)
    ensures Distinct([h] + hs) <==> Distinct(hs) && !HasName(hs, h.name)
  {
    var all := [h] + hs;
    if Distinct(all) {
      forall i, j | 0 <= i < |hs| && 0 <= j < |hs| && hs[i].name == hs[j].name ensures i == j {
        assert all[i + 1] == hs[i] && all[j + 1] == hs[j];
      }
      forall i | 0 <= i < |hs| ensures hs[i].name != h.name {
        assert all[i + 1] == hs[i] && all[0] == h;
      }
    }
  }

  /** Adding and setting keep names distinct. */
  lemma {:induction false} AddKeepsDistinct(hs: seq<Header>, h: Header)
    requires Distinct(hs)
    ensures Distinct(AddHeader(hs, h))
  {
    if hs != [] {
      assert hs == [hs[0]] + hs[1..];
      DistinctInFront(hs[0], hs[1..]);
      if hs[0].name == h.name {
        DistinctInFront(AddHeader(hs, h)[0], hs[1..]);
      } else {
        AddKeepsDistinct(hs[1..], h);
        AddToNames(hs[1..], h, hs[0].name);
        DistinctInFront(hs[0], AddHeader(hs[1..], h));
      }
    }
  }

  lemma {:induction false} SetToNames(hs: seq<Header>, h: Header, name: seq<Octet>)
    ensures HasName(SetHeader(hs, h), name) <==> HasName(hs, name) || h.name == name
  {
    if hs == [] {
      assert SetHeader(hs, h)[0] == h;
    } else {
      NameInFront(hs[0], hs[1..], name);
      assert hs == [hs[0]] + hs[1..];
      if hs[0].name == h.name {
        NameInFront(h, hs[1..], name);
      } else {
        SetToNames(hs[1..], h, name);
        NameInFront(hs[0], SetHeader(hs[1..], h), name);
      }
    }
  }

  lemma {:induction false} SetKeepsDistinct(hs: seq<Header>, h: Header)
    requires Distinct(hs)
    ensures Distinct(SetHeader(hs, h))
  {
    if hs != [] {
      assert hs == [hs[0]] + hs[1..];
      DistinctInFront(hs[0], hs[1..]);
      if hs[0].name == h.name {
        DistinctInFront(h, hs[1..]);
      } else {
        SetKeepsDistinct(hs[1..], h);
        SetToNames(hs[1..], h, hs[0].name);
        DistinctInFront(hs[0], SetHeader(hs[1..], h));
      }
    }
  }

  lemma {:induction false} AddNew(hs: seq<Header>, h: Header)
    requires !HasName(hs, h.name)
    ensures AddHeader(hs, h) == hs + [h]
  {
    if hs != [] {
      assert hs == [hs[0]] + hs[1..];
      NameInFront(hs[0], hs[1..], h.name);
      AddNew(hs[1..], h);
    }
  }

  /** All fields with a name, in the order in which they came, separated by commas. */
  function ValueOf(fields: seq<Header>, name: seq<Octet>): Option<seq<Octet>>
  {
    if fields == [] then None else
    var last := fields[|fields| - 1];
    var front := ValueOf(fields[..|fields| - 1], name);
    if last.name != name then front
    else if front.None? then Some(last.value) else Some(front.value + [COMMA, SP] + last.value)
  }

  function Merged(fields: seq<Header>): seq<Header>
  {
    if fields == [] then [] else AddHeader(Merged(fields[..|fields| - 1]), fields[|fields| - 1])
  }

  function Find(hs: seq<Header>, name: seq<Octet>): Option<seq<Octet>>
  {
    if hs == [] then None else if hs[0].name == name then Some(hs[0].value) else Find(hs[1..], name)
  }

  lemma {:induction false} FindAdded(hs: seq<Header>, h: Header, name: seq<Octet>)
    ensures Find(AddHeader(hs, h), name)
         == if name != h.name then Find(hs, name)
            else if Find(hs, name).None? then Some(h.value)
            else Some(Find(hs, name).value + [COMMA, SP] + h.value)
  {
    if hs != [] && hs[0].name != h.name {
      FindAdded(hs[1..], h, name);
      assert AddHeader(hs, h)[1..] == AddHeader(hs[1..], h);
    } else if hs != [] {
      assert AddHeader(hs, h)[1..] == hs[1..];
    }
  }

  /** The list has each spelling of a name once, with the values of all fields that are spelled like that. */
  lemma {:induction false} MergedBySpelling(fields: seq<Header>, name: seq<Octet>)
    ensures Find(Merged(fields), name) == ValueOf(fields, name) && Distinct(Merged(fields))
  {
    if fields != [] {
      var n := |fields| - 1;
      MergedBySpelling(fields[..n], name);
      FindAdded(Merged(fields[..n]), fields[n], name);
      AddKeepsDistinct(Merged(fields[..n]), fields[n]);
    }
  }

  // ----- Names in any case -----

  /** HTTPMessage_find_header */
  function FindHeader(hs: seq<Header>, name: seq<Octet>): Option<seq<Octet>>
  {
    if hs == [] then None
    else if SameButCase(hs[0].name, name) then Some(hs[0].value)
    else FindHeader(hs[1..], name)
  }

  /** Section 4.2 of RFC 2616: the values of all fields with a name, in any case, in order and separated by commas. */
  function AllValues(fields: seq<Header>, name: seq<Octet>): Option<seq<Octet>>
  {
    if fields == [] then None else
    var last := fields[|fields| - 1];
    var front := AllValues(fields[..|fields| - 1], name);
    if !SameButCase(last.name, name) then front
    else if front.None? then Some(last.value) else Some(front.value + [COMMA, SP] + last.value)
  }

  /** How the first field with that name is spelled. */
  function FirstSpelling(fields: seq<Header>, name: seq<Octet>): Option<seq<Octet>>
  {
    if fields == [] then None else
    var front := FirstSpelling(fields[..|fields| - 1], name);
    if front.Some? then front
    else if SameButCase(fields[|fields| - 1].name, name) then Some(fields[|fields| - 1].name) else None
  }

  /** All fields with that name are spelled alike. */
  ghost predicate SpelledAlike(fields: seq<Header>, name: seq<Octet>)
  {
    forall i, j :: 0 <= i < j < |fields| && SameButCase(fields[i].name, name) && SameButCase(fields[j].name, name) ==>
      fields[i].name == fields[j].name
  }

  /** Adding a header changes what is found only if its name is that of the header found, or none was there. */
  lemma {:induction false} FindHeaderAdded(hs: seq<Header>, h: Header, name: seq<Octet>, first: Option<seq<Octet>>)
    requires first == SpellingFound(hs, name)
    ensures SpellingFound(AddHeader(hs, h), name)
         == if first.Some? then first else if SameButCase(h.name, name) then Some(h.name) else None
    ensures (FindHeader(hs, name).Some? <==> first.Some?) && (first.Some? ==> SameButCase(first.value, name))
    ensures FindHeader(AddHeader(hs, h), name)
         == if first.Some? then
              Some(FindHeader(hs, name).value + if h.name == first.value then [COMMA, SP] + h.value else [])
            else if SameButCase(h.name, name) then Some(h.value) else None
  {
    hide SameButCase;
    if hs != [] && !SameButCase(hs[0].name, name) {
      FindHeaderAdded(hs[1..], h, name, first);
      if hs[0].name == h.name {
        assert AddHeader(hs, h)[1..] == hs[1..];
        if first.Some? {
          var value := FindHeader(hs, name).value;
          assert value + [] == value;
        }
      } else {
        assert AddHeader(hs, h)[1..] == AddHeader(hs[1..], h);
      }
    } else if hs != [] {
      var value := hs[0].value;
      assert value + [] == value && (value + [COMMA, SP]) + h.value == value + ([COMMA, SP] + h.value);
    }
  }

  /** The name of the header that is found. */
  function SpellingFound(hs: seq<Header>, name: seq<Octet>): Option<seq<Octet>>
  {
    if hs == [] then None
    else if SameButCase(hs[0].name, name) then Some(hs[0].name)
    else SpellingFound(hs[1..], name)
  }

  /** What is found are the values of the fields that are spelled like the first one with that name. */
  lemma {:induction false} FoundAsFirst(fields: seq<Header>, name: seq<Octet>)
    ensures SpellingFound(Merged(fields), name) == FirstSpelling(fields, name)
    ensures FindHeader(Merged(fields), name)
         == match FirstSpelling(fields, name) case None => None case Some(spelling) => ValueOf(fields, spelling)
    ensures FirstSpelling(fields, name).Some? ==> ValueOf(fields, FirstSpelling(fields, name).value).Some?
  {
    hide SameButCase, AddHeader, FindHeader, SpellingFound;
    if fields == [] {
      NothingFound(name);
    } else {
      var n := |fields| - 1;
      FoundAsFirst(fields[..n], name);
      FindHeaderAdded(Merged(fields[..n]), fields[n], name, FirstSpelling(fields[..n], name));
      if FirstSpelling(fields[..n], name).Some? {
        var value := FindHeader(Merged(fields[..n]), name).value;
        assert value + [] == value;
        assert (value + [COMMA, SP]) + fields[n].value == value + ([COMMA, SP] + fields[n].value);
      } else if SameButCase(fields[n].name, name) {
        NoSuchValue(fields[..n], fields[n].name, name);
      }
    }
  }

  lemma NothingFound(name: seq<Octet>)
    ensures FindHeader([], name).None? && SpellingFound([], name).None?
  {
  }

  /** No field with a name in any case, so none with that spelling. */
  lemma {:induction false} NoSuchValue(fields: seq<Header>, spelling: seq<Octet>, name: seq<Octet>)
    requires SameButCase(spelling, name) && FirstSpelling(fields, name).None?
    ensures ValueOf(fields, spelling).None?
  {
    hide SameButCase;
    if fields != [] {
      NoSuchValue(fields[..|fields| - 1], spelling, name);
    }
  }

  /** Fields that are spelled otherwise are missing from what is found. */
  lemma {:induction false} FoundOrMore(fields: seq<Header>, name: seq<Octet>)
    ensures var first := FirstSpelling(fields, name);
            && (AllValues(fields, name).Some? <==> first.Some?)
            && (first.Some? ==>
                  && SameButCase(first.value, name) && ValueOf(fields, first.value).Some?
                  && (exists i :: 0 <= i < |fields| && fields[i].name == first.value)
                  && |ValueOf(fields, first.value).value| <= |AllValues(fields, name).value|
                  && (|ValueOf(fields, first.value).value| == |AllValues(fields, name).value| <==> AllSpelled(fields, name, first.value))
                  && (AllSpelled(fields, name, first.value) ==> ValueOf(fields, first.value) == AllValues(fields, name)))
  {
    hide SameButCase;
    if fields != [] {
      var n := |fields| - 1;
      var front, last := fields[..n], fields[n];
      FoundOrMore(front, name);
      assert fields == front + [last];
      var first := FirstSpelling(front, name);
      if first.Some? {
        AllSpelledNext(front, last, name, first.value);
        var i :| 0 <= i < |front| && front[i].name == first.value;
        assert fields[i].name == first.value;
      } else if SameButCase(last.name, name) {
        NoSuchValue(front, last.name, name);
        NoneSpelled(front, name, last.name);
        AllSpelledNext(front, last, name, last.name);
        assert fields[n].name == last.name;
      }
    }
  }

  ghost predicate AllSpelled(fields: seq<Header>, name: seq<Octet>, spelling: seq<Octet>)
  {
    forall i :: 0 <= i < |fields| && SameButCase(fields[i].name, name) ==> fields[i].name == spelling
  }

  lemma AllSpelledNext(front: seq<Header>, last: Header, name: seq<Octet>, spelling: seq<Octet>)
    ensures AllSpelled(front + [last], name, spelling) <==>
            AllSpelled(front, name, spelling) && (SameButCase(last.name, name) ==> last.name == spelling)
  {
    hide SameButCase;
    var fields := front + [last];
    assert fields[|front|] == last && forall i :: 0 <= i < |front| ==> fields[i] == front[i];
  }

  lemma {:induction false} NoneSpelled(fields: seq<Header>, name: seq<Octet>, spelling: seq<Octet>)
    requires FirstSpelling(fields, name).None?
    ensures AllSpelled(fields, name, spelling)
  {
    hide SameButCase;
    if fields != [] {
      var n := |fields| - 1;
      NoneSpelled(fields[..n], name, spelling);
      assert fields == fields[..n] + [fields[n]];
      AllSpelledNext(fields[..n], fields[n], name, spelling);
    }
  }

  /**
   * Fields with the same name mean the same as one with their values joined. What is looked up is that if and
   * only if all fields with the name are spelled alike; of others it is what those spelled like the first have.
   */
  lemma MergedMeaning(fields: seq<Header>, name: seq<Octet>)
    ensures FindHeader(Merged(fields), name) == AllValues(fields, name) <==> SpelledAlike(fields, name)
    ensures FindHeader(Merged(fields), name).Some? <==> AllValues(fields, name).Some?
    ensures Distinct(Merged(fields))
  {
    hide FindHeader, AllValues, FirstSpelling, ValueOf, Merged, SameButCase, Distinct;
    MergedBySpelling(fields, name);
    FoundAsFirst(fields, name);
    FoundOrMore(fields, name);
    if FirstSpelling(fields, name).None? {
      NoneSpelled(fields, name, []);
      NoneSpelled(fields, name, [0]);
    }
  }

  /** The second of two fields is lost to the lookup if its name is spelled otherwise, and the name is there twice. */
  lemma SecondSpellingLost(first: Header, second: Header)
    requires first.name != second.name && SameButCase(first.name, second.name)
    ensures Merged([first, second]) == [first, second]
    ensures FindHeader(Merged([first, second]), second.name) == Some(first.value)
    ensures AllValues([first, second], second.name) == Some(first.value + [COMMA, SP] + second.value)
  {
    var fields := [first, second];
    assert fields[..1] == [first] && [first][..0] == [];
    assert Merged([first]) == [first] && [first][1..] == [];
    assert AddHeader([first], second) == [first] + AddHeader([], second);
    assert AllValues([first], second.name) == Some(first.value);
  }

  // ----- Reading a start line and headers -----

  datatype Read = Read(headers: seq<Header>, rest: seq<Octet>)

  /** The headers up to a blank line, added to the ones already there. */
  function Headers(input: seq<Octet>, hs: seq<Header>): (r: Option<Read>)
    ensures r.Some? ==> |r.value.rest| <= |input|
    decreases |input|
  {
    var text := HeaderText(input);
    var rest := input[|text|..];
    if Blank(text) then Some(Read(hs, rest))
    else if 0 in text then None
    else match ParseHeader(text)
      case Bad => None
      case Empty => Headers(rest, hs)
      case Field(h) => Headers(rest, AddHeader(hs, h))
  }

  /** The fields up to a blank line, as they come. */
  datatype Fields = Fields(fields: seq<Header>, rest: seq<Octet>)

  function FieldsOf(input: seq<Octet>): (r: Option<Fields>)
    decreases |input|
  {
    var text := HeaderText(input);
    var rest := input[|text|..];
    if Blank(text) then Some(Fields([], rest))
    else if 0 in text then None
    else match ParseHeader(text)
      case Bad => None
      case Empty => FieldsOf(rest)
      case Field(h) =>
        match FieldsOf(rest)
        case None => None
        case Some(more) => Some(Fields([h] + more.fields, more.rest))
  }

  lemma MergedNext(before: seq<Header>, h: Header)
    ensures Merged(before + [h]) == AddHeader(Merged(before), h)
  {
    assert (before + [h])[..|before|] == before;
  }

  /** The headers are the fields, merged in the order in which they come. */
  lemma {:induction false} HeadersAreMerged(input: seq<Octet>, before: seq<Header>)
    ensures Headers(input, Merged(before))
         == match FieldsOf(input)
            case None => None
            case Some(f) => Some(Read(Merged(before + f.fields), f.rest))
    decreases |input|
  {
    hide HeaderText, ParseHeader, Merged, AddHeader, Blank;
    var text := HeaderText(input);
    var rest := input[|text|..];
    if Blank(text) {
      assert before + [] == before;
    } else if 0 !in text {
      HasText(input);
      match ParseHeader(text)
      case Bad =>
      case Empty =>
        HeadersAreMerged(rest, before);
      case Field(h) =>
        MergedNext(before, h);
        HeadersAreMerged(rest, before + [h]);
        if FieldsOf(rest).Some? {
          assert (before + [h]) + FieldsOf(rest).value.fields == before + ([h] + FieldsOf(rest).value.fields);
        }
    }
  }

  lemma HasText(input: seq<Octet>)
    requires !Blank(HeaderText(input))
    ensures |HeaderText(input)| > 0
  {
  }

  // ----- Writing -----

  function HeaderLine(h: Header): seq<Octet>
  {
    h.name + ([COLON, SP] + (h.value + CRLF))
  }

  function Written(hs: seq<Header>): seq<Octet>
  {
    if hs == [] then CRLF else HeaderLine(hs[0]) + Written(hs[1..])
  }

  /** A name is a token, and a value stays on its line. */
  predicate Writable(h: Header)
  {
    IsToken(h.name) && LF !in h.value && 0 !in h.value
  }

  /** What becomes of headers that are written and read again. */
  function Normal(hs: seq<Header>): seq<Header>
  {
    if hs == [] then []
    else (if Trim(hs[0].value) == [] then [] else [Header(hs[0].name, Trim(hs[0].value))]) + Normal(hs[1..])
  }

  lemma LineHasHeader(h: Header, rest: seq<Octet>)
    requires Writable(h) && rest != [] && rest[0] != SP && rest[0] != HT
    ensures HeaderText(HeaderLine(h) + rest) == HeaderLine(h) && !Blank(HeaderLine(h)) && 0 !in HeaderLine(h)
    ensures (HeaderLine(h) + rest)[|HeaderLine(h)|..] == rest
  {
    var l := HeaderLine(h);
    LineIsLine(h);
    LineOfLine(l, rest);
    assert (l + rest)[|l|..] == rest;
    assert l[0] == h.name[0] && IsTokenChar(l[0]);
  }

  lemma LineIsLine(h: Header)
    requires Writable(h)
    ensures IsLine(HeaderLine(h)) && 0 !in HeaderLine(h)
  {
    var l := HeaderLine(h);
    var n := h.name + ([COLON, SP] + (h.value + [CR]));
    assert l == n + [LF];
    assert l[..|l| - 1] == n;
    forall i | 0 <= i < |h.name| ensures h.name[i] != LF && h.name[i] != 0 {
      assert IsTokenChar(h.name[i]);
    }
  }

  lemma ParseLine(h: Header)
    requires IsToken(h.name)
    ensures ParseHeader(HeaderLine(h)) == if Trim(h.value) == [] then Empty else Field(Header(h.name, Trim(h.value)))
  {
    hide ParseHeader, IsToken, DropLws, SkipLws;
    assert AllLws([]) && AllLws(CRLF) && AllLws([SP]);
    FieldIsParsed(h.name, [], [SP] + h.value, CRLF);
    SpaceInLine(h.name, h.value);
    SkipBefore([SP], h.value);
  }

  lemma SpaceInLine(name: seq<Octet>, value: seq<Octet>)
    ensures name + ([COLON, SP] + (value + CRLF)) == name + ([] + ([COLON] + (([SP] + value) + CRLF)))
  {
    assert [COLON, SP] + (value + CRLF) == [] + ([COLON] + (([SP] + value) + CRLF));
  }

  lemma WrittenBegins(hs: seq<Header>, rest: seq<Octet>)
    requires forall i :: 0 <= i < |hs| ==> Writable(hs[i])
    ensures var s := Written(hs) + rest; s != [] && s[0] != SP && s[0] != HT
  {
    if hs != [] {
      assert Writable(hs[0]) && IsTokenChar(hs[0].name[0]);
      assert Written(hs)[0] == hs[0].name[0];
    }
  }

  /** One header is read, and added to those before it. */
  lemma ReadsOne(h: Header, input: seq<Octet>, before: seq<Header>)
    requires Writable(h) && input != [] && input[0] != SP && input[0] != HT
    ensures Headers(HeaderLine(h) + input, before)
         == Headers(input, if Trim(h.value) == [] then before else AddHeader(before, Header(h.name, Trim(h.value))))
  {
    hide Writable, HeaderLine, HeaderText, ParseHeader, AddHeader, Trim, Blank;
    LineHasHeader(h, input);
    assert IsToken(h.name) by { IsTokenOf(h); }
    ParseLine(h);
  }

  lemma IsTokenOf(h: Header)
    requires Writable(h)
    ensures IsToken(h.name)
  {
  }

  lemma FirstWritten(h: Header, hs: seq<Header>, rest: seq<Octet>)
    ensures Written([h] + hs) + rest == HeaderLine(h) + (Written(hs) + rest)
    ensures Normal([h] + hs) == (if Trim(h.value) == [] then [] else [Header(h.name, Trim(h.value))]) + Normal(hs)
  {
    hide HeaderLine, Trim;
    assert ([h] + hs)[1..] == hs;
  }

  lemma WritableInFront(h: Header, hs: seq<Header>)
    requires forall i :: 0 <= i < |[h] + hs| ==> Writable(([h] + hs)[i])
    ensures Writable(h) && forall i :: 0 <= i < |hs| ==> Writable(hs[i])
  {
    hide Writable;
    assert ([h] + hs)[0] == h;
    assert forall i :: 0 <= i < |hs| ==> hs[i] == ([h] + hs)[i + 1];
  }

  /** Reading headers that have been written gives them all, in their order, with their values trimmed. */
  lemma {:induction false} ReadsWritten(hs: seq<Header>, rest: seq<Octet>, before: seq<Header>)
    requires (forall i :: 0 <= i < |hs| ==> Writable(hs[i])) && Distinct(before + hs)
    ensures Headers(Written(hs) + rest, before) == Some(Read(before + Normal(hs), rest))
    decreases |hs|, 1
  {
    hide Writable, HeaderLine, Headers, Trim, Distinct, Written, Normal;
    if hs == [] {
      NothingWritten(rest, before);
    } else {
      assert hs == [hs[0]] + hs[1..];
      ReadsWrittenFrom(hs[0], hs[1..], rest, before);
    }
  }

  lemma {:induction false} ReadsWrittenFrom(h: Header, more: seq<Header>, rest: seq<Octet>, before: seq<Header>)
    requires (forall i :: 0 <= i < |[h] + more| ==> Writable(([h] + more)[i])) && Distinct(before + ([h] + more))
    ensures Headers(Written([h] + more) + rest, before) == Some(Read(before + Normal([h] + more), rest))
    decreases |more| + 1, 0
  {
    hide Writable, HeaderLine, Headers, Trim, Distinct, Written, Normal, HasName, AddHeader;
    WritableInFront(h, more);
    WrittenBegins(more, rest);
    ReadsOne(h, Written(more) + rest, before);
    FirstWritten(h, more, rest);
    WithoutMiddle(before, h, more, Trim(h.value));
    if Trim(h.value) == [] {
      ReadsWritten(more, rest, before);
      DropEmpty(Normal(more));
    } else {
      var h' := Header(h.name, Trim(h.value));
      AddNew(before, h');
      ReadsWritten(more, rest, before + [h']);
      Append3(before, h', Normal(more));
    }
  }

  lemma DropEmpty(s: seq<Header>)
    ensures [] + s == s
  {
  }

  lemma Append3(s: seq<Header>, h: Header, t: seq<Header>)
    ensures s + [h] + t == s + ([h] + t)
  {
  }

  lemma NothingWritten(rest: seq<Octet>, before: seq<Header>)
    ensures Headers(Written([]) + rest, before) == Some(Read(before + Normal([]), rest))
  {
    BlankLine(rest, before);
    assert before + Normal([]) == before;
  }

  lemma BlankLine(rest: seq<Octet>, hs: seq<Header>)
    ensures Headers(CRLF + rest, hs) == Some(Read(hs, rest))
  {
    assert (CRLF + rest)[2..] == rest;
    assert IsLine(CRLF);
    LineOfLine(CRLF, rest);
  }

  lemma WithoutMiddle(before: seq<Header>, h: Header, more: seq<Header>, value: seq<Octet>)
    requires Distinct(before + ([h] + more))
    ensures !HasName(before, h.name) && Distinct(before + more) && Distinct(before + [Header(h.name, value)] + more)
  {
    var all, n := before + ([h] + more), |before|;
    assert all[n] == h;
    forall i | 0 <= i < n ensures before[i].name != h.name {
      assert all[i] == before[i];
    }
    var some, other := before + more, before + [Header(h.name, value)] + more;
    forall i | 0 <= i < |some| ensures some[i] == all[if i < n then i else i + 1] {
    }
    forall i | 0 <= i < |other| ensures other[i].name == all[i].name {
    }
  }

  predicate Trimmed(s: seq<Octet>)
  {
    s != [] && !IsLws(s[0]) && !IsLws(s[|s| - 1])
  }

  ghost predicate AllTrimmed(hs: seq<Header>)
  {
    forall i :: 0 <= i < |hs| ==> Trimmed(hs[i].value)
  }

  lemma AllTrimmedFirst(h: Header, hs: seq<Header>)
    ensures AllTrimmed([h] + hs) <==> Trimmed(h.value) && AllTrimmed(hs)
  {
    hide Trimmed;
    var all := [h] + hs;
    if AllTrimmed(all) {
      assert all[0] == h;
      assert forall i :: 0 <= i < |hs| ==> hs[i] == all[i + 1];
    }
  }

  /** So they come back unchanged exactly if no value is empty or has white space around it. */
  lemma {:induction false} NormalUnchanged(hs: seq<Header>)
    ensures Normal(hs) == hs <==> AllTrimmed(hs)
    ensures |Normal(hs)| <= |hs|
  {
    hide Trimmed, Trim, AllTrimmed;
    if hs == [] {
      assert AllTrimmed(hs) by { NothingTrimmed(hs); }
    } else {
      var h, more := hs[0], hs[1..];
      assert hs == [h] + more;
      NormalUnchanged(more);
      AllTrimmedFirst(h, more);
      TrimUnchanged(h.value);
      if Trim(h.value) != [] {
        var h' := Header(h.name, Trim(h.value));
        assert ([h'] + Normal(more))[0] == h' && ([h'] + Normal(more))[1..] == Normal(more);
      }
    }
  }

  lemma NothingTrimmed(hs: seq<Header>)
    requires hs == []
    ensures AllTrimmed(hs)
  {
  }

  lemma TrimUnchanged(v: seq<Octet>)
    ensures v != [] && Trim(v) == v <==> Trimmed(v)
  {
  }
}
