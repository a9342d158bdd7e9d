/** Parsing undoes printing. */
module JsonRoundTrip {
  import opened Bytes
  import opened Utf
  import opened JsonText
  import opened JsonGrammar

  // ----- whitespace -----

  lemma {:induction false} SkipWhite(c: seq<byte>, o: nat, white: nat)
    requires o + white < |c| && c[o + white] > 32
    requires forall k :: o <= k < o + white ==> c[k] <= 32
    ensures Skip(c, o) == o + white
  {
    WhitespaceRun(c, o, white);
  }

  lemma {:induction false} WhitespaceRun(c: seq<byte>, o: nat, white: nat)
    requires o + white < |c| && c[o + white] > 32
    requires forall k :: o <= k < o + white ==> c[k] <= 32
    ensures WhitespaceEnd(c, o) == o + white
    decreases white
  {
    if white > 0 {
      WhitespaceRun(c, o + 1, white - 1);
    }
  }

  // ----- numbers -----

  lemma {:induction false} NumberEndIs(c: seq<byte>, o: nat, length: nat, room: nat)
    requires o + length < |c| && length <= room
    requires forall k :: o <= k < o + length ==> IsNumberByte(c[k])
    requires !IsNumberByte(c[o + length])
    ensures NumberEnd(c, o, room) == o + length
    decreases length
  {
    if length > 0 {
      NumberEndIs(c, o + 1, length - 1, room - 1);
    }
  }

  lemma ScaledByOne(m: int)
    ensures Scaled(m, 0) == m as real
  {
    assert Pow10(0) == 1;
  }

  lemma StrtodInt(n: int)
    ensures Strtod(IntText(n)) == Conversion(n as real, |IntText(n)|)
  {
    hide Scaled, DigitRun, DigitsValue, NatText;
    var t := IntText(n);
    var digits := NatText(if n < 0 then -n else n);
    var sign := if n < 0 then 1 else 0;
    NatTextValue(if n < 0 then -n else n);
    assert t[sign..|t|] == digits;
    DigitRunIs(t, sign, |t|);
    assert digits + [] == digits;
    ScaledByOne(n);
  }

  lemma ParseIntText(c: seq<byte>, o: nat, n: int)
    requires Terminated(c) && -0x8000_0000 <= n <= INT_MAX
    requires Occurs(c, o, IntText(n)) && o + |IntText(n)| < |c| && !IsNumberByte(c[o + |IntText(n)|])
    ensures ParseNumber(c, o) == Parsed(n as real, o + |IntText(n)|)
  {
    hide IntText, Strtod, IsNumberByte, NumberEnd;
    var t := IntText(n);
    IntTextLength(n);
    IntTextBytes(n);
    forall k | o <= k < o + |t|
      ensures IsNumberByte(c[k])
    {
      OccursAt(c, o, t, k - o);
    }
    NumberEndIs(c, o, |t|, 63);
    StrtodInt(n);
  }

  lemma IntTextBytes(n: int)
    ensures forall k :: 0 <= k < |IntText(n)| ==> IsNumberByte(IntText(n)[k])
  {
    assert AllDigits(NatText(if n < 0 then -n else n));
  }

  // ----- strings -----

  /** What one escaped byte does to the two passes. */
  lemma EscapedByte(c: seq<byte>, i: nat, b: byte, end: nat)
    requires b != NUL && Occurs(c, i, EscapeByte(b)) && i + |EscapeByte(b)| <= end < |c|
    ensures UnescapeStep(c, i, end) == Step([b], |EscapeByte(b)|)
    ensures
      var r, later := ScanString(c, i), ScanString(c, i + |EscapeByte(b)|);
      (r.QuoteAt? <==> later.QuoteAt?) && (r.QuoteAt? ==> r.at == later.at)
  {
    var t := EscapeByte(b);
    OccursAt(c, i, t, 0);
    if !IsPlain(b) {
      OccursAt(c, i, t, 1);
      if ShortEscape(b) == NUL {
        Hex4OfUnit(c, i, b);
        assert HexAt(c, i + 2) && c[i + 2 + 1] == c[i + 3] && c[i + 2 + 2] == c[i + 4] && c[i + 2 + 3] == c[i + 5];
        PlainScan(c, i + 2, 4);
      }
    }
  }

  lemma {:induction false} PlainScan(c: seq<byte>, i: nat, n: nat)
    requires i + n <= |c| && forall k :: i <= k < i + n ==> c[k] != QUOTE && c[k] != BACKSLASH
    ensures ScanString(c, i) == ScanString(c, i + n)
    decreases n
  {
    if n > 0 {
      PlainScan(c, i + 1, n - 1);
    }
  }

  lemma {:induction false} ScanEscape(c: seq<byte>, i: nat, s: seq<byte>)
    requires NulFree(s) && Occurs(c, i, Escape(s)) && i + |Escape(s)| < |c| && c[i + |Escape(s)|] == QUOTE
    ensures ScanString(c, i).QuoteAt? && ScanString(c, i).at == i + |Escape(s)|
    ensures UnescapeFrom(c, i, i + |Escape(s)|) == Unescaped(s)
    decreases |s|
  {
    hide UnescapeStep, Utf16Literal, EscapeByte, CString;
    if s != [] {
      var t := EscapeByte(s[0]);
      var end := i + |Escape(s)|;
      OccursSplit(c, i, t, Escape(s[1..]));
      ScanEscape(c, i + |t|, s[1..]);
      EscapedByte(c, i, s[0], end);
      UnescapeMore(c, i, end, s[0], |t|, s[1..]);
      assert [s[0]] + s[1..] == s;
    }
  }

  lemma UnescapeMore(c: seq<byte>, i: nat, end: nat, b: byte, consumed: nat, rest: seq<byte>)
    requires i < end < |c| && UnescapeStep(c, i, end) == Step([b], consumed)
    requires UnescapeFrom(c, i + consumed, end) == Unescaped(rest)
    ensures UnescapeFrom(c, i, end) == Unescaped([b] + rest)
  {
  }

  lemma {:induction false} CStringOfNulFree(s: seq<byte>)
    requires NulFree(s)
    ensures CString(s) == s
  {
    if s != [] {
      CStringOfNulFree(s[1..]);
    }
  }

  lemma ParseQuote(c: seq<byte>, o: nat, s: seq<byte>)
    requires Terminated(c) && NulFree(s) && Occurs(c, o, Quote(s))
    ensures ParseString(c, o) == Parsed(s, o + |Quote(s)|)
  {
    hide Occurs, Escape, UnescapeFrom, ScanString, CString;
    OccursThree(c, o, [QUOTE], Escape(s), [QUOTE]);
    OccursAt(c, o, [QUOTE], 0);
    OccursAt(c, o + 1 + |Escape(s)|, [QUOTE], 0);
    ScanEscape(c, o + 1, s);
    CStringOfNulFree(s);
  }

  // ----- values -----

  lemma TextStart(v: Json, format: bool, depth: nat)
    ensures
      var t := Text(v, format, depth);
      && |t| > 0
      && t[0] > 32 && t[0] != RBRACKET && t[0] != RBRACE
      && (v.String? ==> t[0] == QUOTE)
      && (v.Number? ==> t[0] == MINUS || IsDigit(t[0]))
      && (v.Array? ==> t[0] == LBRACKET)
      && (v.Object? ==> t[0] == LBRACE)
  {
  }

  /**
   The parser gives back a printed value that stands anywhere in a text, and stops right after it, as long as
   the nesting limit allows; otherwise it fails.
   */
  lemma {:induction false} ParsePrinted(v: Json, format: bool, d: nat, c: seq<byte>, o: nat, depth: nat)
    requires Terminated(c) && Printable(v) && depth <= NESTING_LIMIT
    requires Occurs(c, o, Text(v, format, d)) && o + |Text(v, format, d)| < |c|
    requires !IsNumberByte(c[o + |Text(v, format, d)|])
    ensures ParseValue(c, o, depth) ==
            if depth + Nesting(v) <= NESTING_LIMIT then Parsed(v, o + |Text(v, format, d)|) else Failed
    decreases v, 1
  {
    var t := Text(v, format, d);
    TextStart(v, format, d);
    OccursAt(c, o, t, 0);
    NotWords(c, o);
    match v
    case Null =>
    case False =>
    case True =>
    case Number(x) => ParseIntText(c, o, x.Floor);
    case String(s) => ParseQuote(c, o, s);
    case Array(items) => ParsePrintedArray(items, format, d, c, o, depth);
    case Object(members) => ParsePrintedObject(members, format, d, c, o, depth);
  }

  lemma NotWords(c: seq<byte>, o: nat)
    requires o < |c|
    ensures Starts(c, o, NULL_TEXT) ==> c[o] == 0x6E
    ensures Starts(c, o, FALSE_TEXT) ==> c[o] == 0x66
    ensures Starts(c, o, TRUE_TEXT) ==> c[o] == 0x74
  {
    if Starts(c, o, NULL_TEXT) { OccursAt(c, o, NULL_TEXT, 0); }
    if Starts(c, o, FALSE_TEXT) { OccursAt(c, o, FALSE_TEXT, 0); }
    if Starts(c, o, TRUE_TEXT) { OccursAt(c, o, TRUE_TEXT, 0); }
  }

  lemma {:induction false} ParsePrintedArray(items: seq<Json>, format: bool, d: nat, c: seq<byte>, o: nat, depth: nat)
    requires Terminated(c) && depth <= NESTING_LIMIT && o < |c| && c[o] == LBRACKET
    requires forall i :: 0 <= i < |items| ==> Printable(items[i])
    requires Occurs(c, o, [LBRACKET] + ItemsText(items, format, d + 1) + [RBRACKET])
    ensures ParseArray(c, o, depth) ==
            if depth + 1 + ItemsNesting(items) <= NESTING_LIMIT then
              Parsed(items, o + |ItemsText(items, format, d + 1)| + 2)
            else Failed
    decreases items, 1
  {
    ArrayOccurs(items, format, d + 1, c, o);
    SkipWhite(c, o + 1, 0);
    if items != [] && depth < NESTING_LIMIT {
      ParsePrintedItems(items, format, d + 1, c, o + 1, o + 1, depth + 1);
    }
  }

  lemma ArrayOccurs(items: seq<Json>, format: bool, d: nat, c: seq<byte>, o: nat)
    requires Occurs(c, o, [LBRACKET] + ItemsText(items, format, d) + [RBRACKET])
    ensures o + 1 < |c| && c[o + 1] > 32 && (c[o + 1] == RBRACKET <==> items == [])
    ensures Occurs(c, o + 1, ItemsText(items, format, d) + [RBRACKET])
  {
    var body := ItemsText(items, format, d);
    assert [LBRACKET] + body + [RBRACKET] == [LBRACKET] + (body + [RBRACKET]);
    OccursSplit(c, o, [LBRACKET], body + [RBRACKET]);
    OccursAt(c, o + 1, body + [RBRACKET], 0);
    if items != [] {
      TextStart(items[0], format, d);
    }
  }

  /** The pieces of printed array elements: the first, what follows it, and the others. */
  lemma ItemsOccur(items: seq<Json>, format: bool, d: nat, c: seq<byte>, p: nat)
    requires items != [] && Occurs(c, p, ItemsText(items, format, d) + [RBRACKET])
    ensures
      var q := p + |Text(items[0], format, d)|;
      && Occurs(c, p, Text(items[0], format, d))
      && q < |c|
      && c[q] == (if |items| > 1 then COMMA else RBRACKET)
      && (|items| == 1 ==> |ItemsText(items, format, d)| == q - p)
      && (|items| > 1 ==>
            var r := q + |ItemEnd(true, format)|;
            && Occurs(c, r, ItemsText(items[1..], format, d) + [RBRACKET])
            && q + 1 < |c| && Skip(c, q + 1) == r
            && |ItemsText(items, format, d)| == r - p + |ItemsText(items[1..], format, d)|)
  {
    hide Text, Skip, WhitespaceEnd, Occurs;
    var first := Text(items[0], format, d);
    var sep := ItemEnd(|items| > 1, format);
    var rest := ItemsText(items[1..], format, d);
    OccursFour(c, p, first, sep, rest, [RBRACKET]);
    var q := p + |first|;
    if |items| == 1 {
      assert rest + [RBRACKET] == [RBRACKET];
      OccursAt(c, q, [RBRACKET], 0);
    } else {
      SeparatorOccurs(items, format, d, c, q);
    }
  }

  /** After a separator the next element starts, past its white space. */
  lemma SeparatorOccurs(items: seq<Json>, format: bool, d: nat, c: seq<byte>, q: nat)
    requires |items| > 1 && Occurs(c, q, ItemEnd(true, format))
    requires Occurs(c, q + |ItemEnd(true, format)|, ItemsText(items[1..], format, d) + [RBRACKET])
    ensures q + 1 < |c| && c[q] == COMMA && Skip(c, q + 1) == q + |ItemEnd(true, format)|
  {
    hide Text, Skip, WhitespaceEnd, Occurs;
    var sep := ItemEnd(true, format);
    var rest := ItemsText(items[1..], format, d);
    OccursAt(c, q, sep, 0);
    TextStart(items[1], format, d);
    OccursAt(c, q + |sep|, rest + [RBRACKET], 0);
    if format {
      OccursAt(c, q, sep, 1);
    }
    SkipWhite(c, q + 1, |sep| - 1);
  }

  lemma {:induction false} ParsePrintedItems(items: seq<Json>, format: bool, d: nat, c: seq<byte>, o: nat, p: nat,
                                             depth: nat)
    requires Terminated(c) && depth <= NESTING_LIMIT && items != []
    requires forall i :: 0 <= i < |items| ==> Printable(items[i])
    requires o < |c| && Skip(c, o) == p
    requires Occurs(c, p, ItemsText(items, format, d) + [RBRACKET])
    ensures ParseItems(c, o, depth) ==
            if depth + ItemsNesting(items) <= NESTING_LIMIT then Parsed(items, p + |ItemsText(items, format, d)| + 1)
            else Failed
    decreases items, 0
  {
    hide Text, ItemsText, Skip, WhitespaceEnd, Occurs, ParseValue, ParseItems, Nesting, Starts;
    ItemsOccur(items, format, d, c, p);
    ParsePrinted(items[0], format, d, c, p, depth);
    FirstItem(items, format, d, c, o, p, depth);
    var q := p + |Text(items[0], format, d)|;
    if |items| == 1 {
      assert items == [items[0]] && ItemsNesting(items[1..]) == 0;
    } else {
      ParsePrintedItems(items[1..], format, d, c, q + 1, q + |ItemEnd(true, format)|, depth);
      assert items == [items[0]] + items[1..];
    }
  }

  /** One turn over printed array elements: the first, and then what the separator leads to. */
  lemma FirstItem(items: seq<Json>, format: bool, d: nat, c: seq<byte>, o: nat, p: nat, depth: nat)
    requires Terminated(c) && items != [] && o < |c| && Skip(c, o) == p
    requires Occurs(c, p, ItemsText(items, format, d) + [RBRACKET])
    requires ParseValue(c, p, depth).Parsed? ==>
               ParseValue(c, p, depth) == Parsed(items[0], p + |Text(items[0], format, d)|)
    ensures
      var q := p + |Text(items[0], format, d)|;
      q + 1 <= |c| &&
      ParseItems(c, o, depth) ==
      if ParseValue(c, p, depth).Failed? then Failed
      else if |items| == 1 then Parsed([items[0]], q + 1)
      else if q + 1 < |c| then Prepend([items[0]], ParseItems(c, q + 1, depth)) else Failed
  {
    hide Text, ItemsText, WhitespaceEnd, Occurs, ParseValue, ParseItems;
    ItemsOccur(items, format, d, c, p);
    var q := p + |Text(items[0], format, d)|;
    SkipWhite(c, q, 0);
    ItemsTurn(c, o, depth, []);
    PrependNothing(ParseItems(c, o, depth));
    assert [] + [items[0]] == [items[0]];
  }

  lemma {:induction false} ParsePrintedObject(members: seq<Member>, format: bool, d: nat, c: seq<byte>, o: nat,
                                              depth: nat)
    requires Terminated(c) && depth <= NESTING_LIMIT && o < |c| && c[o] == LBRACE
    requires forall i :: 0 <= i < |members| ==> NulFree(members[i].key) && Printable(members[i].value)
    requires Occurs(c, o, Text(Object(members), format, d))
    ensures ParseObject(c, o, depth) ==
            if depth + 1 + MembersNesting(members) <= NESTING_LIMIT then
              Parsed(members, o + |Text(Object(members), format, d)|)
            else Failed
    decreases members, 1
  {
    hide Text, MembersText, Skip, WhitespaceEnd, Occurs, ParseMembers, MembersNesting, Closing, Tabs;
    var p := o + if format then 2 else 1;
    ObjectOccurs(members, format, d, c, o);
    if members == [] {
      assert MembersNesting(members) == 0 by { NoMembersNesting(); }
    } else if depth < NESTING_LIMIT {
      var s := Skip(c, o + 1);
      SkipWhite(c, s, 0);
      ParsePrintedMembers(members, format, d + 1, c, s, p, depth + 1);
    }
  }

  lemma NoMembersNesting()
    ensures MembersNesting([]) == 0
  {
  }

  lemma ObjectOccurs(members: seq<Member>, format: bool, d: nat, c: seq<byte>, o: nat)
    requires Occurs(c, o, Text(Object(members), format, d))
    ensures
      var p := o + if format then 2 else 1;
      var s := p + (if !format then 0 else if members == [] then d else d + 1);
      var after := MembersText(members, format, d + 1) + Closing(format, d);
      && Occurs(c, p, after)
      && o + |Text(Object(members), format, d)| == p + |after|
      && o + 1 < |c| && Skip(c, o + 1) == s < |c|
      && c[s] == (if members == [] then RBRACE else QUOTE)
      && (members == [] ==> p + |after| == s + 1)
  {
    hide Skip, WhitespaceEnd, Quote, Tabs, Occurs;
    var open := if format then [LBRACE, NEWLINE] else [LBRACE];
    var body := MembersText(members, format, d + 1);
    var close := Closing(format, d);
    assert Text(Object(members), format, d) == open + (body + close);
    OccursSplit(c, o, open, body + close);
    if format {
      OccursAt(c, o, open, 1);
    }
    ClosingBytes(format, d);
    if members == [] {
      assert body + close == close;
      SkipClosing(c, o + 1, |open| - 1, format, d);
    } else {
      SkipToKey(c, o + 1, |open| - 1, members, format, d + 1, close);
    }
  }

  ghost function Closing(format: bool, d: nat): seq<byte> {
    (if format then Tabs(d) else []) + [RBRACE]
  }

  lemma ClosingBytes(format: bool, d: nat)
    ensures
      var t := Closing(format, d);
      && |t| == 1 + (if format then d else 0)
      && t[|t| - 1] == RBRACE
      && forall k :: 0 <= k < |t| - 1 ==> t[k] <= 32
  {
  }

  lemma SkipClosing(c: seq<byte>, o: nat, white: nat, format: bool, d: nat)
    requires Occurs(c, o + white, Closing(format, d))
    requires forall k :: o <= k < o + white ==> k < |c| && c[k] <= 32
    ensures
      var s := o + white + |Closing(format, d)| - 1;
      o < |c| && s < |c| && c[s] == RBRACE && Skip(c, o) == s
  {
    var close := Closing(format, d);
    var s := o + white + |close| - 1;
    OccursAt(c, o + white, close, |close| - 1);
    forall k | o + white <= k < s
      ensures c[k] <= 32
    {
      OccursAt(c, o + white, close, k - o - white);
    }
    SkipWhite(c, o, s - o);
  }

  /** Skipping from whitespace before a member reaches its name. */
  lemma SkipToKey(c: seq<byte>, o: nat, white: nat, members: seq<Member>, format: bool, d: nat, tail: seq<byte>)
    requires members != [] && Occurs(c, o + white, MembersText(members, format, d) + tail)
    requires forall k :: o <= k < o + white ==> k < |c| && c[k] <= 32
    ensures
      var s := o + white + if format then d else 0;
      o < |c| && s < |c| && c[s] == QUOTE && Skip(c, o) == s
  {
    hide MembersText, Occurs, Skip;
    var t := MembersText(members, format, d) + tail;
    var n := if format then d else 0;
    var s := o + white + n;
    MembersStart(members, format, d, tail);
    OccursAt(c, o + white, t, n);
    forall k | o + white <= k < s
      ensures c[k] <= 32
    {
      OccursAt(c, o + white, t, k - o - white);
    }
    SkipWhite(c, o, s - o);
  }

  /** Printed members start with tabs, if formatted, and a quote. */
  lemma MembersStart(members: seq<Member>, format: bool, d: nat, tail: seq<byte>)
    requires members != []
    ensures
      var t, n := MembersText(members, format, d) + tail, if format then d else 0;
      n < |t| && t[n] == QUOTE && forall k :: 0 <= k < n ==> t[k] == TAB
  {
    hide Quote;
    var key := members[0].key;
    QuoteStarts(key);
    var t, n := MembersText(members, format, d) + tail, if format then d else 0;
    assert t[n] == MemberStart(key, format, d)[n] == Quote(key)[0];
    forall k | 0 <= k < n
      ensures t[k] == TAB
    {
      assert t[k] == MemberStart(key, format, d)[k] == Tabs(d)[k];
    }
  }

  lemma QuoteStarts(key: seq<byte>)
    ensures |Quote(key)| >= 2 && Quote(key)[0] == QUOTE
  {
  }

  lemma MembersUnfold(members: seq<Member>, format: bool, d: nat)
    requires members != []
    ensures MembersText(members, format, d) ==
            MemberStart(members[0].key, format, d) + Text(members[0].value, format, d)
            + MemberEnd(|members| > 1, format) + MembersText(members[1..], format, d)
    ensures |members| == 1 ==> MembersText(members[1..], format, d) == []
  {
    hide Text, MemberStart, MemberEnd;
  }

  /** The pieces of printed members: name and colon, value, what follows, and the others. */
  lemma MembersOccur(members: seq<Member>, format: bool, d: nat, c: seq<byte>, p: nat, close: seq<byte>)
    requires members != [] && Occurs(c, p, MembersText(members, format, d) + close)
    ensures
      var start := MemberStart(members[0].key, format, d);
      var value := Text(members[0].value, format, d);
      var end := MemberEnd(|members| > 1, format);
      var others := MembersText(members[1..], format, d) + close;
      var q := p + |start| + |value|;
      && Occurs(c, p, start)
      && Occurs(c, p + |start|, value)
      && Occurs(c, q, end)
      && Occurs(c, q + |end|, others)
      && p + |MembersText(members, format, d) + close| == q + |end| + |others|
      && (|members| == 1 ==> others == close)
  {
    hide Text, MembersText, Occurs, MemberStart, MemberEnd;
    var m := members[0];
    var start, value, end := MemberStart(m.key, format, d), Text(m.value, format, d), MemberEnd(|members| > 1, format);
    MembersUnfold(members, format, d);
    OccursFive(c, p, start, value, end, MembersText(members[1..], format, d), close);
  }

  /** After the last member's value comes the closing brace. */
  lemma LastMemberEnd(format: bool, d: nat, c: seq<byte>, q: nat)
    requires Occurs(c, q, MemberEnd(false, format))
    requires Occurs(c, q + |MemberEnd(false, format)|, Closing(format, d))
    ensures
      var s := q + |MemberEnd(false, format)| + |Closing(format, d)| - 1;
      q < |c| && !IsNumberByte(c[q]) && s < |c| && Skip(c, q) == s && c[s] == RBRACE
  {
    hide Skip, Occurs, Closing;
    var end := MemberEnd(false, format);
    ClosingBytes(format, d);
    if format {
      OccursAt(c, q, end, 0);
    } else {
      OccursAt(c, q, Closing(format, d), 0);
    }
    SkipClosing(c, q, |end|, format, d);
  }

  /** After any other member's value come a comma and the next member. */
  lemma MemberEndMore(members: seq<Member>, format: bool, d: nat, c: seq<byte>, q: nat, close: seq<byte>)
    requires members != [] && Occurs(c, q, MemberEnd(true, format))
    requires Occurs(c, q + |MemberEnd(true, format)|, MembersText(members, format, d) + close)
    ensures q + 1 < |c| && c[q] == COMMA
    ensures Skip(c, q + 1) == q + |MemberEnd(true, format)| + if format then d else 0
  {
    hide Skip, Occurs, MembersText;
    var end := MemberEnd(true, format);
    OccursAt(c, q, end, 0);
    if format {
      OccursAt(c, q, end, 1);
    }
    SkipToKey(c, q + 1, |end| - 1, members, format, d, close);
  }

  lemma {:induction false} ParsePrintedMembers(members: seq<Member>, format: bool, d: nat, c: seq<byte>, o: nat,
                                               p: nat, depth: nat)
    requires Terminated(c) && depth <= NESTING_LIMIT && members != [] && d > 0
    requires forall i :: 0 <= i < |members| ==> NulFree(members[i].key) && Printable(members[i].value)
    requires o < |c| && Skip(c, o) == p + if format then d else 0
    requires Occurs(c, p, MembersText(members, format, d) + Closing(format, d - 1))
    ensures ParseMembers(c, o, depth) ==
            if depth + MembersNesting(members) <= NESTING_LIMIT then
              Parsed(members, p + |MembersText(members, format, d) + Closing(format, d - 1)|)
            else Failed
    decreases members, 0
  {
    hide Text, MembersText, Skip, Occurs, ParseMember, ParseMembers, Nesting, MemberStart, MemberEnd, Closing;
    var m := members[0];
    var close := Closing(format, d - 1);
    assert [] + [m] == [m];
    var q := p + |MemberStart(m.key, format, d)| + |Text(m.value, format, d)|;
    MembersOccur(members, format, d, c, p, close);
    if |members| == 1 {
      LastMemberEnd(format, d - 1, c, q);
      ParsePrintedMember(m, format, d, c, o, p, depth);
      MembersTurn(c, o, depth, []);
      PrependNothing(ParseMembers(c, o, depth));
      assert members == [m] && MembersNesting(members[1..]) == 0;
    } else {
      MemberEndMore(members[1..], format, d, c, q, close);
      ParsePrintedMember(m, format, d, c, o, p, depth);
      MembersTurn(c, o, depth, []);
      PrependNothing(ParseMembers(c, o, depth));
      SkipWhite(c, q, 0);
      ParsePrintedMembers(members[1..], format, d, c, q + 1, q + |MemberEnd(true, format)|, depth);
      assert members == [m] + members[1..];
    }
  }

  lemma {:induction false} ParsePrintedMember(m: Member, format: bool, d: nat, c: seq<byte>, o: nat, p: nat, depth: nat)
    requires Terminated(c) && depth <= NESTING_LIMIT && NulFree(m.key) && Printable(m.value)
    requires o < |c| && Skip(c, o) == p + if format then d else 0
    requires Occurs(c, p, MemberStart(m.key, format, d))
    requires var q := p + |MemberStart(m.key, format, d)|;
             && Occurs(c, q, Text(m.value, format, d))
             && q + |Text(m.value, format, d)| < |c|
             && !IsNumberByte(c[q + |Text(m.value, format, d)|])
    ensures ParseMember(c, o, depth) ==
            if depth + Nesting(m.value) <= NESTING_LIMIT then
              Parsed(m, p + |MemberStart(m.key, format, d)| + |Text(m.value, format, d)|)
            else Failed
    decreases m, 2
  {
    hide Text, Skip, WhitespaceEnd, Occurs, ParseMember, ParseValue, ParseString, MemberStart, Nesting;
    var q := p + |MemberStart(m.key, format, d)|;
    ParsePrintedKey(m.key, format, d, c, p);
    TextStart(m.value, format, d);
    OccursAt(c, q, Text(m.value, format, d), 0);
    var s := q - if format then 2 else 1;
    SkipWhite(c, s, 0);
    SkipWhite(c, s + 1, q - s - 1);
    ParsePrinted(m.value, format, d, c, q, depth);
    MemberStep(c, o, depth);
  }

  lemma ParsePrintedKey(key: seq<byte>, format: bool, d: nat, c: seq<byte>, p: nat)
    requires Terminated(c) && NulFree(key) && Occurs(c, p, MemberStart(key, format, d))
    ensures
      var o := p + if format then d else 0;
      var q := p + |MemberStart(key, format, d)|;
      var s := q - if format then 2 else 1;
      && o < s < q <= |c|
      && ParseString(c, o) == Parsed(key, s)
      && c[s] == COLON
      && (forall k :: s < k < q ==> c[k] <= 32)
  {
    hide Occurs, Quote, ParseString, Tabs, Skip;
    var tabs := if format then Tabs(d) else [];
    var colon := if format then [COLON, TAB] else [COLON];
    OccursThree(c, p, tabs, Quote(key), colon);
    ParseQuote(c, p + |tabs|, key);
    var s := p + |tabs| + |Quote(key)|;
    OccursAt(c, s, colon, 0);
    if format {
      OccursAt(c, s, colon, 1);
    }
  }

  lemma MemberStep(c: seq<byte>, o: nat, depth: nat)
    requires Terminated(c) && o < |c|
    ensures
      var key := ParseString(c, Skip(c, o));
      key.Parsed? ==>
        var s := Skip(c, key.next);
        c[s] == COLON ==>
          s + 1 < |c| &&
          var value := ParseValue(c, Skip(c, s + 1), depth);
          ParseMember(c, o, depth) ==
          if value.Failed? then Failed else Parsed(Member(key.value, value.value), value.next)
  {
  }

  /**
   Parsing undoes printing, formatted or not, for every tree of null, booleans, 32-bit integers, C strings,
   arrays and objects: the text is parsed back to the same tree, whole, exactly when at most NESTING_LIMIT
   containers are open at once; a deeper tree prints to a text that is refused.
   */
  lemma ParsingUndoesPrinting(v: Json, format: bool, requireEnd: bool)
    requires Printable(v)
    ensures ParseText(Text(v, format, 0), requireEnd) ==
            if Nesting(v) <= NESTING_LIMIT then Parsed(v, |Text(v, format, 0)|) else Failed
  {
    var t := Text(v, format, 0);
    var c := t + [NUL];
    TextStart(v, format, 0);
    assert c[0] == t[0] && c[..|t|] == t;
    assert t[0] != 0xEF by { TextNotBom(v, format); }
    assert AfterBom(c) == 0 by {
      if 4 < |c| {
        assert c[..3][0] == c[0];
      }
    }
    SkipWhite(c, 0, 0);
    ParsePrinted(v, format, 0, c, 0, 0);
  }

  lemma TextNotBom(v: Json, format: bool)
    ensures |Text(v, format, 0)| > 0 && Text(v, format, 0)[0] != 0xEF
  {
    TextStart(v, format, 0);
  }
}
