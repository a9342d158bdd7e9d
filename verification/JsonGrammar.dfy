/**
 The JSON text that the parser accepts and the value it gives it, as functions of the input bytes and an
 offset. The content always ends in the NUL that `cJSON_Parse` counts in.
 */
module JsonGrammar {
  import opened Bytes
  import opened Utf
  import opened JsonText

  const NESTING_LIMIT: nat := 1000

  datatype Parsed<T> = Failed | Parsed(value: T, next: nat)

  ghost function Prepend<T>(front: seq<T>, r: Parsed<seq<T>>): Parsed<seq<T>> {
    if r.Failed? then Failed else Parsed(front + r.value, r.next)
  }

  lemma PrependNothing<T>(r: Parsed<seq<T>>)
    ensures Prepend([], r) == r
  {
    if r.Parsed? {
      assert [] + r.value == r.value;
    }
  }

  /** A loop appends to its list what the grammar puts in front of the rest. */
  lemma PrependOne<T>(front: seq<T>, x: T, r: Parsed<seq<T>>)
    ensures Prepend(front, Prepend([x], r)) == Prepend(front + [x], r)
  {
    if r.Parsed? {
      assert front + ([x] + r.value) == front + [x] + r.value;
    }
  }

  ghost predicate Terminated(c: seq<byte>) { |c| > 0 && c[|c| - 1] == NUL }

  // ----- whitespace -----

  ghost function WhitespaceEnd(c: seq<byte>, o: nat): (e: nat)
    requires o <= |c|
    ensures o <= e <= |c| && (e < |c| ==> c[e] > 32)
    decreases |c| - o
  {
    if o < |c| && c[o] <= 32 then WhitespaceEnd(c, o + 1) else o
  }

  /** Where skipping leaves the offset: never at the very end, but one before it. */
  ghost function Skip(c: seq<byte>, o: nat): (s: nat)
    requires o < |c|
    ensures o <= s < |c|
  {
    var e := WhitespaceEnd(c, o);
    if e == |c| then e - 1 else e
  }

  // ----- numbers: the decimal form of `strtod`, without rounding -----

  predicate IsNumberByte(b: byte) { IsDigit(b) || b == PLUS || b == MINUS || b == POINT || b == 0x65 || b == 0x45 }

  /** The end of the number bytes that are copied from `i`: at most `room` of them. */
  ghost function NumberEnd(c: seq<byte>, i: nat, room: nat): (e: nat)
    requires i <= |c|
    ensures i <= e <= i + room && e <= |c|
    ensures forall k :: i <= k < e ==> IsNumberByte(c[k])
    ensures e < |c| && e < i + room ==> !IsNumberByte(c[e])
    decreases room
  {
    if room > 0 && i < |c| && IsNumberByte(c[i]) then NumberEnd(c, i + 1, room - 1) else i
  }

  datatype Conversion = Conversion(number: real, length: nat)

  function Scaled(m: int, e: int): real {
    if e >= 0 then m as real * Pow10(e) as real
    else
      Pow10Positive(-e);
      m as real / Pow10(-e) as real
  }

  lemma Pow10Positive(k: nat)
    ensures Pow10(k) > 0
  {
  }

  /** The longest decimal number that starts `t`; length 0 when there is none. */
  function Strtod(t: seq<byte>): (r: Conversion)
    ensures r.length <= |t|
  {
    var sign := if t != [] && (t[0] == PLUS || t[0] == MINUS) then 1 else 0;
    var whole := DigitRun(t, sign);
    var fraction := if whole < |t| && t[whole] == POINT then DigitRun(t, whole + 1) else whole;
    var places := if fraction > whole then fraction - whole - 1 else 0;
    if whole - sign + places == 0 then Conversion(0.0, 0)
    else
      var digits := t[sign..whole] + (if places > 0 then t[whole + 1..fraction] else []);
      assert fraction > whole ==> AllDigits(t[whole + 1..fraction]);
      var magnitude: int := DigitsValue(digits);
      var mantissa := if sign == 1 && t[0] == MINUS then -magnitude else magnitude;
      var marked := fraction < |t| && (t[fraction] == 0x65 || t[fraction] == 0x45);
      var signed := marked && fraction + 1 < |t| && (t[fraction + 1] == PLUS || t[fraction + 1] == MINUS);
      var digitsAt := if signed then fraction + 2 else fraction + 1;
      if marked && DigitRun(t, digitsAt) > digitsAt then
        var end := DigitRun(t, digitsAt);
        var exponent: int := DigitsValue(t[digitsAt..end]);
        Conversion(Scaled(mantissa, (if t[digitsAt - 1] == MINUS then -exponent else exponent) - places), end)
      else Conversion(Scaled(mantissa, -places), fraction)
  }

  ghost function ParseNumber(c: seq<byte>, o: nat): (r: Parsed<real>)
    requires Terminated(c) && o < |c|
    ensures r.Parsed? ==> o < r.next < |c|
  {
    hide Strtod;
    var r := Strtod(c[o..NumberEnd(c, o, 63)]);
    if r.length == 0 then Failed
    else
      NumberStops(c, o, r.length);
      Parsed(r.number, o + r.length)
  }

  /** A number stops before the terminator. */
  lemma NumberStops(c: seq<byte>, o: nat, length: nat)
    requires Terminated(c) && o < |c| && 0 < length <= NumberEnd(c, o, 63) - o
    ensures o + length < |c|
  {
    assert c[o + length - 1] != NUL;
  }

  // ----- strings -----

  datatype Scan = NoQuote | QuoteAt(at: nat, escapes: nat)

  /** The first pass: the closing quote, and the number of backslashes that start an escape before it. */
  ghost function ScanString(c: seq<byte>, i: nat): (r: Scan)
    requires i <= |c|
    ensures r.QuoteAt? ==> i <= r.at < |c| && c[r.at] == QUOTE && 2 * r.escapes <= r.at - i
    decreases |c| - i
  {
    if i == |c| then NoQuote
    else if c[i] == QUOTE then QuoteAt(i, 0)
    else if c[i] == BACKSLASH then
      if i + 1 >= |c| then NoQuote
      else
        var r := ScanString(c, i + 2);
        if r.NoQuote? then NoQuote else r.(escapes := r.escapes + 1)
    else ScanString(c, i + 1)
  }

  /** The byte that a two-character escape with letter `b` stands for. */
  ghost function Unescape(b: byte): (r: byte) {
    if b == 0x62 then 0x08
    else if b == 0x66 then 0x0C
    else if b == 0x6E then 0x0A
    else if b == 0x72 then 0x0D
    else if b == 0x74 then 0x09
    else if b == QUOTE || b == BACKSLASH || b == SLASH then b
    else NUL
  }

  datatype Step = Bad | Step(output: seq<byte>, consumed: nat)

  /** One turn of the second pass, at `i`. An escape may read the closing quote at `end`. */
  ghost function UnescapeStep(c: seq<byte>, i: nat, end: nat): (r: Step)
    requires i < end < |c|
    ensures r.Step? ==> 1 <= |r.output| && |r.output| <= r.consumed && i + r.consumed <= end + 1
  {
    if c[i] != BACKSLASH then Step([c[i]], 1)
    else if c[i + 1] == LOWER_U then
      var u := Utf16Literal(c, i, end);
      if u.Rejected? then Bad else Step(u.utf8, u.sequenceLength)
    else if Unescape(c[i + 1]) == NUL then Bad
    else Step([Unescape(c[i + 1])], 2)
  }

  datatype Unescaped = Malformed | Unescaped(bytes: seq<byte>)

  /** The second pass, from `i`. */
  ghost function UnescapeFrom(c: seq<byte>, i: nat, end: nat): (r: Unescaped)
    requires i <= end + 1 && end < |c|
    decreases end + 1 - i
  {
    if i >= end then Unescaped([])
    else
      var step := UnescapeStep(c, i, end);
      if step.Bad? then Malformed
      else
        var rest := UnescapeFrom(c, i + step.consumed, end);
        if rest.Malformed? then Malformed else Unescaped(step.output + rest.bytes)
  }

  /** What a C program sees of a byte buffer: everything before the first NUL. */
  ghost function CString(s: seq<byte>): (t: seq<byte>)
    ensures NulFree(t) && t <= s
  {
    if s == [] || s[0] == NUL then [] else [s[0]] + CString(s[1..])
  }

  ghost function ParseString(c: seq<byte>, o: nat): (r: Parsed<seq<byte>>)
    requires Terminated(c) && o < |c|
    ensures r.Parsed? ==> o < r.next < |c| && NulFree(r.value)
  {
    if c[o] != QUOTE then Failed
    else
      var scan := ScanString(c, o + 1);
      if scan.NoQuote? then Failed
      else
        var body := UnescapeFrom(c, o + 1, scan.at);
        if body.Malformed? then Failed
        else
          Parsed(CString(body.bytes), scan.at + 1)
  }

  // ----- values -----

  ghost predicate Starts(c: seq<byte>, o: nat, word: seq<byte>) {
    o + |word| <= |c| && c[o..o + |word|] == word
  }

  lemma StartsWord(c: seq<byte>, o: nat, word: seq<byte>)
    requires Terminated(c) && Starts(c, o, word) && |word| > 0 && NulFree(word)
    ensures o + |word| < |c|
  {
    assert c[o + |word| - 1] == word[|word| - 1];
  }

  ghost function ParseValue(c: seq<byte>, o: nat, depth: nat): (r: Parsed<Json>)
    requires Terminated(c) && o < |c|
    ensures r.Parsed? ==> o < r.next < |c|
    decreases |c| - o, 1
  {
    if Starts(c, o, NULL_TEXT) then StartsWord(c, o, NULL_TEXT); Parsed(Null, o + 4)
    else if Starts(c, o, FALSE_TEXT) then StartsWord(c, o, FALSE_TEXT); Parsed(False, o + 5)
    else if Starts(c, o, TRUE_TEXT) then StartsWord(c, o, TRUE_TEXT); Parsed(True, o + 4)
    else if c[o] == QUOTE then
      var r := ParseString(c, o);
      if r.Failed? then Failed else Parsed(String(r.value), r.next)
    else if c[o] == MINUS || IsDigit(c[o]) then
      var r := ParseNumber(c, o);
      if r.Failed? then Failed else Parsed(Number(r.value), r.next)
    else if c[o] == LBRACKET then
      var r := ParseArray(c, o, depth);
      if r.Failed? then Failed else Parsed(Array(r.value), r.next)
    else if c[o] == LBRACE then
      var r := ParseObject(c, o, depth);
      if r.Failed? then Failed else Parsed(Object(r.value), r.next)
    else Failed
  }

  ghost function ParseArray(c: seq<byte>, o: nat, depth: nat): (r: Parsed<seq<Json>>)
    requires Terminated(c) && o < |c| && c[o] == LBRACKET
    ensures r.Parsed? ==> o < r.next < |c|
    decreases |c| - o, 0
  {
    if depth >= NESTING_LIMIT then Failed
    else
      var s := Skip(c, o + 1);
      if c[s] == RBRACKET then Parsed([], s + 1) else ParseItems(c, s, depth + 1)
  }

  /** Array elements from `o` to the closing bracket. */
  ghost function ParseItems(c: seq<byte>, o: nat, depth: nat): (r: Parsed<seq<Json>>)
    requires Terminated(c) && o < |c|
    ensures r.Parsed? ==> o < r.next < |c|
    decreases |c| - o, 2
  {
    var item := ParseValue(c, Skip(c, o), depth);
    if item.Failed? then Failed
    else
      var s := Skip(c, item.next);
      if c[s] == RBRACKET then Parsed([item.value], s + 1)
      else if c[s] != COMMA then Failed
      else
        Prepend([item.value], ParseItems(c, s + 1, depth))
  }

  ghost function ParseObject(c: seq<byte>, o: nat, depth: nat): (r: Parsed<seq<Member>>)
    requires Terminated(c) && o < |c| && c[o] == LBRACE
    ensures r.Parsed? ==> o < r.next < |c|
    decreases |c| - o, 0
  {
    if depth >= NESTING_LIMIT then Failed
    else
      var s := Skip(c, o + 1);
      if c[s] == RBRACE then Parsed([], s + 1) else ParseMembers(c, s, depth + 1)
  }

  /** One `name : value`. */
  ghost function ParseMember(c: seq<byte>, o: nat, depth: nat): (r: Parsed<Member>)
    requires Terminated(c) && o < |c|
    ensures r.Parsed? ==> o < r.next < |c|
    decreases |c| - o, 2
  {
    var key := ParseString(c, Skip(c, o));
    if key.Failed? then Failed
    else
      var s := Skip(c, key.next);
      if c[s] != COLON then Failed
      else
        var value := ParseValue(c, Skip(c, s + 1), depth);
        if value.Failed? then Failed else Parsed(Member(key.value, value.value), value.next)
  }

  /** Object members from `o` to the closing brace. */
  ghost function ParseMembers(c: seq<byte>, o: nat, depth: nat): (r: Parsed<seq<Member>>)
    requires Terminated(c) && o < |c|
    ensures r.Parsed? ==> o < r.next < |c|
    decreases |c| - o, 3
  {
    var member := ParseMember(c, o, depth);
    if member.Failed? then Failed
    else
      var s := Skip(c, member.next);
      if c[s] == RBRACE then Parsed([member.value], s + 1)
      else if c[s] != COMMA then Failed
      else
        Prepend([member.value], ParseMembers(c, s + 1, depth))
  }

  /** One turn of the loop over array elements, with the elements `front` already read. */
  lemma ItemsTurn(c: seq<byte>, o: nat, depth: nat, front: seq<Json>)
    requires Terminated(c) && o < |c|
    ensures
      var all := Prepend(front, ParseItems(c, o, depth));
      var item := ParseValue(c, Skip(c, o), depth);
      && (item.Failed? ==> all.Failed?)
      && (item.Parsed? ==>
            var s := Skip(c, item.next);
            && (c[s] == COMMA ==> s + 1 < |c| && all == Prepend(front + [item.value], ParseItems(c, s + 1, depth)))
            && (c[s] != COMMA ==> all == if c[s] == RBRACKET then Parsed(front + [item.value], s + 1) else Failed))
  {
    hide ParseValue;
    var item := ParseValue(c, Skip(c, o), depth);
    if item.Parsed? && c[Skip(c, item.next)] == COMMA {
      PrependOne(front, item.value, ParseItems(c, Skip(c, item.next) + 1, depth));
    }
  }

  /** One turn of the loop over object members, with the members `front` already read. */
  lemma MembersTurn(c: seq<byte>, o: nat, depth: nat, front: seq<Member>)
    requires Terminated(c) && o < |c|
    ensures
      var all := Prepend(front, ParseMembers(c, o, depth));
      var member := ParseMember(c, o, depth);
      && (member.Failed? ==> all.Failed?)
      && (member.Parsed? ==>
            var s := Skip(c, member.next);
            && (c[s] == COMMA ==> s + 1 < |c| && all == Prepend(front + [member.value], ParseMembers(c, s + 1, depth)))
            && (c[s] != COMMA ==> all == if c[s] == RBRACE then Parsed(front + [member.value], s + 1) else Failed))
  {
    hide ParseMember;
    var member := ParseMember(c, o, depth);
    if member.Parsed? && c[Skip(c, member.next)] == COMMA {
      PrependOne(front, member.value, ParseMembers(c, Skip(c, member.next) + 1, depth));
    }
  }

  // ----- the whole text -----

  /** The offset after a UTF-8 byte order mark, if the content is long enough to hold one. */
  ghost function AfterBom(c: seq<byte>): (o: nat)
    requires |c| > 0
    ensures o < |c|
  {
    if 4 < |c| && c[..3] == [0xEF, 0xBB, 0xBF] then 3 else 0
  }

  /** `cJSON_ParseWithOpts`: with `requireEnd`, only whitespace may follow the value. */
  ghost function ParseText(text: seq<byte>, requireEnd: bool): (r: Parsed<Json>) {
    var c := text + [NUL];
    var r := ParseValue(c, Skip(c, AfterBom(c)), 0);
    if r.Failed? || !requireEnd then r
    else
      var s := Skip(c, r.next);
      if c[s] == NUL then r.(next := s) else Failed
  }
}
