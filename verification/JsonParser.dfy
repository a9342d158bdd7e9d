/** The recursive-descent parser: a buffer whose offset and depth its methods move. */
module JsonParser {
  import opened Bytes
  import opened Utf
  import opened Items
  import opened JsonText
  import opened JsonGrammar

  // ----- the size of an unescaped string -----

  /** Whether position `k` is the second byte of an escape, as the first pass pairs the bytes from `start`. */
  ghost predicate Escaped(c: seq<byte>, start: nat, k: nat)
    requires start <= k <= |c|
    decreases k
  {
    k > start && !Escaped(c, start, k - 1) && c[k - 1] == BACKSLASH
  }

  /** The number of escapes that the first pass has opened before position `k`. */
  ghost function EscapesBefore(c: seq<byte>, start: nat, k: nat): nat
    requires start <= k <= |c|
    decreases k
  {
    if k == start then 0 else EscapesBefore(c, start, k - 1) + if Escaped(c, start, k) then 1 else 0
  }

  /** The first pass counts exactly the escapes it opens before the closing quote. */
  lemma {:induction false} ScanCounts(c: seq<byte>, start: nat, i: nat)
    requires start <= i <= |c| && !Escaped(c, start, i)
    ensures
      var r := ScanString(c, i);
      r.QuoteAt? ==> EscapesBefore(c, start, r.at) == EscapesBefore(c, start, i) + r.escapes
    decreases |c| - i
  {
    if i < |c| && c[i] != QUOTE {
      if c[i] != BACKSLASH {
        assert !Escaped(c, start, i + 1);
        ScanCounts(c, start, i + 1);
      } else if i + 1 < |c| {
        assert Escaped(c, start, i + 1) && !Escaped(c, start, i + 2);
        ScanCounts(c, start, i + 2);
      }
    }
  }

  /** Escapes open at most every other byte, wherever the window starts. */
  lemma {:induction false} EscapesInWindow(c: seq<byte>, start: nat, i: nat, pairs: nat)
    requires start <= i && i + 2 * pairs <= |c|
    ensures EscapesBefore(c, start, i + 2 * pairs) <= EscapesBefore(c, start, i) + pairs
    decreases pairs
  {
    if pairs > 0 {
      EscapesInWindow(c, start, i + 2, pairs - 1);
      assert !Escaped(c, start, i + 1) || !Escaped(c, start, i + 2);
    }
  }

  /**
   One turn of the second pass writes no more than the bytes it consumes minus the escapes the first pass
   opened among them. The turn may run one byte past the closing quote.
   */
  lemma StepFits(c: seq<byte>, start: nat, i: nat, end: nat)
    requires start <= i < end < |c| && UnescapeStep(c, i, end).Step?
    ensures
      var step := UnescapeStep(c, i, end);
      |step.output| <= step.consumed - (EscapesBefore(c, start, i + step.consumed) - EscapesBefore(c, start, i))
  {
    var step := UnescapeStep(c, i, end);
    if c[i] != BACKSLASH {
      assert !Escaped(c, start, i + 1);
    } else {
      EscapesInWindow(c, start, i, step.consumed / 2);
      if step.consumed == 6 {
        assert |Utf8Encode(Hex4(c, i + 2))| <= 3;
      }
    }
  }

  /** The room that `parse_string` reserves, the terminator not counted. */
  ghost function Room(o: nat, scan: Scan): int
    requires scan.QuoteAt?
  {
    scan.at - o - scan.escapes
  }

  /** Once the second pass stops, at the closing quote or one byte past it, what it wrote fits the room. */
  lemma RoomSuffices(c: seq<byte>, o: nat, i: nat, written: nat)
    requires o < |c| && o + 1 <= i
    requires var scan := ScanString(c, o + 1); scan.QuoteAt? && i <= scan.at + 1
    requires i <= |c| && written <= i - (o + 1) - EscapesBefore(c, o + 1, i)
    ensures written <= Room(o, ScanString(c, o + 1))
  {
    var scan := ScanString(c, o + 1);
    ScanCounts(c, o + 1, o + 1);
    if i <= scan.at {
      EscapesGrow(c, o + 1, i, scan.at);
    }
  }

  lemma NoEscapesBefore(c: seq<byte>, start: nat)
    requires start <= |c|
    ensures EscapesBefore(c, start, start) == 0
  {
  }

  lemma {:induction false} EscapesGrow(c: seq<byte>, start: nat, i: nat, k: nat)
    requires start <= i <= k <= |c|
    ensures EscapesBefore(c, start, k) <= EscapesBefore(c, start, i) + (k - i)
    decreases k - i
  {
    if i < k {
      EscapesGrow(c, start, i, k - 1);
    }
  }

  /**
   The first pass reserves enough for every string the second pass accepts, also when a `\u` with bad digits
   makes the two passes pair the backslashes differently.
   */
  lemma UnescapedFits(c: seq<byte>, o: nat)
    requires o < |c|
    requires ScanString(c, o + 1).QuoteAt?
    requires UnescapeFrom(c, o + 1, ScanString(c, o + 1).at).Unescaped?
    ensures |UnescapeFrom(c, o + 1, ScanString(c, o + 1).at).bytes| <= Room(o, ScanString(c, o + 1))
  {
    UnescapedFitsFrom(c, o, o + 1, 0);
  }

  lemma {:induction false} UnescapedFitsFrom(c: seq<byte>, o: nat, i: nat, written: nat)
    requires o < |c| && ScanString(c, o + 1).QuoteAt?
    requires o + 1 <= i <= ScanString(c, o + 1).at + 1
    requires written <= i - (o + 1) - EscapesBefore(c, o + 1, i)
    requires UnescapeFrom(c, i, ScanString(c, o + 1).at).Unescaped?
    ensures written + |UnescapeFrom(c, i, ScanString(c, o + 1).at).bytes| <= Room(o, ScanString(c, o + 1))
    decreases ScanString(c, o + 1).at + 1 - i
  {
    var end := ScanString(c, o + 1).at;
    if i >= end {
      RoomSuffices(c, o, i, written);
    } else {
      var step := UnescapeStep(c, i, end);
      StepFits(c, o + 1, i, end);
      UnescapedFitsFrom(c, o, i + step.consumed, written + |step.output|);
    }
  }

  // ----- the parser -----

  ghost function After(front: seq<byte>, rest: Unescaped): Unescaped {
    if rest.Malformed? then Malformed else Unescaped(front + rest.bytes)
  }

  lemma AfterNothing(rest: Unescaped)
    ensures After([], rest) == rest
  {
    if rest.Unescaped? {
      assert [] + rest.bytes == rest.bytes;
    }
  }

  lemma UnescapeDone(c: seq<byte>, i: nat, end: nat)
    requires end <= i <= end + 1 && end < |c|
    ensures UnescapeFrom(c, i, end) == Unescaped([])
  {
  }

  lemma UnescapeMore(c: seq<byte>, i: nat, end: nat, front: seq<byte>)
    requires i < end < |c|
    ensures
      var step := UnescapeStep(c, i, end);
      After(front, UnescapeFrom(c, i, end)) ==
      if step.Bad? then Malformed else After(front + step.output, UnescapeFrom(c, i + step.consumed, end))
  {
    hide UnescapeStep;
    var step := UnescapeStep(c, i, end);
    if step.Step? && UnescapeFrom(c, i + step.consumed, end).Unescaped? {
      var rest := UnescapeFrom(c, i + step.consumed, end).bytes;
      assert front + (step.output + rest) == (front + step.output) + rest;
    }
  }

  lemma {:induction false} CStringIs(s: seq<byte>, n: nat)
    requires n <= |s| && (forall k :: 0 <= k < n ==> s[k] != NUL) && (n == |s| || s[n] == NUL)
    ensures CString(s) == s[..n]
  {
    if n > 0 {
      CStringIs(s[1..], n - 1);
      assert s[..n] == [s[0]] + s[1..][..n - 1];
    }
  }

  lemma NumberEndStep(c: seq<byte>, i: nat, room: nat)
    requires i <= |c|
    ensures NumberEnd(c, i, room) ==
            if room > 0 && i < |c| && IsNumberByte(c[i]) then NumberEnd(c, i + 1, room - 1) else i
  {
  }

  class ParseBuffer {
    const content: seq<byte>
    var offset: nat
    var depth: nat

    ghost predicate Valid()
      reads this
    {
      Terminated(content) && offset < |content|
    }

    constructor (content: seq<byte>)
      requires Terminated(content)
      ensures Valid() && this.content == content && offset == 0 && depth == 0
    {
      this.content := content;
      offset, depth := 0, 0;
    }

    method SkipWhitespace()
      requires Valid()
      modifies this`offset
      ensures Valid() && offset == Skip(content, old(offset))
    {
      ghost var start := offset;
      while offset < |content| && content[offset] <= 32
        invariant offset <= |content|
        invariant WhitespaceEnd(content, start) == WhitespaceEnd(content, offset)
      {
        offset := offset + 1;
      }
      if offset == |content| {
        offset := offset - 1;
      }
    }

    method SkipBom()
      requires Valid() && offset == 0
      modifies this`offset
      ensures Valid() && offset == AfterBom(content)
    {
      if 4 < |content| && content[..3] == [0xEF, 0xBB, 0xBF] {
        offset := offset + 3;
      }
    }

    /** Copies at most 63 number bytes to a buffer of 64 and converts them. */
    method ParseNumberItem() returns (ok: bool, number: real)
      requires Valid()
      modifies this`offset
      ensures Valid()
      ensures var r := ParseNumber(content, old(offset));
              ok == r.Parsed? && (ok ==> number == r.value && offset == r.next)
      ensures !ok ==> offset == old(offset)
    {
      hide Strtod;
      var buffer := new byte[64](_ => NUL);
      var i := CopyNumber(buffer);
      var r := Strtod(buffer[..i]);
      if r.length == 0 {
        return false, 0.0;
      }
      offset := offset + r.length;
      return true, r.number;
    }

    method CopyNumber(buffer: array<byte>) returns (i: nat)
      requires Valid() && buffer.Length == 64
      modifies buffer
      ensures i < 64 && offset + i == NumberEnd(content, offset, 63)
      ensures buffer[..i] == content[offset..offset + i]
    {
      hide NumberEnd, IsNumberByte;
      i := 0;
      while i < 63 && offset + i < |content| && IsNumberByte(content[offset + i])
        invariant 0 <= i <= 63 && offset + i <= |content|
        invariant forall k :: 0 <= k < i ==> buffer[k] == content[offset + k]
        invariant NumberEnd(content, offset, 63) == NumberEnd(content, offset + i, 63 - i)
      {
        NumberEndStep(content, offset + i, 63 - i);
        buffer[i] := content[offset + i];
        i := i + 1;
      }
      NumberEndStep(content, offset + i, 63 - i);
    }

    /** The first pass over a string: the closing quote and the number of escapes skipped. */
    method FindClosingQuote() returns (ok: bool, end: nat, skipped: nat)
      requires Valid() && content[offset] == QUOTE
      ensures ok == ScanString(content, offset + 1).QuoteAt?
      ensures ok ==> ScanString(content, offset + 1) == QuoteAt(end, skipped)
    {
      end, skipped := offset + 1, 0;
      while end < |content| && content[end] != QUOTE
        invariant offset < end <= |content|
        invariant
          var whole, rest := ScanString(content, offset + 1), ScanString(content, end);
          whole == if rest.NoQuote? then NoQuote else QuoteAt(rest.at, rest.escapes + skipped)
      {
        if content[end] == BACKSLASH {
          if end + 1 >= |content| {
            return false, end, skipped;
          }
          skipped := skipped + 1;
          end := end + 1;
        }
        end := end + 1;
      }
      ok := end < |content|;
    }

    /** The second pass over a string, into a buffer of the size that the first pass computed. */
    method UnescapeInto(output: array<byte>, end: nat) returns (ok: bool, written: nat, inputEnd: nat)
      requires Valid() && content[offset] == QUOTE
      requires var scan := ScanString(content, offset + 1);
               scan.QuoteAt? && scan.at == end && output.Length == Room(offset, scan) + 1
      modifies output
      ensures ok == UnescapeFrom(content, offset + 1, end).Unescaped?
      ensures offset < inputEnd <= |content|
      ensures ok ==> written < output.Length && output[..written] == UnescapeFrom(content, offset + 1, end).bytes
    {
      hide UnescapeStep, UnescapeFrom, ScanString, EscapesBefore, Escaped;
      assert EscapesBefore(content, offset + 1, offset + 1) == 0 by { NoEscapesBefore(content, offset + 1); }
      var i, at := offset + 1, 0;
      RoomSuffices(content, offset, i, at);
      assert UnescapeFrom(content, i, end) == After([], UnescapeFrom(content, i, end)) by {
        AfterNothing(UnescapeFrom(content, i, end));
      }
      while i < end
        invariant offset + 1 <= i <= end + 1
        invariant at <= i - (offset + 1) - EscapesBefore(content, offset + 1, i)
        invariant at < output.Length
        invariant
          UnescapeFrom(content, offset + 1, end) == After(output[..at], UnescapeFrom(content, i, end))
        decreases end + 1 - i
      {
        ghost var step := UnescapeStep(content, i, end);
        if step.Step? {
          StepFits(content, offset + 1, i, end);
          RoomSuffices(content, offset, i + step.consumed, at + |step.output|);
        }
        ghost var before := output[..at];
        UnescapeMore(content, i, end, before);
        var good, consumed, next := UnescapeTurn(output, at, i, end);
        if !good {
          return false, at, i;
        }
        assert output[..next] == before + step.output;
        i, at := i + consumed, next;
      }
      UnescapeDone(content, i, end);
      return true, at, i;
    }

    /** One turn of that pass: a byte copied, a two-character escape, or a `\u` literal. */
    method UnescapeTurn(output: array<byte>, at: nat, i: nat, end: nat) returns (ok: bool, consumed: nat, next: nat)
      requires i < end < |content|
      requires var step := UnescapeStep(content, i, end); step.Step? ==> at + |step.output| < output.Length
      modifies output
      ensures var step := UnescapeStep(content, i, end);
              && ok == step.Step?
              && (ok ==> consumed == step.consumed && next == at + |step.output| &&
                         output[..next] == old(output[..at]) + step.output)
    {
      hide Utf16Literal;
      consumed, next := 0, at;
      if content[i] != BACKSLASH {
        output[at] := content[i];
        return true, 1, at + 1;
      }
      var letter := content[i + 1];
      if letter == LOWER_U {
        consumed, next := Utf16LiteralToUtf8(content, i, end, output, at);
        ok := consumed != 0;
        if ok {
          assert output[..next] == output[..at] + output[at..next];
        }
      } else {
        var b :=
          if letter == 0x62 then 0x08
          else if letter == 0x66 then 0x0C
          else if letter == 0x6E then 0x0A
          else if letter == 0x72 then 0x0D
          else if letter == 0x74 then 0x09
          else if letter == QUOTE || letter == BACKSLASH || letter == SLASH then letter
          else NUL;
        if b == NUL {
          return false, 0, at;
        }
        output[at] := b;
        return true, 2, at + 1;
      }
    }

    method ParseStringItem() returns (ok: bool, text: seq<byte>)
      requires Valid()
      modifies this`offset
      ensures var r := ParseString(content, old(offset));
              ok == r.Parsed? && (ok ==> Valid() && text == r.value && offset == r.next)
      ensures offset <= |content|
    {
      text := [];
      if content[offset] != QUOTE {
        offset := offset + 1;
        return false, text;
      }
      var found, end, skipped := FindClosingQuote();
      if !found {
        offset := offset + 1;
        return false, text;
      }
      var output := new byte[end - offset - skipped + 1](_ => NUL);
      var unescaped, written, inputEnd := UnescapeInto(output, end);
      if !unescaped {
        offset := inputEnd;
        return false, text;
      }
      output[written] := NUL;
      text := ReadCString(output, written);
      offset := end + 1;
      return true, text;
    }

    /** How the rest of the program reads a terminated buffer. */
    static method ReadCString(buffer: array<byte>, length: nat) returns (text: seq<byte>)
      requires length < buffer.Length && buffer[length] == NUL
      ensures text == CString(buffer[..length])
    {
      var i := 0;
      while buffer[i] != NUL
        invariant 0 <= i <= length
        invariant forall k :: 0 <= k < i ==> buffer[k] != NUL
        decreases length - i
      {
        i := i + 1;
      }
      CStringIs(buffer[..length], i);
      text := buffer[..i];
    }

    method ParseItem() returns (ok: bool, item: Item?)
      requires Valid()
      modifies this
      ensures var r := ParseValue(content, old(offset), old(depth));
              && ok == r.Parsed?
              && (ok ==>
                    && Valid() && offset == r.next && depth == old(depth)
                    && item != null && Alone(item, r.value) && fresh(item.repr))
      ensures offset <= |content|
      decreases |content| - offset, 3
    {
      hide ParseArray, ParseObject, ParseString, ParseNumber, Item.Valid, Item.Building;
      if offset + 4 <= |content| && content[offset..offset + 4] == NULL_TEXT {
        StartsWord(content, offset, NULL_TEXT);
        offset := offset + 4;
        item := new Item(NullKind, 0.0, [], []);
        return true, item;
      }
      if offset + 5 <= |content| && content[offset..offset + 5] == FALSE_TEXT {
        StartsWord(content, offset, FALSE_TEXT);
        offset := offset + 5;
        item := new Item(FalseKind, 0.0, [], []);
        return true, item;
      }
      if offset + 4 <= |content| && content[offset..offset + 4] == TRUE_TEXT {
        StartsWord(content, offset, TRUE_TEXT);
        offset := offset + 4;
        item := new Item(TrueKind, 0.0, [], []);
        return true, item;
      }
      if content[offset] == QUOTE {
        var text;
        ok, text := ParseStringItem();
        item := new Item(StringKind, 0.0, text, []);
        return ok, item;
      }
      if content[offset] == MINUS || IsDigit(content[offset]) {
        var number;
        ok, number := ParseNumberItem();
        item := new Item(NumberKind, number, [], []);
        return ok, item;
      }
      if content[offset] == LBRACKET {
        ok, item := ParseArrayItems();
        return ok, item;
      }
      if content[offset] == LBRACE {
        ok, item := ParseObjectMembers();
        return ok, item;
      }
      return false, null;
    }

    method ParseArrayItems() returns (ok: bool, list: Item?)
      requires Valid() && content[offset] == LBRACKET
      modifies this
      ensures var r := ParseArray(content, old(offset), old(depth));
              && ok == r.Parsed?
              && (ok ==>
                    && Valid() && offset == r.next && depth == old(depth)
                    && list != null && Alone(list, Array(r.value)) && fresh(list.repr))
      ensures offset <= |content|
      decreases |content| - offset, 2
    {
      hide ParseItems, ParseValue, Prepend, Skip, WhitespaceEnd, Growing, Alone, Stand;
      if depth >= NESTING_LIMIT {
        return false, null;
      }
      depth := depth + 1;
      offset := offset + 1;
      SkipWhitespace();
      var built := new Item(ArrayKind, 0.0, [], []);
      EmptyListGrows(built);
      if content[offset] == RBRACKET {
        depth := depth - 1;
        offset := offset + 1;
        CloseArray(built, null, []);
        return true, built;
      }
      offset := offset - 1;
      var parsed, last, items := ParseElements(built);
      if !parsed || content[offset] != RBRACKET {
        return false, null;
      }
      depth := depth - 1;
      offset := offset + 1;
      CloseArray(built, last, items);
      return true, built;
    }

    /** The loop over the elements; it starts one before the first and ends where no comma follows. */
    method ParseElements(list: Item) returns (ok: bool, last: Item?, ghost items: seq<Json>)
      requires Valid() && offset + 1 < |content|
      requires Growing(list, null) && list.children == [] && list.kind == ArrayKind && list.repr == {list}
      modifies this, list
      ensures offset <= |content|
      ensures var all := ParseItems(content, old(offset) + 1, old(depth));
              if ok then
                && Valid() && offset > old(offset) && depth == old(depth) && content[offset] != COMMA
                && all == if content[offset] == RBRACKET then Parsed(items, offset + 1) else Failed
              else all.Failed?
      ensures ok ==> Growing(list, last) && Stand(list.children, items) && list.kind == ArrayKind
      ensures ok ==> fresh(list.repr - {list})
      decreases |content| - offset, 1
    {
      hide ParseItems, ParseValue, Prepend, Skip, WhitespaceEnd, Growing, Alone, Stand;
      last, items := null, [];
      assert Stand(list.children, items) by { NothingStands(list.children); }
      ghost var first := offset + 1;
      var more := true;
      PrependNothing(ParseItems(content, first, depth));
      while more
        invariant Valid() && depth == old(depth) && offset >= old(offset) && (!more ==> offset > old(offset))
        invariant Growing(list, last) && Stand(list.children, items) && list.kind == ArrayKind
        invariant list in list.repr && fresh(list.repr - {list})
        invariant more ==> offset + 1 < |content| &&
                           ParseItems(content, first, depth) == Prepend(items, ParseItems(content, offset + 1, depth))
        invariant !more ==> content[offset] != COMMA &&
                            ParseItems(content, first, depth) ==
                            if content[offset] == RBRACKET then Parsed(items, offset + 1) else Failed
        decreases |content| - offset
      {
        ItemsTurn(content, offset + 1, depth, items);
        offset := offset + 1;
        SkipWhitespace();
        ghost var element := ParseValue(content, offset, depth);
        var parsed, item := ParseItem();
        if !parsed {
          return false, last, items;
        }
        Grow(list, last, item, items, element.value);
        last, items := item, items + [element.value];
        SkipWhitespace();
        more := content[offset] == COMMA;
      }
      ok := true;
    }

    /** A name, a colon and a value. */
    method ParseMemberItem() returns (ok: bool, item: Item?)
      requires Valid()
      modifies this
      ensures var r := ParseMember(content, old(offset), old(depth));
              && ok == r.Parsed?
              && (ok ==>
                    && Valid() && offset == r.next && depth == old(depth)
                    && item != null && Alone(item, r.value.value) && item.key == r.value.key && fresh(item.repr))
      ensures offset <= |content|
      decreases |content| - offset, 4
    {
      hide ParseValue, ParseString, Item.Valid;
      SkipWhitespace();
      var named, key := ParseStringItem();
      if !named {
        return false, null;
      }
      SkipWhitespace();
      if content[offset] != COLON {
        return false, null;
      }
      offset := offset + 1;
      SkipWhitespace();
      ok, item := ParseItem();
      if ok {
        item.key := key;
      }
    }

    method ParseObjectMembers() returns (ok: bool, list: Item?)
      requires Valid() && content[offset] == LBRACE
      modifies this
      ensures var r := ParseObject(content, old(offset), old(depth));
              && ok == r.Parsed?
              && (ok ==>
                    && Valid() && offset == r.next && depth == old(depth)
                    && list != null && Alone(list, Object(r.value)) && fresh(list.repr))
      ensures offset <= |content|
      decreases |content| - offset, 2
    {
      hide ParseMembers, ParseMember, Prepend, Skip, WhitespaceEnd, Growing, Alone, StandByName;
      if depth >= NESTING_LIMIT {
        return false, null;
      }
      depth := depth + 1;
      offset := offset + 1;
      SkipWhitespace();
      var built := new Item(ObjectKind, 0.0, [], []);
      EmptyListGrows(built);
      if content[offset] == RBRACE {
        depth := depth - 1;
        offset := offset + 1;
        CloseObject(built, null, []);
        return true, built;
      }
      offset := offset - 1;
      var parsed, last, members := ParseMemberList(built);
      if !parsed || content[offset] != RBRACE {
        return false, null;
      }
      depth := depth - 1;
      offset := offset + 1;
      CloseObject(built, last, members);
      return true, built;
    }

    /** The loop over the members; it starts one before the first and ends where no comma follows. */
    method ParseMemberList(list: Item) returns (ok: bool, last: Item?, ghost members: seq<Member>)
      requires Valid() && offset + 1 < |content|
      requires Growing(list, null) && list.children == [] && list.kind == ObjectKind && list.repr == {list}
      modifies this, list
      ensures offset <= |content|
      ensures var all := ParseMembers(content, old(offset) + 1, old(depth));
              if ok then
                && Valid() && offset > old(offset) && depth == old(depth) && content[offset] != COMMA
                && all == if content[offset] == RBRACE then Parsed(members, offset + 1) else Failed
              else all.Failed?
      ensures ok ==> Growing(list, last) && StandByName(list.children, members) && list.kind == ObjectKind
      ensures ok ==> fresh(list.repr - {list})
      decreases |content| - offset, 1
    {
      hide ParseMembers, ParseMember, Prepend, Skip, WhitespaceEnd, Growing, Alone, StandByName;
      last, members := null, [];
      assert StandByName(list.children, members) by { NothingStands(list.children); }
      ghost var first := offset + 1;
      var more := true;
      PrependNothing(ParseMembers(content, first, depth));
      while more
        invariant Valid() && depth == old(depth) && offset >= old(offset) && (!more ==> offset > old(offset))
        invariant Growing(list, last) && StandByName(list.children, members) && list.kind == ObjectKind
        invariant list in list.repr && fresh(list.repr - {list})
        invariant more ==> offset + 1 < |content| &&
                           ParseMembers(content, first, depth) ==
                           Prepend(members, ParseMembers(content, offset + 1, depth))
        invariant !more ==> content[offset] != COMMA &&
                            ParseMembers(content, first, depth) ==
                            if content[offset] == RBRACE then Parsed(members, offset + 1) else Failed
        decreases |content| - offset
      {
        MembersTurn(content, offset + 1, depth, members);
        offset := offset + 1;
        ghost var member := ParseMember(content, offset, depth);
        var parsed, item := ParseMemberItem();
        if !parsed {
          return false, last, members;
        }
        GrowByName(list, last, item, members, member.value);
        last, members := item, members + [member.value];
        SkipWhitespace();
        more := content[offset] == COMMA;
      }
      ok := true;
    }
  }

  // ----- the lists that the parser links -----

  /** A new item is an empty list, which stands for nothing. */
  lemma EmptyListGrows(list: Item)
    requires list.Building(null) && list.children == [] && list in list.repr
    requires list.child == null && list.next == null && list.prev == null
    ensures Growing(list, null) && Stand(list.children, []) && StandByName(list.children, [])
  {
  }

  lemma NothingStands(items: seq<Item>)
    requires items == []
    ensures Stand(items, []) && StandByName(items, [])
  {
  }

  /** Links a parsed element behind the last one. */
  method Grow(list: Item, last: Item?, item: Item, ghost items: seq<Json>, ghost v: Json)
    requires Growing(list, last) && Alone(item, v) && item.repr !! list.repr && Stand(list.children, items)
    modifies list.repr, item.repr
    ensures Growing(list, item) && list.repr == old(list.repr) + old(item.repr)
    ensures list.kind == old(list.kind) && Stand(list.children, items + [v])
  {
    hide Item.Valid, Item.Building, Item.Owns, Item.Chaining;
    list.Hook(last, item);
  }

  /** Links a parsed member behind the last one. */
  method GrowByName(list: Item, last: Item?, item: Item, ghost members: seq<Member>, ghost m: Member)
    requires Growing(list, last) && Alone(item, m.value) && item.key == m.key && item.repr !! list.repr
    requires StandByName(list.children, members)
    modifies list.repr, item.repr
    ensures Growing(list, item) && list.repr == old(list.repr) + old(item.repr)
    ensures list.kind == old(list.kind) && StandByName(list.children, members + [m])
  {
    hide Item.Valid, Item.Building, Item.Owns, Item.Chaining;
    list.Hook(last, item);
  }

  method CloseArray(list: Item, last: Item?, ghost items: seq<Json>)
    requires Growing(list, last) && list.kind == ArrayKind && Stand(list.children, items)
    modifies list.repr
    ensures Alone(list, Array(items)) && list.repr == old(list.repr)
  {
    hide Item.Valid, Item.Building, Item.Owns, Item.Chaining;
    list.Close(last, Array(items));
  }

  method CloseObject(list: Item, last: Item?, ghost members: seq<Member>)
    requires Growing(list, last) && list.kind == ObjectKind && StandByName(list.children, members)
    modifies list.repr
    ensures Alone(list, Object(members)) && list.repr == old(list.repr)
  {
    hide Item.Valid, Item.Building, Item.Owns, Item.Chaining;
    list.Close(last, Object(members));
  }

  /** `cJSON_ParseWithOpts` on a C string: a new tree for the value; `end` is the offset after what was parsed. */
  method Parse(text: seq<byte>, requireEnd: bool) returns (ok: bool, item: Item?, end: nat)
    requires NulFree(text)
    ensures var r := ParseText(text, requireEnd);
            && ok == r.Parsed?
            && (ok ==> end == r.next && item != null && Alone(item, r.value) && fresh(item.repr))
  {
    hide Alone;
    var buffer := new ParseBuffer(text + [NUL]);
    buffer.SkipBom();
    buffer.SkipWhitespace();
    ok, item := buffer.ParseItem();
    if ok && requireEnd {
      buffer.SkipWhitespace();
      ok := buffer.content[buffer.offset] == NUL;
    }
    end := buffer.offset;
  }
}
