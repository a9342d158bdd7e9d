/** The printer: text appended to a buffer that grows by doubling, or to one whose size is fixed. */
module JsonPrinter {
  import opened Bytes
  import opened Utf
  import opened JsonText

  class PrintBuffer {
    var buffer: array<byte>
    var offset: nat
    var depth: nat
    /** The buffer belongs to the caller and may not be replaced. */
    const noalloc: bool
    const format: bool
    /** No `realloc` hook: growing copies only what has been printed so far. */
    const manual: bool
    /** What has been printed and counted. */
    ghost var printed: seq<byte>

    constructor (buffer: array<byte>, noalloc: bool, format: bool, manual: bool)
      requires buffer.Length <= INT_MAX && (manual ==> buffer.Length > 0)
      ensures Valid() && this.buffer == buffer && printed == [] && depth == 0
      ensures this.noalloc == noalloc && this.format == format && this.manual == manual
    {
      this.buffer, offset, depth, printed := buffer, 0, 0, [];
      this.noalloc, this.format, this.manual := noalloc, format, manual;
    }

    ghost predicate Valid()
      reads this, buffer
    {
      && buffer.Length <= INT_MAX
      && (offset < buffer.Length || (offset == buffer.Length == 0 && !manual))
      && offset == |printed| && buffer[..offset] == printed
    }

    /** The largest size the buffer can have. */
    ghost function Capacity(): nat
      reads this
    {
      if noalloc then buffer.Length else INT_MAX
    }

    /** The buffer has been kept, or replaced by one of this object's own. */
    twostate predicate KeptOrReplaced()
      reads this
    {
      && (buffer == old(buffer) || fresh(buffer))
      && (noalloc ==> buffer == old(buffer))
    }

    /** `t` was printed and counted. */
    twostate predicate Counted(t: seq<byte>)
      reads this
    {
      printed == old(printed) + t && depth == old(depth)
    }

    /** `t` was printed and terminated, though perhaps not all of it is counted yet. */
    twostate predicate Pending(t: seq<byte>)
      reads this, buffer
    {
      depth == old(depth) && Holds(old(printed), t)
    }

    /** Behind `front`, the buffer holds `t` and a terminator. */
    ghost predicate Holds(front: seq<byte>, t: seq<byte>)
      reads this`offset, this`buffer, buffer
    {
      var end := |front| + |t|;
      && |front| <= offset <= end < buffer.Length
      && buffer[..end] == front + t
      && buffer[end] == NUL
    }

    /** What was printed in three parts was printed. */
    lemma HoldsAll(before: seq<byte>, open: seq<byte>, body: seq<byte>, close: seq<byte>)
      requires Holds(before + open + body, close)
      ensures Holds(before, open + body + close)
    {
      assert before + open + body + close == before + (open + body + close);
    }

    /** Makes room for `needed` more bytes and one to spare. */
    method Ensure(needed: nat) returns (ok: bool)
      requires Valid()
      modifies this`buffer
      ensures Valid() && KeptOrReplaced()
      ensures ok <==> |printed| + needed + 1 <= Capacity()
      ensures ok ==> |printed| + needed + 1 <= buffer.Length
    {
      if buffer.Length > 0 && offset >= buffer.Length {
        return false;
      }
      if needed > INT_MAX {
        return false;
      }
      var total := needed + offset + 1;
      if total <= buffer.Length {
        return true;
      }
      if noalloc {
        return false;
      }
      var newsize;
      if total > INT_MAX / 2 {
        if total <= INT_MAX {
          newsize := INT_MAX;
        } else {
          return false;
        }
      } else {
        newsize := total * 2;
      }
      var keep := if manual then offset + 1 else buffer.Length;
      var newbuffer := new byte[newsize];
      forall k | 0 <= k < keep {
        newbuffer[k] := buffer[k];
      }
      assert newbuffer[..offset] == buffer[..offset];
      buffer := newbuffer;
      return true;
    }

    /** Writes `t` from index `at`. */
    method Put(at: nat, t: seq<byte>)
      requires at + |t| <= buffer.Length
      modifies buffer
      ensures buffer[..at + |t|] == old(buffer[..at]) + t
    {
      forall k | 0 <= k < |t| {
        buffer[at + k] := t[k];
      }
    }

    /** Reserves `needed` bytes, writes `t` with a terminator if asked, and moves the offset past `t`. */
    method Append(needed: nat, t: seq<byte>, terminate: bool) returns (ok: bool)
      requires Valid() && |t| <= needed && (terminate ==> |t| < needed)
      modifies this, buffer
      ensures Valid() && KeptOrReplaced()
      ensures ok <==> old(|printed|) + needed + 1 <= old(Capacity())
      ensures depth == old(depth)
      ensures ok ==> Counted(t) && offset < buffer.Length && (terminate ==> buffer[offset] == NUL)
    {
      ok := Ensure(needed);
      if ok {
        Put(offset, t);
        printed := printed + t;
        offset := offset + |t|;
        if terminate {
          buffer[offset] := NUL;
          assert buffer[..offset] == printed;
        }
      }
    }

    /** Reserves `needed` bytes and writes `t` with a terminator, without moving the offset. */
    method AppendPending(needed: nat, t: seq<byte>) returns (ok: bool)
      requires Valid() && |t| < needed
      modifies this, buffer
      ensures Valid() && KeptOrReplaced()
      ensures ok <==> old(|printed|) + needed + 1 <= old(Capacity())
      ensures depth == old(depth)
      ensures ok ==> Pending(t)
    {
      ok := Ensure(needed);
      if ok {
        Put(offset, t);
        ghost var end := offset + |t|;
        ghost var all := buffer[..end];
        buffer[offset + |t|] := NUL;
        assert buffer[..end] == all && all[..offset] == printed;
        assert buffer[..offset] == all[..offset];
      }
    }

    /** `update_offset`: moves the offset to the terminator after `all`. */
    method UpdateOffset(ghost all: seq<byte>)
      requires Valid() && offset <= |all| < buffer.Length
      requires buffer[..|all|] == all && buffer[|all|] == NUL
      requires forall k :: offset <= k < |all| ==> all[k] != NUL
      modifies this`offset, this`printed
      ensures Valid() && printed == all
    {
      assert forall k :: 0 <= k < |all| ==> buffer[k] == all[k];
      while buffer[offset] != NUL
        invariant offset <= |all|
        decreases |all| - offset
      {
        offset := offset + 1;
      }
      printed := all;
    }

    method PrintNumber(x: real) returns (ok: bool)
      requires Valid() && IsInt32(x)
      modifies this, buffer
      ensures Valid() && KeptOrReplaced()
      ensures ok <==> old(|printed|) + |IntText(x.Floor)| + 2 <= old(Capacity())
      ensures ok ==> Pending(IntText(x.Floor))
    {
      var number := IntText(x.Floor);
      IntTextLength(x.Floor);
      if |number| > 25 {
        return false;
      }
      ok := Append(|number| + 1, number, true);
    }

    /** The first pass over a string: the bytes that escaping adds. */
    static method CountEscapes(s: seq<byte>) returns (escapes: nat)
      ensures |Escape(s)| == |s| + escapes
      ensures escapes == 0 ==> Escape(s) == s
    {
      hide Escape, EscapeByte;
      escapes := 0;
      NoEscape(s);
      for i := 0 to |s|
        invariant |Escape(s)| == i + escapes + |Escape(s[i..])|
        invariant escapes == 0 ==> Escape(s) == s[..i] + Escape(s[i..])
      {
        EscapeMore(s, i);
        if ShortEscape(s[i]) != NUL {
          escapes := escapes + 1;
        } else if s[i] < 32 {
          escapes := escapes + 5;
        } else if escapes == 0 {
          assert s[..i] + ([s[i]] + Escape(s[i + 1..])) == s[..i + 1] + Escape(s[i + 1..]);
        }
      }
    }

    method PrintStringPtr(s: seq<byte>) returns (ok: bool)
      requires Valid() && NulFree(s)
      modifies this, buffer
      ensures Valid() && KeptOrReplaced()
      ensures ok <==> old(|printed|) + |Quote(s)| + 2 <= old(Capacity())
      ensures ok ==> Pending(Quote(s))
    {
      hide Escape, Quote;
      QuoteLength(s);
      var escapes := CountEscapes(s);
      var outputLength := |s| + escapes;
      ok := Ensure(outputLength + 3);
      if ok {
        PutQuoted(s, escapes);
        KeepsFront(buffer, printed, Quote(s));
      }
    }

    /** Writes the quoted string; without anything to escape it is copied as it is. */
    method PutQuoted(s: seq<byte>, escapes: nat)
      requires |Escape(s)| == |s| + escapes && (escapes == 0 ==> Escape(s) == s)
      requires offset + |s| + escapes + 3 <= buffer.Length
      modifies buffer
      ensures buffer[..offset + |Quote(s)|] == old(buffer[..offset]) + Quote(s)
      ensures buffer[offset + |Quote(s)|] == NUL
    {
      hide Escape;
      var outputLength := |s| + escapes;
      ghost var before := buffer[..offset];
      Put(offset, [QUOTE]);
      if escapes == 0 {
        Put(offset + 1, s);
      } else {
        CopyEscaped(s, offset + 1);
      }
      Put(offset + outputLength + 1, [QUOTE, NUL]);
      ghost var end := offset + outputLength + 2;
      assert buffer[..end + 1] == before + [QUOTE] + Escape(s) + [QUOTE, NUL];
      assert buffer[..end] == buffer[..end + 1][..end] == before + ([QUOTE] + Escape(s) + [QUOTE]);
    }

    /** The second pass over a string that needs escaping. */
    method CopyEscaped(s: seq<byte>, start: nat)
      requires start + |Escape(s)| + 2 <= buffer.Length
      modifies buffer
      ensures buffer[..start + |Escape(s)|] == old(buffer[..start]) + Escape(s)
    {
      hide Escape, EscapeByte;
      var at := start;
      ghost var written := buffer[..start];
      ghost var all := written + Escape(s);
      NoEscape(s);
      for i := 0 to |s|
        invariant at == |written| && written + Escape(s[i..]) == all
        invariant buffer[..at] == written
      {
        EscapeMore(s, i);
        assert written + Escape(s[i..]) == written + EscapeByte(s[i]) + Escape(s[i + 1..]);
        if s[i] > 31 && s[i] != QUOTE && s[i] != BACKSLASH {
          Put(at, [s[i]]);
          at := at + 1;
        } else {
          var letter := ShortEscape(s[i]);
          if letter != NUL {
            Put(at, [BACKSLASH, letter]);
            at := at + 2;
          } else {
            Put(at, UnitText(s[i]));
            ghost var text := buffer[..at + 6];
            at := at + 6;
            buffer[at] := NUL;
            assert buffer[..at] == text;
          }
        }
        written := written + EscapeByte(s[i]);
      }
      assert written + [] == written;
    }

    method PrintItem(v: Json) returns (ok: bool)
      requires Valid() && Printable(v)
      modifies this, buffer
      ensures Valid() && KeptOrReplaced()
      ensures ok <==> old(|printed|) + |Text(v, format, old(depth))| + 2 <= old(Capacity())
      ensures ok ==> Pending(Text(v, format, old(depth)))
      decreases v, 1
    {
      match v
      case Null => ok := AppendPending(5, NULL_TEXT);
      case False => ok := AppendPending(6, FALSE_TEXT);
      case True => ok := AppendPending(5, TRUE_TEXT);
      case Number(x) => ok := PrintNumber(x);
      case String(s) => ok := PrintStringPtr(s);
      case Array(items) => ok := PrintArray(v);
      case Object(members) => ok := PrintObject(v);
    }

    /** Prints a value and counts it. */
    method PrintItemAndUpdate(v: Json) returns (ok: bool)
      requires Valid() && Printable(v)
      modifies this, buffer
      ensures Valid() && KeptOrReplaced()
      ensures ok <==> old(|printed|) + |Text(v, format, old(depth))| + 2 <= old(Capacity())
      ensures ok ==> Counted(Text(v, format, old(depth)))
      decreases v, 2
    {
      hide Text;
      TextNulFree(v, format, depth);
      ghost var all := printed + Text(v, format, depth);
      ok := PrintItem(v);
      if ok {
        UpdateOffset(all);
      }
    }

    method PrintArray(v: Json) returns (ok: bool)
      requires Valid() && Printable(v) && v.Array?
      modifies this, buffer
      ensures Valid() && KeptOrReplaced()
      ensures ok <==> old(|printed|) + |Text(v, format, old(depth))| + 2 <= old(Capacity())
      ensures ok ==> Pending(Text(v, format, old(depth)))
      decreases v, 0
    {
      hide Text, ItemsText, Printable, Bracket, Holds;
      ghost var before, body := printed, ItemsText(v.items, format, depth + 1);
      var open, close := Bracket(LBRACKET), Bracket(RBRACKET);
      TextOfArray(v, format, depth);
      ok := Append(1, open, false);
      if !ok {
        return;
      }
      depth := depth + 1;
      ok := PrintItems(v.items);
      if !ok {
        return;
      }
      ok := AppendPending(2, close);
      if ok {
        HoldsAll(before, open, body, close);
      }
      depth := depth - 1;
    }

    /** The loop over array elements. It may stop short only if the closing bracket would not fit either. */
    method PrintItems(items: seq<Json>) returns (ok: bool)
      requires Valid() && forall i :: 0 <= i < |items| ==> Printable(items[i])
      modifies this, buffer
      ensures Valid() && KeptOrReplaced()
      ensures var t := ItemsText(items, format, old(depth));
              && (old(|printed|) + |t| + 3 <= old(Capacity()) ==> ok)
              && (ok ==> Counted(t))
      decreases items, 0
    {
      hide Text, ItemsText, Printable;
      ghost var all := printed + ItemsText(items, format, depth);
      var i := 0;
      assert items[0..] == items;
      while i < |items|
        invariant 0 <= i <= |items|
        invariant Valid() && KeptOrReplaced() && depth == old(depth) && Capacity() == old(Capacity())
        invariant all == printed + ItemsText(items[i..], format, depth)
      {
        ItemsUnfold(items, i, format, depth, printed);
        ok := PrintItemAndUpdate(items[i]);
        if !ok {
          return;
        }
        if i + 1 < |items| {
          ok := Append(if format then 3 else 2, if format then [COMMA, SPACE] else [COMMA], true);
          if !ok {
            return;
          }
        }
        i := i + 1;
      }
      assert items[i..] == [];
      NoItems(format, depth, printed);
      return true;
    }

    method PrintObject(v: Json) returns (ok: bool)
      requires Valid() && Printable(v) && v.Object?
      modifies this, buffer
      ensures Valid() && KeptOrReplaced()
      ensures ok <==> old(|printed|) + |Text(v, format, old(depth))| + 2 <= old(Capacity())
      ensures ok ==> Pending(Text(v, format, old(depth)))
      decreases v, 0
    {
      hide Text, MembersText, Tabs, Printable, Closing, Opening, Holds;
      ghost var before, body := printed, MembersText(v.members, format, depth + 1);
      var open := Opening();
      TextOfObject(v, depth);
      ok := Append(|open| + 1, open, false);
      if !ok {
        return;
      }
      depth := depth + 1;
      ok := PrintMembers(v.members);
      if !ok {
        return;
      }
      var close := Closing(depth);
      ok := AppendPending(if format then depth + 1 else 2, close);
      if ok {
        HoldsAll(before, open, body, close);
      }
      depth := depth - 1;
    }

    lemma TextOfObject(v: Json, d: nat)
      requires v.Object? && Printable(v)
      ensures Text(v, format, d) == Opening() + MembersText(v.members, format, d + 1) + Closing(d + 1)
      ensures |Opening()| == if format then 2 else 1
      ensures |Closing(d + 1)| == if format then d + 1 else 1
      ensures forall i :: 0 <= i < |v.members| ==> NulFree(v.members[i].key) && Printable(v.members[i].value)
    {
      hide MembersText;
      if !format {
        var body := MembersText(v.members, format, d + 1);
        assert body + [] + [RBRACE] == body + ([] + [RBRACE]);
      }
    }

    function Opening(): seq<byte> { if format then [LBRACE, NEWLINE] else [LBRACE] }

    function Closing(d: nat): seq<byte>
      requires d > 0
    {
      (if format then Tabs(d - 1) else []) + [RBRACE]
    }

    /** The loop over object members. It may stop short only if a closing brace would not fit either. */
    method PrintMembers(members: seq<Member>) returns (ok: bool)
      requires Valid() && forall i :: 0 <= i < |members| ==> NulFree(members[i].key) && Printable(members[i].value)
      modifies this, buffer
      ensures Valid() && KeptOrReplaced()
      ensures var t := MembersText(members, format, old(depth));
              && (old(|printed|) + |t| + 3 <= old(Capacity()) ==> ok)
              && (ok ==> Counted(t))
      decreases members, 0
    {
      hide MembersText, MemberText, Printable;
      ghost var all := printed + MembersText(members, format, depth);
      var i := 0;
      assert members[0..] == members;
      while i < |members|
        invariant 0 <= i <= |members|
        invariant Valid() && KeptOrReplaced() && depth == old(depth) && Capacity() == old(Capacity())
        invariant all == printed + MembersText(members[i..], format, depth)
      {
        MembersUnfold(members, i, format, depth, printed);
        ok := PrintMember(members[i], i + 1 < |members|);
        if !ok {
          return;
        }
        i := i + 1;
      }
      assert members[i..] == [];
      NoMembers(format, depth, printed);
      return true;
    }

    /** One turn of the loop over members: tabs, name, colon, value, and what ends the line. */
    method PrintMember(m: Member, more: bool) returns (ok: bool)
      requires Valid() && NulFree(m.key) && Printable(m.value)
      modifies this, buffer
      ensures Valid() && KeptOrReplaced()
      ensures var t := MemberText(m, more, format, old(depth));
              && (old(|printed|) + |t| + 3 <= old(Capacity()) ==> ok)
              && (ok ==> Counted(t))
      decreases m, 3
    {
      hide Text, MemberStart;
      ghost var before, start, value := printed, MemberStart(m.key, format, depth), Text(m.value, format, depth);
      TextNulFree(m.value, format, depth);
      ok := PrintKey(m.key);
      if !ok {
        return;
      }
      ok := PrintItemAndUpdate(m.value);
      if !ok {
        return;
      }
      var end := (if more then [COMMA] else []) + (if format then [NEWLINE] else []);
      ok := Append(|end| + 1, end, true);
      assert before + start + value + end == before + (start + value + end);
    }

    method PrintKey(key: seq<byte>) returns (ok: bool)
      requires Valid() && NulFree(key)
      modifies this, buffer
      ensures Valid() && KeptOrReplaced()
      ensures var t := MemberStart(key, format, old(depth));
              && (old(|printed|) + |t| + 3 <= old(Capacity()) ==> ok)
              && (ok ==> Counted(t))
    {
      hide Quote, Tabs;
      ghost var before := printed;
      var tabs: seq<byte> := [];
      if format {
        tabs := Tabs(depth);
        ok := Append(depth, tabs, false);
        if !ok {
          return;
        }
      }
      assert printed == before + tabs;
      ghost var all := printed + Quote(key);
      ok := PrintStringPtr(key);
      if !ok {
        return;
      }
      UpdateOffset(all);
      var colon := if format then [COLON, TAB] else [COLON];
      ok := Append(|colon|, colon, false);
      assert before + tabs + Quote(key) + colon == before + (tabs + Quote(key) + colon);
    }
  }

  ghost function MemberText(m: Member, more: bool, format: bool, d: nat): seq<byte> {
    MemberStart(m.key, format, d) + Text(m.value, format, d) + MemberEnd(more, format)
  }

  // ----- the text still to be printed -----

  lemma QuoteLength(s: seq<byte>)
    ensures |Quote(s)| == |Escape(s)| + 2
  {
  }

  /** A buffer that starts with `front` and more starts with `front`. */
  lemma KeepsFront(buffer: array<byte>, front: seq<byte>, more: seq<byte>)
    requires |front| + |more| <= buffer.Length && buffer[..|front| + |more|] == front + more
    ensures buffer[..|front|] == front
  {
    assert buffer[..|front|] == buffer[..|front| + |more|][..|front|];
  }

  lemma NoEscape(s: seq<byte>)
    ensures s[0..] == s && s[|s|..] == [] && s[..0] == [] && Escape([]) == []
    ensures [] + Escape(s) == Escape(s)
  {
  }

  lemma EscapeMore(s: seq<byte>, i: nat)
    requires i < |s|
    ensures Escape(s[i..]) == EscapeByte(s[i]) + Escape(s[i + 1..])
    ensures EscapeByte(s[i]) ==
            if IsPlain(s[i]) then [s[i]]
            else if ShortEscape(s[i]) != NUL then [BACKSLASH, ShortEscape(s[i])]
            else UnitText(s[i])
  {
    assert s[i..][1..] == s[i + 1..];
  }

  function Bracket(b: byte): (t: seq<byte>)
    ensures |t| == 1
  {
    [b]
  }

  lemma TextOfArray(v: Json, format: bool, d: nat)
    requires v.Array? && Printable(v)
    ensures Text(v, format, d) == Bracket(LBRACKET) + ItemsText(v.items, format, d + 1) + Bracket(RBRACKET)
    ensures forall i :: 0 <= i < |v.items| ==> Printable(v.items[i])
  {
  }

  lemma ItemsUnfold(items: seq<Json>, i: nat, format: bool, d: nat, done: seq<byte>)
    requires i < |items|
    ensures
      var first, sep := Text(items[i], format, d), ItemEnd(i + 1 < |items|, format);
      var rest := ItemsText(items[i + 1..], format, d);
      && done + ItemsText(items[i..], format, d) == done + first + sep + rest
      && (i + 1 == |items| ==> done + ItemsText(items[i..], format, d) == done + first + rest)
      && (i + 1 < |items| ==> |rest| > 0)
  {
    hide Text;
    assert items[i..][1..] == items[i + 1..];
    if i + 1 < |items| {
      TextNulFree(items[i + 1], format, d);
    }
  }

  lemma NoItems(format: bool, d: nat, done: seq<byte>)
    ensures done + ItemsText([], format, d) == done
  {
  }

  lemma MembersUnfold(members: seq<Member>, i: nat, format: bool, d: nat, done: seq<byte>)
    requires i < |members|
    ensures done + MembersText(members[i..], format, d) ==
            done + MemberText(members[i], i + 1 < |members|, format, d) + MembersText(members[i + 1..], format, d)
  {
    hide Text, MemberStart, MemberEnd;
    assert members[i..][1..] == members[i + 1..];
  }

  lemma NoMembers(format: bool, d: nat, done: seq<byte>)
    ensures done + MembersText([], format, d) == done
  {
  }

  // ----- entry points -----

  /** `cJSON_Print` and `cJSON_PrintUnformatted`, with the default buffer of 256 bytes. */
  method Print(v: Json, format: bool, manual: bool) returns (printed: array?<byte>)
    requires Printable(v)
    ensures printed != null <==> |Text(v, format, 0)| + 2 <= INT_MAX
    ensures printed != null ==> fresh(printed) && printed[..] == Text(v, format, 0) + [NUL]
  {
    hide Text, Printable;
    var initial := new byte[256];
    var p := new PrintBuffer(initial, false, format, manual);
    var ok := p.PrintItemAndUpdate(v);
    if !ok {
      return null;
    }
    printed := new byte[p.offset + 1];
    forall k | 0 <= k < p.offset {
      printed[k] := p.buffer[k];
    }
    printed[p.offset] := NUL;
    assert printed[..p.offset] == p.buffer[..p.offset] == Text(v, format, 0);
    assert printed[..] == printed[..p.offset] + [NUL];
  }

  /** `cJSON_PrintBuffered`: a negative guess at the size gives nothing. */
  method PrintBuffered(v: Json, prebuffer: int, format: bool, manual: bool) returns (printed: array?<byte>)
    requires Printable(v) && prebuffer <= INT_MAX && (manual ==> prebuffer != 0)
    ensures printed != null <==> prebuffer >= 0 && |Text(v, format, 0)| + 2 <= INT_MAX
    ensures printed != null ==>
              && fresh(printed)
              && |Text(v, format, 0)| < printed.Length
              && printed[..|Text(v, format, 0)| + 1] == Text(v, format, 0) + [NUL]
  {
    hide Text, Printable;
    if prebuffer < 0 {
      return null;
    }
    var initial := new byte[prebuffer];
    var p := new PrintBuffer(initial, false, format, manual);
    var ok := p.PrintItem(v);
    if !ok {
      return null;
    }
    printed := p.buffer;
    ghost var n := |Text(v, format, 0)|;
    assert printed[..n + 1] == printed[..n] + [printed[n]];
  }

  /**
   `cJSON_PrintPreallocated`: it succeeds exactly when the buffer has two bytes more than the text (the header
   asks callers for five), and then the buffer holds the same text as every other way of printing.
   */
  method PrintPreallocated(v: Json, buffer: array<byte>, format: bool) returns (ok: bool)
    requires Printable(v) && buffer.Length <= INT_MAX
    modifies buffer
    ensures ok <==> |Text(v, format, 0)| + 2 <= buffer.Length
    ensures ok ==> buffer[..|Text(v, format, 0)| + 1] == Text(v, format, 0) + [NUL]
  {
    hide Text, Printable;
    var p := new PrintBuffer(buffer, true, format, false);
    ok := p.PrintItem(v);
    if ok {
      ghost var n := |Text(v, format, 0)|;
      assert buffer[..n + 1] == buffer[..n] + [buffer[n]];
    }
  }
}
