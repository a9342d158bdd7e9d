/** How a printed tree is laid out. */
module JsonLayout {
  import opened Bytes
  import opened JsonGrammar
  import opened JsonLanguage
  import opened JsonStrings
  import opened JsonText
  import opened Utf

  // ----- unformatted -----

  ghost predicate HasNoNumber(v: Json) {
    match v
    case Number(_) => false
    case Array(items) => forall i :: 0 <= i < |items| ==> HasNoNumber(items[i])
    case Object(members) => forall i :: 0 <= i < |members| ==> HasNoNumber(members[i].value)
    case _ => true
  }

  ghost predicate NoControl(c: seq<byte>, o: nat, n: nat) {
    o <= n <= |c| && forall k :: o <= k < n ==> c[k] >= 32
  }

  lemma StringCost(c: seq<byte>, o: nat, n: nat, s: seq<byte>)
    requires IsCText(c) && o < |c| && ParseString(c, o) == Parsed(s, n) && NoControl(c, o, n)
    ensures o < n && |Quote(s)| <= n - o
  {
    hide ScanString, UnescapeFrom, CString;
    ReadingCost(c, o + 1, ScanString(c, o + 1).at);
  }

  /** What is spelled takes at least the room of the unformatted text. */
  lemma {:induction false} SpelledCosts(c: seq<byte>, o: nat, n: nat, v: Json, d: nat)
    requires IsCText(c) && Derives(c, o, n, v) && HasNoNumber(v) && NoControl(c, o, n)
    ensures |Text(v, false, d)| <= n - o
    decreases v, 1
  {
    hide DeriveItems, DeriveMembers, ParseString, ItemsText, MembersText, Quote;
    match v
    case String(s) => StringCost(c, o, n, s);
    case Array(items) =>
      if items != [] {
        ItemsCost(c, o + 1, n - 1, items, d + 1);
      } else {
        assert ItemsText([], false, d + 1) == [] by { NothingToPrint(d + 1); }
      }
    case Object(members) =>
      if members != [] {
        MembersCost(c, o + 1, n - 1, members, d + 1);
      } else {
        assert MembersText([], false, d + 1) == [] by { NothingToPrint(d + 1); }
      }
    case _ =>
  }

  lemma NothingToPrint(d: nat)
    ensures ItemsText([], false, d) == [] && MembersText([], false, d) == []
  {
  }

  lemma {:induction false} PaddedCosts(c: seq<byte>, o: nat, m: nat, v: Json, d: nat)
    requires IsCText(c) && Padded(c, o, m, v) && HasNoNumber(v) && NoControl(c, o, m)
    ensures o <= m && |Text(v, false, d)| <= m - o
    decreases v, 2
  {
    hide Derives, Text;
    var a: nat, b: nat :| White(c, o, a) && Derives(c, a, b, v) && White(c, b, m);
    DerivedInside(c, a, b, v);
    SpelledCosts(c, a, b, v, d);
  }

  lemma {:induction false} ItemsCost(c: seq<byte>, o: nat, n: nat, items: seq<Json>, d: nat)
    requires IsCText(c) && items != [] && DeriveItems(c, o, n, items) && NoControl(c, o, n)
    requires forall i :: 0 <= i < |items| ==> HasNoNumber(items[i])
    ensures o <= n && |ItemsText(items, false, d)| <= n - o
    decreases items, 0
  {
    hide Padded, DeriveItems, Text, HasNoNumber, ItemsText, NoControl, Terminated;
    var m := FirstPadded(c, o, n, items);
    ItemsTextLength(items, d);
    if |items| == 1 {
      PaddedCosts(c, o, m, items[0], d);
    } else {
      NoControlPart(c, o, n, o, m);
      NoControlPart(c, o, n, m + 1, n);
      PaddedCosts(c, o, m, items[0], d);
      ItemsCost(c, m + 1, n, items[1..], d);
    }
  }

  lemma FirstPadded(c: seq<byte>, o: nat, n: nat, items: seq<Json>) returns (m: nat)
    requires IsCText(c) && items != [] && DeriveItems(c, o, n, items)
    ensures Padded(c, o, m, items[0]) && o <= m <= n
    ensures |items| == 1 ==> m == n
    ensures |items| > 1 ==> m < n && DeriveItems(c, m + 1, n, items[1..])
  {
    hide Padded;
    m :|
      && Padded(c, o, m, items[0])
      && if |items| == 1 then m == n else m < n && m < |c| && c[m] == 0x2C && DeriveItems(c, m + 1, n, items[1..]);
    var _, _ := PaddedParts(c, o, m, items[0]);
  }

  lemma ItemsTextLength(items: seq<Json>, d: nat)
    requires items != []
    ensures |ItemsText(items, false, d)| ==
            |Text(items[0], false, d)| + if |items| > 1 then 1 + |ItemsText(items[1..], false, d)| else 0
  {
    hide Text;
  }

  lemma NoControlPart(c: seq<byte>, o: nat, n: nat, a: nat, b: nat)
    requires NoControl(c, o, n) && o <= a <= b <= n
    ensures NoControl(c, a, b) && n <= |c|
  {
  }

  lemma {:induction false} MembersCost(c: seq<byte>, o: nat, n: nat, members: seq<Member>, d: nat)
    requires IsCText(c) && members != [] && DeriveMembers(c, o, n, members) && NoControl(c, o, n)
    requires forall i :: 0 <= i < |members| ==> HasNoNumber(members[i].value)
    ensures o <= n && |MembersText(members, false, d)| <= n - o
    decreases members, 0
  {
    hide DeriveMember, Text, HasNoNumber, Quote;
    var m: nat :|
      && DeriveMember(c, o, m, members[0])
      && if |members| == 1 then m == n
         else m < n && m < |c| && c[m] == 0x2C && DeriveMembers(c, m + 1, n, members[1..]);
    MemberInside(c, o, m, members[0]);
    MemberCosts(c, o, m, members[0], d);
    if |members| > 1 {
      MembersCost(c, m + 1, n, members[1..], d);
    }
  }

  lemma {:induction false} MemberCosts(c: seq<byte>, o: nat, m: nat, member: Member, d: nat)
    requires IsCText(c) && DeriveMember(c, o, m, member) && HasNoNumber(member.value) && NoControl(c, o, m)
    ensures |Quote(member.key)| + 1 + |Text(member.value, false, d)| <= m - o
    decreases member, 3
  {
    hide Derives, DeriveMember, ParseString, Quote, Text, HasNoNumber, NoControl;
    var k, l, q, a, b := MemberParts(c, o, m, member);
    NoControlPart(c, o, m, k, l);
    NoControlPart(c, o, m, a, b);
    StringCost(c, k, l, member.key);
    SpelledCosts(c, a, b, member.value, d);
  }

  /** For a tree without numbers, no accepted text without control bytes is shorter than the unformatted one. */
  lemma UnformattedIsShortest(text: seq<byte>, v: Json)
    requires NulFree(text) && HasNoNumber(v) && forall k :: 0 <= k < |text| ==> text[k] >= 32
    requires ParseText(text, true) == Parsed(v, |text|)
    ensures |Text(v, false, 0)| <= |text|
  {
    hide Derives, ParseText, White, Text, HasNoNumber;
    ParserAcceptsGrammar(text, true, v, |text|);
    var c := text + [NUL];
    var m: nat :| Accepts(text, v, m) && White(text, m, |text|);
    var o: nat :| White(c, MarkLength(text), o) && Derives(c, o, m, v);
    MarkIsBom(text);
    DerivedInside(c, o, m, v);
    SpelledCosts(c, o, m, v, 0);
  }

  // ----- the layout, formatted or not -----

  /** The parts with the separator between each two. */
  function Joined(parts: seq<seq<byte>>, separator: seq<byte>): seq<byte> {
    if parts == [] then []
    else if |parts| == 1 then parts[0]
    else parts[0] + separator + Joined(parts[1..], separator)
  }

  function TabStops(n: nat): seq<byte> { seq(n, _ => 0x09) }

  lemma {:induction false} TabsAre(n: nat)
    ensures Tabs(n) == TabStops(n)
  {
    if n > 0 {
      TabsAre(n - 1);
      assert TabStops(n) == [0x09] + TabStops(n - 1);
    }
  }

  /** The three words. */
  lemma WordsLayout(format: bool, d: nat)
    ensures Text(Null, format, d) == [0x6E, 0x75, 0x6C, 0x6C]
    ensures Text(True, format, d) == [0x74, 0x72, 0x75, 0x65]
    ensures Text(False, format, d) == [0x66, 0x61, 0x6C, 0x73, 0x65]
  {
  }

  ghost function ItemTexts(items: seq<Json>, format: bool, d: nat): seq<seq<byte>> {
    seq(|items|, i requires 0 <= i < |items| => Text(items[i], format, d))
  }

  /** Array elements stand between brackets on one line, with a comma between each two, and a space if formatted. */
  lemma ArrayLayout(items: seq<Json>, format: bool, d: nat)
    ensures Text(Array(items), format, d) ==
            [0x5B] + Joined(ItemTexts(items, format, d + 1), if format then [0x2C, 0x20] else [0x2C]) + [0x5D]
  {
    hide ItemsText, Joined;
    ItemsLayout(items, format, d + 1);
  }

  lemma {:induction false} ItemsLayout(items: seq<Json>, format: bool, d: nat)
    ensures ItemsText(items, format, d) ==
            Joined(ItemTexts(items, format, d), if format then [0x2C, 0x20] else [0x2C])
  {
    hide Text;
    if items != [] {
      ItemsLayout(items[1..], format, d);
      assert ItemTexts(items, format, d)[1..] == ItemTexts(items[1..], format, d);
    }
  }

  /** One line of an object: the tabs of its depth, the name, a colon and a tab, and the value; or without the tabs. */
  ghost function MemberLine(m: Member, format: bool, d: nat): seq<byte> {
    if format then TabStops(d) + Quote(m.key) + [0x3A, 0x09] + Text(m.value, true, d)
    else Quote(m.key) + [0x3A] + Text(m.value, false, d)
  }

  ghost function MemberLines(members: seq<Member>, format: bool, d: nat): seq<seq<byte>> {
    seq(|members|, i requires 0 <= i < |members| => MemberLine(members[i], format, d))
  }

  /**
   Object members stand between braces with a comma between each two; formatted, each has a line of its own one tab
   deeper than the object, and the closing brace has a line at the object's depth.
   */
  lemma ObjectLayout(members: seq<Member>, d: nat)
    ensures Text(Object(members), false, d) ==
            [0x7B] + Joined(MemberLines(members, false, d + 1), [0x2C]) + [0x7D]
    ensures Text(Object(members), true, d) ==
            [0x7B, 0x0A] + Joined(MemberLines(members, true, d + 1), [0x2C, 0x0A])
            + (if members == [] then [] else [0x0A]) + TabStops(d) + [0x7D]
  {
    hide MembersText, Joined, Tabs;
    MembersLayout(members, d + 1);
    TabsAre(d);
    assert [0x7B] + MembersText(members, false, d + 1) + [] + [0x7D] ==
           [0x7B] + MembersText(members, false, d + 1) + [0x7D];
    var lines, end := Joined(MemberLines(members, true, d + 1), [0x2C, 0x0A]), if members == [] then [] else [0x0A];
    assert [0x7B, 0x0A] + (lines + end) + TabStops(d) + [0x7D] == [0x7B, 0x0A] + lines + end + TabStops(d) + [0x7D];
  }

  lemma {:induction false} MembersLayout(members: seq<Member>, d: nat)
    ensures MembersText(members, false, d) == Joined(MemberLines(members, false, d), [0x2C])
    ensures MembersText(members, true, d) ==
            Joined(MemberLines(members, true, d), [0x2C, 0x0A]) + if members == [] then [] else [0x0A]
  {
    hide Text, Quote, Tabs, TabStops;
    if members != [] {
      MembersLayout(members[1..], d);
      LineIs(members[0], d);
      MoreLines(members, true, d);
      MoreLines(members, false, d);
      MembersTextUnfolds(members, true, d);
      MembersTextUnfolds(members, false, d);
      var line := MemberLine(members[0], true, d);
      if |members| > 1 {
        var rest := Joined(MemberLines(members[1..], true, d), [0x2C, 0x0A]);
        assert line + [0x2C, 0x0A] + (rest + [0x0A]) == line + [0x2C, 0x0A] + rest + [0x0A];
      } else {
        assert line + [0x0A] + [] == line + [0x0A];
      }
    }
  }

  lemma LineIs(m: Member, d: nat)
    ensures MemberStart(m.key, true, d) + Text(m.value, true, d) == MemberLine(m, true, d)
    ensures MemberStart(m.key, false, d) + Text(m.value, false, d) == MemberLine(m, false, d)
  {
    hide Text, Quote;
    TabsAre(d);
    assert [] + Quote(m.key) + [0x3A] == Quote(m.key) + [0x3A];
  }

  lemma MoreLines(members: seq<Member>, format: bool, d: nat)
    requires members != []
    ensures MemberLines(members, format, d)[0] == MemberLine(members[0], format, d)
    ensures MemberLines(members, format, d)[1..] == MemberLines(members[1..], format, d)
  {
    hide MemberLine;
  }

  lemma MembersTextUnfolds(members: seq<Member>, format: bool, d: nat)
    requires members != []
    ensures
      var rest := MembersText(members[1..], format, d);
      MembersText(members, format, d) ==
      MemberStart(members[0].key, format, d) + Text(members[0].value, format, d)
      + (if |members| > 1 then (if format then [0x2C, 0x0A] else [0x2C]) else (if format then [0x0A] else [])) + rest
  {
    hide Text, Quote, Tabs;
  }
}
