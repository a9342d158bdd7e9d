/** The language that the parser accepts, as a grammar over stretches of the text, and what its numbers mean. */
module JsonLanguage {
  import opened Bytes
  import opened JsonGrammar
  import opened JsonRoundTrip
  import opened JsonText
  import opened Utf

  // ----- the grammar -----

  /** A C string with its terminator. */
  ghost predicate IsCText(c: seq<byte>) { Terminated(c) && forall k :: 0 <= k < |c| - 1 ==> c[k] != NUL }

  /** The bytes from `o` to `n` are white space: anything up to 32. */
  ghost predicate White(c: seq<byte>, o: nat, n: nat) {
    o <= n <= |c| && forall k :: o <= k < n ==> 0 < c[k] <= 32
  }

  /** The bytes from `o` to `n` are the word. */
  ghost predicate Word(c: seq<byte>, o: nat, n: nat, word: seq<byte>) { o <= n <= |c| && c[o..n] == word }

  /** The bytes from `o` to `n` spell the value. */
  ghost predicate Derives(c: seq<byte>, o: nat, n: nat, v: Json)
    requires Terminated(c)
    decreases v, 1
  {
    o < n < |c| &&
    match v
    case Null => Word(c, o, n, [0x6E, 0x75, 0x6C, 0x6C])
    case True => Word(c, o, n, [0x74, 0x72, 0x75, 0x65])
    case False => Word(c, o, n, [0x66, 0x61, 0x6C, 0x73, 0x65])
    case Number(x) => (c[o] == 0x2D || 0x30 <= c[o] <= 0x39) && ParseNumber(c, o) == Parsed(x, n)
    case String(s) => c[o] == 0x22 && ParseString(c, o) == Parsed(s, n)
    case Array(items) =>
      c[o] == 0x5B && c[n - 1] == 0x5D && o + 1 < n &&
      if items == [] then White(c, o + 1, n - 1) else DeriveItems(c, o + 1, n - 1, items)
    case Object(members) =>
      c[o] == 0x7B && c[n - 1] == 0x7D && o + 1 < n &&
      if members == [] then White(c, o + 1, n - 1) else DeriveMembers(c, o + 1, n - 1, members)
  }

  /** The value with white space around it. */
  ghost predicate Padded(c: seq<byte>, o: nat, m: nat, v: Json)
    requires Terminated(c)
    decreases v, 2
  {
    exists a: nat, b: nat :: White(c, o, a) && Derives(c, a, b, v) && White(c, b, m)
  }

  /** Values with white space around them and commas between them. */
  ghost predicate DeriveItems(c: seq<byte>, o: nat, n: nat, items: seq<Json>)
    requires Terminated(c) && items != []
    decreases items, 0
  {
    exists m: nat ::
      && Padded(c, o, m, items[0])
      && if |items| == 1 then m == n else m < n && m < |c| && c[m] == 0x2C && DeriveItems(c, m + 1, n, items[1..])
  }

  /** A name with white space around it, up to the colon at `q`. */
  ghost predicate NameAndColon(c: seq<byte>, o: nat, q: nat, key: seq<byte>)
    requires Terminated(c)
  {
    && q < |c| && c[q] == 0x3A
    && exists k: nat, l: nat ::
         && White(c, o, k) && k < |c| && c[k] == 0x22 && ParseString(c, k) == Parsed(key, l) && White(c, l, q)
  }

  ghost predicate DeriveMember(c: seq<byte>, o: nat, m: nat, member: Member)
    requires Terminated(c)
    decreases member, 3
  {
    exists q: nat :: NameAndColon(c, o, q, member.key) && Padded(c, q + 1, m, member.value)
  }

  /** Names and values with commas between them. */
  ghost predicate DeriveMembers(c: seq<byte>, o: nat, n: nat, members: seq<Member>)
    requires Terminated(c) && members != []
    decreases members, 0
  {
    exists m: nat ::
      && DeriveMember(c, o, m, members[0])
      && if |members| == 1 then m == n else m < n && m < |c| && c[m] == 0x2C && DeriveMembers(c, m + 1, n, members[1..])
  }

  // ----- white space -----

  lemma {:induction false} EndIsWhite(c: seq<byte>, o: nat)
    requires IsCText(c) && o < |c|
    ensures WhitespaceEnd(c, o) == |c| || c[WhitespaceEnd(c, o)] > 32
    ensures White(c, o, if WhitespaceEnd(c, o) == |c| then |c| - 1 else WhitespaceEnd(c, o))
    decreases |c| - o
  {
    if c[o] <= 32 && o + 1 < |c| {
      EndIsWhite(c, o + 1);
    }
  }

  lemma SkipIsWhite(c: seq<byte>, o: nat)
    requires IsCText(c) && o < |c|
    ensures White(c, o, Skip(c, o)) && (c[Skip(c, o)] > 32 || Skip(c, o) == |c| - 1)
  {
    EndIsWhite(c, o);
  }

  lemma SkipsTo(c: seq<byte>, o: nat, s: nat)
    requires IsCText(c) && White(c, o, s) && s < |c| && c[s] > 32
    ensures Skip(c, o) == s
  {
    SkipWhite(c, o, s - o);
  }

  lemma SkipStays(c: seq<byte>, s: nat)
    requires IsCText(c) && s < |c| && c[s] > 32
    ensures Skip(c, s) == s
  {
    SkipsTo(c, s, s);
  }

  // ----- what is spelled is parsed -----

  lemma DerivedStart(c: seq<byte>, o: nat, n: nat, v: Json)
    requires Terminated(c) && Derives(c, o, n, v)
    ensures c[o] > 32 && c[o] != 0x5D && c[o] != 0x7D
    ensures (c[o] == 0x22 <==> v.String?) && (c[o] == 0x5B <==> v.Array?) && (c[o] == 0x7B <==> v.Object?)
    ensures (c[o] == 0x2D || 0x30 <= c[o] <= 0x39) <==> v.Number?
    ensures Starts(c, o, NULL_TEXT) <==> v.Null?
    ensures Starts(c, o, FALSE_TEXT) <==> v.False?
    ensures Starts(c, o, TRUE_TEXT) <==> v.True?
  {
    hide DeriveItems, DeriveMembers, ParseString, ParseNumber;
    NotWords(c, o);
    match v
    case Null => assert c[o] == c[o..n][0];
    case True => assert c[o] == c[o..n][0];
    case False => assert c[o] == c[o..n][0];
    case _ =>
  }

  lemma {:induction false} SpelledIsParsed(c: seq<byte>, o: nat, n: nat, v: Json, depth: nat)
    requires IsCText(c) && Derives(c, o, n, v) && depth <= NESTING_LIMIT
    ensures ParseValue(c, o, depth) == if depth + Nesting(v) <= NESTING_LIMIT then Parsed(v, n) else Failed
    decreases v, 1
  {
    hide ParseString, ParseNumber, DeriveItems, DeriveMembers, ParseArray, ParseObject, White, Starts;
    DerivedStart(c, o, n, v);
    match v
    case Array(items) => SpelledArrayIsParsed(c, o, n, items, depth);
    case Object(members) => SpelledObjectIsParsed(c, o, n, members, depth);
    case _ =>
  }

  lemma {:induction false} SpelledArrayIsParsed(c: seq<byte>, o: nat, n: nat, items: seq<Json>, depth: nat)
    requires IsCText(c) && o + 1 < n < |c| && c[o] == 0x5B && c[n - 1] == 0x5D && depth <= NESTING_LIMIT
    requires if items == [] then White(c, o + 1, n - 1) else DeriveItems(c, o + 1, n - 1, items)
    ensures ParseArray(c, o, depth) ==
            if depth + 1 + ItemsNesting(items) <= NESTING_LIMIT then Parsed(items, n) else Failed
    decreases items, 1
  {
    hide DeriveItems, ParseItems, Skip, Nesting;
    if items == [] {
      SkipsTo(c, o + 1, n - 1);
    } else if depth < NESTING_LIMIT {
      ItemsStart(c, o + 1, n - 1, items);
      SkipStays(c, Skip(c, o + 1));
      SpelledItemsAreParsed(c, o + 1, Skip(c, o + 1), n - 1, items, depth + 1);
    }
  }

  lemma {:induction false} SpelledObjectIsParsed(c: seq<byte>, o: nat, n: nat, members: seq<Member>, depth: nat)
    requires IsCText(c) && o + 1 < n < |c| && c[o] == 0x7B && c[n - 1] == 0x7D && depth <= NESTING_LIMIT
    requires if members == [] then White(c, o + 1, n - 1) else DeriveMembers(c, o + 1, n - 1, members)
    ensures ParseObject(c, o, depth) ==
            if depth + 1 + MembersNesting(members) <= NESTING_LIMIT then Parsed(members, n) else Failed
    decreases members, 1
  {
    hide DeriveMembers, ParseMembers, Skip, Nesting;
    if members == [] {
      SkipsTo(c, o + 1, n - 1);
    } else if depth < NESTING_LIMIT {
      MembersStartAt(c, o + 1, n - 1, members);
      SkipStays(c, Skip(c, o + 1));
      SpelledMembersAreParsed(c, o + 1, Skip(c, o + 1), n - 1, members, depth + 1);
    }
  }

  lemma DerivedInside(c: seq<byte>, a: nat, b: nat, v: Json)
    requires Terminated(c) && Derives(c, a, b, v)
    ensures a < b < |c|
  {
    hide DeriveItems, DeriveMembers;
  }

  /** Where a padded value starts and ends, as skipping finds it. */
  lemma PaddedParts(c: seq<byte>, o: nat, m: nat, v: Json) returns (a: nat, b: nat)
    requires IsCText(c) && Padded(c, o, m, v)
    ensures o < |c| && Skip(c, o) == a < b < |c| && Derives(c, a, b, v) && o < b <= m <= |c|
    ensures m < |c| && c[m] > 32 ==> Skip(c, b) == m
  {
    hide Derives, Skip;
    a, b :| White(c, o, a) && Derives(c, a, b, v) && White(c, b, m);
    DerivedInside(c, a, b, v);
    DerivedStart(c, a, b, v);
    SkipsTo(c, o, a);
    if m < |c| && c[m] > 32 {
      SkipsTo(c, b, m);
    }
  }

  lemma {:induction false} ItemsEnd(c: seq<byte>, o: nat, n: nat, items: seq<Json>)
    requires IsCText(c) && items != [] && DeriveItems(c, o, n, items)
    ensures o < n <= |c|
    decreases |items|
  {
    hide Padded;
    var m: nat :|
      && Padded(c, o, m, items[0])
      && if |items| == 1 then m == n else m < n && m < |c| && c[m] == 0x2C && DeriveItems(c, m + 1, n, items[1..]);
    var _, _ := PaddedParts(c, o, m, items[0]);
    if |items| > 1 {
      ItemsEnd(c, m + 1, n, items[1..]);
    }
  }

  /** Where the first element starts and ends and what follows it, as skipping finds them. */
  lemma ItemParts(c: seq<byte>, w: nat, n: nat, items: seq<Json>) returns (a: nat, b: nat, m: nat)
    requires IsCText(c) && items != [] && DeriveItems(c, w, n, items) && n < |c| && c[n] == 0x5D
    ensures w < |c| && Skip(c, w) == a < b < |c| && Derives(c, a, b, items[0]) && Skip(c, b) == m
    ensures if |items| == 1 then m == n
            else m + 1 < |c| && c[m] == 0x2C && DeriveItems(c, m + 1, n, items[1..])
  {
    hide Padded, Derives, Skip;
    m :|
      && Padded(c, w, m, items[0])
      && if |items| == 1 then m == n else m < n && m < |c| && c[m] == 0x2C && DeriveItems(c, m + 1, n, items[1..]);
    a, b := PaddedParts(c, w, m, items[0]);
    if |items| > 1 {
      ItemsEnd(c, m + 1, n, items[1..]);
    }
  }

  lemma ItemsStart(c: seq<byte>, o: nat, n: nat, items: seq<Json>)
    requires IsCText(c) && items != [] && DeriveItems(c, o, n, items) && n < |c| && c[n] == 0x5D
    ensures o < |c| && c[Skip(c, o)] > 32 && c[Skip(c, o)] != 0x5D
  {
    hide Derives, DeriveItems, Skip;
    var a, b, _ := ItemParts(c, o, n, items);
    DerivedStart(c, a, b, items[0]);
  }

  lemma {:induction false} SpelledItemsAreParsed(c: seq<byte>, w: nat, o: nat, n: nat, items: seq<Json>, depth: nat)
    requires IsCText(c) && items != [] && DeriveItems(c, w, n, items) && n < |c| && c[n] == 0x5D
    requires w <= o < |c| && Skip(c, o) == Skip(c, w) && depth <= NESTING_LIMIT
    ensures ParseItems(c, o, depth) ==
            if depth + ItemsNesting(items) <= NESTING_LIMIT then Parsed(items, n + 1) else Failed
    decreases items, 0
  {
    hide Derives, DeriveItems, ParseValue, ParseItems, Skip, Nesting;
    var a, b, m := ItemParts(c, w, n, items);
    SpelledIsParsed(c, a, b, items[0], depth);
    ItemsTurn(c, o, depth, []);
    PrependNothing(ParseItems(c, o, depth));
    assert [] + [items[0]] == [items[0]];
    if |items| == 1 {
      assert items == [items[0]];
      OneItemNesting(items);
    } else {
      SpelledItemsAreParsed(c, m + 1, m + 1, n, items[1..], depth);
      assert items == [items[0]] + items[1..];
    }
  }

  lemma OneItemNesting(items: seq<Json>)
    requires |items| == 1
    ensures ItemsNesting(items) == Nesting(items[0])
  {
    assert items[1..] == [];
  }

  lemma OneMemberNesting(members: seq<Member>)
    requires |members| == 1
    ensures MembersNesting(members) == Nesting(members[0].value)
  {
    assert members[1..] == [];
  }

  /** Where the name is and what follows it, as skipping finds them. */
  lemma NameParts(c: seq<byte>, o: nat, q: nat, key: seq<byte>) returns (k: nat, l: nat)
    requires IsCText(c) && NameAndColon(c, o, q, key)
    ensures o < |c| && Skip(c, o) == k < |c| && c[k] == 0x22 && ParseString(c, k) == Parsed(key, l)
    ensures o < l < |c| && Skip(c, l) == q
  {
    hide Skip, ParseString;
    k, l :| White(c, o, k) && k < |c| && c[k] == 0x22 && ParseString(c, k) == Parsed(key, l) && White(c, l, q);
    SkipsTo(c, o, k);
    SkipsTo(c, l, q);
  }

  /** Where the name, the colon and the value of a member are, as skipping finds them. */
  lemma MemberParts(c: seq<byte>, o: nat, m: nat, member: Member) returns (k: nat, l: nat, q: nat, a: nat, b: nat)
    requires IsCText(c) && DeriveMember(c, o, m, member)
    ensures o < |c| && Skip(c, o) == k < |c| && c[k] == 0x22 && ParseString(c, k) == Parsed(member.key, l)
    ensures l < |c| && Skip(c, l) == q && c[q] == 0x3A && q + 1 < |c| && Skip(c, q + 1) == a
    ensures a < b < |c| && Derives(c, a, b, member.value) && o < b <= m <= |c|
    ensures m < |c| && c[m] > 32 ==> Skip(c, b) == m
  {
    hide Derives, Padded, White, ParseString;
    q :| NameAndColon(c, o, q, member.key) && Padded(c, q + 1, m, member.value);
    k, l := NameParts(c, o, q, member.key);
    a, b := PaddedParts(c, q + 1, m, member.value);
  }

  lemma MemberInside(c: seq<byte>, o: nat, m: nat, member: Member)
    requires IsCText(c) && DeriveMember(c, o, m, member)
    ensures o < m <= |c| && c[Skip(c, o)] == 0x22
  {
    hide Derives, DeriveMember, Skip, ParseString;
    var _, _, _, _, _ := MemberParts(c, o, m, member);
  }

  lemma MembersStartAt(c: seq<byte>, o: nat, n: nat, members: seq<Member>)
    requires IsCText(c) && members != [] && DeriveMembers(c, o, n, members)
    ensures o < |c| && c[Skip(c, o)] == 0x22 && n <= |c|
  {
    hide DeriveMember, Skip;
    var m: nat :|
      && DeriveMember(c, o, m, members[0])
      && if |members| == 1 then m == n
         else m < n && m < |c| && c[m] == 0x2C && DeriveMembers(c, m + 1, n, members[1..]);
    MemberInside(c, o, m, members[0]);
    if |members| > 1 {
      MembersEnd(c, m + 1, n, members[1..]);
    }
  }

  lemma {:induction false} MembersEnd(c: seq<byte>, o: nat, n: nat, members: seq<Member>)
    requires IsCText(c) && members != [] && DeriveMembers(c, o, n, members)
    ensures o < n <= |c|
    decreases |members|
  {
    hide DeriveMember;
    var m: nat :|
      && DeriveMember(c, o, m, members[0])
      && if |members| == 1 then m == n
         else m < n && m < |c| && c[m] == 0x2C && DeriveMembers(c, m + 1, n, members[1..]);
    MemberInside(c, o, m, members[0]);
    if |members| > 1 {
      MembersEnd(c, m + 1, n, members[1..]);
    }
  }

  lemma {:induction false} SpelledMembersAreParsed(c: seq<byte>, w: nat, o: nat, n: nat, members: seq<Member>,
                                                   depth: nat)
    requires IsCText(c) && members != [] && DeriveMembers(c, w, n, members) && n < |c| && c[n] == 0x7D
    requires w < |c| && w <= o < |c| && Skip(c, o) == Skip(c, w) && depth <= NESTING_LIMIT
    ensures ParseMembers(c, o, depth) ==
            if depth + MembersNesting(members) <= NESTING_LIMIT then Parsed(members, n + 1) else Failed
    decreases members, 0
  {
    hide DeriveMember, ParseMember, ParseMembers, Skip, Nesting;
    var m: nat :|
      && DeriveMember(c, w, m, members[0])
      && if |members| == 1 then m == n
         else m < n && m < |c| && c[m] == 0x2C && DeriveMembers(c, m + 1, n, members[1..]);
    SpelledMemberIsParsed(c, w, o, m, members[0], depth);
    MembersTurn(c, o, depth, []);
    PrependNothing(ParseMembers(c, o, depth));
    assert [] + [members[0]] == [members[0]];
    if |members| == 1 {
      assert members == [members[0]];
      OneMemberNesting(members);
    } else {
      MembersEnd(c, m + 1, n, members[1..]);
      SpelledMembersAreParsed(c, m + 1, m + 1, n, members[1..], depth);
      assert members == [members[0]] + members[1..];
    }
  }

  lemma {:induction false} SpelledMemberIsParsed(c: seq<byte>, w: nat, o: nat, m: nat, member: Member, depth: nat)
    requires IsCText(c) && DeriveMember(c, w, m, member) && m < |c| && c[m] > 32
    requires w < |c| && w <= o < |c| && Skip(c, o) == Skip(c, w) && depth <= NESTING_LIMIT
    ensures
      var r := ParseMember(c, o, depth);
      if depth + Nesting(member.value) <= NESTING_LIMIT then
        r.Parsed? && r.value == member && Skip(c, r.next) == m
      else r.Failed?
    decreases member, 2
  {
    hide Derives, DeriveMember, ParseValue, ParseString, Skip, Nesting;
    var k, l, q, a, b := MemberParts(c, w, m, member);
    SpelledIsParsed(c, a, b, member.value, depth);
  }

  // ----- what is parsed is spelled -----

  lemma StartsIs(c: seq<byte>, o: nat, word: seq<byte>)
    requires Terminated(c) && Starts(c, o, word) && |word| > 0 && NulFree(word)
    ensures o + |word| < |c| && Word(c, o, o + |word|, word)
  {
    StartsWord(c, o, word);
  }

  lemma {:induction false} ParsedIsSpelled(c: seq<byte>, o: nat, depth: nat)
    requires IsCText(c) && o < |c| && depth <= NESTING_LIMIT && ParseValue(c, o, depth).Parsed?
    ensures Derives(c, o, ParseValue(c, o, depth).next, ParseValue(c, o, depth).value)
    decreases |c| - o, 1
  {
    hide ParseString, ParseNumber, ParseItems, ParseMembers, Skip, DeriveItems, DeriveMembers, Starts;
    if Starts(c, o, NULL_TEXT) {
      StartsIs(c, o, NULL_TEXT);
    } else if Starts(c, o, FALSE_TEXT) {
      StartsIs(c, o, FALSE_TEXT);
    } else if Starts(c, o, TRUE_TEXT) {
      StartsIs(c, o, TRUE_TEXT);
    } else if c[o] == LBRACKET {
      SkipIsWhite(c, o + 1);
      var s := Skip(c, o + 1);
      if c[s] != RBRACKET {
        ParsedItemsAreSpelled(c, o + 1, s, depth + 1);
      }
    } else if c[o] == LBRACE {
      SkipIsWhite(c, o + 1);
      var s := Skip(c, o + 1);
      if c[s] != RBRACE {
        ParsedMembersAreSpelled(c, o + 1, s, depth + 1);
      }
    }
  }

  lemma WhiteOn(c: seq<byte>, w: nat, o: nat, s: nat)
    requires White(c, w, o) && White(c, o, s)
    ensures White(c, w, s)
  {
  }

  lemma {:induction false} ParsedItemsAreSpelled(c: seq<byte>, w: nat, o: nat, depth: nat)
    requires IsCText(c) && White(c, w, o) && o < |c| && depth <= NESTING_LIMIT && ParseItems(c, o, depth).Parsed?
    ensures
      var r := ParseItems(c, o, depth);
      r.value != [] && r.next > 0 && c[r.next - 1] == 0x5D && DeriveItems(c, w, r.next - 1, r.value)
    decreases |c| - o, 2
  {
    hide ParseValue, Skip, White, Derives;
    var a := Skip(c, o);
    SkipIsWhite(c, o);
    WhiteOn(c, w, o, a);
    ParsedIsSpelled(c, a, depth);
    var item := ParseValue(c, a, depth);
    var m := Skip(c, item.next);
    SkipIsWhite(c, item.next);
    assert Padded(c, w, m, item.value);
    if c[m] == COMMA {
      assert White(c, m + 1, m + 1) by { NoWhite(c, m + 1); }
      ParsedItemsAreSpelled(c, m + 1, m + 1, depth);
      var rest := ParseItems(c, m + 1, depth);
      assert ([item.value] + rest.value)[1..] == rest.value;
      ItemsEnd(c, m + 1, rest.next - 1, rest.value);
    }
  }

  lemma NoWhite(c: seq<byte>, o: nat)
    requires o <= |c|
    ensures White(c, o, o)
  {
  }

  lemma {:induction false} ParsedMembersAreSpelled(c: seq<byte>, w: nat, o: nat, depth: nat)
    requires IsCText(c) && White(c, w, o) && o < |c| && depth <= NESTING_LIMIT && ParseMembers(c, o, depth).Parsed?
    ensures
      var r := ParseMembers(c, o, depth);
      r.value != [] && r.next > 0 && c[r.next - 1] == 0x7D && DeriveMembers(c, w, r.next - 1, r.value)
    decreases |c| - o, 3
  {
    hide ParseMember, Skip, White, DeriveMember;
    ParsedMemberIsSpelled(c, w, o, depth);
    var member := ParseMember(c, o, depth);
    var m := Skip(c, member.next);
    if c[m] == COMMA {
      assert White(c, m + 1, m + 1) by { NoWhite(c, m + 1); }
      ParsedMembersAreSpelled(c, m + 1, m + 1, depth);
      var rest := ParseMembers(c, m + 1, depth);
      assert ([member.value] + rest.value)[1..] == rest.value;
      MembersEnd(c, m + 1, rest.next - 1, rest.value);
    }
  }

  lemma {:induction false} ParsedMemberIsSpelled(c: seq<byte>, w: nat, o: nat, depth: nat)
    requires IsCText(c) && White(c, w, o) && o < |c| && depth <= NESTING_LIMIT && ParseMember(c, o, depth).Parsed?
    ensures
      var r := ParseMember(c, o, depth);
      DeriveMember(c, w, Skip(c, r.next), r.value)
    decreases |c| - o, 2
  {
    hide ParseValue, ParseString, Skip, White, Derives;
    var k := Skip(c, o);
    SkipIsWhite(c, o);
    WhiteOn(c, w, o, k);
    var key := ParseString(c, k);
    KeyStarts(c, k);
    var q := Skip(c, key.next);
    SkipIsWhite(c, key.next);
    var a := Skip(c, q + 1);
    SkipIsWhite(c, q + 1);
    ParsedIsSpelled(c, a, depth);
    SkipIsWhite(c, ParseValue(c, a, depth).next);
    assert NameAndColon(c, w, q, key.value);
  }

  lemma KeyStarts(c: seq<byte>, k: nat)
    requires Terminated(c) && k < |c| && ParseString(c, k).Parsed?
    ensures c[k] == 0x22
  {
  }

  // ----- whole texts -----

  /** A byte order mark, with something after it, is passed over. */
  function MarkLength(text: seq<byte>): nat {
    if |text| >= 4 && text[..3] == [0xEF, 0xBB, 0xBF] then 3 else 0
  }

  /** White space, a value, and then what follows it from `n`. */
  ghost predicate Accepts(text: seq<byte>, v: Json, n: nat) {
    exists o: nat :: White(text + [NUL], MarkLength(text), o) && Derives(text + [NUL], o, n, v)
  }

  /**
   On a C string the parser finds a value exactly where the grammar has one with no more than the limit of containers
   open at once; with `requireEnd` nothing but white space may follow, and the end is the end of the text.
   */
  lemma ParserAcceptsGrammar(text: seq<byte>, requireEnd: bool, v: Json, n: nat)
    requires NulFree(text)
    ensures ParseText(text, requireEnd) == Parsed(v, n) <==>
            Nesting(v) <= 1000 &&
            if requireEnd then n == |text| && exists m :: Accepts(text, v, m) && White(text, m, n)
            else Accepts(text, v, n)
  {
    hide Derives, ParseValue, White, Skip, Nesting;
    var c := text + [NUL];
    var start := MarkLength(text);
    MarkIsBom(text);
    SkipIsWhite(c, start);
    var o := Skip(c, start);
    var r := ParseValue(c, o, 0);
    if r.Parsed? {
      ParsedIsSpelled(c, o, 0);
      SpelledIsParsed(c, o, r.next, r.value, 0);
      assert Accepts(text, r.value, r.next);
      AfterValue(text, r.next);
    }
    forall u: Json, m: nat | Accepts(text, u, m)
      ensures Nesting(u) <= 1000 ==> r == Parsed(u, m)
      ensures Nesting(u) > 1000 ==> r.Failed?
    {
      var p: nat :| White(c, start, p) && Derives(c, p, m, u);
      DerivedInside(c, p, m, u);
      DerivedStart(c, p, m, u);
      SkipsTo(c, start, p);
      SpelledIsParsed(c, p, m, u, 0);
    }
  }

  lemma MarkIsBom(text: seq<byte>)
    requires NulFree(text)
    ensures AfterBom(text + [NUL]) == MarkLength(text) < |text + [NUL]| && IsCText(text + [NUL])
  {
    if |text| >= 4 {
      assert (text + [NUL])[..3] == text[..3];
    }
  }

  /** What is skipped after a value reaches the terminator exactly if only white space follows. */
  lemma AfterValue(text: seq<byte>, m: nat)
    requires NulFree(text) && m <= |text|
    ensures var c := text + [NUL]; c[Skip(c, m)] == NUL <==> White(text, m, |text|)
    ensures var c := text + [NUL]; c[Skip(c, m)] == NUL ==> Skip(c, m) == |text|
  {
    var c := text + [NUL];
    SkipIsWhite(c, m);
    assert forall k :: m <= k < |text| ==> c[k] == text[k];
    assert Skip(c, m) < |text| ==> c[Skip(c, m)] == text[Skip(c, m)];
  }
}
