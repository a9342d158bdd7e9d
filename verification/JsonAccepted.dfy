/** What the parser accepts, and that printing it and parsing it again changes nothing. */
module JsonAccepted {
  import opened Bytes
  import opened JsonGrammar
  import opened JsonRoundTrip
  import opened JsonText

  /** Every string and every name is a C string. */
  ghost predicate CStrings(v: Json) {
    match v
    case String(s) => NulFree(s)
    case Array(items) => forall i :: 0 <= i < |items| ==> CStrings(items[i])
    case Object(members) => forall i :: 0 <= i < |members| ==> NulFree(members[i].key) && CStrings(members[i].value)
    case _ => true
  }

  /** Every number is a 32-bit integer. */
  ghost predicate AllInt32(v: Json) {
    match v
    case Number(x) => IsInt32(x)
    case Array(items) => forall i :: 0 <= i < |items| ==> AllInt32(items[i])
    case Object(members) => forall i :: 0 <= i < |members| ==> AllInt32(members[i].value)
    case _ => true
  }

  lemma {:induction false} PrintableIf(v: Json)
    ensures Printable(v) <==> CStrings(v) && AllInt32(v)
    decreases v
  {
    match v
    case Array(items) =>
      forall i | 0 <= i < |items|
        ensures Printable(items[i]) <==> CStrings(items[i]) && AllInt32(items[i])
      {
        PrintableIf(items[i]);
      }
    case Object(members) =>
      forall i | 0 <= i < |members|
        ensures Printable(members[i].value) <==> CStrings(members[i].value) && AllInt32(members[i].value)
      {
        PrintableIf(members[i].value);
      }
    case _ =>
  }

  // ----- what is accepted -----

  /** With `depth` containers open, no more than the limit are open anywhere in the value. */
  ghost predicate Within(v: Json, depth: nat) { depth + Nesting(v) <= NESTING_LIMIT && CStrings(v) }

  ghost predicate ItemsWithin(items: seq<Json>, depth: nat) {
    depth + ItemsNesting(items) <= NESTING_LIMIT && forall i :: 0 <= i < |items| ==> CStrings(items[i])
  }

  ghost predicate MembersWithin(members: seq<Member>, depth: nat) {
    && depth + MembersNesting(members) <= NESTING_LIMIT
    && forall i :: 0 <= i < |members| ==> NulFree(members[i].key) && CStrings(members[i].value)
  }

  lemma OneMoreItem(x: Json, rest: seq<Json>, depth: nat)
    requires Within(x, depth) && ItemsWithin(rest, depth)
    ensures ItemsWithin([x] + rest, depth)
  {
    assert ([x] + rest)[1..] == rest;
  }

  lemma OneMoreMember(m: Member, rest: seq<Member>, depth: nat)
    requires NulFree(m.key) && Within(m.value, depth) && MembersWithin(rest, depth)
    ensures MembersWithin([m] + rest, depth)
  {
    assert ([m] + rest)[1..] == rest;
  }

  lemma {:induction false} ValueWithin(c: seq<byte>, o: nat, depth: nat)
    requires Terminated(c) && o < |c| && depth <= NESTING_LIMIT
    ensures ParseValue(c, o, depth).Parsed? ==> Within(ParseValue(c, o, depth).value, depth)
    decreases |c| - o, 1
  {
    hide ParseString, ParseNumber, ParseItems, ParseMembers, Skip, Starts;
    if c[o] == LBRACKET && depth < NESTING_LIMIT {
      ItemsAreWithin(c, Skip(c, o + 1), depth + 1);
    }
    if c[o] == LBRACE && depth < NESTING_LIMIT {
      MembersAreWithin(c, Skip(c, o + 1), depth + 1);
    }
  }

  lemma {:induction false} ItemsAreWithin(c: seq<byte>, o: nat, depth: nat)
    requires Terminated(c) && o < |c| && depth <= NESTING_LIMIT
    ensures ParseItems(c, o, depth).Parsed? ==> ItemsWithin(ParseItems(c, o, depth).value, depth)
    decreases |c| - o, 2
  {
    hide ParseValue, Skip, CStrings;
    ValueWithin(c, Skip(c, o), depth);
    var item := ParseValue(c, Skip(c, o), depth);
    if item.Parsed? {
      OneMoreItem(item.value, [], depth);
      assert [item.value] + [] == [item.value];
      var s := Skip(c, item.next);
      if c[s] == COMMA {
        ItemsAreWithin(c, s + 1, depth);
        if ParseItems(c, s + 1, depth).Parsed? {
          OneMoreItem(item.value, ParseItems(c, s + 1, depth).value, depth);
        }
      }
    }
  }

  lemma {:induction false} MembersAreWithin(c: seq<byte>, o: nat, depth: nat)
    requires Terminated(c) && o < |c| && depth <= NESTING_LIMIT
    ensures ParseMembers(c, o, depth).Parsed? ==> MembersWithin(ParseMembers(c, o, depth).value, depth)
    decreases |c| - o, 3
  {
    hide ParseMember, Skip, CStrings;
    MemberIsWithin(c, o, depth);
    var member := ParseMember(c, o, depth);
    if member.Parsed? {
      OneMoreMember(member.value, [], depth);
      assert [member.value] + [] == [member.value];
      var s := Skip(c, member.next);
      if c[s] == COMMA {
        MembersAreWithin(c, s + 1, depth);
        if ParseMembers(c, s + 1, depth).Parsed? {
          OneMoreMember(member.value, ParseMembers(c, s + 1, depth).value, depth);
        }
      }
    }
  }

  lemma {:induction false} MemberIsWithin(c: seq<byte>, o: nat, depth: nat)
    requires Terminated(c) && o < |c| && depth <= NESTING_LIMIT
    ensures
      var r := ParseMember(c, o, depth);
      r.Parsed? ==> NulFree(r.value.key) && Within(r.value.value, depth)
    decreases |c| - o, 2
  {
    hide ParseValue, Within;
    var key := ParseString(c, Skip(c, o));
    if key.Parsed? {
      var s := Skip(c, key.next);
      if c[s] == COLON {
        ValueWithin(c, Skip(c, s + 1), depth);
      }
    }
  }

  /** An accepted text never has more than the limit of containers open, and all its strings are C strings. */
  lemma AcceptedIsBounded(text: seq<byte>, requireEnd: bool)
    requires ParseText(text, requireEnd).Parsed?
    ensures var v := ParseText(text, requireEnd).value; Nesting(v) <= NESTING_LIMIT && CStrings(v)
  {
    hide ParseValue, CStrings, Nesting;
    var c := text + [NUL];
    ValueWithin(c, Skip(c, AfterBom(c)), 0);
  }

  /** Printing what was accepted, formatted or not, and parsing that gives the same tree and the same text again. */
  lemma AcceptedStays(text: seq<byte>, requireEnd: bool, format: bool, again: bool)
    requires ParseText(text, requireEnd).Parsed? && AllInt32(ParseText(text, requireEnd).value)
    ensures
      var v := ParseText(text, requireEnd).value;
      Printable(v) && ParseText(Text(v, format, 0), again) == Parsed(v, |Text(v, format, 0)|)
  {
    hide ParseText, CStrings, AllInt32, Nesting, Text;
    var v := ParseText(text, requireEnd).value;
    AcceptedIsBounded(text, requireEnd);
    PrintableIf(v);
    ParsingUndoesPrinting(v, format, again);
  }
}
