/** JSON values and the text they print to (section 7 of RFC 8259 for strings). */
module JsonText {
  import opened Bytes
  import opened Utf

  /** The value an item carries: `valuedouble` for a number, the NUL-terminated `valuestring` for a string. */
  datatype Json =
    | Null
    | False
    | True
    | Number(number: real)
    | String(text: seq<byte>)
    | Array(items: seq<Json>)
    | Object(members: seq<Member>)

  datatype Member = Member(key: seq<byte>, value: Json)

  predicate IsInt32(x: real) {
    x == x.Floor as real && -0x8000_0000 <= x.Floor <= INT_MAX
  }

  ghost predicate NulFree(s: seq<byte>) { forall i :: 0 <= i < |s| ==> s[i] != NUL }

  /** Numbers are 32-bit integers and strings are C strings. */
  ghost predicate Printable(v: Json) {
    match v
    case Number(x) => IsInt32(x)
    case String(s) => NulFree(s)
    case Array(items) => forall i :: 0 <= i < |items| ==> Printable(items[i])
    case Object(members) => forall i :: 0 <= i < |members| ==> NulFree(members[i].key) && Printable(members[i].value)
    case _ => true
  }

  function Max(a: nat, b: nat): nat { if a < b then b else a }

  /** How many containers are open at once at the deepest point. */
  ghost function Nesting(v: Json): nat
    decreases v, 1
  {
    match v
    case Array(items) => 1 + ItemsNesting(items)
    case Object(members) => 1 + MembersNesting(members)
    case _ => 0
  }

  ghost function ItemsNesting(items: seq<Json>): nat
    decreases items, 0
  {
    if items == [] then 0 else Max(Nesting(items[0]), ItemsNesting(items[1..]))
  }

  ghost function MembersNesting(members: seq<Member>): nat
    decreases members, 0
  {
    if members == [] then 0 else Max(Nesting(members[0].value), MembersNesting(members[1..]))
  }

  // ----- strings -----

  /** The letter that stands for `b` in a two-character escape. */
  function ShortEscape(b: byte): (letter: byte) {
    if b == QUOTE || b == BACKSLASH then b
    else if b == 0x08 then 0x62
    else if b == 0x0C then 0x66
    else if b == 0x0A then 0x6E
    else if b == 0x0D then 0x72
    else if b == 0x09 then 0x74
    else NUL
  }

  predicate IsPlain(b: byte) { b > 31 && b != QUOTE && b != BACKSLASH }

  function EscapeByte(b: byte): (t: seq<byte>)
    ensures |t| in {1, 2, 6} && NulFree(t)
  {
    if IsPlain(b) then [b]
    else if ShortEscape(b) != NUL then [BACKSLASH, ShortEscape(b)]
    else UnitText(b)
  }

  function Escape(s: seq<byte>): (t: seq<byte>)
    ensures NulFree(t)
  {
    if s == [] then [] else EscapeByte(s[0]) + Escape(s[1..])
  }

  function Quote(s: seq<byte>): (t: seq<byte>)
    ensures |t| >= 2 && t[0] == QUOTE && NulFree(t)
  {
    [QUOTE] + Escape(s) + [QUOTE]
  }

  // ----- values -----

  const NULL_TEXT: seq<byte> := [0x6E, 0x75, 0x6C, 0x6C]
  const TAB: byte := 0x09
  const NEWLINE: byte := 0x0A
  const SPACE: byte := 0x20

  function Tabs(n: nat): (t: seq<byte>)
    ensures |t| == n && forall i :: 0 <= i < n ==> t[i] == TAB
  {
    if n == 0 then [] else [TAB] + Tabs(n - 1)
  }

  ghost function Text(v: Json, format: bool, depth: nat): (t: seq<byte>)
    decreases v, 1
  {
    match v
    case Null => NULL_TEXT
    case False => FALSE_TEXT
    case True => TRUE_TEXT
    case Number(x) => IntText(x.Floor)
    case String(s) => Quote(s)
    case Array(items) => [LBRACKET] + ItemsText(items, format, depth + 1) + [RBRACKET]
    case Object(members) =>
      (if format then [LBRACE, NEWLINE] else [LBRACE])
      + MembersText(members, format, depth + 1)
      + (if format then Tabs(depth) else []) + [RBRACE]
  }

  function ItemEnd(more: bool, format: bool): seq<byte> {
    if !more then [] else if format then [COMMA, SPACE] else [COMMA]
  }

  ghost function ItemsText(items: seq<Json>, format: bool, depth: nat): (t: seq<byte>)
    decreases items, 0
  {
    if items == [] then []
    else Text(items[0], format, depth) + ItemEnd(|items| > 1, format) + ItemsText(items[1..], format, depth)
  }

  function MemberStart(key: seq<byte>, format: bool, depth: nat): seq<byte> {
    (if format then Tabs(depth) else []) + Quote(key) + (if format then [COLON, TAB] else [COLON])
  }

  function MemberEnd(more: bool, format: bool): seq<byte> {
    (if more then [COMMA] else []) + (if format then [NEWLINE] else [])
  }

  ghost function MembersText(members: seq<Member>, format: bool, depth: nat): (t: seq<byte>)
    decreases members, 0
  {
    if members == [] then []
    else
      MemberStart(members[0].key, format, depth)
      + Text(members[0].value, format, depth)
      + MemberEnd(|members| > 1, format)
      + MembersText(members[1..], format, depth)
  }

  lemma {:induction false} TextNulFree(v: Json, format: bool, depth: nat)
    ensures NulFree(Text(v, format, depth)) && |Text(v, format, depth)| > 0
    decreases v, 1
  {
    hide ItemsText, MembersText, Quote, Tabs;
    match v
    case Number(x) => IntTextNulFree(x.Floor);
    case Array(items) => ItemsTextNulFree(items, format, depth + 1);
    case Object(members) => MembersTextNulFree(members, format, depth + 1);
    case _ =>
  }

  lemma IntTextNulFree(n: int)
    ensures NulFree(IntText(n))
  {
    if n < 0 {
      assert AllDigits(NatText(-n));
    } else {
      assert AllDigits(NatText(n));
    }
  }

  lemma {:induction false} ItemsTextNulFree(items: seq<Json>, format: bool, depth: nat)
    ensures NulFree(ItemsText(items, format, depth))
    decreases items, 0
  {
    if items != [] {
      TextNulFree(items[0], format, depth);
      ItemsTextNulFree(items[1..], format, depth);
    }
  }

  lemma {:induction false} MembersTextNulFree(members: seq<Member>, format: bool, depth: nat)
    ensures NulFree(MembersText(members, format, depth))
    decreases members, 0
  {
    if members != [] {
      TextNulFree(members[0].value, format, depth);
      MembersTextNulFree(members[1..], format, depth);
    }
  }
}
