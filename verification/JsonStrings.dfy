/** What the quoted strings of section 7 of RFC 8259 are read as, and which of them is printed. */
module JsonStrings {
  import opened Bytes
  import opened Escapes
  import opened JsonGrammar
  import opened JsonRoundTrip
  import opened JsonText
  import opened Utf

  // ----- reading -----

  /** The two-character escapes: the letter after the backslash, and the byte. */
  predicate Means(letter: byte, b: byte) {
    || (letter == 0x22 && b == 0x22)
    || (letter == 0x5C && b == 0x5C)
    || (letter == 0x2F && b == 0x2F)
    || (letter == 0x62 && b == 0x08)
    || (letter == 0x66 && b == 0x0C)
    || (letter == 0x6E && b == 0x0A)
    || (letter == 0x72 && b == 0x0D)
    || (letter == 0x74 && b == 0x09)
  }

  /** A byte as it is, a two-character escape, or the escape or the pair of escapes of a scalar value. */
  datatype Piece = Raw(b: byte) | Short(letter: byte, b: byte) | Spelled(text: seq<byte>, cp: nat)

  ghost predicate Valid(p: Piece) {
    match p
    case Raw(b) => b != NUL && b != 0x22 && b != 0x5C
    case Short(letter, b) => Means(letter, b)
    case Spelled(text, cp) =>
      IsScalar(cp) && |text| == 6 * |Utf16Encode(cp)| && text[..2] == [0x5C, 0x75] && Spells(text, 0, |text|, cp)
  }

  function Written(p: Piece): seq<byte> {
    match p
    case Raw(b) => [b]
    case Short(letter, _) => [0x5C, letter]
    case Spelled(text, _) => text
  }

  ghost function Read(p: Piece): seq<byte>
    requires Valid(p)
  {
    match p
    case Raw(b) => [b]
    case Short(_, b) => [b]
    case Spelled(_, cp) => Utf8Encode(cp)
  }

  ghost predicate AllValid(ps: seq<Piece>) { forall i :: 0 <= i < |ps| ==> Valid(ps[i]) }

  function AllWritten(ps: seq<Piece>): seq<byte> { if ps == [] then [] else Written(ps[0]) + AllWritten(ps[1..]) }

  ghost function AllRead(ps: seq<Piece>): seq<byte>
    requires AllValid(ps)
  {
    if ps == [] then [] else Read(ps[0]) + AllRead(ps[1..])
  }

  lemma SpelledThere(c: seq<byte>, i: nat, end: nat, text: seq<byte>, cp: nat)
    requires Valid(Spelled(text, cp)) && Occurs(c, i, text) && i + |text| <= end <= |c|
    ensures Spells(c, i, end, cp) && c[i] == 0x5C && c[i + 1] == 0x75
    ensures HexAt(c, i + 2) && (|text| == 12 ==> c[i + 6] == 0x5C && c[i + 7] == 0x75 && HexAt(c, i + 8))
  {
    hide Occurs;
    forall k: nat | k < |text|
      ensures c[i + k] == text[k]
    {
      OccursAt(c, i, text, k);
    }
    assert text[0] == text[..2][0] && text[1] == text[..2][1];
    SameUnit(c, i, text, 0);
    if |text| == 12 {
      SameUnit(c, i, text, 6);
    }
  }

  lemma SameUnit(c: seq<byte>, i: nat, text: seq<byte>, k: nat)
    requires k + 6 <= |text| && i + |text| <= |c| && forall j: nat :: j < |text| ==> c[i + j] == text[j]
    ensures HexAt(c, i + k + 2) <==> HexAt(text, k + 2)
    ensures Hex4(c, i + k + 2) == Hex4(text, k + 2)
  {
    assert c[i + k + 2] == text[k + 2] && c[i + k + 2 + 1] == text[k + 2 + 1];
    assert c[i + k + 2 + 2] == text[k + 2 + 2] && c[i + k + 2 + 3] == text[k + 2 + 3];
  }

  /** The first pass goes over four hexadecimal digits. */
  lemma HexScan(c: seq<byte>, i: nat)
    requires i + 6 <= |c| && c[i] == 0x5C && HexAt(c, i + 2)
    ensures var r, later := ScanString(c, i), ScanString(c, i + 6);
            (r.QuoteAt? <==> later.QuoteAt?) && (r.QuoteAt? ==> r.at == later.at)
  {
    assert c[i + 2 + 1] == c[i + 3] && c[i + 2 + 2] == c[i + 4] && c[i + 2 + 3] == c[i + 5];
    PlainScan(c, i + 2, 4);
  }

  /** What one piece does to the two passes. */
  lemma PieceStep(c: seq<byte>, i: nat, p: Piece)
    requires Valid(p) && Occurs(c, i, Written(p))
    ensures var r, later := ScanString(c, i), ScanString(c, i + |Written(p)|);
            (r.QuoteAt? <==> later.QuoteAt?) && (r.QuoteAt? ==> r.at == later.at)
    ensures forall end: nat {:trigger UnescapeStep(c, i, end)} :: i + |Written(p)| <= end < |c| ==>
              UnescapeStep(c, i, end) == Step(Read(p), |Written(p)|)
  {
    hide Spells, HexAt, Hex4, Utf16Literal, Utf8Encode, Utf16Encode;
    var t := Written(p);
    assert |t| > 0;
    OccursAt(c, i, t, 0);
    match p
    case Raw(b) =>
    case Short(letter, b) => OccursAt(c, i, t, 1);
    case Spelled(text, cp) =>
      SpelledThere(c, i, |c|, text, cp);
      HexScan(c, i);
      if |text| == 12 {
        HexScan(c, i + 6);
      }
      forall end: nat | i + |text| <= end < |c|
        ensures UnescapeStep(c, i, end) == Step(Utf8Encode(cp), |text|)
      {
        SpelledThere(c, i, end, text, cp);
        LiteralConverts(cp, c, i, end);
      }
  }

  /** Both passes over the pieces of a string, up to whatever comes after them. */
  lemma {:induction false} PiecesThrough(c: seq<byte>, i: nat, ps: seq<Piece>)
    requires AllValid(ps) && Occurs(c, i, AllWritten(ps))
    ensures
      var r, later := ScanString(c, i), ScanString(c, i + |AllWritten(ps)|);
      (r.QuoteAt? <==> later.QuoteAt?) && (r.QuoteAt? ==> r.at == later.at)
    ensures forall end: nat {:trigger UnescapeFrom(c, i, end)} :: i + |AllWritten(ps)| <= end < |c| ==>
              var rest := UnescapeFrom(c, i + |AllWritten(ps)|, end);
              UnescapeFrom(c, i, end) ==
              if rest.Malformed? then Malformed else Unescaped(AllRead(ps) + rest.bytes)
    decreases |ps|
  {
    hide Occurs, UnescapeStep, ScanString, Valid, Written, Read;
    if ps == [] {
      assert AllWritten(ps) == [];
      forall end: nat | i <= end < |c|
        ensures var rest := UnescapeFrom(c, i, end); rest.Unescaped? ==> AllRead(ps) + rest.bytes == rest.bytes
      {
      }
    } else {
      var t := Written(ps[0]);
      OccursSplit(c, i, t, AllWritten(ps[1..]));
      PieceStep(c, i, ps[0]);
      PiecesThrough(c, i + |t|, ps[1..]);
      forall end: nat | i + |AllWritten(ps)| <= end < |c|
        ensures
          var rest := UnescapeFrom(c, i + |AllWritten(ps)|, end);
          UnescapeFrom(c, i, end) ==
          if rest.Malformed? then Malformed else Unescaped(AllRead(ps) + rest.bytes)
      {
        PieceFirst(c, i, end, ps);
      }
    }
  }

  lemma PieceFirst(c: seq<byte>, i: nat, end: nat, ps: seq<Piece>)
    requires ps != [] && AllValid(ps) && i + |AllWritten(ps)| <= end < |c|
    requires UnescapeStep(c, i, end) == Step(Read(ps[0]), |Written(ps[0])|)
    requires
      var rest := UnescapeFrom(c, i + |AllWritten(ps)|, end);
      UnescapeFrom(c, i + |Written(ps[0])|, end) ==
      if rest.Malformed? then Malformed else Unescaped(AllRead(ps[1..]) + rest.bytes)
    ensures
      var rest := UnescapeFrom(c, i + |AllWritten(ps)|, end);
      UnescapeFrom(c, i, end) == if rest.Malformed? then Malformed else Unescaped(AllRead(ps) + rest.bytes)
  {
    hide UnescapeStep, UnescapeFrom, Valid, Written, Read;
    var rest := UnescapeFrom(c, i + |AllWritten(ps)|, end);
    WrittenSome(ps[0]);
    StepUnfolds(c, i, end, Read(ps[0]), |Written(ps[0])|);
    if rest.Unescaped? {
      var front, more := Read(ps[0]), AllRead(ps[1..]);
      assert front + (more + rest.bytes) == (front + more) + rest.bytes;
    }
  }

  lemma StepUnfolds(c: seq<byte>, i: nat, end: nat, output: seq<byte>, consumed: nat)
    requires i < end < |c| && UnescapeStep(c, i, end) == Step(output, consumed) && i + consumed <= end + 1
    ensures
      var rest := UnescapeFrom(c, i + consumed, end);
      UnescapeFrom(c, i, end) == if rest.Malformed? then Malformed else Unescaped(output + rest.bytes)
  {
    hide UnescapeStep;
  }

  lemma WrittenSome(p: Piece)
    requires Valid(p)
    ensures |Written(p)| > 0
  {
  }

  /** Any pieces between quotes are read as the bytes they stand for, as far as the first NUL, and whole. */
  lemma PiecesAreRead(ps: seq<Piece>, requireEnd: bool)
    requires AllValid(ps)
    ensures
      var text := [0x22] + AllWritten(ps) + [0x22];
      ParseText(text, requireEnd) == Parsed(String(CString(AllRead(ps))), |text|)
  {
    hide Occurs, ScanString, UnescapeFrom, CString, AllRead, AllWritten, AllValid;
    var text := [0x22] + AllWritten(ps) + [0x22];
    var c := text + [NUL];
    var end := 1 + |AllWritten(ps)|;
    assert Occurs(c, 1, AllWritten(ps)) by { OccursMiddle([0x22], AllWritten(ps), [0x22, NUL], c); }
    assert c[0] == 0x22 && c[end] == 0x22;
    PiecesThrough(c, 1, ps);
    QuoteEnds(c, end);
    SkipWhite(c, 0, 0);
    assert AfterBom(c) == 0 by {
      if 4 < |c| {
        assert c[..3][0] == c[0];
      }
    }
    assert AllRead(ps) + [] == AllRead(ps);
    StartsWithQuote(c);
    assert c[end + 1] == NUL;
    SkipNul(c);
  }

  lemma OccursMiddle(a: seq<byte>, b: seq<byte>, z: seq<byte>, c: seq<byte>)
    requires c == a + b + z
    ensures Occurs(c, |a|, b)
  {
    assert c[|a|..|a| + |b|] == b;
  }

  lemma QuoteEnds(c: seq<byte>, end: nat)
    requires end < |c| && c[end] == 0x22
    ensures ScanString(c, end) == QuoteAt(end, 0) && UnescapeFrom(c, end, end) == Unescaped([])
  {
  }

  lemma StartsWithQuote(c: seq<byte>)
    requires Terminated(c) && c[0] == 0x22
    ensures ParseValue(c, 0, 0) ==
            var r := ParseString(c, 0); if r.Failed? then Failed else Parsed(String(r.value), r.next)
  {
    NotWords(c, 0);
  }

  lemma SkipNul(c: seq<byte>)
    requires Terminated(c)
    ensures Skip(c, |c| - 1) == |c| - 1
  {
  }

  // ----- the solidus -----

  /** Each solidus of the text is written with a backslash before it. */
  function Slashed(t: seq<byte>): seq<byte> {
    if t == [] then [] else (if t[0] == 0x2F then [0x5C, 0x2F] else [t[0]]) + Slashed(t[1..])
  }

  ghost function PieceOf(b: byte): Piece {
    if b == 0x2F then Short(0x2F, 0x2F)
    else if IsPlain(b) then Raw(b)
    else if ShortEscape(b) != NUL then Short(ShortEscape(b), b)
    else Spelled(UnitText(b), b)
  }

  lemma PieceOfIsValid(b: byte)
    requires b != NUL
    ensures Valid(PieceOf(b)) && Read(PieceOf(b)) == [b] && Written(PieceOf(b)) == Slashed(EscapeByte(b))
  {
    var t := EscapeByte(b);
    if b != 0x2F && !IsPlain(b) && ShortEscape(b) == NUL {
      assert t[0..] == t;
      Hex4OfUnit(t, 0, b);
      assert Utf16Encode(b) == [b] by { OneUnit(b); }
      assert t[..2] == [0x5C, 0x75];
      SixSlashed(t);
    } else if |t| == 2 {
      assert t[1..] == [t[1]] && t[1..][1..] == [];
    } else {
      assert t[1..] == [];
    }
  }

  lemma SixSlashed(t: seq<byte>)
    requires |t| == 6 && 0x2F !in t
    ensures Slashed(t) == t
  {
    NoneSlashed(t);
  }

  lemma {:induction false} NoneSlashed(t: seq<byte>)
    requires 0x2F !in t
    ensures Slashed(t) == t
  {
    if t != [] {
      NoneSlashed(t[1..]);
      assert [t[0]] + t[1..] == t;
    }
  }

  lemma {:induction false} SlashedConcat(a: seq<byte>, b: seq<byte>)
    ensures Slashed(a + b) == Slashed(a) + Slashed(b)
  {
    hide Slashed;
    if a == [] {
      assert a + b == b;
      NothingSlashed();
    } else {
      SlashedConcat(a[1..], b);
      assert (a + b)[1..] == a[1..] + b;
      SlashedUnfolds(a);
      SlashedUnfolds(a + b);
      var first := if a[0] == 0x2F then [0x5C, 0x2F] else [a[0]];
      assert first + (Slashed(a[1..]) + Slashed(b)) == (first + Slashed(a[1..])) + Slashed(b);
    }
  }

  lemma NothingSlashed()
    ensures Slashed([]) == []
  {
  }

  lemma SlashedUnfolds(t: seq<byte>)
    requires t != []
    ensures Slashed(t) == (if t[0] == 0x2F then [0x5C, 0x2F] else [t[0]]) + Slashed(t[1..])
  {
  }

  lemma {:induction false} SlashedPieces(s: seq<byte>) returns (ps: seq<Piece>)
    requires NulFree(s)
    ensures AllValid(ps) && AllRead(ps) == s && AllWritten(ps) == Slashed(Escape(s))
  {
    hide Valid, PieceOf, Written, EscapeByte;
    if s == [] {
      ps := [];
    } else {
      PieceOfIsValid(s[0]);
      var rest := SlashedPieces(s[1..]);
      ps := [PieceOf(s[0])] + rest;
      assert ps[1..] == rest;
      SlashedConcat(EscapeByte(s[0]), Escape(s[1..]));
      assert [s[0]] + s[1..] == s;
    }
  }

  /** A printed string in which every solidus is escaped is read as the same string. */
  lemma SolidusMayBeEscaped(s: seq<byte>, requireEnd: bool)
    requires NulFree(s)
    ensures
      var text := [0x22] + Slashed(Escape(s)) + [0x22];
      ParseText(text, requireEnd) == Parsed(String(s), |text|)
  {
    hide ParseText, AllValid, AllRead, AllWritten, Escape, Slashed;
    var ps := SlashedPieces(s);
    PiecesAreRead(ps, requireEnd);
    CStringOfNulFree(s);
  }

  // ----- what is refused -----

  /** The letter is in the table of section 7, or starts a spelled escape. */
  predicate Known(letter: byte) { letter in {0x22, 0x5C, 0x2F, 0x62, 0x66, 0x6E, 0x72, 0x74, 0x75} }

  /** A backslash before any other letter makes the text unreadable, whatever comes before and after. */
  lemma UnknownLetterIsRefused(ps: seq<Piece>, letter: byte, rest: seq<byte>, requireEnd: bool)
    requires AllValid(ps) && !Known(letter)
    ensures ParseText([0x22] + AllWritten(ps) + [0x5C, letter] + rest, requireEnd).Failed?
  {
    hide Occurs, CString, AllRead, AllWritten, AllValid;
    var text := [0x22] + AllWritten(ps) + [0x5C, letter] + rest;
    var c := text + [NUL];
    var at := 1 + |AllWritten(ps)|;
    assert Occurs(c, 1, AllWritten(ps)) by { OccursMiddle([0x22], AllWritten(ps), [0x5C, letter] + rest + [NUL], c); }
    assert c[0] == 0x22 && c[at] == 0x5C && c[at + 1] == letter;
    PiecesThrough(c, 1, ps);
    SkipWhite(c, 0, 0);
    assert AfterBom(c) == 0 by {
      assert 4 < |c| ==> c[..3][0] == c[0];
    }
    StartsWithQuote(c);
    var scan := ScanString(c, 1);
    if scan.QuoteAt? {
      assert ScanString(c, at).at == scan.at && scan.at >= at + 2;
      assert UnescapeStep(c, at, scan.at).Bad?;
    }
  }

  /** A string that is not closed is refused. */
  lemma OpenStringIsRefused(ps: seq<Piece>, requireEnd: bool)
    requires AllValid(ps)
    ensures ParseText([0x22] + AllWritten(ps), requireEnd).Failed?
  {
    hide Occurs, CString, AllRead, AllWritten, AllValid;
    var text := [0x22] + AllWritten(ps);
    var c := text + [NUL];
    assert Occurs(c, 1, AllWritten(ps)) by { OccursMiddle([0x22], AllWritten(ps), [NUL], c); }
    assert c[0] == 0x22 && c[|text|] == NUL;
    PiecesThrough(c, 1, ps);
    SkipWhite(c, 0, 0);
    assert AfterBom(c) == 0 by {
      assert 4 < |c| ==> c[..3][0] == c[0];
    }
    StartsWithQuote(c);
  }

  // ----- printing -----

  /** What is printed for each byte: seven short escapes, lower-case `\u00XX` for other control bytes, else itself. */
  lemma QuoteTable(b: byte)
    requires b != NUL
    ensures
      Quote([b]) ==
      if b == 0x22 || b == 0x5C then [0x22, 0x5C, b, 0x22]
      else if b == 0x08 then [0x22, 0x5C, 0x62, 0x22]
      else if b == 0x09 then [0x22, 0x5C, 0x74, 0x22]
      else if b == 0x0A then [0x22, 0x5C, 0x6E, 0x22]
      else if b == 0x0C then [0x22, 0x5C, 0x66, 0x22]
      else if b == 0x0D then [0x22, 0x5C, 0x72, 0x22]
      else if b < 0x20 then
        [0x22, 0x5C, 0x75, 0x30, 0x30, 0x30 + b / 16, if b % 16 < 10 then 0x30 + b % 16 else 0x61 + b % 16 - 10, 0x22]
      else [0x22, b, 0x22]
  {
    assert [b][1..] == [];
    assert Escape([b]) == EscapeByte(b) + [] == EscapeByte(b);
    if b < 0x20 && ShortEscape(b) == NUL {
      assert b / 0x10 / 0x10 / 0x10 == 0 && b / 0x10 / 0x10 % 0x10 == 0 && b / 0x10 % 0x10 == b / 16;
    }
  }

  lemma {:induction false} EscapeConcat(a: seq<byte>, b: seq<byte>)
    ensures Escape(a + b) == Escape(a) + Escape(b)
  {
    hide EscapeByte;
    if a == [] {
      assert a + b == b;
      assert Escape(a) == [];
    } else {
      EscapeConcat(a[1..], b);
      EscapeFirst(a, b);
      var t := EscapeByte(a[0]);
      assert t + (Escape(a[1..]) + Escape(b)) == (t + Escape(a[1..])) + Escape(b);
    }
  }

  lemma EscapeFirst(a: seq<byte>, b: seq<byte>)
    requires a != []
    ensures Escape(a + b) == EscapeByte(a[0]) + Escape(a[1..] + b)
    ensures Escape(a) == EscapeByte(a[0]) + Escape(a[1..])
  {
    hide EscapeByte;
    assert (a + b)[1..] == a[1..] + b;
  }

  lemma {:induction false} PlainCost(s: seq<byte>)
    requires forall i :: 0 <= i < |s| ==> IsPlain(s[i])
    ensures |Escape(s)| == |s|
  {
    if s != [] {
      PlainCost(s[1..]);
    }
  }

  /** Printing one code point costs no more than spelling it. */
  lemma SpelledCost(cp: nat)
    requires 0 < cp <= 0x10FFFF
    ensures NulFree(Utf8Encode(cp)) && |Escape(Utf8Encode(cp))| <= if cp < 0x10000 then 6 else 12
  {
    if cp < 0x80 {
      assert Utf8Encode(cp)[1..] == [];
    } else {
      PlainCost(Utf8Encode(cp));
    }
  }

  lemma {:induction false} CStringFront(a: seq<byte>, b: seq<byte>)
    requires NulFree(a)
    ensures CString(a + b) == a + CString(b)
  {
    hide CString, NulFree;
    if a == [] {
      assert a + b == b;
    } else {
      assert a[0] != NUL && NulFree(a[1..]) by { NulFreeTail(a); }
      CStringFront(a[1..], b);
      CStringUnfolds(a + b);
      assert (a + b)[1..] == a[1..] + b;
      assert [a[0]] + (a[1..] + CString(b)) == a + CString(b);
    }
  }

  lemma NulFreeTail(a: seq<byte>)
    requires NulFree(a) && a != []
    ensures a[0] != NUL && NulFree(a[1..])
  {
  }

  lemma CStringUnfolds(s: seq<byte>)
    requires s != [] && s[0] != NUL
    ensures CString(s) == [s[0]] + CString(s[1..])
  {
  }

  /** One turn of the second pass reads what costs no more to print than it consumed, and keeps step with the first. */
  lemma TurnCost(c: seq<byte>, i: nat, end: nat)
    requires i < end < |c| && ScanString(c, i).QuoteAt? && ScanString(c, i).at == end
    requires UnescapeStep(c, i, end).Step? && c[i] >= 32
    ensures
      var step := UnescapeStep(c, i, end);
      || (step.output != [] && step.output[0] == NUL)
      || (NulFree(step.output) && |Escape(step.output)| <= step.consumed && i + step.consumed <= end
          && ScanString(c, i + step.consumed).QuoteAt? && ScanString(c, i + step.consumed).at == end)
  {
    hide Utf8Encode;
    var step := UnescapeStep(c, i, end);
    if c[i] != BACKSLASH {
      assert [c[i]][1..] == [];
    } else if c[i + 1] != LOWER_U {
      assert step.output[1..] == [];
      ShortCost(Unescape(c[i + 1]), c[i + 1]);
    } else {
      UnitCost(c, i, end);
    }
  }

  lemma ShortCost(b: byte, letter: byte)
    requires b == Unescape(letter) && b != NUL
    ensures |EscapeByte(b)| <= 2
  {
  }

  lemma UnitCost(c: seq<byte>, i: nat, end: nat)
    requires i < end < |c| && ScanString(c, i).QuoteAt? && ScanString(c, i).at == end
    requires c[i] == BACKSLASH && c[i + 1] == LOWER_U && Utf16Literal(c, i, end).Converted?
    ensures
      var u := Utf16Literal(c, i, end);
      || u.utf8[0] == NUL
      || (NulFree(u.utf8) && |Escape(u.utf8)| <= u.sequenceLength
          && ScanString(c, i + u.sequenceLength).QuoteAt? && ScanString(c, i + u.sequenceLength).at == end)
  {
    hide Utf8Encode, ScanString;
    if !HexAt(c, i + 2) {
      LiteralMeaning(c, i, end);
    } else {
      ConvertedSpells(c, i, end);
      var cp :| Spells(c, i, end, cp);
      LiteralConverts(cp, c, i, end);
      HexScan(c, i);
      if cp >= 0x10000 {
        HexScan(c, i + 6);
      }
      if cp == 0 {
        assert Utf8Encode(0) == [NUL] by { EncodeNul(); }
      } else {
        SpelledCost(cp);
      }
    }
  }

  lemma EncodeNul()
    ensures Utf8Encode(0) == [NUL]
  {
  }

  lemma {:induction false} ReadingCost(c: seq<byte>, i: nat, end: nat)
    requires i <= end < |c| && ScanString(c, i).QuoteAt? && ScanString(c, i).at == end
    requires UnescapeFrom(c, i, end).Unescaped? && forall k :: i <= k < end ==> c[k] >= 32
    ensures |Escape(CString(UnescapeFrom(c, i, end).bytes))| <= end - i
    decreases end - i
  {
    hide UnescapeStep, ScanString, EscapeByte;
    if i < end {
      TurnCost(c, i, end);
      var step := UnescapeStep(c, i, end);
      var rest := UnescapeFrom(c, i + step.consumed, end).bytes;
      if step.output[0] != NUL {
        ReadingCost(c, i + step.consumed, end);
        CStringFront(step.output, rest);
        EscapeConcat(step.output, CString(rest));
      }
    }
  }

  /** Among the texts without control bytes that are read as `s`, whole, none is shorter than the printed one. */
  lemma QuoteIsShortest(text: seq<byte>, s: seq<byte>)
    requires forall k :: 0 <= k < |text| ==> text[k] >= 32
    requires ParseString(text + [NUL], 0) == Parsed(s, |text|)
    ensures |Quote(s)| <= |text|
  {
    hide ScanString, UnescapeFrom, CString;
    var c := text + [NUL];
    ReadingCost(c, 1, ScanString(c, 1).at);
  }
}
