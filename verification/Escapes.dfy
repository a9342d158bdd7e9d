/** What a `\u` escape in a string stands for: the UTF-16 code units it spells and the scalar value they mean. */
module Escapes {
  import opened Bytes
  import opened Utf

  /** The UTF-16 form of a scalar value (section 2.1 of RFC 2781): one unit, or a surrogate pair. */
  function Utf16Encode(cp: nat): (units: seq<nat>)
    requires IsScalar(cp)
    ensures 1 <= |units| <= 2
  {
    if cp < 0x10000 then [cp] else [0xD800 + (cp - 0x10000) / 0x400, 0xDC00 + (cp - 0x10000) % 0x400]
  }

  lemma Surrogates(cp: nat)
    requires 0x10000 <= cp <= 0x10FFFF
    ensures
      var units := Utf16Encode(cp);
      IsHighSurrogate(units[0]) && IsLowSurrogate(units[1]) && PairCode(units[0], units[1]) == cp
  {
    var u := cp - 0x10000;
    assert (0xD800 + u / 0x400) % 0x400 == u / 0x400;
    assert (0xDC00 + u % 0x400) % 0x400 == u % 0x400;
  }

  lemma PairEncodes(high: nat, low: nat)
    requires IsHighSurrogate(high) && IsLowSurrogate(low)
    ensures IsScalar(PairCode(high, low)) && Utf16Encode(PairCode(high, low)) == [high, low]
  {
    var u := PairCode(high, low) - 0x10000;
    assert u / 0x400 == high % 0x400 == high - 0xD800;
    assert u % 0x400 == low % 0x400 == low - 0xDC00;
  }

  /** Four hexadecimal digits, in either case, spell the unit of the escape at `i`. */
  ghost predicate UnitAt(c: seq<byte>, i: nat, end: nat, u: nat) {
    i + 6 <= end <= |c| && HexAt(c, i + 2) && Hex4(c, i + 2) == u
  }

  /** The escape at `i`, with the one behind it if it takes two, spells the scalar value in UTF-16. */
  ghost predicate Spells(c: seq<byte>, i: nat, end: nat, cp: nat) {
    && IsScalar(cp)
    && var units := Utf16Encode(cp);
       && UnitAt(c, i, end, units[0])
       && (|units| == 2 ==> UnitAt(c, i + 6, end, units[1]) && c[i + 6] == BACKSLASH && c[i + 7] == LOWER_U)
  }

  /** The escape of every scalar value is converted whole, to its UTF-8 form, from which it can be decoded. */
  lemma LiteralConverts(cp: nat, c: seq<byte>, i: nat, end: nat)
    requires i <= end <= |c| && Spells(c, i, end, cp)
    ensures Utf16Literal(c, i, end) == Converted(Utf8Encode(cp), 6 * |Utf16Encode(cp)|)
    ensures Utf8Decode(Utf8Encode(cp)) == CodePoint(cp)
  {
    hide Utf8Encode, Utf8Decode, Hex4, HexAt;
    DecodeEncode(cp);
    if cp >= 0x10000 {
      Surrogates(cp);
    }
  }

  /** What an escape that is converted spells, if its own digits are valid. */
  lemma ConvertedSpells(c: seq<byte>, i: nat, end: nat)
    requires i <= end <= |c| && Utf16Literal(c, i, end).Converted? && HexAt(c, i + 2)
    ensures exists cp :: Spells(c, i, end, cp)
  {
    hide Utf8Encode, PairCode, Utf16Encode;
    var first := Hex4(c, i + 2);
    if IsHighSurrogate(first) {
      var second := Hex4(c, i + 8);
      PairEncodes(first, second);
      assert Spells(c, i, end, PairCode(first, second));
    } else {
      assert Utf16Encode(first) == [first] by { OneUnit(first); }
      assert Spells(c, i, end, first);
    }
  }

  lemma OneUnit(u: nat)
    requires IsScalar(u) && u < 0x10000
    ensures Utf16Encode(u) == [u]
  {
  }

  /**
   An escape is converted if and only if it spells some scalar value in UTF-16, or its own four digits are not all
   hexadecimal, in which case it stands for NUL: unpaired surrogates and broken pairs are refused, and nothing else is.
   */
  lemma LiteralMeaning(c: seq<byte>, i: nat, end: nat)
    requires i <= end <= |c|
    ensures Utf16Literal(c, i, end).Converted? <==>
            (exists cp :: Spells(c, i, end, cp)) || (i + 6 <= end && !HexAt(c, i + 2))
    ensures i + 6 <= end && !HexAt(c, i + 2) ==> Utf16Literal(c, i, end) == Converted([NUL], 6)
  {
    hide Spells;
    if cp :| Spells(c, i, end, cp) {
      LiteralConverts(cp, c, i, end);
    }
    if Utf16Literal(c, i, end).Converted? && HexAt(c, i + 2) {
      ConvertedSpells(c, i, end);
    }
  }

  const G_CLEF: nat := 0x1D11E

  lemma ClefForms()
    ensures IsScalar(G_CLEF) && Utf16Encode(G_CLEF) == [0xD834, 0xDD1E]
    ensures Utf8Encode(G_CLEF) == [0xF0, 0x9D, 0x84, 0x9E]
  {
  }

  lemma UpperCaseUnits(c: seq<byte>)
    requires c == [0x5C, 0x75, 0x44, 0x38, 0x33, 0x34, 0x5C, 0x75, 0x44, 0x44, 0x31, 0x45]
    ensures UnitAt(c, 0, 12, 0xD834) && UnitAt(c, 6, 12, 0xDD1E)
  {
    assert HexAt(c, 2) && HexAt(c, 8);
  }

  /** The G clef of section 7 of RFC 8259, in upper case as it stands there. */
  lemma ClefConverts(c: seq<byte>)
    requires c == [0x5C, 0x75, 0x44, 0x38, 0x33, 0x34, 0x5C, 0x75, 0x44, 0x44, 0x31, 0x45]
    ensures Utf16Literal(c, 0, 12) == Converted([0xF0, 0x9D, 0x84, 0x9E], 12)
  {
    hide Utf8Encode, Utf16Encode, UnitAt, Utf16Literal, IsScalar;
    ClefForms();
    UpperCaseUnits(c);
    LiteralConverts(G_CLEF, c, 0, 12);
  }

  /** Whatever an escape is converted to is the UTF-8 form of one scalar value. */
  lemma LiteralDecodes(c: seq<byte>, i: nat, end: nat)
    requires i <= end <= |c| && Utf16Literal(c, i, end).Converted?
    ensures Utf8Decode(Utf16Literal(c, i, end).utf8).CodePoint?
  {
    var first := Hex4(c, i + 2);
    DecodeEncode(if IsHighSurrogate(first) then PairCode(first, Hex4(c, i + 8)) else first);
  }
}
