/**
 `\uXXXX` escapes: UTF-16 code units in hexadecimal (section 2.2 of RFC 2781) turned into UTF-8
 (section 3 of RFC 3629).

 Shifts and masks are written as the arithmetic they stand for on unsigned values: `x << 4` as `16 * x`,
 `x >> 6` as `x / 64`, `x & 0x3FF` as `x % 0x400`, and `|` of operands without common bits as `+`.
 */
module Utf {
  import opened Bytes

  const LOWER_U: byte := 0x75

  // ----- hexadecimal -----

  predicate IsHex(b: byte) {
    || 0x30 <= b <= 0x39
    || 0x41 <= b <= 0x46
    || 0x61 <= b <= 0x66
  }

  function HexValue(b: byte): (v: int)
    requires IsHex(b)
    ensures 0 <= v < 16
  {
    if b <= 0x39 then b - 0x30
    else if b <= 0x46 then b - 0x41 + 10
    else b - 0x61 + 10
  }

  ghost predicate HexAt(c: seq<byte>, i: nat) {
    i + 4 <= |c| && IsHex(c[i]) && IsHex(c[i + 1]) && IsHex(c[i + 2]) && IsHex(c[i + 3])
  }

  /** The code unit that four characters spell; 0 when one of them is not a hexadecimal digit. */
  ghost function Hex4(c: seq<byte>, i: nat): (h: nat)
    requires i + 4 <= |c|
    ensures h <= 0xFFFF
  {
    if HexAt(c, i) then
      0x1000 * HexValue(c[i]) + 0x100 * HexValue(c[i + 1]) + 0x10 * HexValue(c[i + 2]) + HexValue(c[i + 3])
    else 0
  }

  method ParseHex4(c: seq<byte>, i: nat) returns (h: nat)
    requires i + 4 <= |c|
    ensures h == Hex4(c, i)
  {
    h := 0;
    var k := 0;
    while k < 4
      invariant 0 <= k <= 4
      invariant forall j :: i <= j < i + k ==> IsHex(c[j])
      invariant k == 0 ==> h == 0
      invariant k == 1 ==> h == 0x10 * HexValue(c[i])
      invariant k == 2 ==> h == 0x100 * HexValue(c[i]) + 0x10 * HexValue(c[i + 1])
      invariant k == 3 ==> h == 0x1000 * HexValue(c[i]) + 0x100 * HexValue(c[i + 1]) + 0x10 * HexValue(c[i + 2])
      invariant k == 4 ==> h == Hex4(c, i)
    {
      var b := c[i + k];
      if 0x30 <= b <= 0x39 {
        h := h + (b - 0x30);
      } else if 0x41 <= b <= 0x46 {
        h := h + (b - 0x41 + 10);
      } else if 0x61 <= b <= 0x66 {
        h := h + (b - 0x61 + 10);
      } else {
        return 0;
      }
      if k < 3 {
        h := 16 * h;
      }
      k := k + 1;
    }
  }

  // ----- code points -----

  predicate IsHighSurrogate(u: int) { 0xD800 <= u <= 0xDBFF }

  predicate IsLowSurrogate(u: int) { 0xDC00 <= u <= 0xDFFF }

  predicate IsScalar(cp: int) { 0 <= cp <= 0x10FFFF && !IsHighSurrogate(cp) && !IsLowSurrogate(cp) }

  function PairCode(high: nat, low: nat): nat {
    0x10000 + 0x400 * (high % 0x400) + low % 0x400
  }

  /** The table in section 3 of RFC 3629. */
  function Utf8Encode(cp: nat): (s: seq<byte>)
    requires cp <= 0x10FFFF
    ensures 1 <= |s| <= 4
  {
    if cp < 0x80 then [cp]
    else if cp < 0x800 then [0xC0 + cp / 0x40, Tail(cp)]
    else if cp < 0x10000 then [0xE0 + cp / 0x1000, Tail(cp / 0x40), Tail(cp)]
    else [0xF0 + cp / 0x40000, Tail(cp / 0x1000), Tail(cp / 0x40), Tail(cp)]
  }

  function Tail(x: nat): byte { 0x80 + x % 0x40 }

  datatype Decoded = NotUtf8 | CodePoint(cp: nat)

  /** A strict decoder for one UTF-8 sequence: no overlong form, no surrogate, nothing above 0x10FFFF. */
  function Utf8Decode(s: seq<byte>): (r: Decoded)
    ensures r.CodePoint? ==> IsScalar(r.cp)
  {
    if |s| == 1 && s[0] < 0x80 then CodePoint(s[0])
    else if |s| == 2 && 0xC0 <= s[0] < 0xE0 && IsTail(s[1]) then
      Checked(0x80, 0x40 * (s[0] - 0xC0) + Low(s[1]))
    else if |s| == 3 && 0xE0 <= s[0] < 0xF0 && IsTail(s[1]) && IsTail(s[2]) then
      Checked(0x800, 0x1000 * (s[0] - 0xE0) + 0x40 * Low(s[1]) + Low(s[2]))
    else if |s| == 4 && 0xF0 <= s[0] < 0xF8 && IsTail(s[1]) && IsTail(s[2]) && IsTail(s[3]) then
      Checked(0x10000, 0x40000 * (s[0] - 0xF0) + 0x1000 * Low(s[1]) + 0x40 * Low(s[2]) + Low(s[3]))
    else NotUtf8
  }

  predicate IsTail(b: byte) { 0x80 <= b < 0xC0 }

  function Low(b: byte): nat
    requires IsTail(b)
  {
    b - 0x80
  }

  function Checked(least: nat, cp: nat): (r: Decoded)
    ensures r.CodePoint? ==> IsScalar(r.cp)
  {
    if least <= cp && IsScalar(cp) then CodePoint(cp) else NotUtf8
  }

  /** Decoding undoes encoding, for every Unicode scalar value. */
  lemma DecodeEncode(cp: nat)
    requires IsScalar(cp)
    ensures Utf8Decode(Utf8Encode(cp)) == CodePoint(cp)
  {
    if 0x800 <= cp < 0x10000 {
      assert cp / 0x1000 == (cp / 0x40) / 0x40;
    } else if 0x10000 <= cp {
      assert cp / 0x1000 == (cp / 0x40) / 0x40;
      assert cp / 0x40000 == (cp / 0x1000) / 0x40;
    }
  }

  // ----- the literal -----

  datatype Literal = Rejected | Converted(utf8: seq<byte>, sequenceLength: nat)

  /** What a `\u` escape at `i` stands for, reading no further than `end`. */
  ghost function Utf16Literal(c: seq<byte>, i: nat, end: nat): (r: Literal)
    requires i <= end <= |c|
    ensures r.Converted? ==> 1 <= |r.utf8| <= 4 && r.sequenceLength in {6, 12} && i + r.sequenceLength <= end
  {
    if end - i < 6 then Rejected
    else
      var first := Hex4(c, i + 2);
      if IsLowSurrogate(first) then Rejected
      else if IsHighSurrogate(first) then
        if end - i < 12 || c[i + 6] != BACKSLASH || c[i + 7] != LOWER_U then Rejected
        else
          var second := Hex4(c, i + 8);
          if !IsLowSurrogate(second) then Rejected
          else Converted(Utf8Encode(PairCode(first, second)), 12)
      else Converted(Utf8Encode(first), 6)
  }

  /**
   Writes the UTF-8 form of the escape at `c[i..]` to `output` from index `at`.
   `sequenceLength` is 0 when the escape is rejected.
   */
  method Utf16LiteralToUtf8(c: seq<byte>, i: nat, end: nat, output: array<byte>, at: nat)
    returns (sequenceLength: nat, next: nat)
    requires i <= end <= |c|
    requires var r := Utf16Literal(c, i, end); r.Converted? ==> at + |r.utf8| <= output.Length
    modifies output
    ensures sequenceLength == 0 <==> Utf16Literal(c, i, end).Rejected?
    ensures sequenceLength == 0 ==> output[..] == old(output[..])
    ensures var r := Utf16Literal(c, i, end);
            r.Converted? ==>
              && sequenceLength == r.sequenceLength
              && next == at + |r.utf8|
              && output[at..next] == r.utf8
              && output[..at] == old(output[..at])
              && output[next..] == old(output[next..])
  {
    hide Hex4, Utf8Encode, Shifted, Trailing, Mark;
    sequenceLength, next := 0, at;
    if end - i < 6 {
      return;
    }
    var codepoint: nat;
    var length: nat;
    var first := ParseHex4(c, i + 2);
    if 0xDC00 <= first <= 0xDFFF {
      return;
    }
    if 0xD800 <= first <= 0xDBFF {
      length := 12;
      if end - (i + 6) < 6 {
        return;
      }
      if c[i + 6] != BACKSLASH || c[i + 7] != LOWER_U {
        return;
      }
      var second := ParseHex4(c, i + 8);
      if second < 0xDC00 || second > 0xDFFF {
        return;
      }
      codepoint := 0x10000 + 0x400 * (first % 0x400) + second % 0x400;
    } else {
      length := 6;
      codepoint := first;
    }

    var utf8Length: nat;
    var firstByteMark := 0;
    if codepoint < 0x80 {
      utf8Length := 1;
    } else if codepoint < 0x800 {
      utf8Length, firstByteMark := 2, 0xC0;
    } else if codepoint < 0x10000 {
      utf8Length, firstByteMark := 3, 0xE0;
    } else if codepoint <= 0x10FFFF {
      utf8Length, firstByteMark := 4, 0xF0;
    } else {
      return;
    }
    EncodedLength(codepoint);
    Layout(codepoint, utf8Length - 1, firstByteMark);
    next := EncodeUtf8(codepoint, utf8Length, firstByteMark, output, at);
    sequenceLength := length;
  }

  /** Trailing bytes first, from the last to the second, then the first byte with its mark. */
  method EncodeUtf8(cp: nat, utf8Length: nat, firstByteMark: nat, output: array<byte>, at: nat) returns (next: nat)
    requires 0 < utf8Length && at + utf8Length <= output.Length
    requires Shifted(cp, utf8Length - 1) + firstByteMark < 256
    requires utf8Length == 1 ==> Shifted(cp, 0) < 0x80 && firstByteMark == 0
    modifies output
    ensures next == at + utf8Length
    ensures output[at..next] == [Shifted(cp, utf8Length - 1) + firstByteMark] + Trailing(cp, utf8Length - 1)
    ensures output[..at] == old(output[..at]) && output[next..] == old(output[next..])
  {
    var codepoint := WriteTrailing(cp, utf8Length - 1, output, at);
    if utf8Length > 1 {
      output[at] := codepoint + firstByteMark;
    } else {
      output[at] := codepoint % 0x80;
    }
    next := at + utf8Length;
  }

  method WriteTrailing(cp: nat, count: nat, output: array<byte>, at: nat) returns (codepoint: nat)
    requires at + 1 + count <= output.Length
    modifies output
    ensures codepoint == Shifted(cp, count)
    ensures output[at + 1..at + 1 + count] == Trailing(cp, count)
    ensures output[..at + 1] == old(output[..at + 1])
    ensures output[at + 1 + count..] == old(output[at + 1 + count..])
  {
    codepoint := cp;
    var position := count;
    while position > 0
      invariant 0 <= position <= count
      invariant codepoint == Shifted(cp, count - position)
      invariant Trailing(codepoint, position) + output[at + position + 1..at + 1 + count] == Trailing(cp, count)
      invariant output[..at + 1] == old(output[..at + 1])
      invariant output[at + 1 + count..] == old(output[at + 1 + count..])
    {
      ghost var written := output[at + position + 1..at + 1 + count];
      output[at + position] := Tail(codepoint);
      assert output[at + position..at + 1 + count] == [Tail(codepoint)] + written;
      codepoint := codepoint / 0x40;
      position := position - 1;
    }
  }

  /** `x` after `n` of the loop's shifts by six. */
  ghost function Shifted(x: nat, n: nat): nat {
    if n == 0 then x else Shifted(x, n - 1) / 0x40
  }

  ghost function Trailing(x: nat, n: nat): seq<byte> {
    if n == 0 then [] else Trailing(x / 0x40, n - 1) + [Tail(x)]
  }

  lemma EncodedLength(cp: nat)
    requires cp <= 0x10FFFF
    ensures |Utf8Encode(cp)| == if cp < 0x80 then 1 else if cp < 0x800 then 2 else if cp < 0x10000 then 3 else 4
    ensures Mark(cp) == if cp < 0x80 then 0 else if cp < 0x800 then 0xC0 else if cp < 0x10000 then 0xE0 else 0xF0
  {
  }

  /** The first byte and the trailing bytes that the loop computes make up the table's row. */
  lemma Layout(cp: nat, n: nat, mark: nat)
    requires cp <= 0x10FFFF && n + 1 == |Utf8Encode(cp)| && mark == Mark(cp)
    ensures Shifted(cp, n) + mark < 256
    ensures Utf8Encode(cp) == [Shifted(cp, n) + mark] + Trailing(cp, n)
    ensures n == 0 ==> Shifted(cp, n) < 0x80 && mark == 0
  {
    assert Shifted(cp, 0) == cp && Trailing(cp, 0) == [];
    if n > 0 {
      assert Shifted(cp, 1) == cp / 0x40;
      TrailingStep(cp, n);
    }
    if n > 1 {
      assert Shifted(cp, 2) == cp / 0x1000 by { assert cp / 0x40 / 0x40 == cp / 0x1000; }
      TrailingStep(cp / 0x40, n - 1);
    }
    if n > 2 {
      assert Shifted(cp, 3) == cp / 0x40000 by { assert cp / 0x1000 / 0x40 == cp / 0x40000; }
      assert cp / 0x40 / 0x40 == cp / 0x1000;
      TrailingStep(cp / 0x1000, n - 2);
    }
  }

  lemma TrailingStep(x: nat, n: nat)
    requires n > 0
    ensures Trailing(x, n) == Trailing(x / 0x40, n - 1) + [Tail(x)]
  {
  }

  ghost function Mark(cp: nat): nat
  {
    if cp < 0x80 then 0 else if cp < 0x800 then 0xC0 else if cp < 0x10000 then 0xE0 else 0xF0
  }

  // ----- every scalar value, and no surrogate -----

  /** A lower-case hexadecimal digit, as `%04x` prints it. */
  function HexDigit(x: int): (b: byte)
    requires 0 <= x < 16
    ensures IsHex(b) && HexValue(b) == x
  {
    if x < 10 then 0x30 + x else 0x61 + x - 10
  }

  /** `\u` and the four digits of `%04x`. */
  function UnitText(u: nat): (t: seq<byte>)
    requires u <= 0xFFFF
    ensures |t| == 6
  {
    [BACKSLASH, LOWER_U,
     HexDigit(u / 0x10 / 0x10 / 0x10), HexDigit(u / 0x10 / 0x10 % 0x10), HexDigit(u / 0x10 % 0x10), HexDigit(u % 0x10)]
  }

  lemma Hex4OfUnit(c: seq<byte>, i: nat, u: nat)
    requires u <= 0xFFFF && Occurs(c, i, UnitText(u))
    ensures c[i] == BACKSLASH && c[i + 1] == LOWER_U && HexAt(c, i + 2) && Hex4(c, i + 2) == u
  {
    var t := UnitText(u);
    forall k | 0 <= k < 6
      ensures c[i + k] == t[k]
    {
      OccursAt(c, i, t, k);
    }
    assert c[i + 0] == BACKSLASH && c[i + 2 + 1] == c[i + 3] && c[i + 2 + 2] == c[i + 4] && c[i + 2 + 3] == c[i + 5];
  }
}
