/** Byte strings, and the decimal text that `%d` prints and that `strconv.Atoi` and `strtod` read back. */
module Bytes {

  /** `unsigned char` */
  type byte = b: int | 0 <= b < 256

  const NUL: byte := 0x00
  const QUOTE: byte := 0x22
  const PLUS: byte := 0x2B
  const COMMA: byte := 0x2C
  const MINUS: byte := 0x2D
  const POINT: byte := 0x2E
  const SLASH: byte := 0x2F
  const COLON: byte := 0x3A
  const LBRACKET: byte := 0x5B
  const BACKSLASH: byte := 0x5C
  const RBRACKET: byte := 0x5D
  const UNDERSCORE: byte := 0x5F
  const LBRACE: byte := 0x7B
  const RBRACE: byte := 0x7D

  const TRUE_TEXT: seq<byte> := [0x74, 0x72, 0x75, 0x65]
  const FALSE_TEXT: seq<byte> := [0x66, 0x61, 0x6C, 0x73, 0x65]

  /** The greatest C `int`. */
  const INT_MAX: nat := 0x7FFF_FFFF

  /** The bytes `t` stand in `c` at offset `o`. */
  ghost predicate Occurs(c: seq<byte>, o: nat, t: seq<byte>) {
    o + |t| <= |c| && c[o..o + |t|] == t
  }

  lemma OccursSplit(c: seq<byte>, o: nat, a: seq<byte>, b: seq<byte>)
    ensures Occurs(c, o, a + b) <==> Occurs(c, o, a) && Occurs(c, o + |a|, b)
  {
    if Occurs(c, o, a + b) {
      assert c[o..o + |a|] == (a + b)[..|a|] == a;
      assert c[o + |a|..o + |a| + |b|] == (a + b)[|a|..] == b;
    }
    if Occurs(c, o, a) && Occurs(c, o + |a|, b) {
      assert c[o..o + |a + b|] == c[o..o + |a|] + c[o + |a|..o + |a| + |b|];
    }
  }

  lemma OccursThree(c: seq<byte>, o: nat, x: seq<byte>, y: seq<byte>, z: seq<byte>)
    requires Occurs(c, o, x + y + z)
    ensures Occurs(c, o, x) && Occurs(c, o + |x|, y) && Occurs(c, o + |x| + |y|, z)
  {
    OccursSplit(c, o, x + y, z);
    OccursSplit(c, o, x, y);
  }

  lemma OccursFour(c: seq<byte>, o: nat, w: seq<byte>, x: seq<byte>, y: seq<byte>, z: seq<byte>)
    requires Occurs(c, o, w + x + y + z)
    ensures Occurs(c, o, w) && Occurs(c, o + |w|, x) && Occurs(c, o + |w| + |x|, y + z)
  {
    assert w + x + y + z == w + x + (y + z);
    OccursThree(c, o, w, x, y + z);
  }

  lemma OccursFive(c: seq<byte>, o: nat, v: seq<byte>, w: seq<byte>, x: seq<byte>, y: seq<byte>, z: seq<byte>)
    requires Occurs(c, o, v + w + x + y + z)
    ensures Occurs(c, o, v) && Occurs(c, o + |v|, w) && Occurs(c, o + |v| + |w|, x)
    ensures Occurs(c, o + |v| + |w| + |x|, y + z)
  {
    assert v + w + x + y + z == v + w + x + (y + z);
    OccursFour(c, o, v, w, x, y + z);
    OccursSplit(c, o + |v| + |w|, x, y + z);
  }

  lemma OccursAt(c: seq<byte>, o: nat, t: seq<byte>, k: nat)
    requires Occurs(c, o, t) && k < |t|
    ensures o + k < |c| && c[o + k] == t[k]
  {
    assert c[o..o + |t|][k] == c[o + k];
  }

  predicate IsDigit(b: byte) { 0x30 <= b <= 0x39 }

  predicate AllDigits(s: seq<byte>) { forall i :: 0 <= i < |s| ==> IsDigit(s[i]) }

  function DigitByte(d: int): (b: byte)
    requires 0 <= d < 10
    ensures IsDigit(b) && DigitValue(b) == d
  {
    match d
    case 0 => 0x30
    case 1 => 0x31
    case 2 => 0x32
    case 3 => 0x33
    case 4 => 0x34
    case 5 => 0x35
    case 6 => 0x36
    case 7 => 0x37
    case 8 => 0x38
    case _ => 0x39
  }

  function DigitValue(b: byte): (d: int)
    requires IsDigit(b)
    ensures 0 <= d < 10
  {
    if b == 0x30 then 0
    else if b == 0x31 then 1
    else if b == 0x32 then 2
    else if b == 0x33 then 3
    else if b == 0x34 then 4
    else if b == 0x35 then 5
    else if b == 0x36 then 6
    else if b == 0x37 then 7
    else if b == 0x38 then 8
    else 9
  }

  function DigitsValue(s: seq<byte>): nat
    requires AllDigits(s)
  {
    if s == [] then 0 else 10 * DigitsValue(s[..|s| - 1]) + DigitValue(s[|s| - 1])
  }

  function NatText(n: nat): (t: seq<byte>)
    ensures AllDigits(t) && |t| > 0
  {
    if n < 10 then [DigitByte(n)] else NatText(n / 10) + [DigitByte(n % 10)]
  }

  /** What `%d` prints. */
  function IntText(n: int): (t: seq<byte>)
    ensures |t| > 0 && (n >= 0 ==> IsDigit(t[0])) && (n < 0 ==> t[0] == MINUS)
  {
    if n < 0 then [MINUS] + NatText(-n) else NatText(n)
  }

  lemma {:induction false} NatTextValue(n: nat)
    ensures DigitsValue(NatText(n)) == n
  {
    if n < 10 {
      assert NatText(n)[..0] == [];
    } else {
      NatTextValue(n / 10);
      assert NatText(n)[..|NatText(n)| - 1] == NatText(n / 10);
    }
  }

  function Pow10(k: nat): nat { if k == 0 then 1 else 10 * Pow10(k - 1) }

  lemma {:induction false} NatTextLength(n: nat, k: nat)
    requires k > 0 && n < Pow10(k)
    ensures |NatText(n)| <= k
  {
    if n >= 10 {
      NatTextLength(n / 10, k - 1);
    }
  }

  /** A 32-bit integer prints in at most eleven bytes. */
  lemma IntTextLength(n: int)
    requires -0x8000_0000 <= n <= 0x7FFF_FFFF
    ensures |IntText(n)| <= 11
  {
    assert Pow10(5) == 100000;
    assert Pow10(10) == 100000 * 100000;
    NatTextLength(if n < 0 then -n else n, 10);
  }

  /** The end of the run of digits that starts at `i`. */
  function DigitRun(s: seq<byte>, i: nat): (e: nat)
    requires i <= |s|
    ensures i <= e <= |s| && AllDigits(s[i..e])
    ensures e < |s| ==> !IsDigit(s[e])
    decreases |s| - i
  {
    if i < |s| && IsDigit(s[i]) then
      var e := DigitRun(s, i + 1);
      assert s[i..e] == [s[i]] + s[i + 1..e];
      e
    else i
  }

  lemma {:induction false} DigitRunIs(s: seq<byte>, i: nat, e: nat)
    requires i <= e <= |s| && AllDigits(s[i..e])
    requires e < |s| ==> !IsDigit(s[e])
    ensures DigitRun(s, i) == e
    decreases e - i
  {
    if i < e {
      assert IsDigit(s[i..e][0]);
      assert s[i + 1..e] == s[i..e][1..];
      DigitRunIs(s, i + 1, e);
    }
  }
}
