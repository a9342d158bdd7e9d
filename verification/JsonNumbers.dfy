/** What decimal numbers are read as, and that integers are printed in their one plain form. */
module JsonNumbers {
  import opened Annotation
  import opened Bytes
  import opened JsonGrammar
  import opened JsonRoundTrip
  import opened Options
  import JsonText

  // ----- reading -----

  /** A decimal number: an optional minus, digits with an optional point among them, and an optional exponent. */
  datatype Decimal = Decimal(minus: bool, whole: seq<byte>, point: bool, fraction: seq<byte>, exponent: Exponent)

  /** The letter is "e" or "E"; the sign is "+", "-" or nothing. */
  datatype Exponent = NoExponent | Exponent(letter: byte, sign: seq<byte>, digits: seq<byte>)

  ghost predicate Valid(d: Decimal) {
    && AllDigits(d.whole) && AllDigits(d.fraction) && (!d.point ==> d.fraction == [])
    && (d.whole != [] || d.fraction != [])
    && (d.exponent.Exponent? ==>
          && (d.exponent.letter == 0x65 || d.exponent.letter == 0x45)
          && (d.exponent.sign == [] || d.exponent.sign == [0x2B] || d.exponent.sign == [0x2D])
          && AllDigits(d.exponent.digits) && d.exponent.digits != [])
  }

  function Mantissa(d: Decimal): seq<byte> {
    (if d.minus then [0x2D] else []) + d.whole + (if d.point then [0x2E] else []) + d.fraction
  }

  function Tail(e: Exponent): seq<byte> { if e.NoExponent? then [] else [e.letter] + e.sign + e.digits }

  function Written(d: Decimal): seq<byte> { Mantissa(d) + Tail(d.exponent) }

  ghost function Power(d: Decimal): int
    requires Valid(d)
  {
    var e: int := if d.exponent.NoExponent? then 0 else DigitsValue(d.exponent.digits);
    (if d.exponent.Exponent? && d.exponent.sign == [0x2D] then -e else e) - |d.fraction|
  }

  /** All its digits as an integer, with its sign. */
  ghost function Signed(d: Decimal): int
    requires Valid(d)
  {
    assert AllDigits(d.whole + d.fraction);
    var magnitude: int := DigitsValue(d.whole + d.fraction);
    if d.minus then -magnitude else magnitude
  }

  /** The number that is meant: that integer times a power of ten. */
  ghost function Meant(d: Decimal): real
    requires Valid(d)
  {
    TimesPower(Signed(d), Power(d))
  }

  /** `m` times ten to the power `e`. */
  function TimesPower(m: int, e: int): real
    decreases if e < 0 then -e else e
  {
    if e == 0 then m as real
    else if e > 0 then 10.0 * TimesPower(m, e - 1)
    else TimesPower(m, e + 1) / 10.0
  }

  lemma {:induction false} ScaledIsTimesPower(m: int, e: int)
    ensures Scaled(m, e) == TimesPower(m, e)
    decreases if e < 0 then -e else e
  {
    if e > 0 {
      ScaledIsTimesPower(m, e - 1);
      ScaledUp(m, e);
    } else if e < 0 {
      ScaledIsTimesPower(m, e + 1);
      ScaledDown(m, e);
    } else {
      ScaledByOne(m);
    }
  }

  lemma ScaledUp(m: int, e: int)
    requires e > 0
    ensures Scaled(m, e) == 10.0 * Scaled(m, e - 1)
  {
    assert Pow10(e) as real == 10.0 * Pow10(e - 1) as real;
  }

  lemma ScaledDown(m: int, e: int)
    requires e < 0
    ensures Scaled(m, e) == Scaled(m, e + 1) / 10.0
  {
    Pow10Positive(-e - 1);
    var p := Pow10(-e - 1) as real;
    assert Pow10(-e) as real == 10.0 * p;
    if e == -1 {
      ScaledByOne(m);
      assert Pow10(0) == 1;
    } else {
      DividedByTen(m as real, p);
    }
  }

  lemma DividedByTen(x: real, p: real)
    requires p != 0.0
    ensures x / (10.0 * p) == (x / p) / 10.0
  {
    var q := x / p;
    assert q * p == x;
    assert (q / 10.0) * (10.0 * p) == x;
  }

  /** The run of digits that stands at `i` in front of something else. */
  lemma RunThere(t: seq<byte>, i: nat, digits: seq<byte>)
    requires i + |digits| <= |t| && t[i..i + |digits|] == digits && AllDigits(digits)
    requires i + |digits| < |t| ==> !IsDigit(t[i + |digits|])
    ensures DigitRun(t, i) == i + |digits|
  {
    DigitRunIs(t, i, i + |digits|);
  }

  /** Where the parts of a written number stand. */
  lemma PartsThere(d: Decimal)
    requires Valid(d)
    ensures
      var t, sign := Written(d), if d.minus then 1 else 0;
      var whole := sign + |d.whole|;
      var fraction := if d.point then whole + 1 + |d.fraction| else whole;
      && fraction <= |t| && t[sign..whole] == d.whole && (d.minus ==> t[0] == 0x2D)
      && (!d.minus ==> if d.whole != [] then IsDigit(t[0]) else t[0] == 0x2E)
      && (if d.point then t[whole] == 0x2E && t[whole + 1..fraction] == d.fraction else true)
      && |t| == fraction + |Tail(d.exponent)| && t[fraction..] == Tail(d.exponent)
  {
    var t, sign := Written(d), if d.minus then 1 else 0;
    var whole := sign + |d.whole|;
    var fraction := if d.point then whole + 1 + |d.fraction| else whole;
    assert |Mantissa(d)| == fraction && t[..fraction] == Mantissa(d);
    assert t[sign..whole] == Mantissa(d)[sign..whole] == d.whole;
    if d.point {
      assert t[whole] == Mantissa(d)[whole];
      assert t[whole + 1..fraction] == Mantissa(d)[whole + 1..fraction] == d.fraction;
    }
    assert t[0] == Mantissa(d)[0];
  }

  /** Where the digits before the exponent end. */
  ghost function Front(d: Decimal): nat {
    (if d.minus then 1 else 0) + |d.whole| + (if d.point then 1 + |d.fraction| else 0)
  }

  /** The digits before the exponent end where they should. */
  lemma MantissaRuns(d: Decimal)
    requires Valid(d)
    ensures
      var t, sign := Written(d), if d.minus then 1 else 0;
      var whole := sign + |d.whole|;
      && Front(d) <= |t| && DigitRun(t, sign) == whole && (d.point ==> DigitRun(t, whole + 1) == Front(d))
      && (Front(d) < |t| <==> d.exponent.Exponent?)
      && (whole < |t| && t[whole] == 0x2E <==> d.point)
  {
    hide DigitRun, Written;
    PartsThere(d);
    var t, sign := Written(d), if d.minus then 1 else 0;
    var whole := sign + |d.whole|;
    assert Front(d) < |t| ==> t[Front(d)] == t[Front(d)..][0];
    RunThere(t, sign, d.whole);
    if d.point {
      RunThere(t, whole + 1, d.fraction);
    }
  }

  /** The exponent is where it should be and ends with the text. */
  lemma ExponentRuns(d: Decimal)
    requires Valid(d) && d.exponent.Exponent?
    ensures
      var t, f, e := Written(d), Front(d), d.exponent;
      var digitsAt := f + 1 + |e.sign|;
      && digitsAt < |t| && t[f] == e.letter && t[digitsAt..] == t[digitsAt..|t|] == e.digits
      && DigitRun(t, digitsAt) == |t|
      && (if e.sign == [] then IsDigit(t[f + 1]) else t[f + 1] == e.sign[0])
  {
    hide DigitRun, Written;
    PartsThere(d);
    var t, f, tail := Written(d), Front(d), Tail(d.exponent);
    var digitsAt := f + 1 + |d.exponent.sign|;
    assert t[f] == t[f..][0] == tail[0];
    assert t[f + 1] == t[f..][1] == tail[1];
    assert t[digitsAt..] == t[f..][1 + |d.exponent.sign|..] == tail[1 + |d.exponent.sign|..] == d.exponent.digits;
    assert t[digitsAt..|t|] == t[digitsAt..];
    RunThere(t, digitsAt, d.exponent.digits);
  }

  /** The digits before and after the point, together. */
  lemma DigitsThere(d: Decimal)
    requires Valid(d)
    ensures
      var t, sign := Written(d), if d.minus then 1 else 0;
      var whole := sign + |d.whole|;
      && Front(d) <= |t|
      && t[sign..whole] + (if |d.fraction| > 0 then t[whole + 1..Front(d)] else []) == d.whole + d.fraction
      && (sign == 1 <==> t[0] == 0x2D) && (sign == 0 ==> t[0] != 0x2B)
  {
    hide Written;
    PartsThere(d);
    assert d.whole + [] == d.whole;
  }

  /** The conversion reads a written number whole, as what it means. */
  lemma DecimalConverts(d: Decimal)
    requires Valid(d)
    ensures Strtod(Written(d)) == Conversion(Meant(d), |Written(d)|)
  {
    hide Valid, Strtod, Meant, Written;
    if d.exponent.NoExponent? {
      PlainConverts(d);
    } else {
      ScaledConverts(d);
    }
  }

  lemma PlainConverts(d: Decimal)
    requires Valid(d) && d.exponent.NoExponent?
    ensures Strtod(Written(d)) == Conversion(Meant(d), |Written(d)|)
  {
    hide DigitRun, DigitsValue, Scaled, TimesPower, Written;
    MantissaRuns(d);
    DigitsThere(d);
    ScaledIsTimesPower(Signed(d), Power(d));
  }

  lemma ScaledConverts(d: Decimal)
    requires Valid(d) && d.exponent.Exponent?
    ensures Strtod(Written(d)) == Conversion(Meant(d), |Written(d)|)
  {
    hide DigitRun, DigitsValue, Scaled, TimesPower, Written, AllDigits, Mantissa, Tail;
    MantissaRuns(d);
    DigitsThere(d);
    ExponentRuns(d);
    ScaledIsTimesPower(Signed(d), Power(d));
  }

  // ----- the longest number -----

  /** A run of digits goes at least as far as digits are seen. */
  lemma RunAtLeast(t: seq<byte>, i: nat, digits: seq<byte>)
    requires i + |digits| <= |t| && t[i..i + |digits|] == digits && AllDigits(digits)
    ensures DigitRun(t, i) >= i + |digits|
  {
    forall k | i <= k < i + |digits|
      ensures IsDigit(t[k])
    {
      assert t[k] == t[i..i + |digits|][k - i];
    }
  }

  /** Where the parts of a written number stand in a text that it starts. */
  lemma PartsInside(d: Decimal, t: seq<byte>)
    requires Valid(d) && Written(d) <= t
    ensures
      var sign := if d.minus then 1 else 0;
      var whole := sign + |d.whole|;
      && Front(d) <= |Written(d)| <= |t| && t[sign..whole] == d.whole
      && (d.minus ==> t[0] == 0x2D) && (!d.minus ==> t[0] != 0x2D && t[0] != 0x2B)
      && (d.point ==> t[whole] == 0x2E && t[whole + 1..Front(d)] == d.fraction)
      && |Written(d)| == Front(d) + |Tail(d.exponent)| && t[Front(d)..|Written(d)|] == Tail(d.exponent)
  {
    hide Written;
    PartsThere(d);
    var w := Written(d);
    assert w == t[..|w|];
    assert w[Front(d)..] == t[Front(d)..|w|];
  }

  lemma TailParts(e: Exponent, part: seq<byte>)
    requires e.Exponent? && part == Tail(e) && e.digits != []
    ensures part[0] == e.letter && |part| == 1 + |e.sign| + |e.digits| && part[1 + |e.sign|..] == e.digits
    ensures if e.sign == [] then part[1] == e.digits[0] else part[1] == e.sign[0]
  {
    assert part == [e.letter] + (e.sign + e.digits);
  }

  lemma TailInside(e: Exponent, t: seq<byte>, f: nat, n: nat)
    requires e.Exponent? && f <= n <= |t| && t[f..n] == Tail(e) && e.digits != []
    ensures
      var digitsAt := f + 1 + |e.sign|;
      digitsAt < n == digitsAt + |e.digits| && t[f] == e.letter && t[digitsAt..n] == e.digits &&
      if e.sign == [] then t[f + 1] == e.digits[0] else t[f + 1] == e.sign[0]
  {
    hide Tail;
    var part := t[f..n];
    TailParts(e, part);
    assert t[f] == part[0] && t[f + 1] == part[1];
    assert t[f + 1 + |e.sign|..n] == part[1 + |e.sign|..];
  }

  /** The digits before an exponent end there. */
  lemma MantissaInside(d: Decimal, t: seq<byte>)
    requires Valid(d) && Written(d) <= t && d.exponent.Exponent?
    ensures
      var sign := if d.minus then 1 else 0;
      var whole := sign + |d.whole|;
      && Front(d) < |t| && t[Front(d)] == d.exponent.letter
      && DigitRun(t, sign) == whole && (d.point ==> t[whole] == 0x2E && DigitRun(t, whole + 1) == Front(d))
  {
    hide DigitRun, Written, Tail, Mantissa;
    PartsInside(d, t);
    var f, n := Front(d), |Written(d)|;
    TailInside(d.exponent, t, f, n);
    var sign := if d.minus then 1 else 0;
    RunThere(t, sign, d.whole);
    if d.point {
      RunThere(t, sign + |d.whole| + 1, d.fraction);
    }
  }

  /** No number that starts the text is longer than what is converted. */
  lemma NoneIsLonger(d: Decimal, t: seq<byte>)
    requires Valid(d) && Written(d) <= t
    ensures |Written(d)| <= Strtod(t).length
  {
    hide Valid, Strtod, Written;
    if d.exponent.Exponent? {
      ScaledNotLonger(d, t);
    } else {
      PlainNotLonger(d, t);
    }
  }

  lemma PlainNotLonger(d: Decimal, t: seq<byte>)
    requires Valid(d) && Written(d) <= t && d.exponent.NoExponent?
    ensures |Written(d)| <= Strtod(t).length
  {
    hide DigitRun, DigitsValue, Scaled, Written, Mantissa;
    PartsInside(d, t);
    var sign := if d.minus then 1 else 0;
    RunAtLeast(t, sign, d.whole);
    if d.point {
      RunThere(t, sign, d.whole);
      RunAtLeast(t, sign + |d.whole| + 1, d.fraction);
    }
  }

  /** The conversion takes an exponent that has digits. */
  lemma ExponentTaken(t: seq<byte>, whole: nat, fraction: nat, digitsAt: nat, digits: seq<byte>)
    requires t != [] && t[0] != 0x2B && AllDigits(digits) && digits != []
    requires whole == DigitRun(t, if t[0] == 0x2D then 1 else 0)
    requires fraction == if whole < |t| && t[whole] == 0x2E then DigitRun(t, whole + 1) else whole
    requires digits == t[if t[0] == 0x2D then 1 else 0..whole] +
                       if fraction > whole + 1 then t[whole + 1..fraction] else []
    requires fraction + 1 < |t| && (t[fraction] == 0x65 || t[fraction] == 0x45)
    requires digitsAt == if t[fraction + 1] == 0x2B || t[fraction + 1] == 0x2D then fraction + 2 else fraction + 1
    requires DigitRun(t, digitsAt) > digitsAt
    ensures
      var magnitude: int, end := DigitsValue(digits), DigitRun(t, digitsAt);
      var exponent: int := DigitsValue(t[digitsAt..end]);
      Strtod(t) == Conversion(Scaled(if t[0] == 0x2D then -magnitude else magnitude,
                                     (if t[digitsAt - 1] == 0x2D then -exponent else exponent) -
                                     if fraction > whole then fraction - whole - 1 else 0), end)
  {
    hide DigitRun, DigitsValue, Scaled;
  }

  lemma ScaledNotLonger(d: Decimal, t: seq<byte>)
    requires Valid(d) && Written(d) <= t && d.exponent.Exponent?
    ensures |Written(d)| <= Strtod(t).length
  {
    hide DigitRun, Strtod, Written, Mantissa, Tail;
    PartsInside(d, t);
    MantissaInside(d, t);
    TailInside(d.exponent, t, Front(d), |Written(d)|);
    var digitsAt := Front(d) + 1 + |d.exponent.sign|;
    RunAtLeast(t, digitsAt, d.exponent.digits);
    assert d.whole + [] == d.whole;
    ExponentTaken(t, (if d.minus then 1 else 0) + |d.whole|, Front(d), digitsAt, d.whole + d.fraction);
  }

  /** The parts of the longest number that starts the text, without its exponent. */
  ghost function PlainPart(t: seq<byte>): (d: Decimal)
    requires t != [] && t[0] != 0x2B
    ensures Front(d) <= |t| && (d.minus <==> t[0] == 0x2D)
  {
    var sign := if t[0] == 0x2D then 1 else 0;
    var whole := DigitRun(t, sign);
    var point := whole < |t| && t[whole] == 0x2E;
    var fraction := if point then DigitRun(t, whole + 1) else whole;
    Decimal(sign == 1, t[sign..whole], point, if point then t[whole + 1..fraction] else [], NoExponent)
  }

  lemma PlainPartIsThere(t: seq<byte>)
    requires t != [] && t[0] != 0x2B
    ensures
      var d := PlainPart(t);
      Mantissa(d) == t[..Front(d)] && AllDigits(d.whole) && AllDigits(d.fraction) && (!d.point ==> d.fraction == [])
  {
    hide DigitRun;
    var d := PlainPart(t);
    var whole := Front(d.(point := false));
    assert t[..whole] == (if d.minus then [0x2D] else []) + d.whole;
    assert d.point ==> t[..Front(d)] == t[..whole] + [0x2E] + d.fraction;
  }

  /** The exponent that follows at `f`, if there is one. */
  ghost function ExponentAt(t: seq<byte>, f: nat): (e: Exponent)
    requires f <= |t|
    ensures e.Exponent? ==>
              && (e.letter == 0x65 || e.letter == 0x45)
              && (e.sign == [] || e.sign == [0x2B] || e.sign == [0x2D]) && AllDigits(e.digits) && e.digits != []
    ensures f + |Tail(e)| <= |t| && Tail(e) == t[f..f + |Tail(e)|]
  {
    if f + 1 < |t| && (t[f] == 0x65 || t[f] == 0x45) then
      var digitsAt := if t[f + 1] == 0x2B || t[f + 1] == 0x2D then f + 2 else f + 1;
      var end := DigitRun(t, digitsAt);
      assert t[f..end] == [t[f]] + t[f + 1..digitsAt] + t[digitsAt..end];
      assert digitsAt == f + 2 ==> t[f + 1..digitsAt] == [t[f + 1]];
      if end > digitsAt then Exponent(t[f], t[f + 1..digitsAt], t[digitsAt..end]) else NoExponent
    else NoExponent
  }

  /** The longest number that starts the text. */
  ghost function Longest(t: seq<byte>): (d: Decimal)
    requires t != [] && t[0] != 0x2B
    ensures Front(d) <= |t| && d.exponent == ExponentAt(t, Front(d)) && (d.minus <==> t[0] == 0x2D)
  {
    hide PlainPart, ExponentAt;
    var plain := PlainPart(t);
    plain.(exponent := ExponentAt(t, Front(plain)))
  }

  lemma LongestIsThere(t: seq<byte>)
    requires t != [] && t[0] != 0x2B
    ensures Written(Longest(t)) <= t
  {
    hide PlainPart, ExponentAt, Tail;
    var plain := PlainPart(t);
    var e, f := ExponentAt(t, Front(plain)), Front(plain);
    PlainPartIsThere(t);
    assert Mantissa(Longest(t)) == Mantissa(plain);
    assert t[..f + |Tail(e)|] == t[..f] + t[f..f + |Tail(e)|];
  }

  /** What is converted is a number, and it is converted to what the number means. */
  lemma ConvertsANumber(t: seq<byte>)
    requires t != [] && t[0] != 0x2B && Strtod(t).length > 0
    ensures
      var d := Longest(t);
      Valid(d) && Written(d) == t[..Strtod(t).length] && Strtod(t).number == Meant(d)
  {
    hide DigitRun, DigitsValue, Scaled, TimesPower, Written, AllDigits, Mantissa, Tail;
    var d := Longest(t);
    LongestIsThere(t);
    LongestConverts(t);
    DecimalConverts(d);
  }

  /** Where its parts are, in terms of runs of digits. */
  lemma LongestParts(t: seq<byte>)
    requires t != [] && t[0] != 0x2B
    ensures
      var d, sign := Longest(t), if t[0] == 0x2D then 1 else 0;
      var whole := DigitRun(t, sign);
      var fraction := if whole < |t| && t[whole] == 0x2E then DigitRun(t, whole + 1) else whole;
      && Front(d) == fraction && |d.whole| == whole - sign && (d.point <==> fraction > whole)
      && (d.point ==> |d.fraction| == fraction - whole - 1)
      && d.whole + d.fraction == t[sign..whole] + if d.fraction != [] then t[whole + 1..fraction] else []
  {
    hide DigitRun, ExponentAt;
  }

  lemma LongestConverts(t: seq<byte>)
    requires t != [] && t[0] != 0x2B && Strtod(t).length > 0
    ensures Valid(Longest(t)) && Strtod(t) == Conversion(Meant(Longest(t)), |Written(Longest(t))|)
  {
    hide Strtod, Longest, Written, ExponentAt, Tail, Scaled, TimesPower;
    LongestIsValid(t);
    var d := Longest(t);
    if d.exponent.NoExponent? {
      LongestPlain(t);
    } else {
      LongestScaled(t);
    }
    ScaledIsTimesPower(Signed(d), Power(d));
  }

  lemma LongestIsValid(t: seq<byte>)
    requires t != [] && t[0] != 0x2B && Strtod(t).length > 0
    ensures Valid(Longest(t))
  {
    hide DigitRun, DigitsValue, Scaled, Written, Tail, PlainPart, ExponentAt;
    PlainPartIsThere(t);
    LongestParts(t);
  }

  lemma WrittenLength(d: Decimal)
    requires !d.point ==> d.fraction == []
    ensures |Written(d)| == Front(d) + |Tail(d.exponent)|
  {
  }

  /** The exponent in terms of a run of digits. */
  lemma ExponentParts(t: seq<byte>, f: nat)
    requires f <= |t| && ExponentAt(t, f).Exponent?
    ensures
      var e, signed := ExponentAt(t, f), f + 1 < |t| && (t[f + 1] == 0x2B || t[f + 1] == 0x2D);
      var digitsAt := if signed then f + 2 else f + 1;
      && f + 1 < |t| && (t[f] == 0x65 || t[f] == 0x45) && DigitRun(t, digitsAt) > digitsAt
      && (e.sign == [0x2D] <==> t[digitsAt - 1] == 0x2D) && e.digits == t[digitsAt..DigitRun(t, digitsAt)]
      && f + |Tail(e)| == DigitRun(t, digitsAt) && digitsAt == f + 1 + |e.sign|
  {
    hide DigitRun;
    var e := ExponentAt(t, f);
    var signed := t[f + 1] == 0x2B || t[f + 1] == 0x2D;
    var digitsAt := if signed then f + 2 else f + 1;
    assert if signed then e.sign == [t[f + 1]] else e.sign == [];
    assert f + |Tail(e)| == DigitRun(t, digitsAt);
  }

  lemma LongestPlain(t: seq<byte>)
    requires t != [] && t[0] != 0x2B && Strtod(t).length > 0 && Valid(Longest(t)) && Longest(t).exponent.NoExponent?
    ensures Strtod(t) == Conversion(Scaled(Signed(Longest(t)), Power(Longest(t))), |Written(Longest(t))|)
  {
    hide DigitRun, DigitsValue, Scaled, Longest, Written, AllDigits;
    WrittenLength(Longest(t));
    LongestParts(t);
  }

  lemma LongestScaled(t: seq<byte>)
    requires t != [] && t[0] != 0x2B && Strtod(t).length > 0 && Valid(Longest(t)) && Longest(t).exponent.Exponent?
    ensures Strtod(t) == Conversion(Scaled(Signed(Longest(t)), Power(Longest(t))), |Written(Longest(t))|)
  {
    hide DigitRun, DigitsValue, Scaled, Longest, Written, ExponentAt, Tail, Strtod;
    var d := Longest(t);
    WrittenLength(d);
    LongestParts(t);
    ExponentParts(t, Front(d));
    var digitsAt := Front(d) + 1 + |d.exponent.sign|;
    ExponentTaken(t, (if d.minus then 1 else 0) + |d.whole|, Front(d), digitsAt, d.whole + d.fraction);
  }

  /** A number of `m` bytes that means `x` starts the text, and no longer number does. */
  ghost predicate IsLongest(t: seq<byte>, x: real, m: nat) {
    && (exists d :: Valid(d) && Written(d) <= t && |Written(d)| == m && Meant(d) == x)
    && (forall d :: Valid(d) && Written(d) <= t ==> |Written(d)| <= m)
  }

  /** The conversion takes the longest number that starts the text, and fails exactly if none does. */
  lemma LongestIsConverted(t: seq<byte>, x: real, m: nat)
    requires t != [] && t[0] != 0x2B && m > 0
    ensures Strtod(t) == Conversion(x, m) <==> IsLongest(t, x, m)
  {
    hide Strtod, Valid, Written, Meant, Longest;
    forall d | Valid(d) && Written(d) <= t
      ensures |Written(d)| <= Strtod(t).length
    {
      NoneIsLonger(d, t);
    }
    if Strtod(t).length > 0 {
      ConvertsANumber(t);
    }
    if IsLongest(t, x, m) {
      var d :| Valid(d) && Written(d) <= t && |Written(d)| == m && Meant(d) == x;
      assert m <= Strtod(t).length;
      assert Written(d) == t[..m] == Written(Longest(t));
      DecimalConverts(d);
      DecimalConverts(Longest(t));
    }
  }

  lemma DecimalBytes(d: Decimal)
    requires Valid(d)
    ensures forall k :: 0 <= k < |Written(d)| ==> IsNumberByte(Written(d)[k])
  {
  }

  /** A number of at most 63 bytes is read whole, as what it means. */
  lemma DecimalIsRead(d: Decimal, c: seq<byte>, o: nat)
    requires Valid(d) && (d.minus || d.whole != [])
    requires |Written(d)| <= 63 && Terminated(c) && Occurs(c, o, Written(d))
    requires o + |Written(d)| < |c| && !IsNumberByte(c[o + |Written(d)|])
    ensures ParseValue(c, o, 0) == Parsed(JsonText.Number(Meant(d)), o + |Written(d)|)
  {
    hide Strtod, Meant, Written, IsNumberByte;
    var t := Written(d);
    DecimalBytes(d);
    PartsThere(d);
    forall k | o <= k < o + |t|
      ensures IsNumberByte(c[k])
    {
      OccursAt(c, o, t, k - o);
    }
    NumberEndIs(c, o, |t|, 63);
    DecimalConverts(d);
    OccursAt(c, o, t, 0);
    NotWords(c, o);
  }

  /** Of the number bytes, 63 at most, the longest number that starts them is read; the rest is left. */
  lemma WhatANumberIsReadAs(c: seq<byte>, o: nat, e: nat, x: real, n: nat)
    requires Terminated(c) && o < e < |c| && e <= o + 63 && o < n && c[o] != 0x2B
    requires forall k :: o <= k < e ==> IsNumberByte(c[k])
    requires e == o + 63 || !IsNumberByte(c[e])
    ensures ParseNumber(c, o) == Parsed(x, n) <==> IsLongest(c[o..e], x, n - o)
  {
    hide Strtod, IsLongest, IsNumberByte;
    if e == o + 63 {
      NumberEndStops(c, o, 63);
    } else {
      NumberEndIs(c, o, e - o, 63);
    }
    LongestIsConverted(c[o..e], x, n - o);
  }

  /** Of a longer run of digits the first 63 are read. */
  lemma LongNumberIsCut(c: seq<byte>, o: nat, digits: seq<byte>)
    requires Terminated(c) && |digits| == 63 && AllDigits(digits) && Occurs(c, o, digits)
    requires o + 63 < |c| && IsDigit(c[o + 63])
    ensures ParseNumber(c, o) == Parsed(DigitsValue(digits) as int as real, o + 63)
  {
    hide Strtod, DigitsValue;
    forall k | o <= k < o + 63
      ensures IsNumberByte(c[k])
    {
      OccursAt(c, o, digits, k - o);
    }
    NumberEndStops(c, o, 63);
    var d := Decimal(false, digits, false, [], NoExponent);
    assert Written(d) == digits && digits + [] == digits;
    DecimalConverts(d);
    assert c[o..o + 63] == digits;
  }

  lemma {:induction false} NumberEndStops(c: seq<byte>, o: nat, room: nat)
    requires o + room <= |c| && forall k :: o <= k < o + room ==> IsNumberByte(c[k])
    ensures NumberEnd(c, o, room) == o + room
    decreases room
  {
    if room > 0 {
      NumberEndStops(c, o + 1, room - 1);
    }
  }

  // ----- printing -----

  /** No digit could be left out in front. */
  ghost predicate Plain(digits: seq<byte>) { AllDigits(digits) && digits != [] && (|digits| > 1 ==> digits[0] != 0x30) }

  lemma {:induction false} NatTextIsPlain(n: nat)
    ensures Plain(NatText(n)) && (n > 0 ==> NatText(n)[0] != 0x30)
  {
    if n >= 10 {
      NatTextIsPlain(n / 10);
    }
  }

  lemma NatTextMore(v: nat, d: int)
    requires v > 0 && 0 <= d < 10
    ensures NatText(10 * v + d) == NatText(v) + [DigitByte(d)]
  {
    hide NatText, DigitByte;
    NatTextLast(10 * v + d);
  }

  lemma NatTextLast(n: nat)
    requires n >= 10
    ensures NatText(n) == NatText(n / 10) + [DigitByte(n % 10)]
  {
    hide DigitByte;
  }

  lemma ValueMore(digits: seq<byte>)
    requires AllDigits(digits) && digits != []
    ensures
      var last := |digits| - 1;
      DigitsValue(digits) == 10 * DigitsValue(digits[..last]) + DigitValue(digits[last])
  {
  }

  /** A number has one plain text. */
  lemma {:induction false} PlainIsNatText(digits: seq<byte>)
    requires Plain(digits)
    ensures digits == NatText(DigitsValue(digits))
    decreases |digits|
  {
    hide NatText, DigitsValue, DigitByte, DigitValue;
    var last := |digits| - 1;
    ValueMore(digits);
    DigitBack(digits[last]);
    assert digits == digits[..last] + [digits[last]];
    if last > 0 {
      assert digits[..last][0] == digits[0];
      PlainIsNatText(digits[..last]);
      PositiveValue(digits[..last]);
      NatTextMore(DigitsValue(digits[..last]), DigitValue(digits[last]));
    } else {
      assert digits[..last] == [];
      OneDigit(DigitValue(digits[0]));
    }
  }

  lemma OneDigit(d: int)
    requires 0 <= d < 10
    ensures DigitsValue([]) == 0 && NatText(d) == [DigitByte(d)]
  {
  }

  lemma DigitBack(b: byte)
    requires IsDigit(b)
    ensures DigitByte(DigitValue(b)) == b
  {
  }

  lemma {:induction false} PositiveValue(digits: seq<byte>)
    requires AllDigits(digits) && digits != [] && digits[0] != 0x30
    ensures DigitsValue(digits) > 0
    decreases |digits|
  {
    var last := |digits| - 1;
    if last > 0 {
      assert digits[..last][0] == digits[0];
      PositiveValue(digits[..last]);
    }
  }

  /** What `strconv.Atoi` reads: an optional sign and digits, within 64 bits, and nothing else. */
  lemma WhatAtoiReads(s: seq<byte>, n: int)
    ensures Atoi(s) == Some(n) <==>
            INT64_MIN <= n <= INT64_MAX &&
            ((s != [] && AllDigits(s) && n == DigitsValue(s)) ||
             (|s| > 1 && s[0] == 0x2B && AllDigits(s[1..]) && n == DigitsValue(s[1..])) ||
             (|s| > 1 && s[0] == 0x2D && AllDigits(s[1..]) && n == -(DigitsValue(s[1..]) as int)))
  {
  }

  lemma PlainDigits(digits: seq<byte>)
    requires Plain(digits)
    ensures AllDigits(digits) && digits != []
  {
  }

  /** Of the texts that are read as an integer, the printed one is the only one without a needless sign or digit. */
  lemma OnlyPlainText(s: seq<byte>, n: int)
    requires Atoi(s) == Some(n)
    requires s[0] != 0x2B && (s[0] == 0x2D ==> Plain(s[1..]) && n != 0) && (s[0] != 0x2D ==> Plain(s))
    ensures s == IntText(n)
  {
    hide NatText, DigitsValue, Plain, Atoi;
    WhatAtoiReads(s, n);
    assert s[0] == 0x2D || AllDigits(s) by { PlainDigits(if s[0] == 0x2D then s[1..] else s); }
    if s[0] == 0x2D {
      PlainIsNatText(s[1..]);
      assert s == [0x2D] + s[1..];
    } else {
      PlainIsNatText(s);
    }
  }

  /** And the printed one is such a text. */
  lemma IntTextIsPlain(n: int)
    ensures if n < 0 then IntText(n)[0] == 0x2D && Plain(IntText(n)[1..]) else Plain(IntText(n))
  {
    NatTextIsPlain(if n < 0 then -n else n);
    if n < 0 {
      assert IntText(n)[1..] == NatText(-n);
    }
  }
}
