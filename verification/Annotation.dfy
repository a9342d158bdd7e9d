/**
 The annotations that carry an allocation: integers joined by underscores, split and read back by
 `strings.Split` and `strconv.Atoi`, and the handle of an instance. Go strings are byte sequences.
 */
module Annotation {
  import opened Bytes
  import opened Options

  const INT64_MIN: int := -0x8000_0000_0000_0000
  const INT64_MAX: int := 0x7FFF_FFFF_FFFF_FFFF

  // ----- strconv.Atoi -----

  function Atoi(s: seq<byte>): (r: Option<int>)
    ensures r.Some? ==> INT64_MIN <= r.value <= INT64_MAX
  {
    var digits := if s != [] && (s[0] == PLUS || s[0] == MINUS) then s[1..] else s;
    if digits == [] || !AllDigits(digits) then None
    else
      var magnitude: int := DigitsValue(digits);
      var n := if s[0] == MINUS then -magnitude else magnitude;
      if INT64_MIN <= n <= INT64_MAX then Some(n) else None
  }

  /** `Atoi` undoes `%d` on every `int`. */
  lemma AtoiUndoesPrinting(n: int)
    requires INT64_MIN <= n <= INT64_MAX
    ensures Atoi(IntText(n)) == Some(n)
  {
    NatTextValue(if n < 0 then -n else n);
    if n < 0 {
      assert IntText(n)[1..] == NatText(-n);
    }
  }

  // ----- strings.Split -----

  ghost predicate Lacks(s: seq<byte>, separator: byte) { forall i :: 0 <= i < |s| ==> s[i] != separator }

  function Join(parts: seq<seq<byte>>, separator: byte): seq<byte>
    requires parts != []
  {
    if |parts| == 1 then parts[0] else parts[0] + [separator] + Join(parts[1..], separator)
  }

  /** The pieces of `s`; `piece` holds what has been read of the current one. */
  function SplitFrom(s: seq<byte>, separator: byte, piece: seq<byte>): (parts: seq<seq<byte>>)
    ensures parts != []
  {
    if s == [] then [piece]
    else if s[0] == separator then [piece] + SplitFrom(s[1..], separator, [])
    else SplitFrom(s[1..], separator, piece + [s[0]])
  }

  function Split(s: seq<byte>, separator: byte): seq<seq<byte>> { SplitFrom(s, separator, []) }

  lemma {:induction false} SplitPiece(t: seq<byte>, separator: byte, piece: seq<byte>, rest: seq<byte>)
    requires Lacks(t, separator)
    ensures SplitFrom(t + rest, separator, piece) == SplitFrom(rest, separator, piece + t)
    decreases |t|
  {
    if t == [] {
      assert t + rest == rest && piece + t == piece;
    } else {
      assert (t + rest)[1..] == t[1..] + rest;
      SplitPiece(t[1..], separator, piece + [t[0]], rest);
      assert piece + [t[0]] + t[1..] == piece + t;
    }
  }

  /** Splitting undoes joining when no piece holds the separator. */
  lemma {:induction false} SplitUndoesJoin(parts: seq<seq<byte>>, separator: byte)
    requires parts != [] && forall k :: 0 <= k < |parts| ==> Lacks(parts[k], separator)
    ensures Split(Join(parts, separator), separator) == parts
    decreases |parts|
  {
    var first := parts[0];
    assert [] + first == first;
    if |parts| == 1 {
      assert first + [] == first;
      SplitPiece(first, separator, [], []);
    } else {
      var rest := [separator] + Join(parts[1..], separator);
      assert Join(parts, separator) == first + rest;
      SplitPiece(first, separator, [], rest);
      assert rest[1..] == Join(parts[1..], separator);
      SplitUndoesJoin(parts[1..], separator);
      assert parts == [first] + parts[1..];
    }
  }

  /** Whatever is split, the pieces lack the separator, and joining them gives it back. */
  lemma JoinUndoesSplit(s: seq<byte>, separator: byte)
    ensures Join(Split(s, separator), separator) == s
    ensures forall k :: 0 <= k < |Split(s, separator)| ==> Lacks(Split(s, separator)[k], separator)
  {
    JoinOfSplit(s, separator, []);
    assert [] + s == s;
  }

  lemma {:induction false} JoinOfSplit(s: seq<byte>, separator: byte, piece: seq<byte>)
    requires Lacks(piece, separator)
    ensures Join(SplitFrom(s, separator, piece), separator) == piece + s
    ensures var v := SplitFrom(s, separator, piece); forall k :: 0 <= k < |v| ==> Lacks(v[k], separator)
    decreases |s|
  {
    if s == [] {
      assert piece + s == piece;
    } else if s[0] == separator {
      JoinOfSplit(s[1..], separator, []);
      assert SplitFrom(s, separator, piece)[1..] == SplitFrom(s[1..], separator, []);
      assert piece + [separator] + ([] + s[1..]) == piece + s;
    } else {
      JoinOfSplit(s[1..], separator, piece + [s[0]]);
      assert piece + [s[0]] + s[1..] == piece + s;
    }
  }

  lemma IntTextLacksUnderscore(n: int)
    ensures Lacks(IntText(n), UNDERSCORE)
  {
    assert AllDigits(NatText(if n < 0 then -n else n));
  }

  // ----- handles -----

  /** `InstanceID<<8 | slot` */
  function Handle(instance: nat, slot: nat): nat
    requires slot < 256
  {
    256 * instance + slot
  }

  /** A handle names one instance. */
  lemma HandleInjective(i: nat, s: nat, j: nat, t: nat)
    requires s < 256 && t < 256
    ensures Handle(i, s) == Handle(j, t) <==> i == j && s == t
    ensures Handle(i, s) / 256 == i && Handle(i, s) % 256 == s
  {
  }

  // ----- the two annotations -----

  /** `profileID_instanceHandle_slot_instanceID` */
  datatype Assignment = Assignment(profile: int, handle: int, slot: int, instance: int)

  function AssignmentText(a: Assignment): seq<byte> {
    Join([IntText(a.profile), IntText(a.handle), IntText(a.slot), IntText(a.instance)], UNDERSCORE)
  }

  function ReadAssignment(s: seq<byte>): Option<Assignment> {
    var v := Split(s, UNDERSCORE);
    if |v| != 4 then None
    else
      var p, h, slot, i := Atoi(v[0]), Atoi(v[1]), Atoi(v[2]), Atoi(v[3]);
      if p.None? || h.None? || slot.None? || i.None? then None
      else Some(Assignment(p.value, h.value, slot.value, i.value))
  }

  ghost predicate FitsInt64(a: Assignment) {
    && INT64_MIN <= a.profile <= INT64_MAX
    && INT64_MIN <= a.handle <= INT64_MAX
    && INT64_MIN <= a.slot <= INT64_MAX
    && INT64_MIN <= a.instance <= INT64_MAX
  }

  /** The pieces that `exec` and `recycleProfileAndInstance` read back are the numbers that were written. */
  lemma AssignmentRoundTrip(a: Assignment)
    requires FitsInt64(a)
    ensures ReadAssignment(AssignmentText(a)) == Some(a)
    ensures Split(AssignmentText(a), UNDERSCORE) ==
            [IntText(a.profile), IntText(a.handle), IntText(a.slot), IntText(a.instance)]
  {
    var parts := [IntText(a.profile), IntText(a.handle), IntText(a.slot), IntText(a.instance)];
    IntTextLacksUnderscore(a.profile);
    IntTextLacksUnderscore(a.handle);
    IntTextLacksUnderscore(a.slot);
    IntTextLacksUnderscore(a.instance);
    SplitUndoesJoin(parts, UNDERSCORE);
    AtoiUndoesPrinting(a.profile);
    AtoiUndoesPrinting(a.handle);
    AtoiUndoesPrinting(a.slot);
    AtoiUndoesPrinting(a.instance);
  }

  /** `slot_vcore_vmemory` */
  datatype Request = Request(slot: int, vcore: int, vmemory: int)

  function RequestText(r: Request): seq<byte> {
    Join([IntText(r.slot), IntText(r.vcore), IntText(r.vmemory)], UNDERSCORE)
  }

  function ReadRequest(s: seq<byte>): Option<Request> {
    var v := Split(s, UNDERSCORE);
    if |v| != 3 then None
    else
      var slot, vcore, vmemory := Atoi(v[0]), Atoi(v[1]), Atoi(v[2]);
      if slot.None? || vcore.None? || vmemory.None? then None
      else Some(Request(slot.value, vcore.value, vmemory.value))
  }

  lemma RequestRoundTrip(r: Request)
    requires INT64_MIN <= r.slot <= INT64_MAX && INT64_MIN <= r.vcore <= INT64_MAX &&
             INT64_MIN <= r.vmemory <= INT64_MAX
    ensures ReadRequest(RequestText(r)) == Some(r)
  {
    var parts := [IntText(r.slot), IntText(r.vcore), IntText(r.vmemory)];
    IntTextLacksUnderscore(r.slot);
    IntTextLacksUnderscore(r.vcore);
    IntTextLacksUnderscore(r.vmemory);
    SplitUndoesJoin(parts, UNDERSCORE);
    AtoiUndoesPrinting(r.slot);
    AtoiUndoesPrinting(r.vcore);
    AtoiUndoesPrinting(r.vmemory);
  }
}
