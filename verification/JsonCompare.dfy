/** Comparing trees, case-sensitively: what the two nested passes over object members amount to. */
module JsonCompare {
  import opened Bytes
  import opened Items
  import opened JsonText

  /** What a tree means: like the tree, but an object is a map from names to meanings. */
  datatype Meaning =
    | MNull
    | MFalse
    | MTrue
    | MNumber(number: int)
    | MString(text: seq<byte>)
    | MArray(items: seq<Meaning>)
    | MObject(members: map<seq<byte>, Meaning>)

  /** Numbers are 32-bit integers. */
  ghost predicate Integral(v: Json) {
    match v
    case Number(x) => IsInt32(x)
    case Array(items) => forall i :: 0 <= i < |items| ==> Integral(items[i])
    case Object(members) => forall i :: 0 <= i < |members| ==> Integral(members[i].value)
    case _ => true
  }

  /** The first member with a name, as `get_object_item` finds it; the length if there is none. */
  ghost function First(members: seq<Member>, key: seq<byte>): (i: nat)
    ensures i <= |members|
    ensures i < |members| ==> members[i].key == key
    ensures forall k :: 0 <= k < i ==> members[k].key != key
  {
    if members == [] || members[0].key == key then 0 else 1 + First(members[1..], key)
  }

  ghost function Keys(members: seq<Member>): set<seq<byte>> {
    set i | 0 <= i < |members| :: members[i].key
  }

  lemma FirstFinds(members: seq<Member>, key: seq<byte>)
    ensures key in Keys(members) <==> First(members, key) < |members|
  {
    if key in Keys(members) {
      var i :| 0 <= i < |members| && members[i].key == key;
    }
  }

  ghost function Meant(v: Json): Meaning {
    match v
    case Null => MNull
    case False => MFalse
    case True => MTrue
    case Number(x) => MNumber(x.Floor)
    case String(s) => MString(s)
    case Array(items) => MArray(seq(|items|, i requires 0 <= i < |items| => Meant(items[i])))
    case Object(members) =>
      MObject(map key | key in Keys(members) ::
        (FirstFinds(members, key); Meant(members[First(members, key)].value)))
  }

  /** Members of one object that share a name mean the same, at every level. */
  ghost predicate Consistent(v: Json) {
    match v
    case Array(items) => forall i :: 0 <= i < |items| ==> Consistent(items[i])
    case Object(members) =>
      forall i :: 0 <= i < |members| ==>
        Consistent(members[i].value) &&
        (FirstFinds(members, members[i].key);
         assert members[i].key in Keys(members);
         Meant(members[i].value) == Meant(members[First(members, members[i].key)].value))
    case _ => true
  }

  /** No two members of one object share a name, at any level. */
  ghost predicate DistinctKeys(v: Json) {
    match v
    case Array(items) => forall i :: 0 <= i < |items| ==> DistinctKeys(items[i])
    case Object(members) =>
      && (forall i, j :: 0 <= i < j < |members| ==> members[i].key != members[j].key)
      && (forall i :: 0 <= i < |members| ==> DistinctKeys(members[i].value))
    case _ => true
  }

  lemma {:induction false} DistinctIsConsistent(v: Json)
    requires DistinctKeys(v)
    ensures Consistent(v)
  {
    match v
    case Array(items) =>
      forall i | 0 <= i < |items|
        ensures Consistent(items[i])
      {
        DistinctIsConsistent(items[i]);
      }
    case Object(members) =>
      forall i | 0 <= i < |members|
        ensures Consistent(members[i].value) && First(members, members[i].key) == i
      {
        DistinctIsConsistent(members[i].value);
      }
    case _ =>
  }

  // ----- comparing -----

  const DBL_EPSILON: real := 1.0 / 4503599627370496.0

  function Abs(x: real): real { if x < 0.0 then -x else x }

  method CompareDouble(a: real, b: real) returns (same: bool)
    ensures same <==> 4503599627370496.0 * Abs(a - b) <= Abs(a) || 4503599627370496.0 * Abs(a - b) <= Abs(b)
    ensures IsInt32(a) && IsInt32(b) ==> (same <==> a.Floor == b.Floor)
  {
    var larger := if Abs(a) > Abs(b) then Abs(a) else Abs(b);
    same := Abs(a - b) <= larger * DBL_EPSILON;
    if IsInt32(a) && IsInt32(b) {
      EqualIntegers(a, b);
    }
  }

  /** Two 32-bit integers differ by more than the tolerance or not at all. */
  lemma EqualIntegers(a: real, b: real)
    requires IsInt32(a) && IsInt32(b)
    ensures Abs(a - b) <= (if Abs(a) > Abs(b) then Abs(a) else Abs(b)) * DBL_EPSILON <==> a.Floor == b.Floor
  {
    var larger := if Abs(a) > Abs(b) then Abs(a) else Abs(b);
    assert a == a.Floor as real && b == b.Floor as real;
    assert larger <= 2147483648.0;
    assert larger * DBL_EPSILON < 1.0;
    if a.Floor != b.Floor {
      assert Abs(a - b) >= 1.0;
    }
  }

  /** Every member of `a` compares equal to the member of `b` found under its name. */
  ghost predicate Covered(a: seq<Member>, b: seq<Member>) {
    forall i :: 0 <= i < |a| ==> CoveredAt(a[i], b)
  }

  ghost predicate CoveredAt(m: Member, b: seq<Member>) {
    var j := First(b, m.key);
    j < |b| && Same(m.value, b[j].value)
  }

  ghost predicate Same(a: Json, b: Json) {
    Consistent(a) && Consistent(b) && Meant(a) == Meant(b)
  }

  lemma CoveredBothWays(a: seq<Member>, b: seq<Member>)
    ensures Covered(a, b) && Covered(b, a) <==> Same(Object(a), Object(b))
  {
    if Covered(a, b) && Covered(b, a) {
      CoveredKeys(a, b);
      CoveredKeys(b, a);
      CoveredConsistent(a, b);
      CoveredConsistent(b, a);
      forall key | key in Keys(a)
        ensures Meant(Object(a)).members[key] == Meant(Object(b)).members[key]
      {
        FirstFinds(a, key);
        FirstFinds(b, key);
        assert CoveredAt(a[First(a, key)], b);
      }
      assert Meant(Object(a)).members == Meant(Object(b)).members;
    }
    if Same(Object(a), Object(b)) {
      SameCovers(a, b);
      SameCovers(b, a);
    }
  }

  lemma CoveredKeys(a: seq<Member>, b: seq<Member>)
    requires Covered(a, b)
    ensures Keys(a) <= Keys(b)
  {
    forall key | key in Keys(a)
      ensures key in Keys(b)
    {
      FirstFinds(a, key);
      FirstFinds(b, key);
      assert CoveredAt(a[First(a, key)], b);
    }
  }

  lemma CoveredConsistent(a: seq<Member>, b: seq<Member>)
    requires Covered(a, b)
    ensures Consistent(Object(a))
  {
    forall i | 0 <= i < |a|
      ensures Consistent(a[i].value) && a[i].key in Keys(a) && First(a, a[i].key) < |a| &&
              Meant(a[i].value) == Meant(a[First(a, a[i].key)].value)
    {
      assert a[i].key in Keys(a);
      FirstFinds(a, a[i].key);
      assert CoveredAt(a[i], b) && CoveredAt(a[First(a, a[i].key)], b);
    }
  }

  lemma SameCovers(a: seq<Member>, b: seq<Member>)
    requires Same(Object(a), Object(b))
    ensures Covered(a, b)
  {
    assert Meant(Object(a)).members.Keys == Keys(a) && Meant(Object(b)).members.Keys == Keys(b);
    forall i | 0 <= i < |a|
      ensures CoveredAt(a[i], b)
    {
      var key := a[i].key;
      assert key in Keys(a);
      FirstFinds(a, key);
      FirstFinds(b, key);
      assert Meant(Object(a)).members[key] == Meant(a[First(a, key)].value);
      assert Meant(Object(b)).members[key] == Meant(b[First(b, key)].value);
    }
  }

  ghost function Size(v: Json): nat
    decreases v, 1
  {
    match v
    case Array(items) => 1 + ItemsSize(items)
    case Object(members) => 1 + MembersSize(members)
    case _ => 1
  }

  ghost function ItemsSize(items: seq<Json>): nat
    decreases items, 0
  {
    if items == [] then 0 else Size(items[0]) + ItemsSize(items[1..])
  }

  ghost function MembersSize(members: seq<Member>): nat
    decreases members, 0
  {
    if members == [] then 0 else Size(members[0].value) + MembersSize(members[1..])
  }

  lemma {:induction false} ItemSize(items: seq<Json>, i: nat)
    requires i < |items|
    ensures Size(items[i]) <= ItemsSize(items)
  {
    if i > 0 {
      ItemSize(items[1..], i - 1);
    }
  }

  lemma {:induction false} MemberSize(members: seq<Member>, i: nat)
    requires i < |members|
    ensures Size(members[i].value) <= MembersSize(members)
  {
    if i > 0 {
      MemberSize(members[1..], i - 1);
    }
  }

  // ----- the items -----

  ghost function Weight(item: Item?): nat
    reads Only(item)`value
  {
    if item == null then 0 else Size(item.value)
  }

  /** A tree of integers. */
  ghost predicate Comparable(item: Item?)
    reads Only(item)`child, Only(item)`kind, Only(item)`valuedouble, Only(item)`valuestring, Only(item)`children
    reads Only(item)`repr, Only(item)`value
    reads if item == null then {} else item.repr - {item}
  {
    item != null ==> item.Valid() && Integral(item.value)
  }

  lemma ArrayValue(item: Item)
    requires item.Valid() && item.kind == ArrayKind && Integral(item.value)
    ensures item.value.Array? && |item.value.items| == |item.children|
    ensures forall i :: 0 <= i < |item.children| ==>
              item.children[i].value == item.value.items[i] && Integral(item.children[i].value)
    ensures Size(item.value) == 1 + ItemsSize(item.value.items)
  {
  }

  lemma ObjectValue(item: Item)
    requires item.Valid() && item.kind == ObjectKind && Integral(item.value)
    ensures item.value.Object? && |item.value.members| == |item.children|
    ensures forall i :: 0 <= i < |item.children| ==>
              Member(item.children[i].key, item.children[i].value) == item.value.members[i] &&
              Integral(item.children[i].value)
    ensures Size(item.value) == 1 + MembersSize(item.value.members)
  {
  }

  /** The kind of an item is the constructor of its value. */
  lemma KindOfValue(item: Item)
    requires item.Valid()
    ensures item.kind == match item.value
                         case Null => NullKind
                         case False => FalseKind
                         case True => TrueKind
                         case Number(_) => NumberKind
                         case String(_) => StringKind
                         case Array(_) => ArrayKind
                         case Object(_) => ObjectKind
    ensures item.kind == NumberKind ==> item.value == Number(item.valuedouble)
    ensures item.kind == StringKind ==> item.value == String(item.valuestring)
  {
  }

  /** `get_object_item`, case-sensitively: the first child with the name. */
  method GetObjectItem(parent: Item, name: seq<byte>) returns (found: Item?)
    requires parent.Valid() && parent.kind == ObjectKind && Integral(parent.value)
    ensures parent.value.Object? && |parent.value.members| == |parent.children|
    ensures var i := First(parent.value.members, name);
            found == if i < |parent.children| then parent.children[i] else null
  {
    hide Item.Valid, Integral, Size, MembersSize;
    ObjectValue(parent);
    FirstChild(parent);
    found := parent.child;
    ghost var i, members := 0, parent.value.members;
    assert members[0..] == members;
    while found != null && found.key != name
      invariant i <= |members| && found == if i < |members| then parent.children[i] else null
      invariant First(members, name) == i + First(members[i..], name)
      decreases |members| - i
    {
      ChildValid(parent, i);
      assert members[i..][1..] == members[i + 1..];
      i := i + 1;
      found := found.next;
    }
  }

  /**
   `cJSON_Compare` on the linked items of two trees that share no node, or on one and the same. It answers true exactly
   when they are the same, or mean the same up to the order of object members and neither gives one name two meanings.
   */
  method Compare(a: Item?, b: Item?) returns (same: bool)
    requires Comparable(a) && Comparable(b)
    requires a != null && b != null && a != b ==> a.repr !! b.repr
    ensures same <==> a != null && b != null && (a == b || Same(a.value, b.value))
    decreases Weight(a) + Weight(b), 1
  {
    hide Item.Valid, Integral, Consistent, Covered;
    if a == null || b == null {
      return false;
    }
    KindOfValue(a);
    KindOfValue(b);
    if a.kind != b.kind {
      return false;
    }
    if a == b {
      return true;
    }
    match a.kind
    case NumberKind =>
      NumbersMean(a.value, b.value);
      same := CompareDouble(a.valuedouble, b.valuedouble);
    case StringKind =>
      StringsMean(a.value, b.value);
      return a.valuestring == b.valuestring;
    case ArrayKind =>
      same := CompareElements(a, b);
    case ObjectKind =>
      same := CompareMembers(a, b);
      if same {
        same := CompareMembers(b, a);
      }
      CoveredBothWays(a.value.members, b.value.members);
    case _ =>
      WordsMean(a.value);
      return true;
  }

  lemma NumbersMean(a: Json, b: Json)
    requires a.Number? && b.Number? && Integral(a) && Integral(b)
    ensures IsInt32(a.number) && IsInt32(b.number)
    ensures Same(a, b) <==> a.number.Floor == b.number.Floor
  {
  }

  lemma StringsMean(a: Json, b: Json)
    requires a.String? && b.String?
    ensures Same(a, b) <==> a.text == b.text
  {
  }

  lemma WordsMean(a: Json)
    requires a.Null? || a.False? || a.True?
    ensures Same(a, a)
  {
  }

  /** The loop over two arrays. */
  method CompareElements(a: Item, b: Item) returns (same: bool)
    requires Comparable(a) && Comparable(b) && a.kind == b.kind == ArrayKind && a.repr !! b.repr
    ensures same <==> Same(a.value, b.value)
    decreases Weight(a) + Weight(b), 0
  {
    hide Item.Valid, Integral, Same, Size, ItemsSize;
    ArrayValue(a);
    ArrayValue(b);
    FirstChild(a);
    FirstChild(b);
    var aElement, bElement := a.child, b.child;
    ghost var i := 0;
    while aElement != null && bElement != null
      invariant i <= |a.children| && i <= |b.children|
      invariant aElement == if i < |a.children| then a.children[i] else null
      invariant bElement == if i < |b.children| then b.children[i] else null
      invariant forall k :: 0 <= k < i ==> Same(a.value.items[k], b.value.items[k])
      decreases |a.children| - i
    {
      ChildValid(a, i);
      ChildValid(b, i);
      ItemSize(a.value.items, i);
      ItemSize(b.value.items, i);
      assert aElement.value == a.value.items[i] && bElement.value == b.value.items[i];
      ChildrenDiffer(a, b, i, i);
      var equal := Compare(aElement, bElement);
      if !equal {
        ElementsDiffer(a.value.items, b.value.items, i);
        return false;
      }
      i := i + 1;
      aElement, bElement := aElement.next, bElement.next;
    }
    same := aElement == bElement;
    ChildrenDiffer(a, b, i, i);
    ElementsMean(a.value.items, b.value.items);
  }

  /** Trees that share no node have no child in common. */
  lemma ChildrenDiffer(a: Item, b: Item, i: nat, j: nat)
    requires a.Valid() && b.Valid() && a.repr !! b.repr
    ensures i < |a.children| && j < |b.children| ==>
              a.children[i] != b.children[j] && a.children[i].repr !! b.children[j].repr
  {
    if i < |a.children| && j < |b.children| {
      assert a.children[i] in a.children && b.children[j] in b.children;
    }
  }

  lemma ElementsDiffer(xs: seq<Json>, ys: seq<Json>, i: nat)
    requires i < |xs| && i < |ys| && !Same(xs[i], ys[i])
    ensures !Same(Array(xs), Array(ys))
  {
    assert Meant(Array(xs)) == Meant(Array(ys)) ==> Meant(Array(xs)).items[i] == Meant(Array(ys)).items[i];
  }

  lemma ElementsMean(xs: seq<Json>, ys: seq<Json>)
    requires forall k :: 0 <= k < |xs| && k < |ys| ==> Same(xs[k], ys[k])
    ensures Same(Array(xs), Array(ys)) <==> |xs| == |ys|
  {
    if |xs| == |ys| {
      assert Meant(Array(xs)).items == Meant(Array(ys)).items;
    } else {
      assert |Meant(Array(xs)).items| != |Meant(Array(ys)).items|;
    }
  }

  /** One of the two passes over an object. */
  method CompareMembers(a: Item, b: Item) returns (covered: bool)
    requires Comparable(a) && Comparable(b) && a.kind == b.kind == ObjectKind && a.repr !! b.repr
    ensures a.value.Object? && b.value.Object?
    ensures covered <==> Covered(a.value.members, b.value.members)
    decreases Weight(a) + Weight(b), 0
  {
    hide Item.Valid, Integral, Same, Size, MembersSize, First;
    ObjectValue(a);
    ObjectValue(b);
    FirstChild(a);
    ghost var ms, ns, i := a.value.members, b.value.members, 0;
    var aElement := a.child;
    while aElement != null
      invariant i <= |ms| && aElement == if i < |ms| then a.children[i] else null
      invariant forall k :: 0 <= k < i ==> CoveredAt(ms[k], ns)
      decreases |ms| - i
    {
      ChildValid(a, i);
      assert Member(aElement.key, aElement.value) == ms[i];
      var bElement := GetObjectItem(b, aElement.key);
      ghost var j := First(ns, aElement.key);
      if bElement == null {
        assert !CoveredAt(ms[i], ns);
        return false;
      }
      ChildValid(b, j);
      ChildrenDiffer(a, b, i, j);
      MemberSize(ms, i);
      MemberSize(ns, j);
      assert Member(bElement.key, bElement.value) == ns[j];
      var equal := Compare(aElement, bElement);
      if !equal {
        assert !CoveredAt(ms[i], ns);
        return false;
      }
      i := i + 1;
      aElement := aElement.next;
    }
    return true;
  }

  // ----- what follows -----

  /** On trees without repeated names, comparing is equality of meaning, hence an equivalence. */
  lemma DistinctSame(a: Json, b: Json)
    requires DistinctKeys(a) && DistinctKeys(b)
    ensures Same(a, b) <==> Meant(a) == Meant(b)
  {
    DistinctIsConsistent(a);
    DistinctIsConsistent(b);
  }

  /** One name with two meanings: such an object does not compare equal to its own copy. */
  lemma RepeatedNameRejected(key: seq<byte>)
    ensures var v := Object([Member(key, Null), Member(key, True)]); !Consistent(v) && !Same(v, v)
  {
    var members := [Member(key, Null), Member(key, True)];
    assert First(members, key) == 0;
    assert Meant(members[1].value) != Meant(members[0].value);
  }
}
