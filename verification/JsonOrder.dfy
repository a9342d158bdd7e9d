/** What comparing means for trees without repeated names: equality up to the order of members, at every level. */
module JsonOrder {
  import opened Bytes
  import opened JsonText
  import opened JsonCompare
  import SlotSets

  /** The members of `ms` stand at the given places of `ns`. */
  ghost predicate Places(places: seq<nat>, ms: seq<Member>, ns: seq<Member>) {
    && |places| == |ms| == |ns| && SlotSets.Distinct(places)
    && forall i :: 0 <= i < |ms| ==> places[i] < |ns| && ns[places[i]].key == ms[i].key
  }

  /** The same tree, but for the order of the members of its objects. */
  ghost predicate Reordered(a: Json, b: Json)
    decreases a
  {
    match a
    case Array(xs) =>
      b.Array? && |b.items| == |xs| && forall i :: 0 <= i < |xs| ==> Reordered(xs[i], b.items[i])
    case Object(ms) =>
      b.Object? &&
      exists places :: Places(places, ms, b.members) &&
                       forall i :: 0 <= i < |ms| ==> Reordered(ms[i].value, b.members[places[i]].value)
    case _ => a == b
  }

  ghost predicate DistinctNames(ms: seq<Member>) { forall i, j :: 0 <= i < j < |ms| ==> ms[i].key != ms[j].key }

  lemma FirstIsOnly(ms: seq<Member>, i: nat)
    requires DistinctNames(ms) && i < |ms|
    ensures ms[i].key in Keys(ms) && First(ms, ms[i].key) == i
  {
    FirstFinds(ms, ms[i].key);
  }

  /** Reordering an object reaches every member, and repeats no name. */
  lemma PlacesReach(places: seq<nat>, ms: seq<Member>, ns: seq<Member>)
    requires Places(places, ms, ns)
    ensures forall j: nat :: j < |ns| ==> j in places
    ensures Keys(ms) == Keys(ns)
    ensures DistinctNames(ms) ==> DistinctNames(ns)
  {
    forall j: nat | j < |ns|
      ensures j in places
    {
      SlotSets.EveryPlace(places, j);
    }
    forall i: nat, j: nat | i < j < |ns|
      ensures DistinctNames(ms) ==> ns[i].key != ns[j].key
    {
      assert i in places && j in places;
      var x :| 0 <= x < |places| && places[x] == i;
      var y :| 0 <= y < |places| && places[y] == j;
      assert x < y || y < x;
    }
    forall key
      ensures key in Keys(ms) <==> key in Keys(ns)
    {
      if key in Keys(ms) {
        var i :| 0 <= i < |ms| && ms[i].key == key;
        assert ns[places[i]].key == key;
      }
      if key in Keys(ns) {
        var j: nat :| j < |ns| && ns[j].key == key;
        assert j in places;
        var x :| 0 <= x < |places| && places[x] == j;
        assert ms[x].key == key;
      }
    }
  }

  /** Reordering members, at any level, repeats no name and does not change the meaning. */
  lemma {:induction false} OrderIrrelevant(a: Json, b: Json)
    requires Reordered(a, b) && DistinctKeys(a)
    ensures DistinctKeys(b) && Meant(a) == Meant(b)
    decreases a
  {
    match a
    case Array(xs) =>
      forall i | 0 <= i < |xs|
        ensures DistinctKeys(b.items[i]) && Meant(xs[i]) == Meant(b.items[i])
      {
        OrderIrrelevant(xs[i], b.items[i]);
      }
      assert Meant(a).items == Meant(b).items;
    case Object(ms) =>
      var places :| Places(places, ms, b.members) &&
                    forall i :: 0 <= i < |ms| ==> Reordered(ms[i].value, b.members[places[i]].value);
      forall i | 0 <= i < |ms|
        ensures DistinctKeys(b.members[places[i]].value) && Meant(ms[i].value) == Meant(b.members[places[i]].value)
      {
        OrderIrrelevant(ms[i].value, b.members[places[i]].value);
      }
      ReorderedObject(places, ms, b.members);
    case _ =>
  }

  lemma ReorderedObject(places: seq<nat>, ms: seq<Member>, ns: seq<Member>)
    requires Places(places, ms, ns) && DistinctNames(ms)
    requires forall i :: 0 <= i < |ms| ==>
               DistinctKeys(ns[places[i]].value) && Meant(ms[i].value) == Meant(ns[places[i]].value)
    ensures DistinctKeys(Object(ns)) && Meant(Object(ms)) == Meant(Object(ns))
  {
    PlacesReach(places, ms, ns);
    DistinctBelow(places, ms, ns);
    forall key | key in Keys(ms)
      ensures MeantUnder(ms, key) == MeantUnder(ns, key)
    {
      var i :| 0 <= i < |ms| && ms[i].key == key;
      FirstIsOnly(ms, i);
      FirstIsOnly(ns, places[i]);
    }
    MeaningByName(ms, ns);
  }

  lemma DistinctBelow(places: seq<nat>, ms: seq<Member>, ns: seq<Member>)
    requires Places(places, ms, ns) && DistinctNames(ns) && forall j: nat :: j < |ns| ==> j in places
    requires forall i :: 0 <= i < |ms| ==> DistinctKeys(ns[places[i]].value)
    ensures DistinctKeys(Object(ns))
  {
    forall j: nat | j < |ns|
      ensures DistinctKeys(ns[j].value)
    {
      assert j in places;
    }
  }

  /** The meaning of the member found under a name. */
  ghost function MeantUnder(ms: seq<Member>, key: seq<byte>): Meaning
    requires key in Keys(ms)
  {
    FirstFinds(ms, key);
    Meant(ms[First(ms, key)].value)
  }

  lemma MeaningByName(ms: seq<Member>, ns: seq<Member>)
    requires Keys(ms) == Keys(ns) && forall key :: key in Keys(ms) ==> MeantUnder(ms, key) == MeantUnder(ns, key)
    ensures Meant(Object(ms)) == Meant(Object(ns))
  {
    forall key | key in Keys(ms)
      ensures Meant(Object(ms)).members[key] == Meant(Object(ns)).members[key]
    {
      assert Meant(Object(ms)).members[key] == MeantUnder(ms, key);
      assert Meant(Object(ns)).members[key] == MeantUnder(ns, key);
    }
    assert Meant(Object(ms)).members == Meant(Object(ns)).members;
  }

  /** Equal meanings pair the members off, name by name. */
  lemma MembersPair(ms: seq<Member>, ns: seq<Member>) returns (places: seq<nat>)
    requires DistinctNames(ms) && DistinctNames(ns) && Meant(Object(ms)) == Meant(Object(ns))
    ensures Places(places, ms, ns)
    ensures forall i :: 0 <= i < |ms| ==> Meant(ms[i].value) == Meant(ns[places[i]].value)
  {
    assert Meant(Object(ms)).members.Keys == Keys(ms) && Meant(Object(ns)).members.Keys == Keys(ns);
    places := seq(|ms|, i requires 0 <= i < |ms| => First(ns, ms[i].key));
    forall i | 0 <= i < |ms|
      ensures places[i] < |ns| && ns[places[i]].key == ms[i].key && Meant(ms[i].value) == Meant(ns[places[i]].value)
    {
      FirstIsOnly(ms, i);
      FirstFinds(ns, ms[i].key);
      assert Meant(Object(ms)).members[ms[i].key] == Meant(Object(ns)).members[ms[i].key];
    }
    KeysCount(ms);
    KeysCount(ns);
  }

  lemma {:induction false} KeysCount(ms: seq<Member>)
    requires DistinctNames(ms)
    ensures |Keys(ms)| == |ms|
  {
    if ms != [] {
      var last := |ms| - 1;
      KeysCount(ms[..last]);
      assert Keys(ms) == Keys(ms[..last]) + {ms[last].key};
    }
  }

  /** Trees of integers without repeated names compare equal if and only if they are, up to the order of members. */
  lemma {:induction false} SameUpToOrder(a: Json, b: Json)
    requires DistinctKeys(a) && DistinctKeys(b) && Integral(a) && Integral(b)
    ensures Same(a, b) <==> Reordered(a, b)
    decreases a
  {
    DistinctSame(a, b);
    if Reordered(a, b) {
      OrderIrrelevant(a, b);
    }
    if Meant(a) == Meant(b) {
      MeaningOrders(a, b);
    }
  }

  lemma {:induction false} MeaningOrders(a: Json, b: Json)
    requires DistinctKeys(a) && DistinctKeys(b) && Integral(a) && Integral(b) && Meant(a) == Meant(b)
    ensures Reordered(a, b)
    decreases a
  {
    match a
    case Array(xs) =>
      assert |Meant(a).items| == |xs| && |Meant(b).items| == |b.items|;
      forall i | 0 <= i < |xs|
        ensures Reordered(xs[i], b.items[i])
      {
        assert Meant(a).items[i] == Meant(xs[i]) && Meant(b).items[i] == Meant(b.items[i]);
        MeaningOrders(xs[i], b.items[i]);
      }
    case Object(ms) =>
      var places := MembersPair(ms, b.members);
      forall i | 0 <= i < |ms|
        ensures Reordered(ms[i].value, b.members[places[i]].value)
      {
        MeaningOrders(ms[i].value, b.members[places[i]].value);
      }
    case _ =>
  }
}
