/** Splitting the available devices by board or motherboard, and choosing among rings. */
module Devices {
  import opened SlotSets

  datatype Device = Device(slot: nat, motherBoard: string, sn: string)

  /** `cntopo.Ring` */
  datatype Ring = Ring(ordinals: seq<nat>, nonConflict: int)

  /** What `GetRings` answers in time. */
  datatype Answer = Timeout | Fails | Rings(rings: seq<Ring>)

  datatype Policy = BestEffort | Restricted | Guaranteed

  datatype Result = Error | Slots(slots: seq<nat>)

  /** Each device has its own slot. */
  ghost predicate OwnSlots(devs: map<string, Device>) {
    forall a, b :: a in devs && b in devs && devs[a].slot == devs[b].slot ==> a == b
  }

  ghost predicate IsSlotOf(devs: map<string, Device>, u: string, s: nat) { u in devs && devs[u].slot == s }

  /** The available slots are distinct and are slots of devices. */
  ghost predicate Drawn(available: seq<nat>, devs: map<string, Device>) {
    Distinct(available) && forall s :: s in available ==> exists u :: IsSlotOf(devs, u, s)
  }

  /** Each ring that `GetRings` finds has `size` distinct ordinals, taken from `available`. */
  ghost predicate SoundRings(rings: seq<Ring>, available: seq<nat>, size: nat) {
    forall r :: r in rings ==>
      Distinct(r.ordinals) && |r.ordinals| == size && forall s :: s in r.ordinals ==> s in available
  }

  /** `size` distinct available slots. */
  ghost predicate IsAllocation(slots: seq<nat>, available: seq<nat>, size: nat) {
    Distinct(slots) && |slots| == size && forall s :: s in slots ==> s in available
  }

  // ----- splitting -----

  /** `u` is the device on slot `s`, and its key is `k`. */
  ghost predicate Keyed(devs: map<string, Device>, key: Device -> string, u: string, s: nat, k: string) {
    u in devs && devs[u].slot == s && key(devs[u]) == k
  }

  ghost predicate Together(devs: map<string, Device>, key: Device -> string, s: nat, t: nat) {
    exists u, v, k :: Keyed(devs, key, u, s, k) && Keyed(devs, key, v, t, k)
  }

  /** The available slots, split so that two are in one group exactly when their devices share the key. */
  ghost predicate IsSplit(groups: seq<seq<nat>>, available: seq<nat>, devs: map<string, Device>,
                          key: Device -> string) {
    && Separate(groups) && (forall i :: 0 <= i < |groups| ==> groups[i] != [])
    && (forall s :: s in available <==> s in Flat(groups))
    && (forall g, s, t :: g in groups && s in g && t in available ==> (t in g <==> Together(devs, key, s, t)))
  }

  ghost predicate SmallestFirst(groups: seq<seq<nat>>) {
    forall i, j :: 0 <= i < j < |groups| ==> |groups[i]| <= |groups[j]|
  }

  /** Available slots of devices with the key. */
  ghost predicate AllOf(g: seq<nat>, k: string, available: seq<nat>, seen: map<string, Device>, key: Device -> string) {
    forall s: nat :: s in g ==> s in available && exists u :: Keyed(seen, key, u, s, k)
  }

  /** What the first loop collects: for each key, the available slots of the devices seen so far. */
  ghost predicate Collected(boards: map<string, seq<nat>>, available: seq<nat>, seen: map<string, Device>,
                            key: Device -> string) {
    && (forall k :: k in boards ==> boards[k] != [] && Distinct(boards[k]))
    && (forall k :: k in boards ==> AllOf(boards[k], k, available, seen, key))
    && (forall u :: u in seen && seen[u].slot in available ==>
          key(seen[u]) in boards && seen[u].slot in boards[key(seen[u])])
  }

  /** `splitByBoards` and `splitByMotherBoards` */
  method SplitBy(available: seq<nat>, devs: map<string, Device>, key: Device -> string) returns (groups: seq<seq<nat>>)
    requires OwnSlots(devs) && Drawn(available, devs)
    ensures IsSplit(groups, available, devs, key) && SmallestFirst(groups)
  {
    var boards: map<string, seq<nat>> := map[];
    ghost var seen: map<string, Device> := map[];
    var rest := devs.Keys;
    while rest != {}
      invariant rest <= devs.Keys && seen.Keys == devs.Keys - rest
      invariant forall u :: u in seen ==> seen[u] == devs[u]
      invariant Collected(boards, available, seen, key)
      decreases rest
    {
      var u :| u in rest;
      var dev := devs[u];
      rest := rest - {u};
      if dev.slot !in available {
        CollectNone(boards, available, devs, seen, key, u);
      } else {
        CollectOne(boards, available, devs, seen, key, u);
        boards := boards[key(dev) := (if key(dev) in boards then boards[key(dev)] else []) + [dev.slot]];
      }
      seen := seen[u := dev];
    }
    assert seen == devs;
    var lists := ListGroups(boards, available, devs, key);
    ghost var places;
    groups, places := SortBy(lists, (g: seq<nat>) => |g|);
    SortedSplit(places, lists, groups, available, devs, key);
  }

  lemma CollectNone(boards: map<string, seq<nat>>, available: seq<nat>, devs: map<string, Device>,
                    seen: map<string, Device>, key: Device -> string, u: string)
    requires u in devs && u !in seen && devs[u].slot !in available && Collected(boards, available, seen, key)
    ensures Collected(boards, available, seen[u := devs[u]], key)
  {
    var seen' := seen[u := devs[u]];
    forall k, s: nat | k in boards && s in boards[k]
      ensures s in available && exists v :: Keyed(seen', key, v, s, k)
    {
      assert AllOf(boards[k], k, available, seen, key);
      var v :| Keyed(seen, key, v, s, k);
      assert Keyed(seen', key, v, s, k);
    }
  }

  lemma CollectOne(boards: map<string, seq<nat>>, available: seq<nat>, devs: map<string, Device>,
                   seen: map<string, Device>, key: Device -> string, u: string)
    requires OwnSlots(devs) && u in devs && u !in seen && devs[u].slot in available
    requires forall v :: v in seen ==> v in devs && seen[v] == devs[v]
    requires Collected(boards, available, seen, key)
    ensures
      var k := key(devs[u]);
      Collected(boards[k := (if k in boards then boards[k] else []) + [devs[u].slot]], available,
                seen[u := devs[u]], key)
  {
    var dev := devs[u];
    var k := key(dev);
    var was := if k in boards then boards[k] else [];
    var after, seen' := boards[k := was + [dev.slot]], seen[u := dev];
    assert forall v :: v in seen ==> seen[v].slot != dev.slot;
    assert dev.slot !in was;
    forall j, s: nat | j in after && s in after[j]
      ensures s in available && exists v :: Keyed(seen', key, v, s, j)
    {
      if j == k && s == dev.slot {
        assert Keyed(seen', key, u, s, j);
      } else {
        assert j in boards && s in boards[j];
        var v :| Keyed(seen, key, v, s, j);
        assert Keyed(seen', key, v, s, j);
      }
    }
  }

  /** The second loop: the lists of the map, in any order. */
  method ListGroups(boards: map<string, seq<nat>>, available: seq<nat>, devs: map<string, Device>,
                    key: Device -> string)
    returns (lists: seq<seq<nat>>)
    requires OwnSlots(devs) && Drawn(available, devs) && Collected(boards, available, devs, key)
    ensures IsSplit(lists, available, devs, key)
  {
    lists := [];
    ghost var keys: seq<string> := [];
    var rest := boards.Keys;
    while rest != {}
      invariant rest <= boards.Keys && |keys| == |lists|
      invariant forall i :: 0 <= i < |keys| ==> keys[i] in boards && keys[i] !in rest && lists[i] == boards[keys[i]]
      invariant forall i, j :: 0 <= i < j < |keys| ==> keys[i] != keys[j]
      invariant forall k :: k in boards && k !in rest ==> k in keys
      decreases rest
    {
      var k :| k in rest;
      rest := rest - {k};
      lists, keys := lists + [boards[k]], keys + [k];
    }
    ListsSplit(lists, keys, boards, available, devs, key);
  }

  lemma ListsSplit(lists: seq<seq<nat>>, keys: seq<string>, boards: map<string, seq<nat>>, available: seq<nat>,
                   devs: map<string, Device>, key: Device -> string)
    requires OwnSlots(devs) && Drawn(available, devs) && Collected(boards, available, devs, key)
    requires |keys| == |lists|
    requires forall i :: 0 <= i < |keys| ==> keys[i] in boards && lists[i] == boards[keys[i]]
    requires forall i, j :: 0 <= i < j < |keys| ==> keys[i] != keys[j]
    requires forall k :: k in boards ==> k in keys
    ensures IsSplit(lists, available, devs, key)
  {
    forall i, j | 0 <= i < j < |lists|
      ensures Disjoint(lists[i], lists[j])
    {
      forall s | s in lists[i]
        ensures s !in lists[j]
      {
        var u :| Keyed(devs, key, u, s, keys[i]);
        assert forall v :: !Keyed(devs, key, v, s, keys[j]);
      }
    }
    forall s
      ensures s in available <==> s in Flat(lists)
    {
      FlatMembers(lists, s);
      if s in available {
        var u :| IsSlotOf(devs, u, s);
        var i :| 0 <= i < |keys| && keys[i] == key(devs[u]);
        assert s in lists[i];
      }
      if i :| 0 <= i < |lists| && s in lists[i] {
        assert s in boards[keys[i]];
      }
    }
    forall g, s, t | g in lists && s in g && t in available
      ensures t in g <==> Together(devs, key, s, t)
    {
      var i :| 0 <= i < |lists| && lists[i] == g;
      var u :| Keyed(devs, key, u, s, keys[i]);
      var v :| IsSlotOf(devs, v, t);
      if t in g {
        var w :| Keyed(devs, key, w, t, keys[i]);
      }
      if Together(devs, key, s, t) {
        var a, b, k :| Keyed(devs, key, a, s, k) && Keyed(devs, key, b, t, k);
        assert a == u && b == v;
        assert devs[v].slot in boards[key(devs[v])];
      }
    }
  }

  lemma SortedSplit(places: seq<nat>, lists: seq<seq<nat>>, groups: seq<seq<nat>>, available: seq<nat>,
                    devs: map<string, Device>, key: Device -> string)
    requires IsSplit(lists, available, devs, key) && multiset(groups) == multiset(lists) &&
             Permutes(places, lists, groups)
    ensures IsSplit(groups, available, devs, key)
  {
    PermutationKeepsMembers(lists, groups);
    SortedSeparate(places, lists, groups);
    forall s
      ensures s in available <==> s in Flat(groups)
    {
      FlatMembers(lists, s);
      FlatMembers(groups, s);
      if i :| 0 <= i < |lists| && s in lists[i] {
        assert lists[i] in groups;
      }
      if i :| 0 <= i < |groups| && s in groups[i] {
        assert groups[i] in lists;
      }
    }
  }

  /** A split has as many slots as are available. */
  lemma SplitSize(groups: seq<seq<nat>>, available: seq<nat>, devs: map<string, Device>, key: Device -> string)
    requires IsSplit(groups, available, devs, key) && Distinct(available)
    ensures Distinct(Flat(groups)) && |Flat(groups)| == |available|
  {
    FlatDistinct(groups);
    DistinctSize(available);
    DistinctSize(Flat(groups));
    assert Elements(available) == Elements(Flat(groups));
  }

  // ----- rings -----

  ghost predicate IsBest(r: Ring, rings: seq<Ring>) {
    r in rings && forall q :: q in rings ==> q.nonConflict <= r.nonConflict
  }

  ghost predicate Inside(r: Ring, g: seq<nat>) { forall s :: s in r.ordinals ==> s in g }

  /** Some best ring lies inside the group. */
  ghost predicate HoldsBest(g: seq<nat>, rings: seq<Ring>) { exists r :: IsBest(r, rings) && Inside(r, g) }

  /**
   A best ring; and if a group holds any best ring, the ring lies inside a group that is smallest among those
   that do.
   */
  ghost predicate IsTightest(r: Ring, rings: seq<Ring>, groups: seq<seq<nat>>) {
    && IsBest(r, rings)
    && ((exists g :: g in groups && HoldsBest(g, rings)) ==>
          exists g :: g in groups && Inside(r, g) && forall h :: h in groups && HoldsBest(h, rings) ==> |g| <= |h|)
  }

  /** The rings in falling order of `NonConflictRingNum`. */
  method SortRings(rings: seq<Ring>) returns (sorted: seq<Ring>)
    ensures multiset(sorted) == multiset(rings) && |sorted| == |rings|
    ensures forall r :: r in sorted <==> r in rings
    ensures forall i, j :: 0 <= i < j < |sorted| ==> sorted[i].nonConflict >= sorted[j].nonConflict
  {
    ghost var places;
    sorted, places := SortBy(rings, (r: Ring) => -r.nonConflict);
    PermutationKeepsMembers(rings, sorted);
  }

  lemma BestAreFirst(rings: seq<Ring>, candidates: seq<Ring>, q: Ring)
    requires rings != [] && candidates != [] && candidates <= rings
    requires forall i, j :: 0 <= i < j < |rings| ==> rings[i].nonConflict >= rings[j].nonConflict
    requires forall j :: 0 <= j < |candidates| ==> rings[j].nonConflict == rings[0].nonConflict
    requires |candidates| < |rings| ==> rings[|candidates|].nonConflict < rings[0].nonConflict
    ensures IsBest(q, rings) <==> q in candidates
  {
    assert IsBest(rings[0], rings);
    if IsBest(q, rings) {
      var i :| 0 <= i < |rings| && rings[i] == q;
      assert rings[0] in rings;
      assert i < |candidates|;
      assert candidates[i] == q;
    }
    if q in candidates {
      var i :| 0 <= i < |candidates| && candidates[i] == q;
      assert rings[i] == q;
    }
  }

  /** The choice both allocators make among sorted rings and sorted groups. */
  method ChooseRing(rings: seq<Ring>, groups: seq<seq<nat>>) returns (r: Ring)
    requires rings != [] && SmallestFirst(groups)
    requires forall i, j :: 0 <= i < j < |rings| ==> rings[i].nonConflict >= rings[j].nonConflict
    ensures IsTightest(r, rings, groups)
  {
    var candidates := rings;
    for i := 0 to |rings|
      invariant candidates == rings
      invariant forall j :: 0 <= j < i ==> rings[j].nonConflict == rings[0].nonConflict
    {
      if rings[i].nonConflict < rings[0].nonConflict {
        candidates := rings[..i];
        break;
      }
    }
    forall q
      ensures IsBest(q, rings) <==> q in candidates
    {
      BestAreFirst(rings, candidates, q);
    }
    for i := 0 to |groups|
      invariant forall j :: 0 <= j < i ==> !HoldsBest(groups[j], rings)
    {
      for k := 0 to |candidates|
        invariant forall j :: 0 <= j < k ==> !Inside(candidates[j], groups[i])
      {
        if ContainsAll(groups[i], candidates[k].ordinals) {
          assert IsBest(candidates[k], rings) && Inside(candidates[k], groups[i]);
          forall h | h in groups && HoldsBest(h, rings)
            ensures |groups[i]| <= |h|
          {
            var j :| 0 <= j < |groups| && groups[j] == h;
          }
          assert groups[i] in groups && Inside(candidates[k], groups[i]);
          return candidates[k];
        }
      }
    }
    return candidates[0];
  }
}
