/** The board allocator and the default one. */
module Board {
  import opened SlotSets
  import opened Devices
  import opened Spider

  predicate SizeAlwaysFails(size: nat) { size > 8 || size <= 1 || size % 2 == 1 }

  /** Whether the board allocator succeeds under a policy, given the rings that were found. */
  ghost predicate BoardAccepts(policy: Policy, size: nat, rings: seq<Ring>) {
    if rings == [] then policy == BestEffort || SizeAlwaysFails(size)
    else policy == Restricted && size == 2 ==> Best(rings) >= 2
  }

  function SerialNumber(): Device -> string { (d: Device) => d.sn }

  // ----- filtering by link group -----

  /** `s` is in the group at `i` and in none before it. */
  ghost predicate FirstIn(groups: seq<seq<nat>>, i: int, s: nat) {
    0 <= i < |groups| && s in groups[i] && forall j :: 0 <= j < i ==> s !in groups[j]
  }

  /** The slots of `available` whose first group is the one at `i`, in order. */
  ghost function Picked(available: seq<nat>, groups: seq<seq<nat>>, i: int): seq<nat> {
    if available == [] then []
    else
      var last := |available| - 1;
      Picked(available[..last], groups, i) + if FirstIn(groups, i, available[last]) then [available[last]] else []
  }

  ghost predicate Grouped(groups: seq<seq<nat>>, s: nat) { exists i :: FirstIn(groups, i, s) }

  function Count(): seq<nat> -> int { (g: seq<nat>) => |g| }

  /** The link groups cut down to the available slots, the emptiest first and equal ones in the order of the groups. */
  ghost predicate IsFiltered(filtered: seq<seq<nat>>, available: seq<nat>, groups: seq<seq<nat>>) {
    SmallestFirst(filtered) &&
    exists lists, places ::
      IsPicked(lists, available, groups) && Permutes(places, lists, filtered) && Stable(places, filtered, Count())
  }

  ghost predicate IsPicked(lists: seq<seq<nat>>, available: seq<nat>, groups: seq<seq<nat>>) {
    |lists| == |groups| && forall i :: 0 <= i < |groups| ==> lists[i] == Picked(available, groups, i)
  }

  method FilterAvailableDevsByGroup(available: seq<nat>, groups: seq<seq<nat>>)
    returns (ok: bool, filtered: seq<seq<nat>>)
    ensures ok <==> GroupsCover(groups, available)
    ensures ok ==> IsFiltered(filtered, available, groups)
  {
    filtered := [];
    if |groups| == 0 {
      return false, [];
    }
    var lists: seq<seq<nat>> := seq(|groups|, _ => []);
    for d := 0 to |available|
      invariant forall s :: s in available[..d] ==> Grouped(groups, s)
      invariant IsPicked(lists, available[..d], groups)
    {
      var dev := available[d];
      var i := 0;
      while i < |groups| && dev !in groups[i]
        invariant 0 <= i <= |groups|
        invariant forall j :: 0 <= j < i ==> dev !in groups[j]
      {
        i := i + 1;
      }
      assert available[..d + 1][..d] == available[..d] && available[..d + 1][d] == dev;
      if i == |groups| {
        assert !Grouped(groups, dev) && dev in available;
        return false, [];
      }
      assert FirstIn(groups, i, dev);
      assert available[..d + 1] == available[..d] + [dev];
      lists := lists[i := lists[i] + [dev]];
    }
    assert available[..|available|] == available;
    ghost var places;
    filtered, places := SortStableBy(lists, Count());
    ok := true;
  }

  lemma {:induction false} PickedMembers(available: seq<nat>, groups: seq<seq<nat>>, i: int)
    ensures forall s :: s in Picked(available, groups, i) <==> s in available && FirstIn(groups, i, s)
    ensures Distinct(available) ==> Distinct(Picked(available, groups, i))
  {
    if available != [] {
      var last := |available| - 1;
      PickedMembers(available[..last], groups, i);
      assert available == available[..last] + [available[last]];
    }
  }

  /** Whatever the driver's groups, the filtered ones share no slot. */
  lemma FilteredSeparate(filtered: seq<seq<nat>>, available: seq<nat>, groups: seq<seq<nat>>)
    requires IsFiltered(filtered, available, groups) && Distinct(available)
    ensures Separate(filtered)
    ensures forall s :: s in Flat(filtered) ==> s in available
  {
    var lists, places :|
      IsPicked(lists, available, groups) && Permutes(places, lists, filtered) && Stable(places, filtered, Count());
    forall i | 0 <= i < |lists|
      ensures Distinct(lists[i]) && forall s :: s in lists[i] ==> s in available && FirstIn(groups, i, s)
    {
      PickedMembers(available, groups, i);
    }
    assert Separate(lists) by {
      forall i, j | 0 <= i < j < |lists|
        ensures Disjoint(lists[i], lists[j])
      {
        assert forall s :: s in lists[i] ==> FirstIn(groups, i, s);
      }
    }
    SortedSeparate(places, lists, filtered);
    forall s | s in Flat(filtered)
      ensures s in available
    {
      FlatMembers(filtered, s);
    }
  }

  // ----- the allocator -----

  /** The driver has groups, and they cover the available slots. */
  ghost predicate GroupsCover(groups: seq<seq<nat>>, available: seq<nat>) {
    groups != [] && forall s :: s in available ==> Grouped(groups, s)
  }

  /** What the allocator is left with when the driver's groups do not cover the available slots. */
  ghost predicate UsableGroups(filtered: seq<seq<nat>>, available: seq<nat>, groups: seq<seq<nat>>) {
    if GroupsCover(groups, available) then IsFiltered(filtered, available, groups) else filtered == []
  }

  /** Without rings and without groups, the smallest boards are drained. */
  ghost predicate DrainsBoards(available: seq<nat>, devs: map<string, Device>, slots: seq<nat>) {
    exists boards ::
      && IsSplit(boards, available, devs, SerialNumber()) && SmallestFirst(boards)
      && KeepsLargestWhole(boards, slots)
  }

  /** Without rings, the boards inside the smallest groups are drained, and then what is left. */
  ghost predicate DrainsGroups(available: seq<nat>, groups: seq<seq<nat>>, devs: map<string, Device>, slots: seq<nat>) {
    exists filtered, boards ::
      && IsFiltered(filtered, available, groups)
      && IsSplit(boards, available, devs, SerialNumber()) && SmallestFirst(boards)
      && slots <= InDrainingOrder(available, filtered, boards)
      && (BoardsWithin(boards, filtered) ==> KeepsLargestWhole(filtered, slots))
  }

  ghost predicate BoardAnswers(policy: Policy, available: seq<nat>, groups: seq<seq<nat>>, devs: map<string, Device>,
                               size: nat, answer: Answer, r: Result) {
    match answer
    case Timeout => r == if policy == BestEffort && size <= |available| then Slots(available[..size]) else Error
    case Fails => r.Error?
    case Rings(rings) =>
      && (r.Slots? <==> BoardAccepts(policy, size, rings))
      && (r.Slots? && rings == [] ==>
            if GroupsCover(groups, available) then DrainsGroups(available, groups, devs, r.slots)
            else DrainsBoards(available, devs, r.slots))
      && (r.Slots? && rings != [] ==>
            exists filtered, ring ::
              && UsableGroups(filtered, available, groups)
              && IsTightest(ring, rings, filtered) && r.slots == ring.ordinals)
  }

  method Allocate(policy: Policy, available: seq<nat>, groups: seq<seq<nat>>, devs: map<string, Device>, size: nat,
                  answer: Answer)
    returns (r: Result)
    requires OwnSlots(devs) && Drawn(available, devs) && 1 <= size <= |available|
    requires answer.Rings? ==> SoundRings(answer.rings, available, size)
    ensures r.Slots? ==> IsAllocation(r.slots, available, size)
    ensures BoardAnswers(policy, available, groups, devs, size, answer, r)
  {
    hide OwnSlots, IsSplit, IsFiltered, GroupsCover, DrainsBoards, DrainsGroups, IsTightest, Separate;
    match answer
    case Timeout =>
      if policy != BestEffort {
        return Error;
      }
      return Slots(available[..size]);
    case Fails => return Error;
    case Rings(found) =>
      var rings := SortRings(found);
      var boards := SplitBy(available, devs, SerialNumber());
      var usable, filtered := FilterAvailableDevsByGroup(available, groups);
      if |rings| == 0 {
        assert found == [];
        if policy != BestEffort && !SizeAlwaysFails(size) {
          return Error;
        }
        var slots := DrainWithoutRings(available, groups, devs, size, boards, usable, filtered);
        return Slots(slots);
      }
      FirstIsBest(found, rings);
      if policy == Restricted && size == 2 && rings[0].nonConflict < 2 {
        return Error;
      }
      if !usable {
        filtered := [];
      }
      var ring := ChooseRing(rings, filtered);
      SameRings(ring, rings, found, filtered);
      assert ring in found by { TightestIsRing(ring, found, filtered); }
      assert UsableGroups(filtered, available, groups);
      return Slots(ring.ordinals);
  }

  lemma FirstIsBest(found: seq<Ring>, rings: seq<Ring>)
    requires rings != [] && forall q :: q in found <==> q in rings
    requires forall i, j :: 0 <= i < j < |rings| ==> rings[i].nonConflict >= rings[j].nonConflict
    ensures found != [] && Best(found) == rings[0].nonConflict
  {
    assert rings[0] in rings;
    assert IsBest(rings[0], found) by {
      assert forall q :: q in found ==> q in rings;
    }
    BestIs(found, rings[0]);
  }

  lemma TightestIsRing(ring: Ring, rings: seq<Ring>, groups: seq<seq<nat>>)
    requires IsTightest(ring, rings, groups)
    ensures ring in rings
  {
  }

  /** The branch without rings. */
  method DrainWithoutRings(available: seq<nat>, groups: seq<seq<nat>>, devs: map<string, Device>, size: nat,
                           boards: seq<seq<nat>>, usable: bool, filtered: seq<seq<nat>>)
    returns (slots: seq<nat>)
    requires OwnSlots(devs) && Drawn(available, devs) && 1 <= size <= |available|
    requires IsSplit(boards, available, devs, SerialNumber()) && SmallestFirst(boards)
    requires usable <==> GroupsCover(groups, available)
    requires usable ==> IsFiltered(filtered, available, groups)
    ensures IsAllocation(slots, available, size)
    ensures if usable then DrainsGroups(available, groups, devs, slots) else DrainsBoards(available, devs, slots)
  {
    hide OwnSlots, KeepsLargestWhole, Together, Grouped, Merged, Fresh, SmallestFirst, BoardsWithin;
    SplitSize(boards, available, devs, SerialNumber());
    if !usable {
      slots := DrainSmallest(boards, size);
      DrainKeepsLargestWhole(boards, size);
      assert forall s :: s in slots ==> s in Flat(boards);
    } else {
      FilteredSeparate(filtered, available, groups);
      slots := DrainByGroup(available, filtered, boards, size);
      FilteredSize(filtered, available, groups);
      if BoardsWithin(boards, filtered) {
        DrainByGroupKeepsLargestWhole(filtered, boards, size);
        assert slots == Flat(Merged(filtered, boards))[..size];
      }
    }
  }

  /** When every available slot is in some group, the filtered groups hold them all. */
  lemma FilteredSize(filtered: seq<seq<nat>>, available: seq<nat>, groups: seq<seq<nat>>)
    requires IsFiltered(filtered, available, groups) && Distinct(available) && Separate(filtered)
    requires forall s :: s in available ==> Grouped(groups, s)
    ensures |Flat(filtered)| == |available|
    ensures forall s :: s in Flat(filtered) <==> s in available
  {
    var lists, places :| IsPicked(lists, available, groups) && Permutes(places, lists, filtered);
    FilteredSeparate(filtered, available, groups);
    forall s | s in available
      ensures s in Flat(filtered)
    {
      var i :| FirstIn(groups, i, s);
      PickedMembers(available, groups, i);
      EveryPlace(places, i);
      var k :| 0 <= k < |places| && places[k] == i;
      assert filtered[k] == lists[i];
      FlatMembers(filtered, s);
    }
    FlatDistinct(filtered);
    DistinctSize(available);
    DistinctSize(Flat(filtered));
    assert Elements(available) == Elements(Flat(filtered));
  }

  /** What is taken so far, and that it can be completed. */
  ghost predicate Draining(drain: Drain, available: seq<nat>, size: nat)
    reads drain
  {
    && drain.needed > 0 && drain.needed == size - |drain.taken|
    && Distinct(drain.taken) && forall s :: s in drain.taken ==> s in available
  }

  /** The boards that lie inside a group. */
  ghost function InsideOf(g: seq<nat>, boards: seq<seq<nat>>): seq<seq<nat>> {
    if boards == [] then []
    else
      var last := |boards| - 1;
      InsideOf(g, boards[..last]) + if ContainsAll(g, boards[last]) then [boards[last]] else []
  }

  /** For each group, the slots of the boards inside it. */
  ghost function Merged(groups: seq<seq<nat>>, boards: seq<seq<nat>>): (m: seq<seq<nat>>)
    ensures |m| == |groups|
  {
    seq(|groups|, i requires 0 <= i < |groups| => Flat(InsideOf(groups[i], boards)))
  }

  /** The order in which the fallback with groups takes slots: the boards inside each group, then what is left. */
  ghost function InDrainingOrder(available: seq<nat>, groups: seq<seq<nat>>, boards: seq<seq<nat>>): seq<nat> {
    var merged := Flat(Merged(groups, boards));
    merged + Fresh(available, merged)
  }

  ghost predicate GroupsDisjoint(groups: seq<seq<nat>>) {
    forall i, j :: 0 <= i < j < |groups| ==> Disjoint(groups[i], groups[j])
  }

  lemma {:induction false} InsideOfMembers(g: seq<nat>, boards: seq<seq<nat>>, s: nat)
    ensures s in Flat(InsideOf(g, boards)) <==>
            exists b :: 0 <= b < |boards| && ContainsAll(g, boards[b]) && s in boards[b]
  {
    if boards != [] {
      var last := |boards| - 1;
      var front := boards[..last];
      InsideOfMembers(g, front, s);
      InsideOfMore(g, boards, last);
      assert boards[..last + 1] == boards;
      if b :| 0 <= b < |boards| && ContainsAll(g, boards[b]) && s in boards[b] {
        assert b < last ==> front[b] == boards[b];
      }
      if b :| 0 <= b < |front| && ContainsAll(g, front[b]) && s in front[b] {
        assert boards[b] == front[b];
      }
    }
  }

  /** One more board. */
  lemma InsideOfMore(g: seq<nat>, boards: seq<seq<nat>>, b: nat)
    requires b < |boards|
    ensures Flat(InsideOf(g, boards[..b + 1])) ==
            Flat(InsideOf(g, boards[..b])) + if ContainsAll(g, boards[b]) then boards[b] else []
  {
    var now := boards[..b + 1];
    assert now[..b] == boards[..b] && now[b] == boards[b];
    var more := if ContainsAll(g, boards[b]) then [boards[b]] else [];
    assert InsideOf(g, now) == InsideOf(g, boards[..b]) + more;
    FlatConcat(InsideOf(g, boards[..b]), more);
    FlatOne(boards[b]);
  }

  /** A board inside a group shares nothing with what was taken from earlier groups and earlier boards. */
  lemma BoardIsNew(groups: seq<seq<nat>>, boards: seq<seq<nat>>, g: nat, b: nat)
    requires GroupsDisjoint(groups) && Separate(boards) && g < |groups| && b < |boards| &&
             ContainsAll(groups[g], boards[b])
    ensures Disjoint(boards[b], Flat(Merged(groups, boards)[..g]) + Flat(InsideOf(groups[g], boards[..b])))
  {
    var merged := Merged(groups, boards);
    forall s | s in boards[b]
      ensures s !in Flat(merged[..g]) && s !in Flat(InsideOf(groups[g], boards[..b]))
    {
      FlatMembers(merged[..g], s);
      forall i: nat | i < g
        ensures s !in merged[i]
      {
        InsideOfMembers(groups[i], boards, s);
        assert Disjoint(groups[i], groups[g]);
      }
      InsideOfMembers(groups[g], boards[..b], s);
      forall c: nat | c < b
        ensures s !in boards[c]
      {
        assert Disjoint(boards[c], boards[b]);
      }
    }
  }

  /** What is taken after `b` boards of group `g` starts what all groups give. */
  lemma TakenIsPrefix(groups: seq<seq<nat>>, boards: seq<seq<nat>>, g: nat, b: nat)
    requires g < |groups| && b <= |boards|
    ensures
      var m := Merged(groups, boards);
      Flat(m[..g]) + Flat(InsideOf(groups[g], boards[..b])) <= Flat(m)
    ensures Flat(Merged(groups, boards)[..g + 1]) ==
            Flat(Merged(groups, boards)[..g]) + Flat(InsideOf(groups[g], boards))
  {
    hide Flat, InsideOf;
    var m := Merged(groups, boards);
    FlatAt(m, g);
    InsideOfGrows(groups[g], boards, b, |boards|);
    assert boards[..|boards|] == boards;
    var front, part, all := Flat(m[..g]), Flat(InsideOf(groups[g], boards[..b])), Flat(InsideOf(groups[g], boards));
    assert front + part <= front + all;
  }

  lemma {:induction false} InsideOfGrows(g: seq<nat>, boards: seq<seq<nat>>, b: nat, c: nat)
    requires b <= c <= |boards|
    ensures Flat(InsideOf(g, boards[..b])) <= Flat(InsideOf(g, boards[..c]))
  {
    if b < c {
      InsideOfGrows(g, boards, b, c - 1);
      InsideOfMore(g, boards, c - 1);
    }
  }

  /**
   The fallback with groups: the boards inside the smallest group first, and at last any available slot; the error
   after that cannot be reached.
   */
  method DrainByGroup(available: seq<nat>, groups: seq<seq<nat>>, boards: seq<seq<nat>>, size: nat)
    returns (slots: seq<nat>)
    requires Distinct(available) && 1 <= size <= |available| && GroupsDisjoint(groups)
    requires Separate(boards) && forall s :: s in Flat(boards) ==> s in available
    ensures IsAllocation(slots, available, size)
    ensures slots <= InDrainingOrder(available, groups, boards)
  {
    hide Separate, GroupsDisjoint, Flat, InsideOf, Merged, Fresh, ContainsAll, Distinct;
    var drain := new Drain(size);
    ghost var merged := Merged(groups, boards);
    assert Flat(merged[..0]) == [] && Distinct(drain.taken) by { NothingFlat(); }
    for g := 0 to |groups|
      invariant Draining(drain, available, size)
      invariant drain.taken == Flat(merged[..g])
    {
      assert Flat(InsideOf(groups[g], boards[..0])) == [] by { NothingFlat(); }
      for b := 0 to |boards|
        invariant Draining(drain, available, size)
        invariant drain.taken == Flat(merged[..g]) + Flat(InsideOf(groups[g], boards[..b]))
      {
        InsideOfMore(groups[g], boards, b);
        TakenIsPrefix(groups, boards, g, b + 1);
        if ContainsAll(groups[g], boards[b]) {
          BoardAvailable(boards, b, available);
          BoardIsNew(groups, boards, g, b);
          FreshOfDisjoint(boards[b], drain.taken);
          TakenStays(drain.taken, boards[b], drain.needed);
          var enough := drain.AllocateRemainingFrom(boards[b]);
          if enough {
            return drain.taken;
          }
        }
      }
      assert boards[..|boards|] == boards;
      TakenIsPrefix(groups, boards, g, |boards|);
    }
    assert merged[..|groups|] == merged;
    TakenStays(drain.taken, available, drain.needed);
    FreshCount(available, drain.taken);
    var enough := drain.AllocateRemainingFrom(available);
    assert enough;
    return drain.taken;
  }

  lemma NothingFlat()
    ensures Flat([]) == [] && Distinct<nat>([])
    ensures forall g :: InsideOf(g, []) == []
  {
  }

  lemma BoardAvailable(boards: seq<seq<nat>>, b: nat, available: seq<nat>)
    requires Separate(boards) && b < |boards| && forall s :: s in Flat(boards) ==> s in available
    ensures Distinct(boards[b]) && forall s :: s in boards[b] ==> s in available
  {
    forall s | s in boards[b]
      ensures s in available
    {
      FlatMembers(boards, s);
    }
  }

  /** Every board lies inside one group. */
  ghost predicate BoardsWithin(boards: seq<seq<nat>>, groups: seq<seq<nat>>) {
    forall b :: 0 <= b < |boards| ==> exists g :: 0 <= g < |groups| && ContainsAll(groups[g], boards[b])
  }

  /** When no board straddles two groups, draining by group keeps the largest groups whole. */
  lemma DrainByGroupKeepsLargestWhole(groups: seq<seq<nat>>, boards: seq<seq<nat>>, size: nat)
    requires Separate(groups) && Separate(boards) && BoardsWithin(boards, groups)
    requires forall s :: s in Flat(groups) ==> s in Flat(boards)
    requires size <= |Flat(groups)|
    ensures size <= |Flat(Merged(groups, boards))|
    ensures KeepsLargestWhole(groups, Flat(Merged(groups, boards))[..size])
  {
    hide Flat, Left, Largest, KeepsLargestWhole, ContainsAll;
    var merged := Merged(groups, boards);
    forall g | 0 <= g < |groups|
      ensures Elements(merged[g]) == Elements(groups[g]) && Distinct(merged[g])
    {
      MergedIsGroup(groups, boards, g);
    }
    SeparateToo(groups, merged);
    SameWindow(merged, groups, 0);
    DrainKeepsLargestWhole(merged, size);
    var taken := Flat(merged)[..size];
    SameLeft(groups, merged, taken);
  }

  /** Groups with the same members keep a window of their slots whole together. */
  lemma SameLeft(groups: seq<seq<nat>>, merged: seq<seq<nat>>, taken: seq<nat>)
    requires Separate(groups) && Separate(merged) && |merged| == |groups|
    requires forall g :: 0 <= g < |groups| ==> Elements(merged[g]) == Elements(groups[g])
    requires KeepsLargestWhole(merged, taken)
    ensures KeepsLargestWhole(groups, taken)
  {
    hide Flat, Distinct, Disjoint, Elements;
    SameWindow(merged, groups, 0);
    assert merged[0..] == merged && groups[0..] == groups;
    forall k | 0 <= k <= |groups|
      ensures Left(Largest(groups, k), taken) == Left(Largest(merged, k), taken)
      ensures |Flat(Largest(groups, k))| == |Flat(Largest(merged, k))|
    {
      SameWindow(merged, groups, |groups| - k);
      assert (set s | s in Flat(Largest(groups, k)) && s !in taken) ==
             (set s | s in Flat(Largest(merged, k)) && s !in taken);
    }
  }

  lemma SeparateToo(groups: seq<seq<nat>>, merged: seq<seq<nat>>)
    requires Separate(groups) && |merged| == |groups|
    requires forall g :: 0 <= g < |groups| ==> Elements(merged[g]) == Elements(groups[g]) && Distinct(merged[g])
    ensures Separate(merged)
  {
    hide Distinct;
    forall i, j | 0 <= i < j < |merged|
      ensures Disjoint(merged[i], merged[j])
    {
      assert Disjoint(groups[i], groups[j]);
      assert forall s :: s in merged[i] ==> s in Elements(merged[i]);
      assert forall s :: s in merged[j] ==> s in Elements(merged[j]);
    }
  }

  lemma MergedIsGroup(groups: seq<seq<nat>>, boards: seq<seq<nat>>, g: nat)
    requires Separate(groups) && Separate(boards) && BoardsWithin(boards, groups) && g < |groups|
    requires forall s :: s in Flat(groups) ==> s in Flat(boards)
    ensures Elements(Merged(groups, boards)[g]) == Elements(groups[g]) && Distinct(Merged(groups, boards)[g])
  {
    forall s
      ensures s in Flat(InsideOf(groups[g], boards)) <==> s in groups[g]
    {
      InsideOfMembers(groups[g], boards, s);
      if s in groups[g] {
        FlatMembers(groups, s);
        FlatMembers(boards, s);
        var b :| 0 <= b < |boards| && s in boards[b];
        var h :| 0 <= h < |groups| && ContainsAll(groups[h], boards[b]);
        assert h < g ==> Disjoint(groups[h], groups[g]);
        assert g < h ==> Disjoint(groups[g], groups[h]);
      }
    }
    InsideOfDistinct(groups[g], boards);
  }

  lemma {:induction false} InsideOfDistinct(g: seq<nat>, boards: seq<seq<nat>>)
    requires Separate(boards)
    ensures Distinct(Flat(InsideOf(g, boards)))
  {
    if boards != [] {
      var last := |boards| - 1;
      var front := boards[..last];
      InsideOfDistinct(g, front);
      InsideOfMore(g, boards, last);
      assert boards[..last + 1] == boards;
      forall s | s in Flat(InsideOf(g, front))
        ensures s !in boards[last]
      {
        InsideOfMembers(g, front, s);
        var b :| 0 <= b < |front| && ContainsAll(g, front[b]) && s in front[b];
        assert Disjoint(boards[b], boards[last]);
      }
      DistinctConcat(Flat(InsideOf(g, front)), boards[last]);
    }
  }

  /** Groups with the same members, distinct in each, have the same slots from any point on. */
  lemma {:induction false} SameWindow(a: seq<seq<nat>>, b: seq<seq<nat>>, from: nat)
    requires |a| == |b| && from <= |a|
    requires forall i :: 0 <= i < |a| ==> Elements(a[i]) == Elements(b[i]) && Distinct(a[i]) && Distinct(b[i])
    ensures |Flat(a[from..])| == |Flat(b[from..])| && forall s :: s in Flat(a[from..]) <==> s in Flat(b[from..])
    ensures a[0..] == a && b[0..] == b
    decreases |a| - from
  {
    if from < |a| {
      SameWindow(a, b, from + 1);
      assert a[from..][1..] == a[from + 1..] && b[from..][1..] == b[from + 1..];
      DistinctSize(a[from]);
      DistinctSize(b[from]);
      assert forall s :: s in a[from] <==> s in Elements(a[from]);
      assert forall s :: s in b[from] <==> s in Elements(b[from]);
    }
  }

  /** Taking fresh devices keeps the taken ones distinct. */
  lemma TakenStays(taken: seq<nat>, devices: seq<nat>, needed: nat)
    requires Distinct(taken) && Distinct(devices)
    ensures var ready := Fresh(devices, taken);
            && Distinct(taken + ready) && (forall s :: s in ready ==> s in devices)
            && (needed <= |ready| ==> Distinct(taken + ready[..needed]))
  {
    var ready := Fresh(devices, taken);
    FreshMembers(devices, taken);
    DistinctConcat(taken, ready);
    if needed <= |ready| {
      forall i, j | 0 <= i < j < |ready[..needed]|
        ensures ready[..needed][i] != ready[..needed][j]
      {
        assert ready[i] != ready[j];
      }
      DistinctConcat(taken, ready[..needed]);
    }
  }

  /** As many available slots are fresh as have not been taken. */
  lemma FreshCount(available: seq<nat>, taken: seq<nat>)
    requires Distinct(available) && Distinct(taken) && forall s :: s in taken ==> s in available
    ensures |Fresh(available, taken)| == |available| - |taken|
  {
    var ready := Fresh(available, taken);
    FreshMembers(available, taken);
    DistinctSize(available);
    DistinctSize(taken);
    DistinctSize(ready);
    assert Elements(ready) == Elements(available) - Elements(taken);
    assert Elements(taken) <= Elements(available);
  }

  // ----- the default allocator -----

  /** What the default allocator means by its result: a best ring, or under best effort the first slots. */
  ghost predicate DefaultAnswers(policy: Policy, available: seq<nat>, size: nat, answer: Answer, r: Result)
    requires size <= |available|
  {
    if size == 1 || size == 8 == |available| then r == Slots(available[..size])
    else
      match answer
      case Fails => r.Error?
      case Timeout => r == if policy == BestEffort then Slots(available[..size]) else Error
      case Rings(rings) =>
        if rings == [] then r == if policy == BestEffort then Slots(available[..size]) else Error
        else r.Slots? && exists ring :: IsBest(ring, rings) && r.slots == ring.ordinals
  }

  /** `defaultAllocator.Allocate` */
  method AllocateDefault(policy: Policy, available: seq<nat>, size: nat, answer: Answer) returns (r: Result)
    requires Distinct(available) && 1 <= size <= |available|
    requires answer.Rings? ==> SoundRings(answer.rings, available, size)
    ensures r.Slots? ==> IsAllocation(r.slots, available, size)
    ensures DefaultAnswers(policy, available, size, answer, r)
  {
    if (|available| > 0 && size == 1) || (|available| == size && size == 8) {
      return Slots(available[..size]);
    }
    match answer
    case Timeout =>
      if policy != BestEffort {
        return Error;
      }
      return Slots(available[..size]);
    case Fails => return Error;
    case Rings(found) =>
      var rings := SortRings(found);
      if |rings| == 0 {
        assert found == [];
        if policy != BestEffort {
          return Error;
        }
        return Slots(available[..size]);
      }
      assert IsBest(rings[0], found) by {
        assert forall q :: q in found ==> q in rings;
      }
      return Slots(rings[0].ordinals);
  }
}
