/** The spider allocator: rings if there are any, otherwise the smallest motherboards are drained first. */
module Spider {
  import opened SlotSets
  import opened Devices

  predicate SizeAlwaysFailsToFormRing(size: nat) { size <= 1 || size > 8 }

  ghost function Best(rings: seq<Ring>): (n: int)
    requires rings != []
    ensures exists r :: IsBest(r, rings) && r.nonConflict == n
  {
    if |rings| == 1 then
      assert IsBest(rings[0], rings);
      rings[0].nonConflict
    else
      var rest := Best(rings[1..]);
      var r: Ring :| IsBest(r, rings[1..]) && r.nonConflict == rest;
      assert IsBest(if rings[0].nonConflict > rest then rings[0] else r, rings);
      if rings[0].nonConflict > rest then rings[0].nonConflict else rest
  }

  lemma BestIs(rings: seq<Ring>, r: Ring)
    requires IsBest(r, rings)
    ensures Best(rings) == r.nonConflict
  {
    var q :| IsBest(q, rings) && q.nonConflict == Best(rings);
  }

  /** Whether the allocator succeeds under a policy, given the rings that were found. */
  ghost predicate Accepts(policy: Policy, size: nat, rings: seq<Ring>) {
    if rings == [] then policy == BestEffort || SizeAlwaysFailsToFormRing(size)
    else policy == Restricted ==> (size == 4 ==> Best(rings) >= 4) && (size == 2 ==> Best(rings) >= 2)
  }

  // ----- keeping big motherboards whole -----

  /** How many slots of the groups are not taken. */
  ghost function Left(groups: seq<seq<nat>>, taken: seq<nat>): nat { |set s | s in Flat(groups) && s !in taken| }

  function Min(a: nat, b: nat): nat { if a < b then a else b }

  /** The last `k` groups: the largest ones. */
  ghost function Largest(groups: seq<seq<nat>>, k: nat): seq<seq<nat>>
    requires k <= |groups|
  {
    groups[|groups| - k..]
  }

  /** On the `k` largest groups, for every `k`, as many slots are left as the number of untaken slots allows. */
  ghost predicate KeepsLargestWhole(groups: seq<seq<nat>>, taken: seq<nat>) {
    forall k :: 0 <= k <= |groups| && |taken| <= |Flat(groups)| ==>
      Left(Largest(groups, k), taken) == Min(|Flat(Largest(groups, k))|, |Flat(groups)| - |taken|)
  }

  /** Draining in order, smallest first, keeps the largest groups whole. */
  lemma DrainKeepsLargestWhole(groups: seq<seq<nat>>, size: nat)
    requires Separate(groups) && size <= |Flat(groups)|
    ensures KeepsLargestWhole(groups, Flat(groups)[..size])
  {
    hide Separate, Left, Flat;
    forall k | 0 <= k <= |groups|
      ensures Left(Largest(groups, k), Flat(groups)[..size]) == Min(|Flat(Largest(groups, k))|, |Flat(groups)| - size)
    {
      LeftOnLargest(groups, size, k);
    }
  }

  lemma LeftOnLargest(groups: seq<seq<nat>>, size: nat, k: nat)
    requires Separate(groups) && size <= |Flat(groups)| && k <= |groups|
    ensures Left(Largest(groups, k), Flat(groups)[..size]) == Min(|Flat(Largest(groups, k))|, |Flat(groups)| - size)
  {
    hide Separate, Flat, Distinct;
    var all := Flat(groups);
    var front, back := groups[..|groups| - k], Largest(groups, k);
    FlatDistinct(groups);
    assert groups == front + back;
    FlatConcat(front, back);
    var start := |Flat(front)|;
    assert Flat(back) == all[start..];
    LeftOnTail(all, size, start);
  }

  lemma LeftOnTail(all: seq<nat>, size: nat, start: nat)
    requires Distinct(all) && size <= |all| && start <= |all|
    ensures |set s | s in all[start..] && s !in all[..size]| == Min(|all| - start, |all| - size)
  {
    hide Distinct;
    var untaken := all[if size < start then start else size..];
    forall s
      ensures s in all[start..] && s !in all[..size] <==> s in untaken
    {
      UntakenAre(all, size, start, s);
    }
    assert (set s | s in all[start..] && s !in all[..size]) == Elements(untaken);
    DistinctTail(all, if size < start then start else size);
    DistinctSize(untaken);
  }

  lemma UntakenAre(all: seq<nat>, size: nat, start: nat, s: nat)
    requires Distinct(all) && size <= |all| && start <= |all|
    ensures s in all[start..] && s !in all[..size] <==> s in all[if size < start then start else size..]
  {
    var from := if size < start then start else size;
    forall j | 0 <= j < size
      ensures all[j] in all[..size]
    {
      assert all[..size][j] == all[j];
    }
    if s in all[start..] && s !in all[..size] {
      var i :| 0 <= i < |all[start..]| && all[start..][i] == s;
      assert all[start + i] == s;
      assert all[from..][start + i - from] == s;
    }
    if s in all[from..] {
      var i :| 0 <= i < |all[from..]| && all[from..][i] == s;
      assert all[from + i] == s;
      assert all[start..][from + i - start] == s;
      assert forall j :: 0 <= j < size ==> all[j] != s;
    }
  }

  lemma DistinctTail(all: seq<nat>, from: nat)
    requires Distinct(all) && from <= |all|
    ensures Distinct(all[from..])
  {
    forall i, j | 0 <= i < j < |all[from..]|
      ensures all[from..][i] != all[from..][j]
    {
      assert all[from + i] != all[from + j];
    }
  }

  /** The slots of the groups whose indices are in `ks`. */
  ghost function On(groups: seq<seq<nat>>, ks: set<nat>): set<nat> {
    set s | s in Flat(groups) && exists k :: k in ks && k < |groups| && s in groups[k]
  }

  /** Any `k` groups hold no more slots than the `k` largest. */
  lemma {:induction false} AnyGroupsHoldNoMore(groups: seq<seq<nat>>, ks: set<nat>)
    requires SmallestFirst(groups) && forall k :: k in ks ==> k < |groups|
    ensures |ks| <= |groups| && |On(groups, ks)| <= |Flat(Largest(groups, |ks|))|
    decreases |groups|
  {
    hide On, Flat;
    if groups == [] {
      assert ks == {};
      NothingOn(groups);
    } else {
      var n := |groups| - 1;
      var front := groups[..n];
      AnyGroupsHoldNoMore(front, ks - {n});
      OnFront(groups, ks);
      LargestFront(groups, |ks - {n}|);
      if n in ks {
        assert |ks - {n}| == |ks| - 1;
      } else {
        assert ks - {n} == ks;
      }
    }
  }

  lemma NothingOn(groups: seq<seq<nat>>)
    requires groups == []
    ensures On(groups, {}) == {}
  {
  }

  /** The last group adds at most its own slots. */
  lemma OnFront(groups: seq<seq<nat>>, ks: set<nat>)
    requires groups != [] && forall k :: k in ks ==> k < |groups|
    ensures
      var n := |groups| - 1;
      |On(groups, ks)| <= |On(groups[..n], ks - {n})| + if n in ks then |groups[n]| else 0
  {
    hide Flat;
    var n := |groups| - 1;
    var front := groups[..n];
    var last := if n in ks then Elements(groups[n]) else {};
    forall s | s in On(groups, ks)
      ensures s in On(front, ks - {n}) || s in last
    {
      var k :| k in ks && k < |groups| && s in groups[k];
      if k < n {
        assert front[k] == groups[k];
        FlatMembers(front, s);
      }
    }
    Bounded(On(groups, ks), On(front, ks - {n}), last);
    ElementsBound(groups[n]);
  }

  /** The `m` largest of all but the last group, against the `m` and the `m + 1` largest of all. */
  lemma LargestFront(groups: seq<seq<nat>>, m: nat)
    requires groups != [] && SmallestFirst(groups) && m < |groups|
    ensures
      var n := |groups| - 1;
      && |Flat(Largest(groups, m + 1))| == |Flat(Largest(groups[..n], m))| + |groups[n]|
      && |Flat(Largest(groups[..n], m))| <= |Flat(Largest(groups, m))|
  {
    var n := |groups| - 1;
    var front := groups[..n];
    assert Largest(groups, m + 1) == Largest(front, m) + [groups[n]];
    FlatConcat(Largest(front, m), [groups[n]]);
    assert Flat([groups[n]]) == groups[n] + Flat([]) == groups[n];
    WindowBound(Largest(front, m), Largest(groups, m));
  }

  lemma Bounded(a: set<nat>, b: set<nat>, c: set<nat>)
    requires a <= b + c
    ensures |a| <= |b| + |c|
  {
    SubsetSize(a, b + c);
    assert |b + c| == |b| + |c| - |b * c|;
  }

  lemma {:induction false} ElementsBound(g: seq<nat>)
    ensures |Elements(g)| <= |g|
  {
    if g != [] {
      ElementsBound(g[1..]);
      assert Elements(g) == {g[0]} + Elements(g[1..]);
    }
  }

  /** Windows of groups compare as their groups do. */
  lemma {:induction false} WindowBound(low: seq<seq<nat>>, high: seq<seq<nat>>)
    requires |low| == |high| && forall i :: 0 <= i < |low| ==> |low[i]| <= |high[i]|
    ensures |Flat(low)| <= |Flat(high)|
  {
    if low != [] {
      WindowBound(low[1..], high[1..]);
    }
  }

  /**
   No choice of as many slots can leave more on any `k` groups than draining smallest first leaves on the `k`
   largest, for any `k`.
   */
  lemma NoChoiceLeavesMore(groups: seq<seq<nat>>, size: nat, ks: set<nat>, other: seq<nat>)
    requires Separate(groups) && SmallestFirst(groups) && size <= |Flat(groups)|
    requires IsAllocation(other, Flat(groups), size) && forall k :: k in ks ==> k < |groups|
    ensures |ks| <= |groups|
    ensures |set s | s in On(groups, ks) && s !in other| <= Left(Largest(groups, |ks|), Flat(groups)[..size])
  {
    hide Separate, Flat, Left, On, SmallestFirst;
    var untaken := set s | s in On(groups, ks) && s !in other;
    AnyGroupsHoldNoMore(groups, ks);
    SubsetSize(untaken, On(groups, ks));
    LeftOnLargest(groups, size, |ks|);
    OnFlat(groups, ks);
    FlatDistinct(groups);
    UntakenBound(untaken, Flat(groups), other);
    assert untaken == set s | s in On(groups, ks) && s !in other;
    assert |untaken| <= |On(groups, ks)| <= |Flat(Largest(groups, |ks|))|;
    assert |untaken| <= |Flat(groups)| - size;
  }

  lemma OnFlat(groups: seq<seq<nat>>, ks: set<nat>)
    ensures forall s :: s in On(groups, ks) ==> s in Flat(groups)
  {
  }

  /** Slots outside a choice are no more than what the choice leaves of all. */
  lemma UntakenBound(untaken: set<nat>, all: seq<nat>, other: seq<nat>)
    requires Distinct(all) && IsAllocation(other, all, |other|)
    requires forall s :: s in untaken ==> s in all && s !in other
    ensures |untaken| <= |all| - |other|
  {
    hide Distinct;
    DistinctSize(all);
    DistinctSize(other);
    SubsetSize(untaken, Elements(all) - Elements(other));
    assert Elements(other) <= Elements(all);
    assert |Elements(all) - Elements(other)| == |Elements(all)| - |Elements(other)|;
  }

  // ----- the allocator -----

  function MotherBoard(): Device -> string { (d: Device) => d.motherBoard }

  /** What an allocation means, by what `GetRings` answered. */
  ghost predicate SpiderAnswers(policy: Policy, available: seq<nat>, devs: map<string, Device>, size: nat,
                                answer: Answer, r: Result) {
    match answer
    case Timeout => r == if policy == BestEffort && size <= |available| then Slots(available[..size]) else Error
    case Fails => r.Error?
    case Rings(rings) =>
      && (r.Slots? <==> Accepts(policy, size, rings))
      && (r.Slots? ==>
            exists groups ::
              && IsSplit(groups, available, devs, MotherBoard()) && SmallestFirst(groups)
              && (rings == [] ==> KeepsLargestWhole(groups, r.slots))
              && (rings != [] ==> exists ring :: IsTightest(ring, rings, groups) && r.slots == ring.ordinals))
  }

  method Allocate(policy: Policy, available: seq<nat>, devs: map<string, Device>, size: nat, answer: Answer)
    returns (r: Result)
    requires OwnSlots(devs) && Drawn(available, devs) && 1 <= size <= |available|
    requires answer.Rings? ==> SoundRings(answer.rings, available, size)
    ensures r.Slots? ==> IsAllocation(r.slots, available, size)
    ensures SpiderAnswers(policy, available, devs, size, answer, r)
  {
    match answer
    case Timeout =>
      if policy != BestEffort {
        return Error;
      }
      return Slots(available[..size]);
    case Fails => return Error;
    case Rings(found) =>
      var rings := SortRings(found);
      var mbs := SplitBy(available, devs, MotherBoard());
      if |rings| == 0 {
        assert found == [];
        if policy != BestEffort && !SizeAlwaysFailsToFormRing(size) {
          return Error;
        }
        SplitSize(mbs, available, devs, MotherBoard());
        var slots := DrainSmallest(mbs, size);
        DrainKeepsLargestWhole(mbs, size);
        assert forall s :: s in slots ==> s in Flat(mbs);
        return Slots(slots);
      }
      assert IsBest(rings[0], found) by {
        assert forall q :: q in found ==> q in rings;
      }
      BestIs(found, rings[0]);
      if policy == Restricted && size == 4 && rings[0].nonConflict < 4 {
        return Error;
      }
      if policy == Restricted && size == 2 && rings[0].nonConflict < 2 {
        return Error;
      }
      var ring := ChooseRing(rings, mbs);
      SameRings(ring, rings, found, mbs);
      return Slots(ring.ordinals);
  }

  lemma SameRings(r: Ring, rings: seq<Ring>, found: seq<Ring>, groups: seq<seq<nat>>)
    requires IsTightest(r, rings, groups) && forall q :: q in rings <==> q in found
    ensures IsTightest(r, found, groups)
  {
    forall q
      ensures IsBest(q, rings) <==> IsBest(q, found)
    {
    }
    forall g
      ensures HoldsBest(g, rings) <==> HoldsBest(g, found)
    {
      if q :| IsBest(q, rings) && Inside(q, g) {
        assert IsBest(q, found);
      }
      if q :| IsBest(q, found) && Inside(q, g) {
        assert IsBest(q, rings);
      }
    }
  }

  lemma GroupIsNew(groups: seq<seq<nat>>, i: nat)
    requires Separate(groups) && i < |groups|
    ensures Distinct(groups[i]) && Disjoint(groups[i], Flat(groups[..i]))
  {
    forall s | s in groups[i]
      ensures s !in Flat(groups[..i])
    {
      FlatMembers(groups[..i], s);
      assert forall j :: 0 <= j < i ==> groups[..i][j] == groups[j] && Disjoint(groups[j], groups[i]);
    }
  }

  /** The fallback: the groups in order; the error after the loop cannot be reached. */
  method DrainSmallest(mbs: seq<seq<nat>>, size: nat) returns (slots: seq<nat>)
    requires Separate(mbs) && 1 <= size <= |Flat(mbs)|
    ensures slots == Flat(mbs)[..size] && Distinct(slots)
  {
    hide Flat, Separate, Fresh;
    var drain := new Drain(size);
    FlatOne([]);
    FlatDistinct(mbs);
    assert mbs[..|mbs|] == mbs;
    var i := 0;
    while i < |mbs|
      invariant 0 <= i <= |mbs|
      invariant drain.needed > 0 && drain.taken == Flat(mbs[..i]) && drain.needed == size - |drain.taken|
    {
      FlatAt(mbs, i);
      GroupIsNew(mbs, i);
      FreshOfDisjoint(mbs[i], drain.taken);
      var enough := drain.AllocateRemainingFrom(mbs[i]);
      if enough {
        assert drain.taken == Flat(mbs)[..size];
        return drain.taken;
      }
      i := i + 1;
    }
    assert false;
    slots := [];
  }
}
