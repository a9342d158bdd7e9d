/** Lists of slots, sorting by a rank, and the drain that the allocators share. */
module SlotSets {

  function Elements<T>(s: seq<T>): set<T> { set x | x in s }

  ghost predicate Distinct<T>(s: seq<T>) { forall i, j :: 0 <= i < j < |s| ==> s[i] != s[j] }

  predicate ContainsAll(outer: seq<nat>, inner: seq<nat>) { forall x :: x in inner ==> x in outer }

  lemma {:induction false} DistinctSize<T>(s: seq<T>)
    requires Distinct(s)
    ensures |Elements(s)| == |s|
  {
    if s != [] {
      DistinctSize(s[1..]);
      assert s[0] !in s[1..];
      assert Elements(s) == {s[0]} + Elements(s[1..]);
    }
  }

  lemma {:induction false} SubsetSize(a: set<nat>, b: set<nat>)
    requires a <= b
    ensures |a| <= |b|
    decreases |a|
  {
    if a != {} {
      var x :| x in a;
      SubsetSize(a - {x}, b - {x});
    }
  }

  function Below(n: nat): (s: set<nat>)
    ensures |s| == n && forall i: nat :: i in s <==> i < n
  {
    if n == 0 then {} else Below(n - 1) + {n - 1}
  }

  /** Distinct places below a bound reach every place below it. */
  lemma EveryPlace(places: seq<nat>, i: nat)
    requires Distinct(places) && (forall k :: 0 <= k < |places| ==> places[k] < |places|) && i < |places|
    ensures i in places
  {
    DistinctSize(places);
    if i !in places {
      SubsetSize(Elements(places), Below(|places|) - {i});
    }
  }

  // ----- sorting -----

  ghost predicate Ranked<T>(s: seq<T>, rank: T -> int) { forall i, j :: 0 <= i < j < |s| ==> rank(s[i]) <= rank(s[j]) }

  /** `r` holds each position of `s` once. */
  ghost predicate Permutes<T>(places: seq<nat>, s: seq<T>, r: seq<T>) {
    && |places| == |s| == |r| && Distinct(places)
    && forall i :: 0 <= i < |r| ==> places[i] < |s| && r[i] == s[places[i]]
  }

  /** Those of equal rank stand in the order of their places. */
  ghost predicate Stable<T>(places: seq<nat>, r: seq<T>, rank: T -> int)
    requires |places| == |r|
  {
    forall i, j :: 0 <= i < j < |r| && rank(r[i]) == rank(r[j]) ==> places[i] < places[j]
  }

  /** `sort.Slice`: some permutation in rank order. */
  method SortBy<T>(s: seq<T>, rank: T -> int) returns (r: seq<T>, ghost places: seq<nat>)
    ensures multiset(r) == multiset(s) && |r| == |s|
    ensures Ranked(r, rank)
    ensures Permutes(places, s, r)
  {
    r, places := SortStableBy(s, rank);
  }

  /** `sort.SliceStable`: the permutation in rank order that keeps the order of equals. */
  method SortStableBy<T>(s: seq<T>, rank: T -> int) returns (r: seq<T>, ghost places: seq<nat>)
    ensures multiset(r) == multiset(s) && |r| == |s|
    ensures Ranked(r, rank)
    ensures Permutes(places, s, r) && Stable(places, r, rank)
  {
    r, places := [], [];
    for i := 0 to |s|
      invariant |r| == i && multiset(r) == multiset(s[..i])
      invariant Ranked(r, rank)
      invariant |places| == i && Distinct(places) && forall k :: 0 <= k < i ==> places[k] < i && r[k] == s[places[k]]
      invariant Stable(places, r, rank)
    {
      assert s[..i + 1] == s[..i] + [s[i]];
      ghost var before := r;
      var at;
      r, at := InsertBy(r, s[i], rank);
      PlacesInsert(places, at, i);
      StableInsert(places, before, at, i, s[i], rank);
      places := places[..at] + [i] + places[at..];
    }
    assert s[..|s|] == s;
  }

  lemma PlacesInsert(places: seq<nat>, at: nat, i: nat)
    requires Distinct(places) && at <= |places| && forall k :: 0 <= k < |places| ==> places[k] < i
    ensures Distinct(places[..at] + [i] + places[at..])
  {
  }

  lemma StableInsert<T>(places: seq<nat>, s: seq<T>, at: nat, i: nat, x: T, rank: T -> int)
    requires at <= |places| == |s| && Ranked(s, rank) && Stable(places, s, rank)
    requires (forall k :: 0 <= k < |places| ==> places[k] < i) && (at < |s| ==> rank(x) < rank(s[at]))
    ensures Stable(places[..at] + [i] + places[at..], s[..at] + [x] + s[at..], rank)
  {
  }

  method InsertBy<T>(s: seq<T>, x: T, rank: T -> int) returns (r: seq<T>, k: nat)
    requires Ranked(s, rank)
    ensures k <= |s| && r == s[..k] + [x] + s[k..] && (k < |s| ==> rank(x) < rank(s[k]))
    ensures multiset(r) == multiset(s) + multiset{x} && Ranked(r, rank)
  {
    hide Ranked;
    k := 0;
    while k < |s| && rank(s[k]) <= rank(x)
      invariant 0 <= k <= |s|
      invariant forall j :: 0 <= j < k ==> rank(s[j]) <= rank(x)
    {
      k := k + 1;
    }
    RankedInsert(s, k, x, rank);
    r := s[..k] + [x] + s[k..];
    assert s == s[..k] + s[k..];
  }

  lemma RankedInsert<T>(s: seq<T>, k: nat, x: T, rank: T -> int)
    requires Ranked(s, rank) && k <= |s| && (forall j :: 0 <= j < k ==> rank(s[j]) <= rank(x))
    requires k < |s| ==> rank(x) <= rank(s[k])
    ensures Ranked(s[..k] + [x] + s[k..], rank)
  {
    var r := s[..k] + [x] + s[k..];
    forall i, j | 0 <= i < j < |r|
      ensures rank(r[i]) <= rank(r[j])
    {
      assert forall a :: k < a < |s| ==> rank(s[k]) <= rank(s[a]);
    }
  }

  lemma PermutationKeepsMembers<T>(s: seq<T>, r: seq<T>)
    requires multiset(s) == multiset(r)
    ensures forall x :: x in s <==> x in r
  {
    assert forall x :: x in s <==> x in multiset(s);
    assert forall x :: x in r <==> x in multiset(r);
  }

  // ----- groups of slots -----

  ghost function Flat(groups: seq<seq<nat>>): seq<nat> {
    if groups == [] then [] else groups[0] + Flat(groups[1..])
  }

  ghost predicate Disjoint(a: seq<nat>, b: seq<nat>) { forall x :: x in a ==> x !in b }

  /** No slot is twice in a group or in two groups. */
  ghost predicate Separate(groups: seq<seq<nat>>) {
    && (forall i :: 0 <= i < |groups| ==> Distinct(groups[i]))
    && (forall i, j :: 0 <= i < j < |groups| ==> Disjoint(groups[i], groups[j]))
  }

  lemma {:induction false} FlatMembers(groups: seq<seq<nat>>, x: nat)
    ensures x in Flat(groups) <==> exists i :: 0 <= i < |groups| && x in groups[i]
  {
    if groups != [] {
      var rest := groups[1..];
      FlatMembers(rest, x);
      if i :| 0 <= i < |groups| && x in groups[i] {
        assert i > 0 ==> x in rest[i - 1];
      }
      if i :| 0 <= i < |rest| && x in rest[i] {
        assert x in groups[i + 1];
      }
    }
  }

  lemma SeparateRest(groups: seq<seq<nat>>)
    requires Separate(groups) && groups != []
    ensures Separate(groups[1..])
    ensures forall x :: x in groups[0] ==> x !in Flat(groups[1..])
  {
    var rest := groups[1..];
    forall i | 0 <= i < |rest|
      ensures Distinct(rest[i])
    {
      assert rest[i] == groups[i + 1];
    }
    forall i, j | 0 <= i < j < |rest|
      ensures Disjoint(rest[i], rest[j])
    {
      assert Disjoint(groups[i + 1], groups[j + 1]);
    }
    forall x | x in groups[0]
      ensures x !in Flat(rest)
    {
      FlatMembers(rest, x);
      forall i | 0 <= i < |rest|
        ensures x !in rest[i]
      {
        assert Disjoint(groups[0], groups[i + 1]);
      }
    }
  }

  lemma {:induction false} FlatDistinct(groups: seq<seq<nat>>)
    requires Separate(groups)
    ensures Distinct(Flat(groups))
  {
    if groups != [] {
      SeparateRest(groups);
      FlatDistinct(groups[1..]);
      DistinctConcat(groups[0], Flat(groups[1..]));
    }
  }

  lemma DistinctConcat(a: seq<nat>, b: seq<nat>)
    requires Distinct(a) && Distinct(b) && forall x :: x in a ==> x !in b
    ensures Distinct(a + b)
  {
    forall i, j | 0 <= i < j < |a + b|
      ensures (a + b)[i] != (a + b)[j]
    {
      if i < |a| <= j {
        assert (a + b)[i] in a && (a + b)[j] in b;
      }
    }
  }

  lemma {:induction false} FlatConcat(a: seq<seq<nat>>, b: seq<seq<nat>>)
    ensures Flat(a + b) == Flat(a) + Flat(b)
  {
    if a == [] {
      assert a + b == b;
    } else {
      assert (a + b)[1..] == a[1..] + b;
      FlatConcat(a[1..], b);
    }
  }

  lemma FlatOne(g: seq<nat>)
    ensures Flat([g]) == g && Flat([]) == []
  {
    assert Flat([g]) == g + Flat([]);
  }

  lemma FlatAt(m: seq<seq<nat>>, g: nat)
    requires g < |m|
    ensures Flat(m[..g + 1]) == Flat(m[..g]) + m[g] && Flat(m[..g]) + m[g] <= Flat(m)
  {
    hide Flat;
    FlatMore(m, g);
    FlatPrefix(m, g + 1);
  }

  lemma FlatMore(m: seq<seq<nat>>, g: nat)
    requires g < |m|
    ensures Flat(m[..g + 1]) == Flat(m[..g]) + m[g]
  {
    hide Flat;
    FlatOne(m[g]);
    assert m[..g + 1] == m[..g] + [m[g]];
    FlatConcat(m[..g], [m[g]]);
  }

  lemma FlatPrefix(m: seq<seq<nat>>, g: nat)
    requires g <= |m|
    ensures Flat(m[..g]) <= Flat(m)
  {
    hide Flat;
    assert m == m[..g] + m[g..];
    FlatConcat(m[..g], m[g..]);
  }

  lemma SortedSeparate(places: seq<nat>, s: seq<seq<nat>>, r: seq<seq<nat>>)
    requires Permutes(places, s, r) && Separate(s)
    ensures Separate(r)
  {
    forall i, j | 0 <= i < j < |r|
      ensures Disjoint(r[i], r[j])
    {
      var a, b := places[i], places[j];
      assert a < b ==> Disjoint(s[a], s[b]);
      assert b < a ==> Disjoint(s[b], s[a]);
    }
  }

  // ----- draining -----

  /** The members of `s` that are not in `have`, in order. */
  ghost function Fresh(s: seq<nat>, have: seq<nat>): seq<nat> {
    if s == [] then [] else (if s[0] in have then [] else [s[0]]) + Fresh(s[1..], have)
  }

  lemma {:induction false} FreshMembers(s: seq<nat>, have: seq<nat>)
    ensures forall x :: x in Fresh(s, have) <==> x in s && x !in have
    ensures Distinct(s) ==> Distinct(Fresh(s, have))
  {
    if s != [] {
      FreshMembers(s[1..], have);
      assert s == [s[0]] + s[1..];
    }
  }

  lemma {:induction false} FreshOfDisjoint(s: seq<nat>, have: seq<nat>)
    requires Disjoint(s, have)
    ensures Fresh(s, have) == s
  {
    if s != [] {
      FreshOfDisjoint(s[1..], have);
      assert s == [s[0]] + s[1..];
    }
  }

  /** The two variables that the closure `allocateRemainingFrom` updates. */
  class Drain {
    var needed: int
    var taken: seq<nat>

    constructor (size: nat)
      ensures needed == size && taken == []
    {
      needed, taken := size, [];
    }

    /** Takes devices not taken yet until enough are taken. */
    method AllocateRemainingFrom(devices: seq<nat>) returns (enough: bool)
      requires Distinct(devices) && needed > 0
      modifies this
      ensures var ready := Fresh(devices, old(taken));
              && (enough <==> |ready| >= old(needed))
              && (enough ==> needed == 0 && taken == old(taken) + ready[..old(needed)])
              && (!enough ==> needed == old(needed) - |ready| && taken == old(taken) + ready)
    {
      ghost var before, start := taken, needed;
      assert devices[0..] == devices;
      for i := 0 to |devices|
        invariant needed > 0 && start - needed == |taken| - |before|
        invariant taken + Fresh(devices[i..], before) == before + Fresh(devices, before)
        invariant forall k :: i <= k < |devices| ==> (devices[k] in taken <==> devices[k] in before)
      {
        assert devices[i..][1..] == devices[i + 1..];
        if devices[i] in taken {
          continue;
        }
        ghost var rest := Fresh(devices[i + 1..], before);
        assert taken + ([devices[i]] + rest) == taken + [devices[i]] + rest;
        taken := taken + [devices[i]];
        needed := needed - 1;
        if needed == 0 {
          assert taken == (before + Fresh(devices, before))[..|taken|];
          return true;
        }
      }
      return false;
    }
  }
}
