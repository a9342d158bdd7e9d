/** Link groups: a depth-first search over the links between the devices of a machine. */
module LinkGroups {
  import opened Options
  import opened SlotSets

  type Uuid = string

  /** What the driver answers for each slot; `None` is an error. */
  datatype Machine = Machine(counted: bool, uuids: seq<Option<Uuid>>, links: seq<Option<set<Uuid>>>) {
    ghost predicate Valid() { |uuids| == |links| }

    /** The slot that a UUID stands for: the last one that reports it. */
    ghost predicate SlotOf(u: Uuid, s: nat) {
      s < |uuids| && uuids[s] == Some(u) && forall t :: s < t < |uuids| ==> uuids[t] != Some(u)
    }

    ghost predicate Linked(s: nat, t: nat) {
      Valid() && s < |links| && links[s].Some? && exists u :: u in links[s].value && SlotOf(u, t)
    }
  }

  /** A slot is linked to each slot that is the last to report a UUID which its link list names. */
  lemma LinkedByUuid(m: Machine, s: nat, t: nat)
    requires m.Valid() && s < |m.links| && t < |m.uuids|
    ensures m.Linked(s, t) <==>
            && m.links[s] != None && m.uuids[t] != None && m.uuids[t].value in m.links[s].value
            && m.uuids[t] !in m.uuids[t + 1..]
  {
    var later := m.uuids[t + 1..];
    if m.uuids[t] in later {
      var k :| 0 <= k < |later| && later[k] == m.uuids[t];
      assert m.uuids[t + 1 + k] == m.uuids[t];
    } else {
      forall k | t < k < |m.uuids|
        ensures m.uuids[k] != m.uuids[t]
      {
        assert m.uuids[k] == later[k - t - 1];
      }
      assert m.uuids[t].Some? ==> m.SlotOf(m.uuids[t].value, t);
    }
  }

  // ----- reaching -----

  ghost predicate IsPath(m: Machine, p: seq<nat>) {
    |p| > 0 && forall k :: 0 < k < |p| ==> LinkedAt(m, p, k)
  }

  ghost predicate LinkedAt(m: Machine, p: seq<nat>, k: int)
    requires 0 < k < |p|
  {
    m.Linked(p[k - 1], p[k])
  }

  ghost predicate Reaches(m: Machine, s: nat, t: nat) {
    exists p :: IsPath(m, p) && p[0] == s && p[|p| - 1] == t
  }

  lemma ReachesItself(m: Machine, s: nat)
    ensures Reaches(m, s, s)
  {
    assert IsPath(m, [s]) && [s][0] == s;
  }

  lemma ReachesFurther(m: Machine, s: nat, t: nat, u: nat)
    requires Reaches(m, s, t) && m.Linked(t, u)
    ensures Reaches(m, s, u)
  {
    var p :| IsPath(m, p) && p[0] == s && p[|p| - 1] == t;
    var q := p + [u];
    forall k | 0 < k < |q|
      ensures LinkedAt(m, q, k)
    {
      assert k < |p| ==> LinkedAt(m, p, k);
    }
    assert IsPath(m, q) && q[0] == s && q[|q| - 1] == u;
  }

  lemma ReachesThrough(m: Machine, s: nat, t: nat, u: nat)
    requires Reaches(m, s, t) && Reaches(m, t, u)
    ensures Reaches(m, s, u)
  {
    var p :| IsPath(m, p) && p[0] == t && p[|p| - 1] == u;
    ReachesAlong(m, s, p, |p| - 1);
  }

  lemma {:induction false} ReachesAlong(m: Machine, s: nat, p: seq<nat>, k: nat)
    requires IsPath(m, p) && k < |p| && Reaches(m, s, p[0])
    ensures Reaches(m, s, p[k])
  {
    if k > 0 {
      ReachesAlong(m, s, p, k - 1);
      assert LinkedAt(m, p, k);
      ReachesFurther(m, s, p[k - 1], p[k]);
    }
  }

  ghost predicate Closed(m: Machine, v: set<nat>) { forall s, t :: s in v && m.Linked(s, t) ==> t in v }

  lemma ClosedHoldsReach(m: Machine, v: set<nat>, s: nat, t: nat)
    requires Closed(m, v) && s in v && Reaches(m, s, t)
    ensures t in v
  {
    var p :| IsPath(m, p) && p[0] == s && p[|p| - 1] == t;
    ClosedAlong(m, v, p, |p| - 1);
  }

  lemma {:induction false} ClosedAlong(m: Machine, v: set<nat>, p: seq<nat>, k: nat)
    requires Closed(m, v) && IsPath(m, p) && k < |p| && p[0] in v
    ensures p[k] in v
  {
    if k > 0 {
      ClosedAlong(m, v, p, k - 1);
      assert LinkedAt(m, p, k);
    }
  }

  // ----- what the groups are -----

  ghost function Slots(m: Machine): set<nat> { set s: nat {:trigger IsSlot(m, s)} | s < |m.uuids| && IsSlot(m, s) }

  ghost predicate IsSlot(m: Machine, s: nat) { s < |m.uuids| }

  /** The slots in the first `k` groups. */
  ghost function Earlier(g: seq<seq<nat>>, k: nat): set<nat>
    requires k <= |g|
  {
    if k == 0 then {} else Earlier(g, k - 1) + Elements(g[k - 1])
  }

  /** `g[k]` starts at the least slot not in an earlier group and holds what that slot reaches outside them. */
  ghost predicate IsGroup(m: Machine, g: seq<seq<nat>>, k: nat)
    requires k < |g|
  {
    && g[k] != [] && Distinct(g[k])
    && g[k][0] < |m.uuids| && g[k][0] !in Earlier(g, k)
    && (forall s :: 0 <= s < g[k][0] ==> s in Earlier(g, k))
    && (forall t: nat :: t in g[k] <==> t < |m.uuids| && Reaches(m, g[k][0], t) && t !in Earlier(g, k))
  }

  ghost predicate AreGroups(m: Machine, g: seq<seq<nat>>) {
    (forall k :: 0 <= k < |g| ==> IsGroup(m, g, k)) && Earlier(g, |g|) == Slots(m)
  }

  lemma {:induction false} EarlierGrows(g: seq<seq<nat>>, j: nat, k: nat)
    requires j <= k <= |g|
    ensures Earlier(g, j) <= Earlier(g, k)
    ensures j < k ==> Elements(g[j]) <= Earlier(g, k)
  {
    if j < k {
      EarlierGrows(g, j, k - 1);
    }
  }

  lemma {:induction false} EarlierOf(g: seq<seq<nat>>, h: seq<seq<nat>>, k: nat)
    requires k <= |g| && k <= |h| && forall j :: 0 <= j < k ==> Elements(g[j]) == Elements(h[j])
    ensures Earlier(g, k) == Earlier(h, k)
  {
    if k > 0 {
      EarlierOf(g, h, k - 1);
    }
  }

  lemma {:induction false} InSomeGroup(g: seq<seq<nat>>, k: nat, s: nat)
    requires k <= |g| && s in Earlier(g, k)
    ensures exists j :: 0 <= j < k && s in g[j]
  {
    if s !in Elements(g[k - 1]) {
      InSomeGroup(g, k - 1, s);
    }
  }

  /** The groups split the slots: every slot is in one group, and in no other; its first slot is its least. */
  lemma GroupsPartition(m: Machine, g: seq<seq<nat>>)
    requires AreGroups(m, g)
    ensures forall s: nat :: IsSlot(m, s) ==> exists k :: 0 <= k < |g| && s in g[k]
    ensures forall j, k, s :: 0 <= j < k < |g| && s in g[j] ==> s !in g[k]
    ensures forall k, s :: 0 <= k < |g| && s in g[k] ==> g[k][0] <= s < |m.uuids|
  {
    forall s: nat | IsSlot(m, s)
      ensures exists k :: 0 <= k < |g| && s in g[k]
    {
      assert s in Slots(m);
      InSomeGroup(g, |g|, s);
    }
    forall j, k, s | 0 <= j < k < |g| && s in g[j]
      ensures s !in g[k]
    {
      EarlierGrows(g, j, k);
      assert s in Elements(g[j]) && IsGroup(m, g, k);
    }
    forall k, s | 0 <= k < |g| && s in g[k]
      ensures g[k][0] <= s < |m.uuids|
    {
      assert IsGroup(m, g, k);
    }
  }

  /** The same slots, starting with the same one. */
  ghost predicate SameGroup(g: seq<nat>, h: seq<nat>) {
    Elements(g) == Elements(h) && g != [] && h != [] && g[0] == h[0]
  }

  /** Where two divisions agree, neither has groups to add. */
  lemma NoMoreGroups(m: Machine, g: seq<seq<nat>>, h: seq<seq<nat>>)
    requires AreGroups(m, g) && AreGroups(m, h)
    requires forall k :: 0 <= k < |g| && k < |h| ==> SameGroup(g[k], h[k])
    ensures |h| <= |g|
  {
    if |g| < |h| {
      assert IsGroup(m, h, |g|);
      assert h[|g|][0] in h[|g|];
      assert h[|g|][0] in Slots(m);
      EarlierOf(g, h, |g|);
    }
  }

  /** The groups do not depend on the order in which links are followed. */
  lemma GroupsUnique(m: Machine, g: seq<seq<nat>>, h: seq<seq<nat>>)
    requires AreGroups(m, g) && AreGroups(m, h)
    ensures |g| == |h| && forall k :: 0 <= k < |g| ==> SameGroup(g[k], h[k])
  {
    SameGroups(m, g, h, if |g| < |h| then |g| else |h|);
    NoMoreGroups(m, g, h);
    NoMoreGroups(m, h, g);
  }

  lemma {:induction false} SameGroups(m: Machine, g: seq<seq<nat>>, h: seq<seq<nat>>, n: nat)
    requires AreGroups(m, g) && AreGroups(m, h) && n <= |g| && n <= |h|
    ensures forall k :: 0 <= k < n ==> SameGroup(g[k], h[k])
  {
    if n > 0 {
      var k := n - 1;
      SameGroups(m, g, h, k);
      EarlierOf(g, h, k);
      assert IsGroup(m, g, k) && IsGroup(m, h, k);
      assert Elements(g[k]) == Elements(h[k]);
    }
  }

  ghost predicate Symmetric(m: Machine) { forall s, t :: m.Linked(s, t) ==> m.Linked(t, s) }

  lemma {:induction false} ReachesBackAlong(m: Machine, p: seq<nat>, k: nat)
    requires Symmetric(m) && IsPath(m, p) && k < |p|
    ensures Reaches(m, p[k], p[0])
  {
    ReachesItself(m, p[k]);
    if k > 0 {
      ReachesBackAlong(m, p, k - 1);
      assert LinkedAt(m, p, k);
      ReachesFurther(m, p[k], p[k], p[k - 1]);
      ReachesThrough(m, p[k], p[k - 1], p[0]);
    }
  }

  lemma ReachesBack(m: Machine, s: nat, t: nat)
    requires Symmetric(m) && Reaches(m, s, t)
    ensures Reaches(m, t, s)
  {
    var p :| IsPath(m, p) && p[0] == s && p[|p| - 1] == t;
    ReachesBackAlong(m, p, |p| - 1);
  }

  /** With links that work both ways, the groups are the connected components. */
  lemma {:induction false} GroupsAreComponents(m: Machine, g: seq<seq<nat>>, k: nat)
    requires AreGroups(m, g) && Symmetric(m) && k < |g|
    ensures forall s, t: nat :: s in g[k] && t < |m.uuids| ==> (t in g[k] <==> Reaches(m, s, t))
    decreases k
  {
    assert IsGroup(m, g, k);
    var first := g[k][0];
    forall t: nat | t < |m.uuids| && Reaches(m, first, t)
      ensures t in g[k]
    {
      if t in Earlier(g, k) {
        InSomeGroup(g, k, t);
        var j :| 0 <= j < k && t in g[j];
        GroupsAreComponents(m, g, j);
        ReachesBack(m, first, t);
        assert first in Elements(g[j]);
        EarlierGrows(g, j, k);
      }
    }
    forall s, t: nat | s in g[k] && t < |m.uuids|
      ensures t in g[k] <==> Reaches(m, s, t)
    {
      ReachesBack(m, first, s);
      if t in g[k] {
        ReachesThrough(m, s, first, t);
      }
      if Reaches(m, s, t) {
        ReachesThrough(m, first, s, t);
      }
    }
  }

  // ----- the search -----

  class Search {
    const machine: Machine
    /** The slot of each UUID. */
    var slots: map<Uuid, nat>
    var visited: array<bool>
    var currentGroup: seq<nat>

    constructor (machine: Machine)
      ensures this.machine == machine && slots == map[] && currentGroup == []
      ensures visited.Length == |machine.uuids| && fresh(visited) && forall s :: 0 <= s < visited.Length ==> !visited[s]
    {
      this.machine := machine;
      slots, currentGroup := map[], [];
      visited := new bool[|machine.uuids|](_ => false);
    }

    ghost predicate Valid()
      reads this
    {
      && machine.Valid()
      && visited.Length == |machine.uuids|
      && (forall u, s: nat :: u in slots && slots[u] == s <==> machine.SlotOf(u, s))
      && (forall u :: u in slots ==> slots[u] < |machine.uuids|)
    }

    ghost function Visited(): set<nat>
      reads this, visited
    {
      set s: nat | s < visited.Length && visited[s]
    }

    ghost function Unvisited(): set<nat>
      reads this, visited
    {
      set s: nat | s < visited.Length && !visited[s]
    }

    method ReadSlots() returns (ok: bool)
      requires machine.Valid() && visited.Length == |machine.uuids| && slots == map[]
      modifies this`slots
      ensures ok <==> forall s :: 0 <= s < |machine.uuids| ==> machine.uuids[s].Some?
      ensures ok ==> Valid()
    {
      var i := 0;
      while i < |machine.uuids|
        invariant 0 <= i <= |machine.uuids|
        invariant forall s :: 0 <= s < i ==> machine.uuids[s].Some?
        invariant forall u, s: nat :: u in slots && slots[u] == s <==> LastBefore(u, s, i)
        invariant forall u :: u in slots ==> slots[u] < i
      {
        if machine.uuids[i].None? {
          return false;
        }
        ghost var before, next := slots, i + 1;
        slots := slots[machine.uuids[i].value := i];
        forall u, s: nat
          ensures (u in slots && slots[u] == s) <==> LastBefore(u, s, next)
        {
          assert (u in before && before[u] == s) <==> LastBefore(u, s, i);
          if LastBefore(u, s, i) && machine.uuids[i] != Some(u) {
            assert forall t :: s < t < i + 1 ==> t == i || machine.uuids[t] != Some(u);
          }
        }
        i := i + 1;
      }
      assert forall u, s: nat :: LastBefore(u, s, i) <==> machine.SlotOf(u, s);
      return true;
    }

    /** Among the first `i` slots, `s` is the last that reports `u`. */
    ghost predicate LastBefore(u: Uuid, s: nat, i: nat) {
      s < i <= |machine.uuids| && machine.uuids[s] == Some(u) && forall t :: s < t < i ==> machine.uuids[t] != Some(u)
    }

    /**
     Visits what `slot` reaches without passing an already visited slot. What it adds to the group is what it
     newly visits; of those, every link has been followed. It gives up only at a slot whose links cannot be read.
     */
    method Dfs(slot: nat) returns (ok: bool)
      requires Valid() && slot < |machine.uuids| && slot !in Visited()
      requires Distinct(currentGroup) && Elements(currentGroup) <= Visited()
      modifies this`currentGroup, visited
      ensures Valid() && old(Visited()) <= Visited()
      ensures !ok ==> exists s :: 0 <= s < |machine.uuids| && machine.links[s].None?
      ensures ok ==>
                && slot in Visited()
                && old(currentGroup) + [slot] <= currentGroup && Distinct(currentGroup)
                && Elements(currentGroup) == Elements(old(currentGroup)) + (Visited() - old(Visited()))
                && (forall s :: s in Visited() - old(Visited()) ==>
                      machine.links[s].Some? && Reaches(machine, slot, s) &&
                      forall t :: machine.Linked(s, t) ==> t in Visited())
      decreases Unvisited()
    {
      ghost var before, group := Visited(), currentGroup;
      visited[slot] := true;
      currentGroup := currentGroup + [slot];
      assert Visited() == before + {slot} && Unvisited() == old(Unvisited()) - {slot};
      ReachesItself(machine, slot);
      var devs := machine.links[slot];
      if devs.None? {
        return false;
      }
      var rest := devs.value;
      while rest != {}
        invariant rest <= devs.value && Valid()
        invariant before + {slot} <= Visited() && Unvisited() <= old(Unvisited()) - {slot}
        invariant group + [slot] <= currentGroup && Distinct(currentGroup)
        invariant Elements(currentGroup) == Elements(group) + (Visited() - before)
        invariant forall s :: s in Visited() - before ==> machine.links[s].Some? && Reaches(machine, slot, s)
        invariant forall s, t :: s in Visited() - before - {slot} && machine.Linked(s, t) ==> t in Visited()
        invariant forall u, t :: u in devs.value - rest && machine.SlotOf(u, t) ==> t in Visited()
        decreases rest
      {
        var dev :| dev in rest;
        rest := rest - {dev};
        if dev in slots && !visited[slots[dev]] {
          var next := slots[dev];
          assert machine.SlotOf(dev, next) && machine.Linked(slot, next);
          ghost var middle := Visited();
          var deeper := Dfs(next);
          if !deeper {
            return false;
          }
          assert forall s :: s in Unvisited() ==> s !in middle;
          forall s | s in Visited() - middle
            ensures Reaches(machine, slot, s)
          {
            ReachesFurther(machine, slot, slot, next);
            ReachesThrough(machine, slot, next, s);
          }
        }
      }
      return true;
    }
  }

  /**
   `GetMLULinkGroups`: it fails exactly when the driver fails for some slot, and otherwise gives the groups.
   */
  method GetMLULinkGroups(m: Machine) returns (ok: bool, groups: seq<seq<nat>>)
    requires m.Valid()
    ensures ok <==> m.counted && forall s :: 0 <= s < |m.uuids| ==> m.uuids[s].Some? && m.links[s].Some?
    ensures ok ==> AreGroups(m, groups)
  {
    hide Reaches, IsGroup, Closed, Distinct;
    groups := [];
    if !m.counted {
      return false, [];
    }
    var search := new Search(m);
    var read := search.ReadSlots();
    if !read {
      ghost var s :| 0 <= s < |m.uuids| && m.uuids[s].None?;
      return false, [];
    }
    var slot := 0;
    assert search.Visited() == {};
    NothingClosed(m);
    while slot < |m.uuids|
      invariant 0 <= slot <= |m.uuids| && search.Valid() && fresh(search.visited)
      invariant forall k :: 0 <= k < |groups| ==> IsGroup(m, groups, k)
      invariant search.Visited() == Earlier(groups, |groups|) && Closed(m, search.Visited())
      invariant forall s :: 0 <= s < slot ==> s in search.Visited()
      invariant forall s :: s in search.Visited() ==> m.links[s].Some?
    {
      if !search.visited[slot] {
        search.currentGroup := [];
        ghost var before := search.Visited();
        var deeper := search.Dfs(slot);
        if !deeper {
          ghost var s :| 0 <= s < |m.uuids| && m.links[s].None?;
          return false, [];
        }
        var group := search.currentGroup;
        NextGroup(m, groups, before, search.Visited(), slot, group);
        groups := groups + [group];
      }
      slot := slot + 1;
    }
    assert search.Visited() == Slots(m);
    return true, groups;
  }

  lemma NothingClosed(m: Machine)
    ensures Closed(m, {})
  {
  }

  /** What a search from the least unvisited slot newly visits is the next group. */
  lemma NextGroup(m: Machine, g: seq<seq<nat>>, before: set<nat>, visited: set<nat>, slot: nat, group: seq<nat>)
    requires forall k :: 0 <= k < |g| ==> IsGroup(m, g, k)
    requires Earlier(g, |g|) == before && Closed(m, before) && before <= visited
    requires slot < |m.uuids| && slot !in before && slot in visited && forall s :: 0 <= s < slot ==> s in before
    requires [slot] <= group && Distinct(group) && Elements(group) == visited - before
    requires forall s :: s in visited ==> s < |m.uuids|
    requires forall s :: s in visited - before ==> Reaches(m, slot, s) && forall t :: m.Linked(s, t) ==> t in visited
    ensures forall k :: 0 <= k < |g + [group]| ==> IsGroup(m, g + [group], k)
    ensures Earlier(g + [group], |g| + 1) == visited && Closed(m, visited)
  {
    hide Reaches, IsGroup;
    forall s, t | s in visited && m.Linked(s, t)
      ensures t in visited
    {
      assert s in before || s in visited - before;
    }
    forall t: nat | t < |m.uuids| && Reaches(m, slot, t) && t !in before
      ensures t in group
    {
      ClosedHoldsReach(m, visited, slot, t);
      assert t in Elements(group);
    }
    assert forall t :: t in group ==> t in Elements(group);
    AppendGroup(m, g, group);
  }

  lemma AppendGroup(m: Machine, g: seq<seq<nat>>, group: seq<nat>)
    requires forall k :: 0 <= k < |g| ==> IsGroup(m, g, k)
    requires group != [] && Distinct(group) && group[0] < |m.uuids| && group[0] !in Earlier(g, |g|)
    requires forall s :: 0 <= s < group[0] ==> s in Earlier(g, |g|)
    requires forall t: nat :: t in group <==> t < |m.uuids| && Reaches(m, group[0], t) && t !in Earlier(g, |g|)
    ensures forall k :: 0 <= k < |g + [group]| ==> IsGroup(m, g + [group], k)
    ensures Earlier(g + [group], |g| + 1) == Earlier(g, |g|) + Elements(group)
  {
    var h := g + [group];
    forall k | 0 <= k <= |g|
      ensures Earlier(h, k) == Earlier(g, k)
    {
      EarlierOf(h, g, k);
    }
    forall k | 0 <= k < |g|
      ensures IsGroup(m, h, k)
    {
      assert IsGroup(m, g, k) && h[k] == g[k];
    }
    assert h[|g|] == group;
  }
}
