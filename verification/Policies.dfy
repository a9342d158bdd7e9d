/** When the allocators refuse, by policy, size and rings alone, and by what they split the available slots. */
module Policies {
  import opened SlotSets
  import opened Devices
  import Board
  import Spider

  // ----- when an allocation fails -----

  /** Some ring has at least `n` rings that do not conflict. */
  ghost predicate SomeRing(rings: seq<Ring>, n: int) { exists r :: r in rings && r.nonConflict >= n }

  lemma BestReaches(rings: seq<Ring>, n: int)
    requires rings != []
    ensures Spider.Best(rings) >= n <==> SomeRing(rings, n)
  {
    var most := Spider.Best(rings);
    var best :| IsBest(best, rings) && best.nonConflict == most;
    forall r | r in rings
      ensures r.nonConflict <= most
    {
      assert r.nonConflict <= best.nonConflict;
    }
  }

  /**
   The spider allocator fails exactly when the rings cannot be had, other than by running out of time under best effort;
   when there are none for a size from 2 to 8 and the policy asks for one; or when under the restricted policy every
   ring of 4 has fewer than 4, or of 2 fewer than 2, that do not conflict.
   */
  lemma WhenSpiderFails(policy: Policy, available: seq<nat>, devs: map<string, Device>, size: nat, answer: Answer,
                        r: Result)
    requires size <= |available| && Spider.SpiderAnswers(policy, available, devs, size, answer, r)
    ensures r.Error? <==>
            match answer
            case Fails => true
            case Timeout => policy != BestEffort
            case Rings(rings) =>
              if |rings| == 0 then policy != BestEffort && 2 <= size <= 8
              else policy == Restricted &&
                   ((size == 4 && !SomeRing(rings, 4)) || (size == 2 && !SomeRing(rings, 2)))
  {
    if answer.Rings? && answer.rings != [] {
      BestReaches(answer.rings, 4);
      BestReaches(answer.rings, 2);
    }
  }

  /** The board allocator takes rings to be had for the sizes 2, 4, 6 and 8 only, and checks those of 2 only. */
  lemma WhenBoardFails(policy: Policy, available: seq<nat>, groups: seq<seq<nat>>, devs: map<string, Device>, size: nat,
                       answer: Answer, r: Result)
    requires size <= |available| && Board.BoardAnswers(policy, available, groups, devs, size, answer, r)
    ensures r.Error? <==>
            match answer
            case Fails => true
            case Timeout => policy != BestEffort
            case Rings(rings) =>
              if |rings| == 0 then policy != BestEffort && (size == 2 || size == 4 || size == 6 || size == 8)
              else policy == Restricted && size == 2 && !SomeRing(rings, 2)
  {
    hide Board.DrainsGroups, Board.DrainsBoards, Board.UsableGroups, IsTightest;
    if answer.Rings? && answer.rings != [] {
      BestReaches(answer.rings, 2);
    }
  }

  /** The default allocator needs no ring for one device or for all eight, and otherwise fails for want of any. */
  lemma WhenDefaultFails(policy: Policy, available: seq<nat>, size: nat, answer: Answer, r: Result)
    requires size <= |available| && Board.DefaultAnswers(policy, available, size, answer, r)
    ensures r.Error? <==>
            && size != 1 && !(size == 8 && |available| == 8)
            && (answer.Fails? || (policy != BestEffort && (answer.Timeout? || |answer.rings| == 0)))
  {
  }

  /** What the restricted policy grants the guaranteed one does, and what that grants best effort does. */
  predicate Looser(strict: Policy, loose: Policy) {
    (strict == Restricted && loose == Guaranteed) || (strict == Guaranteed && loose == BestEffort)
  }

  lemma SpiderPoliciesNest(strict: Policy, loose: Policy, available: seq<nat>, devs: map<string, Device>, size: nat,
                           answer: Answer, r: Result, q: Result)
    requires Looser(strict, loose) && size <= |available|
    requires Spider.SpiderAnswers(strict, available, devs, size, answer, r)
    requires Spider.SpiderAnswers(loose, available, devs, size, answer, q)
    ensures r.Slots? ==> q.Slots?
  {
    WhenSpiderFails(strict, available, devs, size, answer, r);
    WhenSpiderFails(loose, available, devs, size, answer, q);
  }

  lemma BoardPoliciesNest(strict: Policy, loose: Policy, available: seq<nat>, groups: seq<seq<nat>>,
                          devs: map<string, Device>, size: nat, answer: Answer, r: Result, q: Result)
    requires Looser(strict, loose) && size <= |available|
    requires Board.BoardAnswers(strict, available, groups, devs, size, answer, r)
    requires Board.BoardAnswers(loose, available, groups, devs, size, answer, q)
    ensures r.Slots? ==> q.Slots?
  {
    WhenBoardFails(strict, available, groups, devs, size, answer, r);
    WhenBoardFails(loose, available, groups, devs, size, answer, q);
  }

  lemma DefaultPoliciesNest(strict: Policy, loose: Policy, available: seq<nat>, size: nat, answer: Answer, r: Result,
                            q: Result)
    requires Looser(strict, loose) && size <= |available|
    requires Board.DefaultAnswers(strict, available, size, answer, r)
    requires Board.DefaultAnswers(loose, available, size, answer, q)
    ensures r.Slots? ==> q.Slots?
  {
    WhenDefaultFails(strict, available, size, answer, r);
    WhenDefaultFails(loose, available, size, answer, q);
  }

  // ----- what is kept together -----

  /** The spider allocator splits by motherboard: two devices are in one group exactly if they sit on the same one. */
  lemma SpiderSplitsByMotherBoard(groups: seq<seq<nat>>, available: seq<nat>, devs: map<string, Device>, u: string,
                                  v: string)
    requires IsSplit(groups, available, devs, Spider.MotherBoard()) && OwnSlots(devs)
    requires u in devs && v in devs && devs[u].slot in available && devs[v].slot in available
    ensures (exists g :: g in groups && devs[u].slot in g && devs[v].slot in g) <==>
            devs[u].motherBoard == devs[v].motherBoard
  {
    SplitByKey(groups, available, devs, Spider.MotherBoard(), u, v);
  }

  /** The board allocator splits by the serial number of the board. */
  lemma BoardSplitsBySerialNumber(groups: seq<seq<nat>>, available: seq<nat>, devs: map<string, Device>, u: string,
                                  v: string)
    requires IsSplit(groups, available, devs, Board.SerialNumber()) && OwnSlots(devs)
    requires u in devs && v in devs && devs[u].slot in available && devs[v].slot in available
    ensures (exists g :: g in groups && devs[u].slot in g && devs[v].slot in g) <==> devs[u].sn == devs[v].sn
  {
    SplitByKey(groups, available, devs, Board.SerialNumber(), u, v);
  }

  lemma SplitByKey(groups: seq<seq<nat>>, available: seq<nat>, devs: map<string, Device>, key: Device -> string,
                   u: string, v: string)
    requires IsSplit(groups, available, devs, key) && OwnSlots(devs)
    requires u in devs && v in devs && devs[u].slot in available && devs[v].slot in available
    ensures (exists g :: g in groups && devs[u].slot in g && devs[v].slot in g) <==> key(devs[u]) == key(devs[v])
  {
    var s, t := devs[u].slot, devs[v].slot;
    TogetherByKey(devs, key, u, v);
    FlatMembers(groups, s);
    var i :| 0 <= i < |groups| && s in groups[i];
    assert groups[i] in groups;
    if key(devs[u]) == key(devs[v]) {
      assert t in groups[i];
    }
  }

  lemma TogetherByKey(devs: map<string, Device>, key: Device -> string, u: string, v: string)
    requires OwnSlots(devs) && u in devs && v in devs
    ensures Together(devs, key, devs[u].slot, devs[v].slot) <==> key(devs[u]) == key(devs[v])
  {
    if key(devs[u]) == key(devs[v]) {
      assert Keyed(devs, key, u, devs[u].slot, key(devs[u]));
      assert Keyed(devs, key, v, devs[v].slot, key(devs[u]));
    }
  }

  // ----- which ring -----

  /** The devices of the slots are all on one motherboard. */
  ghost predicate OnOneMotherBoard(devs: map<string, Device>, slots: seq<nat>, board: string) {
    forall u :: u in devs && devs[u].slot in slots ==> devs[u].motherBoard == board
  }

  ghost function BoardSlots(devs: map<string, Device>, available: seq<nat>, board: string): set<nat> {
    set u | u in devs && devs[u].slot in available && devs[u].motherBoard == board :: devs[u].slot
  }

  /** How many of the available slots are on the motherboard. */
  ghost function AvailableOn(devs: map<string, Device>, available: seq<nat>, board: string): nat {
    |BoardSlots(devs, available, board)|
  }

  /**
   With rings the spider allocator takes one with the most rings that do not conflict; and if such a ring lies on one
   motherboard, it takes one that lies on a motherboard with no more slots available.
   */
  lemma SpiderTakesTightRing(policy: Policy, available: seq<nat>, devs: map<string, Device>, size: nat,
                             rings: seq<Ring>, r: Result, q: Ring, board: string)
    requires OwnSlots(devs) && Drawn(available, devs) && 1 <= size && SoundRings(rings, available, size)
    requires Spider.SpiderAnswers(policy, available, devs, size, Rings(rings), r) && r.Slots? && rings != []
    requires q in rings && OnOneMotherBoard(devs, q.ordinals, board)
    requires forall p :: p in rings ==> p.nonConflict <= q.nonConflict
    ensures exists ring :: ring in rings && r.slots == ring.ordinals && ring.nonConflict == q.nonConflict
    ensures exists mine :: OnOneMotherBoard(devs, r.slots, mine) &&
                           AvailableOn(devs, available, mine) <= AvailableOn(devs, available, board)
  {
    hide AvailableOn, SomeRing, Together;
    var groups :|
      && IsSplit(groups, available, devs, Spider.MotherBoard()) && SmallestFirst(groups)
      && (exists ring :: IsTightest(ring, rings, groups) && r.slots == ring.ordinals);
    var ring :| IsTightest(ring, rings, groups) && r.slots == ring.ordinals;
    assert IsBest(q, rings);
    var h := GroupOfRing(groups, available, devs, size, q, board);
    assert HoldsBest(groups[h], rings);
    var g :| g in groups && Inside(ring, g) && forall k :: k in groups && HoldsBest(k, rings) ==> |g| <= |k|;
    var i :| 0 <= i < |groups| && groups[i] == g;
    assert |g| <= |groups[h]|;
    var mine := BoardOfGroup(groups, available, devs, i);
    assert OnOneMotherBoard(devs, r.slots, mine);
    BoardSize(groups, available, devs, i, mine);
    BoardSize(groups, available, devs, h, board);
  }

  /** All devices of a group sit on one motherboard, and every available device on it is in the group. */
  ghost predicate IsBoard(g: seq<nat>, available: seq<nat>, devs: map<string, Device>, board: string) {
    forall u :: u in devs && devs[u].slot in available ==> (devs[u].slot in g <==> devs[u].motherBoard == board)
  }

  lemma BoardOfGroup(groups: seq<seq<nat>>, available: seq<nat>, devs: map<string, Device>, i: nat)
    returns (board: string)
    requires IsSplit(groups, available, devs, Spider.MotherBoard()) && OwnSlots(devs) && Drawn(available, devs)
    requires i < |groups|
    ensures IsBoard(groups[i], available, devs, board)
    ensures forall s :: s in groups[i] ==> s in available
    ensures OnOneMotherBoard(devs, groups[i], board)
  {
    hide Together;
    var g := groups[i];
    forall s | s in g
      ensures s in available
    {
      FlatMembers(groups, s);
    }
    assert g != [] && g[0] in g && g[0] in available;
    var v :| IsSlotOf(devs, v, g[0]);
    board := devs[v].motherBoard;
    forall u | u in devs && devs[u].slot in available
      ensures devs[u].slot in g <==> devs[u].motherBoard == board
    {
      TogetherByKey(devs, Spider.MotherBoard(), v, u);
    }
  }

  lemma GroupOfRing(groups: seq<seq<nat>>, available: seq<nat>, devs: map<string, Device>, size: nat, q: Ring,
                    board: string)
    returns (h: nat)
    requires IsSplit(groups, available, devs, Spider.MotherBoard()) && OwnSlots(devs) && Drawn(available, devs)
    requires Distinct(q.ordinals) && |q.ordinals| == size >= 1 && forall s :: s in q.ordinals ==> s in available
    requires OnOneMotherBoard(devs, q.ordinals, board)
    ensures h < |groups| && Inside(q, groups[h]) && IsBoard(groups[h], available, devs, board)
  {
    var s := q.ordinals[0];
    FlatMembers(groups, s);
    h :| 0 <= h < |groups| && s in groups[h];
    var mine := BoardOfGroup(groups, available, devs, h);
    var u :| IsSlotOf(devs, u, s);
    assert mine == board;
    forall t | t in q.ordinals
      ensures t in groups[h]
    {
      var v :| IsSlotOf(devs, v, t);
    }
  }

  lemma BoardSize(groups: seq<seq<nat>>, available: seq<nat>, devs: map<string, Device>, i: nat, board: string)
    requires IsSplit(groups, available, devs, Spider.MotherBoard()) && Drawn(available, devs) && i < |groups|
    requires IsBoard(groups[i], available, devs, board)
    ensures AvailableOn(devs, available, board) == |groups[i]|
  {
    var g := groups[i];
    DistinctSize(g);
    forall s | s in g
      ensures exists u :: u in devs && devs[u].slot in available && devs[u].motherBoard == board && devs[u].slot == s
    {
      FlatMembers(groups, s);
      var u :| IsSlotOf(devs, u, s);
    }
    assert BoardSlots(devs, available, board) == Elements(g);
  }

  // ----- what is left without rings -----

  ghost predicate InSome(groups: seq<seq<nat>>, ks: set<nat>, s: nat) {
    exists k :: k in ks && k < |groups| && s in groups[k]
  }

  /** The slots of the groups with indices `ks` that are not taken. */
  ghost function LeftSlots(groups: seq<seq<nat>>, ks: set<nat>, taken: seq<nat>): set<nat> {
    set s | s in Flat(groups) && s !in taken && InSome(groups, ks, s)
  }

  ghost function LeftOn(groups: seq<seq<nat>>, ks: set<nat>, taken: seq<nat>): nat {
    |LeftSlots(groups, ks, taken)|
  }

  /** Some groups, as many as `ks`, have at least as many slots left as `ks` would have after taking `other`. */
  ghost predicate LeavesAsMuch(groups: seq<seq<nat>>, taken: seq<nat>, other: seq<nat>, ks: set<nat>) {
    exists mine: set<nat> ::
      |mine| == |ks| && (forall k :: k in mine ==> k < |groups|) &&
      LeftOn(groups, ks, other) <= LeftOn(groups, mine, taken)
  }

  /** Whatever other slots were taken, they would leave no more on any number of groups. */
  ghost predicate LeavesMost(groups: seq<seq<nat>>, taken: seq<nat>) {
    forall other: seq<nat>, ks: set<nat> ::
      IsAllocation(other, Flat(groups), |taken|) && (forall k :: k in ks ==> k < |groups|) ==>
        LeavesAsMuch(groups, taken, other, ks)
  }

  /** The indices of the last `k` groups. */
  ghost function LastIndices(groups: seq<seq<nat>>, k: nat): (ks: set<nat>)
    requires k <= |groups|
    ensures |ks| == k && forall i :: i in ks <==> |groups| - k <= i < |groups|
    decreases k
  {
    if k == 0 then {} else LastIndices(groups, k - 1) + {|groups| - k}
  }

  lemma LeftOnLast(groups: seq<seq<nat>>, k: nat, taken: seq<nat>)
    requires k <= |groups|
    ensures LeftOn(groups, LastIndices(groups, k), taken) == Spider.Left(Spider.Largest(groups, k), taken)
  {
    var ks, largest := LastIndices(groups, k), Spider.Largest(groups, k);
    forall s
      ensures s in Flat(largest) <==> s in Flat(groups) && InSome(groups, ks, s)
    {
      FlatMembers(largest, s);
      FlatMembers(groups, s);
      if s in Flat(largest) {
        var j :| 0 <= j < |largest| && s in largest[j];
        assert groups[|groups| - k + j] == largest[j] && |groups| - k + j in ks;
      }
      if i :| i in ks && i < |groups| && s in groups[i] {
        assert largest[i - (|groups| - k)] == groups[i];
      }
    }
    assert LeftSlots(groups, ks, taken) == set s | s in Flat(largest) && s !in taken;
  }

  lemma LeftOnIs(groups: seq<seq<nat>>, ks: set<nat>, other: seq<nat>)
    ensures LeftOn(groups, ks, other) == |set s | s in Spider.On(groups, ks) && s !in other|
  {
    assert LeftSlots(groups, ks, other) == set s | s in Spider.On(groups, ks) && s !in other;
  }

  lemma KeepingLargestLeavesMost(groups: seq<seq<nat>>, taken: seq<nat>)
    requires Separate(groups) && SmallestFirst(groups) && Spider.KeepsLargestWhole(groups, taken)
    requires |taken| <= |Flat(groups)|
    ensures LeavesMost(groups, taken)
  {
    hide Separate, SmallestFirst, LeftOn;
    forall other: seq<nat>, ks: set<nat> |
      IsAllocation(other, Flat(groups), |taken|) && (forall k :: k in ks ==> k < |groups|)
      ensures LeavesAsMuch(groups, taken, other, ks)
    {
      Spider.NoChoiceLeavesMore(groups, |taken|, ks, other);
      Spider.LeftOnLargest(groups, |taken|, |ks|);
      LeftOnLast(groups, |ks|, taken);
      LeftOnIs(groups, ks, other);
      assert LeftOn(groups, ks, other) <= LeftOn(groups, LastIndices(groups, |ks|), taken);
    }
  }

  /** Without rings no other choice leaves more on any number of motherboards than the spider allocator's. */
  lemma SpiderLeavesMost(policy: Policy, available: seq<nat>, devs: map<string, Device>, size: nat, r: Result)
    requires OwnSlots(devs) && Drawn(available, devs) && 1 <= size <= |available|
    requires Spider.SpiderAnswers(policy, available, devs, size, Rings([]), r) && r.Slots? && |r.slots| == size
    ensures exists groups ::
              IsSplit(groups, available, devs, Spider.MotherBoard()) && LeavesMost(groups, r.slots)
  {
    hide LeavesMost, IsTightest;
    var groups :|
      && IsSplit(groups, available, devs, Spider.MotherBoard()) && SmallestFirst(groups)
      && Spider.KeepsLargestWhole(groups, r.slots);
    SplitSize(groups, available, devs, Spider.MotherBoard());
    KeepingLargestLeavesMost(groups, r.slots);
  }

  /** Without rings and without usable link groups, nor on any number of boards than the board allocator's. */
  lemma BoardLeavesMost(policy: Policy, available: seq<nat>, groups: seq<seq<nat>>, devs: map<string, Device>,
                        size: nat, r: Result)
    requires OwnSlots(devs) && Drawn(available, devs) && 1 <= size <= |available|
    requires Board.BoardAnswers(policy, available, groups, devs, size, Rings([]), r) && r.Slots? && |r.slots| == size
    requires groups == [] || exists s :: s in available && forall g :: g in groups ==> s !in g
    ensures exists boards ::
              IsSplit(boards, available, devs, Board.SerialNumber()) && LeavesMost(boards, r.slots)
  {
    hide LeavesMost, Board.DrainsGroups, Board.UsableGroups, IsSplit;
    assert !Board.GroupsCover(groups, available) by {
      if groups != [] {
        var s :| s in available && forall g :: g in groups ==> s !in g;
        assert !Board.Grouped(groups, s) by {
          if i :| Board.FirstIn(groups, i, s) {
            assert groups[i] in groups;
          }
        }
      }
    }
    var boards :|
      && IsSplit(boards, available, devs, Board.SerialNumber()) && SmallestFirst(boards)
      && Spider.KeepsLargestWhole(boards, r.slots);
    SplitSize(boards, available, devs, Board.SerialNumber());
    assert Separate(boards) by { SplitIsSeparate(boards, available, devs, Board.SerialNumber()); }
    KeepingLargestLeavesMost(boards, r.slots);
  }

  lemma SplitIsSeparate(groups: seq<seq<nat>>, available: seq<nat>, devs: map<string, Device>, key: Device -> string)
    requires IsSplit(groups, available, devs, key)
    ensures Separate(groups)
  {
  }

  // ----- the boards inside the link groups -----

  /** The slot is on the board at `b`, and that board lies inside the group at `g`. */
  ghost predicate OnBoardInside(groups: seq<seq<nat>>, boards: seq<seq<nat>>, g: nat, b: nat, s: nat) {
    g < |groups| && b < |boards| && s in boards[b] && forall t :: t in boards[b] ==> t in groups[g]
  }

  /** The slot is on a board inside an earlier group, or not after the board at `b` inside that group. */
  ghost predicate OnBoardUpTo(groups: seq<seq<nat>>, boards: seq<seq<nat>>, g: nat, b: nat, s: nat) {
    exists h: nat, c: nat :: OnBoardInside(groups, boards, h, c, s) && (h < g || (h == g && c <= b))
  }

  /** While a board inside a group has a slot left, nothing is taken from later boards or from boards outside. */
  ghost predicate InsideFirst(groups: seq<seq<nat>>, boards: seq<seq<nat>>, taken: seq<nat>) {
    forall g: nat, b: nat, s: nat, t: nat ::
      OnBoardInside(groups, boards, g, b, s) && s !in taken && t in taken ==> OnBoardUpTo(groups, boards, g, b, t)
  }

  ghost predicate OnSomeBoardInside(groups: seq<seq<nat>>, boards: seq<seq<nat>>, s: nat) {
    exists g: nat, b: nat :: OnBoardInside(groups, boards, g, b, s)
  }

  /** A slot that is on no board inside a group is taken only after all that come before it in the list. */
  ghost predicate RestInOrder(available: seq<nat>, groups: seq<seq<nat>>, boards: seq<seq<nat>>, taken: seq<nat>) {
    forall i, j :: 0 <= i < j < |available| && available[i] !in taken && available[j] in taken ==>
                     OnSomeBoardInside(groups, boards, available[j])
  }

  /** When the link groups cover the slots, the smallest groups give whole boards first; the rest goes in order. */
  lemma BoardDrainsInsideFirst(policy: Policy, available: seq<nat>, groups: seq<seq<nat>>, devs: map<string, Device>,
                               size: nat, r: Result)
    requires Distinct(available)
    requires Board.BoardAnswers(policy, available, groups, devs, size, Rings([]), r) && r.Slots?
    requires groups != [] && forall s :: s in available ==> exists g :: g in groups && s in g
    ensures exists filtered: seq<seq<nat>>, boards: seq<seq<nat>> ::
              && Board.IsFiltered(filtered, available, groups)
              && IsSplit(boards, available, devs, Board.SerialNumber()) && SmallestFirst(boards)
              && InsideFirst(filtered, boards, r.slots) && RestInOrder(available, filtered, boards, r.slots)
  {
    hide Board.IsFiltered, IsSplit, SmallestFirst, InsideFirst, RestInOrder, Distinct;
    hide Board.InDrainingOrder, Spider.KeepsLargestWhole;
    GroupsAreCovering(available, groups);
    var filtered, boards :|
      && Board.IsFiltered(filtered, available, groups)
      && IsSplit(boards, available, devs, Board.SerialNumber()) && SmallestFirst(boards)
      && r.slots <= Board.InDrainingOrder(available, filtered, boards);
    DrainingOrderIsInsideFirst(available, filtered, boards, r.slots);
    RestIsInOrder(available, filtered, boards, r.slots);
  }

  lemma {:induction false} SomeGroupIsFirst(groups: seq<seq<nat>>, i: nat, s: nat)
    requires i < |groups| && s in groups[i]
    ensures Board.Grouped(groups, s)
  {
    if j: nat :| j < i && s in groups[j] {
      SomeGroupIsFirst(groups, j, s);
    } else {
      assert Board.FirstIn(groups, i, s);
    }
  }

  lemma DrainingOrderIsInsideFirst(available: seq<nat>, groups: seq<seq<nat>>, boards: seq<seq<nat>>, taken: seq<nat>)
    requires taken <= Board.InDrainingOrder(available, groups, boards)
    ensures InsideFirst(groups, boards, taken)
  {
    forall g: nat, b: nat, s: nat, t: nat | OnBoardInside(groups, boards, g, b, s) && s !in taken && t in taken
      ensures OnBoardUpTo(groups, boards, g, b, t)
    {
      hide Flat, Board.InsideOf, Board.Merged;
      var m := Board.Merged(groups, boards);
      var upTo := boards[..b + 1];
      var start := Flat(m[..g]) + Flat(Board.InsideOf(groups[g], upTo));
      Board.TakenIsPrefix(groups, boards, g, b + 1);
      assert upTo[b] == boards[b] && ContainsAll(groups[g], upTo[b]) && s in upTo[b];
      Board.InsideOfMembers(groups[g], upTo, s);
      assert s in Flat(Board.InsideOf(groups[g], upTo)) && s in start;
      assert taken <= start by {
        var i :| 0 <= i < |start| && start[i] == s;
        assert Board.InDrainingOrder(available, groups, boards)[i] == s;
      }
      StartIsUpTo(groups, boards, g, b, t);
    }
  }

  lemma StartIsUpTo(groups: seq<seq<nat>>, boards: seq<seq<nat>>, g: nat, b: nat, t: nat)
    requires g < |groups| && b < |boards|
    requires t in Flat(Board.Merged(groups, boards)[..g]) + Flat(Board.InsideOf(groups[g], boards[..b + 1]))
    ensures OnBoardUpTo(groups, boards, g, b, t)
  {
    hide Flat, Board.InsideOf;
    var m := Board.Merged(groups, boards);
    var front := m[..g];
    if t in Flat(front) {
      FlatMembers(front, t);
      var h: nat :| h < |front| && t in front[h];
      Board.InsideOfMembers(groups[h], boards, t);
      var c :| 0 <= c < |boards| && ContainsAll(groups[h], boards[c]) && t in boards[c];
      assert OnBoardInside(groups, boards, h, c, t);
    } else {
      var upTo := boards[..b + 1];
      Board.InsideOfMembers(groups[g], upTo, t);
      var c: nat :| c <= b && ContainsAll(groups[g], upTo[c]) && t in upTo[c];
      assert upTo[c] == boards[c];
      assert OnBoardInside(groups, boards, g, c, t);
    }
  }

  lemma RestIsInOrder(available: seq<nat>, groups: seq<seq<nat>>, boards: seq<seq<nat>>, taken: seq<nat>)
    requires Distinct(available) && taken <= Board.InDrainingOrder(available, groups, boards)
    ensures RestInOrder(available, groups, boards, taken)
  {
    var merged := Flat(Board.Merged(groups, boards));
    forall i, j | 0 <= i < j < |available| && available[i] !in taken && available[j] in taken
      ensures OnSomeBoardInside(groups, boards, available[j])
    {
      hide Flat, Board.Merged, Fresh;
      var front, back := available[..i + 1], available[i + 1..];
      assert available == front + back;
      FreshConcat(front, back, merged);
      FreshMembers(front, merged);
      var start := merged + Fresh(front, merged);
      assert start <= Board.InDrainingOrder(available, groups, boards);
      assert available[i] in start;
      assert !(start <= taken);
      assert taken <= start;
      assert available[j] !in front;
      MergedIsInside(groups, boards, available[j]);
    }
  }

  lemma {:induction false} FreshConcat(a: seq<nat>, b: seq<nat>, have: seq<nat>)
    ensures Fresh(a + b, have) == Fresh(a, have) + Fresh(b, have)
  {
    if a == [] {
      assert a + b == b;
    } else {
      assert (a + b)[1..] == a[1..] + b;
      FreshConcat(a[1..], b, have);
    }
  }

  lemma MergedIsInside(groups: seq<seq<nat>>, boards: seq<seq<nat>>, s: nat)
    requires s in Flat(Board.Merged(groups, boards))
    ensures OnSomeBoardInside(groups, boards, s)
  {
    hide Flat, Board.InsideOf;
    var m := Board.Merged(groups, boards);
    FlatMembers(m, s);
    var g: nat :| g < |m| && s in m[g];
    Board.InsideOfMembers(groups[g], boards, s);
    var b: nat :| b < |boards| && ContainsAll(groups[g], boards[b]) && s in boards[b];
    assert OnBoardInside(groups, boards, g, b, s);
  }

  /** What the group at `p` is cut down to: the available slots that no earlier group has. */
  ghost predicate CutDown(list: seq<nat>, available: seq<nat>, groups: seq<seq<nat>>, p: nat)
    requires p < |groups|
  {
    forall s :: s in list <==> s in available && s in groups[p] && forall j :: 0 <= j < p ==> s !in groups[j]
  }

  ghost predicate AllCutDown(filtered: seq<seq<nat>>, available: seq<nat>, groups: seq<seq<nat>>, places: seq<nat>) {
    && |places| == |filtered| == |groups| && (forall i, j :: 0 <= i < j < |places| ==> places[i] != places[j])
    && (forall i :: 0 <= i < |places| ==> places[i] < |groups| && CutDown(filtered[i], available, groups, places[i]))
    && (forall i, j :: 0 <= i < j < |places| && |filtered[i]| == |filtered[j]| ==> places[i] < places[j])
  }

  /** The link groups are cut down to the available slots, each kept in its first group, and sorted by size, stably. */
  lemma FilteredByFirstGroup(filtered: seq<seq<nat>>, available: seq<nat>, groups: seq<seq<nat>>)
    requires Board.IsFiltered(filtered, available, groups)
    ensures forall i, j :: 0 <= i < j < |filtered| ==> |filtered[i]| <= |filtered[j]|
    ensures exists places :: AllCutDown(filtered, available, groups, places)
  {
    var lists, places :|
      Board.IsPicked(lists, available, groups) && Permutes(places, lists, filtered) &&
      Stable(places, filtered, Board.Count());
    forall i | 0 <= i < |places|
      ensures places[i] < |groups| && CutDown(filtered[i], available, groups, places[i])
    {
      Board.PickedMembers(available, groups, places[i]);
    }
    assert AllCutDown(filtered, available, groups, places);
  }

  /** The available slots that the group at `p` has and no earlier one. */
  ghost function KeptOn(available: seq<nat>, groups: seq<seq<nat>>, p: nat): set<nat>
    requires p < |groups|
  {
    set s | s in available && s in groups[p] && forall j :: 0 <= j < p ==> s !in groups[j]
  }

  /**
   With rings the board allocator takes one with the most rings that do not conflict; and if the link groups cover
   the slots and such a ring lies inside one, it takes one inside a group with no more slots available.
   */
  lemma BoardTakesTightRing(policy: Policy, available: seq<nat>, groups: seq<seq<nat>>, devs: map<string, Device>,
                            size: nat, rings: seq<Ring>, r: Result, q: Ring, p: nat)
    requires Distinct(available)
    requires Board.BoardAnswers(policy, available, groups, devs, size, Rings(rings), r) && r.Slots? && rings != []
    requires forall s :: s in available ==> exists g :: g in groups && s in g
    requires p < |groups| && q in rings && forall s :: s in q.ordinals ==> s in KeptOn(available, groups, p)
    requires forall o :: o in rings ==> o.nonConflict <= q.nonConflict
    ensures exists ring :: ring in rings && r.slots == ring.ordinals && ring.nonConflict == q.nonConflict
    ensures exists k: nat ::
              && k < |groups| && (forall s :: s in r.slots ==> s in KeptOn(available, groups, k))
              && |KeptOn(available, groups, k)| <= |KeptOn(available, groups, p)|
  {
    hide Board.IsFiltered, KeptOn;
    GroupsAreCovering(available, groups);
    var filtered :|
      && Board.UsableGroups(filtered, available, groups)
      && exists ring :: IsTightest(ring, rings, filtered) && r.slots == ring.ordinals;
    var ring :| IsTightest(ring, rings, filtered) && r.slots == ring.ordinals;
    FilteredByFirstGroup(filtered, available, groups);
    var places :| AllCutDown(filtered, available, groups, places);
    EveryPlace(places, p);
    var h: nat :| h < |places| && places[h] == p;
    KeptSize(filtered, available, groups, places, h);
    assert HoldsBest(filtered[h], rings) by {
      assert IsBest(q, rings) && Inside(q, filtered[h]);
    }
    var g :| g in filtered && Inside(ring, g) && forall k :: k in filtered && HoldsBest(k, rings) ==> |g| <= |k|;
    var i: nat :| i < |filtered| && filtered[i] == g;
    KeptSize(filtered, available, groups, places, i);
    assert |KeptOn(available, groups, places[i])| <= |KeptOn(available, groups, p)|;
  }

  lemma GroupsAreCovering(available: seq<nat>, groups: seq<seq<nat>>)
    requires groups != [] && forall s :: s in available ==> exists g :: g in groups && s in g
    ensures Board.GroupsCover(groups, available)
  {
    forall s | s in available
      ensures Board.Grouped(groups, s)
    {
      var g :| g in groups && s in g;
      var i :| 0 <= i < |groups| && groups[i] == g;
      SomeGroupIsFirst(groups, i, s);
    }
  }

  lemma KeptSize(filtered: seq<seq<nat>>, available: seq<nat>, groups: seq<seq<nat>>, places: seq<nat>, i: nat)
    requires Board.IsFiltered(filtered, available, groups) && Distinct(available)
    requires AllCutDown(filtered, available, groups, places) && i < |places|
    ensures forall s :: s in filtered[i] <==> s in KeptOn(available, groups, places[i])
    ensures |filtered[i]| == |KeptOn(available, groups, places[i])|
  {
    hide Board.IsFiltered;
    Board.FilteredSeparate(filtered, available, groups);
    assert CutDown(filtered[i], available, groups, places[i]);
    DistinctSize(filtered[i]);
    assert Elements(filtered[i]) == KeptOn(available, groups, places[i]);
  }
}
