/**
 Health streaming: a watcher polls the slots and sends an event when a device changes, the plugin replays
 the events into its device list, and the list then says what a full poll says.
 */
module Health {
  import opened Options
  import opened SlotSets

  type Uuid = string

  datatype Info = Info(uuid: Uuid, slot: nat)

  datatype Status = Healthy | Unhealthy

  datatype Event = Event(id: Uuid, health: Status)

  /** One poll of a slot: the health code, and the compute mode it would report; `None` is an error. */
  datatype Reading = Reading(code: Option<int>, compute: Option<bool>)

  datatype Watch = Watch(unhealthy: set<Uuid>, disabled: bool)

  // ----- one sweep -----

  ghost function Slots(devsInfo: map<Uuid, Info>): set<nat> { set id | id in devsInfo :: devsInfo[id].slot }

  ghost predicate OneSlotEach(devsInfo: map<Uuid, Info>) {
    forall i, j :: i in devsInfo && j in devsInfo && devsInfo[i].uuid == devsInfo[j].uuid ==>
      devsInfo[i].slot == devsInfo[j].slot
  }

  /** A compute-mode error at any healthy slot stops compute mode from being asked again. */
  predicate Disables(r: Reading) { r.code == Some(1) && r.compute.None? }

  ghost predicate Disabled(was: bool, answer: nat -> Reading, polls: nat) {
    was || exists k: nat :: k < polls && Disables(answer(k))
  }

  function Code(disabled: bool, r: Reading): int {
    if r.code.None? || (r.code == Some(1) && !disabled && r.compute == Some(true)) then 0 else r.code.value
  }

  /** The slots polled, in order and none twice, and the code each poll gave. */
  ghost predicate Polled(was: bool, answer: nat -> Reading, order: seq<nat>, codes: map<nat, int>) {
    && Distinct(order) && codes.Keys == Elements(order)
    && forall k: nat :: k < |order| ==>
         order[k] in codes && codes[order[k]] == Code(Disabled(was, answer, k), answer(k))
  }

  /** The events about one device. */
  ghost function Of(events: seq<Event>, u: Uuid): seq<Status> {
    if events == [] then []
    else
      var last := |events| - 1;
      Of(events[..last], u) + if events[last].id == u then [events[last].health] else []
  }

  /** A device's one event if it changed, and none if it did not. */
  function Edge(was: bool, now: bool): seq<Status> {
    if was == now then [] else [if now then Unhealthy else Healthy]
  }

  ghost predicate Edges(events: seq<Event>, was: set<Uuid>, now: set<Uuid>) {
    forall u :: Of(events, u) == Edge(u in was, u in now)
  }

  /** The devices with IDs `done` have been looked at. */
  ghost predicate Seen(devsInfo: map<Uuid, Info>, done: set<Uuid>, was: set<Uuid>, now: set<Uuid>,
                       codes: map<nat, int>) {
    && done <= devsInfo.Keys
    && codes.Keys == (set id | id in done :: devsInfo[id].slot)
    && (forall id :: id in done ==> (devsInfo[id].uuid in now <==> codes[devsInfo[id].slot] == 0))
    && (forall u :: (forall id :: id in done ==> devsInfo[id].uuid != u) ==> (u in was <==> u in now))
  }

  /** What a sweep does: every slot is polled once, and the events are the changes. */
  ghost predicate Swept(devsInfo: map<Uuid, Info>, before: Watch, after: Watch, codes: map<nat, int>,
                        events: seq<Event>) {
    Seen(devsInfo, devsInfo.Keys, before.unhealthy, after.unhealthy, codes) &&
    Edges(events, before.unhealthy, after.unhealthy)
  }

  lemma OfMore(events: seq<Event>, e: Event, u: Uuid)
    ensures Of(events + [e], u) == Of(events, u) + if e.id == u then [e.health] else []
  {
    assert (events + [e])[..|events|] == events;
  }

  lemma EdgesMore(events: seq<Event>, was: set<Uuid>, now: set<Uuid>, u: Uuid, unhealthy: bool)
    requires Edges(events, was, now) && (u in was <==> u in now) && unhealthy != (u in now)
    ensures Edges(events + [Event(u, if unhealthy then Unhealthy else Healthy)], was,
                  if unhealthy then now + {u} else now - {u})
  {
    hide Of;
    forall v
      ensures Of(events + [Event(u, if unhealthy then Unhealthy else Healthy)], v) ==
                Edge(v in was, v in if unhealthy then now + {u} else now - {u})
    {
      OfMore(events, Event(u, if unhealthy then Unhealthy else Healthy), v);
      assert Of(events, v) == Edge(v in was, v in now);
    }
  }

  /** Looking at one more device whose slot has a code. */
  lemma SeenMore(devsInfo: map<Uuid, Info>, done: set<Uuid>, was: set<Uuid>, now: set<Uuid>, next: set<Uuid>,
                 codes: map<nat, int>, more: map<nat, int>, id: Uuid)
    requires OneSlotEach(devsInfo) && Seen(devsInfo, done, was, now, codes) && id in devsInfo
    requires devsInfo[id].slot in more && more == codes[devsInfo[id].slot := more[devsInfo[id].slot]]
    requires devsInfo[id].slot in codes ==> more == codes
    requires next == if more[devsInfo[id].slot] == 0 then now + {devsInfo[id].uuid} else now - {devsInfo[id].uuid}
    ensures Seen(devsInfo, done + {id}, was, next, more)
  {
    assert (set d | d in done + {id} :: devsInfo[d].slot) == codes.Keys + {devsInfo[id].slot};
    forall u | forall d :: d in done + {id} ==> devsInfo[d].uuid != u
      ensures u in was <==> u in next
    {
      assert id in done + {id};
      assert forall d :: d in done ==> d in done + {id};
    }
  }

  /** A device that changes was not looked at before under another ID. */
  lemma ChangeIsFirst(devsInfo: map<Uuid, Info>, done: set<Uuid>, was: set<Uuid>, now: set<Uuid>, codes: map<nat, int>,
                      more: map<nat, int>, id: Uuid)
    requires OneSlotEach(devsInfo) && Seen(devsInfo, done, was, now, codes) && id in devsInfo
    requires devsInfo[id].slot in more && (devsInfo[id].slot in codes ==> more == codes)
    requires (more[devsInfo[id].slot] == 0) != (devsInfo[id].uuid in now)
    ensures devsInfo[id].uuid in was <==> devsInfo[id].uuid in now
  {
  }

  lemma PolledMore(was: bool, answer: nat -> Reading, order: seq<nat>, codes: map<nat, int>, slot: nat, code: int)
    requires Polled(was, answer, order, codes) && slot !in codes
    requires code == Code(Disabled(was, answer, |order|), answer(|order|))
    ensures Polled(was, answer, order + [slot], codes[slot := code])
  {
    hide Code, Disabled;
    assert Elements(order + [slot]) == Elements(order) + {slot};
  }

  class Watcher {
    const devsInfo: map<Uuid, Info>
    var unhealthy: set<Uuid>
    var computeModeDisabled: bool

    constructor (devsInfo: map<Uuid, Info>)
      ensures this.devsInfo == devsInfo && unhealthy == {} && !computeModeDisabled
    {
      this.devsInfo := devsInfo;
      unhealthy, computeModeDisabled := {}, false;
    }

    ghost function Now(): Watch
      reads this
    {
      Watch(unhealthy, computeModeDisabled)
    }

    /** One poll of a slot; `disabled` is how the watcher stands before it. */
    method Poll(r: Reading) returns (ret: int)
      modifies `computeModeDisabled
      ensures ret == Code(old(computeModeDisabled), r)
      ensures computeModeDisabled == (old(computeModeDisabled) || Disables(r))
    {
      ret := match r.code case None => 0 case Some(code) => code;
      if ret == 1 && !computeModeDisabled {
        if r.compute.None? {
          computeModeDisabled := true;
        } else if r.compute.value {
          ret := 0;
        }
      }
    }

    /** One turn of the loop of `watchUnhealthy`; `answer(k)` is what the k-th poll of the sweep reads. */
    method Sweep(answer: nat -> Reading) returns (events: seq<Event>, codes: map<nat, int>, ghost order: seq<nat>)
      requires OneSlotEach(devsInfo)
      modifies this
      ensures Polled(old(computeModeDisabled), answer, order, codes) && Elements(order) == Slots(devsInfo)
      ensures computeModeDisabled == Disabled(old(computeModeDisabled), answer, |order|)
      ensures Swept(devsInfo, old(Now()), Now(), codes, events)
    {
      hide Edges, Seen, OneSlotEach, Polled, Code;
      events, codes, order := [], map[], [];
      var rest, polls := devsInfo.Keys, 0;
      SweepStarts(devsInfo, unhealthy, computeModeDisabled, answer);
      while rest != {}
        invariant rest <= devsInfo.Keys && polls == |order|
        invariant Polled(old(computeModeDisabled), answer, order, codes)
        invariant computeModeDisabled == Disabled(old(computeModeDisabled), answer, |order|)
        invariant Seen(devsInfo, devsInfo.Keys - rest, old(unhealthy), unhealthy, codes)
        invariant Edges(events, old(unhealthy), unhealthy)
        decreases rest
      {
        var id :| id in rest;
        ghost var done, was, before := devsInfo.Keys - rest, unhealthy, codes;
        rest := rest - {id};
        assert done + {id} == devsInfo.Keys - rest;
        var dm := devsInfo[id];
        if dm.slot !in codes {
          var ret := Poll(answer(polls));
          PolledMore(old(computeModeDisabled), answer, order, codes, dm.slot, ret);
          DisabledMore(old(computeModeDisabled), answer, |order|);
          codes, order, polls := codes[dm.slot := ret], order + [dm.slot], polls + 1;
        }
        if codes[dm.slot] == 0 {
          if dm.uuid !in unhealthy {
            ChangeIsFirst(devsInfo, done, old(unhealthy), was, before, codes, id);
            EdgesMore(events, old(unhealthy), was, dm.uuid, true);
            unhealthy := unhealthy + {dm.uuid};
            events := events + [Event(dm.uuid, Unhealthy)];
          }
          assert unhealthy == was + {dm.uuid};
        } else {
          if dm.uuid in unhealthy {
            ChangeIsFirst(devsInfo, done, old(unhealthy), was, before, codes, id);
            EdgesMore(events, old(unhealthy), was, dm.uuid, false);
            unhealthy := unhealthy - {dm.uuid};
            events := events + [Event(dm.uuid, Healthy)];
          }
          assert unhealthy == was - {dm.uuid};
        }
        SeenMore(devsInfo, done, old(unhealthy), was, unhealthy, before, codes, id);
      }
      assert devsInfo.Keys - rest == devsInfo.Keys;
      SlotsSeen(devsInfo, old(unhealthy), unhealthy, codes, old(computeModeDisabled), answer, order);
    }
  }

  lemma SweepStarts(devsInfo: map<Uuid, Info>, was: set<Uuid>, disabled: bool, answer: nat -> Reading)
    ensures Polled(disabled, answer, [], map[]) && disabled == Disabled(disabled, answer, 0)
    ensures Seen(devsInfo, devsInfo.Keys - devsInfo.Keys, was, was, map[]) && Edges([], was, was)
  {
  }

  lemma DisabledMore(was: bool, answer: nat -> Reading, polls: nat)
    ensures Disabled(was, answer, polls + 1) == (Disabled(was, answer, polls) || Disables(answer(polls)))
  {
  }

  lemma SlotsSeen(devsInfo: map<Uuid, Info>, was: set<Uuid>, now: set<Uuid>, codes: map<nat, int>,
                  disabled: bool, answer: nat -> Reading, order: seq<nat>)
    requires Seen(devsInfo, devsInfo.Keys, was, now, codes) && Polled(disabled, answer, order, codes)
    ensures Elements(order) == Slots(devsInfo)
  {
    assert Slots(devsInfo) == (set id | id in devsInfo.Keys :: devsInfo[id].slot);
  }

  // ----- the device list -----

  /** The first device with the event's ID takes its health. */
  ghost function Apply(ids: seq<Uuid>, health: seq<Status>, e: Event): (after: seq<Status>)
    requires |ids| == |health|
    ensures |after| == |health|
  {
    seq(|health|, i requires 0 <= i < |health| => if ids[i] == e.id && IsFirst(ids, i) then e.health else health[i])
  }

  ghost predicate IsFirst(ids: seq<Uuid>, i: nat)
    requires i < |ids|
  {
    forall j: nat :: j < i ==> ids[j] != ids[i]
  }

  ghost function Replay(ids: seq<Uuid>, health: seq<Status>, events: seq<Event>): (after: seq<Status>)
    requires |ids| == |health|
    ensures |after| == |health|
  {
    if events == [] then health
    else Apply(ids, Replay(ids, health, events[..|events| - 1]), events[|events| - 1])
  }

  class DeviceList {
    const ids: seq<Uuid>
    const health: array<Status>

    /** Every device starts healthy. */
    constructor (ids: seq<Uuid>)
      ensures this.ids == ids && health.Length == |ids| && fresh(health)
      ensures forall i :: 0 <= i < |ids| ==> health[i] == Healthy
    {
      this.ids := ids;
      health := new Status[|ids|](_ => Healthy);
    }

    /** What `ListAndWatch` does with one event. */
    method Update(e: Event)
      requires health.Length == |ids|
      modifies health
      ensures health[..] == Apply(ids, old(health[..]), e)
    {
      for i := 0 to |ids|
        invariant health[..] == old(health[..])
        invariant forall j :: 0 <= j < i ==> ids[j] != e.id
      {
        if ids[i] == e.id {
          health[i] := e.health;
          break;
        }
      }
      assert forall i :: 0 <= i < |ids| ==> health[..][i] == Apply(ids, old(health[..]), e)[i];
    }

    method Receive(events: seq<Event>)
      requires health.Length == |ids|
      modifies health
      ensures health[..] == Replay(ids, old(health[..]), events)
    {
      for i := 0 to |events|
        invariant health[..] == Replay(ids, old(health[..]), events[..i])
      {
        Update(events[i]);
        assert events[..i + 1][..i] == events[..i];
      }
      assert events[..|events|] == events;
    }
  }

  lemma {:induction false} ReplayAt(ids: seq<Uuid>, health: seq<Status>, events: seq<Event>, i: nat)
    requires |ids| == |health| && i < |ids|
    ensures var mine := Of(events, ids[i]);
            Replay(ids, health, events)[i] == if IsFirst(ids, i) && mine != [] then mine[|mine| - 1] else health[i]
  {
    if events != [] {
      ReplayAt(ids, health, events[..|events| - 1], i);
    }
  }

  // ----- whole runs -----

  ghost predicate Alternates(s: seq<Status>) {
    forall k :: 0 <= k < |s| ==> s[k] == if k % 2 == 0 then Unhealthy else Healthy
  }

  /** A run of sweeps from a new watcher. */
  ghost predicate Run(devsInfo: map<Uuid, Info>, states: seq<Watch>, codes: seq<map<nat, int>>,
                      batches: seq<seq<Event>>) {
    && |states| == |batches| + 1 == |codes| + 1 && states[0].unhealthy == {}
    && forall k: nat :: k < |batches| ==> SweptAt(devsInfo, states, codes, batches, k)
  }

  ghost predicate SweptAt(devsInfo: map<Uuid, Info>, states: seq<Watch>, codes: seq<map<nat, int>>,
                          batches: seq<seq<Event>>, k: nat)
    requires |states| == |batches| + 1 == |codes| + 1 && k < |batches|
  {
    Swept(devsInfo, states[k], states[k + 1], codes[k], batches[k])
  }

  ghost function Sent(batches: seq<seq<Event>>, k: nat): seq<Event>
    requires k <= |batches|
  {
    if k == 0 then [] else Sent(batches, k - 1) + batches[k - 1]
  }

  lemma {:induction false} OfConcat(a: seq<Event>, b: seq<Event>, u: Uuid)
    ensures Of(a + b, u) == Of(a, u) + Of(b, u)
  {
    if b == [] {
      assert a + b == a;
    } else {
      OfConcat(a, b[..|b| - 1], u);
      OfMore(a + b[..|b| - 1], b[|b| - 1], u);
      assert a + b[..|b| - 1] + [b[|b| - 1]] == a + b;
    }
  }

  /** Per device the events alternate, beginning with Unhealthy; the last one says how the watcher holds it. */
  lemma {:induction false} EventsAlternate(devsInfo: map<Uuid, Info>, states: seq<Watch>, codes: seq<map<nat, int>>,
                                          batches: seq<seq<Event>>, k: nat, u: Uuid)
    requires Run(devsInfo, states, codes, batches) && k < |states|
    ensures Alternates(Of(Sent(batches, k), u))
    ensures |Of(Sent(batches, k), u)| % 2 == 1 <==> u in states[k].unhealthy
  {
    hide Of, Seen;
    if k == 0 {
      assert Of([], u) == [] by { OfNothing(u); }
    } else {
      EventsAlternate(devsInfo, states, codes, batches, k - 1, u);
      assert SweptAt(devsInfo, states, codes, batches, k - 1);
      OfConcat(Sent(batches, k - 1), batches[k - 1], u);
      assert Of(batches[k - 1], u) == Edge(u in states[k - 1].unhealthy, u in states[k].unhealthy);
    }
  }

  lemma OfNothing(u: Uuid)
    ensures Of([], u) == []
  {
  }

  /** The health a full poll shows. */
  ghost function Snapshot(codes: map<nat, int>, slot: nat): Status
    requires slot in codes
  {
    if codes[slot] == 0 then Unhealthy else Healthy
  }

  /**
   After every sweep the replayed list shows each device whose ID is its UUID exactly as its slot was last
   polled. (With a repeated ID only the first entry is ever updated.)
   */
  lemma ReplayAgreesWithPolling(devsInfo: map<Uuid, Info>, states: seq<Watch>, codes: seq<map<nat, int>>,
                                batches: seq<seq<Event>>, k: nat, ids: seq<Uuid>, i: nat, id: Uuid)
    requires Run(devsInfo, states, codes, batches) && 0 < k < |states|
    requires i < |ids| && IsFirst(ids, i) && id in devsInfo && devsInfo[id].uuid == ids[i]
    ensures devsInfo[id].slot in codes[k - 1]
    ensures Replay(ids, seq(|ids|, _ => Healthy), Sent(batches, k))[i] == Snapshot(codes[k - 1], devsInfo[id].slot)
  {
    hide Of, Replay;
    var u := ids[i];
    ReplayAt(ids, seq(|ids|, _ => Healthy), Sent(batches, k), i);
    EventsAlternate(devsInfo, states, codes, batches, k, u);
    assert SweptAt(devsInfo, states, codes, batches, k - 1);
    assert u in states[k].unhealthy <==> codes[k - 1][devsInfo[id].slot] == 0;
  }

  // ----- what is shown, by what was read -----

  /** A run with what its polls read: poll `q` of sweep `p` asks slot `orders[p][q]` and reads `answers[p](q)`. */
  ghost predicate Reads(devsInfo: map<Uuid, Info>, states: seq<Watch>, codes: seq<map<nat, int>>,
                        answers: seq<nat -> Reading>, orders: seq<seq<nat>>) {
    && |states| == |codes| + 1 && |answers| == |orders| == |codes| && !states[0].disabled
    && forall p: nat :: p < |codes| ==> ReadAt(devsInfo, states, codes, answers, orders, p)
  }

  ghost predicate ReadAt(devsInfo: map<Uuid, Info>, states: seq<Watch>, codes: seq<map<nat, int>>,
                         answers: seq<nat -> Reading>, orders: seq<seq<nat>>, p: nat)
    requires |states| == |codes| + 1 && |answers| == |orders| == |codes| && p < |codes|
  {
    && Polled(states[p].disabled, answers[p], orders[p], codes[p]) && Elements(orders[p]) == Slots(devsInfo)
    && states[p + 1].disabled == Disabled(states[p].disabled, answers[p], |orders[p]|)
  }

  /** The slot was healthy and its compute mode could not be read. */
  predicate ComputeUnread(r: Reading) { r == Reading(Some(1), None) }

  ghost predicate FailedAmong(answer: nat -> Reading, polls: nat) {
    exists q: nat :: q < polls && ComputeUnread(answer(q))
  }

  /** That happened in a sweep before `k`, or among the first `j` polls of sweep `k`. */
  ghost predicate FailedBefore(answers: seq<nat -> Reading>, orders: seq<seq<nat>>, k: nat, j: nat)
    requires k <= |answers| == |orders| && (j > 0 ==> k < |answers|)
  {
    (exists p: nat :: p < k && FailedAmong(answers[p], |orders[p]|)) || (j > 0 && FailedAmong(answers[k], j))
  }

  lemma DisabledAmong(was: bool, answer: nat -> Reading, polls: nat)
    ensures Disabled(was, answer, polls) <==> was || FailedAmong(answer, polls)
  {
    forall q: nat | q < polls
      ensures Disables(answer(q)) <==> ComputeUnread(answer(q))
    {
    }
  }

  lemma {:induction false} DisabledSince(devsInfo: map<Uuid, Info>, states: seq<Watch>, codes: seq<map<nat, int>>,
                                        answers: seq<nat -> Reading>, orders: seq<seq<nat>>, k: nat)
    requires Reads(devsInfo, states, codes, answers, orders) && k < |states|
    ensures states[k].disabled <==> FailedBefore(answers, orders, k, 0)
  {
    hide Polled, Slots, Disabled, FailedAmong;
    if k > 0 {
      DisabledSince(devsInfo, states, codes, answers, orders, k - 1);
      assert ReadAt(devsInfo, states, codes, answers, orders, k - 1);
      DisabledAmong(states[k - 1].disabled, answers[k - 1], |orders[k - 1]|);
    }
  }

  /**
   After every sweep the replayed list shows a device whose ID is its UUID unhealthy exactly if the poll of its slot
   failed, read the code 0, or read the code 1 with compute mode on, where compute mode counts until the first time that
   it could not be read.
   */
  lemma ShownAsRead(devsInfo: map<Uuid, Info>, states: seq<Watch>, codes: seq<map<nat, int>>,
                    batches: seq<seq<Event>>, answers: seq<nat -> Reading>, orders: seq<seq<nat>>,
                    k: nat, j: nat, ids: seq<Uuid>, i: nat, id: Uuid)
    requires Run(devsInfo, states, codes, batches) && Reads(devsInfo, states, codes, answers, orders)
    requires 0 < k < |states|
    requires i < |ids| && IsFirst(ids, i) && id in devsInfo && devsInfo[id].uuid == ids[i]
    requires j < |orders[k - 1]| && orders[k - 1][j] == devsInfo[id].slot
    ensures
      var r, shown := answers[k - 1](j), Replay(ids, seq(|ids|, _ => Healthy), Sent(batches, k))[i];
      shown ==
      if r.code == None || r.code == Some(0) then Unhealthy
      else if r == Reading(Some(1), Some(true)) && !FailedBefore(answers, orders, k - 1, j) then Unhealthy
      else Healthy
  {
    hide Of, Replay, Run, Sent, Disabled, FailedAmong;
    ReplayAgreesWithPolling(devsInfo, states, codes, batches, k, ids, i, id);
    assert ReadAt(devsInfo, states, codes, answers, orders, k - 1);
    DisabledSince(devsInfo, states, codes, answers, orders, k - 1);
    DisabledAmong(states[k - 1].disabled, answers[k - 1], j);
    if j == 0 {
      NothingFailed(answers[k - 1]);
    }
  }

  lemma NothingFailed(answer: nat -> Reading)
    ensures !FailedAmong(answer, 0)
  {
  }

  /** Every device's slot is polled in every sweep. */
  lemma EverySlotRead(devsInfo: map<Uuid, Info>, states: seq<Watch>, codes: seq<map<nat, int>>,
                      answers: seq<nat -> Reading>, orders: seq<seq<nat>>, k: nat, id: Uuid)
    requires Reads(devsInfo, states, codes, answers, orders) && k < |orders| && id in devsInfo
    ensures exists j: nat :: j < |orders[k]| && orders[k][j] == devsInfo[id].slot
  {
    assert ReadAt(devsInfo, states, codes, answers, orders, k);
    assert devsInfo[id].slot in Elements(orders[k]);
  }

  /** Devices on one slot show the same health, although their events travelled separately. */
  lemma OneSlotAgrees(devsInfo: map<Uuid, Info>, states: seq<Watch>, codes: seq<map<nat, int>>,
                      batches: seq<seq<Event>>, k: nat, ids: seq<Uuid>, i: nat, j: nat, a: Uuid, b: Uuid)
    requires Run(devsInfo, states, codes, batches) && k < |states|
    requires i < |ids| && IsFirst(ids, i) && a in devsInfo && devsInfo[a].uuid == ids[i]
    requires j < |ids| && IsFirst(ids, j) && b in devsInfo && devsInfo[b].uuid == ids[j]
    requires devsInfo[a].slot == devsInfo[b].slot
    ensures var health := Replay(ids, seq(|ids|, _ => Healthy), Sent(batches, k)); health[i] == health[j]
  {
    if k > 0 {
      ReplayAgreesWithPolling(devsInfo, states, codes, batches, k, ids, i, a);
      ReplayAgreesWithPolling(devsInfo, states, codes, batches, k, ids, j, b);
    }
  }

  /** A device the watcher does not know stays healthy, and so does a second entry with a used ID. */
  lemma OthersStayHealthy(devsInfo: map<Uuid, Info>, states: seq<Watch>, codes: seq<map<nat, int>>,
                          batches: seq<seq<Event>>, k: nat, ids: seq<Uuid>, i: nat)
    requires Run(devsInfo, states, codes, batches) && k < |states| && i < |ids|
    requires !IsFirst(ids, i) || forall id :: id in devsInfo ==> devsInfo[id].uuid != ids[i]
    ensures Replay(ids, seq(|ids|, _ => Healthy), Sent(batches, k))[i] == Healthy
  {
    ReplayAt(ids, seq(|ids|, _ => Healthy), Sent(batches, k), i);
    if IsFirst(ids, i) {
      UnknownSilent(devsInfo, states, codes, batches, k, ids[i]);
    }
  }

  lemma {:induction false} UnknownSilent(devsInfo: map<Uuid, Info>, states: seq<Watch>, codes: seq<map<nat, int>>,
                                        batches: seq<seq<Event>>, k: nat, u: Uuid)
    requires Run(devsInfo, states, codes, batches) && k < |states|
    requires forall id :: id in devsInfo ==> devsInfo[id].uuid != u
    ensures Of(Sent(batches, k), u) == [] && u !in states[k].unhealthy
  {
    hide Of;
    if k == 0 {
      OfNothing(u);
    } else {
      UnknownSilent(devsInfo, states, codes, batches, k - 1, u);
      assert SweptAt(devsInfo, states, codes, batches, k - 1);
      OfConcat(Sent(batches, k - 1), batches[k - 1], u);
      assert Of(batches[k - 1], u) == Edge(u in states[k - 1].unhealthy, u in states[k].unhealthy);
    }
  }
}
