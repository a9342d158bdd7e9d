/**
 A collection in two halves. The collector lists the pods and then sweeps the slots under a lock that allocation does
 not take, so allocation calls can come between the two.
 */
module DsmluLocks {
  import opened Annotation
  import opened Bytes
  import opened DsmluModel
  import opened DsmluProof
  import opened DsmluRuns
  import opened Options

  /** `exec` with the pods as they were listed before. */
  ghost function CollectAs(st: State, listed: map<Name, Pod>, ws: seq<Sweep>): State
    requires |ws| == |st.devices|
  {
    if Blocked(listed) then st else st.(devices := SweepFrom(st.devices, listed, 0, ws))
  }

  // ----- what becomes of a listed pod -----

  /** The pod has the annotations it was listed with, and is active or pending only if it was. */
  ghost predicate Steady(st: State, n: Name, was: Pod) {
    && n in Everyone(st)
    && Everyone(st)[n].instance == was.instance && Everyone(st)[n].profile == was.profile
    && (n in st.pods ==>
          && (IsActive(st.pods[n]) ==> IsActive(was)) && (st.pods[n].phase == Pending ==> was.phase == Pending))
  }

  /** A pod that was listed, and did not hold the collection back, is not annotated by any later call. */
  lemma CallLeavesSteady(st: State, a: Answers, n: Name, was: Pod)
    requires Inv(st) && |st.devices| <= 256 && Steady(st, n, was) && !IsHandled(was)
    ensures Steady(Allocate(st, a).0, n, was)
  {
    hide DevicesOk, PodOk, PodLive, Apart, FirstCall, ReadRequest, Fits, WellNamed, Live;
    if Candidate(st.pods).Some? {
      var m := Candidate(st.pods).value;
      if m !in st.dynamicSmlu {
        PodsAlone(st, m, a);
      } else {
        assert RecordOk(st, m) && Everyone(st)[m] == st.pods[m];
      }
    }
  }

  lemma StepLeavesSteady(st: State, act: Action, n: Name, was: Pod)
    requires Inv(st) && Enabled(st, act) && Steady(st, n, was) && !IsHandled(was)
    ensures |st.devices| <= 256 && Steady(Next(st, act), n, was)
  {
    hide DevicesOk, PodOk, PodLive, RecordOk, Apart, Allocate, Recycle, Collect, IsHandled;
    InvBounds(st);
    match act
    case Call(a) => CallLeavesSteady(st, a, n, was);
    case Recycled(m, d) => RecyclingPods(st, st.gone[m], d);
    case Collected(ws) => CollectingPods(st, ws);
    case _ => PodsLeaveSteady(st, act, n, was);
  }

  lemma PodsLeaveSteady(st: State, act: Action, n: Name, was: Pod)
    requires |st.devices| <= 256 && Enabled(st, act) && (act.Arrive? || act.Move? || act.Remove?)
    requires st.pods.Keys !! st.gone.Keys && Steady(st, n, was)
    ensures Steady(Next(st, act), n, was)
  {
  }

  lemma {:induction false} SteadyAlong(states: seq<State>, acts: seq<Action>, n: Name, k: nat)
    requires Run(states, acts) && k < |states| && n in states[0].pods && !IsHandled(states[0].pods[n])
    ensures Steady(states[k], n, states[0].pods[n])
  {
    hide Inv, Safe, IsHandled, Steady, Enabled, Next;
    if k == 0 {
      SteadyAtFirst(states[0], n);
    } else {
      SteadyAlong(states, acts, n, k - 1);
      EveryRunIsSafe(states, acts, k - 1);
      assert RunStep(states[k - 1], acts[k - 1], states[k]);
      StepLeavesSteady(states[k - 1], acts[k - 1], n, states[0].pods[n]);
    }
  }

  lemma SteadyAtFirst(st: State, n: Name)
    requires Inv(st) && n in st.pods
    ensures Steady(st, n, st.pods[n])
  {
    hide DevicesOk, PodOk, PodLive, RecordOk, Apart;
  }

  // ----- what a sweep from a listing leaves -----

  /** The annotation that a pod's containers rely on: its own, or the one recorded for it. */
  ghost function NeededText(st: State, n: Name): Option<seq<byte>>
    requires n in st.pods
  {
    if IsActive(st.pods[n]) && st.pods[n].instance.Some? then st.pods[n].instance
    else if n in st.dynamicSmlu && n in st.profileAndInstance && st.pods[n].phase == Pending then
      Some(st.profileAndInstance[n])
    else None
  }

  ghost predicate Needs(st: State, n: Name, text: seq<byte>) { n in st.pods && NeededText(st, n) == Some(text) }

  lemma NeededIsLive(st: State, n: Name, text: seq<byte>)
    requires Inv(st) && Needs(st, n, text)
    ensures Live(st.devices, text)
  {
    hide DevicesOk, Apart, Fits, ReadAssignment;
    assert PodLive(st.devices, st.pods[n]);
    if n in st.dynamicSmlu {
      assert RecordOk(st, n);
    }
  }

  /** A pod without an annotation is what a recorded pod is. */
  lemma StillLiveIfNeeded(st: State, devices: seq<Device>)
    requires Inv(st)
    ensures StillLive(st, devices) <==> forall n, text :: Needs(st, n, text) ==> Live(devices, text)
  {
    hide DevicesOk, Apart, Fits, WellNamed, Live, PodOk, ReadRequest;
    if forall n, text :: Needs(st, n, text) ==> Live(devices, text) {
      forall n | n in st.pods
        ensures PodLive(devices, st.pods[n])
      {
        if IsActive(st.pods[n]) && st.pods[n].instance.Some? {
          assert Needs(st, n, st.pods[n].instance.value);
        }
      }
      forall n | n in st.dynamicSmlu && n in st.profileAndInstance && n in st.pods && st.pods[n].phase == Pending
        ensures Live(devices, st.profileAndInstance[n])
      {
        assert RecordOk(st, n) && Everyone(st)[n] == st.pods[n];
        assert Needs(st, n, st.profileAndInstance[n]);
      }
    }
  }

  /** A sweep takes away, on an enabled slot, what no listed pod names; elsewhere it takes nothing. */
  ghost predicate SweptAs(dev: Device, after: Device, listed: map<Name, Pod>, slot: nat) {
    && DeviceOk(after) && Shrinks(dev, after)
    && (forall i :: i in dev.instances ==> (i in after.instances <==> !dev.enabled || Keeps(listed, slot, i)))
  }

  lemma SweepAs(devices: seq<Device>, listed: map<Name, Pod>, ws: seq<Sweep>, s: nat)
    requires |devices| == |ws| && DevicesOk(devices) && s < |devices|
    requires forall t :: 0 <= t < |devices| ==> Faultless(devices[t], ws[t]) || !devices[t].enabled
    ensures SweptAs(devices[s], SweepFrom(devices, listed, 0, ws)[s], listed, s)
  {
    hide DeviceOk, Keeps, KeepsProfile, SweepInstances, SweepProfiles, SweepFrom, Shrinks;
    SweepFromExact(devices, listed, 0, ws, s);
    SweepDeviceOk(devices[s], listed, s, ws[s]);
    SweptShrinks(devices[s], SweepDevice(devices[s], listed, s, ws[s]), listed, s);
    if devices[s].enabled {
      SweepInstancesExact(devices[s], ws[s].instances, listed, s);
      SweepInstancesOk(devices[s], ws[s].instances, listed, s, {});
      SweepProfilesOk(SweepInstances(devices[s], ws[s].instances, listed, s, {}), ws[s].profiles, listed, s, {});
    }
  }

  /** A pod that was not listed relies on an instance of an enabled slot. */
  ghost predicate NewcomerServed(st: State, listed: map<Name, Pod>) {
    exists n, text :: n !in listed && Needs(st, n, text) && OnEnabledSlot(st.devices, text)
  }

  ghost predicate OnEnabledSlot(devices: seq<Device>, text: seq<byte>) {
    0 <= Named(text).0 < |devices| && devices[Named(text).0].enabled
  }

  /** Every listed pod is there as listed. */
  ghost predicate AllSteady(st: State, listed: map<Name, Pod>) {
    forall n :: n in listed ==> !IsHandled(listed[n]) && Steady(st, n, listed[n])
  }

  /** What a listed pod relies on, its listing names. */
  lemma ListedIsKept(st: State, listed: map<Name, Pod>, n: Name, text: seq<byte>)
    requires Inv(st) && AllSteady(st, listed) && n in listed && Needs(st, n, text)
    ensures ReadAssignment(text).Some? && ReadAssignment(text).value.slot >= 0
    ensures Keeps(listed, ReadAssignment(text).value.slot, ReadAssignment(text).value.instance)
  {
    hide DevicesOk, Apart, Fits, ReadAssignment, ReadKept;
    NeededIsLive(st, n, text);
    assert Everyone(st)[n] == st.pods[n] && PodOk(st.devices, Everyone(st)[n]);
    if n in st.dynamicSmlu {
      assert RecordOk(st, n);
    }
    SameReading(text);
    assert Names(listed[n], ReadAssignment(text).value.slot, ReadAssignment(text).value.instance);
  }

  /** What a newcomer relies on, no listed pod names. */
  lemma NewcomerIsNotKept(st: State, listed: map<Name, Pod>, n: Name, text: seq<byte>)
    requires Inv(st) && AllSteady(st, listed) && n !in listed && Needs(st, n, text)
    ensures ReadAssignment(text).Some?
    ensures !Keeps(listed, ReadAssignment(text).value.slot, ReadAssignment(text).value.instance)
  {
    hide DevicesOk, Fits, ReadAssignment, ReadKept, IsHandled, PodLive;
    NeededIsLive(st, n, text);
    var a := ReadAssignment(text).value;
    if m :| m in listed && Names(listed[m], a.slot, a.instance) {
      assert PodOk(st.devices, Everyone(st)[m]);
      SameReading(Everyone(st)[m].instance.value);
      assert Apart(Everyone(st)[m], text) by {
        if st.pods[n].instance == Some(text) {
          assert Everyone(st)[n].instance == Some(text);
        } else {
          assert RecordOk(st, n);
        }
      }
    }
  }

  /** What is relied on stays if a listed pod relies on it or its slot is disabled, and only then. */
  lemma NeededStays(st: State, listed: map<Name, Pod>, devices: seq<Device>, n: Name, text: seq<byte>)
    requires Inv(st) && AllSteady(st, listed) && Needs(st, n, text) && |devices| == |st.devices|
    requires forall t :: 0 <= t < |devices| ==> SweptAs(st.devices[t], devices[t], listed, t)
    ensures Live(devices, text) <==> n in listed || !OnEnabledSlot(st.devices, text)
  {
    hide DeviceOk, AllSteady, Needs, Keeps, ReadAssignment, Inv;
    NeededIsLive(st, n, text);
    var a := ReadAssignment(text).value;
    assert SweptAs(st.devices[a.slot], devices[a.slot], listed, a.slot);
    if n in listed {
      ListedIsKept(st, listed, n, text);
    } else {
      NewcomerIsNotKept(st, listed, n, text);
    }
  }

  lemma SweepFromListing(st: State, listed: map<Name, Pod>, ws: seq<Sweep>)
    requires Inv(st) && AllSteady(st, listed) && !Blocked(listed) && |ws| == |st.devices|
    requires forall t :: 0 <= t < |st.devices| ==> Faultless(st.devices[t], ws[t]) || !st.devices[t].enabled
    ensures Inv(CollectAs(st, listed, ws)) <==> !NewcomerServed(st, listed)
  {
    hide DeviceOk, PodOk, PodLive, RecordOk, Apart, AllSteady, Needs, SweepFrom, Faultless, Live, StillLive;
    hide OnEnabledSlot;
    var devices := SweepFrom(st.devices, listed, 0, ws);
    forall t | 0 <= t < |devices|
      ensures SweptAs(st.devices[t], devices[t], listed, t)
    {
      SweepAs(st.devices, listed, ws, t);
    }
    ShrinkKeepsInv(st, devices);
    StillLiveIfNeeded(st, devices);
    forall n, text | Needs(st, n, text)
      ensures Live(devices, text) <==> n in listed || !OnEnabledSlot(st.devices, text)
    {
      NeededStays(st, listed, devices, n, text);
    }
  }

  /**
   A collection that sweeps at the end of a run from the pods listed at its beginning, without faults, keeps the
   invariant if and only if it was held back by a listed pod or no pod that came since relies on an instance of an
   enabled slot.
   */
  lemma LateSweep(states: seq<State>, acts: seq<Action>, ws: seq<Sweep>)
    requires Run(states, acts) && |ws| == |states[|acts|].devices|
    requires var last := states[|acts|];
             forall t :: 0 <= t < |last.devices| ==> Faultless(last.devices[t], ws[t]) || !last.devices[t].enabled
    ensures
      var listed, last := states[0].pods, states[|acts|];
      Inv(CollectAs(last, listed, ws)) <==> Blocked(listed) || !NewcomerServed(last, listed)
  {
    hide Inv, Safe, Faultless, Steady, NewcomerServed, Enabled, Next, SweepFrom;
    var listed, last := states[0].pods, states[|acts|];
    EveryRunIsSafe(states, acts, |acts|);
    if !Blocked(listed) {
      forall n | n in listed
        ensures !IsHandled(listed[n]) && Steady(last, n, listed[n])
      {
        SteadyAlong(states, acts, n, |acts|);
      }
      SweepFromListing(last, listed, ws);
    }
  }

  // ----- no call between the halves -----

  /** Without a call nobody comes to rely on an instance. */
  lemma StepNeeds(st: State, act: Action, n: Name)
    requires Inv(st) && Enabled(st, act) && !act.Call? && |st.devices| <= 256
    requires n in Next(st, act).pods && NeededText(Next(st, act), n).Some?
    ensures n in st.pods && NeededText(st, n).Some?
  {
    hide DevicesOk, PodOk, PodLive, Apart, Recycle, Collect, WellNamed, Fits, Live;
    if n in st.dynamicSmlu {
      assert RecordOk(st, n);
    }
    match act
    case Recycled(m, d) =>
      RecyclingPods(st, st.gone[m], d);
      RecyclingIssuesNothing(st, st.gone[m], d);
    case Collected(ws) =>
      CollectingPods(st, ws);
      CollectingIssuesNothing(st, ws);
    case _ =>
  }

  lemma {:induction false} NeedsAlong(states: seq<State>, acts: seq<Action>, n: Name, k: nat)
    requires Run(states, acts) && k < |states| && NoCall(acts)
    requires n in states[k].pods && NeededText(states[k], n).Some?
    ensures n in states[0].pods
  {
    hide Inv, Safe, NeededText, Enabled, Next;
    if k > 0 {
      EveryRunIsSafe(states, acts, k - 1);
      assert RunStep(states[k - 1], acts[k - 1], states[k]);
      StepNeeds(states[k - 1], acts[k - 1], n);
      NeedsAlong(states, acts, n, k - 1);
    }
  }

  /** Without a call between its halves a collection, with faults or not, keeps the invariant. */
  lemma QuietSweep(states: seq<State>, acts: seq<Action>, ws: seq<Sweep>)
    requires Run(states, acts) && |ws| == |states[|acts|].devices| && NoCall(acts)
    ensures Inv(CollectAs(states[|acts|], states[0].pods, ws))
  {
    hide DeviceOk, PodOk, PodLive, RecordOk, Apart, Safe, Steady, Needs, SweepFrom, StillLive, Live, Keeps;
    hide NoCall, RunStep;
    var listed, last := states[0].pods, states[|acts|];
    EveryRunIsSafe(states, acts, |acts|);
    if !Blocked(listed) {
      var devices := SweepFrom(last.devices, listed, 0, ws);
      SweepFromOk(last.devices, listed, 0, ws);
      forall n | n in listed
        ensures !IsHandled(listed[n]) && Steady(last, n, listed[n])
      {
        SteadyAlong(states, acts, n, |acts|);
      }
      forall t | 0 <= t < |devices|
        ensures Shrinks(last.devices[t], devices[t])
      {
        SweptShrinks(last.devices[t], devices[t], listed, t);
      }
      forall n, text | Needs(last, n, text)
        ensures Live(devices, text)
      {
        NeededIsOld(states, acts, n, text);
        KeptStays(last, listed, devices, n, text);
      }
      StillLiveIfNeeded(last, devices);
      ShrinkKeepsInv(last, devices);
    }
  }

  lemma NeededIsOld(states: seq<State>, acts: seq<Action>, n: Name, text: seq<byte>)
    requires Run(states, acts) && NoCall(acts) && Needs(states[|acts|], n, text)
    ensures n in states[0].pods
  {
    hide RunStep, NoCall, NeededText;
    NeedsAlong(states, acts, n, |acts|);
  }

  lemma KeptStays(st: State, listed: map<Name, Pod>, devices: seq<Device>, n: Name, text: seq<byte>)
    requires Inv(st) && AllSteady(st, listed) && n in listed && Needs(st, n, text) && |devices| == |st.devices|
    requires forall t :: 0 <= t < |devices| ==> Swept(st.devices[t], devices[t], listed, t)
    ensures Live(devices, text)
  {
    hide DeviceOk, AllSteady, Needs, Keeps, ReadAssignment, Inv;
    NeededIsLive(st, n, text);
    ListedIsKept(st, listed, n, text);
    var a := ReadAssignment(text).value;
    assert Swept(st.devices[a.slot], devices[a.slot], listed, a.slot);
  }

  // ----- a run that loses a fresh instance -----

  /** One device, and no pod yet. */
  function Empty(dev: Device, slots: set<nat>): State { State([dev], slots, map[], map[], map[], map[]) }

  /**
   The collector lists no pods; a pod arrives and makes its first call; the sweep destroys its instance; the second call
   annotates the pod with it all the same.
   */
  lemma LateSweepDestroys(dev: Device, slots: set<nat>, n: Name, r: Request, a: Answers, w: Sweep, b: Answers)
    requires Idle(dev) && dev.enabled && FitsInt(r) && Willing(dev, a) && 0 in slots && b.patched
    requires Lists(a.listing, 0, Handle(a.newInstance, 0))
    requires Faultless(Allocate(Start(dev, slots, n, r), a).0.devices[0], w)
    ensures
      var first, last := Empty(dev, slots), Allocate(Start(dev, slots, n, r), a).0;
      var acts := [Arrive(n, WaitingPod(r)), Call(a)];
      && Init(first) && Run([first, Start(dev, slots, n, r), last], acts) && |last.devices| == 1
      && var swept := CollectAs(last, first.pods, [w]);
         && !Inv(swept) && |swept.devices| <= 256
         && Allocate(swept, b).1 == Allocated(Response(0, a.newInstance))
         && !Safe(Allocate(swept, b).0)
  {
    hide Inv, Lists, Allocate, Faultless, Willing, HasRoom, Matches, Granted, SweepFrom, FitsDriver, Named;
    hide Safe, WaitingPod, Run, Init, Idle, Enabled;
    var first, last := Empty(dev, slots), Allocate(Start(dev, slots, n, r), a).0;
    FirstServed(dev, slots, n, r, a);
    ServedIsSwept(last, n, r, a.newInstance, w, b);
  }

  lemma FirstServed(dev: Device, slots: set<nat>, n: Name, r: Request, a: Answers)
    requires Idle(dev) && dev.enabled && FitsInt(r) && Willing(dev, a) && 0 in slots
    requires Lists(a.listing, 0, Handle(a.newInstance, 0))
    ensures
      var first, last := Empty(dev, slots), Allocate(Start(dev, slots, n, r), a).0;
      && Init(first) && Run([first, Start(dev, slots, n, r), last], [Arrive(n, WaitingPod(r)), Call(a)])
      && |last.devices| == 1 && last.devices[0].enabled && a.newInstance in last.devices[0].instances
      && Inv(last) && last.pods == map[n := WaitingPod(r)] && last.gone == map[]
      && last.dynamicSmlu == map[n := Response(0, a.newInstance)]
  {
    hide Inv, Lists, RequestText, ReadRequest, AssignmentText, Willing, HasRoom, Matches, Granted, FitsDriver;
    var first, start := Empty(dev, slots), Start(dev, slots, n, r);
    var last := Allocate(start, a).0;
    InitIsInv(first);
    StartIsReached(dev, slots, n, r, a);
    IdleDeviceServes(dev, slots, n, r, a);
    assert first.pods[n := WaitingPod(r)] == start.pods;
    assert RunStep(first, Arrive(n, WaitingPod(r)), start);
    assert RunStep(start, Call(a), last);
  }

  lemma ServedIsSwept(st: State, n: Name, r: Request, i: nat, w: Sweep, b: Answers)
    requires Inv(st) && |st.devices| == 1 && st.devices[0].enabled && i in st.devices[0].instances
    requires FitsInt(r) && st.pods == map[n := WaitingPod(r)] && st.dynamicSmlu == map[n := Response(0, i)]
    requires Faultless(st.devices[0], w) && b.patched
    ensures
      var swept := CollectAs(st, map[], [w]);
      && !Inv(swept) && |swept.devices| == 1
      && Allocate(swept, b).1 == Allocated(Response(0, i)) && !Safe(Allocate(swept, b).0)
  {
    hide Inv, Allocate, Faultless, SweepFrom, Named, Safe, FitsInt, NewcomerServed, Keeps;
    FreshIsNeeded(st, n, i);
    InvDevices(st);
    SweepAs(st.devices, map[], [w], 0);
    SweepFromListing(st, map[], [w]);
    SweptIsAnnotated(st, CollectAs(st, map[], [w]), n, r, i, b);
  }

  lemma InvDevices(st: State)
    requires Inv(st)
    ensures DevicesOk(st.devices)
  {
  }

  lemma FreshIsNeeded(st: State, n: Name, i: nat)
    requires Inv(st) && st.dynamicSmlu == map[n := Response(0, i)] && |st.devices| == 1 && st.devices[0].enabled
    requires n in st.pods && st.pods[n].phase == Pending && st.pods[n].instance.None?
    ensures NewcomerServed(st, map[]) && !Keeps(map[], 0, i)
    ensures n in st.profileAndInstance && Named(st.profileAndInstance[n]) == (0, i)
  {
    hide DeviceOk, Fits, Apart, ReadAssignment, Live;
    assert RecordOk(st, n);
    assert Needs(st, n, st.profileAndInstance[n]);
    assert OnEnabledSlot(st.devices, st.profileAndInstance[n]);
  }

  lemma SweptIsAnnotated(st: State, swept: State, n: Name, r: Request, i: nat, b: Answers)
    requires FitsInt(r) && st.pods == map[n := WaitingPod(r)] && st.dynamicSmlu == map[n := Response(0, i)]
    requires n in st.profileAndInstance && Named(st.profileAndInstance[n]) == (0, i)
    requires swept == st.(devices := swept.devices) && |swept.devices| == 1 && i !in swept.devices[0].instances
    requires b.patched
    ensures Allocate(swept, b).1 == Allocated(Response(0, i)) && !Safe(Allocate(swept, b).0)
  {
    hide RequestText, ReadRequest, ReadAssignment, Serves, DeviceOk;
    WaitingIsCandidate(swept.pods, n, r);
    var after := Allocate(swept, b).0;
    assert n in after.pods;
    var pod := after.pods[n];
    assert IsActive(pod) && pod.instance == Some(st.profileAndInstance[n]);
    if HasInstance(after.devices, pod) {
      ServesExists(after.devices[0], ReadAssignment(pod.instance.value).value, RequestOf(pod).value);
    }
  }

  lemma ServesExists(dev: Device, a: Assignment, r: Request)
    requires Serves(dev, a, r)
    ensures a.instance in dev.instances
  {
  }
}
