/** How long an instance that nobody names stays: until a collection that is not held back. */
module DsmluOrphans {
  import opened Annotation
  import opened Bytes
  import opened DsmluModel
  import opened DsmluProof
  import opened DsmluRuns
  import opened Options

  /** A collection that looks at the slots: no pending pod is without its annotation. */
  ghost predicate Sweeps(st: State, act: Action) { act.Collected? && !Blocked(st.pods) }

  // ----- the steps that are no collections -----

  /** An instance that is there and is named by nobody has been handed out. */
  lemma OrphanIsIssued(st: State, s: nat, i: nat)
    requires Inv(st) && Orphan(st, s, i)
    ensures i in IssuedAt(st, s)
  {
    hide PodOk, PodLive, RecordOk, Apart, Claimed;
    assert DeviceOk(st.devices[s]);
  }

  /** The annotation of a pod is what was recorded for it, so annotating it names no other instance. */
  lemma SecondCallClaims(st: State, n: Name, patched: bool, s: int, i: int)
    requires Inv(st) && n in st.pods && n in st.dynamicSmlu && Claimed(SecondCall(st, n, patched).0, s, i)
    ensures Claimed(st, s, i)
  {
    hide DevicesOk, Fits, ReadAssignment, Apart, Live, PodOk, PodLive;
    var after := SecondCall(st, n, patched).0;
    assert RecordOk(st, n);
    var m :| m in Everyone(after) && IsAnnotated(Everyone(after)[m], s, i);
    if m == n && patched {
      assert Everyone(after)[n] == after.pods[n];
      assert InRecord(st, n, s, i);
    } else {
      assert m in Everyone(st) && Everyone(st)[m] == Everyone(after)[m];
    }
  }

  lemma ClearingClaims(st: State, s: int, i: int)
    requires Claimed(CleanRecord(st), s, i)
    ensures Claimed(st, s, i)
  {
    assert Everyone(CleanRecord(st)) == Everyone(st);
  }

  /** A first call takes no instance away, and names none but the one it creates. */
  lemma FirstCallClaims(st: State, n: Name, r: Request, a: Answers, s: nat, i: nat)
    requires Askable(st, r) && DeviceOk(st.devices[r.slot]) && s < |st.devices| && i in st.devices[s].instances
    requires a.newProfile !in st.devices[r.slot].profiles && a.newInstance !in st.devices[r.slot].issued
    requires a.newProfile <= INT_MAX
    ensures
      var after := FirstCall(st, n, r, a).0;
      && s < |after.devices| && i in after.devices[s].instances
      && (Claimed(after, s, i) ==> Claimed(st, s, i))
  {
    hide FirstCall, DeviceOk, Lists, Creates, Named;
    FirstCallShape(st, n, r, a);
    InstancesAreIssued(st.devices[r.slot], a.newInstance);
    var after := FirstCall(st, n, r, a).0;
    assert Everyone(after) == Everyone(st);
    if m :| m in after.dynamicSmlu && InRecord(after, m, s, i) {
      assert m in st.dynamicSmlu && InRecord(st, m, s, i);
    }
  }

  lemma CallLeavesOrphan(st: State, a: Answers, s: nat, i: nat)
    requires Inv(st) && Enabled(st, Call(a)) && Orphan(st, s, i)
    ensures |st.devices| <= 256 && Orphan(Allocate(st, a).0, s, i)
  {
    hide RecordOk, PodOk, PodLive, Apart, DeviceOk, Claimed, FirstCall, SecondCall, RequestOf;
    match Candidate(st.pods)
    case None =>
      if Claimed(Allocate(st, a).0, s, i) {
        ClearingClaims(st, s, i);
      }
    case Some(n) =>
      if n in st.dynamicSmlu {
        SecondCallDevices(st, n, a.patched);
        if Claimed(Allocate(st, a).0, s, i) {
          SecondCallClaims(st, n, a.patched, s, i);
        }
      } else if RequestOf(st.pods[n]).Some? && Askable(st, RequestOf(st.pods[n]).value) {
        var r := RequestOf(st.pods[n]).value;
        assert DeviceOk(st.devices[r.slot]);
        FirstCallClaims(st, n, r, a, s, i);
      }
  }

  lemma SecondCallDevices(st: State, n: Name, patched: bool)
    requires n in st.pods && n in st.dynamicSmlu
    ensures SecondCall(st, n, patched).0.devices == st.devices
  {
  }

  /** Recycling takes away what the annotation of the pod that is gone names, and that is no orphan. */
  lemma RecyclingLeavesOrphan(st: State, n: Name, d: Drops, s: nat, i: nat)
    requires Inv(st) && n in st.gone && Orphan(st, s, i)
    ensures Orphan(Recycle(st, st.gone[n], d), s, i)
  {
    hide DeviceOk, RecordOk, PodLive, PodOk, Apart, Fits, ReadAssignment, ReadHandle, RecycleProfile;
    var pod := st.gone[n];
    RecyclingIssuesNothing(st, pod, d);
    RecyclingPods(st, pod, d);
    if pod.instance.Some? {
      GoneIsUnneeded(st, n);
      var a := ReadAssignment(pod.instance.value).value;
      assert Everyone(st)[n] == pod && IsAnnotated(pod, a.slot, a.instance);
      assert (a.slot, a.instance) != (s, i);
      SameReading(pod.instance.value);
      HandleInjective(a.instance, a.slot, a.instance, a.slot);
      HandleIsInt(a.instance, a.slot);
      if a.instance in st.devices[a.slot].instances {
        RecyclingAProfile(WithDevice(st, a.slot, DropInstance(st.devices[a.slot], a.instance)), pod, a.profile, d);
      }
    }
    SameClaims(st, Recycle(st, pod, d), s, i);
  }

  lemma SameClaims(st: State, after: State, s: int, i: int)
    requires Everyone(after) == Everyone(st) && after.dynamicSmlu == st.dynamicSmlu
    ensures Claimed(after, s, i) <==> Claimed(st, s, i)
  {
    hide Everyone, Named;
    forall n | n in st.dynamicSmlu
      ensures InRecord(st, n, s, i) <==> InRecord(after, n, s, i)
    {
    }
  }

  /** A pod that comes is not annotated, and one that moves or leaves keeps its annotation. */
  lemma PodsKeepNames(st: State, act: Action, s: int, i: int)
    requires |st.devices| <= 256 && Enabled(st, act) && (act.Arrive? || act.Move? || act.Remove?)
    requires st.pods.Keys !! st.gone.Keys
    ensures Claimed(Next(st, act), s, i) ==> Claimed(st, s, i)
  {
    hide Named, IsActive;
    var after := Next(st, act);
    forall n | n in Everyone(after) && IsAnnotated(Everyone(after)[n], s, i)
      ensures n in Everyone(st) && IsAnnotated(Everyone(st)[n], s, i)
    {
    }
    forall n | n in after.dynamicSmlu && InRecord(after, n, s, i)
      ensures n in st.dynamicSmlu && InRecord(st, n, s, i)
    {
    }
  }

  /** Every enabled step but a collection that looks at the slots leaves an orphan what it is. */
  lemma OrphanStays(st: State, act: Action, s: nat, i: nat)
    requires Inv(st) && Enabled(st, act) && !Sweeps(st, act) && Orphan(st, s, i)
    ensures |st.devices| <= 256 && Orphan(Next(st, act), s, i)
  {
    hide DevicesOk, PodOk, PodLive, RecordOk, Apart, Claimed, Allocate, Recycle;
    InvBounds(st);
    match act
    case Call(a) => CallLeavesOrphan(st, a, s, i);
    case Recycled(n, d) => RecyclingLeavesOrphan(st, n, d, s, i);
    case Collected(ws) =>
    case _ =>
      PodsKeepNames(st, act, s, i);
      assert Next(st, act).devices == st.devices;
  }

  // ----- collections -----

  lemma KeptIsClaimed(st: State, s: nat, i: int)
    requires Inv(st) && Keeps(st.pods, s, i)
    ensures Claimed(st, s, i)
  {
    hide DevicesOk, PodLive, RecordOk, Apart, Fits, ReadAssignment, ReadKept;
    var n :| n in st.pods && Names(st.pods[n], s, i);
    assert Everyone(st)[n] == st.pods[n] && PodOk(st.devices, Everyone(st)[n]);
    SameReading(st.pods[n].instance.value);
    assert IsAnnotated(Everyone(st)[n], s, i);
  }

  /** A collection without faults removes an orphan if and only if it is not held back and the slot is enabled. */
  lemma CollectionAndOrphan(st: State, ws: seq<Sweep>, s: nat, i: nat)
    requires Inv(st) && |ws| == |st.devices| && Orphan(st, s, i)
    requires forall t :: 0 <= t < |st.devices| ==> Faultless(st.devices[t], ws[t]) || !st.devices[t].enabled
    ensures i !in Collect(st, ws).devices[s].instances <==> !Blocked(st.pods) && st.devices[s].enabled
    ensures Orphan(Collect(st, ws), s, i) <==> Blocked(st.pods) || !st.devices[s].enabled
  {
    hide Inv, Claimed, Keeps, SweepFrom, Faultless;
    SameClaims(st, Collect(st, ws), s, i);
    if !Blocked(st.pods) {
      if st.devices[s].enabled {
        CollectIsExact(st, ws, s);
        if Keeps(st.pods, s, i) {
          KeptIsClaimed(st, s, i);
        }
      } else {
        SweepFromExact(st.devices, st.pods, 0, ws, s);
      }
    }
  }

  /** Along a run an orphan stays one until a collection looks at the slots. */
  lemma {:induction false} OrphanAlong(states: seq<State>, acts: seq<Action>, s: nat, i: nat, k: nat)
    requires Run(states, acts) && k < |states| && Orphan(states[0], s, i)
    requires forall j :: 0 <= j < k ==> !Sweeps(states[j], acts[j])
    ensures Orphan(states[k], s, i)
  {
    hide Inv, Safe, Orphan, Sweeps, Enabled, Next;
    if k > 0 {
      OrphanAlong(states, acts, s, i, k - 1);
      EveryRunIsSafe(states, acts, k - 1);
      assert RunStep(states[k - 1], acts[k - 1], states[k]);
      OrphanStays(states[k - 1], acts[k - 1], s, i);
    }
  }

  // ----- runs without orphans -----

  ghost predicate AllNamed(st: State) { !exists s: nat, i: nat :: Orphan(st, s, i) }

  /** The step is a call that leaves an instance without a name. */
  ghost predicate StepAbandons(st: State, act: Action) { act.Call? && Abandons(st, act.answers) }

  lemma PodsForgetNothing(st: State, act: Action, s: int, i: int)
    requires |st.devices| <= 256 && Enabled(st, act) && (act.Arrive? || act.Move? || act.Remove?)
    requires st.pods.Keys !! st.gone.Keys
    ensures Claimed(st, s, i) ==> Claimed(Next(st, act), s, i)
  {
    hide Named, IsActive;
    var after := Next(st, act);
    forall n | n in Everyone(st) && IsAnnotated(Everyone(st)[n], s, i)
      ensures n in Everyone(after) && IsAnnotated(Everyone(after)[n], s, i)
    {
    }
    forall n | n in st.dynamicSmlu && InRecord(st, n, s, i)
      ensures n in after.dynamicSmlu && InRecord(after, n, s, i)
    {
    }
  }

  /** Instances only go. */
  ghost predicate NoNewInstance(st: State, after: State) {
    && |after.devices| == |st.devices|
    && forall t :: 0 <= t < |st.devices| ==> after.devices[t].instances.Keys <= st.devices[t].instances.Keys
  }

  lemma RecyclingMakesNone(st: State, pod: Pod, d: Drops)
    ensures NoNewInstance(st, Recycle(st, pod, d))
  {
    hide ReadHandle, ReadRequest, ExistingProfile;
  }

  lemma CollectingMakesNone(st: State, ws: seq<Sweep>)
    requires DevicesOk(st.devices) && |ws| == |st.devices|
    ensures NoNewInstance(st, Collect(st, ws))
  {
    hide DeviceOk, Keeps;
    if !Blocked(st.pods) {
      SweepFromOk(st.devices, st.pods, 0, ws);
      forall t | 0 <= t < |st.devices|
        ensures Collect(st, ws).devices[t].instances.Keys <= st.devices[t].instances.Keys
      {
        assert Swept(st.devices[t], Collect(st, ws).devices[t], st.pods, t);
      }
    }
  }

  /** Steps that are not calls take no instance's name away. */
  lemma OthersAbandonNothing(st: State, act: Action)
    requires Inv(st) && Enabled(st, act) && !act.Call?
    ensures |st.devices| <= 256 && !MakesOrphan(st, Next(st, act))
  {
    hide PodOk, PodLive, RecordOk, Apart, DeviceOk, Claimed, Recycle, Collect;
    InvBounds(st);
    var after := Next(st, act);
    forall s: nat, i: nat | Claimed(st, s, i)
      ensures Claimed(after, s, i)
    {
      if act.Recycled? {
        RecyclingIssuesNothing(st, st.gone[act.name], act.drops);
        RecyclingPods(st, st.gone[act.name], act.drops);
        SameClaims(st, after, s, i);
      } else if act.Collected? {
        CollectingIssuesNothing(st, act.sweeps);
        CollectingPods(st, act.sweeps);
        SameClaims(st, after, s, i);
      } else {
        PodsForgetNothing(st, act, s, i);
      }
    }
    assert NoNewInstance(st, after) by {
      match act
      case Recycled(n, d) => RecyclingMakesNone(st, st.gone[n], d);
      case Collected(ws) => CollectingMakesNone(st, ws);
      case _ =>
    }
  }

  lemma StepKeepsNames(st: State, act: Action)
    requires Inv(st) && Enabled(st, act) && AllNamed(st)
    ensures |st.devices| <= 256 && (AllNamed(Next(st, act)) <==> !StepAbandons(st, act))
  {
    hide Inv, Orphan, Allocate, Enabled, Abandons;
    InvBounds(st);
    if act.Call? {
      CallsAbandon(st, act.answers);
    } else {
      OthersAbandonNothing(st, act);
    }
  }

  /** Along a run every instance always has a name, if it had at the start, if and only if no call abandons one. */
  lemma {:induction false} NamesAlong(states: seq<State>, acts: seq<Action>, k: nat)
    requires Run(states, acts) && k < |states| && AllNamed(states[0])
    ensures (forall j :: 0 <= j <= k ==> AllNamed(states[j])) <==>
            (forall j :: 0 <= j < k ==> !StepAbandons(states[j], acts[j]))
  {
    hide Inv, Safe, AllNamed, StepAbandons, Enabled, Next;
    if k > 0 {
      NamesAlong(states, acts, k - 1);
      EveryRunIsSafe(states, acts, k - 1);
      assert RunStep(states[k - 1], acts[k - 1], states[k]);
      if AllNamed(states[k - 1]) {
        StepKeepsNames(states[k - 1], acts[k - 1]);
      }
    }
  }
}
