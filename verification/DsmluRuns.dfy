/** What holds along every run of the dynamic-SMLU protocol, and what its steps achieve together. */
module DsmluRuns {
  import opened Bytes
  import opened Annotation
  import opened Options
  import opened DsmluModel
  import opened DsmluProof

  // ----- safety -----

  /** Before the plugin has done anything: idle devices, and pods that it has not annotated. */
  ghost predicate Init(st: State) {
    && |st.devices| <= 256
    && (forall s :: 0 <= s < |st.devices| ==> Idle(st.devices[s]))
    && (forall n :: n in st.pods ==> st.pods[n].instance.None?)
    && st.gone == map[] && st.dynamicSmlu == map[] && st.profileAndInstance == map[]
  }

  ghost predicate Idle(dev: Device) { dev.profiles == map[] && dev.instances == map[] }

  lemma InitIsInv(st: State)
    requires Init(st)
    ensures Inv(st)
  {
    hide Apart;
    forall s | 0 <= s < |st.devices|
      ensures DeviceOk(st.devices[s])
    {
      assert Idle(st.devices[s]);
    }
    forall n | n in Everyone(st)
      ensures PodOk(st.devices, Everyone(st)[n])
    {
      assert Everyone(st)[n] == st.pods[n];
    }
  }

  /** What a state promises to the pods that run or wait in it, and about the driver's books. */
  ghost predicate Safe(st: State) {
    && (forall n :: n in st.pods && IsActive(st.pods[n]) && st.pods[n].instance.Some? ==>
          HasInstance(st.devices, st.pods[n]) && RightIfFits(st.devices, st.pods[n]))
    && (forall s :: 0 <= s < |st.devices| ==> DeviceOk(st.devices[s]))
  }

  /** The annotated instance exists on the slot the pod asked for, with the annotated profile, as it was asked for. */
  ghost predicate HasInstance(devices: seq<Device>, pod: Pod) {
    && pod.instance.Some? && ReadAssignment(pod.instance.value).Some? && RequestOf(pod).Some?
    && var a, r := ReadAssignment(pod.instance.value).value, RequestOf(pod).value;
       0 <= a.slot == r.slot < |devices| && Serves(devices[a.slot], a, r)
  }

  /** The instance has the quota and memory of the pod's request if and only if they fit the driver's types. */
  ghost predicate RightIfFits(devices: seq<Device>, pod: Pod)
    requires HasInstance(devices, pod)
  {
    var a, r := ReadAssignment(pod.instance.value).value, RequestOf(pod).value;
    Matches(devices[a.slot].profiles[a.profile], devices[a.slot], r) <==> FitsDriver(devices[a.slot], r)
  }

  /** The narrowed request is the request exactly when it fits. */
  lemma GrantedMatches(info: Profile, dev: Device, r: Request)
    requires Granted(info, dev, r)
    ensures Matches(info, dev, r) <==> FitsDriver(dev, r)
  {
    hide MemoryOf;
  }

  lemma HasRightInstance(devices: seq<Device>, pod: Pod)
    requires HasInstance(devices, pod)
    ensures RightIfFits(devices, pod)
  {
    hide ReadAssignment, RequestOf, Granted, Matches, FitsDriver;
    var a, r := ReadAssignment(pod.instance.value).value, RequestOf(pod).value;
    GrantedMatches(devices[a.slot].profiles[a.profile], devices[a.slot], r);
  }

  lemma InvIsSafe(st: State)
    requires Inv(st)
    ensures Safe(st)
  {
    hide ReadRequest, ReadAssignment, Apart, RightIfFits;
    forall n | n in st.pods && IsActive(st.pods[n]) && st.pods[n].instance.Some?
      ensures HasInstance(st.devices, st.pods[n]) && RightIfFits(st.devices, st.pods[n])
    {
      assert PodLive(st.devices, st.pods[n]);
      assert PodOk(st.devices, Everyone(st)[n]) && Everyone(st)[n] == st.pods[n];
      HasRightInstance(st.devices, st.pods[n]);
    }
  }

  /**
   In every state of every run, the instance that the annotation of a pending or running pod names exists on the slot
   that the pod asked for, with the annotated profile; it has the quota and memory that the pod asked for if and only if
   they fit the driver's types; and the driver's books are right on every device.
   */
  lemma {:induction false} EveryRunIsSafe(states: seq<State>, acts: seq<Action>, k: nat)
    requires Run(states, acts) && k < |states|
    ensures Inv(states[k]) && Safe(states[k])
  {
    hide Inv, Safe;
    if k > 0 {
      EveryRunIsSafe(states, acts, k - 1);
      assert RunStep(states[k - 1], acts[k - 1], states[k]);
      StepKeepsInv(states[k - 1], acts[k - 1]);
    }
    InvIsSafe(states[k]);
  }

  lemma InvBounds(st: State)
    requires Inv(st)
    ensures |st.devices| <= 256
  {
  }

  /** A state that some run from an initial state ends in. */
  ghost predicate Reachable(st: State) {
    exists states, acts :: Run(states, acts) && Init(states[0]) && states[|acts|] == st
  }

  lemma ReachableAtFirst(st: State)
    requires Init(st)
    ensures Reachable(st)
  {
    InitIsInv(st);
    assert Run([st], []);
  }

  lemma ReachableIsInv(st: State)
    requires Reachable(st)
    ensures Inv(st)
  {
    hide Inv;
    var states, acts :| Run(states, acts) && Init(states[0]) && states[|acts|] == st;
    EveryRunIsSafe(states, acts, |acts|);
  }

  lemma ReachableNext(st: State, act: Action)
    requires Reachable(st) && |st.devices| <= 256 && Enabled(st, act)
    ensures Reachable(Next(st, act))
  {
    hide Inv, Init, Enabled, Next;
    var states, acts :| Run(states, acts) && Init(states[0]) && states[|acts|] == st;
    var after, more := states + [Next(st, act)], acts + [act];
    forall k | 0 <= k < |more|
      ensures RunStep(after[k], more[k], after[k + 1])
    {
      assert k < |acts| ==> RunStep(states[k], acts[k], states[k + 1]);
    }
    assert after[0] == states[0] && after[|more|] == Next(st, act);
  }

  // ----- the two calls of a pod -----

  /** Between the two calls of a pod the collector changes nothing. */
  lemma CollectorWaits(st: State, n: Name, ws: seq<Sweep>)
    requires Inv(st) && |ws| == |st.devices|
    requires n in st.dynamicSmlu && n in st.pods && st.pods[n].phase == Pending
    ensures Collect(st, ws) == st
  {
    assert RecordOk(st, n) && Everyone(st)[n] == st.pods[n];
    assert IsHandled(st.pods[n]);
  }

  /** The slot and the instance that an annotation names. */
  ghost function Named(text: seq<byte>): (int, int) {
    var a := ReadAssignment(text);
    if a.None? then (-1, -1) else (a.value.slot, a.value.instance)
  }

  /** The second call: the same response as the first, an annotation that names the same instance, a clear record. */
  lemma SecondCallCompletes(st: State, n: Name, a: Answers)
    requires Inv(st) && Candidate(st.pods) == Some(n) && n in st.dynamicSmlu && a.patched
    ensures
      var (after, outcome) := Allocate(st, a);
      && outcome == Allocated(st.dynamicSmlu[n]) && Completed(after, n, outcome.response)
      && after.devices == st.devices
  {
    hide DeviceOk, Apart, ReadRequest, ReadAssignment;
    assert RecordOk(st, n);
    assert Everyone(st)[n] == st.pods[n];
  }

  /** The pod is annotated with the instance of the response, which is as the pod asked for it; the record is clear. */
  ghost predicate Completed(after: State, n: Name, response: Response) {
    && after.dynamicSmlu == map[] && after.profileAndInstance == map[]
    && n in after.pods && after.pods[n].mark == Some(TRUE_TEXT) && HasInstance(after.devices, after.pods[n])
    && Named(after.pods[n].instance.value) == (response.slot, response.instance)
  }

  ghost function IssuedAt(st: State, s: int): set<nat> {
    if 0 <= s < |st.devices| then st.devices[s].issued else {}
  }

  ghost predicate IssuesOne(st: State, after: State, response: Response) {
    && response.instance !in IssuedAt(st, response.slot)
    && forall s :: IssuedAt(after, s) == IssuedAt(st, s) + if s == response.slot then {response.instance} else {}
  }

  /** A first call that succeeds hands out one instance, and records it under the pod's name. */
  lemma FirstCallCreatesOne(st: State, n: Name, a: Answers)
    requires Inv(st) && Enabled(st, Call(a)) && Candidate(st.pods) == Some(n) && n !in st.dynamicSmlu
    requires Allocate(st, a).1.Allocated?
    ensures
      var (after, outcome) := Allocate(st, a);
      && n in after.dynamicSmlu && outcome == Allocated(after.dynamicSmlu[n]) && after.dynamicSmlu.Keys == {n}
      && IssuesOne(st, after, outcome.response)
  {
    hide ReadRequest, ReadAssignment, AssignmentText, Lists, PodOk, PodLive, RecordOk, Apart, DeviceOk;
    var r := RequestOf(st.pods[n]).value;
    assert DeviceOk(st.devices[r.slot]);
    ChooseProfileOk(st.devices[r.slot], r, a);
  }

  /** Steps that are not calls hand out nothing and leave the record alone. */
  lemma OthersIssueNothing(st: State, act: Action)
    requires Inv(st) && Enabled(st, act) && !act.Call?
    ensures var after := Next(st, act);
            && after.dynamicSmlu == st.dynamicSmlu && after.profileAndInstance == st.profileAndInstance
            && |after.devices| == |st.devices|
            && forall s :: IssuedAt(after, s) == IssuedAt(st, s)
  {
    hide RecordOk, PodLive, PodOk, Apart, DeviceOk, Collect, Recycle;
    match act
    case Recycled(n, d) => RecyclingIssuesNothing(st, st.gone[n], d);
    case Collected(ws) => CollectingIssuesNothing(st, ws);
    case _ =>
  }

  lemma RecyclingIssuesNothing(st: State, pod: Pod, d: Drops)
    ensures var after := Recycle(st, pod, d);
            && after.dynamicSmlu == st.dynamicSmlu && after.profileAndInstance == st.profileAndInstance
            && |after.devices| == |st.devices|
            && forall s :: IssuedAt(after, s) == IssuedAt(st, s)
  {
    hide ReadHandle, ReadRequest;
  }

  lemma CollectingIssuesNothing(st: State, ws: seq<Sweep>)
    requires DevicesOk(st.devices) && |ws| == |st.devices|
    ensures var after := Collect(st, ws);
            && after.dynamicSmlu == st.dynamicSmlu && after.profileAndInstance == st.profileAndInstance
            && |after.devices| == |st.devices|
            && forall s :: IssuedAt(after, s) == IssuedAt(st, s)
  {
    hide DeviceOk, Keeps;
    if !Blocked(st.pods) {
      SweepFromOk(st.devices, st.pods, 0, ws);
      forall s | 0 <= s < |st.devices|
        ensures Collect(st, ws).devices[s].issued == st.devices[s].issued
      {
        assert Swept(st.devices[s], Collect(st, ws).devices[s], st.pods, s);
      }
    }
  }

  /**
   The step takes the record of pod `n` away: a call that finds no candidate, a call of `n` itself, or a call that
   records an instance for another pod.
   */
  ghost predicate LosesRecord(st: State, act: Action, n: Name) {
    |st.devices| <= 256 && act.Call? &&
    (Candidate(st.pods).None? || Candidate(st.pods) == Some(n) || Allocate(st, act.answers).1.Allocated?)
  }

  ghost predicate SameRecord(st: State, after: State) {
    after.dynamicSmlu == st.dynamicSmlu && after.profileAndInstance == st.profileAndInstance
  }

  /** The instance of the response had not been handed out in `st`. */
  ghost predicate IsLater(st: State, response: Response) { response.instance !in IssuedAt(st, response.slot) }

  ghost predicate IssuedStays(st: State, after: State) { forall s :: IssuedAt(st, s) <= IssuedAt(after, s) }

  /** What one step does to the record of `n`. */
  ghost predicate RecordStep(st: State, act: Action, after: State, n: Name) {
    && IssuedStays(st, after)
    && (n in st.dynamicSmlu && !LosesRecord(st, act, n) ==> SameRecord(st, after))
    && (n in st.dynamicSmlu && LosesRecord(st, act, n) ==> n !in after.dynamicSmlu)
    && (n !in st.dynamicSmlu && n in after.dynamicSmlu ==> IsLater(st, after.dynamicSmlu[n]))
  }

  lemma StepsOnRecord(st: State, act: Action, n: Name)
    requires Inv(st) && Enabled(st, act)
    ensures RecordStep(st, act, Next(st, act), n)
  {
    hide Inv, Allocate, IssuedAt;
    InvBounds(st);
    if act.Call? {
      CallOnRecord(st, act.answers, n);
    } else {
      OthersIssueNothing(st, act);
    }
  }

  lemma CallOnRecord(st: State, a: Answers, n: Name)
    requires Inv(st) && Enabled(st, Call(a)) && |st.devices| <= 256
    ensures RecordStep(st, Call(a), Allocate(st, a).0, n)
  {
    hide PodOk, PodLive, RecordOk, Apart, DeviceOk, FirstCall, ReadRequest, IssuedAt;
    match Candidate(st.pods)
    case None =>
      SameDevicesIssue(st, Allocate(st, a).0);
    case Some(m) =>
      if m in st.dynamicSmlu || RequestOf(st.pods[m]).None? {
        SameDevicesIssue(st, Allocate(st, a).0);
      } else {
        var r := RequestOf(st.pods[m]).value;
        if 0 <= r.slot < |st.devices| {
          FirstCallOnRecord(st, m, r, a);
        } else {
          SameDevicesIssue(st, Allocate(st, a).0);
        }
      }
  }

  lemma SameDevicesIssue(st: State, after: State)
    requires after.devices == st.devices
    ensures IssuedStays(st, after)
  {
  }

  lemma FirstCallOnRecord(st: State, m: Name, r: Request, a: Answers)
    requires 0 <= r.slot < |st.devices| <= 256 && DeviceOk(st.devices[r.slot])
    requires a.newProfile !in st.devices[r.slot].profiles && a.newInstance !in st.devices[r.slot].issued
    requires a.newProfile <= INT_MAX
    ensures
      var (after, outcome) := FirstCall(st, m, r, a);
      && IssuedStays(st, after)
      && (outcome.Error? ==> SameRecord(st, after))
      && (outcome.Allocated? ==> after.dynamicSmlu == map[m := outcome.response] && IsLater(st, outcome.response))
  {
    hide DeviceOk, AssignmentText, Lists;
    ChooseProfileOk(st.devices[r.slot], r, a);
  }

  /** No step of a stretch of a run takes the record of `n` away. */
  ghost predicate KeepsRecord(states: seq<State>, acts: seq<Action>, n: Name, k: nat)
    requires k <= |acts| < |states|
  {
    forall j :: 0 <= j < k ==> !LosesRecord(states[j], acts[j], n)
  }

  /**
   Along a run that starts with a record of `n`: the record is what it was as long as no step takes it away; once one
   has, whatever is recorded for `n` names a later instance.
   */
  lemma {:induction false} RecordAlong(states: seq<State>, acts: seq<Action>, n: Name, k: nat)
    requires Run(states, acts) && k < |states| && n in states[0].dynamicSmlu
    ensures IssuedStays(states[0], states[k])
    ensures KeepsRecord(states, acts, n, k) ==> SameRecord(states[0], states[k])
    ensures !KeepsRecord(states, acts, n, k) && n in states[k].dynamicSmlu ==>
              IsLater(states[0], states[k].dynamicSmlu[n])
  {
    hide Inv, Safe, LosesRecord, IssuedAt, RecordStep, IssuedStays, IsLater, Enabled, Next;
    if k == 0 {
      SameDevicesIssue(states[0], states[0]);
    } else {
      RecordAlong(states, acts, n, k - 1);
      EveryRunIsSafe(states, acts, k - 1);
      assert RunStep(states[k - 1], acts[k - 1], states[k]);
      StepsOnRecord(states[k - 1], acts[k - 1], n);
      assert KeepsRecord(states, acts, n, k) <==>
             KeepsRecord(states, acts, n, k - 1) && !LosesRecord(states[k - 1], acts[k - 1], n);
      OneMoreStep(states[0], states[k - 1], acts[k - 1], states[k], n, KeepsRecord(states, acts, n, k - 1));
    }
  }

  lemma OneMoreStep(first: State, st: State, act: Action, after: State, n: Name, kept: bool)
    requires n in first.dynamicSmlu && IssuedStays(first, st) && RecordStep(st, act, after, n)
    requires if kept then SameRecord(first, st) else n in st.dynamicSmlu ==> IsLater(first, st.dynamicSmlu[n])
    ensures IssuedStays(first, after)
    ensures kept && !LosesRecord(st, act, n) ==> SameRecord(first, after)
    ensures !(kept && !LosesRecord(st, act, n)) && n in after.dynamicSmlu ==> IsLater(first, after.dynamicSmlu[n])
  {
    hide LosesRecord, IssuedAt;
  }

  // ----- who waits has waited -----

  ghost predicate Waits(st: State, n: Name) { n in st.pods && IsAssumed(st.pods[n]) }

  ghost predicate NoCall(acts: seq<Action>) { forall j :: 0 <= j < |acts| ==> !acts[j].Call? }

  /** A call leaves the pods alone, but for the one that it annotates, which then no longer waits. */
  lemma CallWaits(st: State, a: Answers, n: Name)
    requires |st.devices| <= 256 && n in Everyone(st)
    ensures n in Everyone(Allocate(st, a).0) && Allocate(st, a).0.gone == st.gone
    ensures Waits(Allocate(st, a).0, n) ==> Waits(st, n)
  {
    hide FirstCall, ReadRequest;
    if Candidate(st.pods).Some? && Candidate(st.pods).value !in st.dynamicSmlu {
      PodsAlone(st, Candidate(st.pods).value, a);
    }
  }

  /** A pod that is known stays known, and one that waits after a step has waited before it. */
  lemma StepWaits(st: State, act: Action, n: Name)
    requires Inv(st) && Enabled(st, act) && n in Everyone(st)
    ensures n in Everyone(Next(st, act)) && (Waits(Next(st, act), n) ==> Waits(st, n))
  {
    hide Allocate, Recycle, Collect, DevicesOk, PodOk, PodLive, RecordOk, Apart;
    InvBounds(st);
    match act
    case Call(a) => CallWaits(st, a, n);
    case Recycled(m, d) => RecyclingPods(st, st.gone[m], d);
    case Collected(ws) => CollectingPods(st, ws);
    case _ =>
  }

  lemma RecyclingPods(st: State, pod: Pod, d: Drops)
    ensures Recycle(st, pod, d).pods == st.pods && Recycle(st, pod, d).gone == st.gone
  {
    hide ReadHandle, ReadRequest, ExistingProfile;
  }

  lemma CollectingPods(st: State, ws: seq<Sweep>)
    requires |ws| == |st.devices|
    ensures Collect(st, ws).pods == st.pods && Collect(st, ws).gone == st.gone
  {
  }

  lemma {:induction false} WaitsAlong(states: seq<State>, acts: seq<Action>, n: Name, k: nat)
    requires Run(states, acts) && k < |states| && n in Everyone(states[0])
    ensures n in Everyone(states[k])
    ensures Waits(states[k], n) ==> forall j :: 0 <= j <= k ==> Waits(states[j], n)
  {
    hide Inv, Safe, Waits, Enabled, Next, Everyone;
    if k > 0 {
      WaitsAlong(states, acts, n, k - 1);
      EveryRunIsSafe(states, acts, k - 1);
      assert RunStep(states[k - 1], acts[k - 1], states[k]);
      StepWaits(states[k - 1], acts[k - 1], n);
    }
  }

  /** While a pod waits there is no other candidate, so any call is one of its own or finds none. */
  lemma CallWhileWaiting(st: State, act: Action, n: Name)
    requires |st.devices| <= 256 && Waits(st, n)
    ensures LosesRecord(st, act, n) <==> act.Call?
  {
    hide Allocate, IsAssumed;
  }

  /** Along a run at whose end a pod of its beginning waits, each call, and nothing else, loses the pod's record. */
  lemma AnyCallLosesRecord(states: seq<State>, acts: seq<Action>, n: Name)
    requires Run(states, acts) && n in states[0].pods && Waits(states[|acts|], n)
    ensures KeepsRecord(states, acts, n, |acts|) <==> NoCall(acts)
  {
    hide Inv, LosesRecord, Waits, Enabled, Next, RunStep;
    WaitsAlong(states, acts, n, |acts|);
    forall j | 0 <= j < |acts|
      ensures LosesRecord(states[j], acts[j], n) <==> acts[j].Call?
    {
      assert RunStep(states[j], acts[j], states[j + 1]);
      EveryRunIsSafe(states, acts, j);
      InvBounds(states[j]);
      CallWhileWaiting(states[j], acts[j], n);
    }
  }

  // ----- the two calls -----

  /**
   The vcore call and the vmemory call of a pod, with any steps between them. They return the same response if and only
   if no allocation call comes between them. Then the first call has handed out the one instance of the pod and the
   second none, the annotation names it, it exists as it was asked for, and the shared record is clear again. Otherwise
   a second call that succeeds answers with another, later instance.
   */
  lemma TwoCallsOneInstance(before: State, n: Name, first: Answers, states: seq<State>, acts: seq<Action>,
                            second: Answers)
    requires Inv(before) && Enabled(before, Call(first))
    requires Candidate(before.pods) == Some(n) && n !in before.dynamicSmlu && Allocate(before, first).1.Allocated?
    requires Run(states, acts) && states[0] == Allocate(before, first).0
    requires Candidate(states[|acts|].pods) == Some(n) && second.patched && Enabled(states[|acts|], Call(second))
    ensures |states[|acts|].devices| <= 256
    ensures
      var response, last := Allocate(before, first).1.response, states[|acts|];
      var (after, outcome) := Allocate(last, second);
      && IssuesOne(before, states[0], response)
      && (outcome == Allocated(response) <==> NoCall(acts))
      && (NoCall(acts) ==> after.devices == last.devices && Completed(after, n, response))
      && (!NoCall(acts) && outcome.Allocated? ==> IsLater(states[0], outcome.response))
  {
    hide Inv, Allocate, HasInstance, ReadAssignment, DevicesOk, Enabled, IssuedAt, LosesRecord, IsAssumed, KeepsRecord,
      NoCall;
    InvBounds(before);
    PodsAlone(before, n, first);
    AnyCallLosesRecord(states, acts, n);
    var last := states[|acts|];
    FirstCallCreatesOne(before, n, first);
    RecordAlong(states, acts, n, |acts|);
    EveryRunIsSafe(states, acts, |acts|);
    InvBounds(last);
    var response := Allocate(before, first).1.response;
    IssuedResponse(before, states[0], response);
    if n in last.dynamicSmlu {
      SecondCallCompletes(last, n, second);
    } else if Allocate(last, second).1.Allocated? {
      FirstCallCreatesOne(last, n, second);
      LaterThan(states[0], last, Allocate(last, second).1.response);
    }
  }

  lemma IssuedResponse(st: State, after: State, response: Response)
    requires IssuesOne(st, after, response)
    ensures !IsLater(after, response)
  {
  }

  lemma LaterThan(st: State, after: State, response: Response)
    requires IssuedStays(st, after) && IsLater(after, response)
    ensures IsLater(st, response)
  {
  }

  /** In particular when the two calls follow one another. */
  lemma TwoCallsInARow(before: State, n: Name, first: Answers, second: Answers)
    requires Inv(before) && Enabled(before, Call(first)) && second.patched
    requires Candidate(before.pods) == Some(n) && n !in before.dynamicSmlu && Allocate(before, first).1.Allocated?
    requires Enabled(Allocate(before, first).0, Call(second))
    ensures |Allocate(before, first).0.devices| <= 256
    ensures
      var (after, outcome) := Allocate(Allocate(before, first).0, second);
      && outcome == Allocate(before, first).1 && IssuesOne(before, after, outcome.response)
      && Completed(after, n, outcome.response)
  {
    hide Inv, HasInstance, ReadAssignment, DevicesOk, Enabled, FirstCall, SecondCall, RequestOf, Completed;
    InvBounds(before);
    var between := Allocate(before, first).0;
    StepKeepsInv(before, Call(first));
    InvBounds(between);
    PodsAlone(before, n, first);
    assert Run([between], []);
    TwoCallsOneInstance(before, n, first, [between], [], second);
  }

  /** A first call leaves the pods alone. */
  lemma PodsAlone(st: State, n: Name, a: Answers)
    requires |st.devices| <= 256 && Candidate(st.pods) == Some(n) && n !in st.dynamicSmlu
    ensures Allocate(st, a).0.pods == st.pods && Allocate(st, a).0.gone == st.gone
  {
    hide Lists, AssignmentText, ReadRequest;
  }

  // ----- instances that nobody names -----

  /** An annotation of a pod, present or gone, or the record names the instance. */
  ghost predicate Claimed(st: State, s: int, i: int) {
    || (exists n :: n in Everyone(st) && IsAnnotated(Everyone(st)[n], s, i))
    || (exists n :: n in st.dynamicSmlu && InRecord(st, n, s, i))
  }

  ghost predicate IsAnnotated(pod: Pod, s: int, i: int) {
    pod.instance.Some? && Named(pod.instance.value) == (s, i)
  }

  ghost predicate InRecord(st: State, n: Name, s: int, i: int)
    requires n in st.dynamicSmlu
  {
    st.dynamicSmlu[n].slot == s && st.dynamicSmlu[n].instance == i
  }

  /** The instance exists, and neither an annotation nor the record names it. */
  ghost predicate Orphan(st: State, s: nat, i: nat) {
    s < |st.devices| && i in st.devices[s].instances && !Claimed(st, s, i)
  }

  ghost predicate MakesOrphan(st: State, after: State) {
    exists s: nat, i: nat :: Orphan(after, s, i) && !Orphan(st, s, i)
  }

  /** The instance of the record exists. */
  ghost predicate RecordHeld(st: State) { exists n :: n in st.dynamicSmlu && HeldBy(st, n) }

  ghost predicate HeldBy(st: State, n: Name)
    requires n in st.dynamicSmlu
  {
    var response := st.dynamicSmlu[n];
    response.slot < |st.devices| && response.instance in st.devices[response.slot].instances
  }

  /** A first call that gets as far as creating an instance. */
  ghost predicate Creates(dev: Device, r: Request, a: Answers) {
    var (chosen, p) := ChooseProfile(dev, r, a);
    p.Some? && a.instanceCreated && p.value in chosen.profiles && chosen.profiles[p.value].remain >= 1
  }

  ghost predicate Askable(st: State, r: Request) { 0 <= r.slot < |st.devices| <= 256 }

  /**
   What a call leaves without a name. It finds no candidate while an instance is recorded; it is a second call that
   cannot annotate the pod; or it is a first call that creates an instance and then can neither list nor destroy it,
   cannot find the slot's device, or records it in the place of another pod's.
   */
  ghost predicate Abandons(st: State, a: Answers) {
    match Candidate(st.pods)
    case None => RecordHeld(st)
    case Some(n) =>
      if n in st.dynamicSmlu then !a.patched
      else
        && RequestOf(st.pods[n]).Some? && Askable(st, RequestOf(st.pods[n]).value)
        && var r := RequestOf(st.pods[n]).value;
           && Creates(st.devices[r.slot], r, a)
           && if !Lists(a.listing, r.slot, Handle(a.newInstance, r.slot)) then !a.destroyed
              else r.slot !in st.slots || RecordHeld(st)
  }

  lemma RecordedIsIssued(st: State, n: Name)
    requires Inv(st) && n in st.dynamicSmlu
    ensures n in st.profileAndInstance && RecordOk(st, n)
    ensures st.dynamicSmlu[n].instance in IssuedAt(st, st.dynamicSmlu[n].slot)
  {
    hide DeviceOk, Fits, Live, ReadAssignment, Apart;
  }

  /** The instance of the record is named by no annotation. */
  lemma RecordAlone(st: State, n: Name, m: Name)
    requires Inv(st) && n in st.dynamicSmlu && m in Everyone(st) && Everyone(st)[m].instance.Some?
    ensures Named(Everyone(st)[m].instance.value) != (st.dynamicSmlu[n].slot, st.dynamicSmlu[n].instance)
  {
    hide DeviceOk, Fits, Live, ReadAssignment;
    assert RecordOk(st, n);
    assert Apart(Everyone(st)[m], st.profileAndInstance[n]);
    assert PodOk(st.devices, Everyone(st)[m]);
  }

  lemma ClaimedIsIssued(st: State, s: int, i: int)
    requires Inv(st) && Claimed(st, s, i)
    ensures i in IssuedAt(st, s)
  {
    hide DeviceOk, Fits, ReadAssignment, Apart, RecordOk;
    if n :| n in Everyone(st) && IsAnnotated(Everyone(st)[n], s, i) {
      assert PodOk(st.devices, Everyone(st)[n]);
    } else {
      var n :| n in st.dynamicSmlu && InRecord(st, n, s, i);
      RecordedIsIssued(st, n);
    }
  }

  /** From `st` to `after`, the instances are the same but for the new instance `i` of slot `s`, if there is one. */
  ghost predicate Gains(st: State, after: State, s: int, i: int) {
    && |after.devices| == |st.devices|
    && (forall t: nat, j :: t < |st.devices| ==>
          (j in after.devices[t].instances <==> j in st.devices[t].instances || (t == s && j == i)))
  }

  /** The record's instance loses its name, and is there. */
  lemma HeldIsAbandoned(st: State, after: State, n: Name, s: int, i: int)
    requires Inv(st) && Everyone(after) == Everyone(st) && n in st.dynamicSmlu && HeldBy(st, n)
    requires Gains(st, after, s, i) && (0 <= s < |st.devices| ==> i !in st.devices[s].instances)
    requires forall m :: m in after.dynamicSmlu ==> InRecord(after, m, s, i)
    ensures MakesOrphan(st, after)
  {
    hide Inv, Everyone, Named;
    var t, j := st.dynamicSmlu[n].slot, st.dynamicSmlu[n].instance;
    assert InRecord(st, n, t, j);
    forall m | m in Everyone(st) && Everyone(st)[m].instance.Some?
      ensures Named(Everyone(st)[m].instance.value) != (t, j)
    {
      RecordAlone(st, n, m);
    }
    assert Orphan(after, t, j) && !Orphan(st, t, j);
  }

  /** With the record gone or replaced by the new instance's, only the old record's instance can be abandoned. */
  lemma OnlyHeldIsAbandoned(st: State, after: State, s: int, i: int)
    requires Everyone(after) == Everyone(st) && MakesOrphan(st, after)
    requires Gains(st, after, s, i) && (0 <= s < |st.devices| ==> Claimed(after, s, i))
    ensures RecordHeld(st)
  {
    hide Everyone, Named;
    var t: nat, j: nat :| Orphan(after, t, j) && !Orphan(st, t, j);
    assert Claimed(st, t, j) && !Claimed(after, t, j);
    var n :| n in st.dynamicSmlu && InRecord(st, n, t, j);
    assert HeldBy(st, n);
  }

  lemma ClearedRecord(st: State)
    requires Inv(st)
    ensures MakesOrphan(st, CleanRecord(st)) <==> RecordHeld(st)
  {
    hide Inv, MakesOrphan;
    var after := CleanRecord(st);
    assert Everyone(after) == Everyone(st);
    assert Gains(st, after, -1, -1);
    if RecordHeld(st) {
      var n :| n in st.dynamicSmlu && HeldBy(st, n);
      HeldIsAbandoned(st, after, n, -1, -1);
    }
    if MakesOrphan(st, after) {
      OnlyHeldIsAbandoned(st, after, -1, -1);
    }
  }

  /** The recorded instance of a waiting pod exists. */
  lemma WaitingIsHeld(st: State, n: Name)
    requires Inv(st) && n in st.dynamicSmlu && n in st.pods && st.pods[n].phase == Pending
    ensures RecordHeld(st)
  {
    hide DeviceOk, Fits, ReadAssignment, Apart;
    assert RecordOk(st, n);
    assert HeldBy(st, n);
  }

  /** Annotating the pod with what was recorded for it takes no instance's name away. */
  lemma PatchedAbandonsNothing(st: State, n: Name)
    requires Inv(st) && n in st.dynamicSmlu && n in st.pods && st.pods[n].instance.None?
    ensures !MakesOrphan(st, SecondCall(st, n, true).0)
  {
    hide DeviceOk, Fits, ReadAssignment, Apart, Live;
    var after := SecondCall(st, n, true).0;
    assert RecordOk(st, n);
    forall s: nat, i: nat | Claimed(st, s, i)
      ensures Claimed(after, s, i)
    {
      if m :| m in Everyone(st) && IsAnnotated(Everyone(st)[m], s, i) {
        assert m in Everyone(after) && Everyone(after)[m] == Everyone(st)[m];
      } else {
        assert n in Everyone(after) && Everyone(after)[n] == after.pods[n];
      }
    }
  }

  /** Nothing new, and nobody forgets. */
  lemma NothingAbandoned(st: State, after: State)
    requires Everyone(after) == Everyone(st) && after.dynamicSmlu == st.dynamicSmlu && Gains(st, after, -1, -1)
    ensures !MakesOrphan(st, after)
  {
    hide Everyone, Named;
    forall s: nat, i: nat | Claimed(st, s, i)
      ensures Claimed(after, s, i)
    {
      if !(exists n :: n in Everyone(st) && IsAnnotated(Everyone(st)[n], s, i)) {
        var n :| n in st.dynamicSmlu && InRecord(st, n, s, i);
        assert InRecord(after, n, s, i);
      }
    }
  }

  /** A new instance that is not recorded has no name. */
  lemma NewIsAbandoned(st: State, after: State, s: nat, i: nat)
    requires Inv(st) && Everyone(after) == Everyone(st) && after.dynamicSmlu == st.dynamicSmlu
    requires Gains(st, after, s, i) && s < |st.devices| && i !in st.devices[s].issued && i !in st.devices[s].instances
    ensures MakesOrphan(st, after)
  {
    hide Inv, Everyone, Named;
    if Claimed(after, s, i) {
      if n :| n in st.dynamicSmlu && InRecord(after, n, s, i) {
        assert InRecord(st, n, s, i);
      }
      ClaimedIsIssued(st, s, i);
    }
    assert Orphan(after, s, i) && !Orphan(st, s, i);
  }

  lemma FirstCallAbandons(st: State, n: Name, r: Request, a: Answers)
    requires Inv(st) && Askable(st, r) && DeviceOk(st.devices[r.slot]) && n !in st.dynamicSmlu
    requires a.newProfile !in st.devices[r.slot].profiles && a.newInstance !in st.devices[r.slot].issued
    requires a.newProfile <= INT_MAX
    ensures MakesOrphan(st, FirstCall(st, n, r, a).0) <==>
            Creates(st.devices[r.slot], r, a) &&
            if !Lists(a.listing, r.slot, Handle(a.newInstance, r.slot)) then !a.destroyed
            else r.slot !in st.slots || RecordHeld(st)
  {
    hide Inv, DeviceOk, MakesOrphan, RecordHeld, Lists, Creates, FirstCall;
    var s, i := r.slot, a.newInstance;
    var after := FirstCall(st, n, r, a).0;
    FirstCallShape(st, n, r, a);
    InstancesAreIssued(st.devices[s], i);
    assert Everyone(after) == Everyone(st);
    if !Creates(st.devices[s], r, a) || (!Lists(a.listing, s, Handle(i, s)) && a.destroyed) {
      assert Gains(st, after, -1, -1);
      NothingAbandoned(st, after);
    } else {
      assert Gains(st, after, s, i);
      if Lists(a.listing, s, Handle(i, s)) && s in st.slots {
        ReplacedRecord(st, after, n, s, i);
      } else {
        NewIsAbandoned(st, after, s, i);
      }
    }
  }

  /** Where a first call leaves the instances, the pods and the record. */
  lemma FirstCallShape(st: State, n: Name, r: Request, a: Answers)
    requires Askable(st, r) && DeviceOk(st.devices[r.slot])
    requires a.newProfile !in st.devices[r.slot].profiles && a.newInstance !in st.devices[r.slot].issued
    requires a.newProfile <= INT_MAX
    ensures
      var s, i, dev, after := r.slot, a.newInstance, st.devices[r.slot], FirstCall(st, n, r, a).0;
      var creates, lists := Creates(dev, r, a), Lists(a.listing, s, Handle(i, s));
      && after.pods == st.pods && after.gone == st.gone && |after.devices| == |st.devices|
      && (forall t :: 0 <= t < |st.devices| && t != s ==> after.devices[t] == st.devices[t])
      && after.devices[s].instances.Keys ==
         dev.instances.Keys + (if creates && (lists || !a.destroyed) then {i} else {})
      && after.dynamicSmlu == (if creates && lists && s in st.slots then map[n := Response(s, i)] else st.dynamicSmlu)
  {
    hide Lists, AssignmentText, DeviceOk, ChooseProfile, AddInstance, DropInstance, Follows, Matches;
    ChooseProfileOk(st.devices[r.slot], r, a);
    var (chosen, p) := ChooseProfile(st.devices[r.slot], r, a);
    if p.Some? {
      MadeInstances(st.devices[r.slot], chosen, a.newInstance, p.value);
    }
  }

  lemma MadeInstances(dev: Device, chosen: Device, i: nat, p: nat)
    requires DeviceOk(dev) && chosen.instances == dev.instances && i !in dev.issued && p in chosen.profiles
    ensures AddInstance(chosen, i, p).instances.Keys == dev.instances.Keys + {i}
    ensures DropInstance(AddInstance(chosen, i, p), i).instances.Keys == dev.instances.Keys
  {
  }

  lemma InstancesAreIssued(dev: Device, i: nat)
    requires DeviceOk(dev) && i !in dev.issued
    ensures i !in dev.instances
  {
  }

  lemma ReplacedRecord(st: State, after: State, n: Name, s: nat, i: nat)
    requires Inv(st) && Everyone(after) == Everyone(st) && after.dynamicSmlu == map[n := Response(s, i)]
    requires Gains(st, after, s, i) && s < |st.devices| && i !in st.devices[s].instances
    ensures MakesOrphan(st, after) <==> RecordHeld(st)
  {
    hide Inv, MakesOrphan, Everyone, Gains;
    assert InRecord(after, n, s, i);
    if RecordHeld(st) {
      var m :| m in st.dynamicSmlu && HeldBy(st, m);
      HeldIsAbandoned(st, after, m, s, i);
    }
    if MakesOrphan(st, after) {
      OnlyHeldIsAbandoned(st, after, s, i);
    }
  }

  /**
   A call leaves an instance behind that no annotation and no record names, where there was none before, if and only if
   it abandons one. So a call that fails otherwise, and a call that succeeds otherwise, leaves every instance named that
   was named.
   */
  lemma CallsAbandon(st: State, a: Answers)
    requires Inv(st) && Enabled(st, Call(a))
    ensures |st.devices| <= 256
    ensures MakesOrphan(st, Allocate(st, a).0) <==> Abandons(st, a)
  {
    hide RecordOk, PodLive, PodOk, Apart, ReadRequest, FirstCall, Creates, DeviceOk, MakesOrphan, RecordHeld, Lists;
    match Candidate(st.pods)
    case None => ClearedRecord(st);
    case Some(n) =>
      if n in st.dynamicSmlu {
        CandidateHasNoInstance(st, n);
        if a.patched {
          PatchedAbandonsNothing(st, n);
        } else {
          WaitingIsHeld(st, n);
          ClearedRecord(st);
        }
      } else if RequestOf(st.pods[n]).Some? && Askable(st, RequestOf(st.pods[n]).value) {
        var r := RequestOf(st.pods[n]).value;
        assert DeviceOk(st.devices[r.slot]);
        FirstCallAbandons(st, n, r, a);
      } else {
        assert Gains(st, st, -1, -1);
        NothingAbandoned(st, st);
      }
  }

  // ----- what collecting leaves -----

  /** Every listing and every destruction on the slot succeeds. */
  ghost predicate Faultless(dev: Device, w: Sweep) {
    && dev.enabled && w.modeRead && w.instancesRead && w.profilesRead
    && w.stuckInstances == {} && w.stuckProfiles == {}
    && (forall i :: i in dev.instances ==> i in w.instances)
    && (forall p :: p in dev.profiles ==> p in w.profiles)
  }

  lemma {:induction false} SweepInstancesExact(dev: Device, ids: seq<nat>, pods: map<Name, Pod>, slot: nat)
    ensures
      var after := SweepInstances(dev, ids, pods, slot, {});
      && (forall i :: i in after.instances <==> i in dev.instances && (Keeps(pods, slot, i) || i !in ids))
      && (forall i :: i in after.instances ==> after.instances[i] == dev.instances[i])
      && after.profiles.Keys == dev.profiles.Keys
    decreases |ids|
  {
    hide Keeps;
    if ids != [] {
      var next := if Keeps(pods, slot, ids[0]) then dev else DropInstance(dev, ids[0]);
      SweepInstancesExact(next, ids[1..], pods, slot);
      assert ids == [ids[0]] + ids[1..];
    }
  }

  lemma {:induction false} SweepProfilesExact(dev: Device, ids: seq<nat>, pods: map<Name, Pod>, slot: nat)
    requires forall i :: i in dev.instances ==> KeepsProfile(pods, slot, dev.instances[i])
    ensures
      var after := SweepProfiles(dev, ids, pods, slot, {});
      && after.instances == dev.instances
      && (forall p :: p in after.profiles <==> p in dev.profiles && (KeepsProfile(pods, slot, p) || p !in ids))
    decreases |ids|
  {
    hide KeepsProfile;
    if ids != [] {
      var next := if KeepsProfile(pods, slot, ids[0]) then dev else DropProfile(dev, ids[0]);
      SweepProfilesExact(next, ids[1..], pods, slot);
      assert ids == [ids[0]] + ids[1..];
    }
  }

  /** On a slot, the kept instances are those active pods name, and they exist with the profile named. */
  lemma KeptAreLive(st: State, s: nat, i: int)
    requires Inv(st) && s < |st.devices| && Keeps(st.pods, s, i)
    ensures i in st.devices[s].instances && KeepsProfile(st.pods, s, st.devices[s].instances[i])
  {
    var n :| n in st.pods && Names(st.pods[n], s, i);
    var text := st.pods[n].instance.value;
    assert PodLive(st.devices, st.pods[n]);
    SameReading(text);
    assert NamesProfile(st.pods[n], s, st.devices[s].instances[i]);
  }

  lemma KeptProfilesExist(st: State, s: nat, p: int)
    requires Inv(st) && s < |st.devices| && KeepsProfile(st.pods, s, p)
    ensures p in st.devices[s].profiles
  {
    var n :| n in st.pods && NamesProfile(st.pods[n], s, p);
    assert PodLive(st.devices, st.pods[n]);
    SameReading(st.pods[n].instance.value);
    assert DeviceOk(st.devices[s]);
  }

  /**
   A collection without faults leaves on a slot exactly the instances and exactly the profiles that the
   annotations of pending and running pods name: nothing in use is lost and nothing unused stays.
   */
  lemma SweepIsExact(st: State, s: nat, w: Sweep)
    requires Inv(st) && s < |st.devices| && Faultless(st.devices[s], w)
    ensures
      var after := SweepDevice(st.devices[s], st.pods, s, w);
      && (forall i :: i in after.instances <==> Keeps(st.pods, s, i))
      && (forall p :: p in after.profiles <==> KeepsProfile(st.pods, s, p))
  {
    hide Inv, Keeps, KeepsProfile;
    var dev := st.devices[s];
    SweepInstancesExact(dev, w.instances, st.pods, s);
    var swept := SweepInstances(dev, w.instances, st.pods, s, {});
    forall i | Keeps(st.pods, s, i)
      ensures i in dev.instances && KeepsProfile(st.pods, s, dev.instances[i])
    {
      KeptAreLive(st, s, i);
    }
    SweepProfilesExact(swept, w.profiles, st.pods, s);
    forall p | KeepsProfile(st.pods, s, p)
      ensures p in dev.profiles
    {
      KeptProfilesExist(st, s, p);
    }
  }

  lemma {:induction false} SweepFromExact(devices: seq<Device>, pods: map<Name, Pod>, slot: nat, ws: seq<Sweep>, s: nat)
    requires slot <= |devices| == |ws| && slot <= s < |devices|
    requires forall t :: slot <= t < |devices| ==> Faultless(devices[t], ws[t]) || !devices[t].enabled
    ensures SweepFrom(devices, pods, slot, ws)[s] == SweepDevice(devices[s], pods, s, ws[s])
    decreases |devices| - slot
  {
    hide SweepDevice;
    var next := devices[slot := SweepDevice(devices[slot], pods, slot, ws[slot])];
    if slot < s {
      SweepFromExact(next, pods, slot + 1, ws, s);
    } else {
      SweptStays(next, pods, slot + 1, ws, s);
    }
  }

  lemma {:induction false} SweptStays(devices: seq<Device>, pods: map<Name, Pod>, slot: nat, ws: seq<Sweep>, s: nat)
    requires s < slot <= |devices| == |ws|
    ensures SweepFrom(devices, pods, slot, ws)[s] == devices[s]
    decreases |devices| - slot
  {
    hide SweepDevice;
    if slot < |devices| {
      SweptStays(devices[slot := SweepDevice(devices[slot], pods, slot, ws[slot])], pods, slot + 1, ws, s);
    }
  }

  /** The same for a whole collection: afterwards every enabled slot holds exactly what active pods name. */
  lemma CollectIsExact(st: State, ws: seq<Sweep>, s: nat)
    requires Inv(st) && !Blocked(st.pods) && |ws| == |st.devices| && s < |st.devices| && st.devices[s].enabled
    requires forall t :: 0 <= t < |st.devices| ==> Faultless(st.devices[t], ws[t]) || !st.devices[t].enabled
    ensures
      var after := Collect(st, ws).devices[s];
      && (forall i :: i in after.instances <==> Keeps(st.pods, s, i))
      && (forall p :: p in after.profiles <==> KeepsProfile(st.pods, s, p))
  {
    hide Inv, Keeps, KeepsProfile, SweepDevice;
    SweepFromExact(st.devices, st.pods, 0, ws, s);
    SweepIsExact(st, s, ws[s]);
  }

  /** Recycling a deleted pod destroys its instance and no other, though any steps came in between. */
  lemma RecycleFreesOnlyItsOwn(st: State, n: Name, d: Drops)
    requires Inv(st) && n in st.gone && st.gone[n].instance.Some? && st.gone[n].deleting && d.instanceDropped
    ensures
      var a := ReadAssignment(st.gone[n].instance.value);
      var after := Recycle(st, st.gone[n], d);
      && a.Some? && 0 <= a.value.slot < |after.devices| == |st.devices|
      && a.value.instance !in after.devices[a.value.slot].instances
      && forall s, i :: 0 <= s < |st.devices| && !(s == a.value.slot && i == a.value.instance) ==>
           (i in after.devices[s].instances <==> i in st.devices[s].instances)
  {
    hide DeviceOk, RecordOk, PodLive, PodOk, Apart, Fits, ReadAssignment, ReadHandle, RecycleProfile;
    GoneIsUnneeded(st, n);
    var a := ReadAssignment(st.gone[n].instance.value).value;
    SameReading(st.gone[n].instance.value);
    HandleInjective(a.instance, a.slot, a.instance, a.slot);
    HandleIsInt(a.instance, a.slot);
    if a.instance in st.devices[a.slot].instances {
      var dropped := WithDevice(st, a.slot, DropInstance(st.devices[a.slot], a.instance));
      RecyclingAProfile(dropped, st.gone[n], a.profile, d);
    }
  }

  lemma RecyclingAProfile(st: State, pod: Pod, profile: int, d: Drops)
    ensures var after := RecycleProfile(st, pod, profile, d);
            |after.devices| == |st.devices| &&
            forall s :: 0 <= s < |st.devices| ==> after.devices[s].instances == st.devices[s].instances
  {
    hide ReadRequest, ExistingProfile;
  }

  // ----- runs that exist -----

  function WaitingPod(r: Request): Pod { Pod(Pending, 1, Some(RequestText(r)), Some(FALSE_TEXT), None, false) }

  /** One device, and one pod that waits for it. */
  function Start(dev: Device, slots: set<nat>, n: Name, r: Request): State {
    State([dev], slots, map[n := WaitingPod(r)], map[], map[], map[])
  }

  /** The driver makes a profile for the request and an instance. */
  ghost predicate Willing(dev: Device, a: Answers) {
    && a.profileCreated && a.total >= 2 && a.newProfile <= INT_MAX && a.newProfile !in dev.profiles
    && a.instanceCreated && a.newInstance < INSTANCE_LIMIT && a.newInstance !in dev.issued
  }

  /** Any Go `int`s for quota and memory. */
  ghost predicate FitsInt(r: Request) {
    r.slot == 0 && INT64_MIN <= r.vcore <= INT64_MAX && INT64_MIN <= r.vmemory <= INT64_MAX
  }

  lemma WaitingIsCandidate(pods: map<Name, Pod>, n: Name, r: Request)
    requires FitsInt(r) && pods == map[n := WaitingPod(r)]
    ensures Candidate(pods) == Some(n) && RequestOf(pods[n]) == Some(r)
  {
    hide RequestText, ReadRequest;
    RequestRoundTrip(r);
    assert IsCandidate(pods, n);
  }

  lemma StartIsReached(dev: Device, slots: set<nat>, n: Name, r: Request, a: Answers)
    requires Idle(dev) && FitsInt(r) && Willing(dev, a)
    ensures
      var st := Start(dev, slots, n, r);
      && Reachable(st) && Inv(st) && Enabled(st, Call(a)) && Candidate(st.pods) == Some(n)
      && RequestOf(st.pods[n]) == Some(r) && Creates(dev, r, a)
  {
    hide RequestText, ReadRequest, Inv;
    var st := Start(dev, slots, n, r);
    WaitingIsCandidate(st.pods, n, r);
    ReachableAtFirst(st);
    ReachableIsInv(st);
  }

  /**
   A waiting pod on an idle device is served, if the driver can make a profile of the narrowed size; that is the size
   that the pod asked for if and only if it fits the driver's types.
   */
  lemma IdleDeviceServes(dev: Device, slots: set<nat>, n: Name, r: Request, a: Answers)
    requires Idle(dev) && FitsInt(r) && Willing(dev, a) && 0 in slots && Lists(a.listing, 0, Handle(a.newInstance, 0))
    ensures
      var (after, outcome) := Allocate(Start(dev, slots, n, r), a);
      && outcome == Allocated(Response(0, a.newInstance)) && after.dynamicSmlu == map[n := outcome.response]
      && after.pods == map[n := WaitingPod(r)] && after.gone == map[] && after.slots == slots
      && |after.devices| == 1 && HasRoom(after.devices[0]) && after.devices[0].memUnit == dev.memUnit
      && after.devices[0].instances == map[a.newInstance := a.newProfile] && a.newInstance in after.devices[0].issued
      && after.devices[0].profiles.Keys == {a.newProfile}
      && Granted(after.devices[0].profiles[a.newProfile], dev, r)
      && (Matches(after.devices[0].profiles[a.newProfile], dev, r) <==> FitsDriver(dev, r))
      && Reachable(after) && Inv(after)
  {
    hide RequestText, ReadRequest, AssignmentText, Inv, Enabled, Lists;
    var st := Start(dev, slots, n, r);
    StartIsReached(dev, slots, n, r, a);
    ReachableNext(st, Call(a));
    ReachableIsInv(Allocate(st, a).0);
    FreshDevice(dev, r, a);
    GrantedMatches(Allocate(st, a).0.devices[0].profiles[a.newProfile], dev, r);
  }

  /** Every profile of the device has room for one more. */
  ghost predicate HasRoom(dev: Device) { forall p :: p in dev.profiles ==> dev.profiles[p].remain >= 1 }

  lemma FreshDevice(dev: Device, r: Request, a: Answers)
    requires Idle(dev) && FitsInt(r) && Willing(dev, a)
    ensures
      var (chosen, p) := ChooseProfile(dev, r, a);
      && p == Some(a.newProfile) && chosen == AddProfile(dev, a.newProfile, r, a.total)
      && chosen.profiles.Keys == {a.newProfile} && Granted(chosen.profiles[a.newProfile], dev, r)
      && HasRoom(AddInstance(chosen, a.newInstance, a.newProfile))
  {
    hide MemoryOf;
  }

  /** With room on the one device, a willing driver serves the pod that waits. */
  lemma RoomServes(st: State, n: Name, r: Request, a: Answers)
    requires |st.devices| == 1 && HasRoom(st.devices[0]) && Willing(st.devices[0], a)
    requires Candidate(st.pods) == Some(n) && n !in st.dynamicSmlu && RequestOf(st.pods[n]) == Some(r) && r.slot == 0
    requires 0 in st.slots && Lists(a.listing, 0, Handle(a.newInstance, 0))
    ensures Creates(st.devices[0], r, a) && Allocate(st, a).1 == Allocated(Response(0, a.newInstance))
  {
    hide ReadRequest, AssignmentText, Lists, MemoryOf, FirstRecognised;
  }

  /** While a waiting pod is there, collections are held back. */
  lemma WaitingBlocks(pods: map<Name, Pod>, n: Name, r: Request)
    requires n in pods && pods[n] == WaitingPod(r)
    ensures Blocked(pods)
  {
    assert IsHandled(pods[n]);
  }

  /** The device of the slot is not in the plugin's table. */
  lemma UnknownSlotAbandons(dev: Device, n: Name, r: Request, a: Answers)
    requires Idle(dev) && FitsInt(r) && Willing(dev, a)
    requires Lists(a.listing, 0, Handle(a.newInstance, 0))
    ensures
      var st := Start(dev, {}, n, r);
      && Reachable(st) && Enabled(st, Call(a)) && Allocate(st, a).1.Error?
      && Abandons(st, a) && MakesOrphan(st, Allocate(st, a).0) && Blocked(Allocate(st, a).0.pods)
  {
    hide RequestText, ReadRequest, AssignmentText, Inv, Lists, MakesOrphan, ChooseProfile;
    StartIsReached(dev, {}, n, r, a);
    CallsAbandon(Start(dev, {}, n, r), a);
  }

  /** The new instance cannot be listed, and then not destroyed either. */
  lemma UnlistedAbandons(dev: Device, slots: set<nat>, n: Name, r: Request, a: Answers)
    requires Idle(dev) && FitsInt(r) && Willing(dev, a)
    requires !Lists(a.listing, 0, Handle(a.newInstance, 0)) && !a.destroyed
    ensures
      var st := Start(dev, slots, n, r);
      && Reachable(st) && Enabled(st, Call(a)) && Allocate(st, a).1.Error?
      && Abandons(st, a) && MakesOrphan(st, Allocate(st, a).0) && Blocked(Allocate(st, a).0.pods)
  {
    hide RequestText, ReadRequest, AssignmentText, Inv, Lists, MakesOrphan, ChooseProfile;
    StartIsReached(dev, slots, n, r, a);
    CallsAbandon(Start(dev, slots, n, r), a);
  }

  /** The second call cannot annotate the pod. */
  lemma UnpatchedAbandons(dev: Device, slots: set<nat>, n: Name, r: Request, a: Answers, b: Answers)
    requires Idle(dev) && FitsInt(r) && Willing(dev, a) && 0 in slots && Lists(a.listing, 0, Handle(a.newInstance, 0))
    requires var st := Allocate(Start(dev, slots, n, r), a).0; Enabled(st, Call(b)) && !b.patched
    ensures
      var st := Allocate(Start(dev, slots, n, r), a).0;
      && Reachable(st) && |st.devices| <= 256 && Allocate(st, b).1.Error?
      && Abandons(st, b) && MakesOrphan(st, Allocate(st, b).0) && Blocked(Allocate(st, b).0.pods)
  {
    hide RequestText, ReadRequest, Inv, Lists, MakesOrphan, FirstCall, Enabled, HasRoom;
    IdleDeviceServes(dev, slots, n, r, a);
    var st := Allocate(Start(dev, slots, n, r), a).0;
    WaitingIsCandidate(st.pods, n, r);
    CallsAbandon(st, b);
  }

  /** A second pod arrives, so that the next call finds no candidate. */
  lemma LostCandidateAbandons(dev: Device, slots: set<nat>, n: Name, r: Request, a: Answers, m: Name, b: Answers)
    requires Idle(dev) && FitsInt(r) && Willing(dev, a) && 0 in slots && Lists(a.listing, 0, Handle(a.newInstance, 0))
    requires m != n && b.newProfile <= INT_MAX && b.newInstance < INSTANCE_LIMIT
    ensures
      var prepared := Allocate(Start(dev, slots, n, r), a).0;
      var st := prepared.(pods := prepared.pods[m := WaitingPod(r)]);
      && Reachable(st) && |st.devices| <= 256 && Enabled(st, Call(b)) && Allocate(st, b) == (CleanRecord(st), Error)
      && Abandons(st, b) && MakesOrphan(st, Allocate(st, b).0) && Blocked(Allocate(st, b).0.pods)
  {
    hide RequestText, ReadRequest, Inv, Lists, MakesOrphan, FirstCall, HasRoom;
    IdleDeviceServes(dev, slots, n, r, a);
    var prepared := Allocate(Start(dev, slots, n, r), a).0;
    ReachableNext(prepared, Arrive(m, WaitingPod(r)));
    var st := prepared.(pods := prepared.pods[m := WaitingPod(r)]);
    ReachableIsInv(st);
    assert IsAssumed(st.pods[n]) && IsAssumed(st.pods[m]);
    assert HeldBy(st, n);
    CallsAbandon(st, b);
  }

  /** The recorded pod leaves before its second call, and the instance of another takes its place in the record. */
  lemma ReplacedAbandons(dev: Device, slots: set<nat>, n: Name, r: Request, a: Answers, m: Name, b: Answers)
    requires Idle(dev) && FitsInt(r) && Willing(dev, a) && 0 in slots && Lists(a.listing, 0, Handle(a.newInstance, 0))
    requires m != n && Willing(Allocate(Start(dev, slots, n, r), a).0.devices[0], b)
    requires Lists(b.listing, 0, Handle(b.newInstance, 0))
    ensures
      var prepared := Allocate(Start(dev, slots, n, r), a).0;
      var st := prepared.(pods := map[m := WaitingPod(r)], gone := map[n := WaitingPod(r).(deleting := true)]);
      && Reachable(st) && |st.devices| <= 256 && Enabled(st, Call(b))
      && Allocate(st, b).1 == Allocated(Response(0, b.newInstance))
      && Abandons(st, b) && MakesOrphan(st, Allocate(st, b).0) && Blocked(Allocate(st, b).0.pods)
  {
    hide RequestText, ReadRequest, AssignmentText, Inv, Lists, MakesOrphan, Allocate, Creates, HasRoom, Blocked;
    IdleDeviceServes(dev, slots, n, r, a);
    var prepared := Allocate(Start(dev, slots, n, r), a).0;
    var left := Next(prepared, Remove(n, true));
    ReachableNext(prepared, Remove(n, true));
    assert left.pods == map[];
    ReachableNext(left, Arrive(m, WaitingPod(r)));
    var st := prepared.(pods := map[m := WaitingPod(r)], gone := map[n := WaitingPod(r).(deleting := true)]);
    assert Next(left, Arrive(m, WaitingPod(r))) == st;
    ReachableIsInv(st);
    WaitingIsCandidate(st.pods, m, r);
    assert HeldBy(st, n);
    RoomServes(st, m, r, b);
    PodsAlone(st, m, b);
    WaitingBlocks(st.pods, m, r);
    CallsAbandon(st, b);
  }

  /**
   A run in which the two calls of a pod do not meet: a second pod arrives, a call finds no candidate, the second pod
   leaves, and the next call hands the first pod another instance.
   */
  lemma LostRecordRun(dev: Device, slots: set<nat>, n: Name, r: Request, a: Answers, m: Name, x: Answers, b: Answers)
    requires Idle(dev) && FitsInt(r) && Willing(dev, a) && 0 in slots && Lists(a.listing, 0, Handle(a.newInstance, 0))
    requires m != n && x.newProfile <= INT_MAX && x.newInstance < INSTANCE_LIMIT
    requires Willing(Allocate(Start(dev, slots, n, r), a).0.devices[0], b)
    requires Lists(b.listing, 0, Handle(b.newInstance, 0))
    ensures
      var s0, acts := Allocate(Start(dev, slots, n, r), a).0, [Arrive(m, WaitingPod(r)), Call(x), Remove(m, true)];
      var s1 := s0.(pods := s0.pods[m := WaitingPod(r)]);
      var s2 := CleanRecord(s1);
      var s3 := s2.(pods := s0.pods, gone := map[m := WaitingPod(r).(deleting := true)]);
      && Run([s0, s1, s2, s3], acts) && !NoCall(acts)
      && Candidate(s3.pods) == Some(n) && Enabled(s3, Call(b)) && |s3.devices| <= 256
      && Allocate(s3, b).1 == Allocated(Response(0, b.newInstance)) && b.newInstance != a.newInstance
  {
    hide RequestText, ReadRequest, AssignmentText, Inv, Lists, MakesOrphan, Abandons, Allocate, HasRoom;
    IdleDeviceServes(dev, slots, n, r, a);
    LostCandidateAbandons(dev, slots, n, r, a, m, x);
    var s0, acts := Allocate(Start(dev, slots, n, r), a).0, [Arrive(m, WaitingPod(r)), Call(x), Remove(m, true)];
    var s1 := s0.(pods := s0.pods[m := WaitingPod(r)]);
    var s2 := CleanRecord(s1);
    var s3 := s2.(pods := s0.pods, gone := map[m := WaitingPod(r).(deleting := true)]);
    WaitingIsCandidate(s3.pods, n, r);
    assert RunStep(s0, acts[0], s1);
    assert RunStep(s1, acts[1], s2);
    assert s2.pods - {m} == s3.pods;
    assert RunStep(s2, acts[2], s3);
    assert acts[1].Call?;
    RoomServes(s3, n, r, b);
  }
}
