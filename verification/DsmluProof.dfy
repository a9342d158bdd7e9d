/** What every run of the dynamic-SMLU protocol keeps. */
module DsmluProof {
  import opened Bytes
  import opened Annotation
  import opened Options
  import opened DsmluModel

  // ----- the driver's books -----

  /** Every instance has its profile, quotas are 32-bit, and each profile's counts match its instances. */
  ghost predicate DeviceOk(dev: Device) {
    && (forall i :: i in dev.instances ==> i in dev.issued && dev.instances[i] in dev.profiles)
    && (forall p :: p in dev.profiles ==> dev.profiles[p].total - dev.profiles[p].remain == |Users(dev, p)|)
    && (forall p :: p in dev.profiles ==> p <= INT_MAX && dev.profiles[p].quota < UINT_SIZE)
  }

  ghost predicate SameSize(a: Profile, b: Profile) { a.quota == b.quota && a.memory == b.memory }

  /** What is recognised has a 32-bit quota, so it is what the driver would be asked for. */
  lemma RecognisedIsGranted(dev: Device, p: nat, r: Request)
    requires DeviceOk(dev) && p in dev.profiles && Recognised(dev.profiles[p], dev, r)
    ensures Granted(dev.profiles[p], dev, r)
  {
    hide MemoryOf;
  }

  /** The handles of the listed instances are C `int`s. */
  predicate HandlesFit(w: Sweep) { forall i :: i in w.instances ==> i < INSTANCE_LIMIT }

  lemma HandleIsInt(i: nat, s: nat)
    requires i < INSTANCE_LIMIT && s < 256
    ensures NarrowInt(Handle(i, s)) == Handle(i, s)
  {
  }

  lemma AddProfileOk(dev: Device, p: nat, r: Request, total: int)
    requires DeviceOk(dev) && p !in dev.profiles && p <= INT_MAX
    ensures DeviceOk(AddProfile(dev, p, r, total))
  {
    hide MemoryOf;
    var after := AddProfile(dev, p, r, total);
    forall q | q in after.profiles
      ensures Users(after, q) == Users(dev, q)
    {
    }
    assert Users(after, p) == {};
  }

  lemma AddInstanceOk(dev: Device, i: nat, p: nat)
    requires DeviceOk(dev) && p in dev.profiles && i !in dev.issued
    ensures DeviceOk(AddInstance(dev, i, p))
  {
    hide Users;
    var after := AddInstance(dev, i, p);
    forall q | q in after.profiles
      ensures after.profiles[q].total - after.profiles[q].remain == |Users(after, q)|
    {
      CountAdded(dev, i, p, q);
    }
  }

  lemma CountAdded(dev: Device, i: nat, p: nat, q: nat)
    requires DeviceOk(dev) && p in dev.profiles && q in dev.profiles && i !in dev.issued
    ensures
      var after := AddInstance(dev, i, p);
      after.profiles[q].total - after.profiles[q].remain == |Users(after, q)|
  {
    hide Users;
    UsersAdded(dev, i, p, q);
  }

  lemma UsersAdded(dev: Device, i: nat, p: nat, q: nat)
    requires DeviceOk(dev) && p in dev.profiles && i !in dev.issued
    ensures i !in Users(dev, q)
    ensures Users(AddInstance(dev, i, p), q) == Users(dev, q) + if q == p then {i} else {}
  {
  }

  lemma DropInstanceOk(dev: Device, i: nat)
    requires DeviceOk(dev)
    ensures DeviceOk(DropInstance(dev, i))
  {
    hide Users;
    if i in dev.instances {
      var after := DropInstance(dev, i);
      forall q | q in after.profiles
        ensures after.profiles[q].total - after.profiles[q].remain == |Users(after, q)|
      {
        UsersDropped(dev, i, q);
      }
    }
  }

  lemma UsersDropped(dev: Device, i: nat, q: nat)
    requires DeviceOk(dev) && i in dev.instances
    ensures i !in Users(DropInstance(dev, i), q)
    ensures Users(dev, q) == Users(DropInstance(dev, i), q) + if q == dev.instances[i] then {i} else {}
  {
  }

  lemma DropProfileOk(dev: Device, p: nat)
    requires DeviceOk(dev)
    ensures DeviceOk(DropProfile(dev, p))
  {
    if p !in dev.instances.Values {
      var after := DropProfile(dev, p);
      forall q | q in after.profiles
        ensures Users(after, q) == Users(dev, q)
      {
      }
      forall i | i in after.instances
        ensures after.instances[i] in after.profiles
      {
        assert dev.instances[i] in dev.instances.Values;
      }
    }
  }

  // ----- what a step does to a device -----

  /** Nothing that was handed out and is gone comes back, and a profile that stays keeps its size. */
  ghost predicate Follows(d: Device, e: Device) {
    && d.issued <= e.issued && e.memUnit == d.memUnit
    && (forall i :: i in e.instances && i in d.issued ==> i in d.instances && e.instances[i] == d.instances[i])
    && (forall p :: p in d.profiles && p in e.profiles ==> SameSize(e.profiles[p], d.profiles[p]))
  }

  /** Instances and profiles only go. */
  ghost predicate Shrinks(d: Device, e: Device) {
    && e.issued == d.issued && e.memUnit == d.memUnit
    && (forall i :: i in e.instances ==> i in d.instances && e.instances[i] == d.instances[i])
    && (forall p :: p in e.profiles ==> p in d.profiles && SameSize(e.profiles[p], d.profiles[p]))
  }

  // ----- the invariant -----

  /** The annotation names an instance that was handed out on an existing slot, by its right handle. */
  ghost predicate WellNamed(devices: seq<Device>, text: seq<byte>) {
    && |devices| <= 256
    && ReadAssignment(text).Some?
    && var a := ReadAssignment(text).value;
       && 0 <= a.profile && 0 <= a.slot < |devices| && 0 <= a.instance < INSTANCE_LIMIT
       && a.instance in devices[a.slot].issued
       && a.handle == Handle(a.instance, a.slot)
  }

  /** The instance that the annotation names exists, on its slot and with the annotated profile. */
  ghost predicate Live(devices: seq<Device>, text: seq<byte>) {
    && WellNamed(devices, text)
    && var a := ReadAssignment(text).value;
       a.instance in devices[a.slot].instances && devices[a.slot].instances[a.instance] == a.profile
  }

  /** The instance has the annotated profile, and that is what the driver was asked for. */
  ghost predicate Serves(dev: Device, a: Assignment, r: Request) {
    && a.instance in dev.instances && dev.instances[a.instance] == a.profile
    && a.profile in dev.profiles && Granted(dev.profiles[a.profile], dev, r)
  }

  /** What is annotated is on the slot that the pod asked for and, as long as it exists, what was asked for. */
  ghost predicate Fits(devices: seq<Device>, pod: Pod, text: seq<byte>) {
    && RequestOf(pod).Some? && ReadAssignment(text).Some?
    && var r, a := RequestOf(pod).value, ReadAssignment(text).value;
       && 0 <= a.slot == r.slot < |devices|
       && (a.instance in devices[a.slot].instances ==> Serves(devices[a.slot], a, r))
  }

  lemma FitsStays(d: seq<Device>, e: seq<Device>, pod: Pod, text: seq<byte>)
    requires |d| == |e| && DevicesOk(e) && WellNamed(d, text) && Fits(d, pod, text)
    requires forall t :: 0 <= t < |d| ==> Follows(d[t], e[t])
    ensures Fits(e, pod, text)
  {
    hide RequestOf, ReadAssignment;
    var r, a := RequestOf(pod).value, ReadAssignment(text).value;
    assert Follows(d[a.slot], e[a.slot]) && DeviceOk(e[a.slot]);
  }

  ghost predicate SamePlace(t: seq<byte>, u: seq<byte>) {
    && ReadAssignment(t).Some? && ReadAssignment(u).Some?
    && ReadAssignment(t).value.slot == ReadAssignment(u).value.slot
    && ReadAssignment(t).value.instance == ReadAssignment(u).value.instance
  }

  ghost predicate PodOk(devices: seq<Device>, pod: Pod) {
    pod.instance.Some? ==>
      && Uses(pod) && pod.mark == Some(TRUE_TEXT) && WellNamed(devices, pod.instance.value)
      && Fits(devices, pod, pod.instance.value)
  }

  ghost function Everyone(st: State): map<Name, Pod> { st.pods + st.gone }

  ghost predicate Apart(pod: Pod, text: seq<byte>) { pod.instance.Some? ==> !SamePlace(pod.instance.value, text) }

  /** The record left by the first call of pod `n`. */
  ghost predicate RecordOk(st: State, n: Name)
    requires n in st.dynamicSmlu && n in st.profileAndInstance
  {
    var text := st.profileAndInstance[n];
    && n in Everyone(st)
    && Uses(Everyone(st)[n]) && Everyone(st)[n].instance.None?
    && WellNamed(st.devices, text) && Fits(st.devices, Everyone(st)[n], text)
    && st.dynamicSmlu[n] == Response(ReadAssignment(text).value.slot, ReadAssignment(text).value.instance)
    && (forall m :: m in Everyone(st) ==> Apart(Everyone(st)[m], text))
    && (n in st.pods && st.pods[n].phase == Pending ==> Live(st.devices, text))
  }

  ghost predicate DevicesOk(devices: seq<Device>) {
    |devices| <= 256 && forall s :: 0 <= s < |devices| ==> DeviceOk(devices[s])
  }

  ghost predicate Inv(st: State) {
    && DevicesOk(st.devices)
    && st.pods.Keys !! st.gone.Keys
    && (forall n :: n in Everyone(st) ==> PodOk(st.devices, Everyone(st)[n]))
    && (forall n :: n in st.pods ==> PodLive(st.devices, st.pods[n]))
    && (forall n, m :: n in Everyone(st) && m in Everyone(st) && n != m && Everyone(st)[m].instance.Some? ==>
          Apart(Everyone(st)[n], Everyone(st)[m].instance.value))
    && st.dynamicSmlu.Keys == st.profileAndInstance.Keys
    && (forall n, m :: n in st.dynamicSmlu && m in st.dynamicSmlu ==> n == m)
    && (forall n :: n in st.dynamicSmlu ==> RecordOk(st, n))
  }

  ghost predicate PodLive(devices: seq<Device>, pod: Pod) {
    IsActive(pod) && pod.instance.Some? ==> Live(devices, pod.instance.value)
  }

  // ----- steps and runs -----

  /** The slot that a call asks for a profile and an instance. */
  ghost function Target(st: State): Option<int> {
    match Candidate(st.pods)
    case None => None
    case Some(n) => if RequestOf(st.pods[n]).None? then None else Some(RequestOf(st.pods[n]).value.slot)
  }

  datatype Action =
    | Arrive(name: Name, pod: Pod)
    | Move(name: Name, phase: Phase)
    | Remove(name: Name, deleting: bool)
    | Call(answers: Answers)
    | Recycled(name: Name, drops: Drops)
    | Collected(sweeps: seq<Sweep>)

  /**
   What the surroundings may do: pod names are not reused and only the plugin writes the instance annotation; a
   pod that has left Pending or Running does not come back; profile IDs and handles are C `int`s, and a device gives a
   new profile an ID that none of its profiles has, and a new instance an ID that it never gave before.
   */
  ghost predicate Enabled(st: State, act: Action) {
    match act
    case Arrive(n, pod) => n !in st.pods && n !in st.gone && pod.instance.None?
    case Move(n, phase) =>
      && n in st.pods
      && (IsActive(st.pods[n].(phase := phase)) ==> IsActive(st.pods[n]))
      && (phase == Pending ==> st.pods[n].phase == Pending)
    case Remove(n, _) => n in st.pods
    case Call(a) =>
      && a.newProfile <= INT_MAX && a.newInstance < INSTANCE_LIMIT
      && forall s: nat :: Target(st) == Some(s) && s < |st.devices| ==>
           a.newProfile !in st.devices[s].profiles && a.newInstance !in st.devices[s].issued
    case Recycled(n, _) => n in st.gone
    case Collected(ws) => |ws| == |st.devices| && forall s :: 0 <= s < |ws| ==> HandlesFit(ws[s])
  }

  ghost function Next(st: State, act: Action): State
    requires |st.devices| <= 256 && Enabled(st, act)
  {
    match act
    case Arrive(n, pod) => st.(pods := st.pods[n := pod])
    case Move(n, phase) => st.(pods := st.pods[n := st.pods[n].(phase := phase)])
    case Remove(n, deleting) => st.(pods := st.pods - {n}, gone := st.gone[n := st.pods[n].(deleting := deleting)])
    case Call(a) => Allocate(st, a).0
    case Recycled(n, drops) => Recycle(st, st.gone[n], drops)
    case Collected(ws) => Collect(st, ws)
  }

  /** A run: each state follows from the one before by an action that was enabled there. */
  ghost predicate Run(states: seq<State>, acts: seq<Action>) {
    && |states| == |acts| + 1
    && Inv(states[0])
    && forall k :: 0 <= k < |acts| ==> RunStep(states[k], acts[k], states[k + 1])
  }

  ghost predicate RunStep(st: State, act: Action, next: State) {
    |st.devices| <= 256 && Enabled(st, act) && next == Next(st, act)
  }

  // ----- frames -----

  /** From `d` to `e`, only the instance `i` of slot `s` may have gone. */
  ghost predicate KeepsAllBut(d: seq<Device>, e: seq<Device>, s: int, i: int) {
    && |d| == |e|
    && (forall t :: 0 <= t < |d| ==> Follows(d[t], e[t]))
    && (forall t, j :: 0 <= t < |d| && j in d[t].instances && !(t == s && j == i) ==>
          j in e[t].instances && e[t].instances[j] == d[t].instances[j])
  }

  /** With the pods as they are, the invariant survives a change of devices that spares what it needs. */
  lemma DevicesChange(st: State, devices: seq<Device>, s: int, i: int)
    requires Inv(st) && DevicesOk(devices) && KeepsAllBut(st.devices, devices, s, i)
    requires forall n :: n in st.pods && IsActive(st.pods[n]) && st.pods[n].instance.Some? ==>
               var a := ReadAssignment(st.pods[n].instance.value);
               a.Some? && !(a.value.slot == s && a.value.instance == i)
    requires forall n :: n in st.dynamicSmlu ==>
               var a := ReadAssignment(st.profileAndInstance[n]);
               a.Some? && !(a.value.slot == s && a.value.instance == i)
    ensures Inv(st.(devices := devices))
  {
    hide DeviceOk, Fits, Follows, Apart;
    var after := st.(devices := devices);
    assert Everyone(after) == Everyone(st);
    assert forall t :: 0 <= t < |devices| ==> st.devices[t].issued <= devices[t].issued by {
      IssuedGrows(st.devices, devices);
    }
    forall n | n in st.pods
      ensures PodLive(devices, st.pods[n])
    {
      assert PodLive(st.devices, st.pods[n]);
    }
    forall n | n in Everyone(st)
      ensures PodOk(devices, Everyone(st)[n])
    {
      assert PodOk(st.devices, Everyone(st)[n]);
      if Everyone(st)[n].instance.Some? {
        FitsStays(st.devices, devices, Everyone(st)[n], Everyone(st)[n].instance.value);
      }
    }
    forall n | n in st.dynamicSmlu
      ensures RecordOk(after, n)
    {
      assert RecordOk(st, n);
      FitsStays(st.devices, devices, Everyone(st)[n], st.profileAndInstance[n]);
    }
  }

  lemma IssuedGrows(d: seq<Device>, e: seq<Device>)
    requires |d| == |e| && forall t :: 0 <= t < |d| ==> Follows(d[t], e[t])
    ensures forall t :: 0 <= t < |d| ==> d[t].issued <= e[t].issued
  {
    forall t | 0 <= t < |d|
      ensures d[t].issued <= e[t].issued
    {
      assert Follows(d[t], e[t]);
    }
  }

  lemma CleanRecordKeepsInv(st: State)
    requires Inv(st)
    ensures Inv(CleanRecord(st))
  {
    assert Everyone(CleanRecord(st)) == Everyone(st);
  }

  // ----- allocation -----

  lemma CandidateHasNoInstance(st: State, n: Name)
    requires Inv(st) && n in st.pods && IsAssumed(st.pods[n])
    ensures st.pods[n].instance.None?
  {
    assert PodOk(st.devices, Everyone(st)[n]);
    assert FALSE_TEXT[0] != TRUE_TEXT[0];
  }

  lemma SecondCallKeepsInv(st: State, n: Name, patched: bool)
    requires Inv(st) && n in st.pods && n in st.dynamicSmlu && IsAssumed(st.pods[n])
    ensures Inv(SecondCall(st, n, patched).0)
  {
    hide DevicesOk, PodOk, PodLive, RecordOk, Apart, IsAssumed;
    CleanRecordKeepsInv(st);
    if patched {
      var text := st.profileAndInstance[n];
      var after := SecondCall(st, n, patched).0;
      PatchedPod(st, n, after.pods[n]);
      assert Everyone(after) == Everyone(st)[n := after.pods[n]];
      PatchedStaysApart(Everyone(st), n, after.pods[n], text);
    }
  }

  /** The recorded pod, annotated with what was recorded for it. */
  lemma PatchedPod(st: State, n: Name, pod: Pod)
    requires n in st.dynamicSmlu && n in st.profileAndInstance && RecordOk(st, n)
    requires n in st.pods && IsAssumed(st.pods[n])
    requires st.pods.Keys !! st.gone.Keys
    requires pod == st.pods[n].(mark := Some(TRUE_TEXT), instance := Some(st.profileAndInstance[n]))
    ensures PodOk(st.devices, pod) && PodLive(st.devices, pod)
    ensures forall m :: m in Everyone(st) ==> Apart(Everyone(st)[m], st.profileAndInstance[n])
  {
    hide WellNamed, Live, Fits, Apart;
    FitsToo(st.devices, st.pods[n], pod, st.profileAndInstance[n]);
  }

  /** What fits a pod depends on its request only. */
  lemma FitsToo(devices: seq<Device>, was: Pod, now: Pod, text: seq<byte>)
    requires Fits(devices, was, text) && now.profile == was.profile
    ensures Fits(devices, now, text)
  {
  }

  /** A pod that takes a text apart from everyone's stays apart from everyone. */
  lemma PatchedStaysApart(people: map<Name, Pod>, n: Name, pod: Pod, text: seq<byte>)
    requires forall m, k :: m in people && k in people && m != k && people[k].instance.Some? ==>
               Apart(people[m], people[k].instance.value)
    requires forall m :: m in people ==> Apart(people[m], text)
    requires pod.instance == Some(text)
    ensures var after := people[n := pod];
            forall m, k :: m in after && k in after && m != k && after[k].instance.Some? ==>
              Apart(after[m], after[k].instance.value)
  {
    hide ReadAssignment;
    var after := people[n := pod];
    forall m, k | m in after && k in after && m != k && after[k].instance.Some?
      ensures Apart(after[m], after[k].instance.value)
    {
      if k == n {
        assert Apart(people[m], text);
      } else if m == n {
        assert Apart(people[k], text);
      }
    }
  }

  lemma ChooseProfileOk(dev: Device, r: Request, a: Answers)
    requires DeviceOk(dev) && a.newProfile !in dev.profiles && a.newProfile <= INT_MAX
    ensures
      var (after, p) := ChooseProfile(dev, r, a);
      && DeviceOk(after) && after.issued == dev.issued && after.instances == dev.instances && Follows(dev, after)
      && (p.Some? ==> p.value in after.profiles && p.value <= INT_MAX && Granted(after.profiles[p.value], after, r))
  {
    if ExistingProfile(dev, a.profileListing, r).Some? {
      RecognisedIsGranted(dev, ExistingProfile(dev, a.profileListing, r).value, r);
    } else if a.profileCreated {
      AddProfileOk(dev, a.newProfile, r, a.total);
    }
  }

  lemma WithDeviceKeepsInv(st: State, s: nat, dev: Device, i: int)
    requires Inv(st) && s < |st.devices| && DeviceOk(dev) && Follows(st.devices[s], dev)
    requires forall j :: j in st.devices[s].instances && j != i ==>
               j in dev.instances && dev.instances[j] == st.devices[s].instances[j]
    requires i in st.devices[s].issued ==> Unneeded(st, s, i)
    ensures Inv(WithDevice(st, s, dev))
  {
    hide DeviceOk, Fits;
    forall n | n in st.dynamicSmlu
      ensures RecordOk(st, n)
    {
    }
    forall n | n in st.pods
      ensures PodLive(st.devices, st.pods[n])
    {
    }
    DevicesChange(st, WithDevice(st, s, dev).devices, s, i);
  }

  /** No active pod and no record names the instance. */
  ghost predicate Unneeded(st: State, s: int, i: int) {
    && (forall n :: n in st.pods && IsActive(st.pods[n]) && st.pods[n].instance.Some? ==>
          var a := ReadAssignment(st.pods[n].instance.value); a.Some? && !(a.value.slot == s && a.value.instance == i))
    && (forall n :: n in st.dynamicSmlu && n in st.profileAndInstance ==>
          var a := ReadAssignment(st.profileAndInstance[n]); a.Some? && !(a.value.slot == s && a.value.instance == i))
  }

  /** The annotation that a first call prepares reads back as what it was made of. */
  lemma PreparedText(p: nat, s: nat, i: nat)
    requires s < 256 && p <= INT_MAX && i < INSTANCE_LIMIT
    ensures ReadAssignment(AssignmentText(Assignment(p, Handle(i, s), s, i))) == Some(Assignment(p, Handle(i, s), s, i))
  {
    AssignmentRoundTrip(Assignment(p, Handle(i, s), s, i));
  }

  /** Replacing the record by one for `n`, whose instance no annotation names. */
  lemma NewRecordKeepsInv(st: State, n: Name, text: seq<byte>)
    requires Inv(st) && n in st.pods && Uses(st.pods[n]) && st.pods[n].instance.None?
    requires Live(st.devices, text) && Fits(st.devices, st.pods[n], text)
    requires forall m :: m in Everyone(st) ==> Apart(Everyone(st)[m], text)
    ensures
      var a := ReadAssignment(text).value;
      Inv(st.(dynamicSmlu := map[n := Response(a.slot, a.instance)], profileAndInstance := map[n := text]))
  {
    hide ReadAssignment, DeviceOk, Fits;
    var a := ReadAssignment(text).value;
    var after := st.(dynamicSmlu := map[n := Response(a.slot, a.instance)], profileAndInstance := map[n := text]);
    assert Everyone(after) == Everyone(st);
    assert RecordOk(after, n);
  }

  /** The devices that a first call can leave on its slot. */
  lemma MadeFollows(dev: Device, chosen: Device, i: nat, p: nat, r: Request)
    requires Follows(dev, chosen) && DeviceOk(chosen)
    requires chosen.instances == dev.instances && chosen.issued == dev.issued
    requires i !in dev.issued && p in chosen.profiles && Granted(chosen.profiles[p], chosen, r)
    ensures
      var made := AddInstance(chosen, i, p);
      && Follows(dev, made) && DeviceOk(made) && made.instances == dev.instances[i := p]
      && Granted(made.profiles[p], made, r)
      && Follows(dev, DropInstance(made, i)) && DeviceOk(DropInstance(made, i))
      && DropInstance(made, i).instances == dev.instances
  {
    hide Users;
    AddInstanceOk(chosen, i, p);
    DropInstanceOk(AddInstance(chosen, i, p), i);
  }

  lemma FirstCallKeepsInv(st: State, n: Name, r: Request, a: Answers)
    requires Inv(st) && Enabled(st, Call(a)) && Candidate(st.pods) == Some(n) && RequestOf(st.pods[n]) == Some(r)
    requires 0 <= r.slot < |st.devices|
    ensures Inv(FirstCall(st, n, r, a).0)
  {
    hide ReadAssignment, DeviceOk, RecordOk, PodLive, PodOk, Apart, Follows, Lists, Granted;
    var s := r.slot;
    var (dev, p) := ChooseProfile(st.devices[s], r, a);
    ChooseProfileOk(st.devices[s], r, a);
    if p.Some? {
      WithDeviceKeepsInv(st, s, dev, -1);
      if a.instanceCreated && dev.profiles[p.value].remain >= 1 {
        var made := AddInstance(dev, a.newInstance, p.value);
        MadeFollows(st.devices[s], dev, a.newInstance, p.value, r);
        WithDeviceKeepsInv(st, s, made, -1);
        if !Lists(a.listing, s, Handle(a.newInstance, s)) {
          WithDeviceKeepsInv(st, s, DropInstance(made, a.newInstance), -1);
        } else if s in st.slots {
          RecordNewInstance(st, n, s, made, p.value, a.newInstance, r);
        }
      }
    }
  }

  /** The instance just made is named by no annotation, since its ID was never handed out before. */
  lemma RecordNewInstance(st: State, n: Name, s: nat, made: Device, p: nat, i: nat, r: Request)
    requires Inv(st) && s < |st.devices| && Inv(WithDevice(st, s, made))
    requires n in st.pods && IsAssumed(st.pods[n]) && RequestOf(st.pods[n]) == Some(r) && r.slot == s
    requires i !in st.devices[s].issued && i in made.issued && i in made.instances && made.instances[i] == p
    requires p in made.profiles && Granted(made.profiles[p], made, r)
    requires p <= INT_MAX && i < INSTANCE_LIMIT
    ensures Inv(WithDevice(st, s, made).(
                  dynamicSmlu := map[n := Response(s, i)],
                  profileAndInstance := map[n := AssignmentText(Assignment(p, Handle(i, s), s, i))]))
  {
    hide DeviceOk, RecordOk, Fits, Granted, RequestOf, ReadAssignment;
    var text := AssignmentText(Assignment(p, Handle(i, s), s, i));
    var after := WithDevice(st, s, made);
    PreparedText(p, s, i);
    CandidateHasNoInstance(st, n);
    assert Everyone(after) == Everyone(st);
    forall m | m in Everyone(st)
      ensures Apart(Everyone(st)[m], text)
    {
      assert PodOk(st.devices, Everyone(st)[m]);
    }
    NewFits(after.devices, st.pods[n], text, r);
    NewRecordKeepsInv(after, n, text);
  }

  lemma NewFits(devices: seq<Device>, pod: Pod, text: seq<byte>, r: Request)
    requires RequestOf(pod) == Some(r) && ReadAssignment(text).Some?
    requires var a := ReadAssignment(text).value; 0 <= a.slot == r.slot < |devices| && Serves(devices[a.slot], a, r)
    ensures Fits(devices, pod, text) && Uses(pod)
  {
  }

  lemma AllocateKeepsInv(st: State, a: Answers)
    requires Inv(st) && Enabled(st, Call(a))
    ensures Inv(Allocate(st, a).0)
  {
    hide DeviceOk, RecordOk, PodLive, FirstCall, SecondCall, ReadRequest;
    match Candidate(st.pods)
    case None => CleanRecordKeepsInv(st);
    case Some(n) =>
      if n in st.dynamicSmlu {
        SecondCallKeepsInv(st, n, a.patched);
      } else if RequestOf(st.pods[n]).Some? {
        var r := RequestOf(st.pods[n]).value;
        if 0 <= r.slot < |st.devices| {
          FirstCallKeepsInv(st, n, r, a);
        }
      }
  }

  // ----- recycling -----

  /** The instance of a pod that is gone is needed by no one else. */
  lemma GoneIsUnneeded(st: State, n: Name)
    requires Inv(st) && n in st.gone && st.gone[n].instance.Some?
    ensures
      var a := ReadAssignment(st.gone[n].instance.value);
      a.Some? && WellNamed(st.devices, st.gone[n].instance.value) && Unneeded(st, a.value.slot, a.value.instance)
  {
    hide DeviceOk, Fits;
    var text := st.gone[n].instance.value;
    assert Everyone(st)[n] == st.gone[n];
    assert PodOk(st.devices, Everyone(st)[n]);
    forall m | m in st.pods && st.pods[m].instance.Some?
      ensures ReadAssignment(st.pods[m].instance.value).Some? && !SamePlace(st.pods[m].instance.value, text)
    {
      assert m != n && Everyone(st)[m] == st.pods[m];
      assert Apart(Everyone(st)[m], Everyone(st)[n].instance.value);
      assert PodOk(st.devices, Everyone(st)[m]);
    }
    forall m | m in st.dynamicSmlu
      ensures ReadAssignment(st.profileAndInstance[m]).Some? && !SamePlace(st.profileAndInstance[m], text)
    {
      assert RecordOk(st, m);
      assert Apart(Everyone(st)[n], st.profileAndInstance[m]);
    }
  }

  lemma RecycleKeepsInv(st: State, n: Name, d: Drops)
    requires Inv(st) && n in st.gone
    ensures Inv(Recycle(st, st.gone[n], d))
  {
    hide DeviceOk, RecordOk, PodLive, ReadAssignment, RecycleProfile;
    var pod := st.gone[n];
    if pod.instance.Some? && pod.deleting && ReadHandle(pod.instance.value).Some? {
      GoneIsUnneeded(st, n);
      var a := ReadAssignment(pod.instance.value).value;
      var (profile, handle) := ReadHandle(pod.instance.value).value;
      SameReading(pod.instance.value);
      HandleInjective(a.instance, a.slot, a.instance, a.slot);
      HandleIsInt(a.instance, a.slot);
      if handle / 256 in st.devices[handle % 256].instances && d.instanceDropped {
        var dropped := DropInstance(st.devices[a.slot], a.instance);
        assert DeviceOk(st.devices[a.slot]);
        DropInstanceOk(st.devices[a.slot], a.instance);
        WithDeviceKeepsInv(st, a.slot, dropped, a.instance);
        RecycleProfileKeepsInv(WithDevice(st, a.slot, dropped), pod, profile, d);
      }
    }
  }

  /** The three readers of an annotation agree on what it names. */
  lemma SameReading(text: seq<byte>)
    requires ReadAssignment(text).Some?
    ensures
      var a := ReadAssignment(text).value;
      ReadHandle(text) == Some((a.profile, a.handle)) && ReadKept(text) == Some((a.profile, a.slot, a.instance))
  {
  }

  lemma RecycleProfileKeepsInv(st: State, pod: Pod, profile: int, d: Drops)
    requires Inv(st)
    ensures Inv(RecycleProfile(st, pod, profile, d))
  {
    hide DeviceOk, RecordOk, PodLive;
    if RequestOf(pod).Some? {
      var r := RequestOf(pod).value;
      if 0 <= r.slot < |st.devices| && ExistingProfile(st.devices[r.slot], d.profileListing, r).Some? {
        var dev := st.devices[r.slot];
        var p := ExistingProfile(dev, d.profileListing, r).value;
        DropProfileOk(dev, p);
        WithDeviceKeepsInv(st, r.slot, DropProfile(dev, p), -1);
      }
    }
  }

  // ----- collecting -----

  /** Sweeping only takes away, and keeps the books and every instance that an active pod's annotation names. */
  ghost predicate Swept(dev: Device, after: Device, pods: map<Name, Pod>, slot: nat) {
    && DeviceOk(after) && Shrinks(dev, after)
    && (forall i :: i in dev.instances && Keeps(pods, slot, i) ==>
          i in after.instances && after.instances[i] == dev.instances[i])
  }

  lemma {:induction false} SweepInstancesOk(dev: Device, ids: seq<nat>, pods: map<Name, Pod>, slot: nat,
                                            stuck: set<nat>)
    requires DeviceOk(dev)
    ensures Swept(dev, SweepInstances(dev, ids, pods, slot, stuck), pods, slot)
    decreases |ids|
  {
    hide DeviceOk, Keeps;
    if ids != [] {
      DropInstanceOk(dev, ids[0]);
      var next := if Keeps(pods, slot, ids[0]) || ids[0] in stuck then dev else DropInstance(dev, ids[0]);
      SweepInstancesOk(next, ids[1..], pods, slot, stuck);
    }
  }

  lemma {:induction false} SweepProfilesOk(dev: Device, ids: seq<nat>, pods: map<Name, Pod>, slot: nat, stuck: set<nat>)
    requires DeviceOk(dev)
    ensures Swept(dev, SweepProfiles(dev, ids, pods, slot, stuck), pods, slot)
    ensures SweepProfiles(dev, ids, pods, slot, stuck).instances == dev.instances
    decreases |ids|
  {
    hide DeviceOk, Keeps, KeepsProfile;
    if ids != [] {
      DropProfileOk(dev, ids[0]);
      var next := if KeepsProfile(pods, slot, ids[0]) || ids[0] in stuck then dev else DropProfile(dev, ids[0]);
      SweepProfilesOk(next, ids[1..], pods, slot, stuck);
    }
  }

  lemma SweepDeviceOk(dev: Device, pods: map<Name, Pod>, slot: nat, w: Sweep)
    requires DeviceOk(dev)
    ensures Swept(dev, SweepDevice(dev, pods, slot, w), pods, slot)
  {
    hide DeviceOk, Keeps, KeepsProfile, SweepInstances, SweepProfiles;
    SweepInstancesOk(dev, w.instances, pods, slot, w.stuckInstances);
    var swept := SweepInstances(dev, w.instances, pods, slot, w.stuckInstances);
    SweepProfilesOk(swept, w.profiles, pods, slot, w.stuckProfiles);
  }

  lemma {:induction false} SweepFromOk(devices: seq<Device>, pods: map<Name, Pod>, slot: nat, ws: seq<Sweep>)
    requires slot <= |devices| == |ws| && DevicesOk(devices)
    ensures
      var after := SweepFrom(devices, pods, slot, ws);
      DevicesOk(after) && forall t :: 0 <= t < |devices| ==> Swept(devices[t], after[t], pods, t)
    decreases |devices| - slot
  {
    hide DeviceOk, Keeps, SweepDevice;
    if slot < |devices| {
      SweepDeviceOk(devices[slot], pods, slot, ws[slot]);
      var next := devices[slot := SweepDevice(devices[slot], pods, slot, ws[slot])];
      SweepFromOk(next, pods, slot + 1, ws);
    }
  }

  /** What the invariant needs of the devices: the instances of active pods, and of a recorded pod that waits. */
  ghost predicate StillLive(st: State, devices: seq<Device>) {
    && (forall n :: n in st.pods ==> PodLive(devices, st.pods[n]))
    && (forall n :: n in st.dynamicSmlu && n in st.profileAndInstance && n in st.pods && st.pods[n].phase == Pending ==>
          Live(devices, st.profileAndInstance[n]))
  }

  /** Taking instances and profiles away keeps the invariant if and only if those stay. */
  lemma ShrinkKeepsInv(st: State, devices: seq<Device>)
    requires Inv(st) && |devices| == |st.devices| && DevicesOk(devices)
    requires forall t :: 0 <= t < |devices| ==> Shrinks(st.devices[t], devices[t])
    ensures Inv(st.(devices := devices)) <==> StillLive(st, devices)
  {
    hide DeviceOk, Fits, Apart, Shrinks;
    var after := st.(devices := devices);
    assert Everyone(after) == Everyone(st);
    forall t | 0 <= t < |devices|
      ensures Follows(st.devices[t], devices[t]) && st.devices[t].issued <= devices[t].issued
    {
      ShrinkingFollows(st.devices[t], devices[t]);
    }
    hide Follows;
    forall n | n in Everyone(st)
      ensures PodOk(devices, Everyone(st)[n])
    {
      assert PodOk(st.devices, Everyone(st)[n]);
      if Everyone(st)[n].instance.Some? {
        FitsStays(st.devices, devices, Everyone(st)[n], Everyone(st)[n].instance.value);
      }
    }
    forall n | n in st.dynamicSmlu
      ensures RecordOk(after, n) <==>
              (n in st.pods && st.pods[n].phase == Pending ==> Live(devices, st.profileAndInstance[n]))
    {
      assert RecordOk(st, n);
      FitsStays(st.devices, devices, Everyone(st)[n], st.profileAndInstance[n]);
    }
  }

  lemma ShrinkingFollows(d: Device, e: Device)
    requires Shrinks(d, e)
    ensures Follows(d, e) && e.issued == d.issued
  {
  }

  lemma CollectKeepsInv(st: State, ws: seq<Sweep>)
    requires Inv(st) && |ws| == |st.devices|
    ensures Inv(Collect(st, ws))
  {
    hide DevicesOk, PodOk, PodLive, Apart, Swept, SweepFrom, Live, Fits, WellNamed;
    if !Blocked(st.pods) {
      SweepFromOk(st.devices, st.pods, 0, ws);
      var devices := SweepFrom(st.devices, st.pods, 0, ws);
      forall t | 0 <= t < |devices|
        ensures Shrinks(st.devices[t], devices[t])
      {
        SweptShrinks(st.devices[t], devices[t], st.pods, t);
      }
      forall n | n in st.pods
        ensures PodLive(devices, st.pods[n])
      {
        CollectedLive(st, devices, n);
      }
      forall n | n in st.dynamicSmlu && n in st.pods
        ensures st.pods[n].phase != Pending
      {
        assert RecordOk(st, n) && Everyone(st)[n] == st.pods[n];
        assert !IsHandled(st.pods[n]);
      }
      ShrinkKeepsInv(st, devices);
    }
  }

  lemma SweptShrinks(dev: Device, after: Device, pods: map<Name, Pod>, slot: nat)
    requires Swept(dev, after, pods, slot)
    ensures Shrinks(dev, after)
  {
  }

  /** An instance that an active pod's annotation names is kept. */
  lemma CollectedLive(st: State, devices: seq<Device>, n: Name)
    requires Inv(st) && n in st.pods && |devices| == |st.devices|
    requires forall t :: 0 <= t < |devices| ==> Swept(st.devices[t], devices[t], st.pods, t)
    ensures PodLive(devices, st.pods[n])
  {
    hide DeviceOk, RecordOk, Apart, Fits, ReadAssignment, ReadKept;
    assert PodLive(st.devices, st.pods[n]);
    if IsActive(st.pods[n]) && st.pods[n].instance.Some? {
      var text := st.pods[n].instance.value;
      var a := ReadAssignment(text).value;
      assert PodOk(st.devices, Everyone(st)[n]);
      SameReading(text);
      assert Names(st.pods[n], a.slot, a.instance);
      assert Swept(st.devices[a.slot], devices[a.slot], st.pods, a.slot);
    }
  }

  // ----- the surroundings -----

  lemma ArriveKeepsInv(st: State, n: Name, pod: Pod)
    requires Inv(st) && Enabled(st, Arrive(n, pod))
    ensures Inv(st.(pods := st.pods[n := pod]))
  {
    hide DevicesOk, PodOk, PodLive, RecordOk, Apart;
    var after := st.(pods := st.pods[n := pod]);
    assert Everyone(after) == Everyone(st)[n := pod];
    BareStaysApart(Everyone(st), n, pod);
    BarePod(st.devices, pod);
    forall m | m in after.dynamicSmlu
      ensures RecordOk(after, m)
    {
      ArriveRecord(st, n, pod, m);
    }
  }

  /** A pod without an annotation has nothing to be wrong about. */
  lemma BarePod(devices: seq<Device>, pod: Pod)
    requires pod.instance.None?
    ensures PodOk(devices, pod) && PodLive(devices, pod)
  {
  }

  lemma BareStaysApart(people: map<Name, Pod>, n: Name, pod: Pod)
    requires forall m, k :: m in people && k in people && m != k && people[k].instance.Some? ==>
               Apart(people[m], people[k].instance.value)
    requires n !in people && pod.instance.None?
    ensures var after := people[n := pod];
            forall m, k :: m in after && k in after && m != k && after[k].instance.Some? ==>
              Apart(after[m], after[k].instance.value)
  {
    hide SamePlace;
  }

  lemma ArriveRecord(st: State, n: Name, pod: Pod, m: Name)
    requires n !in Everyone(st) && pod.instance.None?
    requires m in st.dynamicSmlu && m in st.profileAndInstance && RecordOk(st, m)
    ensures RecordOk(st.(pods := st.pods[n := pod]), m)
  {
    hide Fits, WellNamed, Live, SamePlace;
    var after := st.(pods := st.pods[n := pod]);
    assert Everyone(after) == Everyone(st)[n := pod];
    forall k | k in Everyone(after)
      ensures Apart(Everyone(after)[k], st.profileAndInstance[m])
    {
      assert k != n ==> Apart(Everyone(st)[k], st.profileAndInstance[m]);
    }
  }

  /** A pod changes in nothing but its phase or its deletion mark, or leaves. */
  ghost predicate PodChanged(st: State, n: Name, after: State) {
    && n in st.pods && n in Everyone(after)
    && after.devices == st.devices && after.dynamicSmlu == st.dynamicSmlu
    && after.profileAndInstance == st.profileAndInstance
    && st.pods.Keys !! st.gone.Keys && after.pods.Keys !! after.gone.Keys
    && after.pods.Keys + after.gone.Keys == st.pods.Keys + st.gone.Keys
    && (forall m :: m in Everyone(st) && m != n ==>
          Everyone(after)[m] == Everyone(st)[m] && (m in after.pods <==> m in st.pods))
    && (var was, now := st.pods[n], Everyone(after)[n]; now == was.(phase := now.phase, deleting := now.deleting))
    && (n in after.pods ==>
          && (IsActive(after.pods[n]) ==> IsActive(st.pods[n]))
          && (after.pods[n].phase == Pending ==> st.pods[n].phase == Pending))
  }

  lemma PodChange(st: State, n: Name, after: State)
    requires Inv(st) && PodChanged(st, n, after)
    ensures Inv(after)
  {
    hide DevicesOk, RecordOk, PodLive, IsActive, Apart, PodOk;
    assert Everyone(after).Keys == Everyone(st).Keys;
    assert Everyone(after)[n].instance == Everyone(st)[n].instance;
    InstancesStayApart(st, after);
    forall m | m in Everyone(after)
      ensures PodOk(after.devices, Everyone(after)[m])
    {
      PodChangeOk(st, n, after, m);
    }
    forall m | m in after.pods
      ensures PodLive(after.devices, after.pods[m])
    {
      PodChangeLive(st, n, after, m);
    }
    forall m | m in after.dynamicSmlu
      ensures RecordOk(after, m)
    {
      PodChangeRecord(st, n, after, m);
    }
  }

  lemma PodChangeOk(st: State, n: Name, after: State, m: Name)
    requires PodChanged(st, n, after) && m in Everyone(st) && PodOk(st.devices, Everyone(st)[m])
    ensures m in Everyone(after) && PodOk(after.devices, Everyone(after)[m])
  {
    hide WellNamed;
    assert Everyone(st)[n] == st.pods[n];
  }

  lemma PodChangeLive(st: State, n: Name, after: State, m: Name)
    requires PodChanged(st, n, after) && m in after.pods && (m in st.pods ==> PodLive(st.devices, st.pods[m]))
    ensures PodLive(after.devices, after.pods[m])
  {
    hide Live;
    assert m in Everyone(st);
    assert Everyone(after)[m] == after.pods[m];
    assert m in st.pods && Everyone(st)[m] == st.pods[m];
  }

  lemma PodChangeRecord(st: State, n: Name, after: State, m: Name)
    requires PodChanged(st, n, after) && m in st.dynamicSmlu && m in st.profileAndInstance && RecordOk(st, m)
    ensures RecordOk(after, m)
  {
    hide ReadAssignment, WellNamed, Live, SamePlace;
    assert Everyone(st)[n] == st.pods[n];
    forall k | k in Everyone(after)
      ensures Apart(Everyone(after)[k], st.profileAndInstance[m])
    {
      assert Apart(Everyone(st)[k], st.profileAndInstance[m]);
    }
    if m in after.pods {
      assert Everyone(after)[m] == after.pods[m] && Everyone(st)[m] == st.pods[m];
    }
  }

  lemma InstancesStayApart(st: State, after: State)
    requires forall n, m :: n in Everyone(st) && m in Everyone(st) && n != m && Everyone(st)[m].instance.Some? ==>
               Apart(Everyone(st)[n], Everyone(st)[m].instance.value)
    requires forall n :: n in Everyone(after) ==>
             n in Everyone(st) && Everyone(after)[n].instance == Everyone(st)[n].instance
    ensures forall n, m ::
              n in Everyone(after) && m in Everyone(after) && n != m && Everyone(after)[m].instance.Some? ==>
              Apart(Everyone(after)[n], Everyone(after)[m].instance.value)
  {
    hide Everyone, SamePlace;
    forall n, m | n in Everyone(after) && m in Everyone(after) && n != m && Everyone(after)[m].instance.Some?
      ensures Apart(Everyone(after)[n], Everyone(after)[m].instance.value)
    {
      assert Apart(Everyone(st)[n], Everyone(st)[m].instance.value);
    }
  }

  lemma MoveKeepsInv(st: State, n: Name, phase: Phase)
    requires Inv(st) && Enabled(st, Move(n, phase))
    ensures Inv(st.(pods := st.pods[n := st.pods[n].(phase := phase)]))
  {
    hide PodChanged, DevicesOk, RecordOk, PodLive, PodOk, Apart;
    MovingChanges(st, n, phase);
    PodChange(st, n, st.(pods := st.pods[n := st.pods[n].(phase := phase)]));
  }

  lemma MovingChanges(st: State, n: Name, phase: Phase)
    requires st.pods.Keys !! st.gone.Keys && Enabled(st, Move(n, phase))
    ensures PodChanged(st, n, st.(pods := st.pods[n := st.pods[n].(phase := phase)]))
  {
  }

  lemma RemoveKeepsInv(st: State, n: Name, deleting: bool)
    requires Inv(st) && Enabled(st, Remove(n, deleting))
    ensures Inv(st.(pods := st.pods - {n}, gone := st.gone[n := st.pods[n].(deleting := deleting)]))
  {
    hide PodChanged, DevicesOk, RecordOk, PodLive, PodOk, Apart;
    RemovingChanges(st, n, deleting);
    PodChange(st, n, st.(pods := st.pods - {n}, gone := st.gone[n := st.pods[n].(deleting := deleting)]));
  }

  lemma RemovingChanges(st: State, n: Name, deleting: bool)
    requires n in st.pods && st.pods.Keys !! st.gone.Keys
    ensures PodChanged(st, n, st.(pods := st.pods - {n}, gone := st.gone[n := st.pods[n].(deleting := deleting)]))
  {
    hide IsActive;
    MovesOver(st.pods, st.gone, n, st.pods[n].(deleting := deleting));
  }

  lemma MovesOver(pods: map<Name, Pod>, gone: map<Name, Pod>, n: Name, pod: Pod)
    requires n in pods && pods.Keys !! gone.Keys
    ensures (pods - {n}) + gone[n := pod] == (pods + gone)[n := pod]
    ensures (pods - {n}).Keys !! gone[n := pod].Keys
    ensures (pods - {n}).Keys + gone[n := pod].Keys == pods.Keys + gone.Keys
    ensures forall m :: m != n ==> (m in pods - {n} <==> m in pods)
  {
  }

  // ----- the main results -----

  /** Every enabled step keeps the invariant. */
  lemma StepKeepsInv(st: State, act: Action)
    requires Inv(st) && Enabled(st, act)
    ensures Inv(Next(st, act))
  {
    hide DeviceOk, RecordOk, PodLive, PodOk, Allocate, Recycle, Collect, ReadAssignment;
    match act
    case Arrive(n, pod) => ArriveKeepsInv(st, n, pod);
    case Move(n, phase) => MoveKeepsInv(st, n, phase);
    case Remove(n, deleting) => RemoveKeepsInv(st, n, deleting);
    case Call(a) => AllocateKeepsInv(st, a);
    case Recycled(n, drops) => RecycleKeepsInv(st, n, drops);
    case Collected(ws) => CollectKeepsInv(st, ws);
  }

}
