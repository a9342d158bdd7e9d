/** Which profiles the devices have: when there are two of one size, and which go with their last instance. */
module DsmluSizes {
  import opened Annotation
  import opened Bytes
  import opened DsmluModel
  import opened DsmluProof
  import opened DsmluRuns
  import opened Options

  // ----- one profile of each size -----

  ghost predicate OneOfEachSize(dev: Device) {
    forall p, q :: p in dev.profiles && q in dev.profiles && SameSize(dev.profiles[p], dev.profiles[q]) ==> p == q
  }

  ghost predicate SizesDiffer(devices: seq<Device>) { forall s :: 0 <= s < |devices| ==> OneOfEachSize(devices[s]) }

  /** A profile of `after` is one of `dev`, of the same size. */
  ghost predicate NoNewSize(dev: Device, after: Device) {
    forall p :: p in after.profiles ==> p in dev.profiles && SameSize(after.profiles[p], dev.profiles[p])
  }

  lemma SizesStay(dev: Device, after: Device)
    requires OneOfEachSize(dev) && NoNewSize(dev, after)
    ensures OneOfEachSize(after)
  {
    forall p, q | p in after.profiles && q in after.profiles && SameSize(after.profiles[p], after.profiles[q])
      ensures p == q
    {
      assert SameSize(dev.profiles[p], dev.profiles[q]);
    }
  }

  lemma AllSizesStay(devices: seq<Device>, after: seq<Device>)
    requires SizesDiffer(devices) && |after| == |devices|
    requires forall s :: 0 <= s < |devices| ==> NoNewSize(devices[s], after[s])
    ensures SizesDiffer(after)
  {
    hide OneOfEachSize, NoNewSize;
    forall s | 0 <= s < |after|
      ensures OneOfEachSize(after[s])
    {
      SizesStay(devices[s], after[s]);
    }
  }

  /**
   A call makes a second profile of one size: there is one of the size that the driver is asked for, and it is not
   recognised, since its quota does not fit an `unsigned int` or the listing does not show it.
   */
  ghost predicate Duplicates(dev: Device, r: Request, a: Answers) {
    a.profileCreated &&
    exists p :: p in dev.profiles && Granted(dev.profiles[p], dev, r) && !(FitsQuota(r) && Shows(a.profileListing, p))
  }

  /** The numbers of a request are Go `int`s. */
  predicate IsInt64(n: int) { INT64_MIN <= n <= INT64_MAX }

  lemma RequestIsInt64(pod: Pod)
    requires RequestOf(pod).Some?
    ensures IsInt64(RequestOf(pod).value.vcore)
  {
  }

  /** What the driver was asked for is recognised again exactly if the quota was not narrowed. */
  lemma RecognisedIfFits(info: Profile, dev: Device, r: Request)
    requires Granted(info, dev, r) && IsInt64(r.vcore)
    ensures Recognised(info, dev, r) <==> FitsQuota(r)
  {
    hide MemoryOf;
  }

  lemma GrantedIsOneSize(dev: Device, p: nat, q: nat, r: Request)
    requires OneOfEachSize(dev) && p in dev.profiles && q in dev.profiles
    requires Granted(dev.profiles[p], dev, r) && Granted(dev.profiles[q], dev, r)
    ensures p == q
  {
    hide MemoryOf;
    assert SameSize(dev.profiles[p], dev.profiles[q]);
  }

  /** Without two profiles of one size, the profile made for a request is found again exactly if it can be. */
  lemma FoundIfFits(dev: Device, listing: Option<seq<nat>>, r: Request, p: nat)
    requires DeviceOk(dev) && OneOfEachSize(dev) && IsInt64(r.vcore)
    requires p in dev.profiles && Granted(dev.profiles[p], dev, r)
    ensures ExistingProfile(dev, listing, r) == Some(p) <==> FitsQuota(r) && Shows(listing, p)
    ensures ExistingProfile(dev, listing, r).None? <==> !(FitsQuota(r) && Shows(listing, p))
  {
    hide DeviceOk, OneOfEachSize, Granted, Recognised;
    RecognisedIfFits(dev.profiles[p], dev, r);
    var found := ExistingProfile(dev, listing, r);
    if found.Some? {
      RecognisedIsGranted(dev, found.value, r);
      GrantedIsOneSize(dev, p, found.value, r);
    }
  }

  lemma ChoiceKeepsSizes(dev: Device, r: Request, a: Answers)
    requires DeviceOk(dev) && OneOfEachSize(dev) && IsInt64(r.vcore) && a.newProfile !in dev.profiles
    ensures OneOfEachSize(ChooseProfile(dev, r, a).0) <==> !Duplicates(dev, r, a)
  {
    hide DeviceOk, Granted, Recognised, AddProfile, OneOfEachSize;
    if p :| p in dev.profiles && Granted(dev.profiles[p], dev, r) {
      FoundIfFits(dev, a.profileListing, r, p);
      forall q | q in dev.profiles && Granted(dev.profiles[q], dev, r)
        ensures q == p
      {
        GrantedIsOneSize(dev, p, q, r);
      }
    } else if ExistingProfile(dev, a.profileListing, r).Some? {
      RecognisedIsGranted(dev, ExistingProfile(dev, a.profileListing, r).value, r);
    }
    if ExistingProfile(dev, a.profileListing, r).None? && a.profileCreated {
      AddedSize(dev, a.newProfile, r, a.total);
    }
  }

  /** A new profile is the only one of its size if there was none of that size. */
  lemma AddedSize(dev: Device, p: nat, r: Request, total: int)
    requires OneOfEachSize(dev) && p !in dev.profiles
    ensures OneOfEachSize(AddProfile(dev, p, r, total)) <==>
            forall q :: q in dev.profiles ==> !Granted(dev.profiles[q], dev, r)
  {
    hide MemoryOf;
    var after := AddProfile(dev, p, r, total);
    forall q | q in dev.profiles
      ensures SameSize(after.profiles[q], after.profiles[p]) <==> Granted(dev.profiles[q], dev, r)
    {
    }
    if forall q :: q in dev.profiles ==> !Granted(dev.profiles[q], dev, r) {
      forall q, t | q in after.profiles && t in after.profiles && SameSize(after.profiles[q], after.profiles[t])
        ensures q == t
      {
        assert q != p && t != p ==> SameSize(dev.profiles[q], dev.profiles[t]);
      }
    }
  }

  /** The rest of a first call counts profiles up and down only. */
  lemma FirstCallSizes(st: State, n: Name, r: Request, a: Answers)
    requires 0 <= r.slot < |st.devices| <= 256
    ensures
      var after, chosen := FirstCall(st, n, r, a).0.devices, ChooseProfile(st.devices[r.slot], r, a).0;
      && |after| == |st.devices| && NoNewSize(chosen, after[r.slot]) && NoNewSize(after[r.slot], chosen)
      && forall s :: 0 <= s < |st.devices| && s != r.slot ==> after[s] == st.devices[s]
  {
    hide Lists, AssignmentText, ChooseProfile, AddInstance, DropInstance, NoNewSize;
    var (chosen, p) := ChooseProfile(st.devices[r.slot], r, a);
    ChoosingNothing(st.devices[r.slot], r, a);
    SizesOfItself(chosen);
    if p.Some? && p.value in chosen.profiles {
      CountingIsNoSize(chosen, a.newInstance, p.value);
    }
  }

  lemma ChoosingNothing(dev: Device, r: Request, a: Answers)
    ensures ChooseProfile(dev, r, a).1.None? ==> ChooseProfile(dev, r, a).0 == dev
  {
  }

  lemma SizesOfItself(dev: Device)
    ensures NoNewSize(dev, dev)
  {
  }

  lemma CountingIsNoSize(dev: Device, i: nat, p: nat)
    requires p in dev.profiles
    ensures
      var made := AddInstance(dev, i, p);
      && NoNewSize(dev, made) && NoNewSize(made, dev)
      && NoNewSize(dev, DropInstance(made, i)) && NoNewSize(DropInstance(made, i), dev)
  {
  }

  /** The call of pod `n` asks for a profile for `r`. */
  ghost predicate AsksFor(st: State, n: Name, r: Request) {
    && Candidate(st.pods) == Some(n) && n !in st.dynamicSmlu
    && RequestOf(st.pods[n]) == Some(r) && 0 <= r.slot < |st.devices|
  }

  /** The step makes a second profile of one size. */
  ghost predicate StepDuplicates(st: State, act: Action) {
    act.Call? && exists n, r :: AsksFor(st, n, r) && Duplicates(st.devices[r.slot], r, act.answers)
  }

  lemma CallKeepsSizes(st: State, a: Answers)
    requires Inv(st) && Enabled(st, Call(a)) && SizesDiffer(st.devices)
    ensures SizesDiffer(Allocate(st, a).0.devices) <==> !StepDuplicates(st, Call(a))
  {
    hide RecordOk, PodOk, PodLive, Apart, DeviceOk, FirstCall, ReadRequest, Duplicates, OneOfEachSize, Granted;
    if n, r :| AsksFor(st, n, r) {
      assert DeviceOk(st.devices[r.slot]);
      RequestIsInt64(st.pods[n]);
      ChoiceKeepsSizes(st.devices[r.slot], r, a);
      FirstCallSizes(st, n, r, a);
      var after, chosen := Allocate(st, a).0.devices, ChooseProfile(st.devices[r.slot], r, a).0;
      assert Allocate(st, a) == FirstCall(st, n, r, a);
      if OneOfEachSize(chosen) {
        SizesStay(chosen, after[r.slot]);
      }
      if OneOfEachSize(after[r.slot]) {
        SizesStay(after[r.slot], chosen);
      }
      assert StepDuplicates(st, Call(a)) <==> Duplicates(st.devices[r.slot], r, a) by {
        hide SizesDiffer;
      }
    } else {
      assert Allocate(st, a).0.devices == st.devices by {
        if Candidate(st.pods).Some? && RequestOf(st.pods[Candidate(st.pods).value]).Some? {
          var n := Candidate(st.pods).value;
          assert !AsksFor(st, n, RequestOf(st.pods[n]).value);
        }
      }
    }
  }

  lemma RecyclingAddsNoSize(st: State, pod: Pod, d: Drops)
    ensures |Recycle(st, pod, d).devices| == |st.devices|
    ensures forall s :: 0 <= s < |st.devices| ==> NoNewSize(st.devices[s], Recycle(st, pod, d).devices[s])
  {
    hide ReadHandle, ReadRequest, ExistingProfile;
  }

  /** An enabled step leaves no two profiles of one size, where there were none, unless it duplicates one. */
  lemma StepKeepsSizes(st: State, act: Action)
    requires Inv(st) && Enabled(st, act) && SizesDiffer(st.devices)
    ensures |st.devices| <= 256 && (SizesDiffer(Next(st, act).devices) <==> !StepDuplicates(st, act))
  {
    hide RecordOk, PodOk, PodLive, Apart, DeviceOk, Allocate, Recycle, OneOfEachSize, Collect;
    match act
    case Call(a) => CallKeepsSizes(st, a);
    case Recycled(n, d) =>
      RecyclingAddsNoSize(st, st.gone[n], d);
      AllSizesStay(st.devices, Next(st, act).devices);
    case Collected(ws) => CollectingKeepsSizes(st, ws);
    case _ =>
  }

  lemma CollectingKeepsSizes(st: State, ws: seq<Sweep>)
    requires DevicesOk(st.devices) && |ws| == |st.devices| && SizesDiffer(st.devices)
    ensures SizesDiffer(Collect(st, ws).devices)
  {
    hide DeviceOk, OneOfEachSize, Keeps;
    if !Blocked(st.pods) {
      SweepFromOk(st.devices, st.pods, 0, ws);
      forall s | 0 <= s < |st.devices|
        ensures NoNewSize(st.devices[s], Collect(st, ws).devices[s])
      {
        assert Swept(st.devices[s], Collect(st, ws).devices[s], st.pods, s);
      }
      AllSizesStay(st.devices, Collect(st, ws).devices);
    }
  }

  /** Along a run no slot ever has two profiles of one size if and only if no step duplicates one. */
  lemma {:induction false} SizesAlong(states: seq<State>, acts: seq<Action>, k: nat)
    requires Run(states, acts) && k < |states| && SizesDiffer(states[0].devices)
    ensures (forall j :: 0 <= j <= k ==> SizesDiffer(states[j].devices)) <==>
            (forall j :: 0 <= j < k ==> !StepDuplicates(states[j], acts[j]))
  {
    hide Inv, Safe, SizesDiffer, StepDuplicates, Enabled, Next;
    if k > 0 {
      SizesAlong(states, acts, k - 1);
      EveryRunIsSafe(states, acts, k - 1);
      assert RunStep(states[k - 1], acts[k - 1], states[k]);
      if SizesDiffer(states[k - 1].devices) {
        StepKeepsSizes(states[k - 1], acts[k - 1]);
      }
    }
  }

  // ----- profiles that go -----

  /** As long as it exists, the instance of a pod that is gone is still what was asked for. */
  lemma GoneHasInstance(st: State, n: Name)
    requires Inv(st) && n in st.gone && st.gone[n].instance.Some? && Exists(st, Named(st.gone[n].instance.value))
    ensures HasInstance(st.devices, st.gone[n])
  {
    hide DeviceOk, ReadAssignment, ReadRequest, Apart;
    assert Everyone(st)[n] == st.gone[n];
    assert PodOk(st.devices, Everyone(st)[n]);
  }

  ghost predicate Exists(st: State, place: (int, int)) {
    0 <= place.0 < |st.devices| && place.1 in st.devices[place.0].instances
  }

  /** Recycling lets the profile of the instance go, if the driver does and no other instance uses it. */
  ghost predicate Frees(dev: Device, a: Assignment, d: Drops) {
    d.profileDropped && a.profile >= 0 && Users(dev, a.profile) == {a.instance}
  }

  /**
   The profile of a recycled instance goes exactly when no other instance uses it, the driver lets it go, and it is the
   profile that the listing shows for the request. Where no two profiles have one size that means that the listing shows
   it and that the quota fits an `unsigned int`. Every other profile stays.
   */
  lemma RecycleFreesUnusedProfile(st: State, n: Name, d: Drops)
    requires Inv(st) && n in st.gone && st.gone[n].instance.Some? && st.gone[n].deleting && d.instanceDropped
    requires Exists(st, Named(st.gone[n].instance.value))
    ensures HasInstance(st.devices, st.gone[n])
    ensures
      var a, r := ReadAssignment(st.gone[n].instance.value).value, RequestOf(st.gone[n]).value;
      var dev, after := st.devices[a.slot], Recycle(st, st.gone[n], d).devices[a.slot];
      && (a.profile in after.profiles <==>
            !(Frees(dev, a, d) && ExistingProfile(dev, d.profileListing, r) == Some(a.profile)))
      && (OneOfEachSize(dev) ==>
            (a.profile in after.profiles <==>
               !(Frees(dev, a, d) && FitsQuota(r) && Shows(d.profileListing, a.profile))))
      && (!FitsQuota(r) ==> a.profile in after.profiles)
      && (forall p :: p != a.profile ==> (p in after.profiles <==> p in dev.profiles))
  {
    hide RecordOk, PodLive, ReadAssignment, ReadHandle, Users, RequestOf, DeviceOk, ExistingProfile, Granted;
    GoneHasInstance(st, n);
    GoneIsUnneeded(st, n);
    var a := ReadAssignment(st.gone[n].instance.value).value;
    SameReading(st.gone[n].instance.value);
    HandleInjective(a.instance, a.slot, a.instance, a.slot);
    HandleIsInt(a.instance, a.slot);
    var r := RequestOf(st.gone[n]).value;
    var dev := st.devices[r.slot];
    assert DeviceOk(dev);
    DropInstanceOk(dev, a.instance);
    DroppedProfile(dev, a.instance, d.profileListing, r);
    RequestIsInt64(st.gone[n]);
    if OneOfEachSize(dev) {
      FoundIfFits(dev, d.profileListing, r, a.profile);
    }
    if !FitsQuota(r) {
      WideIsNotFound(dev, d.profileListing, r, a.profile);
    }
  }

  /** A quota that was narrowed is not recognised again, whatever else there is. */
  lemma WideIsNotFound(dev: Device, listing: Option<seq<nat>>, r: Request, p: nat)
    requires p in dev.profiles && Granted(dev.profiles[p], dev, r) && IsInt64(r.vcore) && !FitsQuota(r)
    ensures ExistingProfile(dev, listing, r) != Some(p)
  {
    RecognisedIfFits(dev.profiles[p], dev, r);
  }

  /** What a listing shows for a request depends on the sizes only. */
  lemma {:induction false} SameFound(dev: Device, after: Device, ids: seq<nat>, r: Request)
    requires after.profiles.Keys == dev.profiles.Keys && after.memUnit == dev.memUnit
    requires forall p :: p in dev.profiles ==> SameSize(after.profiles[p], dev.profiles[p])
    ensures FirstRecognised(after, ids, r) == FirstRecognised(dev, ids, r)
    decreases |ids|
  {
    hide MemoryOf;
    assert MemoryOf(after, r) == MemoryOf(dev, r) by { SameMemory(dev, after, r); }
    if ids != [] {
      SameFound(dev, after, ids[1..], r);
    }
  }

  lemma SameMemory(dev: Device, after: Device, r: Request)
    requires after.memUnit == dev.memUnit
    ensures MemoryOf(after, r) == MemoryOf(dev, r)
  {
  }

  /** After an instance is gone, a listing shows the same for a request; its profile is idle if it was the last. */
  lemma DroppedProfile(dev: Device, i: nat, listing: Option<seq<nat>>, r: Request)
    requires DeviceOk(dev) && i in dev.instances
    ensures
      var p, dropped := dev.instances[i], DropInstance(dev, i);
      && ExistingProfile(dropped, listing, r) == ExistingProfile(dev, listing, r)
      && p in dropped.profiles && dropped.profiles.Keys == dev.profiles.Keys
      && (dropped.profiles[p].remain == dropped.profiles[p].total <==> Users(dev, p) == {i})
      && (Users(dev, p) == {i} <==> p !in dropped.instances.Values)
  {
    hide Users, FirstRecognised;
    var p, dropped := dev.instances[i], DropInstance(dev, i);
    DropInstanceOk(dev, i);
    if listing.Some? {
      SameFound(dev, dropped, listing.value, r);
    }
    UsersDropped(dev, i, p);
    UsersInUse(dropped, p);
    assert dropped.profiles[p].total - dropped.profiles[p].remain == |Users(dropped, p)|;
    assert Users(dev, p) == {i} <==> Users(dropped, p) == {};
  }

  lemma UsersInUse(dev: Device, p: nat)
    ensures Users(dev, p) == {} <==> p !in dev.instances.Values
  {
    if p in dev.instances.Values {
      var i :| i in dev.instances && dev.instances[i] == p;
      assert i in Users(dev, p);
    }
  }

  // ----- a quota that does not fit -----

  /** After the two calls of pod `n`, with the answers `a` and `b`, pod `m` arrives with the same request. */
  ghost function SecondArrival(dev: Device, slots: set<nat>, n: Name, r: Request, a: Answers, b: Answers, m: Name)
    : (st: State)
    requires Idle(dev) && FitsInt(r) && Willing(dev, a) && 0 in slots && Lists(a.listing, 0, Handle(a.newInstance, 0))
  {
    var prepared := Allocate(Start(dev, slots, n, r), a).0;
    IdleDeviceServes(dev, slots, n, r, a);
    InvBounds(prepared);
    var served := Allocate(prepared, b).0;
    served.(pods := served.pods[m := WaitingPod(r)])
  }

  lemma SecondArrivalIsReached(dev: Device, slots: set<nat>, n: Name, r: Request, a: Answers, b: Answers, m: Name)
    requires Idle(dev) && FitsInt(r) && Willing(dev, a) && 0 in slots && Lists(a.listing, 0, Handle(a.newInstance, 0))
    requires m != n && b.patched && Willing(Allocate(Start(dev, slots, n, r), a).0.devices[0], b)
    ensures
      var st := SecondArrival(dev, slots, n, r, a, b, m);
      && Reachable(st) && Inv(st) && Enabled(st, Call(b)) && AsksFor(st, m, r)
      && |st.devices| == 1 && st.devices[0].profiles.Keys == {a.newProfile} && st.devices[0].memUnit == dev.memUnit
      && Granted(st.devices[0].profiles[a.newProfile], st.devices[0], r)
      && n in st.pods && HasInstance(st.devices, st.pods[n])
      && ReadAssignment(st.pods[n].instance.value).value.profile == a.newProfile
  {
    hide RequestText, ReadRequest, ReadAssignment, Inv, Lists, HasRoom, Matches, FitsDriver, MemoryOf;
    var prepared := Allocate(Start(dev, slots, n, r), a).0;
    IdleDeviceServes(dev, slots, n, r, a);
    WaitingIsCandidate(prepared.pods, n, r);
    InvBounds(prepared);
    SecondCallCompletes(prepared, n, b);
    ReachableNext(prepared, Call(b));
    var served := Allocate(prepared, b).0;
    ReachableNext(served, Arrive(m, WaitingPod(r)));
    var st := SecondArrival(dev, slots, n, r, a, b, m);
    ReachableIsInv(st);
    WaitingIsCandidate(map[m := WaitingPod(r)], m, r);
    assert !IsAssumed(st.pods[n]) by { assert FALSE_TEXT[0] != TRUE_TEXT[0]; }
    assert IsCandidate(st.pods, m);
  }

  /**
   A quota that does not fit an `unsigned int`: the first pod is annotated with an instance that does not have the quota
   it asked for, and for a second pod with the same request the driver makes another profile of the same size.
   */
  lemma WideQuotaDuplicates(dev: Device, slots: set<nat>, n: Name, r: Request, a: Answers, b: Answers, m: Name)
    requires Idle(dev) && FitsInt(r) && Willing(dev, a) && 0 in slots && Lists(a.listing, 0, Handle(a.newInstance, 0))
    requires m != n && b.patched && Willing(Allocate(Start(dev, slots, n, r), a).0.devices[0], b)
    requires !FitsQuota(r)
    ensures
      var st := SecondArrival(dev, slots, n, r, a, b, m);
      && Reachable(st) && Enabled(st, Call(b)) && |st.devices| == 1 && a.newProfile in st.devices[0].profiles
      && n in st.pods && HasInstance(st.devices, st.pods[n])
      && ReadAssignment(st.pods[n].instance.value).value.profile == a.newProfile
      && st.devices[0].profiles[a.newProfile].quota == r.vcore % UINT_SIZE != r.vcore
      && SizesDiffer(st.devices) && StepDuplicates(st, Call(b)) && !SizesDiffer(Next(st, Call(b)).devices)
  {
    hide Inv, Enabled, HasInstance, ReadAssignment, Candidate, RequestOf, SecondArrival, Lists, Next, MemoryOf;
    SecondArrivalIsReached(dev, slots, n, r, a, b, m);
    var st := SecondArrival(dev, slots, n, r, a, b, m);
    assert AsksFor(st, m, r);
    StepKeepsSizes(st, Call(b));
  }

  /** In particular 5 cores more than an `unsigned int` can hold are granted as 5. */
  lemma FiveCoresGranted(dev: Device, slots: set<nat>, n: Name, a: Answers, b: Answers, m: Name)
    requires Idle(dev) && Willing(dev, a) && 0 in slots && Lists(a.listing, 0, Handle(a.newInstance, 0))
    requires m != n && b.patched
    requires Willing(Allocate(Start(dev, slots, n, Request(0, 4294967301, 1)), a).0.devices[0], b)
    ensures
      var st := SecondArrival(dev, slots, n, Request(0, 4294967301, 1), a, b, m);
      && Reachable(st) && |st.devices| == 1 && a.newProfile in st.devices[0].profiles
      && st.devices[0].profiles[a.newProfile].quota == 5 && StepDuplicates(st, Call(b))
  {
    hide HasInstance, Willing, SecondArrival, Lists, StepDuplicates, SizesDiffer;
    WideQuotaDuplicates(dev, slots, n, Request(0, 4294967301, 1), a, b, m);
  }
}
