/** What calls and recyclings do, said by what the pods are and what the driver answers. */
module DsmluDecisions {
  import opened Annotation
  import opened Bytes
  import opened DsmluModel
  import opened DsmluProof
  import opened DsmluRuns
  import opened Options

  // ----- the candidate -----

  /** A pending pod with containers that ask for dynamic SMLU and with the mark "false". */
  predicate Assumed(pod: Pod) {
    pod.phase == Pending && pod.claims > 0 && pod.mark == Some([0x66, 0x61, 0x6C, 0x73, 0x65])
  }

  /** A pod is the candidate exactly if it is assumed, no other is, and one of its containers asks. */
  lemma CandidateIs(pods: map<Name, Pod>, n: Name)
    ensures Candidate(pods) == Some(n) <==>
            && n in pods && Assumed(pods[n]) && pods[n].claims == 1
            && forall m :: m in pods && m != n ==> !Assumed(pods[m])
  {
    if n in pods && Assumed(pods[n]) && pods[n].claims == 1 && forall m :: m in pods && m != n ==> !Assumed(pods[m]) {
      assert IsCandidate(pods, n);
    }
    if Candidate(pods) == Some(n) {
      assert IsCandidate(pods, n);
    }
  }

  /** A pod that is not assumed never matters to an allocation call. */
  lemma OtherPodsDoNotMatter(st: State, n: Name, a: Answers)
    requires |st.devices| <= 256 && n in st.pods && !Assumed(st.pods[n])
    ensures
      var (after, outcome) := Allocate(st, a);
      var (without, same) := Allocate(st.(pods := st.pods - {n}), a);
      && same == outcome && without.devices == after.devices
      && without.dynamicSmlu == after.dynamicSmlu && without.profileAndInstance == after.profileAndInstance
  {
    hide FirstCall, ReadRequest;
    var others := st.pods - {n};
    forall m
      ensures Candidate(others) == Some(m) <==> Candidate(st.pods) == Some(m)
    {
      CandidateIs(others, m);
      CandidateIs(st.pods, m);
      if m in others {
        assert forall k :: k in st.pods && k != m && k != n ==> k in others && others[k] == st.pods[k];
      }
    }
    assert Candidate(others).Some? ==> Candidate(st.pods) == Some(Candidate(others).value);
    if Candidate(st.pods).Some? {
      var m := Candidate(st.pods).value;
      CandidateIs(st.pods, m);
      assert m in others && others[m] == st.pods[m];
      if m !in st.dynamicSmlu && RequestOf(st.pods[m]).Some? && Askable(st, RequestOf(st.pods[m]).value) {
        FirstCallIgnoresPods(st, others, m, RequestOf(st.pods[m]).value, a);
      }
    }
  }

  lemma FirstCallIgnoresPods(st: State, others: map<Name, Pod>, n: Name, r: Request, a: Answers)
    requires Askable(st, r)
    ensures
      var (after, outcome) := FirstCall(st, n, r, a);
      FirstCall(st.(pods := others), n, r, a) == (after.(pods := others), outcome)
  {
    hide ChooseProfile, Lists, AssignmentText;
  }

  // ----- a first call -----

  /** The profile has, as 64-bit numbers, the quota and the bytes of memory that the request asks for. */
  predicate Equals(dev: Device, p: nat, r: Request) {
    && p in dev.profiles
    && dev.profiles[p].quota == r.vcore % 0x1_0000_0000_0000_0000
    && dev.profiles[p].memory == (r.vmemory * dev.memUnit * (1024 * 1024)) % 0x1_0000_0000_0000_0000
  }

  /** The listing shows at `k` the first such profile. */
  ghost predicate FirstEqual(dev: Device, ids: seq<nat>, r: Request, k: int) {
    0 <= k < |ids| && Equals(dev, ids[k], r) && forall j :: 0 <= j < k ==> !Equals(dev, ids[j], r)
  }

  lemma EqualsIs(dev: Device, p: nat, r: Request)
    requires p in dev.profiles
    ensures Equals(dev, p, r) <==> Recognised(dev.profiles[p], dev, r)
  {
  }

  lemma {:induction false} FoundIsFirst(dev: Device, ids: seq<nat>, r: Request)
    ensures FirstRecognised(dev, ids, r).None? <==> forall j :: 0 <= j < |ids| ==> !Equals(dev, ids[j], r)
    ensures FirstRecognised(dev, ids, r).Some? ==>
              exists k :: FirstEqual(dev, ids, r, k) && FirstRecognised(dev, ids, r) == Some(ids[k])
    decreases |ids|
  {
    hide Equals, Recognised;
    if ids != [] {
      if ids[0] in dev.profiles {
        EqualsIs(dev, ids[0], r);
      } else {
        assert !Equals(dev, ids[0], r) by { EqualsNeedsProfile(dev, ids[0], r); }
      }
      FoundIsFirst(dev, ids[1..], r);
      if Equals(dev, ids[0], r) {
        assert FirstEqual(dev, ids, r, 0);
      } else if FirstRecognised(dev, ids, r).Some? {
        var k :| FirstEqual(dev, ids[1..], r, k) && FirstRecognised(dev, ids[1..], r) == Some(ids[1..][k]);
        assert forall j :: 1 <= j < k + 1 ==> ids[j] == ids[1..][j - 1];
        assert FirstEqual(dev, ids, r, k + 1);
      } else {
        forall j | 0 <= j < |ids|
          ensures !Equals(dev, ids[j], r)
        {
          assert j > 0 ==> ids[j] == ids[1..][j - 1];
        }
      }
      if forall j :: 0 <= j < |ids| ==> !Equals(dev, ids[j], r) {
        assert forall j :: 0 <= j < |ids[1..]| ==> ids[1..][j] == ids[j + 1];
      }
    }
  }

  lemma EqualsNeedsProfile(dev: Device, p: nat, r: Request)
    ensures Equals(dev, p, r) ==> p in dev.profiles
  {
  }

  lemma OnlyOneFirst(dev: Device, ids: seq<nat>, r: Request, k: int, l: int)
    requires FirstEqual(dev, ids, r, k) && FirstEqual(dev, ids, r, l)
    ensures k == l
  {
    hide Equals;
  }

  /** The listing, if there is one, shows no equal profile. */
  ghost predicate ShowsNone(dev: Device, listing: Option<seq<nat>>, r: Request) {
    listing.Some? ==> forall j :: 0 <= j < |listing.value| ==> !Equals(dev, listing.value[j], r)
  }

  /** The first equal profile that the listing shows has room for one more. */
  ghost predicate ShowsRoom(dev: Device, listing: Option<seq<nat>>, r: Request) {
    listing.Some? &&
    exists k :: FirstEqual(dev, listing.value, r, k) && listing.value[k] in dev.profiles &&
                dev.profiles[listing.value[k]].remain >= 1
  }

  /** A profile with room is there or is created, and an instance of it is created. */
  ghost predicate MakesInstance(dev: Device, r: Request, a: Answers) {
    && a.instanceCreated
    && (ShowsRoom(dev, a.profileListing, r) ||
        (ShowsNone(dev, a.profileListing, r) && a.profileCreated && a.total >= 1))
  }

  lemma FoundByListing(dev: Device, listing: Option<seq<nat>>, r: Request)
    ensures
      var found := ExistingProfile(dev, listing, r);
      && (found.None? <==> ShowsNone(dev, listing, r))
      && (found.Some? && found.value in dev.profiles && dev.profiles[found.value].remain >= 1 <==>
            ShowsRoom(dev, listing, r))
  {
    hide Equals, Recognised, FirstRecognised;
    if listing.Some? {
      var ids := listing.value;
      FoundIsFirst(dev, ids, r);
      if FirstRecognised(dev, ids, r).Some? {
        var k :| FirstEqual(dev, ids, r, k) && FirstRecognised(dev, ids, r) == Some(ids[k]);
        forall l | FirstEqual(dev, ids, r, l)
          ensures l == k
        {
          OnlyOneFirst(dev, ids, r, k, l);
        }
      }
    }
  }

  /** The profiles after a choice: one more exactly if the listing shows no equal one and the driver makes it. */
  lemma ChoiceMakes(dev: Device, r: Request, a: Answers)
    requires a.newProfile !in dev.profiles
    ensures
      var (after, chosen) := ChooseProfile(dev, r, a);
      && (forall p :: p in after.profiles <==>
                      p in dev.profiles ||
                      (p == a.newProfile && a.profileCreated && ShowsNone(dev, a.profileListing, r)))
      && (a.profileCreated && ShowsNone(dev, a.profileListing, r) ==>
            after.profiles[a.newProfile] ==
            Profile(r.vcore % 0x1_0000_0000,
                    (r.vmemory * dev.memUnit * (1024 * 1024)) % 0x1_0000_0000_0000_0000, a.total, a.total))
      && after.instances == dev.instances
      && (Creates(dev, r, a) <==> MakesInstance(dev, r, a))
  {
    hide ExistingProfile, ShowsNone, ShowsRoom;
    FoundByListing(dev, a.profileListing, r);
    ExistsIfFound(dev, a.profileListing, r);
  }

  lemma ExistsIfFound(dev: Device, listing: Option<seq<nat>>, r: Request)
    ensures ExistingProfile(dev, listing, r).Some? ==> ExistingProfile(dev, listing, r).value in dev.profiles
  {
  }

  /** The new instance is listed. */
  predicate IsListed(a: Answers) {
    a.listing.Some? && exists k :: 0 <= k < |a.listing.value| && a.listing.value[k].instance == a.newInstance
  }

  lemma ListedByHandle(a: Answers, slot: nat)
    requires slot < 256
    ensures Lists(a.listing, slot, Handle(a.newInstance, slot)) <==> IsListed(a)
  {
    if a.listing.Some? {
      forall k | 0 <= k < |a.listing.value|
        ensures Handle(a.listing.value[k].instance, slot) == Handle(a.newInstance, slot) <==>
                a.listing.value[k].instance == a.newInstance
      {
        HandleInjective(a.listing.value[k].instance, slot, a.newInstance, slot);
      }
    }
  }

  /**
   The first call of the candidate `n` for the slot and size `r`: when it makes a profile, when an instance stays, when
   it succeeds, and what it records.
   */
  lemma WhatFirstCallDoes(st: State, n: Name, r: Request, a: Answers)
    requires |st.devices| <= 256 && Candidate(st.pods) == Some(n) && n !in st.dynamicSmlu
    requires RequestOf(st.pods[n]) == Some(r) && 0 <= r.slot < |st.devices| && DeviceOk(st.devices[r.slot])
    requires a.newProfile !in st.devices[r.slot].profiles && a.newProfile <= INT_MAX
    requires a.newInstance !in st.devices[r.slot].issued
    ensures
      var dev, made := st.devices[r.slot], MakesInstance(st.devices[r.slot], r, a);
      var (after, outcome) := Allocate(st, a);
      && |after.devices| == |st.devices| && after.pods == st.pods && after.gone == st.gone
      && (forall t :: 0 <= t < |st.devices| && t != r.slot ==> after.devices[t] == st.devices[t])
      && (forall p :: p in after.devices[r.slot].profiles <==>
                      p in dev.profiles ||
                      (p == a.newProfile && a.profileCreated && ShowsNone(dev, a.profileListing, r)))
      && (forall i :: i in after.devices[r.slot].instances <==>
                      i in dev.instances || (i == a.newInstance && made && (IsListed(a) || !a.destroyed)))
      && (outcome.Allocated? <==> made && IsListed(a) && r.slot in st.slots)
      && (outcome.Error? ==>
            after.dynamicSmlu == st.dynamicSmlu && after.profileAndInstance == st.profileAndInstance)
      && (outcome.Allocated? ==>
            && outcome.response == Response(r.slot, a.newInstance)
            && after.dynamicSmlu == map[n := outcome.response] && after.profileAndInstance.Keys == {n})
  {
    hide DeviceOk, ShowsNone, MakesInstance, IsListed, Lists, ReadRequest, Creates, Candidate;
    ListedByHandle(a, r.slot);
    ChoiceMakes(st.devices[r.slot], r, a);
    FirstCallShape(st, n, r, a);
    FirstCallProfiles(st, n, r, a);
  }

  /** After the choice a first call makes and destroys no profile, and keeps or records as it succeeds. */
  lemma FirstCallProfiles(st: State, n: Name, r: Request, a: Answers)
    requires Askable(st, r) && DeviceOk(st.devices[r.slot])
    requires a.newProfile !in st.devices[r.slot].profiles && a.newProfile <= INT_MAX
    ensures
      var (after, outcome) := FirstCall(st, n, r, a);
      var dev, chosen := st.devices[r.slot], ChooseProfile(st.devices[r.slot], r, a).0;
      && after.devices[r.slot].profiles.Keys == chosen.profiles.Keys
      && (outcome.Allocated? <==>
            Creates(dev, r, a) && Lists(a.listing, r.slot, Handle(a.newInstance, r.slot)) && r.slot in st.slots)
      && (outcome.Error? ==> after.profileAndInstance == st.profileAndInstance)
      && (outcome.Allocated? ==>
            outcome.response == Response(r.slot, a.newInstance) && after.profileAndInstance.Keys == {n})
  {
    hide DeviceOk, Lists, AssignmentText, ChooseProfile, AddInstance, DropInstance;
    var (chosen, p) := ChooseProfile(st.devices[r.slot], r, a);
    ChoosesPresent(st.devices[r.slot], r, a);
    if p.Some? {
      CountingKeepsProfiles(chosen, a.newInstance, p.value);
    }
  }

  lemma CountingKeepsProfiles(dev: Device, i: nat, p: nat)
    requires p in dev.profiles
    ensures AddInstance(dev, i, p).profiles.Keys == dev.profiles.Keys
    ensures DropInstance(AddInstance(dev, i, p), i).profiles.Keys == dev.profiles.Keys
  {
  }

  lemma ChoosesPresent(dev: Device, r: Request, a: Answers)
    ensures var (after, chosen) := ChooseProfile(dev, r, a);
            && (chosen.Some? ==> chosen.value in after.profiles)
            && (chosen.None? ==> after == dev)
  {
  }

  // ----- the other calls -----

  /** A request annotation is three integers joined by underscores. */
  lemma WhatARequestIs(pod: Pod, slot: int, vcore: int, vmemory: int)
    ensures RequestOf(pod) == Some(Request(slot, vcore, vmemory)) <==>
            pod.profile.Some? &&
            var v := Split(pod.profile.value, UNDERSCORE);
            |v| == 3 && Atoi(v[0]) == Some(slot) && Atoi(v[1]) == Some(vcore) && Atoi(v[2]) == Some(vmemory)
  {
  }

  /** A candidate without a readable request, or for a slot that is not there, is refused and nothing changes. */
  lemma WhatAnUnreadableRequestDoes(st: State, n: Name, a: Answers)
    requires |st.devices| <= 256 && Candidate(st.pods) == Some(n) && n !in st.dynamicSmlu
    requires RequestOf(st.pods[n]) == None || !(0 <= RequestOf(st.pods[n]).value.slot < |st.devices|)
    ensures Allocate(st, a) == (st, Error)
  {
  }

  /** Without a candidate, a call clears the record and changes nothing else. */
  lemma WhatACallWithoutCandidateDoes(st: State, a: Answers)
    requires |st.devices| <= 256
    requires forall n :: n in st.pods && Assumed(st.pods[n]) ==>
               st.pods[n].claims != 1 || exists m :: m in st.pods && m != n && Assumed(st.pods[m])
    ensures Allocate(st, a) == (st.(dynamicSmlu := map[], profileAndInstance := map[]), Error)
  {
    hide FirstCall, SecondCall;
    if Candidate(st.pods).Some? {
      CandidateIs(st.pods, Candidate(st.pods).value);
    }
  }

  /** The second call of a candidate: annotated and answered, or neither, and the record is cleared either way. */
  lemma WhatASecondCallDoes(st: State, n: Name, a: Answers)
    requires |st.devices| <= 256 && Candidate(st.pods) == Some(n)
    requires n in st.dynamicSmlu && n in st.profileAndInstance
    ensures
      var pod := st.pods[n].(mark := Some([0x74, 0x72, 0x75, 0x65]), instance := Some(st.profileAndInstance[n]));
      var clear := st.(dynamicSmlu := map[], profileAndInstance := map[]);
      Allocate(st, a) ==
      if a.patched then (clear.(pods := st.pods[n := pod]), Allocated(st.dynamicSmlu[n])) else (clear, Error)
  {
  }

  // ----- recycling -----

  /** The annotation has four parts, of which the first two are read as the profile and the handle. */
  predicate NamesHandle(text: seq<byte>, profile: int, handle: int) {
    var v := Split(text, UNDERSCORE);
    |v| == 4 && Atoi(v[0]) == Some(profile) && Atoi(v[1]) == Some(handle)
  }

  /** Go's conversion to C's `int` keeps the low 32 bits, as a signed number. */
  lemma NarrowIntWraps(n: int)
    ensures -0x8000_0000 <= NarrowInt(n) < 0x8000_0000 && (n - NarrowInt(n)) % 0x1_0000_0000 == 0
  {
  }

  /** A pod that is not being deleted, or has no annotation that can be read, is not recycled. */
  lemma NothingToRecycle(st: State, pod: Pod, d: Drops)
    requires !pod.deleting || pod.instance == None || forall p, h :: !NamesHandle(pod.instance.value, p, h)
    ensures Recycle(st, pod, d) == st
  {
    if pod.instance.Some? && ReadHandle(pod.instance.value).Some? {
      var (p, h) := ReadHandle(pod.instance.value).value;
      assert NamesHandle(pod.instance.value, p, h);
    }
  }

  /**
   A deleted pod whose annotation is read as profile `p` and handle `h`: its instance goes if it exists and the driver
   lets it go; otherwise nothing changes at all. The profile goes with it only if the pod's request can be read, names a
   slot, and the listing shows profile `p` first for it, with all its places left.
   */
  lemma WhatRecyclingDoes(st: State, pod: Pod, d: Drops, p: int, h: int)
    requires pod.deleting && pod.instance.Some? && NamesHandle(pod.instance.value, p, h)
    ensures
      var handle, after := NarrowInt(h), Recycle(st, pod, d);
      var slot, i := handle % 256, handle / 256;
      && after == st.(devices := after.devices) && |after.devices| == |st.devices|
      && if !(handle >= 0 && slot < |st.devices| && i in st.devices[slot].instances && d.instanceDropped) then
           after == st
         else
           && (forall t :: 0 <= t < |st.devices| ==>
                 after.devices[t].instances == st.devices[t].instances - if t == slot then {i} else {})
           && (forall t, q :: 0 <= t < |st.devices| ==>
                 (q in after.devices[t].profiles <==>
                    q in st.devices[t].profiles && !(q == p && LetsProfileGo(st, pod, d, p, t, slot, i))))
  {
    hide ReadHandle, ReadRequest, ExistingProfile, NarrowInt, LetsProfileGo;
    ReadsHandle(pod.instance.value, p, h);
    var handle := NarrowInt(h);
    var slot, i := handle % 256, handle / 256;
    if handle >= 0 && slot < |st.devices| && i in st.devices[slot].instances && d.instanceDropped {
      var dropped := WithDevice(st, slot, DropInstance(st.devices[slot], i));
      RecyclingTheProfile(st, dropped, pod, d, p, slot, i);
    }
  }

  lemma ReadsHandle(text: seq<byte>, p: int, h: int)
    requires NamesHandle(text, p, h)
    ensures ReadHandle(text) == Some((p, h))
  {
  }

  /** The request names slot `t`, whose listing shows `p` first, and `p` has all its places without the instance. */
  ghost predicate LetsProfileGo(st: State, pod: Pod, d: Drops, p: int, t: nat, slot: nat, i: nat)
    requires t < |st.devices|
  {
    var dev := if t == slot then DropInstance(st.devices[t], i) else st.devices[t];
    && RequestOf(pod).Some? && RequestOf(pod).value.slot == t && p >= 0 && d.profileDropped && d.profileListing.Some?
    && (exists k :: FirstEqual(dev, d.profileListing.value, RequestOf(pod).value, k) && d.profileListing.value[k] == p)
    && p in dev.profiles && dev.profiles[p].remain == dev.profiles[p].total && p !in dev.instances.Values
  }

  lemma RecyclingTheProfile(st: State, dropped: State, pod: Pod, d: Drops, p: int, slot: nat, i: nat)
    requires slot < |st.devices| && dropped == WithDevice(st, slot, DropInstance(st.devices[slot], i))
    ensures
      var after := RecycleProfile(dropped, pod, p, d);
      && after == st.(devices := after.devices) && |after.devices| == |st.devices|
      && (forall t :: 0 <= t < |st.devices| ==>
            after.devices[t].instances == st.devices[t].instances - if t == slot then {i} else {})
      && (forall t, q :: 0 <= t < |st.devices| ==>
            (q in after.devices[t].profiles <==>
               q in st.devices[t].profiles && !(q == p && LetsProfileGo(st, pod, d, p, t, slot, i))))
  {
    hide LetsProfileGo, RecycleProfile, DropInstance;
    DroppedOnly(st.devices[slot], i);
    if exists t :: 0 <= t < |st.devices| && LetsProfileGo(st, pod, d, p, t, slot, i) {
      var t :| 0 <= t < |st.devices| && LetsProfileGo(st, pod, d, p, t, slot, i);
      ProfileGoes(st, dropped, pod, d, p, t, slot, i);
    } else {
      ProfileStays(st, dropped, pod, d, p, slot, i);
    }
  }

  lemma DroppedOnly(dev: Device, i: nat)
    ensures DropInstance(dev, i).instances == dev.instances - {i}
    ensures DropInstance(dev, i).profiles.Keys == dev.profiles.Keys
  {
  }

  lemma ProfileGoes(st: State, dropped: State, pod: Pod, d: Drops, p: int, t: nat, slot: nat, i: nat)
    requires slot < |st.devices| && dropped == WithDevice(st, slot, DropInstance(st.devices[slot], i))
    requires t < |st.devices| && LetsProfileGo(st, pod, d, p, t, slot, i)
    ensures p >= 0 && RecycleProfile(dropped, pod, p, d) ==
                      WithDevice(dropped, t, dropped.devices[t].(profiles := dropped.devices[t].profiles - {p}))
    ensures forall u :: 0 <= u < |st.devices| && LetsProfileGo(st, pod, d, p, u, slot, i) ==> u == t
  {
    hide DropInstance, FirstEqual, FirstRecognised, ReadRequest;
    FirstIsFound(dropped.devices[t], d.profileListing.value, RequestOf(pod).value, p);
  }

  lemma ProfileStays(st: State, dropped: State, pod: Pod, d: Drops, p: int, slot: nat, i: nat)
    requires slot < |st.devices| && dropped == WithDevice(st, slot, DropInstance(st.devices[slot], i))
    requires forall t :: 0 <= t < |st.devices| ==> !LetsProfileGo(st, pod, d, p, t, slot, i)
    ensures RecycleProfile(dropped, pod, p, d) == dropped
  {
    hide DropInstance, FirstEqual, FirstRecognised, ReadRequest;
    if RequestOf(pod).Some? && 0 <= RequestOf(pod).value.slot < |st.devices| && d.profileListing.Some? {
      var t := RequestOf(pod).value.slot;
      var dev := dropped.devices[t];
      FirstIsFound(dev, d.profileListing.value, RequestOf(pod).value, p);
      assert !LetsProfileGo(st, pod, d, p, t, slot, i);
      assert dropped.devices[t := dev] == dropped.devices;
    }
  }

  lemma FirstIsFound(dev: Device, ids: seq<nat>, r: Request, p: int)
    ensures (exists k :: FirstEqual(dev, ids, r, k) && ids[k] == p) <==>
            FirstRecognised(dev, ids, r).Some? && FirstRecognised(dev, ids, r).value == p
  {
    hide Equals, FirstRecognised;
    FoundIsFirst(dev, ids, r);
    if FirstRecognised(dev, ids, r).Some? {
      var k :| FirstEqual(dev, ids, r, k) && FirstRecognised(dev, ids, r) == Some(ids[k]);
      forall l | FirstEqual(dev, ids, r, l)
        ensures l == k
      {
        OnlyOneFirst(dev, ids, r, k, l);
      }
    }
  }

  // ----- texts -----

  /** The annotations as they are written: "0_2_5" for slot 0, 2 cores and 5 units, "1_256_0_1" for its instance. */
  lemma AnnotationTexts()
    ensures RequestText(Request(0, 2, 5)) == [0x30, 0x5F, 0x32, 0x5F, 0x35]
    ensures AssignmentText(Assignment(1, 256, 0, 1)) == [0x31, 0x5F, 0x32, 0x35, 0x36, 0x5F, 0x30, 0x5F, 0x31]
  {
    assert NatText(256) == [0x32, 0x35, 0x36] by {
      assert NatText(25) == [0x32, 0x35] by { assert NatText(2) == [0x32]; }
    }
  }
}
