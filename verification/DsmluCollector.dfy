/** What a collection does, said by what the pods are and what the driver answers. */
module DsmluCollector {
  import opened Annotation
  import opened Bytes
  import opened DsmluModel
  import opened DsmluProof
  import opened DsmluRuns
  import opened Options

  // ----- the pods that matter -----

  /** Without the profile annotation, or neither pending nor running. */
  predicate Foreign(pod: Pod) { pod.profile == None || !(pod.phase == Pending || pod.phase == Running) }

  /** The annotation has four parts and is read as naming the profile, the slot and the instance. */
  predicate NamesTriple(text: seq<byte>, profile: int, slot: int, instance: int) {
    var v := Split(text, UNDERSCORE);
    |v| == 4 && Atoi(v[0]) == Some(profile) && Atoi(v[2]) == Some(slot) && Atoi(v[3]) == Some(instance)
  }

  /** A pending or running pod that uses dynamic SMLU is annotated with the triple. */
  ghost predicate InUse(pods: map<Name, Pod>, profile: int, slot: int, instance: int) {
    exists n :: n in pods && !Foreign(pods[n]) && pods[n].instance.Some? &&
                NamesTriple(pods[n].instance.value, profile, slot, instance)
  }

  ghost predicate InstanceInUse(pods: map<Name, Pod>, slot: int, instance: int) {
    exists profile :: InUse(pods, profile, slot, instance)
  }

  ghost predicate ProfileInUse(pods: map<Name, Pod>, slot: int, profile: int) {
    exists instance :: InUse(pods, profile, slot, instance)
  }

  /** A pending pod that uses dynamic SMLU has no instance yet. */
  ghost predicate SomeoneWaits(pods: map<Name, Pod>) {
    exists n :: n in pods && pods[n].profile != None && pods[n].phase == Pending && pods[n].instance == None
  }

  lemma WaitingHolds(pods: map<Name, Pod>)
    ensures Blocked(pods) <==> SomeoneWaits(pods)
  {
    if n :| n in pods && pods[n].profile != None && pods[n].phase == Pending && pods[n].instance == None {
      assert IsHandled(pods[n]);
    }
  }

  lemma KeptIsInUse(pods: map<Name, Pod>, slot: int, x: int)
    ensures Keeps(pods, slot, x) <==> InstanceInUse(pods, slot, x)
    ensures KeepsProfile(pods, slot, x) <==> ProfileInUse(pods, slot, x)
  {
    forall n | n in pods
      ensures Names(pods[n], slot, x) <==>
              exists p :: !Foreign(pods[n]) && pods[n].instance.Some? && NamesTriple(pods[n].instance.value, p, slot, x)
      ensures NamesProfile(pods[n], slot, x) <==>
              exists i :: !Foreign(pods[n]) && pods[n].instance.Some? && NamesTriple(pods[n].instance.value, x, slot, i)
    {
      ReadsTriple(pods[n], slot, x);
    }
    if n :| n in pods && Names(pods[n], slot, x) {
      var p :| NamesTriple(pods[n].instance.value, p, slot, x);
      assert InUse(pods, p, slot, x);
    }
    if n :| n in pods && NamesProfile(pods[n], slot, x) {
      var i :| NamesTriple(pods[n].instance.value, x, slot, i);
      assert InUse(pods, x, slot, i);
    }
  }

  lemma ReadsTriple(pod: Pod, slot: int, x: int)
    ensures Names(pod, slot, x) <==>
            exists p :: !Foreign(pod) && pod.instance.Some? && NamesTriple(pod.instance.value, p, slot, x)
    ensures NamesProfile(pod, slot, x) <==>
            exists i :: !Foreign(pod) && pod.instance.Some? && NamesTriple(pod.instance.value, x, slot, i)
  {
    if pod.instance.Some? && ReadKept(pod.instance.value).Some? {
      var (p, s, i) := ReadKept(pod.instance.value).value;
      assert NamesTriple(pod.instance.value, p, s, i);
    }
  }

  // ----- foreign pods -----

  lemma {:induction false} SameInstances(dev: Device, ids: seq<nat>, pods: map<Name, Pod>, others: map<Name, Pod>,
                                         slot: nat, stuck: set<nat>)
    requires forall i :: Keeps(pods, slot, i) <==> Keeps(others, slot, i)
    ensures SweepInstances(dev, ids, pods, slot, stuck) == SweepInstances(dev, ids, others, slot, stuck)
    decreases |ids|
  {
    hide Keeps;
    if ids != [] {
      var next := if Keeps(pods, slot, ids[0]) || ids[0] in stuck then dev else DropInstance(dev, ids[0]);
      SameInstances(next, ids[1..], pods, others, slot, stuck);
    }
  }

  lemma {:induction false} SameProfiles(dev: Device, ids: seq<nat>, pods: map<Name, Pod>, others: map<Name, Pod>,
                                        slot: nat, stuck: set<nat>)
    requires forall p :: KeepsProfile(pods, slot, p) <==> KeepsProfile(others, slot, p)
    ensures SweepProfiles(dev, ids, pods, slot, stuck) == SweepProfiles(dev, ids, others, slot, stuck)
    decreases |ids|
  {
    hide KeepsProfile;
    if ids != [] {
      var next := if KeepsProfile(pods, slot, ids[0]) || ids[0] in stuck then dev else DropProfile(dev, ids[0]);
      SameProfiles(next, ids[1..], pods, others, slot, stuck);
    }
  }

  lemma {:induction false} SameSweep(devices: seq<Device>, pods: map<Name, Pod>, others: map<Name, Pod>, slot: nat,
                                     ws: seq<Sweep>)
    requires slot <= |devices| == |ws|
    requires forall s, i :: Keeps(pods, s, i) <==> Keeps(others, s, i)
    requires forall s, p :: KeepsProfile(pods, s, p) <==> KeepsProfile(others, s, p)
    ensures SweepFrom(devices, pods, slot, ws) == SweepFrom(devices, others, slot, ws)
    decreases |devices| - slot
  {
    hide Keeps, KeepsProfile, SweepInstances, SweepProfiles;
    if slot < |devices| {
      var w := ws[slot];
      SameInstances(devices[slot], w.instances, pods, others, slot, w.stuckInstances);
      var swept := SweepInstances(devices[slot], w.instances, pods, slot, w.stuckInstances);
      SameProfiles(swept, w.profiles, pods, others, slot, w.stuckProfiles);
      SameSweep(devices[slot := SweepDevice(devices[slot], pods, slot, w)], pods, others, slot + 1, ws);
    }
  }

  /** A pod that does not use dynamic SMLU, or is neither pending nor running, never matters to a collection. */
  lemma ForeignPodsDoNotMatter(st: State, n: Name, ws: seq<Sweep>)
    requires |ws| == |st.devices| && n in st.pods
    requires st.pods[n].profile == None || !(st.pods[n].phase == Pending || st.pods[n].phase == Running)
    ensures Collect(st.(pods := st.pods - {n}), ws).devices == Collect(st, ws).devices
  {
    hide InUse, SweepFrom, Keeps, KeepsProfile, NamesTriple;
    var others := st.pods - {n};
    WaitingHolds(st.pods);
    WaitingHolds(others);
    assert SomeoneWaits(st.pods) <==> SomeoneWaits(others) by {
      if m :| m in st.pods && st.pods[m].profile != None && st.pods[m].phase == Pending && st.pods[m].instance == None {
        assert m in others && others[m] == st.pods[m];
      }
    }
    forall s, x
      ensures Keeps(st.pods, s, x) <==> Keeps(others, s, x)
      ensures KeepsProfile(st.pods, s, x) <==> KeepsProfile(others, s, x)
    {
      KeptIsInUse(st.pods, s, x);
      KeptIsInUse(others, s, x);
      forall p, i
        ensures InUse(st.pods, p, s, i) <==> InUse(others, p, s, i)
      {
        WithoutForeign(st.pods, n, p, s, i);
      }
    }
    SameSweep(st.devices, st.pods, others, 0, ws);
  }

  lemma WithoutForeign(pods: map<Name, Pod>, n: Name, profile: int, slot: int, instance: int)
    requires n in pods && Foreign(pods[n])
    ensures InUse(pods, profile, slot, instance) <==> InUse(pods - {n}, profile, slot, instance)
  {
    hide NamesTriple;
    if m :| m in pods && !Foreign(pods[m]) && pods[m].instance.Some? &&
            NamesTriple(pods[m].instance.value, profile, slot, instance) {
      assert m in pods - {n} && (pods - {n})[m] == pods[m];
    }
  }

  // ----- what goes, faults included -----

  /** A listing that fails on an enabled slot ends the collection there. */
  ghost predicate EndsAt(dev: Device, w: Sweep) {
    dev.enabled && w.modeRead && !(w.instancesRead && w.profilesRead)
  }

  /** The collection gets as far as the instances of slot `s`. */
  ghost predicate Reaches(st: State, ws: seq<Sweep>, s: nat)
    requires s < |st.devices| == |ws|
  {
    && !SomeoneWaits(st.pods)
    && (forall t :: 0 <= t < s ==> !EndsAt(st.devices[t], ws[t]))
    && st.devices[s].enabled && ws[s].modeRead && ws[s].instancesRead
  }

  lemma {:induction false} InstancesGone(dev: Device, ids: seq<nat>, pods: map<Name, Pod>, slot: nat, stuck: set<nat>)
    ensures
      var after := SweepInstances(dev, ids, pods, slot, stuck);
      && (forall i :: i in after.instances <==>
                      i in dev.instances && !(i in ids && i !in stuck && !Keeps(pods, slot, i)))
      && (forall i :: i in after.instances ==> after.instances[i] == dev.instances[i])
      && after.profiles.Keys == dev.profiles.Keys
      && after.enabled == dev.enabled && after.issued == dev.issued && after.memUnit == dev.memUnit
    decreases |ids|
  {
    hide Keeps;
    if ids != [] {
      var next := if Keeps(pods, slot, ids[0]) || ids[0] in stuck then dev else DropInstance(dev, ids[0]);
      InstancesGone(next, ids[1..], pods, slot, stuck);
      assert ids == [ids[0]] + ids[1..];
    }
  }

  lemma {:induction false} ProfilesGone(dev: Device, ids: seq<nat>, pods: map<Name, Pod>, slot: nat, stuck: set<nat>)
    ensures
      var after := SweepProfiles(dev, ids, pods, slot, stuck);
      && after == dev.(profiles := after.profiles)
      && (forall p :: p in after.profiles <==>
                      p in dev.profiles &&
                      !(p in ids && p !in stuck && !KeepsProfile(pods, slot, p) && p !in dev.instances.Values))
    decreases |ids|
  {
    hide KeepsProfile;
    if ids != [] {
      var next := if KeepsProfile(pods, slot, ids[0]) || ids[0] in stuck then dev else DropProfile(dev, ids[0]);
      ProfilesGone(next, ids[1..], pods, slot, stuck);
      assert ids == [ids[0]] + ids[1..];
    }
  }

  lemma {:induction false} SweptAt(devices: seq<Device>, pods: map<Name, Pod>, slot: nat, ws: seq<Sweep>, s: nat)
    requires slot <= s < |devices| == |ws|
    ensures SweepFrom(devices, pods, slot, ws)[s] ==
            if forall t :: slot <= t < s ==> !EndsAt(devices[t], ws[t]) then SweepDevice(devices[s], pods, s, ws[s])
            else devices[s]
    decreases |devices| - slot
  {
    hide SweepDevice;
    var next := devices[slot := SweepDevice(devices[slot], pods, slot, ws[slot])];
    if slot == s {
      SweptStays(next, pods, slot + 1, ws, s);
    } else {
      SweptAt(next, pods, slot + 1, ws, s);
      assert forall t :: slot + 1 <= t < s ==> next[t] == devices[t];
    }
  }

  /**
   After any collection, whatever the driver fails to list or to destroy: an instance of a slot is gone exactly if it is
   listed, not stuck and not in use, and the collection got that far; a profile is gone exactly if besides the profiles
   were listed and no instance that is left has it. Nothing else on the slot changes.
   */
  lemma WhatCollectionTakes(st: State, ws: seq<Sweep>, s: nat)
    requires |ws| == |st.devices| && s < |st.devices|
    ensures
      var dev, after, w := st.devices[s], Collect(st, ws).devices[s], ws[s];
      && (forall i :: i in after.instances <==>
                      i in dev.instances &&
                      !(Reaches(st, ws, s) && i in w.instances && i !in w.stuckInstances &&
                        !InstanceInUse(st.pods, s, i)))
      && (forall i :: i in after.instances ==> after.instances[i] == dev.instances[i])
      && (forall p :: p in after.profiles <==>
                      p in dev.profiles &&
                      !(Reaches(st, ws, s) && w.profilesRead && p in w.profiles && p !in w.stuckProfiles &&
                        !ProfileInUse(st.pods, s, p) && p !in after.instances.Values))
      && after.enabled == dev.enabled && after.issued == dev.issued && after.memUnit == dev.memUnit
  {
    hide Keeps, KeepsProfile, InstanceInUse, ProfileInUse, SweepFrom, SomeoneWaits, Blocked, SweepInstances,
      SweepProfiles, EndsAt;
    WaitingHolds(st.pods);
    if !Blocked(st.pods) {
      var dev, w := st.devices[s], ws[s];
      SweptAt(st.devices, st.pods, 0, ws, s);
      InstancesGone(dev, w.instances, st.pods, s, w.stuckInstances);
      ProfilesGone(SweepInstances(dev, w.instances, st.pods, s, w.stuckInstances), w.profiles, st.pods, s,
                   w.stuckProfiles);
      forall x
        ensures Keeps(st.pods, s, x) <==> InstanceInUse(st.pods, s, x)
        ensures KeepsProfile(st.pods, s, x) <==> ProfileInUse(st.pods, s, x)
      {
        KeptIsInUse(st.pods, s, x);
      }
    }
  }

  /**
   When every pending pod with a profile annotation has its instance annotation, a collection without faults leaves on
   an enabled slot exactly the instances and the profiles in use; when one such pod has none, nothing changes at all.
   */
  lemma WhatFaultlessCollectionLeaves(st: State, ws: seq<Sweep>, s: nat)
    requires Inv(st) && |ws| == |st.devices| && s < |st.devices| && st.devices[s].enabled
    requires forall t :: 0 <= t < |st.devices| ==> Faultless(st.devices[t], ws[t]) || !st.devices[t].enabled
    ensures
      var after := Collect(st, ws).devices[s];
      if exists n :: n in st.pods && st.pods[n].profile != None && st.pods[n].phase == Pending &&
                     st.pods[n].instance == None then Collect(st, ws) == st
      else
        && (forall i :: i in after.instances <==> InstanceInUse(st.pods, s, i))
        && (forall p :: p in after.profiles <==> ProfileInUse(st.pods, s, p))
  {
    hide Inv, Keeps, KeepsProfile, InstanceInUse, ProfileInUse, SweepFrom, Faultless, Blocked;
    WaitingHolds(st.pods);
    if !Blocked(st.pods) {
      CollectIsExact(st, ws, s);
      forall x
        ensures Keeps(st.pods, s, x) <==> InstanceInUse(st.pods, s, x)
        ensures KeepsProfile(st.pods, s, x) <==> ProfileInUse(st.pods, s, x)
      {
        KeptIsInUse(st.pods, s, x);
      }
    }
  }
}
