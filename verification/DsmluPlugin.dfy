/** The allocation call, the recycling and the collector as they work: step by step on shared fields. */
module DsmluPlugin {
  import opened Bytes
  import opened Annotation
  import opened Options
  import opened DsmluModel
  import opened DsmluProof
  import Devices
  import Preferred

  /** The slots that the plugin's own table has a device for. */
  ghost function SlotsKnown(devs: map<string, Devices.Device>): set<nat> { set u | u in devs :: devs[u].slot }

  lemma KnownIfFound(devs: map<string, Devices.Device>, s: nat)
    ensures s in SlotsKnown(devs) <==> exists u :: Devices.IsSlotOf(devs, u, s)
  {
    if s in SlotsKnown(devs) {
      var u :| u in devs && devs[u].slot == s;
      assert Devices.IsSlotOf(devs, u, s);
    }
  }

  class Plugin {
    var devices: seq<Device>
    var devsInfo: map<string, Devices.Device>
    var pods: map<Name, Pod>
    var gone: map<Name, Pod>
    var dynamicSmlu: map<Name, Response>
    var profileAndInstance: map<Name, seq<byte>>

    ghost function View(): State
      reads this
    {
      State(devices, SlotsKnown(devsInfo), pods, gone, dynamicSmlu, profileAndInstance)
    }

    method CleanDsmluRecord()
      modifies this`dynamicSmlu, this`profileAndInstance
      ensures View() == CleanRecord(old(View()))
    {
      dynamicSmlu := map[];
      profileAndInstance := map[];
    }

    method GetDynamicSmluCandidatePod() returns (candidate: Option<Name>)
      ensures candidate == Candidate(pods)
    {
      var rest, count := pods.Keys, 0;
      candidate := None;
      while rest != {}
        invariant rest <= pods.Keys && 0 <= count <= 1
        invariant count == 0 ==> candidate.None? && forall n :: n in pods && n !in rest ==> !IsAssumed(pods[n])
        invariant count == 1 ==>
                    candidate.Some? && candidate.value in pods.Keys - rest && IsAssumed(pods[candidate.value]) &&
                    forall n :: n in pods && n !in rest && IsAssumed(pods[n]) ==> n == candidate.value
        decreases rest
      {
        var n :| n in rest;
        if IsAssumed(pods[n]) {
          if count == 1 {
            assert IsAssumed(pods[candidate.value]) && candidate.value != n;
            return None;
          }
          candidate := Some(n);
          count := count + 1;
        }
        rest := rest - {n};
      }
      if count == 1 {
        if pods[candidate.value].claims > 1 {
          return None;
        }
        assert IsCandidate(pods, candidate.value);
      }
    }

    static method GetExistProfile(dev: Device, listing: Option<seq<nat>>, r: Request) returns (p: Option<nat>)
      ensures p == ExistingProfile(dev, listing, r)
    {
      hide MemoryOf;
      if listing.None? {
        return None;
      }
      var infos := listing.value;
      assert infos[0..] == infos;
      for k := 0 to |infos|
        invariant FirstRecognised(dev, infos, r) == FirstRecognised(dev, infos[k..], r)
      {
        assert infos[k..][1..] == infos[k + 1..];
        if infos[k] in dev.profiles {
          var info := dev.profiles[infos[k]];
          if info.quota == r.vcore % ULONG_SIZE && info.memory == MemoryOf(dev, r) % ULONG_SIZE {
            return Some(infos[k]);
          }
        }
      }
      return None;
    }

    method AllocateDynamicSmlu(a: Answers) returns (outcome: Outcome)
      requires Inv(View()) && a.newInstance < INSTANCE_LIMIT
      modifies this
      ensures (View(), outcome) == Allocate(old(View()), a)
    {
      hide RecordOk, PodOk, PodLive, DeviceOk;
      var candidate := GetDynamicSmluCandidatePod();
      if candidate.None? {
        CleanDsmluRecord();
        return Error;
      }
      var name := candidate.value;
      if name in dynamicSmlu {
        var response := dynamicSmlu[name];
        if a.patched {
          var text := if name in profileAndInstance then profileAndInstance[name] else [];
          pods := pods[name := pods[name].(mark := Some(TRUE_TEXT), instance := Some(text))];
        }
        CleanDsmluRecord();
        return if a.patched then Allocated(response) else Error;
      }
      var request := RequestOf(pods[name]);
      if request.None? {
        return Error;
      }
      var r := request.value;
      if !(0 <= r.slot < |devices|) {
        return Error;
      }
      outcome := CreateInstance(name, r, a);
    }

    /** The rest of a first call: profile, instance, listing, and the record. */
    method CreateInstance(name: Name, r: Request, a: Answers) returns (outcome: Outcome)
      requires 0 <= r.slot < |devices| <= 256 && a.newInstance < INSTANCE_LIMIT
      modifies this
      ensures (View(), outcome) == FirstCall(old(View()), name, r, a)
    {
      hide MemoryOf;
      var dev := devices[r.slot];
      var profile: nat;
      var found := GetExistProfile(dev, a.profileListing, r);
      if found.Some? {
        if dev.profiles[found.value].remain < 1 {
          return Error;
        }
        profile := found.value;
      } else {
        if !a.profileCreated {
          return Error;
        }
        dev := AddProfile(dev, a.newProfile, r, a.total);
        devices := devices[r.slot := dev];
        profile := a.newProfile;
      }
      if !a.instanceCreated || dev.profiles[profile].remain < 1 {
        assert devices == old(devices)[r.slot := dev];
        return Error;
      }
      dev := AddInstance(dev, a.newInstance, profile);
      devices := devices[r.slot := dev];
      assert devices == old(devices)[r.slot := dev];
      var handle := Handle(a.newInstance, r.slot);
      HandleInjective(a.newInstance, r.slot, a.newInstance, r.slot);
      HandleIsInt(a.newInstance, r.slot);
      var info := FindHandle(a.listing, r.slot, handle);
      if info.None? {
        var destroyed := DestroySmlu(handle, a.destroyed);
        assert destroyed ==> devices == old(devices)[r.slot := DropInstance(dev, a.newInstance)];
        return Error;
      }
      HandleInjective(info.value.instance, r.slot, a.newInstance, r.slot);
      KnownIfFound(devsInfo, r.slot);
      var _, known := Preferred.GetDeviceUUIDByIndex(r.slot, devsInfo);
      if !known {
        return Error;
      }
      var response := Response(r.slot, info.value.instance);
      dynamicSmlu := map[name := response];
      profileAndInstance := map[name := AssignmentText(Assignment(profile, handle, r.slot, info.value.instance))];
      return Allocated(response);
    }

    /** The search of the listing for the handle just handed out. */
    static method FindHandle(listing: Option<seq<SmluInfo>>, slot: nat, handle: nat) returns (info: Option<SmluInfo>)
      requires slot < 256
      ensures info.Some? <==> Lists(listing, slot, handle)
      ensures info.Some? ==> Handle(info.value.instance, slot) == handle
    {
      if listing.None? {
        return None;
      }
      var infos := listing.value;
      for k := 0 to |infos|
        invariant forall j :: 0 <= j < k ==> Handle(infos[j].instance, slot) != handle
      {
        if Handle(infos[k].instance, slot) == handle {
          return Some(infos[k]);
        }
      }
      return None;
    }

    method RecycleProfileAndInstance(pod: Pod, d: Drops)
      modifies this`devices
      ensures View() == Recycle(old(View()), pod, d)
    {
      hide DeviceOk;
      if pod.instance.None? || !pod.deleting {
        return;
      }
      var v := Split(pod.instance.value, UNDERSCORE);
      if |v| != 4 {
        return;
      }
      var profile := Atoi(v[0]);
      if profile.None? {
        return;
      }
      var handle := Atoi(v[1]);
      if handle.None? {
        return;
      }
      var dropped := DestroySmlu(handle.value, d.instanceDropped);
      if !dropped {
        return;
      }
      var request := RequestOf(pod);
      if request.None? || !(0 <= request.value.slot < |devices|) {
        return;
      }
      var r := request.value;
      var found := GetExistProfile(devices[r.slot], d.profileListing, r);
      if found.Some? {
        var info := devices[r.slot].profiles[found.value];
        if info.remain == info.total && found.value == profile.value && d.profileDropped {
          devices := devices[r.slot := DropProfile(devices[r.slot], found.value)];
        }
      }
    }

    /** The driver finds the instance by its handle, converted to `int`; it fails if there is none. */
    method DestroySmlu(instanceHandle: int, willing: bool) returns (ok: bool)
      modifies this`devices
      ensures
        var handle := NarrowInt(instanceHandle);
        && (ok <==> handle >= 0 && handle % 256 < |old(devices)| &&
                    handle / 256 in old(devices)[handle % 256].instances && willing)
        && devices == if ok then old(devices)[handle % 256 := DropInstance(old(devices)[handle % 256], handle / 256)]
                      else old(devices)
    {
      var handle := NarrowInt(instanceHandle);
      if handle < 0 || handle % 256 >= |devices| || handle / 256 !in devices[handle % 256].instances || !willing {
        return false;
      }
      devices := devices[handle % 256 := DropInstance(devices[handle % 256], handle / 256)];
      return true;
    }

    /** The instances and the profiles to keep, by slot; `handled` if a pod is being handled right now. */
    method CollectKept() returns (handled: bool, instances: map<int, set<int>>, profiles: map<int, set<int>>)
      ensures handled <==> Blocked(pods)
      ensures !handled ==> forall s, i :: Keeps(pods, s, i) <==> Kept(instances, s, i)
      ensures !handled ==> forall s, p :: KeepsProfile(pods, s, p) <==> Kept(profiles, s, p)
    {
      instances, profiles := map[], map[];
      ghost var seen: map<Name, Pod> := map[];
      var rest := pods.Keys;
      while rest != {}
        invariant rest <= pods.Keys && seen.Keys == pods.Keys - rest
        invariant forall n :: n in seen ==> seen[n] == pods[n] && !IsHandled(pods[n])
        invariant forall s, i :: Keeps(seen, s, i) <==> Kept(instances, s, i)
        invariant forall s, p :: KeepsProfile(seen, s, p) <==> Kept(profiles, s, p)
        decreases rest
      {
        var n :| n in rest;
        var pod := pods[n];
        rest := rest - {n};
        var kept := None;
        if Uses(pod) && IsActive(pod) {
          if pod.instance.None? {
            if pod.phase == Pending {
              assert IsHandled(pod);
              return true, instances, profiles;
            }
          } else {
            kept := ReadKept(pod.instance.value);
          }
        }
        ghost var before := seen;
        seen := seen[n := pod];
        KeepsOneMore(before, n, pod, kept);
        if kept.Some? {
          var (p, s, i) := kept.value;
          instances := Keep(instances, s, i);
          profiles := Keep(profiles, s, p);
        }
      }
      assert seen == pods;
      handled := false;
    }

    method Exec(ws: seq<Sweep>)
      requires |ws| == |devices| <= 256 && forall s :: 0 <= s < |ws| ==> HandlesFit(ws[s])
      modifies this`devices
      ensures View() == Collect(old(View()), ws)
    {
      var handled, instances, profiles := CollectKept();
      if handled {
        return;
      }
      var i := 0;
      while i < |devices|
        invariant 0 <= i <= |devices| == |old(devices)|
        invariant SweepFrom(old(devices), pods, 0, ws) == SweepFrom(devices, pods, i, ws)
      {
        var w := ws[i];
        if !w.modeRead {
          assert devices[i := devices[i]] == devices;
          i := i + 1;
          continue;
        }
        if !devices[i].enabled {
          assert devices[i := devices[i]] == devices;
          i := i + 1;
          continue;
        }
        if !w.instancesRead {
          assert devices[i := devices[i]] == devices;
          return;
        }
        ghost var before := devices;
        DestroyUnkeptInstances(i, w, instances);
        if !w.profilesRead {
          return;
        }
        var dev := DestroyUnkeptProfiles(devices[i], i, w, profiles);
        devices := devices[i := dev];
        assert devices == before[i := SweepDevice(before[i], pods, i, w)];
        i := i + 1;
      }
    }

    /** Every listed instance of the slot that is not kept is destroyed by the handle rebuilt for it. */
    method DestroyUnkeptInstances(slot: nat, w: Sweep, kept: map<int, set<int>>)
      requires slot < |devices| <= 256 && HandlesFit(w)
      requires forall i :: Keeps(pods, slot, i) <==> Kept(kept, slot, i)
      modifies this`devices
      ensures devices ==
              old(devices)[slot := SweepInstances(old(devices)[slot], w.instances, pods, slot, w.stuckInstances)]
    {
      hide Keeps;
      assert w.instances[0..] == w.instances;
      for k := 0 to |w.instances|
        invariant |devices| == |old(devices)| && devices == old(devices)[slot := devices[slot]]
        invariant SweepInstances(old(devices)[slot], w.instances, pods, slot, w.stuckInstances) ==
                  SweepInstances(devices[slot], w.instances[k..], pods, slot, w.stuckInstances)
      {
        var id := w.instances[k];
        assert w.instances[k..][1..] == w.instances[k + 1..];
        assert Kept(kept, slot, id) <==> Keeps(pods, slot, id);
        if !(slot in kept && id in kept[slot]) {
          HandleInjective(id, slot, id, slot);
          assert id in w.instances;
          HandleIsInt(id, slot);
          ghost var was := devices;
          var destroyed := DestroySmlu(Handle(id, slot), id !in w.stuckInstances);
          assert devices == was[slot := devices[slot]] == old(devices)[slot := devices[slot]];
        }
      }
    }

    method DestroyUnkeptProfiles(was: Device, slot: nat, w: Sweep, kept: map<int, set<int>>) returns (dev: Device)
      requires forall p :: KeepsProfile(pods, slot, p) <==> Kept(kept, slot, p)
      ensures dev == SweepProfiles(was, w.profiles, pods, slot, w.stuckProfiles)
    {
      hide KeepsProfile;
      dev := was;
      assert w.profiles[0..] == w.profiles;
      for k := 0 to |w.profiles|
        invariant SweepProfiles(was, w.profiles, pods, slot, w.stuckProfiles) ==
                  SweepProfiles(dev, w.profiles[k..], pods, slot, w.stuckProfiles)
      {
        var id := w.profiles[k];
        assert w.profiles[k..][1..] == w.profiles[k + 1..];
        assert Kept(kept, slot, id) <==> KeepsProfile(pods, slot, id);
        if !(slot in kept && id in kept[slot]) && id !in w.stuckProfiles {
          dev := DropProfile(dev, id);
        }
      }
    }
  }

  /** A map of maps used as a set of pairs. */
  ghost predicate Kept(m: map<int, set<int>>, s: int, x: int) { s in m && x in m[s] }

  function Keep(m: map<int, set<int>>, s: int, x: int): (r: map<int, set<int>>)
    ensures forall t, y :: Kept(r, t, y) <==> Kept(m, t, y) || (t == s && y == x)
  {
    m[s := (if s in m then m[s] else {}) + {x}]
  }

  /** One more pod adds at most the one pair its annotation names. */
  lemma KeepsOneMore(seen: map<Name, Pod>, n: Name, pod: Pod, kept: Option<(int, int, int)>)
    requires n !in seen
    requires kept == if IsSeen(pod) && pod.instance.Some? then ReadKept(pod.instance.value) else None
    ensures forall s, i :: Keeps(seen[n := pod], s, i) <==>
                           Keeps(seen, s, i) || (kept.Some? && s == kept.value.1 && i == kept.value.2)
    ensures forall s, p :: KeepsProfile(seen[n := pod], s, p) <==>
                           KeepsProfile(seen, s, p) || (kept.Some? && s == kept.value.1 && p == kept.value.0)
  {
    hide ReadKept;
    var after := seen[n := pod];
    forall s, i
      ensures Keeps(after, s, i) <==> Keeps(seen, s, i) || Names(pod, s, i)
    {
      if Keeps(seen, s, i) {
        var m :| m in seen && Names(seen[m], s, i);
        assert after[m] == seen[m];
      }
      if Names(pod, s, i) {
        assert after[n] == pod;
      }
    }
    forall s, p
      ensures KeepsProfile(after, s, p) <==> KeepsProfile(seen, s, p) || NamesProfile(pod, s, p)
    {
      if KeepsProfile(seen, s, p) {
        var m :| m in seen && NamesProfile(seen[m], s, p);
        assert after[m] == seen[m];
      }
      if NamesProfile(pod, s, p) {
        assert after[n] == pod;
      }
    }
  }
}
