/** The preferred allocation in topology-aware mode: device IDs to slots, an allocator, and back to IDs. */
module Preferred {
  import opened SlotSets
  import opened Devices
  import Board
  import Spider

  /** The allocators, by the model of the devices; the board allocator has the driver's link groups. */
  datatype Family = SpiderFamily | BoardFamily(groups: seq<seq<nat>>) | DefaultFamily

  ghost predicate Known(ids: seq<string>, devs: map<string, Device>) { forall i :: 0 <= i < |ids| ==> ids[i] in devs }

  ghost function SlotsOf(ids: seq<string>, devs: map<string, Device>): (slots: seq<nat>)
    requires Known(ids, devs)
    ensures |slots| == |ids|
  {
    seq(|ids|, i requires 0 <= i < |ids| => devs[ids[i]].slot)
  }

  /** What the allocator of a family promises about its result. */
  ghost predicate Answers(family: Family, policy: Policy, available: seq<nat>, devs: map<string, Device>, size: nat,
                          answer: Answer, r: Result)
    requires size <= |available|
  {
    match family
    case SpiderFamily => Spider.SpiderAnswers(policy, available, devs, size, answer, r)
    case BoardFamily(groups) => Board.BoardAnswers(policy, available, groups, devs, size, answer, r)
    case DefaultFamily => Board.DefaultAnswers(policy, available, size, answer, r)
  }

  /** `getSlots` */
  method GetSlots(ids: seq<string>, devs: map<string, Device>) returns (slots: seq<nat>)
    requires Known(ids, devs)
    ensures slots == SlotsOf(ids, devs)
  {
    slots := [];
    for i := 0 to |ids|
      invariant slots == SlotsOf(ids, devs)[..i]
    {
      slots := slots + [devs[ids[i]].slot];
    }
  }

  /** `GetDeviceUUIDByIndex`: some device on the slot. */
  method GetDeviceUUIDByIndex(index: nat, devs: map<string, Device>) returns (uuid: string, found: bool)
    ensures found <==> exists u :: IsSlotOf(devs, u, index)
    ensures found ==> IsSlotOf(devs, uuid, index)
  {
    var rest := devs.Keys;
    while rest != {}
      invariant rest <= devs.Keys
      invariant forall u :: u in devs && u !in rest ==> !IsSlotOf(devs, u, index)
      decreases rest
    {
      var u :| u in rest;
      if devs[u].slot == index {
        assert IsSlotOf(devs, u, index);
        return u, true;
      }
      rest := rest - {u};
    }
    assert forall u :: u in devs ==> u !in rest;
    return "", false;
  }

  /** Distinct IDs of devices that each have their own slot stand for distinct slots of devices. */
  lemma SlotsAreDrawn(ids: seq<string>, devs: map<string, Device>)
    requires OwnSlots(devs) && Known(ids, devs) && Distinct(ids)
    ensures Drawn(SlotsOf(ids, devs), devs)
  {
    var slots := SlotsOf(ids, devs);
    forall i, j | 0 <= i < j < |slots|
      ensures slots[i] != slots[j]
    {
      assert ids[i] != ids[j];
    }
    forall s | s in slots
      ensures exists u :: IsSlotOf(devs, u, s)
    {
      var i :| 0 <= i < |slots| && slots[i] == s;
      assert IsSlotOf(devs, ids[i], s);
    }
  }

  lemma SameSlotsSameIds(us: seq<string>, ids: seq<string>, devs: map<string, Device>)
    requires OwnSlots(devs) && Known(us, devs) && Known(ids, devs) && SlotsOf(us, devs) == SlotsOf(ids, devs)
    ensures us == ids
  {
    assert |us| == |ids|;
    forall i | 0 <= i < |ids|
      ensures us[i] == ids[i]
    {
      assert SlotsOf(us, devs)[i] == SlotsOf(ids, devs)[i];
    }
  }

  /** The ID found for a slot is the one the slot came from. */
  lemma SlotGivesItsId(ids: seq<string>, devs: map<string, Device>, slot: nat, uuid: string)
    requires OwnSlots(devs) && Known(ids, devs) && slot in SlotsOf(ids, devs) && IsSlotOf(devs, uuid, slot)
    ensures uuid in ids
  {
    var i :| 0 <= i < |ids| && SlotsOf(ids, devs)[i] == slot;
    assert ids[i] == uuid;
  }

  /**
   `getPreferredAllocatedDeviceUUIDs`: on success `size` different IDs among the available ones, whose slots are what
   the allocator chose; every chosen slot is found again, so it fails only where the allocator does.
   */
  method GetPreferredAllocatedDeviceUUIDs(family: Family, policy: Policy, ids: seq<string>, devs: map<string, Device>,
                                          size: nat, answer: Answer)
    returns (ok: bool, uuids: seq<string>)
    requires OwnSlots(devs) && Known(ids, devs) && Distinct(ids) && 1 <= size <= |ids|
    requires answer.Rings? ==> SoundRings(answer.rings, SlotsOf(ids, devs), size)
    ensures ok ==> Distinct(uuids) && |uuids| == size && forall u :: u in uuids ==> u in ids && u in devs
    ensures policy == BestEffort && |ids| == size ==> ok && uuids == ids
    ensures policy != BestEffort || |ids| != size ==>
              exists r :: Answers(family, policy, SlotsOf(ids, devs), devs, size, answer, r) &&
                          (ok <==> r.Slots?) && (ok ==> SlotsOf(uuids, devs) == r.slots)
  {
    hide Spider.SpiderAnswers, Board.BoardAnswers, Board.DefaultAnswers, OwnSlots, Drawn, SoundRings;
    var available := GetSlots(ids, devs);
    SlotsAreDrawn(ids, devs);
    var chosen;
    if policy == BestEffort && |available| == size {
      chosen := Slots(available);
    } else {
      match family {
      case SpiderFamily => chosen := Spider.Allocate(policy, available, devs, size, answer);
      case BoardFamily(groups) => chosen := Board.Allocate(policy, available, groups, devs, size, answer);
      case DefaultFamily => chosen := Board.AllocateDefault(policy, available, size, answer);
      }
      if chosen.Error? {
        return false, [];
      }
    }
    uuids := FindUuids(chosen.slots, ids, devs);
    if chosen.slots == available {
      SameSlotsSameIds(uuids, ids, devs);
    }
    return true, uuids;
  }

  /** The loop at the end: none of the slots is missing. */
  method FindUuids(slots: seq<nat>, ids: seq<string>, devs: map<string, Device>) returns (uuids: seq<string>)
    requires OwnSlots(devs) && Known(ids, devs) && Distinct(slots)
    requires forall s :: s in slots ==> s in SlotsOf(ids, devs)
    ensures Known(uuids, devs) && SlotsOf(uuids, devs) == slots && Distinct(uuids)
    ensures forall u :: u in uuids ==> u in ids
  {
    uuids := [];
    for i := 0 to |slots|
      invariant |uuids| == i && Known(uuids, devs)
      invariant forall k :: 0 <= k < i ==> uuids[k] in ids && devs[uuids[k]].slot == slots[k]
    {
      var slot := slots[i];
      assert slot in SlotsOf(ids, devs);
      ghost var k: nat :| k < |ids| && SlotsOf(ids, devs)[k] == slot;
      assert IsSlotOf(devs, ids[k], slot);
      var uuid, found := GetDeviceUUIDByIndex(slot, devs);
      SlotGivesItsId(ids, devs, slot, uuid);
      uuids := uuids + [uuid];
    }
    assert SlotsOf(uuids, devs) == slots;
  }
}
