/**
 The life of dynamic-SMLU instances: what the driver, an allocation call, the recycling of a deleted pod and the
 periodic collector do to the devices, the pods and the record shared between the two allocation calls of a pod.
 Each is one atomic step; what the driver and the API server answer is a parameter of the step.
 */
module DsmluModel {
  import opened Bytes
  import opened Annotation
  import opened Options

  type Name = seq<byte>

  // ----- the driver -----

  datatype Profile = Profile(quota: nat, memory: nat, total: int, remain: int)

  /** `instances` gives the profile of each instance; `issued` are the instance IDs ever handed out. */
  datatype Device = Device(
    enabled: bool,
    memUnit: nat,
    profiles: map<nat, Profile>,
    instances: map<nat, nat>,
    issued: set<nat>)

  const MEGABYTE: nat := 1024 * 1024

  /** The instances of profile `p`. */
  ghost function Users(dev: Device, p: nat): set<nat> { set i | i in dev.instances && dev.instances[i] == p }

  /** The number of values of C's `unsigned int` and of its `unsigned long`. */
  const UINT_SIZE: nat := 0x1_0000_0000
  const ULONG_SIZE: nat := 0x1_0000_0000_0000_0000

  /** The conversion to C's `int`. */
  function NarrowInt(n: int): int { if n % UINT_SIZE <= INT_MAX then n % UINT_SIZE else n % UINT_SIZE - UINT_SIZE }

  /** Handles are C `int`s, so an instance ID leaves room for the slot. */
  const INSTANCE_LIMIT: nat := 0x80_0000

  /** The bytes of memory that a request asks for. */
  function MemoryOf(dev: Device, r: Request): int { r.vmemory * dev.memUnit * MEGABYTE }

  /** The profile is as the pod asked for it. */
  predicate Matches(info: Profile, dev: Device, r: Request) {
    info.quota == r.vcore && info.memory == MemoryOf(dev, r)
  }

  /** The profile is as `CreateSmluProfile` asks the driver for it: an `unsigned int` and an `unsigned long`. */
  predicate Granted(info: Profile, dev: Device, r: Request) {
    info.quota == r.vcore % UINT_SIZE && info.memory == MemoryOf(dev, r) % ULONG_SIZE
  }

  /** What `GetExistProfile` compares: Go's 64-bit `uint`s. */
  predicate Recognised(info: Profile, dev: Device, r: Request) {
    info.quota == r.vcore % ULONG_SIZE && info.memory == MemoryOf(dev, r) % ULONG_SIZE
  }

  /** The request fits the driver's types. */
  predicate FitsDriver(dev: Device, r: Request) { FitsQuota(r) && 0 <= MemoryOf(dev, r) < ULONG_SIZE }

  predicate FitsQuota(r: Request) { 0 <= r.vcore < UINT_SIZE }

  /** The first profile of a listing that is recognised. */
  function FirstRecognised(dev: Device, ids: seq<nat>, r: Request): (p: Option<nat>)
    ensures p.Some? ==> p.value in dev.profiles && p.value in ids && Recognised(dev.profiles[p.value], dev, r)
    ensures p.None? ==> forall q :: q in ids && q in dev.profiles ==> !Recognised(dev.profiles[q], dev, r)
  {
    if ids == [] then None
    else if ids[0] in dev.profiles && Recognised(dev.profiles[ids[0]], dev, r) then Some(ids[0])
    else FirstRecognised(dev, ids[1..], r)
  }

  /** `GetExistProfile`: without a listing it finds nothing. */
  function ExistingProfile(dev: Device, listing: Option<seq<nat>>, r: Request): Option<nat> {
    if listing.None? then None else FirstRecognised(dev, listing.value, r)
  }

  predicate Shows(listing: Option<seq<nat>>, p: nat) { listing.Some? && p in listing.value }

  function AddProfile(dev: Device, p: nat, r: Request, total: int): Device {
    dev.(profiles := dev.profiles[p := Profile(r.vcore % UINT_SIZE, MemoryOf(dev, r) % ULONG_SIZE, total, total)])
  }

  function AddInstance(dev: Device, i: nat, p: nat): Device
    requires p in dev.profiles
  {
    dev.(
      instances := dev.instances[i := p],
      issued := dev.issued + {i},
      profiles := dev.profiles[p := dev.profiles[p].(remain := dev.profiles[p].remain - 1)])
  }

  /** Destroying an instance that exists gives its place back to its profile. */
  function DropInstance(dev: Device, i: nat): Device {
    if i !in dev.instances then dev
    else
      var p := dev.instances[i];
      dev.(
        instances := dev.instances - {i},
        profiles := if p in dev.profiles then dev.profiles[p := dev.profiles[p].(remain := dev.profiles[p].remain + 1)]
                    else dev.profiles)
  }

  /** The driver keeps a profile that has instances. */
  function DropProfile(dev: Device, p: nat): Device {
    if p in dev.instances.Values then dev else dev.(profiles := dev.profiles - {p})
  }

  // ----- pods and the shared record -----

  datatype Phase = Pending | Running | Succeeded | PodFailed | Unknown

  /** `claims` counts the containers that ask for vcore or vmemory. */
  datatype Pod = Pod(
    phase: Phase,
    claims: nat,
    profile: Option<seq<byte>>,
    mark: Option<seq<byte>>,
    instance: Option<seq<byte>>,
    deleting: bool)

  /** What a container is given: the device node of one instance. */
  datatype Response = Response(slot: nat, instance: nat)

  /**
   `gone` are the pods whose deletion the informer has seen or will still report; `slots` are those that the plugin's
   own table has a device for.
   */
  datatype State = State(
    devices: seq<Device>,
    slots: set<nat>,
    pods: map<Name, Pod>,
    gone: map<Name, Pod>,
    dynamicSmlu: map<Name, Response>,
    profileAndInstance: map<Name, seq<byte>>)

  /** `isDynamicSmluAssumedPod`, for a pod listed as pending. */
  predicate IsAssumed(pod: Pod) { pod.phase == Pending && pod.claims > 0 && pod.mark == Some(FALSE_TEXT) }

  /** `matchResource` */
  predicate Uses(pod: Pod) { pod.profile.Some? }

  predicate IsActive(pod: Pod) { pod.phase == Pending || pod.phase == Running }

  function WithDevice(st: State, s: nat, dev: Device): State
    requires s < |st.devices|
  {
    st.(devices := st.devices[s := dev])
  }

  function CleanRecord(st: State): State { st.(dynamicSmlu := map[], profileAndInstance := map[]) }

  // ----- allocation -----

  /** What the driver and the API server do during one allocation call. */
  datatype Answers = Answers(
    profileListing: Option<seq<nat>>,
    profileCreated: bool,
    newProfile: nat,
    total: int,
    instanceCreated: bool,
    newInstance: nat,
    listing: Option<seq<SmluInfo>>,
    destroyed: bool,
    patched: bool)

  /** An entry of the driver's listing of a slot's instances. */
  datatype SmluInfo = SmluInfo(instance: nat, profile: nat)

  /** The handle of the new instance is found in the listing. */
  ghost predicate Lists(listing: Option<seq<SmluInfo>>, slot: nat, handle: nat) {
    slot < 256 && listing.Some? &&
    exists k :: 0 <= k < |listing.value| && Handle(listing.value[k].instance, slot) == handle
  }

  datatype Outcome = Error | Allocated(response: Response)

  /** `getDynamicSmluCandidatePod`: the only assumed pod, if it has one claiming container. */
  ghost function Candidate(pods: map<Name, Pod>): (c: Option<Name>)
    ensures c.Some? ==> c.value in pods && IsAssumed(pods[c.value])
  {
    if exists n :: IsCandidate(pods, n) then var n :| IsCandidate(pods, n); Some(n) else None
  }

  ghost predicate IsCandidate(pods: map<Name, Pod>, n: Name) {
    n in pods && IsAssumed(pods[n]) && pods[n].claims == 1 && forall m :: m in pods && IsAssumed(pods[m]) ==> m == n
  }

  /** `GetProfileFromAnnotation` */
  function RequestOf(pod: Pod): Option<Request> { if pod.profile.None? then None else ReadRequest(pod.profile.value) }

  /** The second call of a pod: it is annotated and given the response of the first. */
  ghost function SecondCall(st: State, n: Name, patched: bool): (State, Outcome)
    requires n in st.pods && n in st.dynamicSmlu
  {
    if !patched then (CleanRecord(st), Error)
    else
      var text := if n in st.profileAndInstance then st.profileAndInstance[n] else [];
      var pod := st.pods[n].(mark := Some(TRUE_TEXT), instance := Some(text));
      (CleanRecord(st.(pods := st.pods[n := pod])), Allocated(st.dynamicSmlu[n]))
  }

  /** The profile to use on a device, created if there is none, or an error. */
  ghost function ChooseProfile(dev: Device, r: Request, a: Answers): (Device, Option<nat>) {
    match ExistingProfile(dev, a.profileListing, r)
    case Some(p) => if dev.profiles[p].remain < 1 then (dev, None) else (dev, Some(p))
    case None =>
      if !a.profileCreated then (dev, None) else (AddProfile(dev, a.newProfile, r, a.total), Some(a.newProfile))
  }

  /** The first call of a pod: an instance is created and recorded under the pod's name. */
  ghost function FirstCall(st: State, n: Name, r: Request, a: Answers): (State, Outcome)
    requires 0 <= r.slot < |st.devices| <= 256
  {
    var (dev, chosen) := ChooseProfile(st.devices[r.slot], r, a);
    if chosen.None? then (st, Error)
    else if !a.instanceCreated || chosen.value !in dev.profiles || dev.profiles[chosen.value].remain < 1 then
      (WithDevice(st, r.slot, dev), Error)
    else
      var made := AddInstance(dev, a.newInstance, chosen.value);
      if !Lists(a.listing, r.slot, Handle(a.newInstance, r.slot)) then
        (WithDevice(st, r.slot, if a.destroyed then DropInstance(made, a.newInstance) else made), Error)
      else if r.slot !in st.slots then (WithDevice(st, r.slot, made), Error)
      else
        var response := Response(r.slot, a.newInstance);
        var text := AssignmentText(Assignment(chosen.value, Handle(a.newInstance, r.slot), r.slot, a.newInstance));
        (WithDevice(st, r.slot, made).(dynamicSmlu := map[n := response], profileAndInstance := map[n := text]),
         Allocated(response))
  }

  /** `allocateDynamicSmlu` */
  ghost function Allocate(st: State, a: Answers): (State, Outcome)
    requires |st.devices| <= 256
  {
    match Candidate(st.pods)
    case None => (CleanRecord(st), Error)
    case Some(n) =>
      if n in st.dynamicSmlu then SecondCall(st, n, a.patched)
      else
        match RequestOf(st.pods[n])
        case None => (st, Error)
        case Some(r) =>
          if !(0 <= r.slot < |st.devices|) then (st, Error)
          else FirstCall(st, n, r, a)
  }

  // ----- recycling -----

  /** What the driver does during one recycling. */
  datatype Drops = Drops(instanceDropped: bool, profileListing: Option<seq<nat>>, profileDropped: bool)

  /** The profile and the handle that recycling reads from an annotation. */
  function ReadHandle(text: seq<byte>): Option<(int, int)> {
    var v := Split(text, UNDERSCORE);
    if |v| != 4 || Atoi(v[0]).None? || Atoi(v[1]).None? then None else Some((Atoi(v[0]).value, Atoi(v[1]).value))
  }

  /** `recycleProfileAndInstance` */
  ghost function Recycle(st: State, pod: Pod, d: Drops): State {
    if pod.instance.None? || !pod.deleting || ReadHandle(pod.instance.value).None? then st
    else
      var (profile, read) := ReadHandle(pod.instance.value).value;
      var handle := NarrowInt(read);
      if handle < 0 || handle % 256 >= |st.devices| || handle / 256 !in st.devices[handle % 256].instances ||
         !d.instanceDropped then st
      else
        var slot := handle % 256;
        RecycleProfile(WithDevice(st, slot, DropInstance(st.devices[slot], handle / 256)), pod, profile, d)
  }

  /** The second half: a profile nobody uses any more goes with its last instance. */
  ghost function RecycleProfile(st: State, pod: Pod, profile: int, d: Drops): State {
    match RequestOf(pod)
    case None => st
    case Some(r) =>
      if !(0 <= r.slot < |st.devices|) then st
      else
        var dev := st.devices[r.slot];
        match ExistingProfile(dev, d.profileListing, r)
        case None => st
        case Some(p) =>
          if dev.profiles[p].remain == dev.profiles[p].total && p == profile && d.profileDropped then
            WithDevice(st, r.slot, DropProfile(dev, p))
          else st
  }

  // ----- collecting -----

  /** The profile, slot and instance that the collector reads from an annotation. */
  function ReadKept(text: seq<byte>): Option<(int, int, int)> {
    var v := Split(text, UNDERSCORE);
    if |v| != 4 || Atoi(v[0]).None? || Atoi(v[2]).None? || Atoi(v[3]).None? then None
    else Some((Atoi(v[0]).value, Atoi(v[2]).value, Atoi(v[3]).value))
  }

  /** A pod that the collector looks at. */
  predicate IsSeen(pod: Pod) { Uses(pod) && IsActive(pod) }

  /** A pod is being handled: the collector leaves everything for later. */
  ghost predicate Blocked(pods: map<Name, Pod>) {
    exists n :: n in pods && IsHandled(pods[n])
  }

  predicate IsHandled(pod: Pod) { Uses(pod) && pod.phase == Pending && pod.instance.None? }

  ghost predicate Keeps(pods: map<Name, Pod>, slot: int, instance: int) {
    exists n :: n in pods && Names(pods[n], slot, instance)
  }

  ghost predicate Names(pod: Pod, slot: int, instance: int) {
    && IsSeen(pod) && pod.instance.Some? && ReadKept(pod.instance.value).Some?
    && ReadKept(pod.instance.value).value.1 == slot && ReadKept(pod.instance.value).value.2 == instance
  }

  ghost predicate KeepsProfile(pods: map<Name, Pod>, slot: int, profile: int) {
    exists n :: n in pods && NamesProfile(pods[n], slot, profile)
  }

  ghost predicate NamesProfile(pod: Pod, slot: int, profile: int) {
    && IsSeen(pod) && pod.instance.Some? && ReadKept(pod.instance.value).Some?
    && ReadKept(pod.instance.value).value.1 == slot && ReadKept(pod.instance.value).value.0 == profile
  }

  /** What the driver answers about one slot during a collection; the listings are in the driver's order. */
  datatype Sweep = Sweep(
    modeRead: bool,
    instancesRead: bool,
    instances: seq<nat>,
    profilesRead: bool,
    profiles: seq<nat>,
    stuckInstances: set<nat>,
    stuckProfiles: set<nat>)

  ghost function SweepInstances(dev: Device, ids: seq<nat>, pods: map<Name, Pod>, slot: nat, stuck: set<nat>): Device
    decreases |ids|
  {
    if ids == [] then dev
    else
      var next := if Keeps(pods, slot, ids[0]) || ids[0] in stuck then dev else DropInstance(dev, ids[0]);
      SweepInstances(next, ids[1..], pods, slot, stuck)
  }

  ghost function SweepProfiles(dev: Device, ids: seq<nat>, pods: map<Name, Pod>, slot: nat, stuck: set<nat>): Device
    decreases |ids|
  {
    if ids == [] then dev
    else
      var next := if KeepsProfile(pods, slot, ids[0]) || ids[0] in stuck then dev else DropProfile(dev, ids[0]);
      SweepProfiles(next, ids[1..], pods, slot, stuck)
  }

  ghost function SweepDevice(dev: Device, pods: map<Name, Pod>, slot: nat, w: Sweep): Device {
    if !w.modeRead || !dev.enabled || !w.instancesRead then dev
    else
      var swept := SweepInstances(dev, w.instances, pods, slot, w.stuckInstances);
      if !w.profilesRead then swept else SweepProfiles(swept, w.profiles, pods, slot, w.stuckProfiles)
  }

  /** A listing that fails ends the whole collection. */
  predicate Stops(dev: Device, w: Sweep) { w.modeRead && dev.enabled && (!w.instancesRead || !w.profilesRead) }

  ghost function SweepFrom(devices: seq<Device>, pods: map<Name, Pod>, slot: nat, ws: seq<Sweep>): (swept: seq<Device>)
    requires slot <= |devices| == |ws|
    ensures |swept| == |devices|
    decreases |devices| - slot
  {
    if slot == |devices| then devices
    else
      var next := devices[slot := SweepDevice(devices[slot], pods, slot, ws[slot])];
      if Stops(devices[slot], ws[slot]) then next else SweepFrom(next, pods, slot + 1, ws)
  }

  /** `exec` */
  ghost function Collect(st: State, ws: seq<Sweep>): State
    requires |ws| == |st.devices|
  {
    if Blocked(st.pods) then st else st.(devices := SweepFrom(st.devices, st.pods, 0, ws))
  }
}
