/** Loading, adding keyboards, removing them, and unloading: every resource is released exactly once.

Resources are numbered device objects, the attachment of a filter (named after its device), the aperture mapping and the
symbolic link. The driver's devices form a linked list headed in the driver object; creating a device inserts it at the
head and deleting one unlinks it. */
module DriverLifetime {
  import opened Helpers

  datatype Resource = DeviceObject(id: nat) | Attachment(id: nat) | Mapping | Link

  datatype KernelCall = Acquire(resource: Resource) | Release(resource: Resource)

  datatype DeviceInfo = Control(id: nat, mapped: bool) | Filter(id: nat, attached: bool)

  datatype DriverState = DriverState(devices: seq<DeviceInfo>, created: nat, log: seq<KernelCall>)

  /** How far loading gets, and how far adding a keyboard gets. */
  datatype EntryOutcome = EntryNoDevice | EntryNoMapping | EntryNoLink | Loaded
  datatype AddOutcome = AddNoDevice | AddNoStack | Added

  // ---- The operations as functions ----

  /** The kernel calls of loading, and of adding a keyboard, after the device has been created. */
  function LoadCalls(id: nat, o: EntryOutcome): seq<KernelCall> {
    match o
    case EntryNoDevice => []
    case EntryNoMapping => [Release(DeviceObject(id))]
    case EntryNoLink => [Acquire(Mapping), Release(Mapping), Release(DeviceObject(id))]
    case Loaded => [Acquire(Mapping), Acquire(Link)]
  }

  function AttachCalls(id: nat, o: AddOutcome): seq<KernelCall> {
    match o
    case AddNoDevice => []
    case AddNoStack => [Release(DeviceObject(id))]
    case Added => [Acquire(Attachment(id))]
  }

  function Entry(s: DriverState, o: EntryOutcome): DriverState {
    if o == EntryNoDevice then s
    else
      DriverState((if o == Loaded then [Control(s.created, true)] else []) + s.devices, s.created + 1,
                  s.log + [Acquire(DeviceObject(s.created))] + LoadCalls(s.created, o))
  }

  function Add(s: DriverState, o: AddOutcome): DriverState {
    if o == AddNoDevice then s
    else
      DriverState((if o == Added then [Filter(s.created, true)] else []) + s.devices, s.created + 1,
                  s.log + [Acquire(DeviceObject(s.created))] + AttachCalls(s.created, o))
  }

  /** Removing the i-th device; the control device refuses. */
  function Remove(s: DriverState, i: nat): DriverState
    requires i < |s.devices|
  {
    var d := s.devices[i];
    if d.Control? then s
    else s.(devices := s.devices[..i] + s.devices[i + 1..],
            log := s.log + [Release(Attachment(d.id)), Release(DeviceObject(d.id))])
  }

  /** What unloading releases for one device. */
  function Releases(d: DeviceInfo): seq<KernelCall> {
    (match d
     case Control(_, mapped) => if mapped then [Release(Mapping)] else []
     case Filter(id, attached) => if attached then [Release(Attachment(id))] else [])
    + [Release(DeviceObject(d.id))]
  }

  function ReleaseAll(devices: seq<DeviceInfo>): seq<KernelCall> {
    if devices == [] then [] else Releases(devices[0]) + ReleaseAll(devices[1..])
  }

  function Unload(s: DriverState): DriverState {
    s.(devices := [], log := s.log + [Release(Link)] + ReleaseAll(s.devices))
  }

  // ---- The device list ----

  datatype Kind = ControlDevice | KeyboardFilterDevice

  /** The memory of a device and its extension. Once it has been freed it has no fields: every use of one below is
      proved to be of a device that has not been deleted. */
  datatype Memory =
    | Freed
    | InUse(kind: Kind, mapped: bool, attached: bool, next: Device?)

  class Device {
    const id: nat
    var memory: Memory

    constructor (number: nat, head: Device?)
      ensures id == number && memory == InUse(KeyboardFilterDevice, false, false, head)
    {
      id, memory := number, InUse(KeyboardFilterDevice, false, false, head);
    }

    ghost predicate IsControl()
      reads this`memory
    {
      memory.InUse? && memory.kind == ControlDevice
    }

    ghost function Info(): DeviceInfo
      reads this`memory
    {
      if IsControl() then Control(id, memory.mapped) else Filter(id, memory.InUse? && memory.attached)
    }
  }

  class Driver {
    var deviceObject: Device?
    var created: nat
    ghost var list: seq<Device>
    ghost var log: seq<KernelCall>

    ghost predicate Valid()
      reads this`deviceObject, this`list, list`memory
    {
      && deviceObject == (if list == [] then null else list[0])
      && (forall i | 0 <= i < |list| :: LinkedAt(list, i))
      && (forall i, j | 0 <= i < j < |list| :: list[i] != list[j])
    }

    /** The i-th device points to the one after it. */
    ghost predicate LinkedAt(devices: seq<Device>, i: nat)
      requires i < |devices|
      reads devices`memory
    {
      devices[i].memory.InUse? && devices[i].memory.next == if i + 1 < |devices| then devices[i + 1] else null
    }

    ghost function Infos(devices: seq<Device>): (r: seq<DeviceInfo>)
      reads devices`memory
      ensures |r| == |devices| && forall i | 0 <= i < |r| :: r[i] == devices[i].Info()
    {
      if devices == [] then [] else [devices[0].Info()] + Infos(devices[1..])
    }

    ghost function State(): DriverState
      reads this`list, this`created, this`log, list`memory
    {
      DriverState(Infos(list), created, log)
    }

    constructor ()
      ensures Valid() && State() == DriverState([], 0, [])
    {
      deviceObject, created, list, log := null, 0, [], [];
    }

    /** The kernel creates a device and links it in at the head. */
    method IoCreateDevice() returns (d: Device)
      requires Valid()
      modifies this`deviceObject, this`created, this`list, this`log
      ensures Valid() && fresh(d) && list == [d] + old(list)
      ensures d.id == old(created) && created == old(created) + 1
      ensures log == old(log) + [Acquire(DeviceObject(d.id))] && Infos(old(list)) == old(Infos(list))
    {
      d := new Device(created, deviceObject);
      deviceObject, created, list := d, created + 1, [d] + list;
      log := log + [Acquire(DeviceObject(d.id))];
      ghost var was := old(list);
      forall i | 1 <= i < |list| ensures LinkedAt(list, i) {
        assert old(LinkedAt(was, i - 1));
      }
      forall i, j | 1 <= i < j < |list| ensures list[i] != list[j] {
        assert was[i - 1] != was[j - 1];
      }
    }

    /** The device after the i-th once the device at `at` is gone. */
    ghost function SuccessorPast(devices: seq<Device>, i: nat, at: nat): Device? {
      var k := if i + 1 == at then i + 2 else i + 1;
      if k < |devices| then devices[k] else null
    }

    /** The kernel links a device's predecessor, or the driver object, to the device's successor. */
    method Unlink(d: Device, ghost at: nat)
      requires Valid() && at < |list| && list[at] == d
      modifies this`deviceObject, list[if at == 0 then 0 else at - 1..at]`memory
      ensures deviceObject == if at > 0 then list[0] else if |list| > 1 then list[1] else null
      ensures forall i | 0 <= i < |list| && i != at ::
                && list[i].memory.InUse? && list[i].memory.next == SuccessorPast(list, i, at)
                && list[i].Info() == old(list[i].Info())
    {
      assert LinkedAt(list, at);
      if d == deviceObject {
        deviceObject := d.memory.next;
        forall i | 0 < i < |list|
          ensures at == 0 && list[i].memory.InUse? && list[i].memory.next == SuccessorPast(list, i, at)
        {
          assert LinkedAt(list, i);
        }
        assert at == 0;
      } else {
        var before := deviceObject;
        ghost var k := 0;
        while assert LinkedAt(list, k); before.memory.next != d
          invariant k < at && before == list[k]
          decreases at - k
        {
          before, k := before.memory.next, k + 1;
        }
        assert k + 1 == at && LinkedAt(list, k);
        AllDiffer(k);
        before.memory := before.memory.(next := d.memory.next);
        forall i | 0 <= i < |list| && i != at && i != k
          ensures list[i].memory.InUse? && list[i].memory.next == SuccessorPast(list, i, at)
          ensures list[i].memory == old(list[i].memory)
        {
          assert list[i] != before && old(LinkedAt(list, i));
        }
      }
    }

    lemma AllDiffer(k: nat)
      requires Valid() && k < |list|
      ensures forall i | 0 <= i < |list| && i != k :: list[i] != list[k]
    {
      forall i | 0 <= i < |list| && i != k ensures list[i] != list[k] {
        assert if i < k then list[i] != list[k] else list[k] != list[i];
      }
    }

    /** The kernel unlinks a device of the list and frees its memory. */
    method IoDeleteDevice(d: Device, ghost at: nat)
      requires Valid() && at < |list| && list[at] == d
      modifies this`deviceObject, this`list, this`log, d`memory, list[if at == 0 then 0 else at - 1..at]`memory
      ensures Valid() && list == old(list)[..at] + old(list)[at + 1..] && d.memory.Freed?
      ensures Infos(list) == old(Infos(list)[..at] + Infos(list)[at + 1..])
      ensures log == old(log) + [Release(DeviceObject(d.id))]
    {
      hide Infos, Device.Info;
      ghost var was, infos := list, Infos(list);
      ghost var rest := was[..at] + was[at + 1..];
      WithoutOne(was, rest, at);
      Unlink(d, at);
      d.memory := Freed;
      log := log + [Release(DeviceObject(d.id))];
      list := rest;
      forall i | 0 <= i < |list| ensures LinkedAt(list, i) && list[i].Info() == infos[if i < at then i else i + 1] {
        assert list[i] == was[if i < at then i else i + 1];
      }
      assert Infos(list) == infos[..at] + infos[at + 1..];
    }

    lemma WithoutOne(was: seq<Device>, rest: seq<Device>, at: nat)
      requires at < |was| && rest == was[..at] + was[at + 1..]
      requires forall i, j | 0 <= i < j < |was| :: was[i] != was[j]
      ensures |rest| == |was| - 1 && forall i | 0 <= i < |rest| :: rest[i] == was[if i < at then i else i + 1]
      ensures forall i | 0 <= i < |rest| :: rest[i] != was[at]
      ensures forall i, j | 0 <= i < j < |rest| :: rest[i] != rest[j]
    {
    }

    /** The kernel's other calls. */
    method Kernel(ghost call: KernelCall)
      requires Valid()
      modifies this`log
      ensures Valid() && log == old(log) + [call]
    {
      log := log + [call];
    }

    /** Deletes the first device of the list. */
    method DeleteNewest(d: Device, ghost others: seq<Device>)
      requires Valid() && list == [d] + others
      modifies this`deviceObject, this`list, this`log, d`memory
      ensures Valid() && list == others && Infos(list) == old(Infos(others)) && d.memory.Freed?
      ensures log == old(log) + [Release(DeviceObject(d.id))]
    {
      hide Infos;
      InfosOfCons(d, others);
      assert list[..0] + list[1..] == others;
      IoDeleteDevice(d, 0);
    }

    /** Stores to the memory of the first device of the list. */
    method Describe(d: Device, kind: Kind, mapped: bool, attached: bool, ghost others: seq<Device>)
      requires Valid() && list == [d] + others
      modifies d`memory
      ensures Valid() && Infos(others) == old(Infos(others))
      ensures d.memory.InUse? && d.memory.kind == kind && d.memory.mapped == mapped && d.memory.attached == attached
    {
      NewestIsNotAmong(d, others);
      assert LinkedAt(list, 0);
      d.memory := InUse(kind, mapped, attached, d.memory.next);
      forall i | 1 <= i < |list| ensures LinkedAt(list, i) {
        assert old(LinkedAt(list, i)) && list[i] == others[i - 1];
      }
    }

    // ---- The driver's own operations ----

    /** Loading. Whatever step fails, the steps before it are undone. */
    method DriverEntry(o: EntryOutcome) returns (ok: bool)
      requires Valid()
      modifies this
      ensures Valid() && State() == Entry(old(State()), o) && ok == (o == Loaded)
    {
      hide Infos, LoadCalls;
      ghost var others, was := list, State();
      if o == EntryNoDevice {
        return false;
      }
      hide Entry;
      var device := IoCreateDevice();
      assert Infos(others) == was.devices;
      Describe(device, ControlDevice, false, false, others);
      ok := MapAndLink(device, o, others);
      InfosOfCons(device, others);
      EntryIsReached(was, o, Infos(list), log);
    }

    lemma InfosOfCons(d: Device, rest: seq<Device>)
      ensures Infos([d] + rest) == [d.Info()] + Infos(rest)
    {
      assert ([d] + rest)[1..] == rest;
    }

    /** The steps after the control device has been created. */
    method MapAndLink(device: Device, o: EntryOutcome, ghost others: seq<Device>) returns (ok: bool)
      requires Valid() && list == [device] + others && device.IsControl() && o != EntryNoDevice
      modifies this`deviceObject, this`list, this`log, device`memory
      ensures Valid() && ok == (o == Loaded) && list == (if ok then [device] + others else others)
      ensures Infos(others) == old(Infos(others)) && (ok ==> device.Info() == Control(device.id, true))
      ensures log == old(log) + LoadCalls(device.id, o)
    {
      Describe(device, ControlDevice, o != EntryNoMapping, false, others);
      if !device.memory.mapped {
        DeleteNewest(device, others);
        return false;
      }
      Kernel(Acquire(Mapping));
      if o == EntryNoLink {
        Kernel(Release(Mapping));
        DeleteNewest(device, others);
        return false;
      }
      Kernel(Acquire(Link));
      ok := true;
    }

    lemma NewestIsNotAmong(device: Device, others: seq<Device>)
      requires Valid() && list == [device] + others
      ensures device !in others
    {
      assert forall i | 0 <= i < |others| :: others[i] == list[i + 1];
    }

    /** Adding a keyboard: a filter device, attached to the device stack, or nothing. */
    method AddDevice(o: AddOutcome) returns (ok: bool)
      requires Valid()
      modifies this
      ensures Valid() && State() == Add(old(State()), o) && ok == (o == Added)
    {
      hide Infos, AttachCalls;
      ghost var others, was := list, State();
      if o == AddNoDevice {
        return false;
      }
      hide Add;
      var device := IoCreateDevice();
      assert Infos(others) == was.devices;
      Describe(device, KeyboardFilterDevice, false, false, others);
      ok := AttachToStack(device, o, others);
      InfosOfCons(device, others);
      AddIsReached(was, o, Infos(list), log);
    }

    /** The steps after the filter device has been created. */
    method AttachToStack(device: Device, o: AddOutcome, ghost others: seq<Device>) returns (ok: bool)
      requires Valid() && list == [device] + others && !device.IsControl() && o != AddNoDevice
      modifies this`deviceObject, this`list, this`log, device`memory
      ensures Valid() && ok == (o == Added) && list == (if ok then [device] + others else others)
      ensures Infos(others) == old(Infos(others)) && (ok ==> device.Info() == Filter(device.id, true))
      ensures log == old(log) + AttachCalls(device.id, o)
    {
      Describe(device, KeyboardFilterDevice, false, o == Added, others);
      if !device.memory.attached {
        DeleteNewest(device, others);
        return false;
      }
      Kernel(Acquire(Attachment(device.id)));
      ok := true;
    }

    /** Removing a device of the list: a filter is detached and deleted; the control device refuses the request. */
    method RemoveDevice(device: Device, ghost at: nat)
      requires Valid() && at < |list| && list[at] == device
      modifies this, device`memory, list[if at == 0 then 0 else at - 1..at]`memory
      ensures Valid() && State() == Remove(old(State()), at)
      ensures if old(device.IsControl()) then device.memory.InUse? else device.memory.Freed?
    {
      assert LinkedAt(list, at);
      if device.memory.kind == ControlDevice {
        return;
      }
      Detach(device, at);
    }

    method Detach(device: Device, ghost at: nat)
      requires Valid() && at < |list| && list[at] == device && !device.IsControl()
      modifies this`deviceObject, this`list, this`log, device`memory, list[if at == 0 then 0 else at - 1..at]`memory
      ensures Valid() && Infos(list) == old(Infos(list)[..at] + Infos(list)[at + 1..]) && device.memory.Freed?
      ensures log == old(log) + [Release(Attachment(device.id)), Release(DeviceObject(device.id))]
    {
      hide Infos;
      Kernel(Release(Attachment(device.id)));
      IoDeleteDevice(device, at);
    }

    /** Unloading. Each device's successor is read before the device is deleted. */
    method DriverUnload()
      requires Valid()
      modifies this, list`memory
      ensures Valid() && State() == Unload(old(State()))
      ensures forall d | d in old(list) :: d.memory.Freed?
    {
      Kernel(Release(Link));
      ghost var infos, start := Infos(list), log;
      var device := deviceObject;
      while device != null
        invariant Valid() && device == deviceObject && created == old(created)
        invariant forall d | d in list :: d in old(list)
        invariant forall d | d in old(list) :: d in list || d.memory.Freed?
        invariant log + ReleaseAll(Infos(list)) == start + ReleaseAll(infos)
        decreases |list|
      {
        HeadOfList();
        var next := device.memory.next;
        assert device in list;
        ReleaseAllOne(log, Infos(list));
        UnloadOne(device);
        device := next;
      }
      assert list == [] && Infos(list) == [] && log == start + ReleaseAll(infos);
    }

    lemma HeadOfList()
      requires Valid() && deviceObject != null
      ensures list != [] && deviceObject == list[0] && deviceObject.memory.InUse?
      ensures deviceObject.memory.next == if |list| > 1 then list[1] else null
    {
      assert LinkedAt(list, 0);
    }

    /** Releases what the first device of the list holds, and the device. */
    method UnloadOne(device: Device)
      requires Valid() && list != [] && list[0] == device
      modifies this`deviceObject, this`list, this`log, device`memory
      ensures Valid() && list == old(list)[1..] && Infos(list) == old(Infos(list))[1..] && device.memory.Freed?
      ensures log == old(log) + Releases(old(Infos(list))[0])
    {
      ghost var others := list[1..];
      assert list == [device] + others && Infos(list) == [device.Info()] + Infos(others);
      assert LinkedAt(list, 0);
      if device.memory.kind == ControlDevice {
        ReleaseHeld(device.memory.mapped, Mapping);
      } else {
        ReleaseHeld(device.memory.attached, Attachment(device.id));
      }
      DeleteNewest(device, others);
    }

    method ReleaseHeld(held: bool, ghost resource: Resource)
      requires Valid()
      modifies this`log
      ensures Valid() && log == old(log) + (if held then [Release(resource)] else [])
    {
      if held {
        Kernel(Release(resource));
      }
    }
  }

  /** What loading leaves, put together. */
  lemma EntryIsReached(s: DriverState, o: EntryOutcome, devices: seq<DeviceInfo>, log: seq<KernelCall>)
    requires o != EntryNoDevice && devices == (if o == Loaded then [Control(s.created, true)] else []) + s.devices
    requires log == s.log + [Acquire(DeviceObject(s.created))] + LoadCalls(s.created, o)
    ensures DriverState(devices, s.created + 1, log) == Entry(s, o)
  {
  }

  lemma AddIsReached(s: DriverState, o: AddOutcome, devices: seq<DeviceInfo>, log: seq<KernelCall>)
    requires o != AddNoDevice && devices == (if o == Added then [Filter(s.created, true)] else []) + s.devices
    requires log == s.log + [Acquire(DeviceObject(s.created))] + AttachCalls(s.created, o)
    ensures DriverState(devices, s.created + 1, log) == Add(s, o)
  {
  }

  lemma ReleaseAllOne(log: seq<KernelCall>, devices: seq<DeviceInfo>)
    requires devices != []
    ensures log + Releases(devices[0]) + ReleaseAll(devices[1..]) == log + ReleaseAll(devices)
  {
  }

  // ---- Runs ----

  datatype Event = AddKeyboard(outcome: AddOutcome) | RemoveDevice(at: nat)

  /** The driver's life: entry, any number of keyboards added and removed in any order. */
  function RunAll(s: DriverState, events: seq<Event>): DriverState
    decreases |events|
  {
    if events == [] then s else RunAll(Happen(s, events[0]), events[1..])
  }

  function Happen(s: DriverState, e: Event): DriverState {
    match e
    case AddKeyboard(o) => Add(s, o)
    case RemoveDevice(i) => if i < |s.devices| then Remove(s, i) else s
  }

  /** Replays a log: what is held at the end, or none if some call acquired what was held or released what was not. */
  function Replay(log: seq<KernelCall>): Option<set<Resource>> {
    if log == [] then Some({})
    else
      var n := |log| - 1;
      var held := Replay(log[..n]);
      if held.None? then None
      else
        match log[n]
        case Acquire(r) => if r in held.value then None else Some(held.value + {r})
        case Release(r) => if r in held.value then Some(held.value - {r}) else None
  }

  /** A device object may be released when its attachment is not held any more, and that of the control device, which is
      the first, when neither the mapping nor the link is. */
  predicate MayRelease(held: set<Resource>, r: Resource) {
    r.DeviceObject? ==> Attachment(r.id) !in held && (r.id == 0 ==> Mapping !in held && Link !in held)
  }

  /** Every release of a log comes when it may. */
  predicate InOrder(log: seq<KernelCall>) {
    log == [] ||
    (var n := |log| - 1;
     var held := Replay(log[..n]);
     InOrder(log[..n]) && held.Some? && (log[n].Release? ==> MayRelease(held.value, log[n].resource)))
  }

  lemma {:induction false} InOrderThroughout(log: seq<KernelCall>, i: nat)
    requires InOrder(log) && i < |log|
    ensures Replay(log[..i]).Some?
    ensures log[i].Release? ==> MayRelease(Replay(log[..i]).value, log[i].resource)
    decreases |log|
  {
    var front := log[..|log| - 1];
    if i < |log| - 1 {
      InOrderThroughout(front, i);
      assert front[..i] == log[..i] && front[i] == log[i];
    }
  }

  lemma ReplayAcquire(log: seq<KernelCall>, r: Resource, held: set<Resource>, after: set<Resource>)
    requires Replay(log) == Some(held) && r !in held && after == held + {r}
    ensures Replay(log + [Acquire(r)]) == Some(after)
    ensures InOrder(log) ==> InOrder(log + [Acquire(r)])
  {
    assert (log + [Acquire(r)])[..|log|] == log;
  }

  lemma ReplayRelease(log: seq<KernelCall>, r: Resource, held: set<Resource>, after: set<Resource>)
    requires Replay(log) == Some(held) && r in held && after == held - {r}
    ensures Replay(log + [Release(r)]) == Some(after)
    ensures InOrder(log) && MayRelease(held, r) ==> InOrder(log + [Release(r)])
  {
    assert (log + [Release(r)])[..|log|] == log;
  }

  /** What the devices of the list hold between them, besides the link. */
  function Holds(d: DeviceInfo): set<Resource> {
    {DeviceObject(d.id)} +
    (match d
     case Control(_, mapped) => if mapped then {Mapping} else {}
     case Filter(id, attached) => if attached then {Attachment(id)} else {})
  }

  function HoldAll(devices: seq<DeviceInfo>): set<Resource> {
    if devices == [] then {} else Holds(devices[0]) + HoldAll(devices[1..])
  }

  /** A resource of a device created before the n-th. */
  predicate IsOlder(r: Resource, n: nat) {
    match r
    case DeviceObject(id) => id < n
    case Attachment(id) => id < n
    case _ => r == Mapping
  }

  /** As the driver keeps its devices: the first one created, mapped, is the control device, every other an attached
      filter. */
  predicate InUse(d: DeviceInfo) { if d.Control? then d.id == 0 && d.mapped else d.id > 0 && d.attached }

  ghost predicate Disjoint(devices: seq<DeviceInfo>) {
    forall i, j | 0 <= i < j < |devices| :: Holds(devices[i]) !! Holds(devices[j])
  }

  /** The log is exact: replaying it gives what the devices and the link stand for. */
  ghost predicate Invariant(s: DriverState) {
    && Disjoint(s.devices)
    && s.created > 0 && (forall i | 0 <= i < |s.devices| :: InUse(s.devices[i]))
    && (forall i | 0 <= i < |s.devices| :: forall r | r in Holds(s.devices[i]) :: IsOlder(r, s.created))
    && Replay(s.log) == Some(HoldAll(s.devices) + {Link}) && InOrder(s.log)
  }

  lemma {:induction false} InHoldAll(devices: seq<DeviceInfo>, r: Resource)
    ensures r in HoldAll(devices) <==> exists i :: 0 <= i < |devices| && r in Holds(devices[i])
    decreases |devices|
  {
    if devices != [] {
      InHoldAll(devices[1..], r);
      if r in HoldAll(devices[1..]) {
        var i :| 0 <= i < |devices[1..]| && r in Holds(devices[1..][i]);
        assert r in Holds(devices[i + 1]);
      }
      if i :| 0 < i < |devices| && r in Holds(devices[i]) {
        assert r in Holds(devices[1..][i - 1]);
      }
    }
  }

  /** Releasing what one device holds, from a state in which it is held. */
  lemma DeviceIsReleased(log: seq<KernelCall>, d: DeviceInfo, held: set<Resource>, others: set<Resource>)
    requires Replay(log) == Some(held) && held == Holds(d) + others && Holds(d) !! others
    ensures Replay(log + Releases(d)) == Some(others)
    ensures InOrder(log) && InUse(d) && (d.Control? ==> Link !in others && Attachment(0) !in others) ==>
              InOrder(log + Releases(d))
  {
    hide Replay, InOrder;
    var device := DeviceObject(d.id);
    if |Releases(d)| == 1 {
      assert Holds(d) == {device};
      ReplayRelease(log, device, held, others);
      assert log + Releases(d) == log + [Release(device)];
    } else {
      var first := Releases(d)[0].resource;
      assert Holds(d) == {first, device} && Releases(d) == [Release(first), Release(device)];
      ReplayRelease(log, first, held, others + {device});
      ReplayRelease(log + [Release(first)], device, others + {device}, others);
      assert log + Releases(d) == log + [Release(first)] + [Release(device)];
    }
  }

  lemma {:induction false} AllAreReleased(log: seq<KernelCall>, devices: seq<DeviceInfo>)
    requires Disjoint(devices) && Replay(log) == Some(HoldAll(devices)) && InOrder(log) && Link !in HoldAll(devices)
    requires forall i | 0 <= i < |devices| :: InUse(devices[i])
    ensures Replay(log + ReleaseAll(devices)) == Some({}) && InOrder(log + ReleaseAll(devices))
    decreases |devices|
  {
    if devices == [] {
      assert log + [] == log;
    } else {
      var d, rest := devices[0], devices[1..];
      NoFirstFilter(rest);
      assert HoldAll(devices) == Holds(d) + HoldAll(rest);
      hide Replay, InOrder, InUse, Holds, Releases, ReleaseAll;
      HeadIsDisjoint(devices);
      DeviceIsReleased(log, d, HoldAll(devices), HoldAll(rest));
      hide HoldAll;
      AllAreReleased(log + Releases(d), rest);
      ReleaseAllOne(log, devices);
    }
  }

  /** The first device is not a filter. */
  lemma NoFirstFilter(devices: seq<DeviceInfo>)
    requires forall i | 0 <= i < |devices| :: InUse(devices[i])
    ensures Attachment(0) !in HoldAll(devices)
  {
    InHoldAll(devices, Attachment(0));
  }

  lemma HeadIsDisjoint(devices: seq<DeviceInfo>)
    requires devices != [] && Disjoint(devices)
    ensures Holds(devices[0]) !! HoldAll(devices[1..]) && Disjoint(devices[1..])
  {
    assert forall i | 0 <= i < |devices[1..]| :: devices[1..][i] == devices[i + 1];
    forall r | r in Holds(devices[0]) ensures r !in HoldAll(devices[1..]) {
      InHoldAll(devices[1..], r);
    }
  }

  lemma NewIsNotHeld(s: DriverState, r: Resource)
    requires Invariant(s) && (r == DeviceObject(s.created) || r == Attachment(s.created))
    ensures r !in HoldAll(s.devices) + {Link}
  {
    InHoldAll(s.devices, r);
  }

  /** The calls of adding a keyboard replay exactly, at whatever step adding fails. */
  lemma AddReplays(s: DriverState, o: AddOutcome, held: set<Resource>)
    requires Replay(s.log) == Some(held) && o != AddNoDevice
    requires DeviceObject(s.created) !in held && Attachment(s.created) !in held
    ensures Replay(Add(s, o).log) ==
            Some(if o == Added then held + {DeviceObject(s.created), Attachment(s.created)} else held)
    ensures InOrder(s.log) && s.created > 0 ==> InOrder(Add(s, o).log)
  {
    hide Replay, InOrder;
    var device, attachment := DeviceObject(s.created), Attachment(s.created);
    var created := s.log + [Acquire(device)];
    ReplayAcquire(s.log, device, held, held + {device});
    if o == Added {
      ReplayAcquire(created, attachment, held + {device}, held + {device, attachment});
    } else {
      ReplayRelease(created, device, held + {device}, held);
    }
  }

  lemma AddKeeps(s: DriverState, o: AddOutcome)
    requires Invariant(s)
    ensures Invariant(Add(s, o))
  {
    hide Replay, InOrder, HoldAll, Holds, Disjoint, AttachCalls;
    if o != AddNoDevice {
      NewIsNotHeld(s, DeviceObject(s.created));
      NewIsNotHeld(s, Attachment(s.created));
      AddReplays(s, o, HoldAll(s.devices) + {Link});
      if o == Added {
        hide IsOlder;
        NewDevice(s);
        assert Add(s, o).devices == [Filter(s.created, true)] + s.devices;
        assert HoldAll(Add(s, o).devices) + {Link} ==
               HoldAll(s.devices) + {Link} + {DeviceObject(s.created), Attachment(s.created)};
      } else {
        assert Add(s, o).devices == s.devices;
      }
    }
  }

  lemma NewDevice(s: DriverState)
    requires Invariant(s)
    ensures var devices := [Filter(s.created, true)] + s.devices;
            && Disjoint(devices)
            && HoldAll(devices) == HoldAll(s.devices) + {DeviceObject(s.created), Attachment(s.created)}
            && forall i | 0 <= i < |devices| :: forall r | r in Holds(devices[i]) :: IsOlder(r, s.created + 1)
  {
  }

  lemma RemoveKeeps(s: DriverState, i: nat)
    requires Invariant(s) && i < |s.devices|
    ensures Invariant(Remove(s, i))
  {
    hide Replay, InOrder, HoldAll, IsOlder;
    var d := s.devices[i];
    if d.Filter? {
      var rest := s.devices[..i] + s.devices[i + 1..];
      assert forall k | 0 <= k < |rest| :: rest[k] == s.devices[if k < i then k else k + 1];
      RestIsHeld(s.devices, i);
      assert Releases(d) == [Release(Attachment(d.id)), Release(DeviceObject(d.id))];
      DeviceIsReleased(s.log, d, HoldAll(s.devices) + {Link}, HoldAll(rest) + {Link});
    }
  }

  lemma RestIsHeld(devices: seq<DeviceInfo>, i: nat)
    requires Disjoint(devices) && i < |devices|
    ensures var rest := devices[..i] + devices[i + 1..];
            Holds(devices[i]) !! HoldAll(rest) + {Link} && HoldAll(devices) == Holds(devices[i]) + HoldAll(rest)
  {
    var rest := devices[..i] + devices[i + 1..];
    assert forall k | 0 <= k < |rest| :: rest[k] == devices[if k < i then k else k + 1];
    forall r ensures r in HoldAll(devices) <==> r in Holds(devices[i]) + HoldAll(rest) {
      InHoldAll(devices, r);
      InHoldAll(rest, r);
      if k :| 0 <= k < |devices| && r in Holds(devices[k]) {
        if k != i {
          assert r in Holds(rest[if k < i then k else k - 1]);
        }
      }
    }
    forall r | r in Holds(devices[i]) ensures r !in HoldAll(rest) {
      InHoldAll(rest, r);
    }
  }

  lemma HappenKeeps(s: DriverState, e: Event)
    requires Invariant(s)
    ensures Invariant(Happen(s, e))
  {
    hide Invariant;
    match e
    case AddKeyboard(o) => AddKeeps(s, o);
    case RemoveDevice(i) =>
      if i < |s.devices| {
        RemoveKeeps(s, i);
      }
  }

  lemma {:induction false} RunKeeps(s: DriverState, events: seq<Event>)
    requires Invariant(s)
    ensures Invariant(RunAll(s, events))
    decreases |events|
  {
    if events != [] {
      hide Invariant, Happen;
      HappenKeeps(s, events[0]);
      RunKeeps(Happen(s, events[0]), events[1..]);
    }
  }

  const FRESH := DriverState([], 0, [])

  lemma EntryIsExact(o: EntryOutcome)
    ensures o != Loaded ==>
              Replay(Entry(FRESH, o).log) == Some({}) && InOrder(Entry(FRESH, o).log) && Entry(FRESH, o).devices == []
    ensures o == Loaded ==> Invariant(Entry(FRESH, o))
  {
    var device := DeviceObject(0);
    var log := [] + [Acquire(device)];
    ReplayAcquire([], device, {}, {device});
    if o == EntryNoMapping {
      ReplayRelease(log, device, {device}, {});
    } else if o != EntryNoDevice {
      ReplayAcquire(log, Mapping, {device}, {device, Mapping});
      log := log + [Acquire(Mapping)];
      if o == Loaded {
        ReplayAcquire(log, Link, {device, Mapping}, {device, Mapping, Link});
        assert Entry(FRESH, o).log == log + [Acquire(Link)];
        assert Entry(FRESH, o).devices == [Control(0, true)];
        assert HoldAll([Control(0, true)]) == {device, Mapping};
      } else {
        ReplayRelease(log, Mapping, {device, Mapping}, {device});
        ReplayRelease(log + [Release(Mapping)], device, {device}, {});
        assert Entry(FRESH, o).log == log + [Release(Mapping)] + [Release(device)];
      }
    }
  }

  /** What a log acquires, in order. */
  function Acquired(log: seq<KernelCall>): seq<Resource> {
    if log == [] then []
    else
      var n := |log| - 1;
      Acquired(log[..n]) + if log[n].Acquire? then [log[n].resource] else []
  }

  lemma AcquiredOne(log: seq<KernelCall>, call: KernelCall)
    ensures Acquired(log + [call]) == Acquired(log) + if call.Acquire? then [call.resource] else []
  {
    assert (log + [call])[..|log|] == log;
  }

  /** How far loading gets: the device, the mapping and the link are acquired in this order, up to what fails. */
  lemma LoadAcquiresInOrder(o: EntryOutcome)
    ensures Acquired(Entry(FRESH, o).log) ==
            match o
            case EntryNoDevice => []
            case EntryNoMapping => [DeviceObject(0)]
            case EntryNoLink => [DeviceObject(0), Mapping]
            case Loaded => [DeviceObject(0), Mapping, Link]
  {
    var device := [] + [Acquire(DeviceObject(0))];
    AcquiredOne([], Acquire(DeviceObject(0)));
    AcquiredOne(device, Release(DeviceObject(0)));
    AcquiredOne(device, Acquire(Mapping));
    var mapped := device + [Acquire(Mapping)];
    AcquiredOne(mapped, Acquire(Link));
    AcquiredOne(mapped, Release(Mapping));
    AcquiredOne(mapped + [Release(Mapping)], Release(DeviceObject(0)));
    hide Acquired;
    var log := Entry(FRESH, o).log;
    match o
    case EntryNoDevice => NothingAcquired();
    case EntryNoMapping => assert log == device + [Release(DeviceObject(0))];
    case EntryNoLink => assert log == mapped + [Release(Mapping)] + [Release(DeviceObject(0))];
    case Loaded => assert log == mapped + [Acquire(Link)];
  }

  lemma NothingAcquired()
    ensures Acquired([]) == []
  {
  }

  /** Lifecycle conservation. A failed load leaves nothing behind. After a load, whatever keyboards are added, fail to
      be added, and are removed, the kernel calls made so far replay without a double or a missing release to exactly
      what is in use, and after unloading to nothing. No device object is ever released before what belongs to it. */
  lemma EverythingIsReleasedOnce(o: EntryOutcome, events: seq<Event>)
    ensures o != Loaded ==> Replay(Entry(FRESH, o).log) == Some({}) && InOrder(Entry(FRESH, o).log)
    ensures o == Loaded ==>
              var s := RunAll(Entry(FRESH, o), events);
              && Replay(s.log) == Some(HoldAll(s.devices) + {Link})
              && Replay(Unload(s).log) == Some({}) && Unload(s).devices == [] && InOrder(Unload(s).log)
  {
    EntryIsExact(o);
    if o == Loaded {
      RunKeeps(Entry(FRESH, o), events);
      var s := RunAll(Entry(FRESH, o), events);
      forall r | r in HoldAll(s.devices) ensures r != Link {
        InHoldAll(s.devices, r);
      }
      ReplayRelease(s.log, Link, HoldAll(s.devices) + {Link}, HoldAll(s.devices));
      AllAreReleased(s.log + [Release(Link)], s.devices);
    }
  }

  // ---- What is in use, read off the events ----

  /** The filters there are after an event, newest first, by number, if `created` devices were created before it. */
  function AliveAfter(created: nat, alive: seq<nat>, e: Event): seq<nat> {
    match e
    case AddKeyboard(o) => if o == Added then [created] + alive else alive
    case RemoveDevice(i) => if i < |alive| then alive[..i] + alive[i + 1..] else alive
  }

  function Keyboards(created: nat, alive: seq<nat>, events: seq<Event>): seq<nat>
    decreases |events|
  {
    if events == [] then alive
    else
      var e := events[0];
      var uses := if e.AddKeyboard? && e.outcome != AddNoDevice then 1 else 0;
      Keyboards(created + uses, AliveAfter(created, alive, e), events[1..])
  }

  /** Attached filters with these numbers, and the control device last. */
  function Devices(alive: seq<nat>): (r: seq<DeviceInfo>)
    ensures |r| == |alive| + 1 && r[|alive|] == Control(0, true)
    ensures forall i | 0 <= i < |alive| :: r[i] == Filter(alive[i], true)
  {
    seq(|alive|, i requires 0 <= i < |alive| => Filter(alive[i], true)) + [Control(0, true)]
  }

  lemma DevicesWithout(alive: seq<nat>, i: nat)
    requires i < |alive|
    ensures Devices(alive)[..i] + Devices(alive)[i + 1..] == Devices(alive[..i] + alive[i + 1..])
  {
    var rest := alive[..i] + alive[i + 1..];
    assert forall k | 0 <= k < |rest| :: rest[k] == alive[if k < i then k else k + 1];
  }

  lemma DevicesFollowEvent(s: DriverState, alive: seq<nat>, e: Event)
    requires s.devices == Devices(alive)
    ensures Happen(s, e).devices == Devices(AliveAfter(s.created, alive, e))
    ensures Happen(s, e).created == s.created + if e.AddKeyboard? && e.outcome != AddNoDevice then 1 else 0
  {
    hide Devices;
    match e
    case AddKeyboard(o) => NewFilterFirst(s.created, alive);
    case RemoveDevice(i) =>
      if i < |alive| {
        DevicesWithout(alive, i);
      }
  }

  lemma {:induction false} DevicesFollowEvents(s: DriverState, alive: seq<nat>, events: seq<Event>)
    requires s.devices == Devices(alive)
    ensures RunAll(s, events).devices == Devices(Keyboards(s.created, alive, events))
    decreases |events|
  {
    hide *;
    if events == [] {
      NothingHappens(s, alive);
    } else {
      var e, rest := events[0], events[1..];
      EventsUnfold(s, alive, events);
      DevicesFollowEvent(s, alive, e);
      DevicesFollowEvents(Happen(s, e), AliveAfter(s.created, alive, e), rest);
    }
  }

  lemma NothingHappens(s: DriverState, alive: seq<nat>)
    ensures RunAll(s, []) == s && Keyboards(s.created, alive, []) == alive
  {
  }

  lemma EventsUnfold(s: DriverState, alive: seq<nat>, events: seq<Event>)
    requires events != []
    ensures var e, rest := events[0], events[1..];
            var created := s.created + if e.AddKeyboard? && e.outcome != AddNoDevice then 1 else 0;
            && RunAll(s, events) == RunAll(Happen(s, e), rest)
            && Keyboards(s.created, alive, events) == Keyboards(created, AliveAfter(s.created, alive, e), rest)
  {
    hide Happen, AliveAfter;
  }

  lemma NewFilterFirst(id: nat, alive: seq<nat>)
    ensures Devices([id] + alive) == [Filter(id, true)] + Devices(alive)
  {
  }

  lemma HeldByDevices(alive: seq<nat>)
    ensures HoldAll(Devices(alive)) ==
            {DeviceObject(0), Mapping} + (set k | k in alive :: DeviceObject(k)) + (set k | k in alive :: Attachment(k))
  {
    var devices := Devices(alive);
    forall r ensures r in HoldAll(devices) <==>
                     r == DeviceObject(0) || r == Mapping ||
                     exists k :: k in alive && (r == DeviceObject(k) || r == Attachment(k))
    {
      InHoldAll(devices, r);
      assert Holds(devices[|alive|]) == {DeviceObject(0), Mapping};
      if k :| k in alive && (r == DeviceObject(k) || r == Attachment(k)) {
        var i :| 0 <= i < |alive| && alive[i] == k;
        assert r in Holds(devices[i]);
      }
    }
  }

  /** What the kernel calls of any life amount to, read off its events: after a load the control device, its mapping and
      its link are held, and of the keyboards added successfully and not removed since the device and the attachment. */
  lemma HeldFollowsEvents(events: seq<Event>)
    ensures var alive := Keyboards(1, [], events);
            Replay(RunAll(Entry(FRESH, Loaded), events).log) ==
            Some({DeviceObject(0), Mapping, Link} +
                 (set k | k in alive :: DeviceObject(k)) + (set k | k in alive :: Attachment(k)))
  {
    var s, alive := Entry(FRESH, Loaded), Keyboards(1, [], events);
    assert s.devices == Devices([]) && s.created == 1;
    EverythingIsReleasedOnce(Loaded, events);
    DevicesFollowEvents(s, [], events);
    HeldByDevices(alive);
    hide *;
    var kept := (set k | k in alive :: DeviceObject(k)) + (set k | k in alive :: Attachment(k));
    assert {DeviceObject(0), Mapping} + kept + {Link} == {DeviceObject(0), Mapping, Link} + kept;
    assert HoldAll(Devices(alive)) == {DeviceObject(0), Mapping} + kept;
    assert {DeviceObject(0), Mapping, Link} + kept ==
           {DeviceObject(0), Mapping, Link} +
             (set k | k in alive :: DeviceObject(k)) + (set k | k in alive :: Attachment(k));
  }

  /** No device object is released while its attachment is still held, nor the control device, number 0, while the
      mapping or the link is, at any point of any life. */
  lemma NothingIsReleasedTooEarly(o: EntryOutcome, events: seq<Event>, i: nat, id: nat)
    requires var log := if o == Loaded then Unload(RunAll(Entry(FRESH, o), events)).log else Entry(FRESH, o).log;
             i < |log| && log[i] == Release(DeviceObject(id))
    ensures var log := if o == Loaded then Unload(RunAll(Entry(FRESH, o), events)).log else Entry(FRESH, o).log;
            var held := Replay(log[..i]);
            && held.Some? && DeviceObject(id) in held.value && Attachment(id) !in held.value
            && (id == 0 ==> Mapping !in held.value && Link !in held.value)
  {
    var log := if o == Loaded then Unload(RunAll(Entry(FRESH, o), events)).log else Entry(FRESH, o).log;
    EverythingIsReleasedOnce(o, events);
    InOrderThroughout(log, i);
    ReplayedThroughout(log, i);
  }

  /** What is released was held. */
  lemma {:induction false} ReplayedThroughout(log: seq<KernelCall>, i: nat)
    requires Replay(log).Some? && i < |log|
    ensures Replay(log[..i]).Some?
    ensures log[i].Release? ==> log[i].resource in Replay(log[..i]).value
    decreases |log|
  {
    var front := log[..|log| - 1];
    if i < |log| - 1 {
      ReplayedThroughout(front, i);
      assert front[..i] == log[..i] && front[i] == log[i];
    }
  }
}
