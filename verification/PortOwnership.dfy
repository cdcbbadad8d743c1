/** Who owns which message port: the records of axcl_pcie_host.c and the law that ties them
  to the global port_info table. */
module PortOwnership {

  const BASE_PORT: nat := 21       // AXCL_BASE_PORT
  const MAX_PORTS: nat := 0x80     // MAX_MSG_PORTS
  const MAX_PORT: nat := 4         // AXCL_MAX_PORT
  const MAX_DEV: nat := 0x100      // AXERA_MAX_MAP_DEV

  /** struct device_handle_t; groups is usr_port_list, each group the ports of one
      usr_port_info. */
  datatype DevHandle = DevHandle(device: nat, cmd: nat, ports: seq<nat>, groups: seq<seq<nat>>)

  /** struct process_info_t. */
  datatype Process = Process(pid: nat, devs: seq<DevHandle>, event: nat)

  /** A port of a device. */
  type Slot = (nat, nat)

  function Flatten(groups: seq<seq<nat>>): seq<nat> {
    if groups == [] then [] else Flatten(groups[..|groups| - 1]) + groups[|groups| - 1]
  }

  function HandlePorts(h: DevHandle): seq<nat> {
    h.ports + Flatten(h.groups)
  }

  ghost function SlotSet(dev: nat, ports: seq<nat>): set<Slot> {
    set p | p in ports :: (dev, p)
  }

  /** How often a list of ports of one device names slot s. */
  ghost function Times(dev: nat, ports: seq<nat>, s: Slot): nat {
    if s.0 == dev then multiset(ports)[s.1] else 0
  }

  ghost function HandleOwns(h: DevHandle, s: Slot): nat {
    Times(h.device, HandlePorts(h), s)
  }

  ghost function DevsOwn(devs: seq<DevHandle>, s: Slot): nat {
    if devs == [] then 0 else DevsOwn(devs[..|devs| - 1], s) + HandleOwns(devs[|devs| - 1], s)
  }

  /** How many times slot s is owned, over every process, handle and user port group. */
  ghost function Owners(procs: seq<Process>, s: Slot): nat {
    if procs == [] then 0 else Owners(procs[..|procs| - 1], s) + DevsOwn(procs[|procs| - 1].devs, s)
  }

  ghost function Mark(slots: set<Slot>, s: Slot): nat {
    if s in slots then 1 else 0
  }

  /** Every marked port has exactly one owner or was leaked, never both; an unmarked port has none. */
  ghost predicate Balanced(procs: seq<Process>, leaked: set<Slot>, marked: set<Slot>) {
    forall s: Slot :: Owners(procs, s) + Mark(leaked, s) == Mark(marked, s)
  }

  /** At most one handle per device. */
  ghost predicate OneHandleEach(devs: seq<DevHandle>) {
    forall i, j | 0 <= i < j < |devs| :: devs[i].device != devs[j].device
  }

  /** The port arrays have room for MAX_PORT ports. */
  ghost predicate HandleOk(h: DevHandle) {
    && h.device < MAX_DEV && |h.ports| <= MAX_PORT
    && forall k | 0 <= k < |h.groups| :: |h.groups[k]| <= MAX_PORT
  }

  ghost predicate ProcessOk(p: Process) {
    && OneHandleEach(p.devs)
    && forall i | 0 <= i < |p.devs| :: HandleOk(p.devs[i])
  }

  ghost predicate ProcessesOk(procs: seq<Process>) {
    && (forall i | 0 <= i < |procs| :: ProcessOk(procs[i]))
    && forall i, j | 0 <= i < j < |procs| :: procs[i].pid != procs[j].pid
  }

  /** find_dev_handle: the index of the process's handle for a device, or |devs|. */
  function FindDev(devs: seq<DevHandle>, target: nat): (j: nat)
    ensures j <= |devs|
    ensures j < |devs| ==> devs[j].device == target
    ensures forall k | 0 <= k < j :: devs[k].device != target
  {
    if devs == [] || devs[0].device == target then 0 else 1 + FindDev(devs[1..], target)
  }

  function Remove<T>(s: seq<T>, j: nat): seq<T>
    requires j < |s|
  {
    s[..j] + s[j + 1..]
  }

  // ------------------------------------------------------- sums over the lists

  lemma TimesJoin(dev: nat, a: seq<nat>, b: seq<nat>, s: Slot)
    ensures Times(dev, a + b, s) == Times(dev, a, s) + Times(dev, b, s)
  {
    assert multiset(a + b) == multiset(a) + multiset(b);
  }

  lemma {:induction false} FlattenJoin(a: seq<seq<nat>>, b: seq<seq<nat>>)
    ensures Flatten(a + b) == Flatten(a) + Flatten(b)
  {
    if b == [] {
      assert a + b == a;
    } else {
      var n := |b| - 1;
      FlattenJoin(a, b[..n]);
      assert (a + b)[..|a + b| - 1] == a + b[..n];
    }
  }

  lemma FlattenOne(g: seq<nat>)
    ensures Flatten([g]) == g
  {
    assert [g][..0] == [];
    assert Flatten([]) == [];
  }

  /** One group more or less is its ports more or less. */
  lemma GroupOwns(h: DevHandle, j: nat, s: Slot)
    requires j < |h.groups|
    ensures HandleOwns(h, s)
         == HandleOwns(h.(groups := Remove(h.groups, j)), s) + Times(h.device, h.groups[j], s)
  {
    var a, g, b := h.groups[..j], h.groups[j], h.groups[j + 1..];
    assert h.groups == a + ([g] + b);
    FlattenJoin(a, [g] + b);
    FlattenJoin([g], b);
    FlattenOne(g);
    FlattenJoin(a, b);
    TimesJoin(h.device, h.ports, Flatten(h.groups), s);
    TimesJoin(h.device, Flatten(a), g + Flatten(b), s);
    TimesJoin(h.device, g, Flatten(b), s);
    TimesJoin(h.device, h.ports, Flatten(a + b), s);
    TimesJoin(h.device, Flatten(a), Flatten(b), s);
  }

  lemma {:induction false} DevsJoin(a: seq<DevHandle>, b: seq<DevHandle>, s: Slot)
    ensures DevsOwn(a + b, s) == DevsOwn(a, s) + DevsOwn(b, s)
  {
    if b == [] {
      assert a + b == a;
    } else {
      var n := |b| - 1;
      DevsJoin(a, b[..n], s);
      assert (a + b)[..|a + b| - 1] == a + b[..n];
    }
  }

  lemma DevsPush(devs: seq<DevHandle>, h: DevHandle, s: Slot)
    ensures DevsOwn(devs + [h], s) == DevsOwn(devs, s) + HandleOwns(h, s)
  {
    assert (devs + [h])[..|devs|] == devs;
  }

  lemma DevsRemove(devs: seq<DevHandle>, j: nat, s: Slot)
    requires j < |devs|
    ensures DevsOwn(devs, s) == DevsOwn(Remove(devs, j), s) + HandleOwns(devs[j], s)
  {
    assert devs == (devs[..j] + [devs[j]]) + devs[j + 1..];
    DevsJoin(devs[..j] + [devs[j]], devs[j + 1..], s);
    DevsPush(devs[..j], devs[j], s);
    DevsJoin(devs[..j], devs[j + 1..], s);
  }

  lemma DevsReplace(devs: seq<DevHandle>, j: nat, h: DevHandle, s: Slot)
    requires j < |devs|
    ensures DevsOwn(devs[j := h], s) + HandleOwns(devs[j], s) == DevsOwn(devs, s) + HandleOwns(h, s)
  {
    DevsRemove(devs, j, s);
    DevsRemove(devs[j := h], j, s);
    assert Remove(devs[j := h], j) == Remove(devs, j);
  }

  lemma {:induction false} OwnersJoin(a: seq<Process>, b: seq<Process>, s: Slot)
    ensures Owners(a + b, s) == Owners(a, s) + Owners(b, s)
  {
    if b == [] {
      assert a + b == a;
    } else {
      var n := |b| - 1;
      OwnersJoin(a, b[..n], s);
      assert (a + b)[..|a + b| - 1] == a + b[..n];
    }
  }

  lemma OwnersPush(procs: seq<Process>, p: Process, s: Slot)
    ensures Owners(procs + [p], s) == Owners(procs, s) + DevsOwn(p.devs, s)
  {
    assert (procs + [p])[..|procs|] == procs;
  }

  lemma OwnersRemove(procs: seq<Process>, i: nat, s: Slot)
    requires i < |procs|
    ensures Owners(procs, s) == Owners(Remove(procs, i), s) + DevsOwn(procs[i].devs, s)
  {
    assert procs == (procs[..i] + [procs[i]]) + procs[i + 1..];
    OwnersJoin(procs[..i] + [procs[i]], procs[i + 1..], s);
    OwnersPush(procs[..i], procs[i], s);
    OwnersJoin(procs[..i], procs[i + 1..], s);
  }

  lemma OwnersReplace(procs: seq<Process>, i: nat, p: Process, s: Slot)
    requires i < |procs|
    ensures Owners(procs[i := p], s) + DevsOwn(procs[i].devs, s) == Owners(procs, s) + DevsOwn(p.devs, s)
  {
    OwnersRemove(procs, i, s);
    OwnersRemove(procs[i := p], i, s);
    assert Remove(procs[i := p], i) == Remove(procs, i);
  }

  // ------------------------------------------------- how the balance moves

  /** An owner gives ports back and they are unmarked. */
  lemma BalanceFree(procs: seq<Process>, procs': seq<Process>, leaked: set<Slot>, marked: set<Slot>, dev: nat, ports: seq<nat>)
    requires Balanced(procs, leaked, marked)
    requires forall s: Slot :: Owners(procs, s) == Owners(procs', s) + Times(dev, ports, s)
    ensures Balanced(procs', leaked, marked - SlotSet(dev, ports))
  {
    forall s: Slot
      ensures Owners(procs', s) + Mark(leaked, s) == Mark(marked - SlotSet(dev, ports), s)
    {
      assert Owners(procs, s) == Owners(procs', s) + Times(dev, ports, s);
      assert Times(dev, ports, s) > 0 <==> s in SlotSet(dev, ports);
    }
  }

  ghost predicate FreshPorts(dev: nat, ports: seq<nat>, marked: set<Slot>) {
    && (forall i, j | 0 <= i < j < |ports| :: ports[i] != ports[j])
    && (forall i | 0 <= i < |ports| :: (dev, ports[i]) !in marked)
  }

  lemma {:induction false} NamedOnce(ports: seq<nat>, p: nat)
    requires forall i, j | 0 <= i < j < |ports| :: ports[i] != ports[j]
    ensures multiset(ports)[p] <= 1
  {
    if ports != [] {
      var n := |ports| - 1;
      NamedOnce(ports[..n], p);
      assert ports[..n] + [ports[n]] == ports;
      assert ports[n] !in ports[..n];
      assert multiset(ports) == multiset(ports[..n]) + multiset{ports[n]};
    }
  }

  lemma FreshOnce(dev: nat, ports: seq<nat>, marked: set<Slot>, s: Slot)
    requires FreshPorts(dev, ports, marked)
    ensures Times(dev, ports, s) == Mark(SlotSet(dev, ports), s)
    ensures Mark(marked + SlotSet(dev, ports), s) == Mark(marked, s) + Times(dev, ports, s)
  {
    NamedOnce(ports, s.1);
    assert s.0 == dev ==> (s.1 in ports <==> s.1 in multiset(ports));
  }

  /** Free ports are marked for a new owner. */
  lemma BalanceGrab(procs: seq<Process>, procs': seq<Process>, leaked: set<Slot>, marked: set<Slot>, dev: nat, ports: seq<nat>)
    requires Balanced(procs, leaked, marked) && FreshPorts(dev, ports, marked)
    requires forall s: Slot :: Owners(procs', s) == Owners(procs, s) + Times(dev, ports, s)
    ensures Balanced(procs', leaked, marked + SlotSet(dev, ports))
  {
    forall s: Slot
      ensures Owners(procs', s) + Mark(leaked, s) == Mark(marked + SlotSet(dev, ports), s)
    {
      FreshOnce(dev, ports, marked, s);
      assert Owners(procs, s) + Mark(leaked, s) == Mark(marked, s);
    }
  }

  /** Free ports are marked and then forgotten. */
  lemma BalanceLeak(procs: seq<Process>, leaked: set<Slot>, marked: set<Slot>, dev: nat, ports: seq<nat>)
    requires Balanced(procs, leaked, marked) && FreshPorts(dev, ports, marked)
    ensures Balanced(procs, leaked + SlotSet(dev, ports), marked + SlotSet(dev, ports))
  {
    forall s: Slot
      ensures Owners(procs, s) + Mark(leaked + SlotSet(dev, ports), s) == Mark(marked + SlotSet(dev, ports), s)
    {
      assert Owners(procs, s) + Mark(leaked, s) == Mark(marked, s);
      assert s in SlotSet(dev, ports) ==> s !in marked;
    }
  }

  /** What the balance says of a single port. */
  lemma OneOwner(procs: seq<Process>, leaked: set<Slot>, marked: set<Slot>, s: Slot)
    requires Balanced(procs, leaked, marked)
    ensures s in marked <==> Owners(procs, s) == 1 || s in leaked
    ensures Owners(procs, s) <= 1
    ensures !(Owners(procs, s) == 1 && s in leaked)
  {
    assert Owners(procs, s) + Mark(leaked, s) == Mark(marked, s);
  }
}
