/** The port management of axcl_pcie_host.c on its own data: the port_info table, written in
  place, and the process list. Every operation is proved to do what PortBooks says of it. */
module PortRegistry {
  import opened Common
  import opened PortOwnership
  import opened PortBooks
  import opened PortMeaning

  class Registry {
    const portInfo: array2<nat>
    var processes: seq<Process>
    /** Ports that were marked by a create and then forgotten; no code looks at it. */
    ghost var leaked: set<Slot>

    ghost predicate TableOk()
      reads portInfo
    {
      && portInfo.Length0 == MAX_DEV && portInfo.Length1 == MAX_PORTS
      && forall d, p | 0 <= d < MAX_DEV && 0 <= p < MAX_PORTS :: portInfo[d, p] == 0 || portInfo[d, p] == p
    }

    ghost function Marked(): set<Slot>
      reads portInfo
    {
      set d: nat, p: nat | d < portInfo.Length0 && p < portInfo.Length1 && portInfo[d, p] != 0 :: (d, p)
    }

    ghost function Snapshot(): Books
      reads this, portInfo
    {
      Books(processes, leaked, Marked())
    }

    ghost predicate Valid()
      reads this, portInfo
    {
      TableOk() && Ok(Snapshot())
    }

    constructor ()
      ensures Valid() && fresh(portInfo) && Snapshot() == EMPTY
    {
      portInfo := new nat[MAX_DEV, MAX_PORTS]((d, p) => 0);
      processes := [];
      leaked := {};
      new;
      assert Marked() == {};
    }

    // ---------------------------------------------------------------- the table

    /** Ports of one device are set free. */
    method ClearPorts(dev: nat, ports: seq<nat>)
      requires TableOk() && dev < MAX_DEV && forall p | p in ports :: p < MAX_PORTS
      modifies portInfo
      ensures TableOk() && Marked() == old(Marked()) - SlotSet(dev, ports)
    {
      var i: nat := 0;
      while i < |ports|
        invariant i <= |ports| && TableOk()
        invariant Marked() == old(Marked()) - SlotSet(dev, ports[..i])
      {
        ghost var before := Marked();
        assert ports[i] in ports;
        portInfo[dev, ports[i]] := 0;
        assert Marked() == before - {(dev, ports[i])};
        assert ports[..i + 1] == ports[..i] + [ports[i]];
        i := i + 1;
      }
      assert ports[..i] == ports;
    }

    /** axcl_clean_port_info: the handle's own ports, then those of each user port group. */
    method CleanPortInfo(h: DevHandle)
      requires TableOk() && h.device < MAX_DEV && forall p | p in HandlePorts(h) :: p < MAX_PORTS
      modifies portInfo
      ensures TableOk() && Marked() == old(Marked()) - SlotSet(h.device, HandlePorts(h))
    {
      assert forall p | p in h.ports :: p in HandlePorts(h);
      ClearPorts(h.device, h.ports);
      var k: nat := 0;
      while k < |h.groups|
        invariant k <= |h.groups| && TableOk()
        invariant Marked() == old(Marked()) - SlotSet(h.device, h.ports + Flatten(h.groups[..k]))
      {
        GroupInHandle(h, k);
        ClearPorts(h.device, h.groups[k]);
        assert SlotSet(h.device, h.ports + Flatten(h.groups[..k + 1]))
            == SlotSet(h.device, h.ports + Flatten(h.groups[..k])) + SlotSet(h.device, h.groups[k]);
        k := k + 1;
      }
      assert h.groups[..k] == h.groups;
    }

    method MarkPort(dev: nat, p: nat)
      requires TableOk() && dev < MAX_DEV && 0 < p < MAX_PORTS
      modifies portInfo
      ensures TableOk() && Marked() == old(Marked()) + {(dev, p)}
    {
      portInfo[dev, p] := p;
    }

    /** The search for free ports that create and request share: up to n of them, marked as
        they are found. */
    method TakePorts(dev: nat, n: nat) returns (taken: seq<nat>)
      requires TableOk() && dev < MAX_DEV
      modifies portInfo
      ensures TableOk() && taken == Lowest(old(Marked()), dev, BASE_PORT, n) && |taken| <= n
      ensures Marked() == old(Marked()) + SlotSet(dev, taken)
    {
      taken := [];
      var i := BASE_PORT;
      ghost var m := Marked();
      while i < MAX_PORTS
        invariant BASE_PORT <= i <= MAX_PORTS && TableOk() && |taken| <= n
        invariant taken + Lowest(m, dev, i, n - |taken|) == Lowest(m, dev, BASE_PORT, n)
        invariant Marked() == m + SlotSet(dev, taken)
        invariant forall p | p in taken :: p < i
        decreases MAX_PORTS - i
      {
        assert portInfo[dev, i] == i <==> (dev, i) in Marked();
        assert (dev, i) !in SlotSet(dev, taken);
        GrantStep(m, dev, i, n, taken);
        if portInfo[dev, i] != i {
          if |taken| == n {
            break;
          }
          MarkPort(dev, i);
          assert SlotSet(dev, taken + [i]) == SlotSet(dev, taken) + {(dev, i)};
          taken := taken + [i];
        }
        i := i + 1;
      }
    }

    method FirstFreePort(dev: nat) returns (i: nat)
      requires TableOk() && dev < MAX_DEV
      ensures i == FirstFree(Marked(), dev, BASE_PORT)
    {
      i := BASE_PORT;
      while i < MAX_PORTS
        invariant BASE_PORT <= i <= MAX_PORTS
        invariant FirstFree(Marked(), dev, i) == FirstFree(Marked(), dev, BASE_PORT)
      {
        if portInfo[dev, i] == 0 {
          return;
        }
        i := i + 1;
      }
    }

    // --------------------------------------------------------------- operations

    method Open(pid: nat, memory: bool) returns (ret: int)
      requires Valid()
      modifies this
      ensures Valid() && Snapshot() == Opened(old(Snapshot()), pid, memory)
      ensures ret == 0 <==> exists i :: 0 <= i < |processes| && processes[i].pid == pid
      ensures ret == 0 || ret == -1
    {
      OpenedOk(Snapshot(), pid, memory);
      var i: nat := 0;
      while i < |processes|
        invariant i <= |processes|
        invariant forall k | 0 <= k < i :: processes[k].pid != pid
      {
        if processes[i].pid == pid {
          return 0;
        }
        i := i + 1;
      }
      if !memory {
        return -1;
      }
      processes := processes + [Process(pid, [], 0)];
      assert processes[|processes| - 1].pid == pid;
      ret := 0;
    }

    /** axcl_clean_port_info, list_del and kfree: what destroy, reset, release and the sweep
        do with a handle. */
    method DropHandle(i: nat, j: nat)
      requires Valid() && i < |processes| && j < |processes[i].devs|
      modifies this, portInfo
      ensures Valid() && Snapshot() == Dropped(old(Snapshot()), i, j)
    {
      DroppedOk(Snapshot(), i, j);
      HandleInRange(Snapshot(), i, j);
      CleanPortInfo(processes[i].devs[j]);
      processes := processes[i := WithDevs(processes[i], Remove(processes[i].devs, j))];
    }

    method PortDestroy(i: nat, dev: nat, sent: bool) returns (ret: int)
      requires Valid() && i < |processes|
      modifies this, portInfo
      ensures Valid() && Snapshot() == Destroyed(old(Snapshot()), i, dev, sent)
      ensures ret == if sent && Names(old(processes)[i].devs, dev) then 0 else -1
      ensures ret != 0 ==> Snapshot() == old(Snapshot())
      ensures ret == 0 ==> HandleGone(old(Snapshot()), Snapshot(), i, dev)
    {
      DestroyMeans(Snapshot(), i, dev, sent);
      FoundIffNamed(processes[i].devs, dev);
      var j := FindDev(processes[i].devs, dev);
      if j == |processes[i].devs| || !sent {
        return -1;
      }
      DropHandle(i, j);
      ret := 0;
    }

    /** The part of a device reset or boot that concerns ports. */
    method Reset(i: nat, dev: nat)
      requires Valid() && i < |processes|
      modifies this, portInfo
      ensures Valid() && Snapshot() == Destroyed(old(Snapshot()), i, dev, true)
      ensures !Names(old(processes)[i].devs, dev) ==> Snapshot() == old(Snapshot())
      ensures Names(old(processes)[i].devs, dev) ==> HandleGone(old(Snapshot()), Snapshot(), i, dev)
    {
      DestroyMeans(Snapshot(), i, dev, true);
      var j := FindDev(processes[i].devs, dev);
      if j < |processes[i].devs| {
        DropHandle(i, j);
      }
    }

    /** cmd, count and ports are the fields of the caller's devinfo afterwards. */
    method PortCreate(i: nat, dev: nat, cmd: nat, num: nat, ports: seq<nat>, memory: bool, sent: bool, ack: Option<nat>)
      returns (ret: int, cmd': nat, num': nat, ports': seq<nat>)
      requires Valid() && i < |processes| && dev < MAX_DEV && |ports| == MAX_PORT
      modifies this, portInfo
      ensures Valid() && Snapshot() == Created(old(Snapshot()), i, dev, memory, sent, ack)
      ensures ret == 0 <==> HasHandle(processes[i], dev)
      ensures ret == if Names(old(processes)[i].devs, dev) || (memory && sent && ack.Some? && ack.value != CREATE_FAIL) then 0 else -1
      ensures ret != 0 && !memory ==> cmd' == cmd && num' == num && ports' == ports
      ensures ret != 0 && memory ==> var taken := Lowest(old(Marked()), dev, BASE_PORT, MAX_PORT);
        num' == |taken| && |taken| <= |ports| && ports' == Granted(ports, taken)
      ensures ret != 0 && memory ==> cmd' == if sent && ack.Some? then CREATE_FAIL else cmd
      ensures ret == 0 ==> var h := processes[i].devs[FindDev(processes[i].devs, dev)];
        cmd' == h.cmd && num' == |h.ports| && |h.ports| <= MAX_PORT && ports' == Granted(ports, h.ports)
    {
      ret, cmd', num', ports' := -1, cmd, num, ports;
      CreatedOk(Snapshot(), i, dev, memory, sent, ack);
      FoundIffNamed(processes[i].devs, dev);
      var p := processes[i];
      var j := FindDev(p.devs, dev);
      if j < |p.devs| {
        var h := p.devs[j];
        return 0, h.cmd, |h.ports|, Granted(ports, h.ports);
      }
      if !memory {
        return;
      }
      ghost var before := Marked();
      LowestFresh(before, dev, MAX_PORT);
      var taken := TakePorts(dev, MAX_PORT);
      num', ports' := |taken|, Granted(ports, taken);
      if !sent || ack.None? {
        leaked := leaked + SlotSet(dev, taken);
        return;
      }
      cmd' := ack.value;
      if ack.value == CREATE_FAIL {
        ClearPorts(dev, taken);
        assert Marked() == before;
        return;
      }
      var h := DevHandle(dev, ack.value, taken, []);
      processes := processes[i := WithDevs(p, p.devs + [h])];
      FindPushed(p.devs, h);
      ret := 0;
    }

    method RequestUsrPort(i: nat, dev: nat, num: nat, ports: seq<nat>, memory: bool)
      returns (ret: int, ports': seq<nat>)
      requires Valid() && i < |processes| && |ports| == MAX_PORT
      modifies this, portInfo
      ensures Valid() && Snapshot() == Requested(old(Snapshot()), i, dev, num, memory)
      ensures ret == RequestCode(old(Snapshot()), i, dev, num, memory)
      ensures ret != 0 ==> ports' == ports
      ensures ret == 0 ==> var taken := Lowest(old(Marked()), dev, BASE_PORT, num);
        |taken| <= MAX_PORT && ports' == Granted(ports, taken)
    {
      RequestedOk(Snapshot(), i, dev, num, memory);
      if num == 0 || num > MAX_PORT {
        return -22, ports;
      }
      var p := processes[i];
      var j := FindDev(p.devs, dev);
      if j == |p.devs| {
        return -1, ports;
      }
      var first := FirstFreePort(dev);
      if MAX_PORTS - first < num {
        return -1, ports;
      }
      if !memory {
        return -12, ports;
      }
      var taken := TakePorts(dev, num);
      var h := p.devs[j];
      var h' := DevHandle(h.device, h.cmd, h.ports, h.groups + [taken]);
      processes := processes[i := WithDevs(p, p.devs[j := h'])];
      return 0, Granted(ports, taken);
    }

    method RecycleUsrPort(i: nat, dev: nat, num: nat, ports: seq<nat>) returns (ret: int)
      requires Valid() && i < |processes| && |ports| == MAX_PORT
      modifies this, portInfo
      ensures Valid() && Snapshot() == Recycled(old(Snapshot()), i, dev, num, ports)
      ensures ret == RecycleCode(old(Snapshot()), i, dev, num, ports)
    {
      RecycledOk(Snapshot(), i, dev, num, ports);
      if num == 0 || num > MAX_PORT {
        return -22;
      }
      var p := processes[i];
      var j := FindDev(p.devs, dev);
      if j == |p.devs| {
        return -1;
      }
      var h := p.devs[j];
      var want := ports[..num];
      var k: nat, matched := 0, false;
      while k < |h.groups|
        invariant Valid() && Snapshot() == old(Snapshot()) && k <= |h.groups| && !matched
        invariant forall m | 0 <= m < k :: h.groups[m] != want
      {
        if |h.groups[k]| == num {
          matched := SamePorts(h.groups[k], ports);
          if matched {
            break;
          }
        }
        k := k + 1;
      }
      assert FindGroup(h.groups, want) == k;
      if !matched {
        return -1;
      }
      GroupInRange(Snapshot(), i, j, k);
      ClearPorts(dev, want);
      var h' := DevHandle(h.device, h.cmd, h.ports, Remove(h.groups, k));
      processes := processes[i := WithDevs(p, p.devs[j := h'])];
      ret := 0;
    }

    /** The ports of a group compared with the caller's, up to the first difference. */
    static method SamePorts(group: seq<nat>, ports: seq<nat>) returns (same: bool)
      requires |group| <= |ports|
      ensures same <==> group == ports[..|group|]
    {
      var i: nat := 0;
      while i < |group|
        invariant i <= |group| && group[..i] == ports[..i]
      {
        if group[i] != ports[i] {
          return false;
        }
        i := i + 1;
      }
      same := true;
      assert group[..i] == group;
    }

    /** The file of process i is closed; each slave is told, but what comes of that is not
        looked at. */
    method Release(i: nat)
      requires Valid() && i < |processes|
      modifies this, portInfo
      ensures Valid() && Snapshot() == Released(old(Snapshot()), i)
    {
      ghost var b := Snapshot();
      ReleasedOk(b, i);
      while processes[i].devs != []
        invariant Valid() && leaked == b.leaked && |processes| == |b.procs|
        invariant processes == b.procs[i := WithDevs(b.procs[i], processes[i].devs)]
        decreases |processes[i].devs|
      {
        DropHandle(i, 0);
      }
      ReleasedOk(Snapshot(), i);
      processes := Remove(processes, i);
      assert processes == Remove(b.procs, i);
      EmptyReleased(b, i, processes, Marked());
    }

    /** What the heartbeat thread does with the lists when device target is dead. */
    method HeartbeatDead(target: nat)
      requires Valid()
      modifies this, portInfo
      ensures Valid() && Snapshot() == Swept(old(Snapshot()), target)
    {
      ghost var b := Snapshot();
      var k: nat := 0;
      while k < |processes|
        invariant k <= |processes| && |processes| == |b.procs| && Valid() && leaked == b.leaked
        invariant forall i | 0 <= i < k :: processes[i] == SweptProcess(b.procs[i], target)
        invariant forall i | k <= i < |b.procs| :: processes[i] == b.procs[i]
      {
        SweepProcess(k, target);
        k := k + 1;
      }
      AllSwept(b, target, processes, Marked());
    }

    method SweepProcess(k: nat, target: nat)
      requires Valid() && k < |processes|
      modifies this, portInfo
      ensures Valid() && leaked == old(leaked)
      ensures processes == old(processes)[k := SweptProcess(old(processes)[k], target)]
    {
      ghost var p := processes[k];
      ghost var lost := FindDev(p.devs, target);
      SweptMeaning(p, target);
      if processes[k].devs == [] {
        BumpEvent(k);
        return;
      }
      var j: nat := 0;
      while j < |processes[k].devs|
        invariant Valid() && leaked == old(leaked) && |processes| == |old(processes)|
        invariant j <= |processes[k].devs|
        invariant (processes == old(processes) && j <= lost)
               || (lost < |p.devs| && processes == old(processes)[k := SweptProcess(p, target)])
        decreases |processes[k].devs| - j
      {
        assert processes[k].devs[j] in processes[k].devs;
        if processes[k].devs[j].device == target {
          DropHandle(k, j);
          BumpEvent(k);
        } else {
          j := j + 1;
        }
      }
    }

    /** atomic_inc(&process_handle->event) */
    method BumpEvent(k: nat)
      requires Valid() && k < |processes|
      modifies this
      ensures Valid() && leaked == old(leaked) && Marked() == old(Marked())
      ensures var p := old(processes)[k]; processes == old(processes)[k := Process(p.pid, p.devs, p.event + 1)]
    {
      ghost var b := Snapshot();
      var p := processes[k];
      var p' := Process(p.pid, p.devs, p.event + 1);
      processes := processes[k := p'];
      ReplacedOk(b.procs, k, p');
      forall s: Slot ensures Owners(processes, s) == Owners(b.procs, s) {
        OwnersReplace(b.procs, k, p', s);
      }
      forall s: Slot ensures Owners(processes, s) + Mark(leaked, s) == Mark(b.marked, s) {
        OneOwner(b.procs, b.leaked, b.marked, s);
      }
    }
  }

  // ---------------------------------------------------------------- used above

  /** One port more of the search. */
  lemma GrantStep(m: set<Slot>, dev: nat, i: nat, n: nat, taken: seq<nat>)
    requires i < MAX_PORTS && |taken| <= n
    ensures var whole := taken + Lowest(m, dev, i, n - |taken|);
      if (dev, i) in m then taken + Lowest(m, dev, i + 1, n - |taken|) == whole
      else if |taken| == n then taken == whole
      else (taken + [i]) + Lowest(m, dev, i + 1, n - |taken + [i]|) == whole
  {
    if (dev, i) !in m && |taken| < n {
      assert (taken + [i]) + Lowest(m, dev, i + 1, n - |taken| - 1) == taken + ([i] + Lowest(m, dev, i + 1, n - |taken| - 1));
    }
  }

  /** Ports of a group are ports of its handle. */
  lemma GroupInHandle(h: DevHandle, k: nat)
    requires k < |h.groups|
    ensures Flatten(h.groups[..k + 1]) == Flatten(h.groups[..k]) + h.groups[k]
    ensures forall p | p in h.groups[k] :: p in HandlePorts(h)
  {
    var g := h.groups[..k + 1];
    assert g[..|g| - 1] == h.groups[..k];
    assert h.groups == g + h.groups[k + 1..];
    FlattenJoin(g, h.groups[k + 1..]);
  }

  /** Every port of a handle on the books is one of the table. */
  lemma HandleInRange(b: Books, i: nat, j: nat)
    requires Ok(b) && i < |b.procs| && j < |b.procs[i].devs|
    ensures forall p | p in HandlePorts(b.procs[i].devs[j]) :: p < MAX_PORTS
  {
    var h := b.procs[i].devs[j];
    forall p | p in HandlePorts(h) ensures p < MAX_PORTS {
      var s := (h.device, p);
      OwnersRemove(b.procs, i, s);
      DevsRemove(b.procs[i].devs, j, s);
      OneOwner(b.procs, b.leaked, b.marked, s);
    }
  }

  lemma GroupInRange(b: Books, i: nat, j: nat, k: nat)
    requires Ok(b) && i < |b.procs| && j < |b.procs[i].devs| && k < |b.procs[i].devs[j].groups|
    ensures forall p | p in b.procs[i].devs[j].groups[k] :: p < MAX_PORTS
  {
    HandleInRange(b, i, j);
    GroupInHandle(b.procs[i].devs[j], k);
  }

  /** A new handle for a device without one is the one that is found. */
  lemma FindPushed(devs: seq<DevHandle>, h: DevHandle)
    requires FindDev(devs, h.device) == |devs|
    ensures FindDev(devs + [h], h.device) == |devs|
  {
    var more := devs + [h];
    var j := FindDev(more, h.device);
    assert more[|devs|] == h;
    assert forall k | 0 <= k < |devs| :: more[k] == devs[k] && more[k].device != h.device;
  }

  /** Once every process was swept, the marks are those of the sweep. */
  lemma AllSwept(b: Books, target: nat, procs: seq<Process>, marked: set<Slot>)
    requires Ok(b) && |procs| == |b.procs|
    requires forall i | 0 <= i < |procs| :: procs[i] == SweptProcess(b.procs[i], target)
    requires Balanced(procs, b.leaked, marked)
    ensures Books(procs, b.leaked, marked) == Swept(b, target)
  {
    SweptOk(b, target);
    assert procs == SweptAll(b.procs, target);
    MarksDetermined(procs, b.leaked, marked, Swept(b, target).marked);
  }

  /** Once the handles are gone one by one, the marks are those of a release. */
  lemma EmptyReleased(b: Books, i: nat, procs: seq<Process>, marked: set<Slot>)
    requires Ok(b) && i < |b.procs| && procs == Remove(b.procs, i)
    requires Balanced(procs, b.leaked, marked)
    ensures marked == Released(b, i).marked
  {
    ReleasedOk(b, i);
    MarksDetermined(procs, b.leaked, marked, Released(b, i).marked);
  }
}
