/** The port registry as a state machine over its books: the process list, the marks in
  port_info, and the ports that were marked and then forgotten. Each operation is stated on
  values here; PortRegistry carries them out on the table and the lists. */
module PortBooks {
  import opened Common
  import opened PortOwnership

  datatype Books = Books(procs: seq<Process>, leaked: set<Slot>, marked: set<Slot>)

  /** What a slave answers when it could not create the ports. */
  const CREATE_FAIL: nat := 5      // AXCL_PORT_CREATE_FAIL

  ghost predicate Ok(b: Books) {
    && ProcessesOk(b.procs)
    && Balanced(b.procs, b.leaked, b.marked)
    && forall s | s in b.marked :: s.0 < MAX_DEV && BASE_PORT <= s.1 < MAX_PORTS
  }

  const EMPTY: Books := Books([], {}, {})

  // ------------------------------------------------------------------ granting

  /** The lowest n free ports of a device from port i on, or all of them if there are fewer. */
  ghost function Lowest(marked: set<Slot>, dev: nat, i: nat, n: nat): seq<nat>
    decreases MAX_PORTS - i, marked
  {
    if i >= MAX_PORTS || n == 0 then []
    else if (dev, i) in marked then Lowest(marked, dev, i + 1, n)
    else [i] + Lowest(marked, dev, i + 1, n - 1)
  }

  ghost function Free(marked: set<Slot>, dev: nat, i: nat): set<nat> {
    set p: nat | i <= p < MAX_PORTS && (dev, p) !in marked
  }

  /** The first free port from i on, or MAX_PORTS. */
  ghost function FirstFree(marked: set<Slot>, dev: nat, i: nat): nat
    decreases MAX_PORTS - i, marked
  {
    if i >= MAX_PORTS then MAX_PORTS
    else if (dev, i) !in marked then i
    else FirstFree(marked, dev, i + 1)
  }

  /** What a grant is: free ports in ascending order, min(n, number free) of them, with no
      free port skipped. */
  lemma {:induction false} LowestGrants(marked: set<Slot>, dev: nat, i: nat, n: nat)
    ensures var r := Lowest(marked, dev, i, n);
      && |r| == (if n <= |Free(marked, dev, i)| then n else |Free(marked, dev, i)|)
      && (forall k | 0 <= k < |r| :: r[k] in Free(marked, dev, i))
      && (forall k, m | 0 <= k < m < |r| :: r[k] < r[m])
      && (forall p, k | p in Free(marked, dev, i) && 0 <= k < |r| && p < r[k] :: p in r)
    decreases MAX_PORTS - i, marked
  {
    if i >= MAX_PORTS {
      assert Free(marked, dev, i) == {};
    } else if n > 0 {
      var rest := Free(marked, dev, i + 1);
      if (dev, i) in marked {
        LowestGrants(marked, dev, i + 1, n);
        assert Free(marked, dev, i) == rest;
      } else {
        LowestGrants(marked, dev, i + 1, n - 1);
        assert Free(marked, dev, i) == rest + {i};
        assert i !in rest;
      }
    }
  }

  lemma LowestFresh(marked: set<Slot>, dev: nat, n: nat)
    ensures FreshPorts(dev, Lowest(marked, dev, BASE_PORT, n), marked)
    ensures |Lowest(marked, dev, BASE_PORT, n)| <= n
    ensures forall p | p in Lowest(marked, dev, BASE_PORT, n) :: BASE_PORT <= p < MAX_PORTS
  {
    LowestGrants(marked, dev, BASE_PORT, n);
    var r := Lowest(marked, dev, BASE_PORT, n);
    forall k | 0 <= k < |r| ensures (dev, r[k]) !in marked && BASE_PORT <= r[k] < MAX_PORTS {
      assert r[k] in Free(marked, dev, BASE_PORT);
    }
  }

  lemma {:induction false} FirstFreeIsFree(marked: set<Slot>, dev: nat, i: nat)
    requires i <= MAX_PORTS
    ensures i <= FirstFree(marked, dev, i) <= MAX_PORTS
    ensures FirstFree(marked, dev, i) < MAX_PORTS <==> Free(marked, dev, i) != {}
    decreases MAX_PORTS - i
  {
    if i < MAX_PORTS {
      if (dev, i) !in marked {
        assert i in Free(marked, dev, i);
      } else {
        FirstFreeIsFree(marked, dev, i + 1);
        assert Free(marked, dev, i) == Free(marked, dev, i + 1);
      }
    } else {
      assert Free(marked, dev, i) == {};
    }
  }

  // ---------------------------------------------------------------- operations

  ghost function Opened(b: Books, pid: nat, memory: bool): Books {
    if (exists i :: 0 <= i < |b.procs| && b.procs[i].pid == pid) || !memory then b
    else Books(b.procs + [Process(pid, [], 0)], b.leaked, b.marked)
  }

  predicate HasHandle(p: Process, dev: nat) {
    FindDev(p.devs, dev) < |p.devs|
  }

  function WithDevs(p: Process, devs: seq<DevHandle>): Process {
    Process(p.pid, devs, p.event)
  }

  /** The outcome of a create once ports were taken: refused sends and lost acknowledgements
      forget the ports, a refusal by the slave gives them back. */
  ghost function Created(b: Books, i: nat, dev: nat, memory: bool, sent: bool, ack: Option<nat>): Books
    requires i < |b.procs|
  {
    var p := b.procs[i];
    var taken := Lowest(b.marked, dev, BASE_PORT, MAX_PORT);
    var marked' := b.marked + SlotSet(dev, taken);
    if HasHandle(p, dev) || !memory then b
    else if !sent || ack.None? then Books(b.procs, b.leaked + SlotSet(dev, taken), marked')
    else if ack.value == CREATE_FAIL then b
    else Books(b.procs[i := WithDevs(p, p.devs + [DevHandle(dev, ack.value, taken, [])])], b.leaked, marked')
  }

  ghost function Dropped(b: Books, i: nat, j: nat): Books
    requires i < |b.procs| && j < |b.procs[i].devs|
  {
    var p := b.procs[i];
    Books(b.procs[i := WithDevs(p, Remove(p.devs, j))], b.leaked,
          b.marked - SlotSet(p.devs[j].device, HandlePorts(p.devs[j])))
  }

  /** The handle of dev goes, if there is one: reset, boot, and a destroy that was sent. */
  ghost function Destroyed(b: Books, i: nat, dev: nat, sent: bool): Books
    requires i < |b.procs|
  {
    if HasHandle(b.procs[i], dev) && sent then Dropped(b, i, FindDev(b.procs[i].devs, dev)) else b
  }

  ghost function WithGroups(b: Books, i: nat, j: nat, groups: seq<seq<nat>>, marked: set<Slot>): Books
    requires i < |b.procs| && j < |b.procs[i].devs|
  {
    var p := b.procs[i];
    var h := p.devs[j];
    Books(b.procs[i := WithDevs(p, p.devs[j := DevHandle(h.device, h.cmd, h.ports, groups)])], b.leaked, marked)
  }

  /** The return value of a request for n ports. */
  ghost function RequestCode(b: Books, i: nat, dev: nat, n: nat, memory: bool): int
    requires i < |b.procs|
  {
    if n == 0 || n > MAX_PORT then -22
    else if !HasHandle(b.procs[i], dev) then -1
    else if MAX_PORTS - FirstFree(b.marked, dev, BASE_PORT) < n then -1
    else if !memory then -12
    else 0
  }

  ghost function Requested(b: Books, i: nat, dev: nat, n: nat, memory: bool): Books
    requires i < |b.procs|
  {
    if RequestCode(b, i, dev, n, memory) != 0 then b
    else
      var j := FindDev(b.procs[i].devs, dev);
      var taken := Lowest(b.marked, dev, BASE_PORT, n);
      WithGroups(b, i, j, b.procs[i].devs[j].groups + [taken], b.marked + SlotSet(dev, taken))
  }

  /** The index of the first group that consists of the given ports, or |groups|. */
  function FindGroup(groups: seq<seq<nat>>, ports: seq<nat>): (k: nat)
    ensures k <= |groups|
    ensures k < |groups| ==> groups[k] == ports
    ensures forall m | 0 <= m < k :: groups[m] != ports
  {
    if groups == [] || groups[0] == ports then 0 else 1 + FindGroup(groups[1..], ports)
  }

  ghost function RecycleCode(b: Books, i: nat, dev: nat, n: nat, ports: seq<nat>): int
    requires i < |b.procs| && |ports| == MAX_PORT
  {
    if n == 0 || n > MAX_PORT then -22
    else if !HasHandle(b.procs[i], dev) then -1
    else
      var groups := b.procs[i].devs[FindDev(b.procs[i].devs, dev)].groups;
      if FindGroup(groups, ports[..n]) == |groups| then -1 else 0
  }

  ghost function Recycled(b: Books, i: nat, dev: nat, n: nat, ports: seq<nat>): Books
    requires i < |b.procs| && |ports| == MAX_PORT
  {
    if RecycleCode(b, i, dev, n, ports) != 0 then b
    else
      var j := FindDev(b.procs[i].devs, dev);
      var groups := b.procs[i].devs[j].groups;
      WithGroups(b, i, j, Remove(groups, FindGroup(groups, ports[..n])), b.marked - SlotSet(dev, ports[..n]))
  }

  /** A closing process gives up everything it owns, whether or not the slave could be told. */
  ghost function Released(b: Books, i: nat): Books
    requires i < |b.procs|
  {
    Books(Remove(b.procs, i), b.leaked, set s | s in b.marked && DevsOwn(b.procs[i].devs, s) == 0)
  }

  /** A process after the sweep for a dead device. */
  function SweptProcess(p: Process, target: nat): Process {
    var j := FindDev(p.devs, target);
    if p.devs == [] then Process(p.pid, p.devs, p.event + 1)
    else if j < |p.devs| then Process(p.pid, Remove(p.devs, j), p.event + 1)
    else p
  }

  function SweptAll(procs: seq<Process>, target: nat): (r: seq<Process>)
    ensures |r| == |procs|
    ensures forall i | 0 <= i < |procs| :: r[i] == SweptProcess(procs[i], target)
  {
    seq(|procs|, i requires 0 <= i < |procs| => SweptProcess(procs[i], target))
  }

  ghost function Swept(b: Books, target: nat): Books {
    Books(SweptAll(b.procs, target), b.leaked,
          set s | s in b.marked && (s.0 == target ==> Owners(b.procs, s) == 0))
  }

  // ---------------------------------------------------------- each keeps the law

  /** The marks are a function of the owners and the leaked ports. */
  lemma MarksDetermined(procs: seq<Process>, leaked: set<Slot>, m1: set<Slot>, m2: set<Slot>)
    requires Balanced(procs, leaked, m1) && Balanced(procs, leaked, m2)
    ensures m1 == m2
  {
    forall s: Slot ensures s in m1 <==> s in m2 {
      OneOwner(procs, leaked, m1, s);
      OneOwner(procs, leaked, m2, s);
    }
  }

  lemma OpenedOk(b: Books, pid: nat, memory: bool)
    requires Ok(b)
    ensures Ok(Opened(b, pid, memory))
  {
    var b' := Opened(b, pid, memory);
    if b' != b {
      forall s: Slot ensures Owners(b'.procs, s) + Mark(b.leaked, s) == Mark(b.marked, s) {
        OwnersPush(b.procs, Process(pid, [], 0), s);
        OneOwner(b.procs, b.leaked, b.marked, s);
      }
    }
  }

  lemma ReplacedOk(procs: seq<Process>, i: nat, p: Process)
    requires ProcessesOk(procs) && i < |procs| && ProcessOk(p) && p.pid == procs[i].pid
    ensures ProcessesOk(procs[i := p])
  {
  }

  lemma CreatedOk(b: Books, i: nat, dev: nat, memory: bool, sent: bool, ack: Option<nat>)
    requires Ok(b) && i < |b.procs| && dev < MAX_DEV
    ensures Ok(Created(b, i, dev, memory, sent, ack))
  {
    var p := b.procs[i];
    var taken := Lowest(b.marked, dev, BASE_PORT, MAX_PORT);
    LowestFresh(b.marked, dev, MAX_PORT);
    BalanceLeak(b.procs, b.leaked, b.marked, dev, taken);
    if !HasHandle(p, dev) && memory && sent && ack.Some? && ack.value != CREATE_FAIL {
      var h := DevHandle(dev, ack.value, taken, []);
      var p' := WithDevs(p, p.devs + [h]);
      assert HandlePorts(h) == taken;
      forall s: Slot ensures Owners(b.procs[i := p'], s) == Owners(b.procs, s) + Times(dev, taken, s) {
        OwnersReplace(b.procs, i, p', s);
        DevsPush(p.devs, h, s);
      }
      BalanceGrab(b.procs, b.procs[i := p'], b.leaked, b.marked, dev, taken);
      assert HandleOk(h) && ProcessOk(p);
      ReplacedOk(b.procs, i, p');
    }
  }

  lemma DroppedOk(b: Books, i: nat, j: nat)
    requires Ok(b) && i < |b.procs| && j < |b.procs[i].devs|
    ensures Ok(Dropped(b, i, j))
  {
    var p := b.procs[i];
    var p' := WithDevs(p, Remove(p.devs, j));
    var h := p.devs[j];
    forall s: Slot ensures Owners(b.procs, s) == Owners(b.procs[i := p'], s) + Times(h.device, HandlePorts(h), s) {
      OwnersReplace(b.procs, i, p', s);
      DevsRemove(p.devs, j, s);
    }
    BalanceFree(b.procs, b.procs[i := p'], b.leaked, b.marked, h.device, HandlePorts(h));
    ReplacedOk(b.procs, i, p');
  }

  /** Owners after the groups of one handle changed. */
  lemma GroupsOwn(b: Books, i: nat, j: nat, groups: seq<seq<nat>>, s: Slot)
    requires i < |b.procs| && j < |b.procs[i].devs|
    ensures var h := b.procs[i].devs[j];
      Owners(WithGroups(b, i, j, groups, b.marked).procs, s) + HandleOwns(h, s)
      == Owners(b.procs, s) + HandleOwns(DevHandle(h.device, h.cmd, h.ports, groups), s)
  {
    var p := b.procs[i];
    var h := p.devs[j];
    var h' := DevHandle(h.device, h.cmd, h.ports, groups);
    OwnersReplace(b.procs, i, WithDevs(p, p.devs[j := h']), s);
    DevsReplace(p.devs, j, h', s);
  }

  lemma GroupsOk(b: Books, i: nat, j: nat, groups: seq<seq<nat>>)
    requires ProcessesOk(b.procs) && i < |b.procs| && j < |b.procs[i].devs|
    requires forall k | 0 <= k < |groups| :: |groups[k]| <= MAX_PORT
    ensures ProcessesOk(WithGroups(b, i, j, groups, b.marked).procs)
  {
    var p := b.procs[i];
    var h := p.devs[j];
    var h' := DevHandle(h.device, h.cmd, h.ports, groups);
    assert ProcessOk(p) && HandleOk(h) && HandleOk(h');
    ReplacedOk(b.procs, i, WithDevs(p, p.devs[j := h']));
  }

  lemma RequestedOk(b: Books, i: nat, dev: nat, n: nat, memory: bool)
    requires Ok(b) && i < |b.procs|
    ensures Ok(Requested(b, i, dev, n, memory))
  {
    if RequestCode(b, i, dev, n, memory) == 0 {
      var j := FindDev(b.procs[i].devs, dev);
      var h := b.procs[i].devs[j];
      var taken := Lowest(b.marked, dev, BASE_PORT, n);
      var groups := h.groups + [taken];
      LowestFresh(b.marked, dev, n);
      var procs' := Requested(b, i, dev, n, memory).procs;
      forall s: Slot ensures Owners(procs', s) == Owners(b.procs, s) + Times(dev, taken, s) {
        var h' := DevHandle(h.device, h.cmd, h.ports, groups);
        GroupsOwn(b, i, j, groups, s);
        GroupOwns(h', |h.groups|, s);
        assert h'.(groups := Remove(groups, |h.groups|)) == h;
      }
      BalanceGrab(b.procs, procs', b.leaked, b.marked, dev, taken);
      assert ProcessOk(b.procs[i]) && HandleOk(h);
      GroupsOk(b, i, j, groups);
    }
  }

  lemma RecycledOk(b: Books, i: nat, dev: nat, n: nat, ports: seq<nat>)
    requires Ok(b) && i < |b.procs| && |ports| == MAX_PORT
    ensures Ok(Recycled(b, i, dev, n, ports))
  {
    if RecycleCode(b, i, dev, n, ports) == 0 {
      var j := FindDev(b.procs[i].devs, dev);
      var h := b.procs[i].devs[j];
      var k := FindGroup(h.groups, ports[..n]);
      var procs' := Recycled(b, i, dev, n, ports).procs;
      forall s: Slot ensures Owners(b.procs, s) == Owners(procs', s) + Times(dev, ports[..n], s) {
        GroupsOwn(b, i, j, Remove(h.groups, k), s);
        GroupOwns(h, k, s);
      }
      BalanceFree(b.procs, procs', b.leaked, b.marked, dev, ports[..n]);
      assert ProcessOk(b.procs[i]) && HandleOk(h);
      GroupsOk(b, i, j, Remove(h.groups, k));
    }
  }

  lemma ReleasedOk(b: Books, i: nat)
    requires Ok(b) && i < |b.procs|
    ensures Ok(Released(b, i))
  {
    var b' := Released(b, i);
    forall s: Slot ensures Owners(b'.procs, s) + Mark(b.leaked, s) == Mark(b'.marked, s) {
      OwnersRemove(b.procs, i, s);
      OneOwner(b.procs, b.leaked, b.marked, s);
    }
  }

  /** A device no handle names owns nothing. */
  lemma {:induction false} NoHandleOwnsNone(devs: seq<DevHandle>, s: Slot)
    requires forall i | 0 <= i < |devs| :: devs[i].device != s.0
    ensures DevsOwn(devs, s) == 0
  {
    if devs != [] {
      NoHandleOwnsNone(devs[..|devs| - 1], s);
    }
  }

  /** The handles for other devices, in their order. */
  function Without(devs: seq<DevHandle>, target: nat): seq<DevHandle> {
    if devs == [] then []
    else (if devs[0].device == target then [] else [devs[0]]) + Without(devs[1..], target)
  }

  lemma {:induction false} WithoutAbsent(devs: seq<DevHandle>, target: nat)
    requires forall i | 0 <= i < |devs| :: devs[i].device != target
    ensures Without(devs, target) == devs
  {
    if devs != [] {
      WithoutAbsent(devs[1..], target);
    }
  }

  /** With one handle at most, removing the one that is found removes all there are. */
  lemma {:induction false} RemoveIsWithout(devs: seq<DevHandle>, target: nat)
    requires OneHandleEach(devs)
    ensures var j := FindDev(devs, target);
      Without(devs, target) == if j < |devs| then Remove(devs, j) else devs
  {
    if devs != [] {
      if devs[0].device == target {
        WithoutAbsent(devs[1..], target);
      } else {
        RemoveIsWithout(devs[1..], target);
      }
    }
  }

  lemma {:induction false} WithoutMembers(devs: seq<DevHandle>, target: nat, h: DevHandle)
    ensures h in Without(devs, target) <==> h in devs && h.device != target
  {
    if devs != [] {
      WithoutMembers(devs[1..], target, h);
      assert h in devs <==> h == devs[0] || h in devs[1..];
    }
  }

  /** The sweep of one process: the handle for the dead device is gone, the other handles are
      as they were and in the same order, and there is one event exactly if the process lost
      its handle or had none at all. */
  lemma SweptMeaning(p: Process, target: nat)
    requires ProcessOk(p)
    ensures var p' := SweptProcess(p, target);
      && ProcessOk(p') && p'.pid == p.pid
      && !HasHandle(p', target) && p'.devs == Without(p.devs, target)
      && (forall h :: h in p'.devs <==> h in p.devs && h.device != target)
      && p'.event == p.event + (if p.devs == [] || HasHandle(p, target) then 1 else 0)
  {
    var p' := SweptProcess(p, target);
    RemoveIsWithout(p.devs, target);
    forall h ensures h in p'.devs <==> h in p.devs && h.device != target {
      WithoutMembers(p.devs, target, h);
    }
    SweptStaysOk(p, target);
  }

  lemma SweptStaysOk(p: Process, target: nat)
    requires ProcessOk(p)
    ensures ProcessOk(SweptProcess(p, target)) && !HasHandle(SweptProcess(p, target), target)
  {
    var j := FindDev(p.devs, target);
    if j < |p.devs| {
      var r := Remove(p.devs, j);
      assert forall k | 0 <= k < |r| :: r[k] == p.devs[if k < j then k else k + 1];
    }
  }

  lemma SweptDevsOwn(p: Process, target: nat, s: Slot)
    requires ProcessOk(p)
    ensures DevsOwn(SweptProcess(p, target).devs, s) == if s.0 == target then 0 else DevsOwn(p.devs, s)
  {
    SweptMeaning(p, target);
    var p' := SweptProcess(p, target);
    var j := FindDev(p.devs, target);
    if s.0 == target {
      NoHandleOwnsNone(p'.devs, s);
    } else if j < |p.devs| {
      DevsRemove(p.devs, j, s);
    }
  }

  lemma {:induction false} SweptOwners(procs: seq<Process>, target: nat, s: Slot)
    requires forall i | 0 <= i < |procs| :: ProcessOk(procs[i])
    ensures Owners(SweptAll(procs, target), s) == if s.0 == target then 0 else Owners(procs, s)
  {
    if procs != [] {
      var n := |procs| - 1;
      SweptOwners(procs[..n], target, s);
      SweptDevsOwn(procs[n], target, s);
      assert SweptAll(procs, target)[..n] == SweptAll(procs[..n], target);
    }
  }

  lemma SweptOk(b: Books, target: nat)
    requires Ok(b)
    ensures Ok(Swept(b, target))
  {
    var b' := Swept(b, target);
    forall s: Slot ensures Owners(b'.procs, s) + Mark(b.leaked, s) == Mark(b'.marked, s) {
      SweptOwners(b.procs, target, s);
      OneOwner(b.procs, b.leaked, b.marked, s);
    }
    forall i | 0 <= i < |b.procs| ensures ProcessOk(b'.procs[i]) && b'.procs[i].pid == b.procs[i].pid {
      SweptMeaning(b.procs[i], target);
    }
  }

  // -------------------------------------------------------------- all histories

  datatype Op =
    | Open(pid: nat, memory: bool)
    | Create(i: nat, dev: nat, memory: bool, sent: bool, ack: Option<nat>)
    | Destroy(i: nat, dev: nat, sent: bool)
    | Request(i: nat, dev: nat, n: nat, memory: bool)
    | Recycle(i: nat, dev: nat, n: nat, ports: seq<nat>)
    | Reset(i: nat, dev: nat)
    | Release(i: nat)
    | Dead(target: nat)

  /** Operations name a process that is on the list and a device that exists. */
  predicate Enabled(b: Books, op: Op) {
    match op
    case Open(_, _) => true
    case Create(i, dev, _, _, _) => i < |b.procs| && dev < MAX_DEV
    case Destroy(i, _, _) => i < |b.procs|
    case Request(i, _, _, _) => i < |b.procs|
    case Recycle(i, _, _, ports) => i < |b.procs| && |ports| == MAX_PORT
    case Reset(i, _) => i < |b.procs|
    case Release(i) => i < |b.procs|
    case Dead(_) => true
  }

  ghost function Step(b: Books, op: Op): Books
    requires Enabled(b, op)
  {
    match op
    case Open(pid, memory) => Opened(b, pid, memory)
    case Create(i, dev, memory, sent, ack) => Created(b, i, dev, memory, sent, ack)
    case Destroy(i, dev, sent) => Destroyed(b, i, dev, sent)
    case Request(i, dev, n, memory) => Requested(b, i, dev, n, memory)
    case Recycle(i, dev, n, ports) => Recycled(b, i, dev, n, ports)
    case Reset(i, dev) => Destroyed(b, i, dev, true)
    case Release(i) => Released(b, i)
    case Dead(target) => Swept(b, target)
  }

  ghost predicate Possible(b: Books, ops: seq<Op>)
    decreases |ops|
  {
    ops == [] || (Enabled(b, ops[0]) && Possible(Step(b, ops[0]), ops[1..]))
  }

  ghost function After(b: Books, ops: seq<Op>): Books
    requires Possible(b, ops)
    decreases |ops|
  {
    if ops == [] then b else After(Step(b, ops[0]), ops[1..])
  }

  lemma StepOk(b: Books, op: Op)
    requires Ok(b) && Enabled(b, op)
    ensures Ok(Step(b, op))
  {
    match op
    case Open(pid, memory) => OpenedOk(b, pid, memory);
    case Create(i, dev, memory, sent, ack) => CreatedOk(b, i, dev, memory, sent, ack);
    case Destroy(i, dev, sent) => DestroyedOk(b, i, dev, sent);
    case Request(i, dev, n, memory) => RequestedOk(b, i, dev, n, memory);
    case Recycle(i, dev, n, ports) => RecycledOk(b, i, dev, n, ports);
    case Reset(i, dev) => DestroyedOk(b, i, dev, true);
    case Release(i) => ReleasedOk(b, i);
    case Dead(target) => SweptOk(b, target);
  }

  lemma DestroyedOk(b: Books, i: nat, dev: nat, sent: bool)
    requires Ok(b) && i < |b.procs|
    ensures Ok(Destroyed(b, i, dev, sent))
  {
    if HasHandle(b.procs[i], dev) {
      DroppedOk(b, i, FindDev(b.procs[i].devs, dev));
    }
  }

  lemma {:induction false} RunOk(b: Books, ops: seq<Op>)
    requires Ok(b) && Possible(b, ops)
    ensures Ok(After(b, ops))
    decreases |ops|
  {
    if ops != [] {
      StepOk(b, ops[0]);
      RunOk(Step(b, ops[0]), ops[1..]);
    }
  }

  /** Across every port-management history: a port is marked exactly if it has one owner or
      was leaked, no port has two owners, and no process has two handles for one device. */
  lemma EveryHistory(ops: seq<Op>, s: Slot)
    requires Possible(EMPTY, ops)
    ensures var b := After(EMPTY, ops);
      && (s in b.marked <==> Owners(b.procs, s) == 1 || s in b.leaked)
      && Owners(b.procs, s) <= 1
      && !(Owners(b.procs, s) == 1 && s in b.leaked)
      && forall i | 0 <= i < |b.procs| :: OneHandleEach(b.procs[i].devs)
  {
    RunOk(EMPTY, ops);
    var b := After(EMPTY, ops);
    OneOwner(b.procs, b.leaked, b.marked, s);
  }

  /** A create whose send failed or whose acknowledgement never came. */
  predicate Forgets(op: Op) {
    op.Create? && op.memory && (!op.sent || op.ack.None?)
  }

  /** One step leaks ports exactly if it is such a create, for a process that has no handle
      for the device yet, and the device has a free port left. */
  lemma LeaksExactly(b: Books, op: Op)
    requires Ok(b) && Enabled(b, op)
    ensures Step(b, op).leaked != b.leaked
       <==> Forgets(op) && !HasHandle(b.procs[op.i], op.dev) && Free(b.marked, op.dev, BASE_PORT) != {}
  {
    if Forgets(op) {
      var taken := Lowest(b.marked, op.dev, BASE_PORT, MAX_PORT);
      LowestGrants(b.marked, op.dev, BASE_PORT, MAX_PORT);
      if taken != [] {
        assert taken[0] in Free(b.marked, op.dev, BASE_PORT);
        assert (op.dev, taken[0]) in SlotSet(op.dev, taken);
        OneOwner(b.procs, b.leaked, b.marked, (op.dev, taken[0]));
      } else {
        assert SlotSet(op.dev, taken) == {};
      }
    }
  }

  /** Ports leak only there, and once leaked are never granted again. */
  lemma {:induction false} OnlyCreateLeaks(b: Books, ops: seq<Op>)
    requires Possible(b, ops)
    ensures b.leaked <= After(b, ops).leaked
    ensures (forall k | 0 <= k < |ops| :: !Forgets(ops[k])) ==> After(b, ops).leaked == b.leaked
    decreases |ops|
  {
    if ops != [] {
      OnlyCreateLeaks(Step(b, ops[0]), ops[1..]);
      assert !Forgets(ops[0]) ==> Step(b, ops[0]).leaked == b.leaked;
    }
  }

  // ------------------------------------------------------------- request, recycle

  /** The ports array of the caller after a grant: the granted ones in front, the rest as the
      caller left it. */
  function Granted(ports: seq<nat>, taken: seq<nat>): (r: seq<nat>)
    requires |taken| <= |ports|
    ensures |r| == |ports| && r[..|taken|] == taken && r[|taken|..] == ports[|taken|..]
  {
    taken + ports[|taken|..]
  }

  /** Two groups that share a port cannot both be on a handle's list. */
  lemma GroupsApart(b: Books, i: nat, j: nat, k: nat, m: nat, p: nat)
    requires Ok(b) && i < |b.procs| && j < |b.procs[i].devs|
    requires k < |b.procs[i].devs[j].groups| && m < |b.procs[i].devs[j].groups|
    requires p in b.procs[i].devs[j].groups[k] && p in b.procs[i].devs[j].groups[m]
    ensures k == m
  {
    var h := b.procs[i].devs[j];
    var s := (h.device, p);
    if k != m {
      var groups' := Remove(h.groups, k);
      var h' := DevHandle(h.device, h.cmd, h.ports, groups');
      var m' := if m < k then m else m - 1;
      assert groups'[m'] == h.groups[m];
      GroupOwns(h, k, s);
      GroupOwns(h', m', s);
      OneOwner(b.procs, b.leaked, b.marked, s);
      OwnersRemove(b.procs, i, s);
      DevsRemove(b.procs[i].devs, j, s);
      assert false;
    }
  }

  /** A request followed by a recycle of what it returned restores the books exactly if there
      were enough free ports. If there were not, the request reports success with fewer ports
      and leaves the count as asked for, and the recycle is refused and changes nothing. */
  lemma RequestThenRecycle(b: Books, i: nat, dev: nat, n: nat, ports: seq<nat>)
    requires Ok(b) && i < |b.procs| && |ports| == MAX_PORT
    requires RequestCode(b, i, dev, n, true) == 0
    ensures var taken := Lowest(b.marked, dev, BASE_PORT, n);
      var b1 := Requested(b, i, dev, n, true);
      var enough := n <= |Free(b.marked, dev, BASE_PORT)|;
      && 0 < |taken| <= n
      && (RecycleCode(b1, i, dev, n, Granted(ports, taken)) == 0 <==> enough)
      && (Recycled(b1, i, dev, n, Granted(ports, taken)) == if enough then b else b1)
      && b1 != b
  {
    var taken := Lowest(b.marked, dev, BASE_PORT, n);
    var b1 := Requested(b, i, dev, n, true);
    LowestGrants(b.marked, dev, BASE_PORT, n);
    FirstFreeIsFree(b.marked, dev, BASE_PORT);
    var want := Granted(ports, taken)[..n];
    assert |taken| > 0 by {
      if Free(b.marked, dev, BASE_PORT) != {} {
        var x :| x in Free(b.marked, dev, BASE_PORT);
        assert |Free(b.marked, dev, BASE_PORT)| > 0;
      }
    }
    RequestedOk(b, i, dev, n, true);
    var j := FindDev(b.procs[i].devs, dev);
    RequestKeepsFind(b.procs[i].devs, j, dev, b.procs[i].devs[j].groups + [taken]);
    var groups := b1.procs[i].devs[j].groups;
    var last := |groups| - 1;
    assert groups[last] == taken && want[0] == taken[0];
    var k := FindGroup(groups, want);
    if k < |groups| {
      GroupsApart(b1, i, j, k, last, taken[0]);
    }
    assert k < |groups| <==> |taken| == n;
    if |taken| == n {
      assert want == taken;
      Restored(b, i, j, n, taken);
    }
  }

  lemma RequestKeepsFind(devs: seq<DevHandle>, j: nat, dev: nat, groups: seq<seq<nat>>)
    requires j < |devs| && FindDev(devs, dev) == j
    ensures FindDev(devs[j := DevHandle(devs[j].device, devs[j].cmd, devs[j].ports, groups)], dev) == j
  {
    var devs' := devs[j := DevHandle(devs[j].device, devs[j].cmd, devs[j].ports, groups)];
    var j' := FindDev(devs', dev);
    assert forall k | 0 <= k < |devs| :: devs'[k].device == devs[k].device;
    assert j' <= j;
  }

  lemma Restored(b: Books, i: nat, j: nat, n: nat, taken: seq<nat>)
    requires Ok(b) && i < |b.procs| && j < |b.procs[i].devs|
    requires taken == Lowest(b.marked, b.procs[i].devs[j].device, BASE_PORT, n)
    ensures var h := b.procs[i].devs[j];
      var b1 := WithGroups(b, i, j, h.groups + [taken], b.marked + SlotSet(h.device, taken));
      WithGroups(b1, i, j, Remove(b1.procs[i].devs[j].groups, |h.groups|), b1.marked - SlotSet(h.device, taken)) == b
  {
    var p := b.procs[i];
    var h := p.devs[j];
    LowestFresh(b.marked, h.device, n);
    assert b.marked + SlotSet(h.device, taken) - SlotSet(h.device, taken) == b.marked;
    assert Remove(h.groups + [taken], |h.groups|) == h.groups;
    assert p.devs[j := DevHandle(h.device, h.cmd, h.ports, h.groups + [taken])][j := h] == p.devs;
    assert b.procs[i := WithDevs(p, p.devs[j := DevHandle(h.device, h.cmd, h.ports, h.groups + [taken])])][i := p] == b.procs;
  }

  // ------------------------------------------------------------------- the sweep

  /** After the sweep for a dead device no process has a handle for it, its only marked ports
      are leaked ones, and every other device's marks are unchanged. */
  lemma SweepFrees(b: Books, target: nat, s: Slot)
    requires Ok(b)
    ensures var b' := Swept(b, target);
      && (forall i | 0 <= i < |b'.procs| :: !HasHandle(b'.procs[i], target))
      && (s.0 == target ==> (s in b'.marked <==> s in b.leaked))
      && (s.0 != target ==> (s in b'.marked <==> s in b.marked) && Owners(b'.procs, s) == Owners(b.procs, s))
  {
    forall i | 0 <= i < |b.procs| ensures !HasHandle(SweptProcess(b.procs[i], target), target) {
      SweptMeaning(b.procs[i], target);
    }
    SweptOwners(b.procs, target, s);
    OneOwner(b.procs, b.leaked, b.marked, s);
  }
}
