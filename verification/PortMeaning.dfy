/** What each operation of the port registry does, said of the lists and of single ports. PortBooks
  computes the books after an operation; here its results are described without its functions. */
module PortMeaning {
  import opened Common
  import opened PortOwnership
  import opened PortBooks

  /** The handle has this port, as one of its own or in a group. */
  ghost predicate Has(h: DevHandle, port: nat) {
    port in h.ports || exists g | g in h.groups :: port in g
  }

  /** Some handle on the list has this port of this device. */
  ghost predicate HeldBy(devs: seq<DevHandle>, s: Slot) {
    exists h | h in devs :: h.device == s.0 && Has(h, s.1)
  }

  ghost predicate HeldByAny(procs: seq<Process>, s: Slot) {
    exists k: nat :: k < |procs| && HeldBy(procs[k].devs, s)
  }

  ghost predicate Names(devs: seq<DevHandle>, dev: nat) {
    exists h | h in devs :: h.device == dev
  }

  /** All but process i is as it was. */
  ghost predicate OthersKept(b: Books, c: Books, i: nat)
    requires i < |b.procs|
  {
    && |c.procs| == |b.procs| && c.procs[i].pid == b.procs[i].pid && c.procs[i].event == b.procs[i].event
    && forall k | 0 <= k < |b.procs| && k != i :: c.procs[k] == b.procs[k]
  }

  ghost predicate IsFree(marked: set<Slot>, dev: nat, port: nat) {
    BASE_PORT <= port < MAX_PORTS && (dev, port) !in marked
  }

  /** n free ports in ascending order, or all there are, and none that is free was skipped. */
  ghost predicate IsGrant(marked: set<Slot>, dev: nat, n: nat, ports: seq<nat>) {
    && |ports| <= n
    && (forall p | p in ports :: IsFree(marked, dev, p))
    && (forall k, m | 0 <= k < m < |ports| :: ports[k] < ports[m])
    && (forall p: nat, q | IsFree(marked, dev, p) && q in ports && p < q :: p in ports)
    && (|ports| < n ==> forall p: nat | IsFree(marked, dev, p) :: p in ports)
  }

  /** The marks of these ports of one device were added. */
  ghost predicate MarksAdded(marked: set<Slot>, marked': set<Slot>, dev: nat, ports: seq<nat>) {
    forall s: Slot :: s in marked' <==> s in marked || (s.0 == dev && s.1 in ports)
  }

  // -------------------------------------------------- the functions of PortBooks

  lemma {:induction false} InFlatten(groups: seq<seq<nat>>, p: nat)
    ensures p in Flatten(groups) <==> exists g | g in groups :: p in g
  {
    if groups != [] {
      var front := groups[..|groups| - 1];
      InFlatten(front, p);
      assert groups == front + [groups[|groups| - 1]];
    }
  }

  lemma InHandlePorts(h: DevHandle, p: nat)
    ensures p in HandlePorts(h) <==> Has(h, p)
  {
    InFlatten(h.groups, p);
  }

  lemma {:induction false} OwnIffHeld(devs: seq<DevHandle>, s: Slot)
    ensures DevsOwn(devs, s) > 0 <==> HeldBy(devs, s)
  {
    if devs != [] {
      var front, h := devs[..|devs| - 1], devs[|devs| - 1];
      OwnIffHeld(front, s);
      InHandlePorts(h, s.1);
      assert devs == front + [h];
    }
  }

  lemma {:induction false} OwnersIffHeld(procs: seq<Process>, s: Slot)
    ensures Owners(procs, s) > 0 <==> HeldByAny(procs, s)
  {
    if procs != [] {
      var n := |procs| - 1;
      OwnersIffHeld(procs[..n], s);
      OwnIffHeld(procs[n].devs, s);
      if k: nat :| k < n && HeldBy(procs[..n][k].devs, s) {
        assert HeldBy(procs[k].devs, s);
      }
      if k: nat :| k < |procs| && HeldBy(procs[k].devs, s) && k != n {
        assert HeldBy(procs[..n][k].devs, s);
      }
    }
  }

  lemma FoundIffNamed(devs: seq<DevHandle>, dev: nat)
    ensures FindDev(devs, dev) < |devs| <==> Names(devs, dev)
  {
    var j := FindDev(devs, dev);
    if j < |devs| {
      assert devs[j] in devs;
    }
  }

  lemma LowestIsGrant(marked: set<Slot>, dev: nat, n: nat)
    ensures IsGrant(marked, dev, n, Lowest(marked, dev, BASE_PORT, n))
  {
    LowestGrants(marked, dev, BASE_PORT, n);
    var r := Lowest(marked, dev, BASE_PORT, n);
    var free := Free(marked, dev, BASE_PORT);
    forall p, q | IsFree(marked, dev, p) && q in r && p < q ensures p in r {
      var k :| 0 <= k < |r| && r[k] == q;
      assert p in free;
    }
    if |r| < n {
      GrantOfAll(r, free);
      assert forall p | IsFree(marked, dev, p) :: p in free;
    }
  }

  /** As many different members as there are: all of them. */
  lemma {:induction false} GrantOfAll(r: seq<nat>, free: set<nat>)
    requires |r| == |free| && (forall k | 0 <= k < |r| :: r[k] in free)
    requires forall k, m | 0 <= k < m < |r| :: r[k] < r[m]
    ensures forall p | p in free :: p in r
  {
    if r != [] {
      var front, last := r[..|r| - 1], r[|r| - 1];
      GrantOfAll(front, free - {last});
      forall p | p in free ensures p in r {
        assert p == last || p in front;
      }
    }
  }

  // ------------------------------------------------------------------ operations

  /** A handle of the list by position, the only one for its device. */
  lemma OnlyHandle(p: Process, h: DevHandle)
    requires ProcessOk(p) && h in p.devs
    ensures p.devs[FindDev(p.devs, h.device)] == h
  {
    FoundIffNamed(p.devs, h.device);
  }

  /** An open of a known pid changes nothing, and nor does one for which there is no memory;
      otherwise a process without handles is appended. */
  lemma OpenMeans(b: Books, pid: nat, memory: bool)
    ensures var c := Opened(b, pid, memory);
      var known := exists p | p in b.procs :: p.pid == pid;
      && c.leaked == b.leaked && c.marked == b.marked
      && (if known || !memory then c.procs == b.procs
          else |c.procs| == |b.procs| + 1 && c.procs[..|b.procs|] == b.procs
               && c.procs[|b.procs|] == Process(pid, [], 0))
  {
    if i :| 0 <= i < |b.procs| && b.procs[i].pid == pid {
      assert b.procs[i] in b.procs;
    }
  }

  /** The handle for dev is gone, exactly its ports are free again, and nothing else changed. */
  ghost predicate HandleGone(b: Books, c: Books, i: nat, dev: nat)
    requires i < |b.procs|
  {
    var devs := b.procs[i].devs;
    && OthersKept(b, c, i) && c.leaked == b.leaked
    && (forall h :: h in c.procs[i].devs <==> h in devs && h.device != dev)
    && c.procs[i].devs == Without(devs, dev)
    && forall s: Slot :: s in c.marked <==> s in b.marked && !(s.0 == dev && HeldBy(devs, s))
  }

  /** A destroy or a reset: nothing happens, or the handle goes. */
  lemma DestroyMeans(b: Books, i: nat, dev: nat, sent: bool)
    requires Ok(b) && i < |b.procs|
    ensures var c := Destroyed(b, i, dev, sent);
      if sent && Names(b.procs[i].devs, dev) then HandleGone(b, c, i, dev) else c == b
  {
    var p, c := b.procs[i], Destroyed(b, i, dev, sent);
    FoundIffNamed(p.devs, dev);
    if sent && Names(p.devs, dev) {
      var j := FindDev(p.devs, dev);
      SweptMeaning(p, dev);
      RemoveIsWithout(p.devs, dev);
      forall s: Slot ensures s in c.marked <==> s in b.marked && !(s.0 == dev && HeldBy(p.devs, s)) {
        InHandlePorts(p.devs[j], s.1);
        assert p.devs[j] in p.devs;
        if h :| s.0 == dev && h in p.devs && h.device == dev && Has(h, s.1) {
          OnlyHandle(p, h);
        }
      }
    }
  }

  /** What a create leaves, by what it met: a handle that was there, no memory, a send or an
      acknowledgement that failed, a refusal by the slave, or success. */
  lemma CreateMeans(b: Books, i: nat, dev: nat, memory: bool, sent: bool, ack: Option<nat>)
    requires Ok(b) && i < |b.procs|
    ensures var c := Created(b, i, dev, memory, sent, ack);
      var devs := b.procs[i].devs;
      if Names(devs, dev) || !memory || (sent && ack == Some(CREATE_FAIL)) then c == b
      else exists taken ::
        && IsGrant(b.marked, dev, MAX_PORT, taken) && MarksAdded(b.marked, c.marked, dev, taken)
        && if !sent || ack == None then c.procs == b.procs && MarksAdded(b.leaked, c.leaked, dev, taken)
           else c.leaked == b.leaked && OthersKept(b, c, i)
                && c.procs[i].devs == devs + [DevHandle(dev, ack.value, taken, [])]
  {
    FoundIffNamed(b.procs[i].devs, dev);
    LowestIsGrant(b.marked, dev, MAX_PORT);
  }

  /** The answer to a request: it is granted if and only if the handle is there, the count is
      right, there is memory, and the first free port is at least n below the end. */
  lemma RequestAnswer(b: Books, i: nat, dev: nat, n: nat, memory: bool)
    requires i < |b.procs|
    ensures var code := RequestCode(b, i, dev, n, memory);
      var refused := !Names(b.procs[i].devs, dev) || forall p: nat | IsFree(b.marked, dev, p) :: p + n > MAX_PORTS;
      && (code == -22 <==> n == 0 || n > 4)
      && (code == -1 <==> 1 <= n <= 4 && refused)
      && (code == -12 <==> 1 <= n <= 4 && !refused && !memory)
      && (code == 0 <==> 1 <= n <= 4 && !refused && memory)
  {
    FoundIffNamed(b.procs[i].devs, dev);
    FirstIsLeast(b.marked, dev, BASE_PORT);
  }

  lemma {:induction false} FirstIsLeast(marked: set<Slot>, dev: nat, i: nat)
    requires BASE_PORT <= i <= MAX_PORTS
    ensures var f := FirstFree(marked, dev, i);
      && i <= f <= MAX_PORTS && (f < MAX_PORTS ==> IsFree(marked, dev, f))
      && forall p | IsFree(marked, dev, p) && i <= p :: f <= p
    decreases MAX_PORTS - i
  {
    if i < MAX_PORTS && (dev, i) in marked {
      FirstIsLeast(marked, dev, i + 1);
    }
  }

  /** The handle for dev has other groups now, and nothing else changed but marks. */
  ghost predicate OnlyGroups(b: Books, c: Books, i: nat, h: DevHandle, h': DevHandle)
    requires i < |b.procs|
  {
    && OthersKept(b, c, i) && c.leaked == b.leaked
    && h'.device == h.device && h'.cmd == h.cmd && h'.ports == h.ports
    && var devs, devs' := b.procs[i].devs, c.procs[i].devs;
       |devs'| == |devs| && forall k | 0 <= k < |devs| :: devs'[k] == if devs[k] == h then h' else devs[k]
  }

  /** A request that is granted adds one group, of the ports it takes; any other changes nothing. */
  lemma RequestMeans(b: Books, i: nat, dev: nat, n: nat, memory: bool)
    requires Ok(b) && i < |b.procs|
    ensures var c := Requested(b, i, dev, n, memory);
      if RequestCode(b, i, dev, n, memory) != 0 then c == b
      else exists h, h', taken ::
        && h in b.procs[i].devs && h.device == dev && OnlyGroups(b, c, i, h, h')
        && IsGrant(b.marked, dev, n, taken) && MarksAdded(b.marked, c.marked, dev, taken)
        && h'.groups == h.groups + [taken]
  {
    if RequestCode(b, i, dev, n, memory) == 0 {
      var devs := b.procs[i].devs;
      var j := FindDev(devs, dev);
      var taken := Lowest(b.marked, dev, BASE_PORT, n);
      LowestIsGrant(b.marked, dev, n);
      var c := Requested(b, i, dev, n, memory);
      assert ProcessOk(b.procs[i]);
      var h, h' := devs[j], c.procs[i].devs[j];
      assert OnlyGroups(b, c, i, h, h');
    }
  }

  /** The answer to a recycle: it is accepted if and only if a group of the handle consists of
      exactly the ports handed in. */
  lemma RecycleAnswer(b: Books, i: nat, dev: nat, n: nat, ports: seq<nat>)
    requires Ok(b) && i < |b.procs| && |ports| == MAX_PORT
    ensures var code := RecycleCode(b, i, dev, n, ports);
      && (code == -22 <==> n == 0 || n > 4)
      && (code == 0 <==> 1 <= n <= 4 && exists h | h in b.procs[i].devs :: h.device == dev && ports[..n] in h.groups)
      && (code == 0 || code == -1 || code == -22)
  {
    var p := b.procs[i];
    FoundIffNamed(p.devs, dev);
    if 1 <= n <= 4 && Names(p.devs, dev) {
      var h := p.devs[FindDev(p.devs, dev)];
      var k := FindGroup(h.groups, ports[..n]);
      assert k < |h.groups| <==> ports[..n] in h.groups;
      if h' :| h' in p.devs && h'.device == dev && ports[..n] in h'.groups {
        OnlyHandle(p, h');
      }
    }
  }

  /** A recycle that is accepted takes away one group equal to the ports handed in, and exactly
      their marks; any other changes nothing. */
  lemma RecycleMeans(b: Books, i: nat, dev: nat, n: nat, ports: seq<nat>)
    requires Ok(b) && i < |b.procs| && |ports| == MAX_PORT
    ensures var c := Recycled(b, i, dev, n, ports);
      if RecycleCode(b, i, dev, n, ports) != 0 then c == b
      else exists h, h', k: nat ::
        && h in b.procs[i].devs && h.device == dev && OnlyGroups(b, c, i, h, h')
        && k < |h.groups| && h.groups[k] == ports[..n] && h'.groups == h.groups[..k] + h.groups[k + 1..]
        && forall s: Slot :: s in c.marked <==> s in b.marked && !(s.0 == dev && s.1 in ports[..n])
  {
    if RecycleCode(b, i, dev, n, ports) == 0 {
      var devs := b.procs[i].devs;
      var j := FindDev(devs, dev);
      var k := FindGroup(devs[j].groups, ports[..n]);
      var c := Recycled(b, i, dev, n, ports);
      assert ProcessOk(b.procs[i]);
      var h, h' := devs[j], c.procs[i].devs[j];
      assert OnlyGroups(b, c, i, h, h');
      assert h.groups[k] == ports[..n] && h'.groups == h.groups[..k] + h.groups[k + 1..];
    }
  }

  /** A closing process leaves the list, and exactly the ports its handles have are free again. */
  lemma ReleaseMeans(b: Books, i: nat)
    requires i < |b.procs|
    ensures var c := Released(b, i);
      && c.procs == b.procs[..i] + b.procs[i + 1..] && c.leaked == b.leaked
      && forall s: Slot :: s in c.marked <==> s in b.marked && !HeldBy(b.procs[i].devs, s)
  {
    forall s: Slot ensures s in Released(b, i).marked <==> s in b.marked && !HeldBy(b.procs[i].devs, s) {
      OwnIffHeld(b.procs[i].devs, s);
    }
  }

  /** The sweep frees exactly the ports of the dead device that some handle has, and does to
      each process what SweptMeaning says. */
  lemma SweepMeans(b: Books, target: nat)
    ensures var c := Swept(b, target);
      && |c.procs| == |b.procs| && c.leaked == b.leaked
      && (forall k | 0 <= k < |b.procs| :: c.procs[k] == SweptProcess(b.procs[k], target))
      && forall s: Slot :: s in c.marked <==> s in b.marked && !(s.0 == target && HeldByAny(b.procs, s))
  {
    forall s: Slot ensures s in Swept(b, target).marked <==> s in b.marked && !(s.0 == target && HeldByAny(b.procs, s)) {
      OwnersIffHeld(b.procs, s);
    }
  }
}
