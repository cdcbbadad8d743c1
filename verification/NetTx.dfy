/** Transmit buffers of the virtual network driver: axnet_host_alloc_tx_buffers,
  axnet_host_start_xmit, and an endpoint that may do anything with buffers it holds.

  Sixty packet slots of one DMA area circulate: empty ring -> host -> full ring ->
  endpoint -> empty ring.  The host and the endpoint share the two rings, their counters
  and the area; every step below is one access. */
module NetTx {
  import opened Common
  import opened IvcRing

  type Packet = seq<byte>

  // ---------------------------------------------------------- the sixty slots

  /** base + i * size */
  function SlotAddr(base: nat, size: nat, i: nat): nat
    decreases i, size
  {
    if i == 0 then base else SlotAddr(base, size, i - 1) + size
  }

  function AreaSize(size: nat): nat { 60 * size }

  ghost function AllSlots(base: nat, size: nat, n: nat): set<nat> {
    set i: nat | i < n :: SlotAddr(base, size, i)
  }

  lemma {:induction false} SlotAddrIs(base: nat, size: nat, i: nat)
    ensures SlotAddr(base, size, i) == base + i * size
  {
    if i > 0 {
      SlotAddrIs(base, size, i - 1);
      assert i * size == (i - 1) * size + size;
    }
  }

  lemma {:induction false} SlotsApart(base: nat, size: nat, i: nat, j: nat)
    requires i < j
    ensures SlotAddr(base, size, i) + size <= SlotAddr(base, size, j)
    decreases j
  {
    if i < j - 1 {
      SlotsApart(base, size, i, j - 1);
    }
  }

  lemma {:induction false} SlotAbove(base: nat, size: nat, i: nat)
    ensures base <= SlotAddr(base, size, i)
  {
    if i > 0 {
      SlotAbove(base, size, i - 1);
    }
  }

  lemma SlotInArea(base: nat, size: nat, a: nat)
    requires a in AllSlots(base, size, RING_COUNT)
    ensures base <= a && a + size <= base + AreaSize(size)
  {
    var i: nat :| i < RING_COUNT && a == SlotAddr(base, size, i);
    SlotAbove(base, size, i);
    SlotsApart(base, size, i, 60);
    SlotAddrIs(base, size, 60);
  }

  /** Different slots do not overlap. */
  lemma SlotsDisjoint(base: nat, size: nat, a: nat, b: nat)
    requires a in AllSlots(base, size, RING_COUNT) && b in AllSlots(base, size, RING_COUNT) && a != b
    ensures a + size <= b || b + size <= a
  {
    var i: nat :| i < RING_COUNT && a == SlotAddr(base, size, i);
    var j: nat :| j < RING_COUNT && b == SlotAddr(base, size, j);
    if i < j { SlotsApart(base, size, i, j); } else { SlotsApart(base, size, j, i); }
  }

  lemma OneMoreSlot(base: nat, size: nat, n: nat)
    requires size > 0 && n > 0
    ensures var last := SlotAddr(base, size, n - 1);
      AllSlots(base, size, n) == AllSlots(base, size, n - 1) + {last} && last !in AllSlots(base, size, n - 1)
  {
    forall i: nat | i < n - 1 ensures SlotAddr(base, size, i) != SlotAddr(base, size, n - 1) {
      SlotsApart(base, size, i, n - 1);
    }
  }

  lemma {:induction false} SlotCount(base: nat, size: nat, n: nat)
    requires size > 0
    ensures |AllSlots(base, size, n)| == n
  {
    if n == 0 {
      assert AllSlots(base, size, 0) == {};
    } else {
      SlotCount(base, size, n - 1);
      OneMoreSlot(base, size, n);
    }
  }

  // ------------------------------------------------------------ the machine

  datatype Host =
    | Idle
    | SawBuffer(p: Packet)                      // the empty ring had an entry
    | SawRoom(p: Packet)                        // and the full ring was not full
    | Loaded(p: Packet, addr: nat)              // entry read, rd not yet advanced
    | Copying(p: Packet, addr: nat, k: nat)     // k bytes copied
    | StoredSize(p: Packet, addr: nat)          // full entry: size written
    | StoredAddr(p: Packet, addr: nat)          // full entry: address written
    | Busy                                      // the full ring was found full

  datatype Endpoint =
    | EpIdle
    | EpLoaded(addr: nat, size: nat)            // full entry read, rd not yet advanced
    | EpStored(addr: nat)                       // empty entry written, wr not yet advanced

  /** A packet the endpoint has taken and not yet given back.  p is history. */
  datatype Taken = Taken(size: nat, p: Packet)

  /** sent is the history of packets put on the full ring; got counts those taken off it. */
  datatype State = State(
    base: nat, size: nat, mem: seq<byte>,
    freeAddr: seq<nat>, eRd: nat, eWr: nat,
    busyAddr: seq<nat>, busySize: seq<nat>, fRd: nat, fWr: nat,
    h: Host, ep: Endpoint, held: map<nat, Taken>,
    sent: seq<Packet>, got: nat)

  ghost predicate Shape(s: State) {
    && s.size > 0 && |s.mem| == AreaSize(s.size)
    && |s.freeAddr| == |s.busyAddr| == |s.busySize| == RING_COUNT
    && s.eRd <= s.eWr && s.fRd <= s.fWr
  }

  /** After axnet_host_alloc_tx_buffers: every slot is on the empty ring. */
  ghost predicate Init(s: State) {
    && Shape(s)
    && s.eRd == 0 && s.eWr == RING_COUNT && s.fRd == s.fWr == 0
    && (forall i | 0 <= i < RING_COUNT :: s.freeAddr[i] == SlotAddr(s.base, s.size, i))
    && s.h.Idle? && s.ep.EpIdle? && s.held == map[] && s.sent == [] && s.got == 0
  }

  // host

  /** The stack hands over packets no longer than mtu + ETH_HLEN, which the slot size covers. */
  ghost predicate SeesBuffer(s: State, t: State, p: Packet) {
    s.h.Idle? && |p| <= s.size && s.eWr > s.eRd && t == s.(h := SawBuffer(p))
  }

  ghost predicate SeesRoom(s: State, t: State) {
    && s.h.SawBuffer? && s.fRd <= s.fWr
    && t == s.(h := if Full(s.fRd, s.fWr) then Busy else SawRoom(s.h.p))
  }

  ghost predicate LoadsAddr(s: State, t: State) {
    && s.h.SawRoom? && |s.freeAddr| == RING_COUNT
    && t == s.(h := Loaded(s.h.p, s.freeAddr[SlotOf(s.eRd)]))
  }

  ghost predicate TakesBuffer(s: State, t: State) {
    s.h.Loaded? && t == s.(eRd := s.eRd + 1, h := Copying(s.h.p, s.h.addr, 0))
  }

  ghost predicate CopiesByte(s: State, t: State) {
    && s.h.Copying? && s.h.k < |s.h.p|
    && s.base <= s.h.addr && s.h.addr - s.base + s.h.k < |s.mem|
    && t == s.(mem := s.mem[s.h.addr - s.base + s.h.k := s.h.p[s.h.k]], h := Copying(s.h.p, s.h.addr, s.h.k + 1))
  }

  ghost predicate StoresSize(s: State, t: State) {
    && s.h.Copying? && s.h.k == |s.h.p| && |s.busySize| == RING_COUNT
    && t == s.(busySize := s.busySize[SlotOf(s.fWr) := |s.h.p|], h := StoredSize(s.h.p, s.h.addr))
  }

  ghost predicate StoresAddr(s: State, t: State) {
    && s.h.StoredSize? && |s.busyAddr| == RING_COUNT
    && t == s.(busyAddr := s.busyAddr[SlotOf(s.fWr) := s.h.addr], h := StoredAddr(s.h.p, s.h.addr))
  }

  ghost predicate PostsPacket(s: State, t: State) {
    s.h.StoredAddr? && t == s.(fWr := s.fWr + 1, h := Idle, sent := s.sent + [s.h.p])
  }

  // endpoint

  ghost predicate EpLoads(s: State, t: State) {
    && s.ep.EpIdle? && s.fWr > s.fRd && |s.busyAddr| == |s.busySize| == RING_COUNT
    && t == s.(ep := EpLoaded(s.busyAddr[SlotOf(s.fRd)], s.busySize[SlotOf(s.fRd)]))
  }

  ghost predicate EpTakes(s: State, t: State) {
    && s.ep.EpLoaded? && s.got < |s.sent|
    && t == s.(fRd := s.fRd + 1, ep := EpIdle, got := s.got + 1,
               held := s.held[s.ep.addr := Taken(s.ep.size, s.sent[s.got])])
  }

  /** The endpoint gives back any buffer it holds, in any order. */
  ghost predicate EpStores(s: State, t: State, a: nat) {
    && s.ep.EpIdle? && a in s.held && |s.freeAddr| == RING_COUNT
    && t == s.(freeAddr := s.freeAddr[SlotOf(s.eWr) := a], ep := EpStored(a))
  }

  ghost predicate EpGivesBack(s: State, t: State) {
    s.ep.EpStored? && t == s.(eWr := s.eWr + 1, ep := EpIdle, held := s.held - {s.ep.addr})
  }

  ghost predicate HostStep(s: State, t: State) {
    || (exists p :: SeesBuffer(s, t, p)) || SeesRoom(s, t) || LoadsAddr(s, t) || TakesBuffer(s, t)
    || CopiesByte(s, t) || StoresSize(s, t) || StoresAddr(s, t) || PostsPacket(s, t)
  }

  ghost predicate EpStep(s: State, t: State) {
    EpLoads(s, t) || EpTakes(s, t) || (exists a :: EpStores(s, t, a)) || EpGivesBack(s, t)
  }

  ghost predicate Run(run: seq<State>) {
    && |run| > 0 && Init(run[0])
    && forall i | 0 < i < |run| :: HostStep(run[i - 1], run[i]) || EpStep(run[i - 1], run[i])
  }

  // -------------------------------------------------------------- invariant

  ghost function EmptyRing(s: State): seq<nat>
    requires Shape(s)
  {
    View(s.freeAddr, s.eRd, s.eWr)
  }

  ghost function FullAddrs(s: State): seq<nat>
    requires Shape(s)
  {
    View(s.busyAddr, s.fRd, s.fWr)
  }

  ghost function FullSizes(s: State): seq<nat>
    requires Shape(s)
  {
    View(s.busySize, s.fRd, s.fWr)
  }

  ghost predicate InHand(s: State) {
    s.h.Copying? || s.h.StoredSize? || s.h.StoredAddr?
  }

  ghost function Hand(s: State): multiset<nat> {
    if InHand(s) then multiset{s.h.addr} else multiset{}
  }

  /** Every slot is in exactly one of the four places. */
  ghost predicate Split(base: nat, size: nat, empty: seq<nat>, hand: multiset<nat>, full: seq<nat>, held: set<nat>) {
    multiset(empty) + hand + multiset(full) + multiset(held) == multiset(AllSlots(base, size, RING_COUNT))
  }

  ghost predicate Conserved(s: State)
    requires Shape(s)
  {
    Split(s.base, s.size, EmptyRing(s), Hand(s), FullAddrs(s), s.held.Keys)
  }

  /** The slot at a, a buffer of the given size in the area mem, begins with the packet p. */
  ghost predicate Carries(mem: seq<byte>, base: nat, size: nat, a: nat, len: nat, p: Packet) {
    && len == |p| <= size
    && base <= a && a - base + |p| <= |mem|
    && mem[a - base..a - base + |p|] == p
  }

  ghost predicate FullCarries(mem: seq<byte>, base: nat, size: nat, addrs: seq<nat>, sizes: seq<nat>, ps: seq<Packet>) {
    && |addrs| == |sizes| == |ps|
    && forall i | 0 <= i < |ps| :: Carries(mem, base, size, addrs[i], sizes[i], ps[i])
  }

  ghost predicate HeldCarries(mem: seq<byte>, base: nat, size: nat, held: map<nat, Taken>) {
    forall a | a in held :: Carries(mem, base, size, a, held[a].size, held[a].p)
  }

  /** Every packet on the full ring or with the endpoint is intact, and those on the full
      ring are the ones sent and not yet taken, in order. */
  ghost predicate Intact(s: State)
    requires Shape(s)
  {
    && s.got <= |s.sent|
    && FullCarries(s.mem, s.base, s.size, FullAddrs(s), FullSizes(s), s.sent[s.got..])
    && HeldCarries(s.mem, s.base, s.size, s.held)
  }

  ghost predicate HostInv(s: State)
    requires Shape(s)
  {
    match s.h
    case Idle => true
    case SawBuffer(p) => s.eRd < s.eWr && |p| <= s.size
    case SawRoom(p) => s.eRd < s.eWr && |p| <= s.size
    case Loaded(p, addr) => s.eRd < s.eWr && |p| <= s.size && addr == s.freeAddr[SlotOf(s.eRd)]
    case Copying(p, addr, k) =>
      k <= |p| <= s.size && s.base <= addr && addr - s.base + |p| <= |s.mem|
      && s.mem[addr - s.base..addr - s.base + k] == p[..k]
    case StoredSize(p, addr) => Carries(s.mem, s.base, s.size, addr, |p|, p) && s.busySize[SlotOf(s.fWr)] == |p|
    case StoredAddr(p, addr) =>
      Carries(s.mem, s.base, s.size, addr, |p|, p) && s.busySize[SlotOf(s.fWr)] == |p| && s.busyAddr[SlotOf(s.fWr)] == addr
    case Busy => false
  }

  ghost predicate EpInv(s: State)
    requires Shape(s)
  {
    match s.ep
    case EpIdle => true
    case EpLoaded(a, size) => s.fRd < s.fWr && a == s.busyAddr[SlotOf(s.fRd)] && size == s.busySize[SlotOf(s.fRd)]
    case EpStored(a) => a in s.held && s.freeAddr[SlotOf(s.eWr)] == a
  }

  ghost predicate Inv(s: State) {
    Shape(s) && Conserved(s) && Intact(s) && HostInv(s) && EpInv(s)
  }

  // --------------------------------------------------------- counting places

  /** The four places together hold sixty buffers. */
  lemma Places(s: State)
    requires Shape(s) && Conserved(s)
    ensures (s.eWr - s.eRd) + |Hand(s)| + (s.fWr - s.fRd) + |s.held| == RING_COUNT
  {
    SlotCount(s.base, s.size, RING_COUNT);
    var e, f := EmptyRing(s), FullAddrs(s);
    assert |multiset(e)| == |e| && |multiset(f)| == |f|;
    assert |multiset(s.held.Keys)| == |s.held|;
    assert |multiset(e) + Hand(s) + multiset(f) + multiset(s.held.Keys)| == RING_COUNT;
  }

  lemma InPlace(s: State, a: nat)
    requires Shape(s) && Conserved(s)
    requires a in multiset(EmptyRing(s)) + Hand(s) + multiset(FullAddrs(s)) + multiset(s.held.Keys)
    ensures a in AllSlots(s.base, s.size, RING_COUNT)
    ensures s.base <= a && a - s.base + s.size <= |s.mem|
  {
    assert a in multiset(AllSlots(s.base, s.size, RING_COUNT));
    SlotInArea(s.base, s.size, a);
  }

  /** The buffer in the host's hand is in no other place, so its slot overlaps no other. */
  lemma HandApart(s: State, a: nat)
    requires Shape(s) && Conserved(s) && InHand(s)
    requires a in FullAddrs(s) || a in s.held || a in EmptyRing(s)
    ensures a + s.size <= s.h.addr || s.h.addr + s.size <= a
  {
    var all := multiset(AllSlots(s.base, s.size, RING_COUNT));
    InPlace(s, s.h.addr);
    InPlace(s, a);
    assert all[s.h.addr] == 1;
    assert all[a] == multiset(EmptyRing(s))[a] + Hand(s)[a] + multiset(FullAddrs(s))[a] + multiset(s.held.Keys)[a];
    SlotsDisjoint(s.base, s.size, a, s.h.addr);
  }

  // ------------------------------------------------------------ preservation

  /** Once an empty buffer was seen the full ring cannot be full. */
  lemma SeesRoomKeepsInv(s: State, t: State)
    requires Inv(s) && SeesRoom(s, t)
    ensures Inv(t) && t.h.SawRoom?
  {
    Places(s);
    assert s.fWr - s.fRd < RING_COUNT;
  }

  lemma HostLooksKeepsInv(s: State, t: State)
    requires Inv(s) && ((exists p :: SeesBuffer(s, t, p)) || LoadsAddr(s, t))
    ensures Inv(t)
  {
    assert EmptyRing(t) == EmptyRing(s) && FullAddrs(t) == FullAddrs(s);
    assert Hand(t) == Hand(s) && Conserved(t);
    assert Intact(t);
  }

  lemma EpLoadsKeepsInv(s: State, t: State)
    requires Inv(s) && EpLoads(s, t)
    ensures Inv(t)
  {
    assert EmptyRing(t) == EmptyRing(s) && FullAddrs(t) == FullAddrs(s) && Conserved(t);
    assert Intact(t);
  }

  lemma TakesBufferKeepsInv(s: State, t: State)
    requires Inv(s) && TakesBuffer(s, t)
    ensures Inv(t)
  {
    AdvanceRd(s.freeAddr, s.eRd, s.eWr);
    assert EmptyRing(s) == [s.h.addr] + EmptyRing(t);
    assert Conserved(t);
    InPlace(t, t.h.addr);
    assert t.mem[t.h.addr - t.base..t.h.addr - t.base] == [];
  }

  /** Copying into the slot in hand leaves a packet in another slot as it was. */
  lemma CopyMisses(s: State, t: State, a: nat, len: nat, p: Packet)
    requires Inv(s) && CopiesByte(s, t) && Carries(s.mem, s.base, s.size, a, len, p)
    requires a + s.size <= s.h.addr || s.h.addr + s.size <= a
    ensures Carries(t.mem, t.base, t.size, a, len, p)
  {
    assert t.mem[a - s.base..a - s.base + |p|] == s.mem[a - s.base..a - s.base + |p|];
  }

  lemma CopiesByteKeepsIntact(s: State, t: State)
    requires Inv(s) && CopiesByte(s, t)
    ensures Shape(t) && Intact(t)
  {
    var addrs, sizes, ps := FullAddrs(s), FullSizes(s), s.sent[s.got..];
    forall i | 0 <= i < |ps|
      ensures Carries(t.mem, t.base, t.size, addrs[i], sizes[i], ps[i])
    {
      assert addrs[i] in addrs;
      HandApart(s, addrs[i]);
      CopyMisses(s, t, addrs[i], sizes[i], ps[i]);
    }
    forall a | a in t.held
      ensures Carries(t.mem, t.base, t.size, a, t.held[a].size, t.held[a].p)
    {
      HandApart(s, a);
      CopyMisses(s, t, a, s.held[a].size, s.held[a].p);
    }
  }

  lemma CopiesByteKeepsInv(s: State, t: State)
    requires Inv(s) && CopiesByte(s, t)
    ensures Inv(t)
  {
    CopiesByteKeepsIntact(s, t);
    var o := s.h.addr - s.base;
    assert t.mem[o..o + s.h.k + 1] == s.mem[o..o + s.h.k] + [s.h.p[s.h.k]];
  }

  lemma StoresSizeKeepsRings(s: State, t: State)
    requires Inv(s) && StoresSize(s, t)
    ensures Shape(t) && FullSizes(t) == FullSizes(s) && FullAddrs(t) == FullAddrs(s) && EmptyRing(t) == EmptyRing(s)
    ensures EpInv(t)
  {
    Places(s);
    if s.ep.EpLoaded? { SlotsDiffer(s.fRd, s.fWr); }
    WriteAhead(s.busySize, s.fRd, s.fWr, |s.h.p|);
  }

  lemma StoresSizeKeepsInv(s: State, t: State)
    requires Inv(s) && StoresSize(s, t)
    ensures Inv(t)
  {
    StoresSizeKeepsRings(s, t);
    assert Hand(t) == Hand(s) && Conserved(t);
    assert Intact(t);
    assert s.h.p[..s.h.k] == s.h.p;
  }

  lemma StoresAddrKeepsInv(s: State, t: State)
    requires Inv(s) && StoresAddr(s, t)
    ensures Inv(t)
  {
    Places(s);
    if s.ep.EpLoaded? { SlotsDiffer(s.fRd, s.fWr); }
    WriteAhead(s.busyAddr, s.fRd, s.fWr, s.h.addr);
    assert FullAddrs(t) == FullAddrs(s);
  }

  lemma PostsPacketKeepsInv(s: State, t: State)
    requires Inv(s) && PostsPacket(s, t)
    ensures Inv(t)
  {
    AdvanceWr(s.busyAddr, s.fRd, s.fWr);
    AdvanceWr(s.busySize, s.fRd, s.fWr);
    assert FullAddrs(t) == FullAddrs(s) + [s.h.addr];
    assert FullSizes(t) == FullSizes(s) + [|s.h.p|];
    assert t.sent[t.got..] == s.sent[s.got..] + [s.h.p];
    assert multiset(FullAddrs(t)) == multiset(FullAddrs(s)) + multiset{s.h.addr};
    assert Conserved(t);
  }

  lemma EpTakesKeepsConserved(s: State, t: State)
    requires Inv(s) && EpTakes(s, t)
    ensures Shape(t) && Conserved(t)
  {
    var a := s.ep.addr;
    AdvanceRd(s.busyAddr, s.fRd, s.fWr);
    assert FullAddrs(s) == [a] + FullAddrs(t);
    TakenIsNew(s, a);
    assert t.held.Keys == s.held.Keys + {a};
    assert multiset(t.held.Keys) == multiset(s.held.Keys) + multiset{a};
    assert multiset(FullAddrs(s)) == multiset{a} + multiset(FullAddrs(t));
  }

  lemma EpTakesKeepsIntact(s: State, t: State)
    requires Inv(s) && EpTakes(s, t)
    ensures Shape(t) && Intact(t)
  {
    AdvanceRd(s.busyAddr, s.fRd, s.fWr);
    AdvanceRd(s.busySize, s.fRd, s.fWr);
    assert FullAddrs(s) == [s.ep.addr] + FullAddrs(t);
    assert FullSizes(s) == [s.ep.size] + FullSizes(t);
    assert s.sent[s.got..] == [s.sent[s.got]] + t.sent[t.got..];
    FullFront(s.mem, s.base, s.size, s.ep.addr, s.ep.size, s.sent[s.got], FullAddrs(t), FullSizes(t), t.sent[t.got..]);
  }

  lemma EpTakesKeepsInv(s: State, t: State)
    requires Inv(s) && EpTakes(s, t)
    ensures Inv(t)
  {
    EpTakesKeepsConserved(s, t);
    EpTakesKeepsIntact(s, t);
  }

  lemma TakenIsNew(s: State, a: nat)
    requires Shape(s) && Conserved(s) && a in FullAddrs(s)
    ensures a !in s.held
  {
    var all := multiset(AllSlots(s.base, s.size, RING_COUNT));
    assert all[a] == multiset(EmptyRing(s))[a] + Hand(s)[a] + multiset(FullAddrs(s))[a] + multiset(s.held.Keys)[a];
  }

  lemma FullFront(mem: seq<byte>, base: nat, size: nat, a: nat, len: nat, p: Packet,
                  addrs: seq<nat>, sizes: seq<nat>, ps: seq<Packet>)
    requires FullCarries(mem, base, size, [a] + addrs, [len] + sizes, [p] + ps)
    ensures Carries(mem, base, size, a, len, p) && FullCarries(mem, base, size, addrs, sizes, ps)
  {
    assert Carries(mem, base, size, ([a] + addrs)[0], ([len] + sizes)[0], ([p] + ps)[0]);
    forall i | 0 <= i < |ps| ensures Carries(mem, base, size, addrs[i], sizes[i], ps[i]) {
      assert Carries(mem, base, size, ([a] + addrs)[i + 1], ([len] + sizes)[i + 1], ([p] + ps)[i + 1]);
    }
  }

  lemma EpStoresKeepsInv(s: State, t: State, a: nat)
    requires Inv(s) && EpStores(s, t, a)
    ensures Inv(t)
  {
    Places(s);
    assert |s.held| > 0;
    WriteAhead(s.freeAddr, s.eRd, s.eWr, a);
    assert EmptyRing(t) == EmptyRing(s);
    if s.h.Loaded? { SlotsDiffer(s.eRd, s.eWr); }
  }

  lemma MoveToEmptyRing(base: nat, size: nat, empty: seq<nat>, hand: multiset<nat>, full: seq<nat>, held: set<nat>, a: nat)
    requires Split(base, size, empty, hand, full, held) && a in held
    ensures Split(base, size, empty + [a], hand, full, held - {a})
  {
    assert multiset(held) == multiset(held - {a}) + multiset{a};
  }

  lemma EpGivesBackKeepsInv(s: State, t: State)
    requires Inv(s) && EpGivesBack(s, t)
    ensures Inv(t)
  {
    var a := s.ep.addr;
    AdvanceWr(s.freeAddr, s.eRd, s.eWr);
    assert EmptyRing(t) == EmptyRing(s) + [a];
    assert t.held.Keys == s.held.Keys - {a};
    MoveToEmptyRing(s.base, s.size, EmptyRing(s), Hand(s), FullAddrs(s), s.held.Keys, a);
    assert Conserved(t);
    assert Intact(t);
  }

  lemma HostKeepsInv(s: State, t: State)
    requires Inv(s) && HostStep(s, t)
    ensures Inv(t)
  {
    if SeesRoom(s, t) { SeesRoomKeepsInv(s, t); }
    else if TakesBuffer(s, t) { TakesBufferKeepsInv(s, t); }
    else if CopiesByte(s, t) { CopiesByteKeepsInv(s, t); }
    else if StoresSize(s, t) { StoresSizeKeepsInv(s, t); }
    else if StoresAddr(s, t) { StoresAddrKeepsInv(s, t); }
    else if PostsPacket(s, t) { PostsPacketKeepsInv(s, t); }
    else { HostLooksKeepsInv(s, t); }
  }

  lemma EndpointKeepsInv(s: State, t: State)
    requires Inv(s) && EpStep(s, t)
    ensures Inv(t)
  {
    if EpTakes(s, t) { EpTakesKeepsInv(s, t); }
    else if a :| EpStores(s, t, a) { EpStoresKeepsInv(s, t, a); }
    else if EpGivesBack(s, t) { EpGivesBackKeepsInv(s, t); }
    else { EpLoadsKeepsInv(s, t); }
  }

  lemma InitConserved(s: State)
    requires Init(s)
    ensures Conserved(s)
  {
    assert EmptyRing(s) == s.freeAddr;
    AllDistinct(s.base, s.size, RING_COUNT, s.freeAddr);
    AllEmpty(s.base, s.size, s.freeAddr);
    assert FullAddrs(s) == [] && s.held.Keys == {} && Hand(s) == multiset{};
  }

  lemma InitInv(s: State)
    requires Init(s)
    ensures Inv(s)
  {
    InitConserved(s);
    assert FullAddrs(s) == [] && FullSizes(s) == [];
    assert Intact(s);
  }

  lemma AllEmpty(base: nat, size: nat, v: seq<nat>)
    requires multiset(v) == multiset(AllSlots(base, size, RING_COUNT))
    ensures Split(base, size, v, multiset{}, [], {})
  {
  }

  lemma {:induction false} AllDistinct(base: nat, size: nat, n: nat, v: seq<nat>)
    requires size > 0 && |v| == n && forall i | 0 <= i < n :: v[i] == SlotAddr(base, size, i)
    ensures multiset(v) == multiset(AllSlots(base, size, n))
  {
    if n == 0 {
      assert AllSlots(base, size, 0) == {};
    } else {
      var w, last := v[..n - 1], v[n - 1];
      AllDistinct(base, size, n - 1, w);
      OneMoreSlot(base, size, n);
      assert v == w + [last];
    }
  }

  lemma {:induction false} RunInv(run: seq<State>, i: nat)
    requires Run(run) && i < |run|
    ensures Inv(run[i])
  {
    if i == 0 {
      InitInv(run[0]);
    } else {
      RunInv(run, i - 1);
      if HostStep(run[i - 1], run[i]) {
        HostKeepsInv(run[i - 1], run[i]);
      } else {
        EndpointKeepsInv(run[i - 1], run[i]);
      }
    }
  }

  // ------------------------------------------------------------ main results

  /** In every state of every run the sixty buffers are split between the empty ring, the
      host's hand, the full ring and the endpoint, none lost and none in two places, and the
      full-ring-full exit of axnet_host_start_xmit is never taken. */
  lemma BuffersConserved(run: seq<State>, i: nat)
    requires Run(run) && i < |run|
    ensures var s := run[i];
            && Shape(s) && Conserved(s) && !s.h.Busy?
            && (s.eWr - s.eRd) + |Hand(s)| + (s.fWr - s.fRd) + |s.held| == RING_COUNT
  {
    RunInv(run, i);
    Places(run[i]);
  }

  /** The endpoint takes the packets in the order they were sent, and a packet keeps its
      bytes from the moment it is posted until its buffer is given back. */
  lemma PacketsIntact(run: seq<State>, i: nat)
    requires Run(run) && i < |run|
    ensures var s := run[i];
            && Shape(s)
            && s.got + (s.fWr - s.fRd) == |s.sent|
            && FullCarries(s.mem, s.base, s.size, FullAddrs(s), FullSizes(s), s.sent[s.got..])
            && HeldCarries(s.mem, s.base, s.size, s.held)
  {
    RunInv(run, i);
  }
}
