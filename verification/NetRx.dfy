/** Receive buffers of the virtual network driver: axnet_host_alloc_empty_buffers,
  axnet_host_process_ep2h_msg, and an endpoint that posts only buffers it has taken.

  The host remembers every buffer it handed out in ep2h_empty_list and finds it there again
  by address when a full entry comes back.  Allocator, receiver and endpoint interleave. */
module NetRx {
  import opened IvcRing

  /** An element of ep2h_empty_list; skb names the socket buffer. */
  datatype Entry = Entry(iova: nat, skb: nat)

  function Iovas(l: seq<Entry>): (v: seq<nat>)
    ensures |v| == |l|
    ensures forall i | 0 <= i < |l| :: v[i] == l[i].iova
  {
    seq(|l|, i requires 0 <= i < |l| => l[i].iova)
  }

  /** The list search: the first entry with this address, or the length of the list. */
  function FirstIndex(l: seq<Entry>, a: nat): (i: nat)
    ensures i <= |l|
    ensures i < |l| ==> l[i].iova == a
    ensures forall j | 0 <= j < i :: l[j].iova != a
  {
    if l == [] || l[0].iova == a then 0 else 1 + FirstIndex(l[1..], a)
  }

  datatype Allocator =
    | AIdle
    | AListed(e: Entry)      // on the list, slot not yet written
    | AStored(e: Entry)      // slot written, wr not yet advanced

  datatype Receiver =
    | RIdle
    | RLoaded(addr: nat, len: nat)   // full entry read
    | RFound(e: Entry, len: nat)     // taken off the list, rd not yet advanced
    | RMissed                        // the search found nothing

  datatype Endpoint =
    | EpIdle
    | EpLoaded(addr: nat)            // empty entry read, rd not yet advanced
    | EpStored(addr: nat, len: nat)  // full entry written, wr not yet advanced

  datatype Arrival = Arrival(iova: nat, len: nat)
  datatype Delivery = Delivery(e: Entry, len: nat)

  /** posted, arrivals and delivered are histories: buffers handed out, full entries put up
      by the endpoint, packets passed to the network stack. */
  datatype State = State(
    freeAddr: seq<nat>, eRd: nat, eWr: nat,
    busyAddr: seq<nat>, busySize: seq<nat>, fRd: nat, fWr: nat,
    list: seq<Entry>, a: Allocator, r: Receiver, ep: Endpoint, held: set<nat>,
    posted: seq<Entry>, arrivals: seq<Arrival>, delivered: seq<Delivery>)

  ghost predicate Shape(s: State) {
    && |s.freeAddr| == |s.busyAddr| == |s.busySize| == RING_COUNT
    && s.eRd <= s.eWr && s.fRd <= s.fWr
  }

  ghost predicate Init(s: State) {
    && Shape(s) && s.eRd == s.eWr == s.fRd == s.fWr == 0
    && s.list == [] && s.a.AIdle? && s.r.RIdle? && s.ep.EpIdle? && s.held == {}
    && s.posted == [] && s.arrivals == [] && s.delivered == []
  }

  // -------------------------------------------------------------- host steps

  /** The buffers whose DMA mapping is live. */
  ghost function Mapped(s: State): multiset<nat> {
    multiset(Iovas(s.list)) + (if s.r.RFound? then multiset{s.r.e.iova} else multiset{})
  }

  /** A new buffer: its mapping is at an address no live mapping has, and the socket buffer
      is a new one. */
  ghost predicate Allocates(s: State, t: State, e: Entry) {
    && s.a.AIdle? && s.eRd <= s.eWr && !Full(s.eRd, s.eWr)
    && e.iova !in Mapped(s) && (forall i | 0 <= i < |s.posted| :: s.posted[i].skb != e.skb)
    && t == s.(list := s.list + [e], a := AListed(e), posted := s.posted + [e])
  }

  ghost predicate StoresEmpty(s: State, t: State) {
    && s.a.AListed? && |s.freeAddr| == RING_COUNT
    && t == s.(freeAddr := s.freeAddr[SlotOf(s.eWr) := s.a.e.iova], a := AStored(s.a.e))
  }

  ghost predicate PostsEmpty(s: State, t: State) {
    s.a.AStored? && t == s.(eWr := s.eWr + 1, a := AIdle)
  }

  ghost predicate LoadsFull(s: State, t: State) {
    && s.r.RIdle? && s.fWr > s.fRd && |s.busyAddr| == |s.busySize| == RING_COUNT
    && t == s.(r := RLoaded(s.busyAddr[SlotOf(s.fRd)], s.busySize[SlotOf(s.fRd)]))
  }

  ghost predicate Searches(s: State, t: State) {
    && s.r.RLoaded?
    && var i := FirstIndex(s.list, s.r.addr);
    && t == if i < |s.list| then s.(list := s.list[..i] + s.list[i + 1..], r := RFound(s.list[i], s.r.len))
            else s.(r := RMissed)
  }

  ghost predicate Delivers(s: State, t: State) {
    s.r.RFound? && t == s.(fRd := s.fRd + 1, r := RIdle, delivered := s.delivered + [Delivery(s.r.e, s.r.len)])
  }

  ghost predicate SkipsMissed(s: State, t: State) {
    s.r.RMissed? && t == s.(fRd := s.fRd + 1, r := RIdle)
  }

  // ---------------------------------------------------------- endpoint steps

  ghost predicate EpLoads(s: State, t: State) {
    && s.ep.EpIdle? && s.eWr > s.eRd && |s.freeAddr| == RING_COUNT
    && t == s.(ep := EpLoaded(s.freeAddr[SlotOf(s.eRd)]))
  }

  ghost predicate EpTakes(s: State, t: State) {
    s.ep.EpLoaded? && t == s.(eRd := s.eRd + 1, ep := EpIdle, held := s.held + {s.ep.addr})
  }

  /** The endpoint fills any buffer it holds and posts it when the full ring has room. */
  ghost predicate EpStores(s: State, t: State, a: nat, len: nat) {
    && s.ep.EpIdle? && a in s.held && s.fRd <= s.fWr && !Full(s.fRd, s.fWr)
    && |s.busyAddr| == |s.busySize| == RING_COUNT
    && t == s.(busyAddr := s.busyAddr[SlotOf(s.fWr) := a], busySize := s.busySize[SlotOf(s.fWr) := len],
               ep := EpStored(a, len))
  }

  ghost predicate EpPosts(s: State, t: State) {
    && s.ep.EpStored?
    && t == s.(fWr := s.fWr + 1, ep := EpIdle, held := s.held - {s.ep.addr},
               arrivals := s.arrivals + [Arrival(s.ep.addr, s.ep.len)])
  }

  ghost predicate HostStep(s: State, t: State) {
    || (exists e :: Allocates(s, t, e)) || StoresEmpty(s, t) || PostsEmpty(s, t)
    || LoadsFull(s, t) || Searches(s, t) || Delivers(s, t) || SkipsMissed(s, t)
  }

  ghost predicate EpStep(s: State, t: State) {
    EpLoads(s, t) || EpTakes(s, t) || (exists a, len :: EpStores(s, t, a, len)) || EpPosts(s, t)
  }

  ghost predicate Run(run: seq<State>) {
    && |run| > 0 && Init(run[0])
    && forall i | 0 < i < |run| :: HostStep(run[i - 1], run[i]) || EpStep(run[i - 1], run[i])
  }

  // -------------------------------------------------------------- invariant

  ghost function EmptyRing(s: State): seq<nat>
    requires Shape(s)
  {
    View(s.freeAddr, s.eRd, s.eWr)
  }

  ghost function FullAddrs(s: State): seq<nat>
    requires Shape(s)
  {
    View(s.busyAddr, s.fRd, s.fWr)
  }

  ghost function FullSizes(s: State): seq<nat>
    requires Shape(s)
  {
    View(s.busySize, s.fRd, s.fWr)
  }

  ghost function Posting(s: State): multiset<nat> {
    if s.a.AIdle? then multiset{} else multiset{s.a.e.iova}
  }

  /** Every mapped buffer is being posted, on the empty ring, with the endpoint or on the full
      ring, and in only one of these places. */
  ghost predicate Split(mapped: multiset<nat>, posting: multiset<nat>, empty: seq<nat>, held: set<nat>, full: seq<nat>) {
    && mapped == posting + multiset(empty) + multiset(held) + multiset(full)
    && forall a :: mapped[a] <= 1
  }

  ghost predicate Conserved(s: State)
    requires Shape(s)
  {
    Split(Mapped(s), Posting(s), EmptyRing(s), s.held, FullAddrs(s))
  }

  ghost predicate Pending(addrs: seq<nat>, sizes: seq<nat>, arrivals: seq<Arrival>) {
    && |addrs| == |sizes| == |arrivals|
    && forall i | 0 <= i < |arrivals| :: arrivals[i] == Arrival(addrs[i], sizes[i])
  }

  /** Packets are delivered in the order the endpoint posted them, from the buffer it named. */
  ghost predicate InOrder(delivered: seq<Delivery>, arrivals: seq<Arrival>) {
    && |delivered| <= |arrivals|
    && forall i | 0 <= i < |delivered| :: arrivals[i] == Arrival(delivered[i].e.iova, delivered[i].len)
  }

  function Entries(d: seq<Delivery>): (v: seq<Entry>)
    ensures |v| == |d|
    ensures forall i | 0 <= i < |d| :: v[i] == d[i].e
  {
    seq(|d|, i requires 0 <= i < |d| => d[i].e)
  }

  ghost function Finding(s: State): multiset<Entry> {
    if s.r.RFound? then multiset{s.r.e} else multiset{}
  }

  /** Every buffer handed out is outstanding or was delivered, once. */
  ghost predicate Accounted(posted: seq<Entry>, list: seq<Entry>, finding: multiset<Entry>, delivered: seq<Delivery>) {
    multiset(posted) == multiset(list) + finding + multiset(Entries(delivered))
  }

  ghost predicate SkbsDistinct(posted: seq<Entry>) {
    forall i, j | 0 <= i < j < |posted| :: posted[i].skb != posted[j].skb
  }

  ghost predicate Histories(s: State)
    requires Shape(s)
  {
    && InOrder(s.delivered, s.arrivals)
    && Pending(FullAddrs(s), FullSizes(s), s.arrivals[|s.delivered|..])
    && Accounted(s.posted, s.list, Finding(s), s.delivered)
    && SkbsDistinct(s.posted)
  }

  ghost predicate AgentInv(s: State)
    requires Shape(s)
  {
    && (match s.a
        case AIdle => true
        case AListed(e) => !Full(s.eRd, s.eWr)
        case AStored(e) => !Full(s.eRd, s.eWr) && s.freeAddr[SlotOf(s.eWr)] == e.iova)
    && (match s.r
        case RIdle => true
        case RLoaded(addr, len) => s.fRd < s.fWr && addr == s.busyAddr[SlotOf(s.fRd)] && len == s.busySize[SlotOf(s.fRd)]
        case RFound(e, len) => s.fRd < s.fWr && e.iova == s.busyAddr[SlotOf(s.fRd)] && len == s.busySize[SlotOf(s.fRd)]
        case RMissed => false)
    && (match s.ep
        case EpIdle => true
        case EpLoaded(addr) => s.eRd < s.eWr && addr == s.freeAddr[SlotOf(s.eRd)]
        case EpStored(addr, len) =>
          !Full(s.fRd, s.fWr) && addr in s.held && s.busyAddr[SlotOf(s.fWr)] == addr && s.busySize[SlotOf(s.fWr)] == len)
  }

  ghost predicate Inv(s: State) {
    Shape(s) && Conserved(s) && Histories(s) && AgentInv(s)
  }

  // ------------------------------------------------------------ preservation

  lemma IovasPush(l: seq<Entry>, e: Entry)
    ensures Iovas(l + [e]) == Iovas(l) + [e.iova]
  {
  }

  lemma IovasRemove(l: seq<Entry>, i: nat)
    requires i < |l|
    ensures multiset(Iovas(l)) == multiset(Iovas(l[..i] + l[i + 1..])) + multiset{l[i].iova}
    ensures multiset(l) == multiset(l[..i] + l[i + 1..]) + multiset{l[i]}
  {
    var v := Iovas(l);
    assert Iovas(l[..i] + l[i + 1..]) == v[..i] + v[i + 1..];
    assert v == v[..i] + [v[i]] + v[i + 1..];
    assert l == l[..i] + [l[i]] + l[i + 1..];
  }

  // how a buffer moves from place to place

  lemma MoveNew(mapped: multiset<nat>, empty: seq<nat>, held: set<nat>, full: seq<nat>, a: nat)
    requires Split(mapped, multiset{}, empty, held, full) && a !in mapped
    ensures Split(mapped + multiset{a}, multiset{a}, empty, held, full)
  {
  }

  lemma MoveToEmptyRing(mapped: multiset<nat>, empty: seq<nat>, held: set<nat>, full: seq<nat>, a: nat)
    requires Split(mapped, multiset{a}, empty, held, full)
    ensures Split(mapped, multiset{}, empty + [a], held, full)
  {
  }

  lemma MoveToEndpoint(mapped: multiset<nat>, posting: multiset<nat>, empty: seq<nat>, held: set<nat>, full: seq<nat>, a: nat)
    requires Split(mapped, posting, [a] + empty, held, full)
    ensures Split(mapped, posting, empty, held + {a}, full)
  {
    assert multiset([a] + empty) == multiset{a} + multiset(empty);
    assert mapped[a] <= 1;
    assert multiset(held + {a}) == multiset(held) + multiset{a};
  }

  lemma MoveToFullRing(mapped: multiset<nat>, posting: multiset<nat>, empty: seq<nat>, held: set<nat>, full: seq<nat>, a: nat)
    requires Split(mapped, posting, empty, held, full) && a in held
    ensures Split(mapped, posting, empty, held - {a}, full + [a])
  {
    assert multiset(held) == multiset(held - {a}) + multiset{a};
  }

  lemma MoveOut(mapped: multiset<nat>, posting: multiset<nat>, empty: seq<nat>, held: set<nat>, full: seq<nat>, a: nat)
    requires Split(mapped + multiset{a}, posting, empty, held, [a] + full)
    ensures Split(mapped, posting, empty, held, full)
  {
    assert multiset([a] + full) == multiset{a} + multiset(full);
    var places := posting + multiset(empty) + multiset(held) + multiset(full);
    assert mapped == (mapped + multiset{a}) - multiset{a};
    assert places == (places + multiset{a}) - multiset{a};
    forall b ensures mapped[b] <= 1 {
      assert (mapped + multiset{a})[b] <= 1;
    }
  }

  lemma AllocatesConserves(s: State, t: State, e: Entry)
    requires Inv(s) && Allocates(s, t, e)
    ensures Shape(t) && Conserved(t)
  {
    IovasPush(s.list, e);
    MoveNew(Mapped(s), EmptyRing(s), s.held, FullAddrs(s), e.iova);
    assert Mapped(t) == Mapped(s) + multiset{e.iova};
  }

  lemma AccountedPosted(posted: seq<Entry>, list: seq<Entry>, e: Entry, finding: multiset<Entry>, delivered: seq<Delivery>)
    requires Accounted(posted, list, finding, delivered)
    ensures Accounted(posted + [e], list + [e], finding, delivered)
  {
  }

  lemma AllocatesKeepsInv(s: State, t: State, e: Entry)
    requires Inv(s) && Allocates(s, t, e)
    ensures Inv(t)
  {
    AllocatesConserves(s, t, e);
    AccountedPosted(s.posted, s.list, e, Finding(s), s.delivered);
    assert SkbsDistinct(t.posted);
  }

  lemma StoresEmptyKeepsInv(s: State, t: State)
    requires Inv(s) && StoresEmpty(s, t)
    ensures Inv(t)
  {
    WriteAhead(s.freeAddr, s.eRd, s.eWr, s.a.e.iova);
    if s.ep.EpLoaded? { SlotsDiffer(s.eRd, s.eWr); }
    assert EmptyRing(t) == EmptyRing(s) && FullAddrs(t) == FullAddrs(s) && Mapped(t) == Mapped(s);
  }

  lemma PostsEmptyKeepsInv(s: State, t: State)
    requires Inv(s) && PostsEmpty(s, t)
    ensures Inv(t)
  {
    AdvanceWr(s.freeAddr, s.eRd, s.eWr);
    assert EmptyRing(t) == EmptyRing(s) + [s.a.e.iova] && Mapped(t) == Mapped(s);
    MoveToEmptyRing(Mapped(s), EmptyRing(s), s.held, FullAddrs(s), s.a.e.iova);
  }

  /** A buffer named on the full ring is still on the list. */
  lemma SearchHits(s: State)
    requires Inv(s) && s.r.RLoaded?
    ensures FirstIndex(s.list, s.r.addr) < |s.list|
  {
    assert FullAddrs(s)[0] == s.r.addr;
    assert s.r.addr in multiset(FullAddrs(s));
    assert s.r.addr in Mapped(s);
    assert s.r.addr in Iovas(s.list);
  }

  /** The search never misses. */
  lemma SearchesKeepsInv(s: State, t: State)
    requires Inv(s) && Searches(s, t)
    ensures Inv(t) && t.r.RFound?
  {
    SearchHits(s);
    var i := FirstIndex(s.list, s.r.addr);
    IovasRemove(s.list, i);
    assert t == s.(list := s.list[..i] + s.list[i + 1..], r := RFound(s.list[i], s.r.len));
    assert Mapped(t) == Mapped(s);
    assert FullAddrs(t) == FullAddrs(s) && FullSizes(t) == FullSizes(s);
    assert Conserved(t);
    AccountedFound(s.posted, s.list, i, s.delivered);
  }

  lemma AccountedFound(posted: seq<Entry>, list: seq<Entry>, i: nat, delivered: seq<Delivery>)
    requires i < |list| && Accounted(posted, list, multiset{}, delivered)
    ensures Accounted(posted, list[..i] + list[i + 1..], multiset{list[i]}, delivered)
  {
    IovasRemove(list, i);
  }

  lemma AccountedDelivered(posted: seq<Entry>, list: seq<Entry>, d: Delivery, delivered: seq<Delivery>)
    requires Accounted(posted, list, multiset{d.e}, delivered)
    ensures Accounted(posted, list, multiset{}, delivered + [d])
  {
    assert Entries(delivered + [d]) == Entries(delivered) + [d.e];
  }

  lemma DeliversHistories(s: State, t: State)
    requires Inv(s) && Delivers(s, t)
    ensures Shape(t) && Histories(t)
  {
    AdvanceRd(s.busyAddr, s.fRd, s.fWr);
    AdvanceRd(s.busySize, s.fRd, s.fWr);
    assert FullAddrs(s) == [s.r.e.iova] + FullAddrs(t);
    assert FullSizes(s) == [s.r.len] + FullSizes(t);
    var d := Delivery(s.r.e, s.r.len);
    AccountedDelivered(s.posted, s.list, d, s.delivered);
    OrderedDelivered(s.delivered, d, s.arrivals, FullAddrs(t), FullSizes(t));
  }

  lemma OrderedDelivered(delivered: seq<Delivery>, d: Delivery, arrivals: seq<Arrival>, addrs: seq<nat>, sizes: seq<nat>)
    requires InOrder(delivered, arrivals)
    requires Pending([d.e.iova] + addrs, [d.len] + sizes, arrivals[|delivered|..])
    ensures InOrder(delivered + [d], arrivals) && Pending(addrs, sizes, arrivals[|delivered| + 1..])
  {
    var rest := arrivals[|delivered|..];
    assert rest[0] == Arrival(d.e.iova, d.len);
    forall i | 0 <= i < |rest| - 1
      ensures arrivals[|delivered| + 1..][i] == Arrival(addrs[i], sizes[i])
    {
      assert rest[i + 1] == Arrival(([d.e.iova] + addrs)[i + 1], ([d.len] + sizes)[i + 1]);
    }
  }

  lemma DeliversKeepsInv(s: State, t: State)
    requires Inv(s) && Delivers(s, t)
    ensures Inv(t)
  {
    DeliversHistories(s, t);
    AdvanceRd(s.busyAddr, s.fRd, s.fWr);
    assert FullAddrs(s) == [s.r.e.iova] + FullAddrs(t);
    assert Mapped(s) == Mapped(t) + multiset{s.r.e.iova};
    MoveOut(Mapped(t), Posting(s), EmptyRing(s), s.held, FullAddrs(t), s.r.e.iova);
  }

  lemma LooksKeepInv(s: State, t: State)
    requires Inv(s) && (LoadsFull(s, t) || EpLoads(s, t))
    ensures Inv(t)
  {
    assert EmptyRing(t) == EmptyRing(s) && FullAddrs(t) == FullAddrs(s) && Mapped(t) == Mapped(s);
  }

  lemma EpTakesKeepsInv(s: State, t: State)
    requires Inv(s) && EpTakes(s, t)
    ensures Inv(t)
  {
    AdvanceRd(s.freeAddr, s.eRd, s.eWr);
    assert EmptyRing(s) == [s.ep.addr] + EmptyRing(t) && Mapped(t) == Mapped(s);
    MoveToEndpoint(Mapped(s), Posting(s), EmptyRing(t), s.held, FullAddrs(s), s.ep.addr);
  }

  lemma EpStoresKeepsInv(s: State, t: State, a: nat, len: nat)
    requires Inv(s) && EpStores(s, t, a, len)
    ensures Inv(t)
  {
    WriteAhead(s.busyAddr, s.fRd, s.fWr, a);
    WriteAhead(s.busySize, s.fRd, s.fWr, len);
    if s.fRd < s.fWr { SlotsDiffer(s.fRd, s.fWr); }
    assert FullAddrs(t) == FullAddrs(s) && FullSizes(t) == FullSizes(s) && Mapped(t) == Mapped(s);
  }

  lemma EpPostsHistories(s: State, t: State)
    requires Inv(s) && EpPosts(s, t)
    ensures Shape(t) && Histories(t)
  {
    AdvanceWr(s.busyAddr, s.fRd, s.fWr);
    AdvanceWr(s.busySize, s.fRd, s.fWr);
    assert FullAddrs(t) == FullAddrs(s) + [s.ep.addr];
    assert FullSizes(t) == FullSizes(s) + [s.ep.len];
    assert t.arrivals[|t.delivered|..] == s.arrivals[|s.delivered|..] + [Arrival(s.ep.addr, s.ep.len)];
  }

  lemma EpPostsKeepsInv(s: State, t: State)
    requires Inv(s) && EpPosts(s, t)
    ensures Inv(t)
  {
    EpPostsHistories(s, t);
    AdvanceWr(s.busyAddr, s.fRd, s.fWr);
    assert FullAddrs(t) == FullAddrs(s) + [s.ep.addr] && Mapped(t) == Mapped(s);
    MoveToFullRing(Mapped(s), Posting(s), EmptyRing(s), s.held, FullAddrs(s), s.ep.addr);
  }

  lemma HostKeepsInv(s: State, t: State)
    requires Inv(s) && HostStep(s, t)
    ensures Inv(t)
  {
    if e :| Allocates(s, t, e) { AllocatesKeepsInv(s, t, e); }
    else if StoresEmpty(s, t) { StoresEmptyKeepsInv(s, t); }
    else if PostsEmpty(s, t) { PostsEmptyKeepsInv(s, t); }
    else if Searches(s, t) { SearchesKeepsInv(s, t); }
    else if Delivers(s, t) { DeliversKeepsInv(s, t); }
    else { LooksKeepInv(s, t); }
  }

  lemma EndpointKeepsInv(s: State, t: State)
    requires Inv(s) && EpStep(s, t)
    ensures Inv(t)
  {
    if EpTakes(s, t) { EpTakesKeepsInv(s, t); }
    else if a, len :| EpStores(s, t, a, len) { EpStoresKeepsInv(s, t, a, len); }
    else if EpPosts(s, t) { EpPostsKeepsInv(s, t); }
    else { LooksKeepInv(s, t); }
  }

  lemma {:induction false} RunInv(run: seq<State>, i: nat)
    requires Run(run) && i < |run|
    ensures Inv(run[i])
  {
    if i > 0 {
      RunInv(run, i - 1);
      if HostStep(run[i - 1], run[i]) {
        HostKeepsInv(run[i - 1], run[i]);
      } else {
        EndpointKeepsInv(run[i - 1], run[i]);
      }
    }
  }

  // ------------------------------------------------------------ main results

  /** In every state of every run the addresses on ep2h_empty_list (with the one just taken
      off it) are exactly those being posted, on the empty ring, with the endpoint and on the
      full ring, each in one place; so the list search never fails. */
  lemma ListMatchesRings(run: seq<State>, i: nat)
    requires Run(run) && i < |run|
    ensures Shape(run[i]) && Conserved(run[i]) && !run[i].r.RMissed?
  {
    RunInv(run, i);
  }

  /** Packets reach the stack in the order they were posted on the full ring, each in the
      buffer the endpoint named; every buffer handed out is outstanding or was delivered
      exactly once. */
  lemma DeliveredOnceInOrder(run: seq<State>, i: nat)
    requires Run(run) && i < |run|
    ensures var s := run[i];
            && InOrder(s.delivered, s.arrivals)
            && Accounted(s.posted, s.list, Finding(s), s.delivered)
            && (forall j, k | 0 <= j < k < |s.delivered| :: s.delivered[j].e.skb != s.delivered[k].e.skb)
  {
    RunInv(run, i);
    var s := run[i];
    forall j, k | 0 <= j < k < |s.delivered|
      ensures s.delivered[j].e.skb != s.delivered[k].e.skb
    {
      DeliveredApart(s, j, k);
    }
  }

  lemma DeliveredApart(s: State, j: nat, k: nat)
    requires Inv(s) && j < k < |s.delivered|
    ensures s.delivered[j].e.skb != s.delivered[k].e.skb
  {
    var x, y := s.delivered[j].e, s.delivered[k].e;
    var v := Entries(s.delivered);
    assert v == v[..j] + [x] + v[j + 1..k] + [y] + v[k + 1..];
    assert multiset(s.posted)[x] >= 1 && multiset(s.posted)[y] >= 1;
    assert x in s.posted && y in s.posted;
    var p :| 0 <= p < |s.posted| && s.posted[p] == x;
    var q :| 0 <= q < |s.posted| && s.posted[q] == y;
    assert x == y ==> multiset(v)[x] >= 2;
    PostedOnce(s.posted, x);
    assert p != q;
  }

  lemma {:induction false} PostedOnce(posted: seq<Entry>, x: Entry)
    requires SkbsDistinct(posted)
    ensures multiset(posted)[x] <= 1
  {
    if posted != [] {
      var n := |posted| - 1;
      assert posted == posted[..n] + [posted[n]];
      PostedOnce(posted[..n], x);
      if posted[n] == x {
        assert x !in posted[..n];
      }
    }
  }
}
