/** The receive side's own code on real rings: posting empty buffers, and taking packets off
  the full ring, each shown to be a sequence of steps of the machine in NetRx. */
module NetRxDriver {
  import opened Paths
  import opened IvcRing
  import opened NetRx

  ghost predicate HostPath(path: seq<State>) {
    Path(path, HostStep)
  }

  lemma PathKeepsInv(path: seq<State>, i: nat)
    requires HostPath(path) && Inv(path[0]) && i < |path|
    ensures Inv(path[i])
  {
    forall s, t | Inv(s) && HostStep(s, t) ensures Inv(t) {
      HostKeepsInv(s, t);
    }
    PathKeeps(path, HostStep, Inv, i);
  }

  /** What the kernel promises of new buffers: no live mapping has their addresses, and the
      socket buffers are new. */
  ghost predicate NewBuffer(e: Entry, list: seq<Entry>, posted: seq<Entry>) {
    && (forall i | 0 <= i < |list| :: list[i].iova != e.iova)
    && (forall i | 0 <= i < |posted| :: posted[i].skb != e.skb)
  }

  ghost predicate NewBuffers(es: seq<Entry>, list: seq<Entry>, posted: seq<Entry>) {
    && (forall i | 0 <= i < |es| :: NewBuffer(es[i], list, posted))
    && (forall i, j | 0 <= i < j < |es| :: es[i].iova != es[j].iova && es[i].skb != es[j].skb)
  }

  class RxRings {
    const freeAddr: array<nat>
    const busyAddr: array<nat>
    const busySize: array<nat>
    var eRd: nat
    var eWr: nat
    var fRd: nat
    var fWr: nat
    /** ep2h_empty_list */
    var list: seq<Entry>
    ghost var held: set<nat>
    ghost var posted: seq<Entry>
    ghost var arrivals: seq<Arrival>
    ghost var delivered: seq<Delivery>

    ghost predicate Valid()
      reads this
    {
      && freeAddr.Length == busyAddr.Length == busySize.Length == RING_COUNT
      && freeAddr != busyAddr && freeAddr != busySize && busyAddr != busySize
      && eRd <= eWr && fRd <= fWr
    }

    ghost function Snapshot(a: Allocator, r: Receiver): State
      reads this, freeAddr, busyAddr, busySize
    {
      State(freeAddr[..], eRd, eWr, busyAddr[..], busySize[..], fRd, fWr,
            list, a, r, EpIdle, held, posted, arrivals, delivered)
    }

    constructor ()
      ensures Valid() && Init(Snapshot(AIdle, RIdle))
    {
      freeAddr, busyAddr, busySize := new nat[RING_COUNT], new nat[RING_COUNT], new nat[RING_COUNT];
      eRd, eWr, fRd, fWr := 0, 0, 0, 0;
      list, held, posted, arrivals, delivered := [], {}, [], [], [];
    }

    /** One buffer goes on the list, into the ring's next slot, and is published. */
    method PostBuffer(e: Entry, ghost path0: seq<State>) returns (ghost path: seq<State>)
      requires Valid() && !Full(eRd, eWr) && NewBuffer(e, list, posted)
      requires HostPath(path0) && path0[|path0| - 1] == Snapshot(AIdle, RIdle)
      modifies `list, `eWr, `posted, freeAddr
      ensures Valid() && HostPath(path) && path[0] == path0[0] && path[|path| - 1] == Snapshot(AIdle, RIdle)
      ensures list == old(list) + [e] && posted == old(posted) + [e] && eWr == old(eWr) + 1
    {
      ghost var s := Snapshot(AIdle, RIdle);
      list := list + [e];
      posted := posted + [e];
      ghost var t := Snapshot(AListed(e), RIdle);
      assert Allocates(s, t, e);
      ExtendPath(path0, HostStep, t);
      path := path0 + [t];
      var idx := SlotOf(eWr);
      freeAddr[idx] := e.iova;
      ghost var u := Snapshot(AStored(e), RIdle);
      assert StoresEmpty(t, u);
      ExtendPath(path, HostStep, u);
      path := path + [u];
      eWr := eWr + 1;
      ghost var v := Snapshot(AIdle, RIdle);
      assert PostsEmpty(u, v);
      ExtendPath(path, HostStep, v);
      path := path + [v];
    }

    /** The loop of axnet_host_alloc_empty_buffers. */
    method PostBuffers(es: seq<Entry>, ghost path0: seq<State>) returns (ghost path: seq<State>)
      requires Valid() && NewBuffers(es, list, posted)
      requires HostPath(path0) && path0[|path0| - 1] == Snapshot(AIdle, RIdle)
      modifies `list, `eWr, `posted, freeAddr
      ensures Valid() && HostPath(path) && path[0] == path0[0] && path[|path| - 1] == Snapshot(AIdle, RIdle)
      ensures old(eWr) <= eWr <= old(eWr) + |es| && list == old(list) + es[..eWr - old(eWr)]
      ensures Full(eRd, eWr) || eWr == old(eWr) + |es|
    {
      path := path0;
      var n: nat := 0;
      while !Full(eRd, eWr)
        invariant Valid() && n <= |es| && eWr == old(eWr) + n
        invariant HostPath(path) && path[0] == path0[0] && path[|path| - 1] == Snapshot(AIdle, RIdle)
        invariant list == old(list) + es[..n] && posted == old(posted) + es[..n]
        decreases |es| - n
      {
        if n == |es| {
          break;
        }
        StillNew(es, n, old(list), old(posted));
        path := PostBuffer(es[n], path);
        n := n + 1;
      }
    }

    /** axnet_host_alloc_empty_buffers. es are the buffers the kernel can give, in order: the
        ring is filled with them, or as far as they go. */
    method AllocEmptyBuffers(es: seq<Entry>) returns (ghost path: seq<State>)
      requires Valid() && Inv(Snapshot(AIdle, RIdle)) && NewBuffers(es, list, posted)
      modifies `list, `eWr, `posted, freeAddr
      ensures Valid() && Inv(Snapshot(AIdle, RIdle)) && HostPath(path)
      ensures path[0] == old(Snapshot(AIdle, RIdle)) && path[|path| - 1] == Snapshot(AIdle, RIdle)
      ensures old(eWr) <= eWr <= old(eWr) + |es| && list == old(list) + es[..eWr - old(eWr)]
      ensures Full(eRd, eWr) || eWr == old(eWr) + |es|
    {
      path := PostBuffers(es, [Snapshot(AIdle, RIdle)]);
      PathKeepsInv(path, |path| - 1);
    }

    /** The search through the list, element by element. */
    method FindEntry(addr: nat) returns (i: nat)
      ensures i == FirstIndex(list, addr)
    {
      i := 0;
      while i < |list|
        invariant i <= |list| && forall j | 0 <= j < i :: list[j].iova != addr
      {
        if list[i].iova == addr {
          break;
        }
        i := i + 1;
      }
    }

    /** Reading the full entry and finding its buffer, which always succeeds. */
    method TakeEntry(ghost path0: seq<State>) returns (e: Entry, len: nat, ghost path: seq<State>)
      requires Valid() && fRd < fWr
      requires HostPath(path0) && Inv(path0[0]) && path0[|path0| - 1] == Snapshot(AIdle, RIdle)
      modifies `list
      ensures Valid() && HostPath(path) && path[0] == path0[0] && path[|path| - 1] == Snapshot(AIdle, RFound(e, len))
    {
      var idx := SlotOf(fRd);
      var addr := busyAddr[idx];
      len := busySize[idx];
      ghost var t := Snapshot(AIdle, RLoaded(addr, len));
      assert LoadsFull(path0[|path0| - 1], t);
      ExtendPath(path0, HostStep, t);
      path := path0 + [t];
      var i := FindEntry(addr);
      EntryFound(path);
      e := list[i];
      list := list[..i] + list[i + 1..];
      ghost var u := Snapshot(AIdle, RFound(e, len));
      assert Searches(t, u);
      ExtendPath(path, HostStep, u);
      path := path + [u];
    }

    /** One packet: found, its slot given back to the endpoint, and passed on. */
    method ReceiveOne(ghost path0: seq<State>) returns (ghost path: seq<State>)
      requires Valid() && fRd < fWr
      requires HostPath(path0) && Inv(path0[0]) && path0[|path0| - 1] == Snapshot(AIdle, RIdle)
      modifies `list, `fRd, `delivered
      ensures Valid() && HostPath(path) && path[0] == path0[0] && path[|path| - 1] == Snapshot(AIdle, RIdle)
      ensures fRd == old(fRd) + 1 && |delivered| == |old(delivered)| + 1 && old(delivered) <= delivered
    {
      var e, len;
      e, len, path := TakeEntry(path0);
      ghost var s := path[|path| - 1];
      fRd := fRd + 1;
      delivered := delivered + [Delivery(e, len)];
      ghost var t := Snapshot(AIdle, RIdle);
      assert Delivers(s, t);
      ExtendPath(path, HostStep, t);
      path := path + [t];
    }

    method ReceiveAll(weight: nat, ghost path0: seq<State>) returns (count: nat, ghost path: seq<State>)
      requires Valid() && HostPath(path0) && Inv(path0[0]) && path0[|path0| - 1] == Snapshot(AIdle, RIdle)
      modifies `list, `fRd, `delivered
      ensures Valid() && HostPath(path) && path[0] == path0[0] && path[|path| - 1] == Snapshot(AIdle, RIdle)
      ensures count == if old(fWr - fRd) <= weight then old(fWr - fRd) else weight
      ensures fRd == old(fRd) + count && |delivered| == |old(delivered)| + count && old(delivered) <= delivered
    {
      count, path := 0, path0;
      while count < weight && fWr - fRd != 0
        invariant Valid() && count <= weight && fRd == old(fRd) + count
        invariant |delivered| == |old(delivered)| + count && old(delivered) <= delivered
        invariant HostPath(path) && path[0] == path0[0] && path[|path| - 1] == Snapshot(AIdle, RIdle)
        decreases weight - count
      {
        path := ReceiveOne(path);
        count := count + 1;
      }
    }

    /** axnet_host_process_ep2h_msg: the packets that are there, at most weight of them, are
        all delivered and none is counted as an error. */
    method ProcessEp2hMsg(weight: nat) returns (count: nat, ghost path: seq<State>)
      requires Valid() && Inv(Snapshot(AIdle, RIdle))
      modifies `list, `fRd, `delivered
      ensures Valid() && Inv(Snapshot(AIdle, RIdle)) && HostPath(path)
      ensures path[0] == old(Snapshot(AIdle, RIdle)) && path[|path| - 1] == Snapshot(AIdle, RIdle)
      ensures count == if old(fWr - fRd) <= weight then old(fWr - fRd) else weight
      ensures fRd == old(fRd) + count && |delivered| == |old(delivered)| + count && old(delivered) <= delivered
    {
      count, path := ReceiveAll(weight, [Snapshot(AIdle, RIdle)]);
      PathKeepsInv(path, |path| - 1);
    }
  }

  /** A buffer of the promised ones is still new after those before it were posted. */
  lemma StillNew(es: seq<Entry>, n: nat, list: seq<Entry>, posted: seq<Entry>)
    requires NewBuffers(es, list, posted) && n < |es|
    ensures NewBuffer(es[n], list + es[..n], posted + es[..n])
  {
    assert NewBuffer(es[n], list, posted);
  }

  lemma EntryFound(path: seq<State>)
    requires HostPath(path) && Inv(path[0]) && path[|path| - 1].r.RLoaded?
    ensures var s := path[|path| - 1]; FirstIndex(s.list, s.r.addr) < |s.list|
  {
    PathKeepsInv(path, |path| - 1);
    SearchHits(path[|path| - 1]);
  }
}
