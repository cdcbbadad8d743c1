/** The driver's own code on real arrays: filling the empty ring and transmitting one
  packet, each shown to be a sequence of steps of the machine in NetTx. */
module NetTxDriver {
  import opened Paths
  import opened Common
  import opened IvcRing
  import opened NetTx

  datatype XmitResult = TxOk | TxBusy

  ghost predicate HostPath(path: seq<State>) {
    Path(path, HostStep)
  }

  lemma PathKeepsInv(path: seq<State>, i: nat)
    requires HostPath(path) && Inv(path[0]) && i < |path|
    ensures Inv(path[i])
  {
    forall s, t | Inv(s) && HostStep(s, t) ensures Inv(t) {
      HostKeepsInv(s, t);
    }
    PathKeeps(path, HostStep, Inv, i);
  }

  /** The buffer just taken has room for the packet. */
  lemma CopyFits(path: seq<State>, p: Packet, dst: nat)
    requires HostPath(path) && Inv(path[0]) && path[|path| - 1].h == Copying(p, dst, 0)
    ensures var s := path[|path| - 1]; s.base <= dst && dst - s.base + |p| <= |s.mem|
  {
    PathKeepsInv(path, |path| - 1);
  }

  class TxRings {
    const base: nat            // tx_phy_addr
    const size: nat            // roundup_pow_of_two(mtu + ETH_HLEN)
    const area: array<byte>    // tx_virt_addr
    const freeAddr: array<nat>
    const freeLen: array<nat>
    const busyAddr: array<nat>
    const busySize: array<nat>
    var eRd: nat
    var eWr: nat
    var fRd: nat
    var fWr: nat
    ghost var held: map<nat, Taken>
    ghost var sent: seq<Packet>
    ghost var got: nat

    ghost predicate Valid()
      reads this
    {
      && size > 0 && area.Length == AreaSize(size)
      && freeAddr.Length == freeLen.Length == busyAddr.Length == busySize.Length == RING_COUNT
      && freeAddr != freeLen && freeAddr != busyAddr && freeAddr != busySize
      && freeLen != busyAddr && freeLen != busySize && busyAddr != busySize
      && eRd <= eWr && fRd <= fWr
    }

    ghost function Snapshot(h: Host): State
      reads this, area, freeAddr, busyAddr, busySize
    {
      State(base, size, area[..], freeAddr[..], eRd, eWr, busyAddr[..], busySize[..], fRd, fWr,
            h, EpIdle, held, sent, got)
    }

    /** The area and cleared counters, as axnet_host_user_link_up_req leaves them. */
    constructor (base: nat, size: nat)
      requires size > 0
      ensures Valid() && this.base == base && this.size == size
      ensures eRd == eWr == fRd == fWr == 0 && held == map[] && sent == [] && got == 0
    {
      this.base, this.size := base, size;
      area := new byte[AreaSize(size)](_ => 0);
      freeAddr, freeLen := new nat[RING_COUNT], new nat[RING_COUNT];
      busyAddr, busySize := new nat[RING_COUNT], new nat[RING_COUNT];
      eRd, eWr, fRd, fWr := 0, 0, 0, 0;
      held, sent, got := map[], [], 0;
    }

    /** axnet_host_alloc_tx_buffers: slots are filled from index 0, which is the ring's next
        slot because the counters have just been cleared. */
    method AllocTxBuffers()
      requires Valid() && eRd == eWr == fRd == fWr == 0 && held == map[] && sent == [] && got == 0
      modifies `eWr, freeAddr, freeLen
      ensures Valid() && Init(Snapshot(Idle))
      ensures forall i | 0 <= i < RING_COUNT :: freeLen[i] == size
    {
      var idx := 0;
      while !Full(eRd, eWr)
        invariant eWr == idx <= RING_COUNT && eRd == 0
        invariant forall i | 0 <= i < idx :: freeAddr[i] == SlotAddr(base, size, i) && freeLen[i] == size
        decreases RING_COUNT - idx
      {
        SlotAddrIs(base, size, idx);
        var iova := base + idx * size;
        freeAddr[idx] := iova;
        freeLen[idx] := size;
        eWr := eWr + 1;
        idx := idx + 1;
      }
    }

    /** The memcpy into the slot, byte by byte. */
    method CopyPacket(p: Packet, dst: nat, ghost path0: seq<State>) returns (ghost path: seq<State>)
      requires Valid() && base <= dst && dst - base + |p| <= area.Length
      requires HostPath(path0) && path0[|path0| - 1] == Snapshot(Copying(p, dst, 0))
      modifies area
      ensures HostPath(path) && path[0] == path0[0] && path[|path| - 1] == Snapshot(Copying(p, dst, |p|))
    {
      path := path0;
      var k := 0;
      while k < |p|
        invariant k <= |p|
        invariant HostPath(path) && path[0] == path0[0] && path[|path| - 1] == Snapshot(Copying(p, dst, k))
      {
        ghost var s := Snapshot(Copying(p, dst, k));
        area[dst - base + k] := p[k];
        k := k + 1;
        ghost var t := Snapshot(Copying(p, dst, k));
        assert t.mem == s.mem[dst - base + (k - 1) := p[k - 1]];
        assert CopiesByte(s, t);
        ExtendPath(path, HostStep, t);
        path := path + [t];
      }
    }

    /** Filling the full entry and publishing it. */
    method PushFull(p: Packet, dst: nat, ghost path0: seq<State>) returns (ghost path: seq<State>)
      requires Valid()
      requires HostPath(path0) && path0[|path0| - 1] == Snapshot(Copying(p, dst, |p|))
      modifies `fWr, `sent, busyAddr, busySize
      ensures Valid() && HostPath(path) && path[0] == path0[0] && path[|path| - 1] == Snapshot(Idle)
      ensures fWr == old(fWr) + 1 && sent == old(sent) + [p]
    {
      path := path0;
      ghost var s := Snapshot(Copying(p, dst, |p|));
      var wrIdx := SlotOf(fWr);
      busySize[wrIdx] := |p|;
      ghost var t := Snapshot(StoredSize(p, dst));
      assert StoresSize(s, t);
      ExtendPath(path, HostStep, t);
      path := path + [t];
      busyAddr[wrIdx] := dst;
      ghost var u := Snapshot(StoredAddr(p, dst));
      assert StoresAddr(t, u);
      ExtendPath(path, HostStep, u);
      path := path + [u];
      fWr := fWr + 1;
      sent := sent + [p];
      ghost var v := Snapshot(Idle);
      assert PostsPacket(u, v);
      ExtendPath(path, HostStep, v);
      path := path + [v];
    }

    /** Taking the oldest empty buffer. */
    method PopEmpty(p: Packet, ghost path0: seq<State>) returns (dst: nat, ghost path: seq<State>)
      requires Valid() && eRd < eWr
      requires HostPath(path0) && path0[|path0| - 1] == Snapshot(SawRoom(p))
      modifies `eRd
      ensures Valid() && HostPath(path) && path[0] == path0[0] && path[|path| - 1] == Snapshot(Copying(p, dst, 0))
      ensures dst == freeAddr[SlotOf(old(eRd))] && eRd == old(eRd) + 1
    {
      ghost var s := Snapshot(SawRoom(p));
      var rdIdx := SlotOf(eRd);
      dst := freeAddr[rdIdx];
      ghost var t := Snapshot(Loaded(p, dst));
      assert LoadsAddr(s, t);
      ExtendPath(path0, HostStep, t);
      path := path0 + [t];
      eRd := eRd + 1;
      ghost var u := Snapshot(Copying(p, dst, 0));
      assert TakesBuffer(t, u);
      ExtendPath(path, HostStep, u);
      path := path + [u];
    }

    /** The two checks at the top of axnet_host_start_xmit.  The second, for a full ring,
        never finds one. */
    method CheckRings(p: Packet) returns (r: XmitResult, ghost path: seq<State>)
      requires Valid() && Inv(Snapshot(Idle)) && |p| <= size
      ensures r == if eRd < eWr then TxOk else TxBusy
      ensures HostPath(path) && path[0] == Snapshot(Idle)
      ensures path[|path| - 1] == Snapshot(if r.TxOk? then SawRoom(p) else Idle)
    {
      ghost var s := Snapshot(Idle);
      path := [s];
      if !(eWr - eRd > 0) { return TxBusy, path; }
      ghost var t := Snapshot(SawBuffer(p));
      assert SeesBuffer(s, t, p);
      ExtendPath(path, HostStep, t);
      path := path + [t];
      Places(s);
      if Full(fRd, fWr) {
        assert false;
        return TxBusy, path;
      }
      ghost var u := Snapshot(SawRoom(p));
      assert SeesRoom(t, u);
      ExtendPath(path, HostStep, u);
      path := path + [u];
      return TxOk, path;
    }

    /** The rest of it, once both rings were found fit. */
    method Transmit(p: Packet, ghost path0: seq<State>) returns (ghost path: seq<State>)
      requires Valid() && eRd < eWr
      requires HostPath(path0) && Inv(path0[0]) && path0[|path0| - 1] == Snapshot(SawRoom(p))
      modifies this, area, busyAddr, busySize
      ensures Valid() && HostPath(path) && path[0] == path0[0] && path[|path| - 1] == Snapshot(Idle)
      ensures sent == old(sent) + [p]
    {
      var dst;
      dst, path := PopEmpty(p, path0);
      CopyFits(path, p, dst);
      path := CopyPacket(p, dst, path);
      path := PushFull(p, dst, path);
    }

    /** axnet_host_start_xmit, undisturbed: busy exactly when no empty buffer is there,
        otherwise a path of host steps that ends with the packet posted. */
    method StartXmit(p: Packet) returns (r: XmitResult, ghost path: seq<State>)
      requires Valid() && Inv(Snapshot(Idle)) && |p| <= size
      modifies this, area, busyAddr, busySize
      ensures r == if old(eRd) < old(eWr) then TxOk else TxBusy
      ensures HostPath(path) && path[0] == old(Snapshot(Idle)) && path[|path| - 1] == Snapshot(Idle)
      ensures Valid() && Inv(Snapshot(Idle))
      ensures sent == if r.TxOk? then old(sent) + [p] else old(sent)
    {
      r, path := CheckRings(p);
      if r.TxOk? {
        path := Transmit(p, path);
        PathKeepsInv(path, |path| - 1);
      }
    }
  }
}
