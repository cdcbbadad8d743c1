/** The ring operations of ax_pcie_msg_transfer.c on a real buffer.

  SharedRing is the memory both machines see; Kfifo is one side's struct ax_pcie_shmem
  with its private copies of the two counters.  Every method is proved against the queue
  of messages in RingQueue, so that sending appends to that queue and receiving takes
  from its front, whatever the buffer does underneath. */
module Kfifo {
  import opened Common
  import opened RingLayout
  import opened MessageHead
  import opened RingQueue

  function Min(a: nat, b: nat): nat { if a <= b then a else b }

  /** Truncation to an unsigned 32-bit word. */
  function U32(x: nat): (r: nat)
    ensures x < TWO_32 ==> r == x
  {
    if x < TWO_32 then x else x % TWO_32
  }

  /** s with src laid over it from off on. */
  function Blit(s: Buffer, off: nat, src: seq<byte>): (t: Buffer)
    requires off + |src| <= |s|
    ensures |t| == |s|
    ensures forall i | 0 <= i < |s| :: t[i] == if off <= i < off + |src| then src[i - off] else s[i]
  {
    s[..off] + src + s[off + |src|..]
  }

  class SharedRing {
    const size: FifoSize
    const data: array<byte>
    var wp: nat
    var rp: nat

    constructor (size: FifoSize)
      ensures this.size == size && data.Length == size && fresh(data)
      ensures QueueInv(size, data[..], rp, wp, [])
    {
      this.size := size;
      data := new byte[size](_ => 0);
      wp, rp := 0, 0;
    }

    /** The unread messages of the ring are q. */
    ghost predicate Queue(q: seq<Message>)
      reads this, data
    {
      data.Length == size && QueueInv(size, data[..], rp, wp, q)
    }
  }

  method MemcpyToIo(dst: array<byte>, off: nat, src: seq<byte>)
    requires off + |src| <= dst.Length
    modifies dst
    ensures dst[..] == Blit(old(dst[..]), off, src)
  {
    var i := 0;
    while i < |src|
      invariant i <= |src|
      invariant forall k | 0 <= k < dst.Length ::
                  dst[k] == if off <= k < off + i then src[k - off] else old(dst[k])
    {
      dst[off + i] := src[i];
      i := i + 1;
    }
  }

  // ------------------------------------- the chunks of a copy, as one record

  /** b' is b with rec laid over it from index at on, around the end of the buffer. */
  ghost predicate Rotated(size: nat, b: Buffer, b': Buffer, at: nat, rec: seq<byte>)
    requires |b| == |b'| == size && at < size && |rec| <= size
  {
    && (forall p | at <= p < size :: b'[p] == if p - at < |rec| then rec[p - at] else b[p])
    && (forall p | 0 <= p < at :: b'[p] == if p + size - at < |rec| then rec[p + size - at] else b[p])
  }

  lemma RotatedStores(size: FifoSize, b: Buffer, b': Buffer, s: nat, rec: seq<byte>)
    requires |b| == |b'| == size && |rec| <= size
    requires Rotated(size, b, b', Phys(size, s), rec)
    ensures Stored(size, b', s, rec)
    ensures SameOn(size, b, b', s + |rec|, s + size)
  {
    forall d: nat | s <= d < s + size
      ensures At(size, b', d) == if d - s < |rec| then rec[d - s] else At(size, b, d)
    {
      PhysOffset(size, s, d - s);
    }
  }

  /** Payload up to the end of the buffer, the rest at the top, then the head. */
  lemma WrappedChunks(size: nat, b: Buffer, off: nat, head: seq<byte>, payload: seq<byte>, l: nat)
    requires |b| == size && off < size && |head| == HEAD_SIZE && HEAD_SIZE + |payload| <= size
    requires l == Min(|payload| + HEAD_SIZE, size - off) && l >= HEAD_SIZE
    ensures var b1 := Blit(b, off + HEAD_SIZE, payload[..l - HEAD_SIZE]);
            var b2 := Blit(b1, 0, payload[l - HEAD_SIZE..]);
            var b3 := Blit(b2, off, head);
            Rotated(size, b, b3, off, head + payload)
  {
    var k, rec := l - HEAD_SIZE, head + payload;
    var b1 := Blit(b, off + HEAD_SIZE, payload[..k]);
    var b2 := Blit(b1, 0, payload[k..]);
    var b3 := Blit(b2, off, head);
    assert |payload[k..]| <= off;
    forall p | off <= p < size ensures b3[p] == if p - off < |rec| then rec[p - off] else b[p] {
      assert b2[p] == b1[p];
    }
    forall p | 0 <= p < off ensures b3[p] == if p + size - off < |rec| then rec[p + size - off] else b[p] {
      assert b3[p] == b2[p] && b1[p] == b[p];
    }
  }

  /** Too little room for the head at the bottom: the record goes to the top. */
  lemma JumpedChunks(size: nat, b: Buffer, head: seq<byte>, payload: seq<byte>)
    requires |b| == size && |head| == HEAD_SIZE && HEAD_SIZE + |payload| <= size
    ensures Rotated(size, b, Blit(Blit(b, HEAD_SIZE, payload), 0, head), 0, head + payload)
  {
  }

  /** The head at the record start of counter c. */
  function HeadAt(size: FifoSize, b: Buffer, c: nat): Head
    requires |b| == size >= HEAD_SIZE
  {
    StartPlace(size, c);
    var at := Phys(size, Start(size, c));
    DecodeHead(b[at..at + HEAD_SIZE])
  }

  datatype HeadRead = Found(head: Head) | CheckFailed

  class Kfifo {
    const shm: SharedRing
    var inn: nat   // the field "in"
    var out: nat

    constructor (shm: SharedRing)
      ensures this.shm == shm && inn == 0 && out == 0
    {
      this.shm := shm;
      inn, out := 0, 0;
    }

    /** The index of a counter: off %= fifo_size. */
    method Offset(c: nat) returns (off: nat)
      ensures off == Phys(shm.size, c)
    {
      PhysIsMod(shm.size, c);
      off := c % shm.size;
    }

    method IsFull() returns (full: bool)
      requires out <= inn
      ensures full <==> inn >= out + shm.size
    {
      var mask := shm.size - 1;
      full := inn - out > mask;
    }

    /** The three copies of ax_pcie_kfifo_in, payload first and head last. */
    method CopyRecord(m: Message, off: nat, l: nat)
      requires shm.data.Length == shm.size && off < shm.size && HEAD_SIZE + |m.payload| <= shm.size
      requires l == Min(|m.payload| + HEAD_SIZE, shm.size - off)
      modifies shm.data
      ensures Rotated(shm.size, old(shm.data[..]), shm.data[..], if l < HEAD_SIZE then 0 else off, Record(m))
    {
      var head := EncodeHead(m.head);
      if l < HEAD_SIZE {
        JumpedChunks(shm.size, shm.data[..], head, m.payload);
        MemcpyToIo(shm.data, HEAD_SIZE, m.payload);
        MemcpyToIo(shm.data, 0, head);
      } else {
        WrappedChunks(shm.size, shm.data[..], off, head, m.payload, l);
        MemcpyToIo(shm.data, off + HEAD_SIZE, m.payload[..l - HEAD_SIZE]);
        MemcpyToIo(shm.data, 0, m.payload[l - HEAD_SIZE..]);
        MemcpyToIo(shm.data, off, head);
      }
    }

    /** Lengths are 32-bit in the source; the length check of ax_pcie_msg_send keeps every
        one of these sums below 2^32, so no reduction takes effect. */
    method KfifoIn(m: Message) returns (ret: int)
      requires shm.data.Length == shm.size && out <= inn < out + shm.size
      modifies `inn, shm.data
      ensures ret == if Span(|m.payload|) > shm.size - (old(inn) - out) then -2 else |m.payload|
      ensures ret == -2 ==> inn == old(inn) && shm.data[..] == old(shm.data[..])
      ensures ret != -2 ==>
                && inn == Advance(shm.size, old(inn), |m.payload|)
                && Stored(shm.size, shm.data[..], Start(shm.size, old(inn)), Record(m))
                && SameOn(shm.size, old(shm.data[..]), shm.data[..],
                          Start(shm.size, old(inn)) + |Record(m)|, Start(shm.size, old(inn)) + shm.size)
    {
      var len := |m.payload|;
      var aliagn := U32((len + HEAD_SIZE) % 32);
      var fixlen := MEM_ALIGN + MEM_ALIGN - aliagn;
      var nextWp := U32(len + fixlen + HEAD_SIZE);
      var fifoSize := shm.size;
      var freeSpace := U32(fifoSize - (inn - out));
      if nextWp > freeSpace {
        return -2;
      }
      var off := Offset(inn);
      var l := Min(U32(len + HEAD_SIZE), fifoSize - off);
      StartPlace(fifoSize, inn);
      CopyRecord(m, off, l);
      RotatedStores(fifoSize, old(shm.data[..]), shm.data[..], Start(fifoSize, inn), Record(m));
      if l < HEAD_SIZE {
        inn := inn + U32(nextWp + l);
      } else {
        inn := inn + nextWp;
      }
      return len;
    }

    /** One attempt to append m.  wpLost and rpLost say that a load met a bus error.  The
        ret < 0 test after ax_pcie_kfifo_in is on an unsigned value and never holds, so a
        refusal for lack of room goes on to write wp back; it is the same wp. */
    method SendDataToShmemBuffer(m: Message, wpLost: bool, rpLost: bool, ghost q: seq<Message>) returns (ret: int)
      requires shm.Queue(q)
      modifies this, shm`wp, shm.data
      ensures ret == if wpLost || rpLost then -4
                     else if old(shm.wp) - shm.rp >= shm.size then -1
                     else if Span(|m.payload|) > shm.size - (old(shm.wp) - shm.rp) then -2
                     else |m.payload|
      ensures ret >= 0 ==> shm.Queue(q + [m])
      ensures ret < 0 ==> shm.Queue(q) && shm.wp == old(shm.wp) && shm.data[..] == old(shm.data[..])
    {
      EmptyIff(shm.size, shm.data[..], shm.rp, shm.wp, q);
      if wpLost { return -4; }
      inn := shm.wp;
      if rpLost { return -4; }
      out := shm.rp;
      var full := IsFull();
      if full { return -1; }
      ghost var b := shm.data[..];
      ret := KfifoIn(m);
      shm.wp := inn;
      if ret >= 0 {
        SentRecordJoinsQueue(shm.size, b, shm.data[..], shm.rp, old(shm.wp), q, m);
      }
    }

    method IsEmpty(busError: bool, ghost q: seq<Message>) returns (ret: int)
      requires shm.Queue(q)
      modifies this
      ensures ret == if busError then -1 else if q == [] then 1 else 0
      ensures ret == 0 ==> out == shm.rp && inn == shm.wp
    {
      EmptyIff(shm.size, shm.data[..], shm.rp, shm.wp, q);
      if busError { return -1; }
      out := shm.rp;
      inn := shm.wp;
      return if inn == out then 1 else 0;
    }

    /** read_data_head: ten looks at the check word before giving up. */
    method ReadDataHead() returns (r: HeadRead)
      requires HEAD_SIZE <= shm.size == shm.data.Length
      ensures var h := HeadAt(shm.size, shm.data[..], out);
              r == if h.check == HEAD_CHECK_FINISHED then Found(h) else CheckFailed
    {
      var fifoSize := shm.size;
      var off := Offset(out);
      var at := if fifoSize - off < HEAD_SIZE then 0 else off;
      StartPlace(fifoSize, out);
      assert shm.data[..][at..at + HEAD_SIZE] == shm.data[at..at + HEAD_SIZE];
      var head := DecodeHead(shm.data[at..at + HEAD_SIZE]);
      var tries := 0;
      while head.check != HEAD_CHECK_FINISHED
        invariant head == HeadAt(shm.size, shm.data[..], out)
        decreases 10 - tries
      {
        tries := tries + 1;
        if tries >= 10 { return CheckFailed; }
        head := DecodeHead(shm.data[at..at + HEAD_SIZE]);
      }
      return Found(head);
    }

    /** __ax_pcie_kfifo_out: the payload of the first message, in at most two chunks. */
    method KfifoOut(len: nat, ghost q: seq<Message>) returns (dst: seq<byte>)
      requires shm.Queue(q) && q != [] && out == shm.rp && inn == shm.wp
      requires len == |q[0].payload|
      ensures dst == q[0].payload
    {
      ghost var b := shm.data[..];
      FirstPayload(shm.size, b, out, shm.wp, q);
      var size := shm.size;
      var l := inn - out;
      var n := if len + HEAD_SIZE > l then l else len;
      assert n == len;
      var off := Offset(out);
      if size - off < HEAD_SIZE {
        dst := shm.data[HEAD_SIZE..HEAD_SIZE + n];
      } else {
        l := Min(n, size - off - HEAD_SIZE);
        dst := shm.data[off + HEAD_SIZE..off + HEAD_SIZE + l] + shm.data[0..n - l];
      }
    }

    /** _update_read_pointer takes the branch and moves by the amount that
        ax_pcie_kfifo_in did for the same counter and length. */
    method UpdateReadPointer(len: MsgLen)
      modifies `out, shm`rp
      ensures out == Advance(shm.size, old(out), len) && shm.rp == out
    {
      var aliag := (len + HEAD_SIZE) % 32;
      var fixlen := MEM_ALIGN + MEM_ALIGN - aliag;
      var nextRp := U32(len + HEAD_SIZE + fixlen);
      var fifoSize := shm.size;
      var off := Offset(out);
      if fifoSize - off < HEAD_SIZE {
        out := out + (nextRp + (fifoSize - off));
      } else {
        out := out + nextRp;
      }
      shm.rp := out;
    }
  }

  /** The index of byte k of a record whose counter is at index off. */
  function RecordIndex(size: nat, off: nat, k: nat): nat
    requires off < size && k < size
  {
    var start := if size - off < HEAD_SIZE then 0 else off;
    if start + k < size then start + k else start + k - size
  }

  lemma StoredByte(size: FifoSize, b: Buffer, s: nat, rec: seq<byte>, k: nat)
    requires |b| == size && k < |rec| && Stored(size, b, s, rec)
    ensures b[Phys(size, s + k)] == rec[k]
  {
    assert At(size, b, s + k) == rec[k];
  }

  lemma RecordPlace(size: FifoSize, c: nat, k: nat)
    requires k < size
    ensures Phys(size, Start(size, c) + k) == RecordIndex(size, Phys(size, c), k)
  {
    StartPlace(size, c);
    PhysOffset(size, Start(size, c), k);
  }

  predicate PayloadByte(size: nat, b: Buffer, off: nat, payload: seq<byte>, i: nat)
    requires |b| == size && off < size && i < |payload| && HEAD_SIZE + |payload| <= size
  {
    var j := RecordIndex(size, off, HEAD_SIZE + i);
    j < size && b[j] == payload[i]
  }

  lemma PayloadByteAt(size: FifoSize, b: Buffer, c: nat, head: seq<byte>, payload: seq<byte>, i: nat)
    requires |b| == size && |head| == HEAD_SIZE && |head| + |payload| <= size && i < |payload|
    requires Stored(size, b, Start(size, c), head + payload)
    ensures PayloadByte(size, b, Phys(size, c), payload, i)
  {
    StoredByte(size, b, Start(size, c), head + payload, HEAD_SIZE + i);
    PayloadPlace(size, b, c, payload, i);
  }

  lemma PayloadPlace(size: FifoSize, b: Buffer, c: nat, payload: seq<byte>, i: nat)
    requires |b| == size && HEAD_SIZE + |payload| <= size && i < |payload|
    requires b[Phys(size, Start(size, c) + (HEAD_SIZE + i))] == payload[i]
    ensures PayloadByte(size, b, Phys(size, c), payload, i)
  {
    RecordPlace(size, c, HEAD_SIZE + i);
  }

  lemma ChunksJoin(size: nat, b: Buffer, off: nat, payload: seq<byte>)
    requires |b| == size && off < size && HEAD_SIZE + |payload| <= size
    requires forall i | 0 <= i < |payload| :: PayloadByte(size, b, off, payload, i)
    ensures var n := |payload|;
      if size - off < HEAD_SIZE then b[HEAD_SIZE..HEAD_SIZE + n] == payload
      else
        var l := Min(n, size - off - HEAD_SIZE);
        b[off + HEAD_SIZE..off + HEAD_SIZE + l] + b[0..n - l] == payload
  {
    forall i | 0 <= i < |payload|
      ensures RecordIndex(size, off, HEAD_SIZE + i) < size && b[RecordIndex(size, off, HEAD_SIZE + i)] == payload[i]
    {
      assert PayloadByte(size, b, off, payload, i);
    }
  }

  /** The two ways the payload is put together from the buffer. */
  lemma ChunksArePayload(size: FifoSize, b: Buffer, c: nat, head: seq<byte>, payload: seq<byte>)
    requires |b| == size && |head| == HEAD_SIZE && |head| + |payload| <= size
    requires Stored(size, b, Start(size, c), head + payload)
    ensures var n, off := |payload|, Phys(size, c);
      if size - off < HEAD_SIZE then b[HEAD_SIZE..HEAD_SIZE + n] == payload
      else
        var l := Min(n, size - off - HEAD_SIZE);
        b[off + HEAD_SIZE..off + HEAD_SIZE + l] + b[0..n - l] == payload
  {
    var off := Phys(size, c);
    forall i | 0 <= i < |payload| ensures PayloadByte(size, b, off, payload, i) {
      PayloadByteAt(size, b, c, head, payload, i);
    }
    ChunksJoin(size, b, off, payload);
  }

  /** So the first payload is what the reader's chunks give, and its length is not clamped. */
  lemma FirstPayload(size: FifoSize, b: Buffer, rp: nat, wp: nat, q: seq<Message>)
    requires QueueInv(size, b, rp, wp, q) && q != []
    ensures var n, off := |q[0].payload|, Phys(size, rp);
      && rp + n + HEAD_SIZE <= wp && n + HEAD_SIZE <= size
      && (if size - off < HEAD_SIZE then b[HEAD_SIZE..HEAD_SIZE + n] == q[0].payload
          else
            var l := Min(n, size - off - HEAD_SIZE);
            b[off + HEAD_SIZE..off + HEAD_SIZE + l] + b[0..n - l] == q[0].payload)
  {
    FirstRecordStored(size, b, rp, wp, q);
    EmptyIff(size, b, rp, wp, q);
    ChunksArePayload(size, b, rp, EncodeHead(q[0].head), q[0].payload);
  }

  lemma SentRecordJoinsQueue(size: FifoSize, b: Buffer, b': Buffer, rp: nat, wp: nat, q: seq<Message>, m: Message)
    requires QueueInv(size, b, rp, wp, q) && |b'| == size && wp + Span(|m.payload|) <= rp + size
    requires Stored(size, b', Start(size, wp), Record(m))
    requires SameOn(size, b, b', Start(size, wp) + |Record(m)|, Start(size, wp) + size)
    ensures QueueInv(size, b', rp, Advance(size, wp, |m.payload|), q + [m])
  {
    EmptyIff(size, b, rp, wp, q);
    // the counters rp..wp lie one lap below the untouched part
    forall c: nat | rp <= c < wp
      ensures At(size, b, c) == At(size, b', c)
    {
      LapLater(size, c);
      assert At(size, b, c + size) == At(size, b', c + size);
    }
    QueueKept(size, b, b', rp, wp, q);
    QueuePush(size, b', rp, wp, q, m);
  }

  lemma LapLater(size: FifoSize, c: nat)
    ensures Phys(size, c + size) == Phys(size, c)
  {
    PhysOffset(size, c, size);
  }

  lemma FirstRecordStored(size: FifoSize, b: Buffer, rp: nat, wp: nat, q: seq<Message>)
    requires QueueInv(size, b, rp, wp, q) && q != []
    ensures Stored(size, b, Start(size, rp), Record(q[0]))
    ensures Start(size, rp) + |Record(q[0])| <= rp + size
  {
    assert Holds(size, b, rp, q, 0);
    assert Pos(size, rp, q, 0) == rp;
  }

  lemma HeadBytesAt(size: FifoSize, b: Buffer, c: nat, head: seq<byte>, payload: seq<byte>)
    requires |b| == size && |head| == HEAD_SIZE && |head| + |payload| <= size
    requires Stored(size, b, Start(size, c), head + payload)
    ensures var at := Phys(size, Start(size, c)); at + HEAD_SIZE <= size && b[at..at + HEAD_SIZE] == head
  {
    StartPlace(size, c);
    var at := Phys(size, Start(size, c));
    forall i | 0 <= i < HEAD_SIZE ensures b[at + i] == head[i] {
      PhysOffset(size, Start(size, c), i);
      StoredByte(size, b, Start(size, c), head + payload, i);
    }
  }

  /** In a valid ring the head found is the one sent: the check cannot fail. */
  lemma HeadAtFirst(size: FifoSize, b: Buffer, rp: nat, wp: nat, q: seq<Message>)
    requires QueueInv(size, b, rp, wp, q) && q != []
    ensures HEAD_SIZE <= size && HeadAt(size, b, rp) == q[0].head
  {
    FirstRecordStored(size, b, rp, wp, q);
    HeadBytesAt(size, b, rp, EncodeHead(q[0].head), q[0].payload);
    HeadRoundTrip(q[0].head);
  }
}
