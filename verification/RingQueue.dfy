/** The contents of the ring as a queue of messages.

  QueueInv says that the unread messages q lie in the buffer, whole, from the
  published read counter rp up to the published write counter wp.  The write
  counter may run ahead of rp + size by up to 23 bytes, but no stored byte does. */
module RingQueue {
  import opened Common
  import opened RingLayout
  import opened MessageHead

  type Buffer = seq<byte>

  function At(size: FifoSize, buf: Buffer, c: nat): byte
    requires |buf| == size
  {
    buf[Phys(size, c)]
  }

  /** The bytes rec lie in the buffer from counter s on. */
  ghost predicate Stored(size: FifoSize, buf: Buffer, s: nat, rec: seq<byte>)
    requires |buf| == size
  {
    forall c: nat | s <= c < s + |rec| :: At(size, buf, c) == rec[c - s]
  }

  /** Two buffers agree on the counters in [lo, hi). */
  ghost predicate SameOn(size: FifoSize, a: Buffer, b: Buffer, lo: nat, hi: nat)
    requires |a| == |b| == size
  {
    forall c: nat | lo <= c < hi :: At(size, a, c) == At(size, b, c)
  }

  /** The counter after the first j messages of q, starting from c. */
  function Pos(size: FifoSize, c: nat, q: seq<Message>, j: nat): nat
    requires j <= |q|
  {
    if j == 0 then c else Advance(size, Pos(size, c, q, j - 1), |q[j - 1].payload|)
  }

  function RecordAt(size: FifoSize, c: nat, q: seq<Message>, j: nat): nat
    requires j < |q|
  {
    Start(size, Pos(size, c, q, j))
  }

  function RecordEnd(size: FifoSize, c: nat, q: seq<Message>, j: nat): nat
    requires j < |q|
  {
    RecordAt(size, c, q, j) + HEAD_SIZE + |q[j].payload|
  }

  ghost predicate Holds(size: FifoSize, buf: Buffer, rp: nat, q: seq<Message>, j: nat)
    requires |buf| == size && j < |q|
  {
    && Stored(size, buf, RecordAt(size, rp, q, j), Record(q[j]))
    && RecordEnd(size, rp, q, j) <= rp + size
  }

  ghost predicate QueueInv(size: FifoSize, buf: Buffer, rp: nat, wp: nat, q: seq<Message>)
  {
    && |buf| == size
    && wp == Pos(size, rp, q, |q|)
    && wp <= rp + size + HEAD_SIZE - 1
    && forall j | 0 <= j < |q| :: Holds(size, buf, rp, q, j)
  }

  // ------------------------------------------------------------ positions

  lemma {:induction false} PosMonotone(size: FifoSize, c: nat, q: seq<Message>, i: nat, j: nat)
    requires i <= j <= |q|
    ensures Pos(size, c, q, i) <= Pos(size, c, q, j)
    ensures i < j ==> RecordEnd(size, c, q, i) < Pos(size, c, q, j)
  {
    if i < j {
      PosMonotone(size, c, q, i, j - 1);
    }
  }

  lemma {:induction false} PosPush(size: FifoSize, c: nat, q: seq<Message>, m: Message, j: nat)
    requires j <= |q|
    ensures Pos(size, c, q + [m], j) == Pos(size, c, q, j)
  {
    if j > 0 {
      PosPush(size, c, q, m, j - 1);
    }
  }

  lemma {:induction false} PosPop(size: FifoSize, c: nat, q: seq<Message>, j: nat)
    requires j < |q|
    ensures Pos(size, Advance(size, c, |q[0].payload|), q[1..], j) == Pos(size, c, q, j + 1)
  {
    if j > 0 {
      PosPop(size, c, q, j - 1);
    } else {
      assert Pos(size, c, q, 0) == c;
    }
  }

  // --------------------------------------------------------- buffer changes

  /** Overwriting the byte of one counter changes no other counter of the lap around it. */
  lemma WriteByte(size: FifoSize, buf: Buffer, c: nat, b: byte, lo: nat)
    requires |buf| == size
    requires lo <= c < lo + size
    ensures var buf' := buf[Phys(size, c) := b];
            && At(size, buf', c) == b
            && (forall d: nat | lo <= d < lo + size && d != c :: At(size, buf', d) == At(size, buf, d))
  {
    var buf' := buf[Phys(size, c) := b];
    forall d: nat | lo <= d < lo + size && d != c
      ensures At(size, buf', d) == At(size, buf, d)
    {
      if d < c { PhysDistinct(size, d, c); } else { PhysDistinct(size, c, d); }
    }
  }

  /** A buffer that keeps the counters [rp, wp) keeps the queue. */
  lemma QueueKept(size: FifoSize, buf: Buffer, buf': Buffer, rp: nat, wp: nat, q: seq<Message>)
    requires QueueInv(size, buf, rp, wp, q) && |buf'| == size
    requires SameOn(size, buf, buf', rp, wp)
    ensures QueueInv(size, buf', rp, wp, q)
  {
    forall j | 0 <= j < |q|
      ensures Holds(size, buf', rp, q, j)
    {
      assert Holds(size, buf, rp, q, j);
      PosMonotone(size, rp, q, 0, j);
      PosMonotone(size, rp, q, j, |q|);
    }
  }

  /** The record just written, published by moving wp past it. */
  lemma QueuePush(size: FifoSize, buf: Buffer, rp: nat, wp: nat, q: seq<Message>, m: Message)
    requires QueueInv(size, buf, rp, wp, q)
    requires Stored(size, buf, Start(size, wp), Record(m))
    requires wp + Span(|m.payload|) <= rp + size
    ensures QueueInv(size, buf, rp, Advance(size, wp, |m.payload|), q + [m])
  {
    var q' := q + [m];
    forall j | 0 <= j < |q'|
      ensures Holds(size, buf, rp, q', j)
    {
      PosPush(size, rp, q, m, j);
      if j < |q| {
        assert Holds(size, buf, rp, q, j);
      }
    }
    PosPush(size, rp, q, m, |q|);
  }

  /** The head of the queue, released by moving rp past it. */
  lemma QueuePop(size: FifoSize, buf: Buffer, rp: nat, wp: nat, q: seq<Message>)
    requires QueueInv(size, buf, rp, wp, q) && |q| > 0
    ensures QueueInv(size, buf, Advance(size, rp, |q[0].payload|), wp, q[1..])
  {
    var rp' := Advance(size, rp, |q[0].payload|);
    forall j | 0 <= j < |q[1..]|
      ensures Holds(size, buf, rp', q[1..], j)
    {
      PosPop(size, rp, q, j);
      assert Holds(size, buf, rp, q, j + 1);
    }
    PosPop(size, rp, q, |q| - 1);
  }

  /** A queue is empty exactly when the two counters meet. */
  lemma EmptyIff(size: FifoSize, buf: Buffer, rp: nat, wp: nat, q: seq<Message>)
    requires QueueInv(size, buf, rp, wp, q)
    ensures rp <= wp
    ensures rp == wp <==> q == []
    ensures q != [] ==> Advance(size, rp, |q[0].payload|) <= wp
  {
    PosMonotone(size, rp, q, 0, |q|);
    if |q| > 0 {
      PosMonotone(size, rp, q, 1, |q|);
      assert Pos(size, rp, q, 0) == rp;
    }
  }

  /** At most one buffer holds a given record and is otherwise unchanged: however the
      bytes get there, in chunks or one at a time, the memory ends up the same. */
  lemma WrittenBufferUnique(size: FifoSize, base: Buffer, a: Buffer, b: Buffer, s: nat, rec: seq<byte>)
    requires |base| == |a| == |b| == size && |rec| <= size
    requires Stored(size, a, s, rec) && SameOn(size, base, a, s + |rec|, s + size)
    requires Stored(size, b, s, rec) && SameOn(size, base, b, s + |rec|, s + size)
    ensures a == b
  {
    forall p | 0 <= p < size
      ensures a[p] == b[p]
    {
      var c := CounterOf(size, s, p);
      assert At(size, a, c) == At(size, b, c);
    }
  }
}
