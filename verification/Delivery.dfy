/** The receive loop: ax_pcie_recv_irq_mem and the per-port queues it feeds. */
module Delivery {
  import opened Common
  import opened RingLayout
  import opened MessageHead
  import opened RingQueue
  import opened Kfifo

  /** What one pass meets: whether the receiver of the i-th message it looks at can take it,
      and whether reading the counters before that message fails with a bus error. */
  datatype Pass = Pass(memory: nat -> bool, busError: nat -> bool)

  ghost predicate Refused(q: seq<Message>, open: set<Key>, pass: Pass, j: nat)
    requires j < |q|
  {
    KeyOf(q[j].head) in open && !pass.memory(j)
  }

  /** How many messages one pass consumes: those before the first bus error or the first
      message that an open receiver refuses. */
  ghost function Consumed(q: seq<Message>, open: set<Key>, pass: Pass, j: nat): (n: nat)
    requires j <= |q|
    ensures j <= n <= |q|
    ensures forall i | j <= i < n :: !pass.busError(i) && !Refused(q, open, pass, i)
    ensures n < |q| ==> pass.busError(n) || Refused(q, open, pass, n)
    decreases |q| - j
  {
    if j == |q| || pass.busError(j) || Refused(q, open, pass, j) then j
    else Consumed(q, open, pass, j + 1)
  }

  function QueueOf(queues: map<Key, seq<seq<byte>>>, k: Key): seq<seq<byte>> {
    if k in queues then queues[k] else []
  }

  /** Receiver k has got, behind what it held, exactly its messages among sent. */
  ghost predicate FedAt(before: map<Key, seq<seq<byte>>>, after: map<Key, seq<seq<byte>>>,
                        open: set<Key>, sent: seq<Message>, k: Key)
  {
    QueueOf(after, k) == QueueOf(before, k) + (if k in open then PortSent(sent, k) else [])
  }

  ghost predicate Fed(before: map<Key, seq<seq<byte>>>, after: map<Key, seq<seq<byte>>>, open: set<Key>, sent: seq<Message>) {
    forall k: Key :: FedAt(before, after, open, sent, k)
  }

  /** Two passes in a row feed the receivers what one pass over both parts would have. */
  lemma FedJoin(a: map<Key, seq<seq<byte>>>, b: map<Key, seq<seq<byte>>>, c: map<Key, seq<seq<byte>>>,
                open: set<Key>, s: seq<Message>, t: seq<Message>)
    requires Fed(a, b, open, s) && Fed(b, c, open, t)
    ensures Fed(a, c, open, s + t)
  {
    forall k: Key
      ensures FedAt(a, c, open, s + t, k)
    {
      assert FedAt(a, b, open, s, k) && FedAt(b, c, open, t, k);
      PortSentJoin(s, t, k);
      Associative(QueueOf(a, k), PortSent(s, k), PortSent(t, k));
    }
  }

  lemma Associative<T>(a: seq<T>, b: seq<T>, c: seq<T>)
    ensures (a + b) + c == a + (b + c)
  {
  }

  lemma {:induction false} PortSentJoin(s: seq<Message>, t: seq<Message>, k: Key)
    ensures PortSent(s + t, k) == PortSent(s, k) + PortSent(t, k)
  {
    if t == [] {
      assert s + t == s;
    } else {
      var n := |t| - 1;
      var mine := if KeyOf(t[n].head) == k then [t[n].payload] else [];
      PortSentJoin(s, t[..n], k);
      assert (s + t)[..|s + t| - 1] == s + t[..n];
      Associative(PortSent(s, k), PortSent(t[..n], k), mine);
    }
  }

  /** A receiver is named by the slot of the sender and the port, both as the head has them. */
  lemma PortSentOne(m: Message, slot: u32, port: u32)
    ensures PortSent([m], (slot, port)) == if m.head.slot == slot && m.head.port == port then [m.payload] else []
  {
    assert [m][..0] == [];
  }

  /** A message is refused by the open receiver of its slot and port, for want of memory. */
  lemma RefusedMeans(q: seq<Message>, open: set<Key>, pass: Pass, j: nat)
    requires j < |q|
    ensures Refused(q, open, pass, j) <==> (q[j].head.slot, q[j].head.port) in open && !pass.memory(j)
  {
  }

  lemma TakeOne(q: seq<Message>, n: nat)
    requires n < |q|
    ensures q[..n] + [q[n]] == q[..n + 1] && q[n..][1..] == q[n + 1..] && [q[n..][0]] == [q[n]]
  {
  }

  /** The message at the head of the ring, queued or passed over. */
  lemma FedByOne(before: map<Key, seq<seq<byte>>>, open: set<Key>, m: Message)
    ensures var k := KeyOf(m.head);
            Fed(before, if k in open then before[k := QueueOf(before, k) + [m.payload]] else before, open, [m])
    ensures Fed(before, before, open, [])
  {
    var k := KeyOf(m.head);
    var after := if k in open then before[k := QueueOf(before, k) + [m.payload]] else before;
    forall j: Key ensures FedAt(before, after, open, [m], j) {
      PortSentOne(m, j.0, j.1);
    }
    FedNone(before, open);
  }

  lemma FedNone(queues: map<Key, seq<seq<byte>>>, open: set<Key>)
    ensures Fed(queues, queues, open, [])
  {
    forall j: Key ensures FedAt(queues, queues, open, [], j) {
      assert PortSent([], j) == [];
    }
  }

  class Receiver {
    const fifo: Kfifo
    /** The receivers that exist and have a notifier installed. */
    var open: set<Key>
    var queues: map<Key, seq<seq<byte>>>

    constructor (fifo: Kfifo)
      ensures this.fifo == fifo && open == {} && queues == map[]
    {
      this.fifo := fifo;
      open, queues := {}, map[];
    }

    /** ax_pcie_msg_notifier_recv: copy the payload out of the ring and append it.  It
        refuses, and changes nothing, when no memory can be had. */
    method NotifierRecv(k: Key, len: nat, memory: bool, ghost q: seq<Message>) returns (ok: bool)
      requires fifo.shm.Queue(q) && q != [] && fifo.out == fifo.shm.rp && fifo.inn == fifo.shm.wp
      requires len == |q[0].payload|
      modifies `queues
      ensures ok == memory
      ensures queues == if ok then old(queues)[k := QueueOf(old(queues), k) + [q[0].payload]] else old(queues)
    {
      if !memory { return false; }
      var data := fifo.KfifoOut(len, q);
      queues := queues[k := QueueOf(queues, k) + [data]];
      return true;
    }

    /** The body of the receive loop: one message is read, offered and passed over, or
        refused and left where it is. */
    method RecvOne(memory: bool, ghost q: seq<Message>) returns (consumed: bool)
      requires fifo.shm.Queue(q) && q != [] && fifo.out == fifo.shm.rp && fifo.inn == fifo.shm.wp
      modifies `queues, fifo, fifo.shm`rp
      ensures consumed == ((q[0].head.slot, q[0].head.port) !in open || memory)
      ensures fifo.shm.Queue(if consumed then q[1..] else q)
      ensures var k := (q[0].head.slot, q[0].head.port);
        queues == if consumed && k in open then old(queues)[k := QueueOf(old(queues), k) + [q[0].payload]] else old(queues)
      ensures fifo.shm.wp == old(fifo.shm.wp) && fifo.shm.data[..] == old(fifo.shm.data[..])
      ensures Fed(old(queues), queues, open, if consumed then [q[0]] else [])
    {
      var h := ReadFirst(q);
      FedByOne(queues, open, q[0]);
      if KeyOf(h) in open {
        var ok := NotifierRecv(KeyOf(h), h.length, memory, q);
        if !ok { return false; }
      }
      QueuePop(fifo.shm.size, fifo.shm.data[..], fifo.shm.rp, fifo.shm.wp, q);
      fifo.UpdateReadPointer(h.length);
      return true;
    }

    /** One turn of the loop within a pass that began with the ring holding q and the
        receivers holding start: take the n-th message if its receiver allows. */
    method RecvNext(memory: bool, n: nat, ghost q: seq<Message>, ghost start: map<Key, seq<seq<byte>>>) returns (consumed: bool)
      requires n < |q| && fifo.shm.Queue(q[n..]) && fifo.out == fifo.shm.rp && fifo.inn == fifo.shm.wp
      requires Fed(start, queues, open, q[..n])
      modifies `queues, fifo, fifo.shm`rp
      ensures consumed == (KeyOf(q[n].head) !in open || memory)
      ensures fifo.shm.Queue(if consumed then q[n + 1..] else q[n..])
      ensures Fed(start, queues, open, if consumed then q[..n + 1] else q[..n])
      ensures fifo.shm.wp == old(fifo.shm.wp) && fifo.shm.data[..] == old(fifo.shm.data[..])
    {
      TakeOne(q, n);
      consumed := RecvOne(memory, q[n..]);
      if consumed {
        FedJoin(start, old(queues), queues, open, q[..n], [q[n]]);
      } else {
        FedJoin(start, old(queues), queues, open, q[..n], []);
        assert q[..n] + [] == q[..n];
      }
    }

    /** One pass over the ring for a fixed wp.  It ends when the ring is empty, at a bus error,
        or at the first refused message, which then is still the first in the ring; every open
        receiver has got exactly its messages among those consumed, in order. */
    method RecvIrqMem(pass: Pass, ghost q: seq<Message>) returns (n: nat)
      requires fifo.shm.Queue(q)
      modifies `queues, fifo, fifo.shm`rp
      ensures n == Consumed(q, open, pass, 0)
      ensures fifo.shm.Queue(q[n..])
      ensures fifo.shm.wp == old(fifo.shm.wp) && fifo.shm.data[..] == old(fifo.shm.data[..])
      ensures Fed(old(queues), queues, open, q[..n])
    {
      n := 0;
      assert q[0..] == q;
      FedNone(queues, open);
      var empty := fifo.IsEmpty(pass.busError(0), q);
      while empty == 0
        invariant n <= |q| && fifo.shm.Queue(q[n..])
        invariant fifo.shm.wp == old(fifo.shm.wp) && fifo.shm.data[..] == old(fifo.shm.data[..])
        invariant empty == if pass.busError(n) then -1 else if n == |q| then 1 else 0
        invariant empty == 0 ==> fifo.out == fifo.shm.rp && fifo.inn == fifo.shm.wp
        invariant Consumed(q, open, pass, 0) == Consumed(q, open, pass, n)
        invariant Fed(old(queues), queues, open, q[..n])
        decreases |q| - n
      {
        var consumed := RecvNext(pass.memory(n), n, q, old(queues));
        if !consumed { return; }
        n := n + 1;
        empty := fifo.IsEmpty(pass.busError(n), q[n..]);
      }
    }

    /** ax_pcie_msg_read: the oldest payload of a receiver, for a caller with room for count
        bytes.  It leaves the queue whatever happens: a payload that is too long, or that
        cannot be copied out, is lost. */
    method MsgRead(k: Key, count: nat, copyFails: bool) returns (ret: int, data: seq<byte>)
      modifies `queues
      ensures var q, q' := QueueOf(old(queues), k), QueueOf(queues, k);
        if q == [] then ret == -1 && data == [] && queues == old(queues)
        else q == [q[0]] + q' && if |q[0]| > count || copyFails then ret == -1 && data == [] else ret == |q[0]| && data == q[0]
      ensures forall j: Key | j != k :: QueueOf(queues, j) == QueueOf(old(queues), j)
    {
      var q := QueueOf(queues, k);
      if q == [] {
        return -1, [];
      }
      var mem := q[0];
      queues := queues[k := q[1..]];
      if |mem| > count || copyFails {
        return -1, [];
      }
      return |mem|, mem;
    }

    method ReadFirst(ghost q: seq<Message>) returns (h: Head)
      requires fifo.shm.Queue(q) && q != [] && fifo.out == fifo.shm.rp
      ensures h == q[0].head
    {
      HeadAtFirst(fifo.shm.size, fifo.shm.data[..], fifo.shm.rp, fifo.shm.wp, q);
      var r := fifo.ReadDataHead();
      return r.head;
    }
  }
}
