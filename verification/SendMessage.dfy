/** Sending one message with retries: ax_send_data_irq and ax_pcie_send_message. While the
  sender sleeps it holds no lock: the peer may drain the ring, and other threads of the same
  host may enqueue and ring. */
module SendMessage {
  import opened Common
  import opened RingLayout
  import opened MessageHead
  import opened RingQueue
  import opened Kfifo
  import opened Delivery

  const RETRIES: nat := 10

  type Queues = map<Key, seq<seq<byte>>>

  /** What one attempt meets: bus errors on the two loads, and whether the doorbell is
      accepted. */
  datatype Attempt = Attempt(wpLost: bool, rpLost: bool, bell: bool)

  predicate BusError(a: Attempt) { a.wpLost || a.rpLost }

  /** What an attempt returns with the counters at wp and rp: bus error, ring full, too little
      room, in the ring but not announced, or the length. */
  function Result(size: FifoSize, wp: nat, rp: nat, m: Message, a: Attempt): int {
    if BusError(a) then -4
    else if wp - rp >= size then -1
    else if Span(|m.payload|) > size - (wp - rp) then -2
    else if !a.bell then -3
    else |m.payload|
  }

  /** What others do while the sender sleeps. */
  datatype Act =
    | Drain(pass: Pass)                // a receive pass of the peer
    | Send(m: Message, a: Attempt)     // an attempt of another thread to send
    | Ring(bell: bool)                 // one to ring for a message sent before

  /** An attempt of the sender, and the sleep after it if it fails. */
  datatype Tick = Tick(a: Attempt, sleep: seq<Act>)

  /** The messages other threads try to send. */
  function Sends(acts: seq<Act>): seq<Message> {
    if acts == [] then [] else
    var last := acts[|acts| - 1];
    Sends(acts[..|acts| - 1]) + (if last.Send? then [last.m] else [])
  }

  function SendsUntil(world: nat -> Tick, n: nat): seq<Message>
    decreases n, world
  {
    if n == 0 then [] else SendsUntil(world, n - 1) + Sends(world(n - 1).sleep)
  }

  /** How much others do in the first n sleeps. */
  function ActsUntil(world: nat -> Tick, n: nat): nat
    decreases n, world
  {
    if n == 0 then 0 else ActsUntil(world, n - 1) + |world(n - 1).sleep|
  }

  /** The i-th of a is the one at at[i] of b, behind the one before it. */
  ghost predicate Picked(a: seq<Message>, b: seq<Message>, at: seq<nat>, i: nat)
    requires i < |a| == |at|
  {
    at[i] < |b| && a[i] == b[at[i]] && (i > 0 ==> at[i - 1] < at[i])
  }

  ghost predicate Picks(a: seq<Message>, b: seq<Message>, at: seq<nat>) {
    |at| == |a| && forall i: nat | i < |a| :: Picked(a, b, at, i)
  }

  /** a is what is left of b after leaving some of it out. */
  ghost predicate Among(a: seq<Message>, b: seq<Message>) {
    exists at :: Picks(a, b, at)
  }

  lemma NoneAmong(b: seq<Message>)
    ensures Among([], b)
  {
    assert Picks([], b, []);
  }

  lemma AllAmong(b: seq<Message>)
    ensures Among(b, b)
  {
    var at: seq<nat> := seq(|b|, i requires 0 <= i < |b| => i);
    assert Picks(b, b, at);
  }

  lemma AmongJoin(a: seq<Message>, b: seq<Message>, c: seq<Message>, d: seq<Message>)
    requires Among(a, b) && Among(c, d)
    ensures Among(a + c, b + d)
  {
    var at :| Picks(a, b, at);
    var ct :| Picks(c, d, ct);
    var moved: seq<nat> := seq(|ct|, i requires 0 <= i < |ct| => |b| + ct[i]);
    forall i: nat | i < |a + c| ensures Picked(a + c, b + d, at + moved, i) {
      if i < |a| {
        assert Picked(a, b, at, i);
      } else {
        assert Picked(c, d, ct, i - |a|);
        if i == |a| && i > 0 {
          assert Picked(a, b, at, i - 1);
        }
      }
    }
    assert Picks(a + c, b + d, at + moved);
  }

  class Sender {
    const fifo: Kfifo
    /** The count of mailbox requests at offset 0x20, kept on the host only. */
    var requests: nat

    constructor (fifo: Kfifo)
      ensures this.fifo == fifo && requests == 0
    {
      this.fifo := fifo;
      requests := 0;
    }

    /** Since the peer's queues were was, it has received taken; rest is in the ring. */
    ghost predicate Progress(peer: Receiver, was: Queues, taken: seq<Message>, rest: seq<Message>)
      reads fifo.shm, fifo.shm.data, peer
    {
      fifo.shm.Queue(rest) && peer.fifo.shm == fifo.shm && Fed(was, peer.queues, peer.open, taken)
    }

    /** ax_send_data_irq under the data lock: enqueue, then ring. */
    method SendDataIrq(m: Message, a: Attempt, ghost q: seq<Message>) returns (ret: int)
      requires fifo.shm.Queue(q)
      modifies this, fifo, fifo.shm`wp, fifo.shm.data
      ensures ret == Result(fifo.shm.size, old(fifo.shm.wp), fifo.shm.rp, m, a)
      ensures fifo.shm.Queue(if ret >= 0 || ret == -3 then q + [m] else q)
      ensures requests == old(requests) + (if ret >= 0 then 1 else 0)
    {
      var size := fifo.SendDataToShmemBuffer(m, a.wpLost, a.rpLost, q);
      if size < 0 { return size; }
      if !a.bell { return -3; }
      requests := requests + 1;
      return size;
    }

    /** One thing that happens while the sender sleeps. */
    method DoAct(act: Act, peer: Receiver, ghost was: Queues, ghost taken0: seq<Message>, ghost rest0: seq<Message>)
      returns (ghost taken: seq<Message>, ghost rest: seq<Message>, ghost added: seq<Message>)
      requires Progress(peer, was, taken0, rest0) && peer.fifo != fifo
      modifies this, fifo, fifo.shm`wp, fifo.shm.data, peer`queues, peer.fifo, fifo.shm`rp
      ensures Progress(peer, was, taken, rest)
      ensures taken + rest == taken0 + rest0 + added
      ensures added == [] || (act.Send? && added == [act.m])
      ensures old(requests) <= requests <= old(requests) + 1
      ensures act.Drain? ==> taken == taken0 + rest0[..Consumed(rest0, peer.open, act.pass, 0)]
      ensures act.Send? ==> (added != [] <==> InRing(Result(fifo.shm.size, old(fifo.shm.wp), fifo.shm.rp, act.m, act.a)))
      ensures act.Ring? ==> requests == old(requests) + (if act.bell then 1 else 0)
    {
      taken, rest, added := taken0, rest0, [];
      match act {
        case Drain(pass) =>
          var n := peer.RecvIrqMem(pass, rest0);
          FedJoin(was, old(peer.queues), peer.queues, peer.open, taken0, rest0[..n]);
          taken, rest := taken0 + rest0[..n], rest0[n..];
        case Send(m, a) =>
          var ret := SendDataIrq(m, a, rest0);
          if ret >= 0 || ret == -3 {
            added := [m];
            rest := rest0 + [m];
          }
        case Ring(bell) =>
          if bell { requests := requests + 1; }
      }
    }

    /** The sleep: everything happens that others do meanwhile. Here and below, was is what the
        peer's queues were when the call began, and added what other threads enqueued. */
    method Sleep(acts: seq<Act>, peer: Receiver, ghost was: Queues, ghost taken0: seq<Message>, ghost rest0: seq<Message>)
      returns (ghost taken: seq<Message>, ghost rest: seq<Message>, ghost added: seq<Message>)
      requires Progress(peer, was, taken0, rest0) && peer.fifo != fifo
      modifies this, fifo, fifo.shm`wp, fifo.shm.data, peer`queues, peer.fifo, fifo.shm`rp
      ensures Progress(peer, was, taken, rest)
      ensures taken + rest == taken0 + rest0 + added && Among(added, Sends(acts))
      ensures old(requests) <= requests <= old(requests) + |acts|
    {
      taken, rest, added := taken0, rest0, [];
      NoneAmong(Sends(acts[..0]));
      var i: nat := 0;
      while i < |acts|
        invariant i <= |acts| && Progress(peer, was, taken, rest)
        invariant old(requests) <= requests <= old(requests) + i
        invariant taken + rest == taken0 + rest0 + added && Among(added, Sends(acts[..i]))
      {
        ghost var more;
        taken, rest, more := DoAct(acts[i], peer, was, taken, rest);
        OneMoreAct(acts, i, added, more);
        Associative(taken0 + rest0, added, more);
        added := added + more;
        i := i + 1;
      }
      assert acts[..i] == acts;
    }

    /** A sleep in a call that found whole, and to which added was added since. */
    method SleepMore(world: nat -> Tick, n: nat, peer: Receiver, ghost was: Queues,
                     ghost taken0: seq<Message>, ghost rest0: seq<Message>,
                     ghost others: seq<Message>, ghost whole: seq<Message>, ghost added0: seq<Message>, ghost base: int)
      returns (ghost taken: seq<Message>, ghost rest: seq<Message>, ghost added: seq<Message>)
      requires Progress(peer, was, taken0, rest0) && peer.fifo != fifo
      requires taken0 + rest0 == whole + added0 && Among(others + added0, SendsUntil(world, n))
      requires requests <= base + ActsUntil(world, n)
      modifies this, fifo, fifo.shm`wp, fifo.shm.data, peer`queues, peer.fifo, fifo.shm`rp
      ensures Progress(peer, was, taken, rest)
      ensures taken + rest == whole + added && Among(others + added, SendsUntil(world, n + 1))
      ensures old(requests) <= requests <= base + ActsUntil(world, n + 1)
    {
      ghost var more;
      taken, rest, more := Sleep(world(n).sleep, peer, was, taken0, rest0);
      OneMoreSleep(world, n, others, whole, added0, more);
      added := added0 + more;
    }

    /** Sleeps while tries to ring fail, ten at most. */
    method SleepUntilBell(world: nat -> Tick, now: nat, peer: Receiver, ghost was: Queues,
                          ghost taken0: seq<Message>, ghost rest0: seq<Message>,
                          ghost others: seq<Message>, ghost whole: seq<Message>, ghost base: int)
      returns (end: nat, ghost taken: seq<Message>, ghost rest: seq<Message>, ghost added: seq<Message>)
      requires Progress(peer, was, taken0, rest0) && peer.fifo != fifo
      requires taken0 + rest0 == whole && Among(others, SendsUntil(world, now)) && requests <= base + ActsUntil(world, now)
      modifies this, fifo, fifo.shm`wp, fifo.shm.data, peer`queues, peer.fifo, fifo.shm`rp
      ensures RingsAtFirst(world, now, end)
      ensures old(requests) <= requests <= base + ActsUntil(world, end)
      ensures Progress(peer, was, taken, rest)
      ensures taken + rest == whole + added && Among(others + added, SendsUntil(world, end))
    {
      end, taken, rest, added := now, taken0, rest0, [];
      assert others + [] == others && whole + [] == whole;
      while end < now + RETRIES && !world(end).a.bell
        invariant now <= end <= now + RETRIES && Progress(peer, was, taken, rest)
        invariant taken + rest == whole + added && Among(others + added, SendsUntil(world, end))
        invariant old(requests) <= requests <= base + ActsUntil(world, end)
        invariant NoBell(world, now, end)
      {
        taken, rest, added := SleepMore(world, end, peer, was, taken, rest, others, whole, added, base);
        end := end + 1;
      }
    }

    /** Up to ten more tries to ring for a message that is already in the ring; rang says
        whether one succeeded. */
    method RetryDoorbell(m: Message, world: nat -> Tick, now: nat, peer: Receiver, ghost was: Queues,
                         ghost taken0: seq<Message>, ghost rest0: seq<Message>,
                         ghost others: seq<Message>, ghost whole: seq<Message>, ghost base: int)
      returns (ret: int, rang: bool, end: nat, ghost taken: seq<Message>, ghost rest: seq<Message>, ghost added: seq<Message>)
      requires Progress(peer, was, taken0, rest0) && peer.fifo != fifo
      requires taken0 + rest0 == whole && Among(others, SendsUntil(world, now)) && requests <= base + ActsUntil(world, now)
      modifies this, fifo, fifo.shm`wp, fifo.shm.data, peer`queues, peer.fifo, fifo.shm`rp
      ensures ret == |m.payload| && RingsAtFirst(world, now, end) && (rang <==> end < now + RETRIES)
      ensures var own := if rang then 1 else 0;
        old(requests) + own <= requests <= base + own + ActsUntil(world, end)
      ensures Progress(peer, was, taken, rest)
      ensures taken + rest == whole + added && Among(others + added, SendsUntil(world, end))
    {
      end, taken, rest, added := SleepUntilBell(world, now, peer, was, taken0, rest0, others, whole, base);
      rang := end < now + RETRIES;
      if rang {
        requests := requests + 1;
      }
      ret := |m.payload|;
    }

    /** One attempt of the sender. */
    method Try(m: Message, a: Attempt, peer: Receiver, ghost was: Queues, ghost taken: seq<Message>, ghost rest0: seq<Message>)
      returns (ret: int, ghost rest: seq<Message>)
      requires Progress(peer, was, taken, rest0) && peer.fifo != fifo
      modifies this, fifo, fifo.shm`wp, fifo.shm.data
      ensures ret == Result(fifo.shm.size, old(fifo.shm.wp), fifo.shm.rp, m, a)
      ensures Progress(peer, was, taken, rest)
      ensures taken + rest == if InRing(ret) then taken + rest0 + [m] else taken + rest0
      ensures requests == old(requests) + (if ret >= 0 then 1 else 0)
    {
      ret := SendDataIrq(m, a, rest0);
      rest := if InRing(ret) then rest0 + [m] else rest0;
      Associative(taken, rest0, [m]);
    }

    /** Attempt number n, and a sleep if another one is to follow. */
    method Round(m: Message, world: nat -> Tick, n: nat, last: bool, peer: Receiver, ghost was: Queues,
                 ghost taken0: seq<Message>, ghost rest0: seq<Message>,
                 ghost q: seq<Message>, ghost before0: seq<Message>, ghost base: int)
      returns (ret: int, done: bool, ghost taken: seq<Message>, ghost rest: seq<Message>, ghost before: seq<Message>)
      requires Progress(peer, was, taken0, rest0) && peer.fifo != fifo
      requires taken0 + rest0 == q + before0 && Among(before0, SendsUntil(world, n)) && requests <= base + ActsUntil(world, n)
      modifies this, fifo, fifo.shm`wp, fifo.shm.data, peer`queues, peer.fifo, fifo.shm`rp
      ensures ret == Result(fifo.shm.size, old(fifo.shm.wp), old(fifo.shm.rp), m, world(n).a)
      ensures done <==> InRing(ret) || last || ret == -4
      ensures Progress(peer, was, taken, rest)
      ensures taken + rest == if InRing(ret) then q + before + [m] else q + before
      ensures Among(before, SendsUntil(world, if done then n else n + 1))
      ensures var own := if ret >= 0 then 1 else 0;
        old(requests) + own <= requests <= base + own + ActsUntil(world, if done then n else n + 1)
    {
      taken, before := taken0, before0;
      ret, rest := Try(m, world(n).a, peer, was, taken0, rest0);
      done := InRing(ret) || last || ret == -4;
      if !done {
        assert [] + before0 == before0;
        taken, rest, before := SleepMore(world, n, peer, was, taken, rest, [], q, before0, base);
        assert [] + before == before;
      }
    }

    /** The retry loop of ax_pcie_send_message, up to the doorbell-only tries. */
    method RetrySend(m: Message, world: nat -> Tick, peer: Receiver, ghost was: Queues, ghost q: seq<Message>)
      returns (ret: int, attempts: nat, ghost taken: seq<Message>, ghost rest: seq<Message>, ghost before: seq<Message>)
      requires Progress(peer, was, [], q) && peer.fifo != fifo
      modifies this, fifo, fifo.shm`wp, fifo.shm.data, peer`queues, peer.fifo, fifo.shm`rp
      ensures -4 <= ret <= -1 || ret == |m.payload|
      ensures Progress(peer, was, taken, rest)
      ensures taken + rest == if InRing(ret) then q + before + [m] else q + before
      ensures 1 <= attempts <= RETRIES + 1 && Among(before, SendsUntil(world, attempts - 1))
      ensures !InRing(ret) && ret != -4 ==> attempts == RETRIES + 1
      ensures NoBusError(world, attempts - 1) && (ret == -4 <==> BusError(world(attempts - 1).a))
      ensures InRing(ret) ==> (ret >= 0 <==> world(attempts - 1).a.bell)
      ensures InRing(Result(fifo.shm.size, old(fifo.shm.wp), old(fifo.shm.rp), m, world(0).a)) ==> attempts == 1 && InRing(ret)
      ensures old(requests) + (if ret >= 0 then 1 else 0) <= requests
      ensures requests <= old(requests) + (if ret >= 0 then 1 else 0) + ActsUntil(world, attempts - 1)
    {
      var retrys: nat := RETRIES;
      attempts, taken, rest, before := 0, [], q, [];
      assert [] + q == q + [];
      NoneAmong(SendsUntil(world, 0));
      ghost var fits := InRing(Result(fifo.shm.size, fifo.shm.wp, fifo.shm.rp, m, world(0).a));
      while true
        invariant attempts == RETRIES - retrys && Progress(peer, was, taken, rest)
        invariant taken + rest == q + before && Among(before, SendsUntil(world, attempts))
        invariant old(requests) <= requests <= old(requests) + ActsUntil(world, attempts)
        invariant NoBusError(world, attempts)
        invariant fits ==> attempts == 0 && InRing(Result(fifo.shm.size, fifo.shm.wp, fifo.shm.rp, m, world(0).a))
        decreases retrys
      {
        var done;
        ret, done, taken, rest, before := Round(m, world, attempts, retrys == 0, peer, was, taken, rest, q, before, old(requests));
        attempts := attempts + 1;
        if done { break; }
        retrys := retrys - 1;
      }
    }

    /** The loop of ax_pcie_send_message: tries to send, then tries to ring if that is all that
        is left to do. */
    method SendAndRing(m: Message, world: nat -> Tick, peer: Receiver, ghost was: Queues, ghost q: seq<Message>)
      returns (ret: int, attempts: nat, ghost taken: seq<Message>, ghost rest: seq<Message>,
               ghost before: seq<Message>, ghost after: seq<Message>, ghost ticks: nat)
      requires Progress(peer, was, [], q) && peer.fifo != fifo
      modifies this, fifo, fifo.shm`wp, fifo.shm.data, peer`queues, peer.fifo, fifo.shm`rp
      ensures -4 <= ret <= -1 || ret == |m.payload|
      ensures Progress(peer, was, taken, rest)
      ensures taken + rest == if InRing(ret) then q + before + [m] + after else q + before
      ensures Among(before + after, SendsUntil(world, ticks)) && ticks <= 2 * RETRIES + 1
      ensures RightResult(ret, attempts, ticks, world)
      ensures var own := if Rang(ret, attempts, ticks, world) then 1 else 0;
        old(requests) + own <= requests <= old(requests) + own + ActsUntil(world, ticks)
      ensures InRing(Result(fifo.shm.size, old(fifo.shm.wp), old(fifo.shm.rp), m, world(0).a)) ==> attempts == 1 && InRing(ret)
      ensures 1 <= attempts <= RETRIES + 1 && (ret == -3 ==> attempts == RETRIES + 1)
      ensures !InRing(ret) ==> after == []
    {
      ret, attempts, taken, rest, before := RetrySend(m, world, peer, was, q);
      after, ticks := [], attempts - 1;
      assert before + after == before && q + before + [m] + after == q + before + [m];
      if ret == -3 && attempts <= RETRIES {
        SkipSleep(world, ticks, before);
        var rang, end;
        ret, rang, end, taken, rest, after := RetryDoorbell(m, world, attempts, peer, was, taken, rest, before, q + before + [m], old(requests));
        ticks := end;
      }
    }

    /** ax_pcie_send_message.  Whatever the pattern of full ring, bus errors and refused
        doorbells, and whatever the peer and other threads of the host do meanwhile: the message
        goes in at most once, behind all that was sent before it, and the return value says
        whether it did; all else that went in is others' messages, and all requests but one are
        others' too.  -3 is the corner where the last retry enqueued the message but could not
        ring. */
    method SendMessage(devicePresent: bool, m: Message, world: nat -> Tick, peer: Receiver, ghost q: seq<Message>)
      returns (ret: int, attempts: nat, ghost taken: seq<Message>, ghost rest: seq<Message>,
               ghost before: seq<Message>, ghost after: seq<Message>, ghost ticks: nat)
      requires fifo.shm.Queue(q) && peer.fifo.shm == fifo.shm && peer.fifo != fifo
      modifies this, fifo, fifo.shm`wp, fifo.shm.data, peer`queues, peer.fifo, fifo.shm`rp
      ensures -4 <= ret <= -1 || ret == |m.payload|
      ensures Progress(peer, old(peer.queues), taken, rest)
      ensures taken + rest == if InRing(ret) then q + before + [m] + after else q + before
      ensures Among(before + after, SendsUntil(world, ticks)) && ticks <= 2 * RETRIES + 1
      ensures devicePresent ==> RightResult(ret, attempts, ticks, world)
      ensures var own := if devicePresent && Rang(ret, attempts, ticks, world) then 1 else 0;
        old(requests) + own <= requests <= old(requests) + own + ActsUntil(world, ticks)
      ensures devicePresent && InRing(Result(fifo.shm.size, old(fifo.shm.wp), old(fifo.shm.rp), m, world(0).a)) ==>
        attempts == 1 && InRing(ret)
      ensures attempts <= RETRIES + 1 && (attempts == 0 <==> !devicePresent) && (!devicePresent ==> ret == -1 && before == [])
      ensures ret == -3 ==> attempts == RETRIES + 1
      ensures !InRing(ret) ==> after == []
    {
      FedNone(peer.queues, peer.open);
      if !devicePresent {
        before, after, ticks := [], [], 0;
        NoneAmong(SendsUntil(world, 0));
        assert before + after == [] && [] + q == q + before;
        return -1, 0, [], q, before, after, 0;
      }
      ret, attempts, taken, rest, before, after, ticks := SendAndRing(m, world, peer, peer.queues, q);
    }

    /** ax_pcie_msg_send: lengths that the ring's 32-bit sums could not carry are turned away. */
    method MsgSend(targetId: u32, port: u32, localSlot: u32, payload: seq<byte>, devicePresent: bool,
                   world: nat -> Tick, peer: Receiver, ghost q: seq<Message>)
      returns (ret: int, attempts: nat, ghost taken: seq<Message>, ghost rest: seq<Message>,
               ghost before: seq<Message>, ghost after: seq<Message>, ghost ticks: nat)
      requires fifo.shm.Queue(q) && peer.fifo.shm == fifo.shm && peer.fifo != fifo
      modifies this, fifo, fifo.shm`wp, fifo.shm.data, peer`queues, peer.fifo, fifo.shm`rp
      ensures |payload| >= SENDMEM_SIZE ==> ret == -1 && taken == [] && rest == q && before == after == []
      ensures |payload| < SENDMEM_SIZE && devicePresent ==> RightResult(ret, attempts, ticks, world)
      ensures !devicePresent ==> ret == -1
      ensures Progress(peer, old(peer.queues), taken, rest) && Among(before + after, SendsUntil(world, ticks))
      ensures taken + rest == if |payload| < SENDMEM_SIZE && InRing(ret)
        then q + before + [MakeMessage(targetId, port, localSlot, payload)] + after else q + before
    {
      if |payload| >= SENDMEM_SIZE {
        FedNone(peer.queues, peer.open);
        NoneAmong(SendsUntil(world, 0));
        before, after := [], [];
        assert before + after == [];
        return -1, 0, [], q, before, after, 0;
      }
      ret, attempts, taken, rest, before, after, ticks :=
        SendMessage(devicePresent, MakeMessage(targetId, port, localSlot, payload), world, peer, q);
    }
  }

  /** The results that mean the message went in. */
  predicate InRing(ret: int) { ret >= 0 || ret == -3 }

  /** The result in terms of what the attempts met: a bus error ends the call at once, and is
      the only cause of -4; -1 and -2 come of the last try alone; the tries to ring for a
      message in the ring end at the first that succeeds, and -3 is left if there were none. */
  ghost predicate RightResult(ret: int, attempts: nat, ticks: nat, world: nat -> Tick) {
    && 1 <= attempts <= RETRIES + 1
    && NoBusError(world, attempts - 1)
    && (ret == -4 <==> BusError(world(attempts - 1).a))
    && (ret == -1 || ret == -2 ==> attempts == RETRIES + 1)
    && (ret == -3 ==> attempts == RETRIES + 1 && !world(RETRIES).a.bell)
    && (InRing(ret) && !world(attempts - 1).a.bell ==>
          if attempts == RETRIES + 1 then ret == -3 else RingsAtFirst(world, attempts, ticks))
    && (!InRing(ret) || world(attempts - 1).a.bell || attempts == RETRIES + 1 ==> ticks == attempts - 1)
  }

  predicate NoBell(world: nat -> Tick, from: nat, end: nat)
    decreases end, world
  {
    end > from ==> !world(end - 1).a.bell && NoBell(world, from, end - 1)
  }

  predicate NoBusError(world: nat -> Tick, n: nat)
    decreases n, world
  {
    n > 0 ==> !BusError(world(n - 1).a) && NoBusError(world, n - 1)
  }

  /** The two, said of single attempts. */
  lemma {:induction false} NoBellAt(world: nat -> Tick, from: nat, end: nat, k: nat)
    requires NoBell(world, from, end) && from <= k < end
    ensures !world(k).a.bell
    decreases end
  {
    if k < end - 1 {
      NoBellAt(world, from, end - 1, k);
    }
  }

  lemma {:induction false} NoBusErrorAt(world: nat -> Tick, n: nat, k: nat)
    requires NoBusError(world, n) && k < n
    ensures !BusError(world(k).a)
  {
    if k < n - 1 {
      NoBusErrorAt(world, n - 1, k);
    }
  }

  /** The tries from number from on, ten at most, end with the first that rings. */
  ghost predicate RingsAtFirst(world: nat -> Tick, from: nat, end: nat) {
    && from <= end <= from + RETRIES
    && NoBell(world, from, end)
    && (end < from + RETRIES ==> world(end).a.bell)
  }

  /** A try succeeded: this call counts one request. */
  predicate Rang(ret: int, attempts: nat, ticks: nat, world: nat -> Tick)
    requires attempts >= 1
  {
    InRing(ret) && (world(attempts - 1).a.bell
                    || (attempts <= ticks < attempts + RETRIES && world(ticks).a.bell))
  }

  /** A sleep that does not take place. */
  lemma SkipSleep(world: nat -> Tick, n: nat, others: seq<Message>)
    requires Among(others, SendsUntil(world, n))
    ensures Among(others, SendsUntil(world, n + 1)) && ActsUntil(world, n) <= ActsUntil(world, n + 1)
  {
    NoneAmong(Sends(world(n).sleep));
    AmongJoin(others, SendsUntil(world, n), [], Sends(world(n).sleep));
    assert others + [] == others;
  }

  lemma OneMoreAct(acts: seq<Act>, i: nat, added: seq<Message>, more: seq<Message>)
    requires i < |acts| && Among(added, Sends(acts[..i]))
    requires more == [] || (acts[i].Send? && more == [acts[i].m])
    ensures Among(added + more, Sends(acts[..i + 1]))
  {
    var last := if acts[i].Send? then [acts[i].m] else [];
    assert acts[..i + 1][..i] == acts[..i];
    NoneAmong(last);
    AllAmong(last);
    AmongJoin(added, Sends(acts[..i]), more, last);
  }

  lemma OneMoreSleep(world: nat -> Tick, n: nat, others: seq<Message>, whole: seq<Message>, added: seq<Message>, more: seq<Message>)
    requires Among(others + added, SendsUntil(world, n)) && Among(more, Sends(world(n).sleep))
    ensures Among(others + (added + more), SendsUntil(world, n + 1))
    ensures whole + added + more == whole + (added + more)
  {
    AmongJoin(others + added, SendsUntil(world, n), more, Sends(world(n).sleep));
    Associative(others, added, more);
  }
}
