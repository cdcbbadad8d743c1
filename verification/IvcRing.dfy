/** The message rings of ax_pcie_net.h: RING_COUNT slots and two counters that only grow,
  the reader's rd and the writer's wr. */
module IvcRing {

  const RING_COUNT: nat := 60

  function SlotOf(c: nat): (i: nat)
    ensures i < RING_COUNT
  {
    c % 60
  }

  /** What the ring holds, oldest first. */
  function View<T>(s: seq<T>, rd: nat, wr: nat): (v: seq<T>)
    requires |s| == RING_COUNT && rd <= wr
    ensures |v| == wr - rd
    ensures forall i | 0 <= i < wr - rd :: v[i] == s[SlotOf(rd + i)]
  {
    seq(wr - rd, i requires 0 <= i < wr - rd => s[SlotOf(rd + i)])
  }

  predicate Full(rd: nat, wr: nat)
    requires rd <= wr
  {
    wr - rd >= RING_COUNT
  }

  lemma SlotsDiffer(a: nat, b: nat)
    requires a < b < a + RING_COUNT
    ensures SlotOf(a) != SlotOf(b)
  {
  }

  /** Filling the next slot does not disturb a ring that is not full. */
  lemma WriteAhead<T>(s: seq<T>, rd: nat, wr: nat, x: T)
    requires |s| == RING_COUNT && rd <= wr && !Full(rd, wr)
    ensures View(s[SlotOf(wr) := x], rd, wr) == View(s, rd, wr)
  {
    var t := s[SlotOf(wr) := x];
    forall i | 0 <= i < wr - rd ensures View(t, rd, wr)[i] == View(s, rd, wr)[i] {
      SlotsDiffer(rd + i, wr);
    }
  }

  /** Advancing wr appends what the slot holds. */
  lemma AdvanceWr<T>(s: seq<T>, rd: nat, wr: nat)
    requires |s| == RING_COUNT && rd <= wr
    ensures View(s, rd, wr + 1) == View(s, rd, wr) + [s[SlotOf(wr)]]
  {
  }

  /** Advancing rd drops the oldest element. */
  lemma AdvanceRd<T>(s: seq<T>, rd: nat, wr: nat)
    requires |s| == RING_COUNT && rd < wr
    ensures View(s, rd, wr) == [s[SlotOf(rd)]] + View(s, rd + 1, wr)
  {
    forall i | 1 <= i < wr - rd ensures View(s, rd, wr)[i] == View(s, rd + 1, wr)[i - 1] {
      assert rd + i == rd + 1 + (i - 1);
    }
  }
}
