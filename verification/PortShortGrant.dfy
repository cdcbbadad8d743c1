/** A history of the port registry after which a request is granted fewer ports than it asked
  for, and reports success. */
module PortShortGrant {
  import opened Common
  import opened PortOwnership
  import opened PortBooks

  lemma {:induction false} Extend(b: Books, ops: seq<Op>, op: Op)
    requires Possible(b, ops) && Enabled(After(b, ops), op)
    ensures Possible(b, ops + [op]) && After(b, ops + [op]) == Step(After(b, ops), op)
    decreases |ops|
  {
    if ops == [] {
      assert [op][1..] == [];
      assert Possible(Step(b, op), []);
    } else {
      Extend(Step(b, ops[0]), ops[1..], op);
      assert (ops + [op])[1..] == ops[1..] + [op];
    }
  }

  ghost predicate Reachable(b: Books) {
    exists ops :: Possible(EMPTY, ops) && After(EMPTY, ops) == b
  }

  lemma Reach(b: Books, op: Op) returns (c: Books)
    requires Reachable(b) && Enabled(b, op)
    ensures c == Step(b, op) && Reachable(c)
  {
    var ops :| Possible(EMPTY, ops) && After(EMPTY, ops) == b;
    Extend(EMPTY, ops, op);
    c := Step(b, op);
  }

  const OLDEST: Process := Process(1, [DevHandle(0, 1, [21, 22, 23, 24], [])], 0)

  lemma ThreeOpen() returns (b: Books)
    ensures Reachable(b) && b == Books([Process(1, [], 0), Process(2, [], 0), Process(3, [], 0)], {}, {})
  {
    assert Possible(EMPTY, []) && After(EMPTY, []) == EMPTY;
    b := Reach(EMPTY, Open(1, true));
    assert b.procs == [Process(1, [], 0)];
    b := Reach(b, Open(2, true));
    assert b.procs == [Process(1, [], 0), Process(2, [], 0)];
    b := Reach(b, Open(3, true));
    assert b.procs == [Process(1, [], 0), Process(2, [], 0), Process(3, [], 0)];
  }

  /** The first of three processes creates, and gets the lowest four ports. */
  lemma FirstCreates() returns (b: Books)
    ensures Reachable(b) && b.procs == [OLDEST, Process(2, [], 0), Process(3, [], 0)]
    ensures b.leaked == {} && b.marked == SlotSet(0, [21, 22, 23, 24])
  {
    b := ThreeOpen();
    LowestOfAll();
    b := Reach(b, Create(0, 0, true, true, Some(1)));
    assert b.procs[0].devs == OLDEST.devs;
    assert b.procs == [OLDEST, Process(2, [], 0), Process(3, [], 0)];
  }

  lemma LowestOfAll()
    ensures Lowest({}, 0, 21, 4) == [21, 22, 23, 24]
  {
    assert Lowest({}, 0, 24, 1) == [24] + Lowest({}, 0, 25, 0);
    assert Lowest({}, 0, 23, 2) == [23] + Lowest({}, 0, 24, 1);
    assert Lowest({}, 0, 22, 3) == [22] + Lowest({}, 0, 23, 2);
    assert Lowest({}, 0, 21, 4) == [21] + Lowest({}, 0, 22, 3);
  }

  /** The second fails to create until no port is free. */
  lemma SecondLeaksAll(b: Books) returns (c: Books)
    requires Reachable(b) && |b.procs| > 1 && b.procs[1].devs == []
    ensures Reachable(c) && c.procs == b.procs && b.marked <= c.marked && Free(c.marked, 0, BASE_PORT) == {}
    decreases |Free(b.marked, 0, BASE_PORT)|
  {
    var free := Free(b.marked, 0, BASE_PORT);
    if free == {} {
      c := b;
    } else {
      var taken := Lowest(b.marked, 0, BASE_PORT, MAX_PORT);
      c := Reach(b, Create(1, 0, true, false, None));
      assert c.marked == b.marked + SlotSet(0, taken);
      FreeShrinks(b.marked, taken);
      c := SecondLeaksAll(c);
    }
  }

  lemma FreeShrinks(marked: set<Slot>, taken: seq<nat>)
    requires taken == Lowest(marked, 0, BASE_PORT, MAX_PORT) && Free(marked, 0, BASE_PORT) != {}
    ensures |Free(marked + SlotSet(0, taken), 0, BASE_PORT)| < |Free(marked, 0, BASE_PORT)|
  {
    var free, left := Free(marked, 0, BASE_PORT), Free(marked + SlotSet(0, taken), 0, BASE_PORT);
    LowestGrants(marked, 0, BASE_PORT, MAX_PORT);
    assert |free| > 0 by {
      var x :| x in free;
    }
    assert taken[0] in free && (0, taken[0]) in SlotSet(0, taken);
    assert left <= free - {taken[0]};
    FewerIn(left, free - {taken[0]});
  }

  lemma {:induction false} FewerIn(a: set<nat>, b: set<nat>)
    requires a <= b
    ensures |a| <= |b|
    decreases |a|
  {
    if a != {} {
      var x :| x in a;
      FewerIn(a - {x}, b - {x});
    }
  }

  /** The third then gets a handle without ports, and the first gives its four back. */
  lemma FourLeft() returns (b: Books)
    ensures Reachable(b) && |b.procs| == 3 && b.procs[2].devs == [DevHandle(0, 1, [], [])]
    ensures Free(b.marked, 0, BASE_PORT) == {21, 22, 23, 24}
  {
    b := FirstCreates();
    var first := b.marked;
    b := SecondLeaksAll(b);
    LowestGrants(b.marked, 0, BASE_PORT, MAX_PORT);
    var full := b.marked;
    b := Reach(b, Create(2, 0, true, true, Some(1)));
    assert SlotSet(0, []) == {} && b.marked == full;
    assert HandlePorts(OLDEST.devs[0]) == [21, 22, 23, 24];
    b := Reach(b, Destroy(0, 0, true));
    assert b.marked == full - first;
    forall p: nat ensures p in Free(b.marked, 0, BASE_PORT) <==> p in {21, 22, 23, 24} {
      assert p !in Free(full, 0, BASE_PORT);
      assert (0, p) in first <==> p in [21, 22, 23, 24];
    }
  }

  /** It requests three of them. */
  lemma OneLeft() returns (b: Books)
    ensures Reachable(b) && |b.procs| == 3 && HasHandle(b.procs[2], 0)
    ensures Free(b.marked, 0, BASE_PORT) == {24}
  {
    b := FourLeft();
    var marked := b.marked;
    assert 21 in Free(marked, 0, BASE_PORT) && 22 in Free(marked, 0, BASE_PORT) && 23 in Free(marked, 0, BASE_PORT);
    assert Lowest(marked, 0, 23, 1) == [23] + Lowest(marked, 0, 24, 0);
    assert Lowest(marked, 0, 22, 2) == [22] + Lowest(marked, 0, 23, 1);
    assert Lowest(marked, 0, 21, 3) == [21] + Lowest(marked, 0, 22, 2);
    b := Reach(b, Request(2, 0, 3, true));
    assert b.marked == marked + SlotSet(0, [21, 22, 23]);
    forall p: nat ensures p in Free(b.marked, 0, BASE_PORT) <==> p == 24 {
      assert p in Free(marked, 0, BASE_PORT) <==> p in {21, 22, 23, 24};
      assert (0, p) in SlotSet(0, [21, 22, 23]) <==> p in [21, 22, 23];
    }
  }

  /** The check before a grant looks at the first free port only, so it can pass when too few
      ports are free: there is a history after which port 24 alone is free, and a request for
      two ports succeeds with one. */
  lemma CheckLetsShortGrantThrough() returns (ops: seq<Op>)
    ensures Possible(EMPTY, ops)
    ensures var b := After(EMPTY, ops);
      && |b.procs| == 3 && RequestCode(b, 2, 0, 2, true) == 0
      && Lowest(b.marked, 0, BASE_PORT, 2) == [24]
  {
    var b := OneLeft();
    ops :| Possible(EMPTY, ops) && After(EMPTY, ops) == b;
    assert 24 in Free(b.marked, 0, BASE_PORT);
    assert 21 !in Free(b.marked, 0, BASE_PORT) && 22 !in Free(b.marked, 0, BASE_PORT) && 23 !in Free(b.marked, 0, BASE_PORT);
    assert FirstFree(b.marked, 0, 22) == FirstFree(b.marked, 0, 23) == FirstFree(b.marked, 0, 24) == 24;
    LowestGrants(b.marked, 0, BASE_PORT, 2);
    var r := Lowest(b.marked, 0, BASE_PORT, 2);
    assert r[0] in Free(b.marked, 0, BASE_PORT);
  }
}
