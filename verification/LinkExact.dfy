/** When the law of the link holds, exactly.

  A message inside a section may spoil what the process is about to store, and a later one may
  repair it before the process is done, so what counts is the last message of each section. */
module LinkExact {
  import opened LinkState

  /** What holds at each access whether or not the section has been spoiled. */
  predicate Ground(l: Link, p: Proc) {
    if !InSection(p) then Law(l) && Context(l, p) else
    match p
    case OpenRc => !l.rx.SentDown? && (l.carrier <==> l.os.OsUp?)
    case DownRx => l.carrier <==> l.os.OsUp?
    case DropRc => l.rx.Down? && l.os.OsDown? && !l.carrier
    case OpenUpdate(u) =>
      !l.rx.SentDown? && l.rc == l.rx && (u.ReadRx? || u.ReadTx? || u.StoreOs? ==> Law(l))
    case _ => true
  }

  /** os_link_state as the handler of m computes it. */
  function Computed(l: Link, m: Msg): Os {
    if m.PeerUp? && l.rx.Up? then OsUp else OsDown
  }

  /** The messages after which the section would end in a broken law, by the access they
      precede: whatever went before, and whether or not the section was spoiled already. */
  predicate Spoils(s: State, m: Msg) {
    match s.p
    case OpenRc => m.PeerDownAck? || !s.l.rx.Up?
    case DownRx => m.PeerDownAck? || !s.l.rc.SentDown?
    case OpenUpdate(u) => (
      match u
      case ReadTx(_) => (m.PeerDownAck? && s.l.tx.Up?) || (m.PeerUp? && !s.l.rx.Up?)
      case StoreOs(was, now) =>
        if now.OsUp? then !m.PeerUp? || !s.l.rx.Up? else was.OsDown? && m.PeerUp? && s.l.rx.Up?
      case Compare(was) => s.l.carrier != s.l.os.OsUp? && s.l.os == was && Computed(s.l, m) == was
      case SetCarrier(state) => Computed(s.l, m) != state
      case _ => false)
    case _ => false
  }

  /** Outside the sections every step keeps the law; into a section it goes unspoiled. */
  lemma OutsideKeepsLaw(s: State, e: Event)
    requires !InSection(s.p) && Ground(s.l, s.p) && Enabled(s, e)
    ensures var t := Step(s, e); Safe(t) && Ground(t.l, t.p)
  {
  }

  /** An access inside a section leaves its end as it was. */
  lemma AccessKeepsEnd(s: State)
    requires InSection(s.p) && Ground(s.l, s.p)
    ensures var t := Step(s, Next);
      && Settled(t) == Settled(s)
      && (InSection(t.p) || Safe(s) ==> Ground(t.l, t.p))
  {
    if s.p.OpenUpdate? {
      UpdateFinishes(s.l, s.p.u);
    }
  }

  /** A message inside a section decides its end anew. */
  lemma MessageDecidesEnd(s: State, m: Msg)
    requires InSection(s.p) && Ground(s.l, s.p)
    ensures var t := Step(s, Message(m)); (Safe(t) <==> !Spoils(s, m)) && Ground(t.l, t.p)
  {
  }

  /** The law holds in every state outside the sections. */
  predicate LawOutside(s: State, es: seq<Event>)
    requires Possible(s, es)
    decreases |es|
  {
    (!InSection(s.p) ==> Law(s.l)) && (es == [] || LawOutside(Step(s, es[0]), es[1..]))
  }

  /** Whether the section the process is in is spoiled after e: the last message decides, and a
      section begins unspoiled. */
  predicate SpoiledAfter(s: State, e: Event, spoiled: bool) {
    InSection(s.p) && if e.Message? then Spoils(s, e.m) else spoiled
  }

  /** The process never leaves a section that is spoiled. */
  predicate NeverLeavesSpoiled(s: State, es: seq<Event>, spoiled: bool)
    requires Possible(s, es)
    decreases |es|
  {
    es == [] ||
      var t, after := Step(s, es[0]), SpoiledAfter(s, es[0], spoiled);
      (InSection(t.p) || !after) && NeverLeavesSpoiled(t, es[1..], after)
  }

  lemma {:induction false} OutsideExactly(s: State, es: seq<Event>)
    requires Possible(s, es) && Ground(s.l, s.p)
    ensures LawOutside(s, es) <==> NeverLeavesSpoiled(s, es, !Safe(s))
    decreases |es|
  {
    if es != [] {
      var t := Step(s, es[0]);
      if !InSection(s.p) {
        OutsideKeepsLaw(s, es[0]);
        OutsideExactly(t, es[1..]);
      } else if es[0].Message? {
        MessageDecidesEnd(s, es[0].m);
        OutsideExactly(t, es[1..]);
      } else {
        AccessKeepsEnd(s);
        if InSection(t.p) || Safe(s) {
          OutsideExactly(t, es[1..]);
        }
      }
    }
  }

  /** For every sequence of opens, closes, timeouts and messages, at whatever accesses the
      messages come: the law holds in every state outside the sections if and only if the
      process leaves no section whose last message spoiled it. */
  lemma LawOutsideExactly(es: seq<Event>)
    requires Possible(INITIAL, es)
    ensures LawOutside(INITIAL, es) <==> NeverLeavesSpoiled(INITIAL, es, false)
  {
    OutsideExactly(INITIAL, es);
  }

  /** A repair: the LINK_DOWN before the store does harm, and the LINK_UP that follows it, still
      before the store, undoes it. */
  lemma LaterMessageRepairs() returns (s: State, es: seq<Event>)
    ensures Reachable(s) && Possible(s, es) && LawOutside(s, es) && !NeverHarmed(s, es)
    ensures After(s, es) == State(Link(Up, Up, OsUp, true, Up), Idle)
  {
    s := OpenReachesStore();
    var s1 := Step(s, Message(PeerDown));
    var s2 := Step(s1, Message(PeerUp));
    var s3 := Step(s2, Next);
    var s4 := Step(s3, Next);
    var s5 := Step(s4, Next);
    var s6 := Step(s5, Next);
    es := Prepend(s6, s5, Next, []);
    es := Prepend(s5, s4, Next, es);
    es := Prepend(s4, s3, Next, es);
    es := Prepend(s3, s2, Next, es);
    es := Prepend(s2, s1, Message(PeerUp), es);
    es := Prepend(s1, s, Message(PeerDown), es);
    assert Harmful(s, es[0]);
  }

  lemma Prepend(t: State, s: State, e: Event, es: seq<Event>) returns (r: seq<Event>)
    requires Enabled(s, e) && t == Step(s, e) && Possible(t, es) && LawOutside(t, es)
    requires !InSection(s.p) ==> Law(s.l)
    ensures r == [e] + es && Possible(s, r) && LawOutside(s, r) && After(s, r) == After(t, es)
  {
    r := [e] + es;
    assert r[1..] == es;
  }
}
