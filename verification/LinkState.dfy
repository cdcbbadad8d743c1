/** The link state machine of the virtual network driver: open, close, and the three control
  messages of the peer.

  Open and close hold the link mutex. Control messages are handled in an interrupt that takes
  no lock, so one may be handled between any two accesses of an open or a close; every access
  is therefore a step of its own. Here the handler runs to its end once it has begun;
  LinkThreads lets its accesses interleave with those of the process as well. */
module LinkState {

  datatype Dir = Down | Up | SentDown
  datatype Os = OsUp | OsDown
  datatype Msg = PeerUp | PeerDown | PeerDownAck

  /** rc is rc_link_status in shared memory, which the peer reads. */
  datatype Link = Link(rx: Dir, tx: Dir, os: Os, carrier: bool, rc: Dir)

  /** The next access of axnet_host_update_link_sm, with what it has read so far. */
  datatype Update =
    | ReadOld
    | ReadRx(was: Os)
    | ReadTx(was: Os)                // rx was up
    | StoreOs(was: Os, now: Os)
    | Compare(was: Os)
    | ReadOs                         // the argument of axnet_host_update_link_state
    | SetCarrier(state: Os)
    | Over

  /** The next access of the process that opens or closes the interface. */
  datatype Proc =
    | Idle
    | OpenTest                       // is rx down?
    | OpenRx | OpenRc                // rx, then rc, become up
    | OpenUpdate(u: Update)
    | CloseTest                      // is rx up?
    | DownRc | DownRx                // rc, then rx, become sent-down
    | CloseTx                        // is the peer up?
    | Await                          // waiting for rx to go down, or for the timeout
    | DropRx | DropRc                // rx, then rc, become down

  const INITIAL: State := State(Link(Down, Down, OsDown, false, Down), Idle)

  // -------------------------------------------------------------- one access

  function UpdateStep(l: Link, u: Update): (r: (Link, Update)) {
    match u
    case ReadOld => (l, ReadRx(l.os))
    case ReadRx(was) => (l, if l.rx.Up? then ReadTx(was) else StoreOs(was, OsDown))
    case ReadTx(was) => (l, StoreOs(was, if l.tx.Up? then OsUp else OsDown))
    case StoreOs(was, now) => (l.(os := now), Compare(was))
    case Compare(was) => (l, if l.os != was then ReadOs else Over)
    case ReadOs => (l, SetCarrier(l.os))
    case SetCarrier(state) => (l.(carrier := state.OsUp?), Over)
    case Over => (l, Over)
  }

  /** The access p stands at. */
  function Access(l: Link, p: Proc): (r: (Link, Proc)) {
    match p
    case Idle => (l, Idle)
    case OpenTest => (l, if l.rx.Down? then OpenRx else Idle)
    case OpenRx => (l.(rx := Up), OpenRc)
    case OpenRc => (l.(rc := Up), OpenUpdate(ReadOld))
    case OpenUpdate(u) => var (l', u') := UpdateStep(l, u); (l', if u'.Over? then Idle else OpenUpdate(u'))
    case CloseTest => (l, if l.rx.Up? then DownRc else CloseTx)
    case DownRc => (l.(rc := SentDown), DownRx)
    case DownRx => (l.(rx := SentDown), CloseTx)
    case CloseTx => (l, if l.tx.Up? then Await else DropRx)
    case Await => (l, Idle)
    case DropRx => (l.(rx := Down), DropRc)
    case DropRc => (l.(rc := Down), Idle)
  }

  /** axnet_host_update_link_sm undisturbed: the interface is up exactly if both directions are,
      and the carrier is touched only when that changes. */
  function UpdateSm(l: Link): (r: Link)
    ensures r.rx == l.rx && r.tx == l.tx && r.rc == l.rc
    ensures r.os == OsUp <==> l.rx == Up && l.tx == Up
    ensures r.carrier == if r.os == l.os then l.carrier else r.os == OsUp
  {
    FinishUpdate(l, ReadOld)
  }

  /** A control message, from its first access to its last. */
  function Handled(l: Link, m: Msg): (r: Link)
    ensures r.tx == if m == PeerUp then Up else if m == PeerDown then Down else l.tx
    ensures m == PeerDownAck ==> r.rx == Down && r.rc == Down
    ensures m != PeerDownAck ==> r.rx == l.rx && r.rc == l.rc
    ensures r.os == OsUp <==> r.rx == Up && r.tx == Up
    ensures r.carrier == if r.os == l.os then l.carrier else r.os == OsUp
  {
    match m
    case PeerUp => UpdateSm(l.(tx := Up))
    case PeerDown => UpdateSm(l.(tx := Down))
    case PeerDownAck => UpdateSm(l.(rc := Down, rx := Down))
  }

  datatype State = State(l: Link, p: Proc)

  datatype Event =
    | Open(peerUp: bool)   // the store of tx, if ep_link_status says so
    | Close
    | Next                 // the process makes its next access
    | Timeout
    | Message(m: Msg)

  predicate Enabled(s: State, e: Event) {
    match e
    case Open(_) => s.p.Idle?
    case Close => s.p.Idle?
    case Next => !s.p.Idle? && (s.p.Await? ==> s.l.rx.Down?)
    case Timeout => s.p.Await?
    case Message(_) => true
  }

  function Step(s: State, e: Event): State
    requires Enabled(s, e)
  {
    match e
    case Open(peerUp) => State(if peerUp then s.l.(tx := Up) else s.l, OpenTest)
    case Close => State(s.l, CloseTest)
    case Next => var (l, p) := Access(s.l, s.p); State(l, p)
    case Timeout => State(s.l, Idle)
    case Message(m) => State(Handled(s.l, m), s.p)
  }

  predicate Possible(s: State, es: seq<Event>)
    decreases |es|
  {
    es == [] || (Enabled(s, es[0]) && Possible(Step(s, es[0]), es[1..]))
  }

  function After(s: State, es: seq<Event>): State
    requires Possible(s, es)
    decreases |es|
  {
    if es == [] then s else After(Step(s, es[0]), es[1..])
  }

  // ----------------------------------------------------------------- the law

  /** The interface is up only if the peer is up and rx is not down, the carrier follows
      os_link_state, and the peer reads in rc_link_status what rx_link_state is. */
  predicate Law(l: Link) {
    && (l.os.OsUp? ==> l.tx.Up? && !l.rx.Down?)
    && (l.carrier <==> l.os.OsUp?)
    && l.rc == l.rx
  }

  function Decide(l: Link, was: Os, now: Os): Link {
    l.(os := now, carrier := if now != was then now.OsUp? else l.carrier)
  }

  /** The link when an update is carried to its end. */
  function FinishUpdate(l: Link, u: Update): Link {
    match u
    case ReadOld => Decide(l, l.os, if l.rx.Up? && l.tx.Up? then OsUp else OsDown)
    case ReadRx(was) => Decide(l, was, if l.rx.Up? && l.tx.Up? then OsUp else OsDown)
    case ReadTx(was) => Decide(l, was, if l.tx.Up? then OsUp else OsDown)
    case StoreOs(was, now) => Decide(l, was, now)
    case Compare(was) => if l.os != was then l.(carrier := l.os.OsUp?) else l
    case ReadOs => l.(carrier := l.os.OsUp?)
    case SetCarrier(state) => l.(carrier := state.OsUp?)
    case Over => l
  }

  lemma UpdateFinishes(l: Link, u: Update)
    ensures var (l', u') := UpdateStep(l, u); FinishUpdate(l', u') == FinishUpdate(l, u)
  {
  }

  /** The process is inside an update that has begun to read, or between the two stores of a
      pair of rx and rc. */
  predicate InSection(p: Proc) {
    p.OpenRc? || p.DownRx? || p.DropRc? || (p.OpenUpdate? && !p.u.ReadOld? && !p.u.Over?)
  }

  /** The link when the process leaves its section undisturbed. */
  function Settled(s: State): Link {
    if !InSection(s.p) then s.l else
    match s.p
    case OpenRc => s.l.(rc := Up)
    case DownRx => s.l.(rx := SentDown)
    case DropRc => s.l.(rc := Down)
    case OpenUpdate(u) => FinishUpdate(s.l, u)
    case _ => s.l
  }

  predicate Safe(s: State) {
    Law(Settled(s))
  }

  /** What holds at each access besides the law. */
  predicate Context(l: Link, p: Proc) {
    match p
    case OpenRx => l.rx.Down?
    case OpenRc => !l.rx.SentDown?
    case OpenUpdate(u) => !l.rx.SentDown? && (u.ReadRx? || u.ReadTx? || u.StoreOs? ==> Law(l))
    case CloseTx => !l.rx.Up?
    case DropRx => !l.rx.Up? && l.os.OsDown?
    case DropRc => l.rx.Down? && l.os.OsDown?
    case _ => true
  }

  /** The messages that do harm, by the access they precede: an acknowledgement between the
      two stores of a pair; whatever makes the values an update has read out of date, if the
      update then stores or shows them. */
  predicate Harms(s: State, m: Msg) {
    match s.p
    case OpenRc => m.PeerDownAck?
    case DownRx => m.PeerDownAck?
    case OpenUpdate(u) => (
      match u
      case ReadTx(_) => (m.PeerDownAck? && s.l.tx.Up?) || (m.PeerUp? && !s.l.rx.Up?)
      case StoreOs(was, now) => if now.OsUp? then !m.PeerUp? else was.OsDown? && m.PeerUp? && s.l.rx.Up?
      case SetCarrier(state) => if state.OsUp? then !m.PeerUp? else m.PeerUp? && s.l.rx.Up?
      case _ => false)
    case _ => false
  }

  predicate Harmful(s: State, e: Event) {
    e.Message? && Harms(s, e.m)
  }

  lemma ProcessKeepsLaw(s: State, e: Event)
    requires Safe(s) && Context(s.l, s.p) && Enabled(s, e) && !e.Message?
    ensures var t := Step(s, e); Safe(t) && Context(t.l, t.p)
  {
  }

  /** A message does harm exactly under its guard. */
  lemma MessageExact(s: State, m: Msg)
    requires Safe(s) && Context(s.l, s.p)
    ensures var t := Step(s, Message(m)); (Safe(t) <==> !Harms(s, m)) && (Safe(t) ==> Context(t.l, t.p))
  {
  }

  predicate AlwaysSafe(s: State, es: seq<Event>)
    requires Possible(s, es)
    decreases |es|
  {
    Safe(s) && (es == [] || AlwaysSafe(Step(s, es[0]), es[1..]))
  }

  predicate NeverHarmed(s: State, es: seq<Event>)
    requires Possible(s, es)
    decreases |es|
  {
    es == [] || (!Harmful(s, es[0]) && NeverHarmed(Step(s, es[0]), es[1..]))
  }

  /** For every sequence of opens, closes, timeouts and messages, at whatever accesses the
      messages come: every state is one from which the process would leave its section with the
      law if nothing more came, if and only if no message comes at a harmful place. A later
      message can repair such a state; what the law itself depends on is in LinkExact. */
  lemma {:induction false} LawExactly(s: State, es: seq<Event>)
    requires Safe(s) && Context(s.l, s.p) && Possible(s, es)
    ensures AlwaysSafe(s, es) <==> NeverHarmed(s, es)
    decreases |es|
  {
    if es != [] {
      if es[0].Message? {
        MessageExact(s, es[0].m);
      } else {
        ProcessKeepsLaw(s, es[0]);
      }
      if Safe(Step(s, es[0])) {
        LawExactly(Step(s, es[0]), es[1..]);
      }
    }
  }

  /** Every message is handled outside the sections. */
  predicate Undisturbed(s: State, es: seq<Event>)
    requires Possible(s, es)
    decreases |es|
  {
    es == [] || ((es[0].Message? ==> !InSection(s.p)) && Undisturbed(Step(s, es[0]), es[1..]))
  }

  lemma {:induction false} UndisturbedIsUnharmed(s: State, es: seq<Event>)
    requires Possible(s, es) && Undisturbed(s, es)
    ensures NeverHarmed(s, es)
    decreases |es|
  {
    if es != [] {
      UndisturbedIsUnharmed(Step(s, es[0]), es[1..]);
    }
  }

  lemma {:induction false} SafeAtEnd(s: State, es: seq<Event>)
    requires Possible(s, es) && AlwaysSafe(s, es)
    ensures Safe(After(s, es))
    decreases |es|
  {
    if es != [] {
      SafeAtEnd(Step(s, es[0]), es[1..]);
    }
  }

  /** So if no message is handled inside an update or between the stores of a pair, the law
      holds whenever the process is outside of them. */
  lemma UndisturbedLaw(es: seq<Event>)
    requires Possible(INITIAL, es) && Undisturbed(INITIAL, es)
    ensures var s := After(INITIAL, es); !InSection(s.p) ==> Law(s.l)
  {
    UndisturbedIsUnharmed(INITIAL, es);
    LawExactly(INITIAL, es);
    SafeAtEnd(INITIAL, es);
  }

  // -------------------------------------------------------- where it is broken

  lemma {:induction false} Extend(s: State, es: seq<Event>, e: Event)
    requires Possible(s, es) && Enabled(After(s, es), e)
    ensures Possible(s, es + [e]) && After(s, es + [e]) == Step(After(s, es), e)
    decreases |es|
  {
    if es == [] {
      assert [e][1..] == [];
      assert Possible(Step(s, e), []);
    } else {
      Extend(Step(s, es[0]), es[1..], e);
      assert (es + [e])[1..] == es[1..] + [e];
    }
  }

  ghost predicate Reachable(s: State) {
    exists es :: Possible(INITIAL, es) && After(INITIAL, es) == s
  }

  lemma Reach(s: State, e: Event) returns (t: State)
    requires Reachable(s) && Enabled(s, e)
    ensures t == Step(s, e) && Reachable(t)
  {
    var es :| Possible(INITIAL, es) && After(INITIAL, es) == s;
    Extend(INITIAL, es, e);
    t := Step(s, e);
  }

  /** An open with the peer up, as far as the store of os_link_state. */
  lemma OpenReachesStore() returns (s: State)
    ensures s == State(Link(Up, Up, OsDown, false, Up), OpenUpdate(StoreOs(OsDown, OsUp)))
    ensures Reachable(s)
  {
    s := INITIAL;
    assert Possible(s, []) && After(s, []) == s;
    s := Reach(s, Open(true));
    s := Reach(s, Next);
    s := Reach(s, Next);
    s := Reach(s, Next);
    s := Reach(s, Next);
    s := Reach(s, Next);
    s := Reach(s, Next);
  }

  /** A LINK_DOWN that comes between the reads of an update and its store leaves the interface
      up, with carrier, although the peer is down. */
  lemma StaleUpdateBreaksLaw() returns (s: State)
    ensures Reachable(s) && s == State(Link(Up, Down, OsUp, true, Up), Idle) && !Law(s.l)
  {
    s := OpenReachesStore();
    s := Reach(s, Message(PeerDown));
    s := Reach(s, Next);
    s := Reach(s, Next);
    s := Reach(s, Next);
    s := Reach(s, Next);
  }

  /** A LINK_UP that comes there, with the peer down before, leaves the carrier on with the
      interface down. */
  lemma StaleUpdateBreaksCarrier() returns (s: State)
    ensures Reachable(s) && s == State(Link(Up, Up, OsDown, true, Up), Idle) && !Law(s.l)
  {
    s := OpenFindsPeerDown();
    s := Reach(s, Next);
    s := Reach(s, Next);
    s := Reach(s, Message(PeerUp));
    s := Reach(s, Next);
    s := Reach(s, Next);
  }

  lemma OpenFindsPeerDown() returns (s: State)
    ensures Reachable(s) && s == State(Link(Up, Down, OsDown, false, Up), OpenUpdate(ReadRx(OsDown)))
  {
    s := INITIAL;
    assert Possible(s, []) && After(s, []) == s;
    s := Reach(s, Open(false));
    s := Reach(s, Next);
    s := Reach(s, Next);
    s := Reach(s, Next);
    s := Reach(s, Next);
  }

  /** A late acknowledgement between the stores of rx and rc makes the peer read what
      rx_link_state is not. */
  lemma LateAckBreaksMirror() returns (s: State)
    ensures Reachable(s) && !InSection(s.p) && s.l.rx.Down? && s.l.rc.Up?
  {
    s := INITIAL;
    assert Possible(s, []) && After(s, []) == s;
    s := Reach(s, Open(true));
    s := Reach(s, Next);
    s := Reach(s, Next);
    s := Reach(s, Message(PeerDownAck));
    s := Reach(s, Next);
  }

  // -------------------------------------------------- who allocates buffers

  /** An open fills the ring of empty receive buffers before it stores rx; the interrupt fills
      it too, but only while the interface is up. Under the law these exclude each other. */
  lemma OpenAllocatesAlone(s: State)
    requires Safe(s) && Context(s.l, s.p) && s.p.OpenRx?
    ensures s.l.os.OsDown?
  {
  }

  /** Once the law is broken they do not: after the LINK_DOWN of StaleUpdateBreaksLaw a close
      leaves the interface up, and another open is then about to fill the ring. */
  lemma ClosedWhileUp() returns (s: State)
    ensures Reachable(s) && s == State(Link(Down, Down, OsUp, true, Down), Idle)
  {
    s := StaleUpdateBreaksLaw();
    s := Reach(s, Close);
    s := Reach(s, Next);
    s := Reach(s, Next);
    s := Reach(s, Next);
    assert s == State(Link(SentDown, Down, OsUp, true, SentDown), CloseTx);
    s := Reach(s, Next);
    s := Reach(s, Next);
    s := Reach(s, Next);
  }

  lemma BothMayAllocate() returns (s: State)
    ensures Reachable(s) && s.p.OpenRx? && s.l.os.OsUp?
  {
    s := ClosedWhileUp();
    s := Reach(s, Open(false));
    s := Reach(s, Next);
  }

  // ------------------------------------------------------------- stale links

  lemma OpenReachesUp() returns (s: State)
    ensures Reachable(s) && s == State(Link(Up, Up, OsUp, true, Up), Idle)
  {
    s := OpenReachesStore();
    s := Reach(s, Next);
    s := Reach(s, Next);
    s := Reach(s, Next);
    s := Reach(s, Next);
  }

  /** The interface is up although rx is not. */
  predicate Stale(l: Link) { l.os.OsUp? && !l.rx.Up? }

  /** The stronger law "the interface is up only while rx is up" fails even undisturbed: a
      close that times out returns with the carrier on. */
  lemma CloseTimeoutLeavesCarrier() returns (s: State)
    ensures Reachable(s) && s == State(Link(SentDown, Up, OsUp, true, SentDown), Idle)
  {
    s := OpenReachesUp();
    s := Reach(s, Close);
    s := Reach(s, Next);
    s := Reach(s, Next);
    s := Reach(s, Next);
    s := Reach(s, Next);
    s := Reach(s, Timeout);
  }

  /** After that close the interface is opened again, and rx is not up. */
  lemma ReopenedStaysSentDown() returns (s: State)
    ensures Reachable(s) && s == State(Link(SentDown, Up, OsUp, true, SentDown), Idle)
    ensures exists s0 :: Reachable(s0) && s0.p.Idle? && s == Step(Step(s0, Open(true)), Next)
  {
    var s0 := CloseTimeoutLeavesCarrier();
    s := Reach(s0, Open(true));
    s := Reach(s, Next);
  }

  /** Exactly when it fails: a close of an interface that is up begins it with its two stores,
      and so does a LINK_UP between them; and only a message of the peer, whichever it is,
      ends it. */
  lemma StaleExactly(s: State, e: Event)
    requires Safe(s) && Context(s.l, s.p) && Enabled(s, e) && !Harmful(s, e)
    ensures var l := Settled(Step(s, e));
      Stale(l) <==>
        (s.p.DownRc? && e.Next? && s.l.os.OsUp?)
        || (s.p.DownRx? && e == Message(PeerUp) && s.l.rx.Up?)
        || (Stale(Settled(s)) && !e.Message?)
  {
  }

  // -------------------------------------------------------------- sent down

  /** Only the peer's acknowledgement, or a close that finds the peer not up, ends SentDown;
      in particular reopening the interface does not bring the link back. */
  predicate Frees(s: State, e: Event) {
    e == Message(PeerDownAck) || (e.Next? && s.p.DropRx?)
  }

  lemma FreesExactly(s: State, e: Event)
    requires s.l.rx.SentDown? && !s.p.OpenRx? && Enabled(s, e)
    ensures Step(s, e).l.rx.SentDown? <==> !Frees(s, e)
    ensures !Frees(s, e) ==> !Step(s, e).p.OpenRx?
  {
  }

  predicate StaysSentDown(s: State, es: seq<Event>)
    requires Possible(s, es)
    decreases |es|
  {
    s.l.rx.SentDown? && (es == [] || StaysSentDown(Step(s, es[0]), es[1..]))
  }

  predicate NeverFreed(s: State, es: seq<Event>)
    requires Possible(s, es)
    decreases |es|
  {
    es == [] || (!Frees(s, es[0]) && NeverFreed(Step(s, es[0]), es[1..]))
  }

  /** Over any events, harmful messages included, rx leaves SentDown if and only if one of them frees it. */
  lemma {:induction false} SentDownExactly(s: State, es: seq<Event>)
    requires s.l.rx.SentDown? && !s.p.OpenRx? && Possible(s, es)
    ensures StaysSentDown(s, es) <==> NeverFreed(s, es)
    decreases |es|
  {
    if es != [] {
      FreesExactly(s, es[0]);
      if !Frees(s, es[0]) {
        SentDownExactly(Step(s, es[0]), es[1..]);
      }
    }
  }
}
