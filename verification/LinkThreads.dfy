/** The link state machine on several processors: the interrupt handler's accesses interleave
  with those of the process that opens or closes the interface. One handler runs at a time. */
module LinkThreads {
  import opened LinkState

  /** The next access of the handler of one control message. */
  datatype Handler =
    | Quiet
    | StoreTx(m: Msg)
    | AckRc | AckRx
    | Updating(u: Update)

  datatype Threads = Threads(l: Link, p: Proc, h: Handler)

  const START: Threads := Threads(INITIAL.l, Idle, Quiet)

  function First(m: Msg): Handler {
    if m.PeerDownAck? then AckRc else StoreTx(m)
  }

  function HandlerAccess(l: Link, h: Handler): (r: (Link, Handler)) {
    match h
    case Quiet => (l, Quiet)
    case StoreTx(m) => (l.(tx := if m.PeerUp? then Up else Down), Updating(ReadOld))
    case AckRc => (l.(rc := Down), AckRx)
    case AckRx => (l.(rx := Down), Updating(ReadOld))
    case Updating(u) => var (l', u') := UpdateStep(l, u); (l', if u'.Over? then Quiet else Updating(u'))
  }

  /** The link when the handler has run to its end. */
  function Ended(l: Link, h: Handler): Link {
    match h
    case Quiet => l
    case StoreTx(m) => UpdateSm(l.(tx := if m.PeerUp? then Up else Down))
    case AckRc => UpdateSm(l.(rc := Down, rx := Down))
    case AckRx => UpdateSm(l.(rx := Down))
    case Updating(u) => FinishUpdate(l, u)
  }

  /** A handler nobody interferes with does what LinkState says of its message. */
  lemma EndedIsHandled(l: Link, h: Handler, m: Msg)
    ensures Ended(l, First(m)) == Handled(l, m)
    ensures h != Updating(Over) ==>
      var (l', h') := HandlerAccess(l, h); Ended(l', h') == Ended(l, h) && h' != Updating(Over)
  {
  }

  datatype Turn =
    | Process(e: Event)    // anything but a message
    | Arrive(m: Msg)
    | Handle

  predicate CanTurn(s: Threads, t: Turn) {
    match t
    case Process(e) => !e.Message? && Enabled(State(s.l, s.p), e)
    case Arrive(_) => s.h.Quiet?
    case Handle => !s.h.Quiet?
  }

  function Take(s: Threads, t: Turn): Threads
    requires CanTurn(s, t)
  {
    match t
    case Process(e) => var n := Step(State(s.l, s.p), e); Threads(n.l, n.p, s.h)
    case Arrive(m) => Threads(s.l, s.p, First(m))
    case Handle => var (l, h) := HandlerAccess(s.l, s.h); Threads(l, s.p, h)
  }

  /** Process and handler get into each other's way: both are inside an update; or the process
      stands between the two stores of a pair while the handler has yet to finish those of an
      acknowledgement, or has read that rx is up and not yet made use of it. */
  predicate Clash(s: Threads) {
    && !s.h.Quiet? && InSection(s.p)
    && (s.p.OpenUpdate? || s.h.AckRc? || s.h.AckRx? || (s.h.Updating? && s.h.u.ReadTx?))
  }

  /** In particular there is none while the process is in no section. */
  lemma ApartIsClear(s: Threads)
    requires s.h.Quiet? || !InSection(s.p)
    ensures !Clash(s)
  {
  }

  predicate ClearRun(s: Threads, ts: seq<Turn>)
    decreases |ts|
  {
    !Clash(s) && (ts == [] || (CanTurn(s, ts[0]) && ClearRun(Take(s, ts[0]), ts[1..])))
  }

  function AfterTurns(s: Threads, ts: seq<Turn>): Threads
    requires ClearRun(s, ts)
    decreases |ts|
  {
    if ts == [] then s else AfterTurns(Take(s, ts[0]), ts[1..])
  }

  /** What the handler's update has read is still so. */
  predicate ReadsHold(l: Link, u: Update) {
    match u
    case ReadOld => l.carrier <==> l.os.OsUp?
    case ReadRx(was) => l.carrier <==> was.OsUp?
    case ReadTx(was) => (l.carrier <==> was.OsUp?) && l.rx.Up?
    case StoreOs(was, now) => l.carrier <==> was.OsUp?
    case Compare(was) => l.carrier <==> was.OsUp?
    case ReadOs => true
    case SetCarrier(state) => state == l.os
    case Over => false
  }

  predicate HandlerOk(l: Link, h: Handler) {
    match h
    case Quiet => true
    case StoreTx(m) => !m.PeerDownAck? && (l.carrier <==> l.os.OsUp?)
    case AckRc => l.carrier <==> l.os.OsUp?
    case AckRx => l.carrier <==> l.os.OsUp?
    case Updating(u) => ReadsHold(l, u)
  }

  /** The link when both are done, the handler first. */
  function BothDone(s: Threads): Link {
    Settled(State(Ended(s.l, s.h), s.p))
  }

  predicate Inv(s: Threads) {
    && !Clash(s) && HandlerOk(s.l, s.h)
    && Law(BothDone(s))
    && Context(Ended(s.l, s.h), s.p)
    && (s.p.CloseTx? || s.p.DropRx? || s.p.DropRc? ==> !s.l.rx.Up?)
    && (s.p.OpenRx? || s.p.DropRc? ==> s.l.rx.Down?)
    && (s.p.OpenRc? ==> s.l.rx.Up?)
  }

  lemma ArriveKeepsInv(s: Threads, m: Msg)
    requires Inv(s) && CanTurn(s, Arrive(m)) && !Clash(Take(s, Arrive(m)))
    ensures Inv(Take(s, Arrive(m)))
  {
  }

  lemma HandleKeepsInv(s: Threads)
    requires Inv(s) && CanTurn(s, Handle) && !Clash(Take(s, Handle))
    ensures Inv(Take(s, Handle))
  {
  }

  lemma QuietKeepsInv(s: Threads, e: Event)
    requires Inv(s) && s.h.Quiet? && CanTurn(s, Process(e))
    ensures Inv(Take(s, Process(e)))
  {
    ProcessKeepsLaw(State(s.l, s.p), e);
  }

  lemma StoreKeepsInv(s: Threads)
    requires Inv(s) && !s.h.Quiet?
    requires s.p.OpenRx? || s.p.OpenRc? || s.p.DownRc? || s.p.DownRx? || s.p.DropRx? || s.p.DropRc?
    requires !Clash(Take(s, Process(Next)))
    ensures Inv(Take(s, Process(Next)))
  {
  }

  lemma LookKeepsInv(s: Threads, e: Event)
    requires Inv(s) && !s.h.Quiet? && CanTurn(s, Process(e)) && !Clash(Take(s, Process(e)))
    requires e.Next? ==> s.p.OpenTest? || s.p.OpenUpdate? || s.p.CloseTest? || s.p.CloseTx? || s.p.Await?
    ensures Inv(Take(s, Process(e)))
  {
  }

  lemma ProcessKeepsInv(s: Threads, e: Event)
    requires Inv(s) && CanTurn(s, Process(e)) && !Clash(Take(s, Process(e)))
    ensures Inv(Take(s, Process(e)))
  {
    if s.h.Quiet? {
      QuietKeepsInv(s, e);
    } else if e.Next? && !(s.p.OpenTest? || s.p.OpenUpdate? || s.p.CloseTest? || s.p.CloseTx? || s.p.Await?) {
      StoreKeepsInv(s);
    } else {
      LookKeepsInv(s, e);
    }
  }

  lemma {:induction false} TurnsKeepInv(s: Threads, ts: seq<Turn>)
    requires Inv(s) && ClearRun(s, ts)
    ensures Inv(AfterTurns(s, ts))
    decreases |ts|
  {
    if ts != [] {
      match ts[0] {
        case Process(e) => ProcessKeepsInv(s, e);
        case Arrive(m) => ArriveKeepsInv(s, m);
        case Handle => HandleKeepsInv(s);
      }
      TurnsKeepInv(Take(s, ts[0]), ts[1..]);
    }
  }

  /** For every interleaving of single accesses without a clash, the law holds whenever the
      handler is quiet and the process outside its sections. */
  lemma ClearLaw(ts: seq<Turn>)
    requires ClearRun(START, ts)
    ensures var s := AfterTurns(START, ts); s.h.Quiet? && !InSection(s.p) ==> Law(s.l)
  {
    TurnsKeepInv(START, ts);
  }

  // ------------------------------------------- each kind of clash can break it

  /** s is what some turns, clashes among them, make of the start. */
  ghost predicate Reachable(s: Threads, n: nat)
    decreases n
  {
    if n == 0 then s == START
    else exists r, t :: Reachable(r, n - 1) && CanTurn(r, t) && Take(r, t) == s
  }

  ghost predicate Occurs(s: Threads) {
    exists n: nat :: Reachable(s, n)
  }

  lemma Turned(s: Threads, t: Turn) returns (r: Threads)
    requires Occurs(s) && CanTurn(s, t)
    ensures r == Take(s, t) && Occurs(r)
  {
    r := Take(s, t);
    var n: nat :| Reachable(s, n);
    assert Reachable(r, n + 1);
  }

  /** The process makes an access. */
  lemma Own(s: Threads) returns (r: Threads)
    requires Occurs(s) && CanTurn(s, Process(Next))
    ensures r == Take(s, Process(Next)) && Occurs(r)
  {
    r := Turned(s, Process(Next));
  }

  lemma Theirs(s: Threads) returns (r: Threads)
    requires Occurs(s) && CanTurn(s, Handle)
    ensures r == Take(s, Handle) && Occurs(r)
  {
    r := Turned(s, Handle);
  }

  lemma OpenTested(peerUp: bool) returns (s: Threads)
    ensures Occurs(s)
    ensures s == Threads(Link(Down, if peerUp then Up else Down, OsDown, false, Down), OpenRx, Quiet)
  {
    assert Reachable(START, 0);
    s := Turned(START, Process(Open(peerUp)));
    s := Own(s);
  }

  /** Two updates: the handler of a LINK_UP has read that rx is down when the process brings the
      interface up, and then stores what it had found. */
  lemma UpdatesClash() returns (s: Threads)
    ensures Occurs(s) && s == Threads(Link(Up, Up, OsDown, true, Up), Idle, Quiet) && !Law(s.l)
  {
    s := OpenTested(true);
    s := Turned(s, Arrive(PeerUp));
    s := Theirs(s);
    s := Theirs(s);
    s := Theirs(s);
    s := OpensBeside(s);
    s := Theirs(s);
    s := Theirs(s);
  }

  /** An open goes on beside a handler that stands still. */
  lemma OpensBeside(s0: Threads) returns (s: Threads)
    requires Occurs(s0) && s0 == Threads(Link(Down, Up, OsDown, false, Down), OpenRx, s0.h)
    ensures Occurs(s) && s == Threads(Link(Up, Up, OsUp, true, Up), Idle, s0.h)
  {
    s := StoresUp(s0);
    s := Own(s);
    assert s == Threads(Link(Up, Up, OsUp, false, Up), OpenUpdate(Compare(OsDown)), s0.h);
    s := Own(s);
    s := Own(s);
    s := Own(s);
  }

  lemma StoresUp(s0: Threads) returns (s: Threads)
    requires Occurs(s0) && s0.l.rx.Down? && s0.p.OpenRx?
    ensures Occurs(s) && s.l == s0.l.(rx := Up, rc := Up) && s.h == s0.h
    ensures s.p == OpenUpdate(StoreOs(s0.l.os, if s0.l.tx.Up? then OsUp else OsDown))
  {
    s := Own(s0);
    s := Own(s);
    assert s == Threads(s0.l.(rx := Up, rc := Up), OpenUpdate(ReadOld), s0.h);
    s := Own(s);
    s := Own(s);
    s := Own(s);
  }

  /** A pair and an acknowledgement: of each the other's store comes last. */
  lemma PairsClash() returns (s: Threads)
    ensures Occurs(s) && s.h.Quiet? && !InSection(s.p) && s.l.rx.Down? && s.l.rc.Up?
  {
    s := StoresCross();
    s := Theirs(s);
    s := Theirs(s);
    s := Theirs(s);
    s := Theirs(s);
  }

  lemma StoresCross() returns (s: Threads)
    ensures Occurs(s)
    ensures s == Threads(Link(Down, Up, OsDown, false, Up), OpenUpdate(ReadOld), Updating(ReadOld))
  {
    s := OpenTested(true);
    s := Own(s);
    s := Turned(s, Arrive(PeerDownAck));
    s := Theirs(s);
    s := Own(s);
    s := Theirs(s);
  }

  /** A handler that has read rx up, and a close: the handler then reads the tx of the next
      open, and takes the interface for up. */
  lemma ReadClashes() returns (s: Threads)
    ensures Occurs(s) && s == Threads(Link(Down, Up, OsUp, true, Down), OpenTest, Quiet) && !Law(s.l)
  {
    s := ClosedBeside();
    s := Turned(s, Process(Open(true)));
    s := Theirs(s);
    s := Theirs(s);
    s := Theirs(s);
    s := Theirs(s);
    s := Theirs(s);
  }

  lemma OpenWithPeerDown() returns (s: Threads)
    ensures Occurs(s) && s == Threads(Link(Up, Down, OsDown, false, Up), Idle, Quiet)
  {
    s := OpenTested(false);
    s := StoresUp(s);
    s := Own(s);
    s := Own(s);
  }

  /** A LINK_DOWN, as far as the read of tx. */
  lemma RxRead() returns (s: Threads)
    ensures Occurs(s) && s == Threads(Link(Up, Down, OsDown, false, Up), Idle, Updating(ReadTx(OsDown)))
  {
    s := OpenWithPeerDown();
    s := Turned(s, Arrive(PeerDown));
    s := Theirs(s);
    s := Theirs(s);
    s := Theirs(s);
  }

  lemma ClosedBeside() returns (s: Threads)
    ensures Occurs(s) && s == Threads(Link(Down, Down, OsDown, false, Down), Idle, Updating(ReadTx(OsDown)))
  {
    s := SentDownBeside();
    s := Own(s);
    s := Own(s);
    s := Own(s);
  }

  lemma SentDownBeside() returns (s: Threads)
    ensures Occurs(s)
    ensures s == Threads(Link(SentDown, Down, OsDown, false, SentDown), CloseTx, Updating(ReadTx(OsDown)))
  {
    s := RxRead();
    s := Turned(s, Process(Close));
    s := Own(s);
    s := Own(s);
    s := Own(s);
  }
}
