/** The open, close and message code of the network driver on its own fields. An interrupt may
  handle messages before any access of open or close: irq(k) are those that come before the
  k-th one. Every access is noted in a trace, which is a run of the machine in LinkState, so
  what is proved of all runs there holds of this code. */
module LinkDriver {
  import opened LinkState

  type Interrupts = nat -> seq<Msg>

  function AsEvents(ms: seq<Msg>): (es: seq<Event>)
    ensures |es| == |ms|
  {
    if ms == [] then [] else AsEvents(ms[..|ms| - 1]) + [Message(ms[|ms| - 1])]
  }

  ghost predicate NoneCome(irq: Interrupts) {
    forall k :: irq(k) == []
  }

  /** What an open that nobody disturbs does. */
  function Opened(l: Link, peerUp: bool): (r: Link)
    ensures r.tx == if peerUp then Up else l.tx
    ensures l.rx != Down ==> r == l.(tx := r.tx)
    ensures l.rx == Down ==> r.rx == Up && r.rc == Up && (r.os == OsUp <==> r.tx == Up)
    ensures l.rx == Down ==> r.carrier == if r.os == l.os then l.carrier else r.os == OsUp
  {
    var l1 := if peerUp then l.(tx := Up) else l;
    if l1.rx.Down? then UpdateSm(l1.(rx := Up, rc := Up)) else l1
  }

  /** What a close that nobody disturbs does before it waits. */
  function Closed(l: Link): (r: Link)
    ensures r == l.(rx := r.rx, rc := r.rc)
    ensures l.tx != Up ==> r.rx == Down && r.rc == Down
    ensures l.tx == Up && l.rx == Up ==> r.rx == SentDown && r.rc == SentDown
    ensures l.tx == Up && l.rx != Up ==> r == l
  {
    var l1 := if l.rx.Up? then l.(rc := SentDown, rx := SentDown) else l;
    if l1.tx.Up? then l1 else l1.(rx := Down, rc := Down)
  }

  class Interface {
    var rxLinkState: Dir
    var txLinkState: Dir
    var osLinkState: Os
    var carrier: bool
    var rcLinkStatus: Dir
    ghost var p: Proc
    ghost var trace: seq<Event>

    ghost function View(): Link
      reads this
    {
      Link(rxLinkState, txLinkState, osLinkState, carrier, rcLinkStatus)
    }

    /** The trace is a run, and the fields are where it ends. */
    ghost predicate Valid()
      reads this
    {
      Possible(INITIAL, trace) && After(INITIAL, trace) == State(View(), p)
    }

    constructor ()
      ensures Valid() && p.Idle? && trace == []
    {
      rxLinkState, txLinkState, osLinkState := Down, Down, OsDown;
      carrier, rcLinkStatus := false, Down;
      p, trace := Idle, [];
      new;
      assert Possible(INITIAL, []) && After(INITIAL, []) == INITIAL;
    }

    /** The fields have just made the step e from where the trace ends. */
    ghost method Note(e: Event)
      requires Possible(INITIAL, trace) && Enabled(After(INITIAL, trace), e)
      requires Step(After(INITIAL, trace), e) == State(View(), p)
      modifies `trace
      ensures Valid() && trace == old(trace) + [e]
    {
      Extend(INITIAL, trace, e);
      trace := trace + [e];
    }

    /** What LinkState proves of its runs, said of the fields. */
    lemma FieldsKeepLaw()
      requires Valid() && Undisturbed(INITIAL, trace) && !InSection(p)
      ensures Law(View())
    {
      UndisturbedLaw(trace);
    }

    // ------------------------------------------------- what the handler runs

    method UpdateLinkState(state: Os)
      modifies `carrier
      ensures carrier == state.OsUp?
    {
      if state == OsUp {
        carrier := true;
      } else {
        carrier := false;
      }
    }

    method UpdateLinkSm()
      modifies `osLinkState, `carrier
      ensures View() == UpdateSm(old(View()))
    {
      var oldState := osLinkState;
      if rxLinkState == Up && txLinkState == Up {
        osLinkState := OsUp;
      } else {
        osLinkState := OsDown;
      }
      if osLinkState != oldState {
        UpdateLinkState(osLinkState);
      }
    }

    method RcvLinkUp()
      modifies `txLinkState, `osLinkState, `carrier
      ensures View() == Handled(old(View()), PeerUp)
    {
      txLinkState := Up;
      UpdateLinkSm();
    }

    method RcvLinkDown()
      modifies `txLinkState, `osLinkState, `carrier
      ensures View() == Handled(old(View()), PeerDown)
    {
      txLinkState := Down;
      UpdateLinkSm();
    }

    method RcvLinkDownAck()
      modifies `rcLinkStatus, `rxLinkState, `osLinkState, `carrier
      ensures View() == Handled(old(View()), PeerDownAck)
    {
      rcLinkStatus := Down;
      rxLinkState := Down;
      UpdateLinkSm();
    }

    /** axnet_host_process_ctrl_msg for the messages on the control ring. */
    method ProcessCtrlMsg(ms: seq<Msg>)
      requires Valid()
      modifies this
      ensures Valid() && p == old(p) && trace == old(trace) + AsEvents(ms)
      ensures ms == [] ==> View() == old(View())
    {
      var i: nat := 0;
      while i < |ms|
        invariant i <= |ms| && Valid() && p == old(p) && trace == old(trace) + AsEvents(ms[..i])
        invariant i == 0 ==> View() == old(View())
      {
        match ms[i] {
          case PeerUp => RcvLinkUp();
          case PeerDown => RcvLinkDown();
          case PeerDownAck => RcvLinkDownAck();
        }
        Note(Message(ms[i]));
        assert ms[..i + 1][..i] == ms[..i];
        i := i + 1;
      }
      assert ms[..i] == ms;
    }

    // --------------------------------------------------------- the process

    // One access of the process each, after the messages that come before it.

    method LoadRx(irq: Interrupts, k: nat) returns (v: Dir)
      requires Valid() && (p.OpenTest? || p.CloseTest? || (p.OpenUpdate? && p.u.ReadRx?))
      modifies this
      ensures Valid() && old(trace) <= trace && v == rxLinkState && p == Access(View(), old(p)).1
      ensures irq(k) == [] ==> View() == old(View())
    {
      ProcessCtrlMsg(irq(k));
      v := rxLinkState;
      p := Access(View(), p).1;
      Note(Next);
    }

    method LoadTx(irq: Interrupts, k: nat) returns (v: Dir)
      requires Valid() && (p.CloseTx? || (p.OpenUpdate? && p.u.ReadTx?))
      modifies this
      ensures Valid() && old(trace) <= trace && v == txLinkState && p == Access(View(), old(p)).1
      ensures irq(k) == [] ==> View() == old(View())
    {
      ProcessCtrlMsg(irq(k));
      v := txLinkState;
      p := Access(View(), p).1;
      Note(Next);
    }

    method LoadOs(irq: Interrupts, k: nat) returns (v: Os)
      requires Valid() && p.OpenUpdate? && (p.u.ReadOld? || p.u.Compare? || p.u.ReadOs?)
      modifies this
      ensures Valid() && old(trace) <= trace && v == osLinkState && p == Access(View(), old(p)).1
      ensures irq(k) == [] ==> View() == old(View())
    {
      ProcessCtrlMsg(irq(k));
      v := osLinkState;
      p := Access(View(), p).1;
      Note(Next);
    }

    method StoreRx(v: Dir, irq: Interrupts, k: nat)
      requires Valid() && ((p.OpenRx? && v.Up?) || (p.DownRx? && v.SentDown?) || (p.DropRx? && v.Down?))
      modifies this
      ensures Valid() && old(trace) <= trace && p == Access(View(), old(p)).1
      ensures irq(k) == [] ==> View() == old(View()).(rx := v)
    {
      ProcessCtrlMsg(irq(k));
      rxLinkState := v;
      p := Access(View(), p).1;
      Note(Next);
    }

    method StoreRc(v: Dir, irq: Interrupts, k: nat)
      requires Valid() && ((p.OpenRc? && v.Up?) || (p.DownRc? && v.SentDown?) || (p.DropRc? && v.Down?))
      modifies this
      ensures Valid() && old(trace) <= trace && p == Access(View(), old(p)).1
      ensures irq(k) == [] ==> View() == old(View()).(rc := v)
    {
      ProcessCtrlMsg(irq(k));
      rcLinkStatus := v;
      p := Access(View(), p).1;
      Note(Next);
    }

    method StoreOsState(v: Os, irq: Interrupts, k: nat)
      requires Valid() && p.OpenUpdate? && p.u.StoreOs? && p.u.now == v
      modifies this
      ensures Valid() && old(trace) <= trace && p == Access(View(), old(p)).1
      ensures irq(k) == [] ==> View() == old(View()).(os := v)
    {
      ProcessCtrlMsg(irq(k));
      osLinkState := v;
      p := Access(View(), p).1;
      Note(Next);
    }

    method ShowLinkState(v: Os, irq: Interrupts, k: nat)
      requires Valid() && p.OpenUpdate? && p.u == SetCarrier(v)
      modifies this
      ensures Valid() && old(trace) <= trace && p.Idle?
      ensures irq(k) == [] ==> View() == old(View()).(carrier := v.OsUp?)
    {
      ProcessCtrlMsg(irq(k));
      UpdateLinkState(v);
      p := Idle;
      Note(Next);
    }

    method ReadLinkStates(irq: Interrupts) returns (oldState: Os, now: Os)
      requires Valid() && p == OpenUpdate(ReadOld)
      modifies this
      ensures Valid() && p == OpenUpdate(StoreOs(oldState, now)) && old(trace) <= trace
      ensures NoneCome(irq) ==> View() == old(View()) && oldState == osLinkState
      ensures NoneCome(irq) ==> now == if rxLinkState == Up && txLinkState == Up then OsUp else OsDown
    {
      oldState := LoadOs(irq, 3);
      now := OsDown;
      var rx := LoadRx(irq, 4);
      if rx == Up {
        var tx := LoadTx(irq, 5);
        now := if tx == Up then OsUp else OsDown;
      }
    }

    method StoreLinkState(irq: Interrupts, oldState: Os, now: Os)
      requires Valid() && p == OpenUpdate(StoreOs(oldState, now))
      modifies this
      ensures Valid() && p.Idle? && old(trace) <= trace
      ensures NoneCome(irq) ==> View() == Decide(old(View()), oldState, now)
    {
      StoreOsState(now, irq, 6);
      var state := LoadOs(irq, 7);
      if state != oldState {
        state := LoadOs(irq, 8);
        ShowLinkState(state, irq, 9);
      }
    }

    /** axnet_host_update_link_sm as an open runs it. */
    method UpdateInOpen(irq: Interrupts)
      requires Valid() && p == OpenUpdate(ReadOld)
      modifies this
      ensures Valid() && p.Idle? && old(trace) <= trace
      ensures NoneCome(irq) ==> View() == UpdateSm(old(View()))
    {
      var oldState, now := ReadLinkStates(irq);
      StoreLinkState(irq, oldState, now);
    }

    /** axnet_host_user_link_up_req, as far as the link states are concerned. */
    method UserLinkUpReq(irq: Interrupts)
      requires Valid() && p.OpenRx?
      modifies this
      ensures Valid() && p.Idle? && old(trace) <= trace
      ensures NoneCome(irq) ==> View() == UpdateSm(old(View()).(rx := Up, rc := Up))
    {
      StoreRx(Up, irq, 1);
      StoreRc(Up, irq, 2);
      UpdateInOpen(irq);
    }

    /** axnet_host_open */
    method HostOpen(peerUp: bool, irq: Interrupts)
      requires Valid() && p.Idle?
      modifies this
      ensures Valid() && p.Idle? && old(trace) + [Open(peerUp)] <= trace
      ensures NoneCome(irq) ==> View() == Opened(old(View()), peerUp)
    {
      if peerUp { txLinkState := Up; }
      p := OpenTest;
      Note(Open(peerUp));
      var rx := LoadRx(irq, 0);
      if rx == Down {
        UserLinkUpReq(irq);
      }
    }

    /** axnet_host_user_link_down_req */
    method UserLinkDownReq(irq: Interrupts)
      requires Valid() && p.DownRc?
      modifies this
      ensures Valid() && p.CloseTx? && old(trace) <= trace
      ensures NoneCome(irq) ==> View() == old(View()).(rc := SentDown, rx := SentDown)
    {
      StoreRc(SentDown, irq, 1);
      StoreRx(SentDown, irq, 2);
    }

    /** axnet_host_close, up to its wait for the peer if there is one. */
    method HostClose(irq: Interrupts) returns (wait: bool)
      requires Valid() && p.Idle?
      modifies this
      ensures Valid() && old(trace) + [Close] <= trace && p == if wait then Await else Idle
      ensures NoneCome(irq) ==> View() == Closed(old(View())) && wait == old(txLinkState).Up?
    {
      p := CloseTest;
      Note(Close);
      var rx := LoadRx(irq, 0);
      if rx == Up {
        UserLinkDownReq(irq);
      }
      var tx := LoadTx(irq, 3);
      wait := tx == Up;
      if !wait {
        Drop(irq);
      }
    }

    method Drop(irq: Interrupts)
      requires Valid() && p.DropRx?
      modifies this
      ensures Valid() && p.Idle? && old(trace) <= trace
      ensures NoneCome(irq) ==> View() == old(View()).(rx := Down, rc := Down)
    {
      StoreRx(Down, irq, 4);
      StoreRc(Down, irq, 5);
    }

    /** The end of the wait: rx has gone down, or the time is over (or a signal came). */
    method WaitForPeer() returns (ret: int)
      requires Valid() && p.Await?
      modifies `p, `trace
      ensures Valid() && p.Idle? && View() == old(View()) && ret == if rxLinkState.Down? then 0 else -110
    {
      var down := rxLinkState == Down;
      p := Idle;
      Note(if down then Next else Timeout);
      ret := if down then 0 else -110;
    }
  }
}
