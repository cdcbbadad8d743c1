/** The mailbox doorbell around the host-to-slave ring: credit and wake-ups.

  Any number of host threads publish messages under the data lock and then ring the
  slave's mailbox, but only while fewer than MAILBOX_REQ_LIMIT_COUNT + 1 requests are
  uncleared.  The slave takes one mailbox message, counts it as cleared, and drains the
  ring.  The host's count (0x20) and the slave's count (0x28) are separate words written
  by different machines, so the slave may clear a request before the host counted it. */
module Doorbell {

  const LIMIT: nat := 8
  const RETRIES: nat := 10

  type Thread = nat

  /** Why the last attempt to ring was refused. */
  datatype Refusal = NoCredit | NoSlot

  /** What the thread holding the data lock is doing.  tries is Some while the thread is in
      the doorbell-only loop of ax_pcie_send_message. */
  datatype Phase =
    | Fresh                            // nothing published yet
    | MustRing                         // message published, counters not yet read
    | SawRequests(req: nat)            // 0x20 read
    | SawBoth(req: nat, clr: nat)      // 0x28 read too
    | Rung                             // mailbox written, not yet counted

  datatype Lock = Free | Held(owner: Thread, phase: Phase, left: nat)

  /** A thread between two attempts to ring: how many are left and what refused the last. */
  datatype Waiting = Waiting(left: nat, why: Refusal)

  datatype Slave =
    | Asleep
    | Taken            // mailbox message read, 0x28 not yet counted
    | Draining         // about to load the counters
    | Looked(w: nat)   // loaded wp

  /** published and consumed count messages: wp and rp of the ring. */
  datatype State = State(
    requests: nat, clears: nat, mailbox: nat,
    lock: Lock, waiting: map<Thread, Waiting>,
    published: nat, consumed: nat, slave: Slave)

  ghost predicate Init(s: State) {
    s == State(0, 0, 0, Free, map[], 0, 0, Asleep)
  }

  // --------------------------------------------------------------- host steps

  ghost predicate Acquire(s: State, t: State, id: Thread) {
    s.lock.Free? && id !in s.waiting && t == s.(lock := Held(id, Fresh, RETRIES))
  }

  /** The ring refused the message: nothing published, nothing to ring for. */
  ghost predicate SendRefused(s: State, t: State) {
    s.lock.Held? && s.lock.phase.Fresh? && t == s.(lock := Free)
  }

  ghost predicate Publish(s: State, t: State) {
    && s.lock.Held? && s.lock.phase.Fresh?
    && t == s.(published := s.published + 1, lock := s.lock.(phase := MustRing))
  }

  ghost predicate LoadRequests(s: State, t: State) {
    && s.lock.Held? && s.lock.phase.MustRing?
    && t == s.(lock := s.lock.(phase := SawRequests(s.requests)))
  }

  ghost predicate LoadClears(s: State, t: State) {
    && s.lock.Held? && s.lock.phase.SawRequests?
    && t == s.(lock := s.lock.(phase := SawBoth(s.lock.phase.req, s.clears)))
  }

  /** count is the low 32 bits of the unsigned 64-bit difference. */
  function Outstanding(req: nat, clr: nat): int {
    (req - clr) % 0x1_0000_0000
  }

  ghost predicate Credit(p: Phase) {
    p.SawBoth? && Outstanding(p.req, p.clr) <= LIMIT
  }

  /** The attempt fails: the lock is dropped and the thread is left with its remaining tries. */
  ghost predicate Refuse(s: State, t: State, why: Refusal) {
    && s.lock.Held? && s.lock.phase.SawBoth?
    && (why.NoCredit? <==> !Credit(s.lock.phase))
    && t == s.(lock := Free, waiting := s.waiting[s.lock.owner := Waiting(s.lock.left, why)])
  }

  ghost predicate Ring(s: State, t: State) {
    && s.lock.Held? && Credit(s.lock.phase)
    && t == s.(mailbox := s.mailbox + 1, lock := s.lock.(phase := Rung))
  }

  ghost predicate Count(s: State, t: State) {
    && s.lock.Held? && s.lock.phase.Rung?
    && t == s.(requests := s.requests + 1, lock := Free)
  }

  ghost predicate Retry(s: State, t: State, id: Thread) {
    && s.lock.Free? && id in s.waiting && s.waiting[id].left > 0
    && t == s.(lock := Held(id, MustRing, s.waiting[id].left - 1), waiting := s.waiting - {id})
  }

  /** The thread returns to its caller without having rung.  Besides running out of tries
      this happens at once when the send itself was the last of its retries. */
  ghost predicate GiveUp(s: State, t: State, id: Thread) {
    && id in s.waiting && (s.waiting[id].left == 0 || s.waiting[id].left == RETRIES)
    && t == s.(waiting := s.waiting - {id})
  }

  // -------------------------------------------------------------- slave steps

  ghost predicate TakeMail(s: State, t: State) {
    s.slave.Asleep? && s.mailbox > 0 && t == s.(mailbox := s.mailbox - 1, slave := Taken)
  }

  ghost predicate CountClear(s: State, t: State) {
    s.slave.Taken? && t == s.(clears := s.clears + 1, slave := Draining)
  }

  ghost predicate LookAtRing(s: State, t: State) {
    s.slave.Draining? && t == s.(slave := Looked(s.published))
  }

  ghost predicate Consume(s: State, t: State) {
    s.slave.Looked? && s.slave.w != s.consumed && t == s.(consumed := s.consumed + 1, slave := Draining)
  }

  ghost predicate FallAsleep(s: State, t: State) {
    s.slave.Looked? && s.slave.w == s.consumed && t == s.(slave := Asleep)
  }

  /** A notifier that fails makes the handler return with the message still in the ring. */
  ghost predicate NotifierFails(s: State, t: State) {
    s.slave.Looked? && s.slave.w != s.consumed && t == s.(slave := Asleep)
  }

  ghost predicate HostStep(s: State, t: State) {
    || (exists id :: Acquire(s, t, id)) || SendRefused(s, t) || Publish(s, t)
    || LoadRequests(s, t) || LoadClears(s, t) || (exists why :: Refuse(s, t, why))
    || Ring(s, t) || Count(s, t) || (exists id :: Retry(s, t, id)) || (exists id :: GiveUp(s, t, id))
  }

  ghost predicate SlaveStep(s: State, t: State) {
    || TakeMail(s, t) || CountClear(s, t) || LookAtRing(s, t)
    || Consume(s, t) || FallAsleep(s, t) || NotifierFails(s, t)
  }

  ghost predicate Next(s: State, t: State) {
    HostStep(s, t) || SlaveStep(s, t)
  }

  ghost predicate Run(run: seq<State>) {
    && |run| > 0 && Init(run[0])
    && forall i | 0 < i < |run| :: Next(run[i - 1], run[i])
  }

  // ------------------------------------------------------------------- credit

  function RungUncounted(s: State): nat {
    if s.lock.Held? && s.lock.phase.Rung? then 1 else 0
  }

  function TakenUncounted(s: State): nat {
    if s.slave.Taken? then 1 else 0
  }

  /** Every ring is a mailbox message, in the slave's hands, or cleared. */
  ghost predicate CreditInv(s: State) {
    && s.requests + RungUncounted(s) == s.clears + s.mailbox + TakenUncounted(s)
    && s.requests <= s.clears + LIMIT + 1
    && (s.lock.Held? ==> match s.lock.phase
        case SawRequests(req) => req == s.requests
        case SawBoth(req, clr) => req == s.requests && clr <= s.clears && req <= clr + LIMIT + 1
        case Rung => s.requests <= s.clears + LIMIT
        case _ => true)
    && (s.slave.Looked? ==> s.consumed <= s.slave.w <= s.published)
    && s.consumed <= s.published
    && (s.lock.Held? ==> s.lock.owner !in s.waiting)
  }

  lemma SlaveKeepsCredit(s: State, t: State)
    requires CreditInv(s) && SlaveStep(s, t)
    ensures CreditInv(t)
  {
  }

  lemma SenderKeepsCredit(s: State, t: State)
    requires CreditInv(s)
    requires SendRefused(s, t) || Publish(s, t) || LoadRequests(s, t) || LoadClears(s, t) || Ring(s, t) || Count(s, t)
    ensures CreditInv(t)
  {
  }

  lemma ThreadsKeepCredit(s: State, t: State, id: Thread, why: Refusal)
    requires CreditInv(s) && (Acquire(s, t, id) || Refuse(s, t, why) || Retry(s, t, id) || GiveUp(s, t, id))
    ensures CreditInv(t)
  {
  }

  lemma NextKeepsCredit(s: State, t: State)
    requires CreditInv(s) && Next(s, t)
    ensures CreditInv(t)
  {
    if SlaveStep(s, t) {
      SlaveKeepsCredit(s, t);
    } else if id :| Acquire(s, t, id) || Retry(s, t, id) || GiveUp(s, t, id) {
      ThreadsKeepCredit(s, t, id, NoCredit);
    } else if why :| Refuse(s, t, why) {
      ThreadsKeepCredit(s, t, 0, why);
    } else {
      SenderKeepsCredit(s, t);
    }
  }

  lemma {:induction false} RunCredit(run: seq<State>, i: nat)
    requires Run(run) && i < |run|
    ensures CreditInv(run[i])
  {
    if i > 0 {
      RunCredit(run, i - 1);
      NextKeepsCredit(run[i - 1], run[i]);
    }
  }

  /** Whenever the data lock is free the uncleared requests number between 0 and LIMIT + 1,
      in all interleavings; with it, the mailbox never holds more, and the 32-bit test of
      mailbox_requst_count_check never sees a wrapped difference. */
  lemma CreditBound(run: seq<State>, i: nat)
    requires Run(run) && i < |run|
    ensures var s := run[i];
            && (s.lock.Free? ==> 0 <= s.requests - s.clears <= LIMIT + 1)
            && s.mailbox <= LIMIT + 1
            && (s.lock.Held? && s.lock.phase.SawBoth? ==>
                  Outstanding(s.lock.phase.req, s.lock.phase.clr) == s.lock.phase.req - s.lock.phase.clr)
  {
    RunCredit(run, i);
  }

  // ----------------------------------------------------------------- wake-ups

  /** The lock holder has published and will still ring, or finds the credit used up. */
  ghost predicate HolderWillRing(s: State) {
    && s.lock.Held?
    && (s.lock.phase.MustRing? || s.lock.phase.SawRequests? || Credit(s.lock.phase))
  }

  /** A waiting thread that has only been refused for want of a mailbox slot tries again. */
  ghost predicate WillRetry(s: State, id: Thread) {
    id in s.waiting && s.waiting[id].why.NoSlot? && s.waiting[id].left > 0
  }

  ghost predicate SlaveWillLook(s: State) {
    s.slave.Taken? || s.slave.Draining? || (s.slave.Looked? && s.slave.w != s.consumed)
  }

  /** Unread messages are always accompanied by something that leads the slave to them. */
  ghost predicate Covered(s: State) {
    || s.consumed == s.published
    || s.mailbox > 0
    || SlaveWillLook(s)
    || HolderWillRing(s)
    || exists id :: WillRetry(s, id)
  }

  /** The two ways the code can leave a message unannounced: a notifier that fails, and a
      thread that returns although its last attempt met a busy mailbox slot. */
  ghost predicate Abandons(s: State, t: State) {
    || NotifierFails(s, t)
    || (Refuse(s, t, NoSlot) && s.lock.left == 0)
    || (exists id :: GiveUp(s, t, id) && WillRetry(s, id))
  }

  /** Refusal for lack of credit is never the cause: at the moment the counters were read
      more than LIMIT requests were outstanding, and each of them still makes the slave look. */
  lemma NoCreditIsCovered(s: State, t: State)
    requires CreditInv(s) && LoadClears(s, t) && !Credit(t.lock.phase)
    ensures t.mailbox + TakenUncounted(t) > LIMIT
  {
  }

  lemma RefuseKeepsCovered(s: State, t: State, why: Refusal)
    requires CreditInv(s) && Covered(s) && Refuse(s, t, why) && !Abandons(s, t)
    ensures Covered(t)
  {
    if why.NoSlot? {
      assert WillRetry(t, s.lock.owner);
    } else if id :| WillRetry(s, id) {
      assert WillRetry(t, id);
    }
  }

  lemma RetryKeepsCovered(s: State, t: State, id: Thread)
    requires Covered(s) && (Retry(s, t, id) || (GiveUp(s, t, id) && !WillRetry(s, id)))
    ensures Covered(t)
  {
    if other :| WillRetry(s, other) {
      assert other != id ==> WillRetry(t, other);
    }
  }

  lemma OtherStepsKeepCovered(s: State, t: State)
    requires CreditInv(s) && Covered(s) && Next(s, t) && !NotifierFails(s, t)
    requires forall why :: !Refuse(s, t, why)
    requires forall id :: !Retry(s, t, id) && !GiveUp(s, t, id)
    ensures Covered(t)
  {
    if id :| WillRetry(s, id) {
      assert WillRetry(t, id);
    }
    if LoadClears(s, t) && !Credit(t.lock.phase) {
      NoCreditIsCovered(s, t);
    }
  }

  /** A wake-up is lost only by an abandoning step, whatever else interleaves. */
  lemma LostOnlyByAbandoning(s: State, t: State)
    requires CreditInv(s) && Covered(s) && Next(s, t) && !Covered(t)
    ensures Abandons(s, t)
    ensures t.consumed < t.published && t.mailbox == 0 && t.slave != Taken && t.slave != Draining
  {
    if !Abandons(s, t) {
      if why :| Refuse(s, t, why) {
        RefuseKeepsCovered(s, t, why);
      } else if id :| Retry(s, t, id) {
        RetryKeepsCovered(s, t, id);
      } else if id :| GiveUp(s, t, id) {
        RetryKeepsCovered(s, t, id);
      } else {
        OtherStepsKeepCovered(s, t);
      }
    }
    NextKeepsCredit(s, t);
  }

  // ------------------------------------------- exactly when a wake-up is lost

  /** Messages are unread and nothing on the slave's side leads to them. */
  ghost predicate Unseen(s: State) {
    s.consumed != s.published && s.mailbox == 0 && !SlaveWillLook(s)
  }

  ghost predicate OnlyRetry(s: State, id: Thread) {
    forall other | other != id :: !WillRetry(s, other)
  }

  /** The failing notifier: nothing is in the mailbox and no thread will ring. */
  lemma NotifierLosesExactly(s: State, t: State)
    requires CreditInv(s) && NotifierFails(s, t)
    ensures !Covered(t) <==> s.mailbox == 0 && !HolderWillRing(s) && forall id :: !WillRetry(s, id)
  {
    assert forall id :: WillRetry(s, id) <==> WillRetry(t, id);
  }

  /** The last try, refused for want of a slot: the slave is not on its way either, and no
      other thread will try. */
  lemma RefuseLosesExactly(s: State, t: State)
    requires CreditInv(s) && Refuse(s, t, NoSlot) && s.lock.left == 0
    ensures !Covered(t) <==> Unseen(s) && forall id :: !WillRetry(s, id)
  {
    assert forall id :: WillRetry(s, id) <==> WillRetry(t, id);
  }

  /** The thread that gives up: besides, no lock holder is about to ring. */
  lemma GiveUpLosesExactly(s: State, t: State, id: Thread)
    requires CreditInv(s) && GiveUp(s, t, id)
    ensures !Covered(t) <==> Unseen(s) && !HolderWillRing(s) && OnlyRetry(s, id)
  {
    assert forall other :: other != id ==> (WillRetry(s, other) <==> WillRetry(t, other));
  }

  /** The guards of the three, on the state before the step. */
  ghost predicate Loses(s: State, t: State) {
    || (NotifierFails(s, t) && s.mailbox == 0 && !HolderWillRing(s) && forall id :: !WillRetry(s, id))
    || (Refuse(s, t, NoSlot) && s.lock.left == 0 && Unseen(s) && forall id :: !WillRetry(s, id))
    || (exists id :: GiveUp(s, t, id) && Unseen(s) && !HolderWillRing(s) && OnlyRetry(s, id))
  }

  /** A step loses a wake-up if and only if it is one of these under its guard. */
  lemma LostExactly(s: State, t: State)
    requires CreditInv(s) && Covered(s) && Next(s, t)
    ensures !Covered(t) <==> Loses(s, t)
  {
    if NotifierFails(s, t) {
      NotifierLosesExactly(s, t);
    }
    if Refuse(s, t, NoSlot) && s.lock.left == 0 {
      RefuseLosesExactly(s, t);
    }
    forall id | GiveUp(s, t, id)
      ensures !Covered(t) <==> Unseen(s) && !HolderWillRing(s) && OnlyRetry(s, id)
    {
      GiveUpLosesExactly(s, t, id);
    }
    if !Covered(t) {
      LostOnlyByAbandoning(s, t);
    }
  }

  /** And a run keeps every unread message announced, up to any point, if and only if no step
      before that point loses a wake-up. */
  lemma {:induction false} RunCoveredExactly(run: seq<State>, i: nat)
    requires Run(run) && i < |run|
    ensures (forall j | 0 <= j <= i :: Covered(run[j])) <==> (forall j | 0 < j <= i :: !Loses(run[j - 1], run[j]))
  {
    if i > 0 {
      RunCoveredExactly(run, i - 1);
      RunCredit(run, i - 1);
      if forall j | 0 <= j < i :: Covered(run[j]) {
        LostExactly(run[i - 1], run[i]);
      }
    }
  }

  lemma {:induction false} RunCovered(run: seq<State>, i: nat)
    requires Run(run) && i < |run|
    requires forall j | 0 < j <= i :: !Abandons(run[j - 1], run[j])
    ensures Covered(run[i])
  {
    if i > 0 {
      RunCovered(run, i - 1);
      RunCredit(run, i - 1);
      if !Covered(run[i]) {
        LostOnlyByAbandoning(run[i - 1], run[i]);
      }
    }
  }

  /** No lost wake-up: with unread messages and no thread between publishing and ringing, a
      request is in the mailbox or the slave is in its drain loop and will look again. */
  lemma NoLostWakeUp(run: seq<State>, i: nat)
    requires Run(run) && i < |run|
    requires forall j | 0 < j <= i :: !Abandons(run[j - 1], run[j])
    requires run[i].consumed != run[i].published
    requires !HolderWillRing(run[i]) && forall id :: !WillRetry(run[i], id)
    ensures run[i].mailbox > 0 || SlaveWillLook(run[i])
  {
    RunCovered(run, i);
  }

  /** So when every thread and the slave are quiet, every message has been consumed. */
  lemma QuietMeansDrained(run: seq<State>, i: nat)
    requires Run(run) && i < |run|
    requires forall j | 0 < j <= i :: !Abandons(run[j - 1], run[j])
    requires run[i].lock.Free? && run[i].waiting == map[] && run[i].slave.Asleep? && run[i].mailbox == 0
    ensures run[i].consumed == run[i].published
  {
    RunCovered(run, i);
  }

  lemma Extend(run: seq<State>, t: State) returns (longer: seq<State>)
    requires Run(run) && Next(run[|run| - 1], t)
    ensures Run(longer) && longer == run + [t]
  {
    longer := run + [t];
    forall i | 0 < i < |longer| ensures Next(longer[i - 1], longer[i]) {
      if i < |run| { assert Next(run[i - 1], run[i]); }
    }
  }

  /** One thread publishes the first message and reads the counters. */
  lemma FirstSend() returns (run: seq<State>)
    ensures Run(run)
    ensures run[|run| - 1] == State(0, 0, 0, Held(7, SawBoth(0, 0), RETRIES), map[], 1, 0, Asleep)
  {
    var s0 := State(0, 0, 0, Free, map[], 0, 0, Asleep);
    var s1 := s0.(lock := Held(7, Fresh, RETRIES));
    var s2 := s1.(published := 1, lock := Held(7, MustRing, RETRIES));
    var s3 := s2.(lock := Held(7, SawRequests(0), RETRIES));
    var s4 := s3.(lock := Held(7, SawBoth(0, 0), RETRIES));
    assert Acquire(s0, s1, 7) && Publish(s1, s2) && LoadRequests(s2, s3) && LoadClears(s3, s4);
    run := Extend([s0], s1);
    run := Extend(run, s2);
    run := Extend(run, s3);
    run := Extend(run, s4);
  }

  /** Both kinds of abandoning really lose a wake-up.  Here the only attempt met a busy slot
      on the sender's last retry. */
  lemma BusySlotCanLose() returns (run: seq<State>)
    ensures Run(run) && !Covered(run[|run| - 1])
  {
    run := FirstSend();
    var s4 := run[|run| - 1];
    var s5 := s4.(lock := Free, waiting := map[7 := Waiting(RETRIES, NoSlot)]);
    var s6 := s5.(waiting := map[]);
    assert Refuse(s4, s5, NoSlot);
    assert s5.waiting - {7} == map[];
    assert GiveUp(s5, s6, 7);
    run := Extend(run, s5);
    run := Extend(run, s6);
  }

  /** That message is announced and its mailbox message taken. */
  lemma FirstWakeUp() returns (run: seq<State>)
    ensures Run(run)
    ensures run[|run| - 1] == State(1, 1, 0, Free, map[], 1, 0, Draining)
  {
    run := FirstSend();
    var s4 := run[|run| - 1];
    var s5 := s4.(mailbox := 1, lock := Held(7, Rung, RETRIES));
    var s6 := s5.(requests := 1, lock := Free);
    var s7 := s6.(mailbox := 0, slave := Taken);
    var s8 := s7.(clears := 1, slave := Draining);
    assert HostStep(s4, s5) by { assert Ring(s4, s5); }
    assert HostStep(s5, s6) by { assert Count(s5, s6); }
    assert SlaveStep(s6, s7) by { assert TakeMail(s6, s7); }
    assert SlaveStep(s7, s8) by { assert CountClear(s7, s8); }
    run := Extend(run, s5);
    run := Extend(run, s6);
    run := Extend(run, s7);
    run := Extend(run, s8);
  }

  /** Here the notifier failed on a message that nobody announces again. */
  lemma FailedNotifierCanLose() returns (run: seq<State>)
    ensures Run(run) && !Covered(run[|run| - 1])
  {
    run := FirstWakeUp();
    var s8 := run[|run| - 1];
    var s9 := s8.(slave := Looked(1));
    var s10 := s9.(slave := Asleep);
    assert LookAtRing(s8, s9) && NotifierFails(s9, s10);
    run := Extend(run, s9);
    run := Extend(run, s10);
  }
}
