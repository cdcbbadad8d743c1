/** The steps of Doorbell carry whole calls: a send that rings, a send that finds the credit used
  up, and a handler that drains the ring. */
module DoorbellProgress {
  import opened Paths
  import opened Doorbell

  /** The host's threads alone lead from s to t. */
  ghost predicate HostRuns(s: State, t: State) {
    exists path :: Path(path, HostStep) && path[0] == s && path[|path| - 1] == t
  }

  /** The slave alone leads from s to t. */
  ghost predicate SlaveRuns(s: State, t: State) {
    exists path :: Path(path, SlaveStep) && path[0] == s && path[|path| - 1] == t
  }

  lemma SlaveStays(s: State)
    ensures SlaveRuns(s, s)
  {
    assert Path([s], SlaveStep);
  }

  lemma SlaveThen(s: State, t: State, u: State)
    requires SlaveRuns(s, t) && SlaveStep(t, u)
    ensures SlaveRuns(s, u)
  {
    var path :| Path(path, SlaveStep) && path[0] == s && path[|path| - 1] == t;
    ExtendPath(path, SlaveStep, u);
    assert (path + [u])[0] == s;
  }

  lemma HostThen(s: State, t: State, u: State)
    requires HostRuns(s, t) && HostStep(t, u)
    ensures HostRuns(s, u)
  {
    var path :| Path(path, HostStep) && path[0] == s && path[|path| - 1] == t;
    ExtendPath(path, HostStep, u);
    assert (path + [u])[0] == s;
  }

  /** A thread that has the lock, has published, and reads the two counters. */
  lemma PublishesAndLooks(s: State, id: Thread) returns (t: State)
    requires CreditInv(s) && s.lock.Free? && id !in s.waiting
    ensures HostRuns(s, t)
    ensures t == s.(published := s.published + 1, lock := Held(id, SawBoth(s.requests, s.clears), RETRIES))
  {
    var t1 := s.(lock := Held(id, Fresh, RETRIES));
    assert Acquire(s, t1, id) && Path([s], HostStep);
    HostThen(s, s, t1);
    var t2 := t1.(published := s.published + 1, lock := Held(id, MustRing, RETRIES));
    assert Publish(t1, t2);
    HostThen(s, t1, t2);
    var t3 := t2.(lock := Held(id, SawRequests(s.requests), RETRIES));
    assert LoadRequests(t2, t3);
    HostThen(s, t2, t3);
    t := t3.(lock := Held(id, SawBoth(s.requests, s.clears), RETRIES));
    assert LoadClears(t3, t);
    HostThen(s, t3, t);
  }

  /** What comes of a send: with at most eight requests uncleared, the mailbox has one message
      more and the request is counted, unless the slot is busy; with more, the thread waits. */
  lemma SendRings(s: State, id: Thread, busy: bool)
    requires CreditInv(s) && s.lock.Free? && id !in s.waiting
    ensures var sent := s.(published := s.published + 1);
      HostRuns(s, if s.requests - s.clears > 8 then sent.(waiting := s.waiting[id := Waiting(10, NoCredit)])
                  else if busy then sent.(waiting := s.waiting[id := Waiting(10, NoSlot)])
                  else sent.(mailbox := s.mailbox + 1, requests := s.requests + 1))
  {
    var t := PublishesAndLooks(s, id);
    if s.requests - s.clears > 8 || busy {
      var why := if s.requests - s.clears > 8 then NoCredit else NoSlot;
      var u := t.(lock := Free, waiting := t.waiting[id := Waiting(RETRIES, why)]);
      assert Refuse(t, u, why);
      HostThen(s, t, u);
    } else {
      var u := t.(mailbox := s.mailbox + 1, lock := Held(id, Rung, RETRIES));
      assert Ring(t, u);
      HostThen(s, t, u);
      var v := u.(requests := s.requests + 1, lock := Free);
      assert Count(u, v);
      HostThen(s, u, v);
    }
  }

  /** A waiting thread comes back once for every try it has left. */
  lemma WaiterLooksAgain(s: State, id: Thread) returns (t: State)
    requires s.lock.Free? && id in s.waiting && s.waiting[id].left > 0
    ensures HostRuns(s, t)
    ensures t == s.(waiting := s.waiting - {id}, lock := Held(id, SawBoth(s.requests, s.clears), s.waiting[id].left - 1))
  {
    var left := s.waiting[id].left - 1;
    var t1 := s.(waiting := s.waiting - {id}, lock := Held(id, MustRing, left));
    assert Retry(s, t1, id) && Path([s], HostStep);
    HostThen(s, s, t1);
    var t2 := t1.(lock := Held(id, SawRequests(s.requests), left));
    assert LoadRequests(t1, t2);
    HostThen(s, t1, t2);
    t := t2.(lock := Held(id, SawBoth(s.requests, s.clears), left));
    assert LoadClears(t2, t);
    HostThen(s, t2, t);
  }

  lemma {:induction false} Drains(s: State, t: State)
    requires SlaveRuns(s, t) && t.slave.Draining? && t.consumed <= t.published
    ensures SlaveRuns(s, t.(consumed := t.published, slave := Asleep))
    decreases t.published - t.consumed
  {
    var u := t.(slave := Looked(t.published));
    assert LookAtRing(t, u);
    SlaveThen(s, t, u);
    if t.consumed < t.published {
      var v := u.(consumed := t.consumed + 1, slave := Draining);
      assert Consume(u, v);
      SlaveThen(s, u, v);
      Drains(s, v);
    } else {
      var v := u.(slave := Asleep);
      assert FallAsleep(u, v);
      SlaveThen(s, u, v);
    }
  }

  /** One mailbox message is enough for the slave to consume everything there is. */
  lemma MailDrainsRing(s: State)
    requires CreditInv(s) && s.slave.Asleep? && s.mailbox > 0
    ensures SlaveRuns(s, s.(mailbox := s.mailbox - 1, clears := s.clears + 1, consumed := s.published))
  {
    SlaveStays(s);
    var t1 := s.(mailbox := s.mailbox - 1, slave := Taken);
    assert TakeMail(s, t1);
    SlaveThen(s, s, t1);
    var t2 := t1.(clears := s.clears + 1, slave := Draining);
    assert CountClear(t1, t2);
    SlaveThen(s, t1, t2);
    Drains(s, t2);
  }
}
