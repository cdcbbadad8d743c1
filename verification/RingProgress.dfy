/** The steps of RingProtocol carry whole calls: what one call of the array code does to the
  ring, the machine can do from the same state, wherever the other side stands. */
module RingProgress {
  import opened Common
  import opened Paths
  import opened RingLayout
  import opened MessageHead
  import opened RingQueue
  import opened RingProtocol

  /** The writer alone leads from s to t. */
  ghost predicate WriterRuns(s: State, t: State) {
    exists path :: Path(path, WriterStep) && path[0] == s && path[|path| - 1] == t
  }

  /** The reader alone leads from s to t. */
  ghost predicate ReaderRuns(s: State, t: State) {
    exists path :: Path(path, ReaderStep) && path[0] == s && path[|path| - 1] == t
  }

  lemma WriterStays(s: State)
    ensures WriterRuns(s, s)
  {
    assert Path([s], WriterStep);
  }

  lemma WriterThen(s: State, t: State, u: State)
    requires WriterRuns(s, t) && WriterStep(t, u)
    ensures WriterRuns(s, u)
  {
    var path :| Path(path, WriterStep) && path[0] == s && path[|path| - 1] == t;
    ExtendPath(path, WriterStep, u);
    assert (path + [u])[0] == s;
  }

  lemma ReaderStays(s: State)
    ensures ReaderRuns(s, s)
  {
    assert Path([s], ReaderStep);
  }

  lemma ReaderThen(s: State, t: State, u: State)
    requires ReaderRuns(s, t) && ReaderStep(t, u)
    ensures ReaderRuns(s, u)
  {
    var path :| Path(path, ReaderStep) && path[0] == s && path[|path| - 1] == t;
    ExtendPath(path, ReaderStep, u);
    assert (path + [u])[0] == s;
  }

  // ------------------------------------------------------------------- a send

  lemma CopiesPayloadByte(t: State) returns (v: State)
    requires Inv(t) && t.w.WPayload? && t.w.k < |t.w.m.payload|
    ensures WriterStep(t, v) && Inv(v)
    ensures v == t.(w := WPayload(t.w.m, t.w.inn, t.w.out, t.w.k + 1), buf := v.buf)
  {
    var c := Start(t.size, t.w.inn) + HEAD_SIZE + t.w.k;
    v := t.(buf := t.buf[Phys(t.size, c) := t.w.m.payload[t.w.k]], w := WPayload(t.w.m, t.w.inn, t.w.out, t.w.k + 1));
    assert WriterCopiesPayloadByte(t, v);
    WriterKeepsInv(t, v);
  }

  lemma {:induction false} CopiesPayload(s: State, t: State) returns (u: State)
    requires WriterRuns(s, t) && Inv(t) && t.w.WPayload?
    ensures WriterRuns(s, u) && Inv(u) && u.w == WHead(t.w.m, t.w.inn, t.w.out, 0)
    ensures u == t.(w := u.w, buf := u.buf)
    decreases if t.w.WPayload? then |t.w.m.payload| - t.w.k else 0
  {
    if t.w.k == |t.w.m.payload| {
      u := t.(w := WHead(t.w.m, t.w.inn, t.w.out, 0));
      assert WriterTurnsToHead(t, u);
      WriterKeepsInv(t, u);
      WriterThen(s, t, u);
    } else {
      var v := CopiesPayloadByte(t);
      WriterThen(s, t, v);
      u := CopiesPayload(s, v);
    }
  }

  lemma CopiesHeadByte(t: State) returns (v: State)
    requires Inv(t) && t.w.WHead? && t.w.k < HEAD_SIZE
    ensures WriterStep(t, v) && Inv(v)
    ensures v == t.(w := WHead(t.w.m, t.w.inn, t.w.out, t.w.k + 1), buf := v.buf)
  {
    var c := Start(t.size, t.w.inn) + t.w.k;
    v := t.(buf := t.buf[Phys(t.size, c) := EncodeHead(t.w.m.head)[t.w.k]], w := WHead(t.w.m, t.w.inn, t.w.out, t.w.k + 1));
    assert WriterCopiesHeadByte(t, v);
    WriterKeepsInv(t, v);
  }

  lemma {:induction false} CopiesHead(s: State, t: State) returns (u: State)
    requires WriterRuns(s, t) && Inv(t) && t.w.WHead?
    ensures WriterRuns(s, u) && Inv(u) && u.w == WPublish(t.w.m, Advance(t.size, t.w.inn, |t.w.m.payload|))
    ensures u == t.(w := u.w, buf := u.buf)
    decreases if t.w.WHead? then HEAD_SIZE - t.w.k else 0
  {
    if t.w.k == HEAD_SIZE {
      u := t.(w := WPublish(t.w.m, Advance(t.size, t.w.inn, |t.w.m.payload|)));
      assert WriterAdvances(t, u);
      WriterKeepsInv(t, u);
      WriterThen(s, t, u);
    } else {
      var v := CopiesHeadByte(t);
      WriterThen(s, t, v);
      u := CopiesHead(s, v);
    }
  }

  /** The two loads and the two tests. */
  lemma FindsRoom(s: State, m: Message) returns (t: State)
    requires Inv(s) && s.w.WIdle? && s.wp - s.rp + Span(|m.payload|) <= s.size
    ensures WriterRuns(s, t) && Inv(t) && t == s.(w := WPayload(m, s.wp, s.rp, 0), base := s.buf)
  {
    EmptyIff(s.size, s.buf, s.rp, s.wp, Unread(s));
    WriterStays(s);
    var t1 := s.(w := WLoaded(m, s.wp));
    assert WriterLoadsWp(s, t1, m);
    WriterKeepsInv(s, t1);
    WriterThen(s, s, t1);
    t := t1.(w := WPayload(m, s.wp, s.rp, 0), base := s.buf);
    assert WriterLoadsRp(t1, t);
    WriterKeepsInv(t1, t);
    WriterThen(s, t1, t);
  }

  /** CopiedAsOneCall, for a single state. */
  lemma LeavesOneBuffer(t: State, m: Message, b: Buffer)
    requires Inv(t) && t.w.WPublish? && t.w.m == m && |b| == |t.base| == t.size
    requires Stored(t.size, b, Start(t.size, t.wp), Record(m))
    requires SameOn(t.size, t.base, b, Start(t.size, t.wp) + |Record(m)|, Start(t.size, t.wp) + t.size)
    ensures t.buf == b
  {
    EmptyIff(t.size, t.buf, t.rp, t.wp, Unread(t));
    WrittenBufferUnique(t.size, t.base, t.buf, b, Start(t.size, t.wp), Record(m));
  }

  /** With room, the writer's steps add up to one call: from the buffer the call found to the one
      it leaves, with m published. b is that buffer, as Kfifo.KfifoIn describes it. */
  lemma SendRuns(s: State, m: Message, b: Buffer)
    requires Inv(s) && s.w.WIdle? && s.wp - s.rp + Span(|m.payload|) <= s.size
    requires |b| == s.size && Stored(s.size, b, Start(s.size, s.wp), Record(m))
    requires SameOn(s.size, s.buf, b, Start(s.size, s.wp) + |Record(m)|, Start(s.size, s.wp) + s.size)
    ensures WriterRuns(s, s.(buf := b, wp := Advance(s.size, s.wp, |m.payload|), sent := s.sent + [m], base := s.buf))
  {
    var t2 := FindsRoom(s, m);
    var t3 := CopiesPayload(s, t2);
    var t4 := CopiesHead(s, t3);
    LeavesOneBuffer(t4, m, b);
    var t5 := t4.(wp := t4.w.next, w := WIdle, sent := s.sent + [m]);
    assert WriterPublishes(t4, t5);
    WriterThen(s, t4, t5);
    assert t5 == s.(buf := b, wp := Advance(s.size, s.wp, |m.payload|), sent := s.sent + [m], base := s.buf);
  }

  /** Without room, the call is over after the two loads if the ring is full, and writes wp back
      if there is some room but too little. Nothing is published either way. */
  lemma RefusedRuns(s: State, m: Message)
    requires Inv(s) && s.w.WIdle? && s.wp - s.rp + Span(|m.payload|) > s.size
    ensures var loaded, done := s.(w := WLoaded(m, s.wp)), s.(base := s.buf);
      if s.wp - s.rp >= s.size then Path([s, loaded, done], WriterStep)
      else Path([s, loaded, s.(w := WRefused(s.wp), base := s.buf), done], WriterStep)
  {
    var loaded, done := s.(w := WLoaded(m, s.wp)), s.(base := s.buf);
    assert WriterLoadsWp(s, loaded, m);
    if s.wp - s.rp >= s.size {
      assert WriterLoadsRp(loaded, done);
    } else {
      var refused := s.(w := WRefused(s.wp), base := s.buf);
      assert WriterLoadsRp(loaded, refused);
      assert WriterRepublishes(refused, done);
    }
  }

  // ---------------------------------------------------------------- a receive

  lemma {:induction false} ReadsHead(s: State, t: State) returns (u: State)
    requires ReaderRuns(s, t) && Inv(t) && t.r.RHead?
    ensures ReaderRuns(s, u) && Inv(u) && u == t.(r := RPayload(t.r.out, t.r.inn, Unread(t)[0].head, []))
    decreases if t.r.RHead? then HEAD_SIZE - |t.r.bytes| else 0
  {
    if |t.r.bytes| == HEAD_SIZE {
      var h := DecodeHead(t.r.bytes);
      assert t.r.bytes == EncodeHead(Unread(t)[0].head);
      HeadRoundTrip(Unread(t)[0].head);
      u := t.(r := RPayload(t.r.out, t.r.inn, h, []));
      assert ReaderChecksHead(t, u);
      ReaderKeepsInv(t, u);
      ReaderThen(s, t, u);
    } else {
      var c := Start(t.size, t.r.out) + |t.r.bytes|;
      var v := t.(r := t.r.(bytes := t.r.bytes + [At(t.size, t.buf, c)]));
      assert ReaderReadsHeadByte(t, v);
      ReaderKeepsInv(t, v);
      ReaderThen(s, t, v);
      u := ReadsHead(s, v);
    }
  }

  lemma {:induction false} ReadsPayload(s: State, t: State) returns (u: State)
    requires ReaderRuns(s, t) && Inv(t) && t.r.RPayload? && (t.r.head.slot, t.r.head.port) in t.open
    ensures ReaderRuns(s, u) && Inv(u) && u == t.(r := t.r.(got := Unread(t)[0].payload))
    decreases if t.r.RPayload? && Inv(t) then |Unread(t)[0].payload| - |t.r.got| else 0
  {
    var m := Unread(t)[0];
    if |t.r.got| == |m.payload| {
      assert t.r.got == m.payload;
      u := t;
    } else {
      var c := Start(t.size, t.r.out) + HEAD_SIZE + |t.r.got|;
      var v := t.(r := t.r.(got := t.r.got + [At(t.size, t.buf, c)]));
      assert ReaderReadsPayloadByte(t, v);
      ReaderKeepsInv(t, v);
      ReaderThen(s, t, v);
      u := ReadsPayload(s, v);
    }
  }

  /** The reader up to the point where the head of the first unread message was read. */
  lemma FindsFirst(s: State) returns (t: State)
    requires Inv(s) && s.r.RIdle? && Unread(s) != []
    ensures ReaderRuns(s, t) && Inv(t) && t == s.(r := RPayload(s.rp, s.wp, Unread(s)[0].head, []))
  {
    EmptyIff(s.size, s.buf, s.rp, s.wp, Unread(s));
    ReaderStays(s);
    var t1 := s.(r := RLoaded(s.rp));
    assert ReaderLoadsRp(s, t1);
    ReaderKeepsInv(s, t1);
    ReaderThen(s, s, t1);
    var t2 := s.(r := RHead(s.rp, s.wp, []));
    assert ReaderLoadsWp(t1, t2);
    ReaderKeepsInv(t1, t2);
    ReaderThen(s, t1, t2);
    t := ReadsHead(s, t2);
  }

  /** With a message in the ring, the reader's steps add up to one turn of the receive loop: the
      message is delivered whole to the receiver of its slot and port, or passed over if there is
      none, and rp moves past it. */
  lemma ReceiveRuns(s: State)
    requires Inv(s) && s.r.RIdle? && Unread(s) != []
    ensures var m := Unread(s)[0];
      var fate := if (m.head.slot, m.head.port) in s.open then Delivered(m.head, m.payload) else Skipped(m.head);
      ReaderRuns(s, s.(rp := Advance(s.size, s.rp, |m.payload|), log := s.log + [fate], released := s.released + 1))
  {
    var m := Unread(s)[0];
    var t1 := FindsFirst(s);
    var next := Advance(s.size, s.rp, |m.payload|);
    var t3: State;
    if (m.head.slot, m.head.port) in s.open {
      var t2 := ReadsPayload(s, t1);
      t3 := t2.(r := RAdvance(next), log := s.log + [Delivered(m.head, m.payload)]);
      assert ReaderDelivers(t2, t3, next);
      ReaderThen(s, t2, t3);
    } else {
      t3 := t1.(r := RAdvance(next), log := s.log + [Skipped(m.head)]);
      assert ReaderSkips(t1, t3, next);
      ReaderThen(s, t1, t3);
    }
    var t4 := t3.(rp := next, r := RIdle, released := s.released + 1);
    assert ReaderPublishes(t3, t4);
    ReaderThen(s, t3, t4);
  }
}
