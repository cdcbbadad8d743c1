/** The ring between two machines, one byte access at a time.

  A writer and a reader share the buffer and the published counters wp and rp and
  nothing else.  Every step below is one access to shared memory (or one local
  decision); any interleaving of the two sides is a run.  Writes become visible in
  program order. */
module RingProtocol {
  import opened Common
  import opened RingLayout
  import opened MessageHead
  import opened RingQueue

  /** Where the writer stands in ax_pcie_kfifo_in and send_data_to_shmem_buffer. */
  datatype Writer =
    | WIdle
    | WLoaded(m: Message, inn: nat)                    // wp loaded
    | WPayload(m: Message, inn: nat, out: nat, k: nat) // k payload bytes copied
    | WHead(m: Message, inn: nat, out: nat, k: nat)    // payload and k head bytes copied
    | WPublish(m: Message, next: nat)                  // in advanced, wp not yet written
    | WRefused(inn: nat)                               // no room; wp is written back unchanged

  /** Where the reader stands in ax_pcie_recv_irq_mem. */
  datatype Reader =
    | RIdle
    | RLoaded(out: nat)                                         // rp loaded
    | RHead(out: nat, inn: nat, bytes: seq<byte>)               // part of the head read
    | RPayload(out: nat, inn: nat, head: Head, got: seq<byte>)  // part of the payload read
    | RAdvance(next: nat)                                       // out advanced, rp not yet written
    | RBroken                                                   // the head check failed

  /** What the reader did with a message it consumed. */
  datatype Fate = Delivered(head: Head, payload: seq<byte>) | Skipped(head: Head)

  /** sent and log are history: the messages published so far, and what became of
      those consumed so far.  released counts the messages whose rp is published, and
      base is the buffer as the writer found it when it began to copy. */
  datatype State = State(
    size: FifoSize, buf: Buffer, wp: nat, rp: nat,
    w: Writer, r: Reader, open: set<Key>,
    sent: seq<Message>, log: seq<Fate>, released: nat, base: Buffer)

  ghost predicate Init(s: State) {
    && |s.buf| == s.size && s.wp == 0 && s.rp == 0
    && s.w.WIdle? && s.r.RIdle? && s.sent == [] && s.log == [] && s.released == 0
  }

  // ------------------------------------------------------------- writer steps

  ghost predicate WriterLoadsWp(s: State, t: State, m: Message) {
    s.w.WIdle? && t == s.(w := WLoaded(m, s.wp))
  }

  /** A bus error on either load abandons the attempt. */
  ghost predicate WriterBusError(s: State, t: State) {
    (s.w.WIdle? || s.w.WLoaded?) && t == s.(w := WIdle)
  }

  /** Loads rp, then decides: full, too little room, or go ahead. */
  ghost predicate WriterLoadsRp(s: State, t: State) {
    && s.w.WLoaded?
    && var used := s.w.inn - s.rp;
    && t == s.(w :=
      if used > s.size - 1 then WIdle
      else if Span(|s.w.m.payload|) > s.size - used then WRefused(s.w.inn)
      else WPayload(s.w.m, s.w.inn, s.rp, 0), base := s.buf)
  }

  ghost predicate WriterCopiesPayloadByte(s: State, t: State) {
    && s.w.WPayload? && s.w.k < |s.w.m.payload| && |s.buf| == s.size
    && var c := Start(s.size, s.w.inn) + HEAD_SIZE + s.w.k;
    && t == s.(buf := s.buf[Phys(s.size, c) := s.w.m.payload[s.w.k]], w := WPayload(s.w.m, s.w.inn, s.w.out, s.w.k + 1))
  }

  ghost predicate WriterTurnsToHead(s: State, t: State) {
    && s.w.WPayload? && s.w.k == |s.w.m.payload|
    && t == s.(w := WHead(s.w.m, s.w.inn, s.w.out, 0))
  }

  ghost predicate WriterCopiesHeadByte(s: State, t: State) {
    && s.w.WHead? && s.w.k < HEAD_SIZE && |s.buf| == s.size
    && var c := Start(s.size, s.w.inn) + s.w.k;
    && t == s.(buf := s.buf[Phys(s.size, c) := EncodeHead(s.w.m.head)[s.w.k]], w := WHead(s.w.m, s.w.inn, s.w.out, s.w.k + 1))
  }

  ghost predicate WriterAdvances(s: State, t: State) {
    && s.w.WHead? && s.w.k == HEAD_SIZE
    && t == s.(w := WPublish(s.w.m, Advance(s.size, s.w.inn, |s.w.m.payload|)))
  }

  ghost predicate WriterPublishes(s: State, t: State) {
    && s.w.WPublish?
    && t == s.(wp := s.w.next, w := WIdle, sent := s.sent + [s.w.m])
  }

  ghost predicate WriterRepublishes(s: State, t: State) {
    s.w.WRefused? && t == s.(wp := s.w.inn, w := WIdle)
  }

  // ------------------------------------------------------------- reader steps

  ghost predicate ReaderLoadsRp(s: State, t: State) {
    s.r.RIdle? && t == s.(r := RLoaded(s.rp))
  }

  ghost predicate ReaderBusError(s: State, t: State) {
    (s.r.RIdle? || s.r.RLoaded?) && t == s.(r := RIdle)
  }

  ghost predicate ReaderLoadsWp(s: State, t: State) {
    && s.r.RLoaded?
    && t == s.(r := if s.r.out == s.wp then RIdle else RHead(s.r.out, s.wp, []))
  }

  ghost predicate ReaderReadsHeadByte(s: State, t: State) {
    && s.r.RHead? && |s.r.bytes| < HEAD_SIZE && |s.buf| == s.size
    && var c := Start(s.size, s.r.out) + |s.r.bytes|;
    && t == s.(r := s.r.(bytes := s.r.bytes + [At(s.size, s.buf, c)]))
  }

  ghost predicate ReaderChecksHead(s: State, t: State) {
    && s.r.RHead? && |s.r.bytes| == HEAD_SIZE
    && var h := DecodeHead(s.r.bytes);
    && t == s.(r := if h.check == HEAD_CHECK_FINISHED then RPayload(s.r.out, s.r.inn, h, []) else RBroken)
  }

  /** The length __ax_pcie_kfifo_out copies: clamped to the bytes in the ring. */
  function CopyLen(head: Head, out: nat, inn: nat): int {
    if head.length + HEAD_SIZE > inn - out then inn - out else head.length
  }

  ghost predicate ReaderReadsPayloadByte(s: State, t: State) {
    && s.r.RPayload? && |s.r.got| < CopyLen(s.r.head, s.r.out, s.r.inn) && |s.buf| == s.size
    && KeyOf(s.r.head) in s.open
    && var c := Start(s.size, s.r.out) + HEAD_SIZE + |s.r.got|;
    && t == s.(r := s.r.(got := s.r.got + [At(s.size, s.buf, c)]))
  }

  /** The counter _update_read_pointer moves to. */
  ghost predicate ReaderNext(s: State, next: nat) {
    && s.r.RPayload? && s.r.head.length < SENDMEM_SIZE
    && next == Advance(s.size, s.r.out, s.r.head.length)
  }

  ghost predicate ReaderDelivers(s: State, t: State, next: nat) {
    && s.r.RPayload? && |s.r.got| == CopyLen(s.r.head, s.r.out, s.r.inn)
    && KeyOf(s.r.head) in s.open && ReaderNext(s, next)
    && t == s.(r := RAdvance(next), log := s.log + [Delivered(s.r.head, s.r.got)])
  }

  /** No receiver is registered for the message: it is passed over unread. */
  ghost predicate ReaderSkips(s: State, t: State, next: nat) {
    && s.r.RPayload? && s.r.got == [] && KeyOf(s.r.head) !in s.open && ReaderNext(s, next)
    && t == s.(r := RAdvance(next), log := s.log + [Skipped(s.r.head)])
  }

  /** The receiver refuses: the handler returns and the message stays in the ring. */
  ghost predicate ReaderNotifierFails(s: State, t: State) {
    s.r.RPayload? && t == s.(r := RIdle)
  }

  ghost predicate ReaderPublishes(s: State, t: State) {
    && s.r.RAdvance?
    && t == s.(rp := s.r.next, r := RIdle, released := s.released + 1)
  }

  // ------------------------------------------------------------- environment

  ghost predicate PortsChange(s: State, t: State) {
    t == s.(open := t.open)
  }

  ghost predicate WriterStep(s: State, t: State) {
    || (exists m :: WriterLoadsWp(s, t, m)) || WriterBusError(s, t) || WriterLoadsRp(s, t)
    || WriterCopiesPayloadByte(s, t) || WriterTurnsToHead(s, t) || WriterCopiesHeadByte(s, t)
    || WriterAdvances(s, t) || WriterPublishes(s, t) || WriterRepublishes(s, t)
  }

  ghost predicate ReaderStep(s: State, t: State) {
    || ReaderLoadsRp(s, t) || ReaderBusError(s, t) || ReaderLoadsWp(s, t)
    || ReaderReadsHeadByte(s, t) || ReaderChecksHead(s, t) || ReaderReadsPayloadByte(s, t)
    || (exists next :: ReaderDelivers(s, t, next)) || (exists next :: ReaderSkips(s, t, next))
    || ReaderNotifierFails(s, t) || ReaderPublishes(s, t)
  }

  ghost predicate Next(s: State, t: State) {
    WriterStep(s, t) || ReaderStep(s, t) || PortsChange(s, t)
  }

  ghost predicate StepTo(run: seq<State>, i: nat)
    requires 0 < i < |run|
  {
    Next(run[i - 1], run[i])
  }

  ghost predicate Run(run: seq<State>) {
    && |run| > 0 && Init(run[0])
    && forall i | 0 < i < |run| :: StepTo(run, i)
  }

  // --------------------------------------------------------------- invariant

  /** Bytes [lo, hi) of a record have been written at their counters. */
  ghost predicate Written(size: FifoSize, buf: Buffer, start: nat, rec: seq<byte>, lo: nat, hi: nat)
    requires |buf| == size && hi <= |rec|
  {
    forall c: nat | start + lo <= c < start + hi :: At(size, buf, c) == rec[c - start]
  }

  /** The writer passed the full and free-space tests against a possibly stale out. */
  ghost predicate Accepted(s: State, m: Message, inn: nat, out: nat) {
    inn == s.wp && out <= s.rp && inn + Span(|m.payload|) <= out + s.size
  }

  /** Outside the record being written the buffer is as the writer found it. */
  ghost predicate RestKept(s: State, m: Message) {
    && |s.buf| == |s.base| == s.size
    && var start := Start(s.size, s.wp);
    && SameOn(s.size, s.base, s.buf, start + |Record(m)|, start + s.size)
  }

  ghost predicate WriterInv(s: State)
    requires |s.buf| == s.size
  {
    match s.w
    case WIdle => true
    case WLoaded(m, inn) => inn == s.wp
    case WPayload(m, inn, out, k) =>
      && Accepted(s, m, inn, out) && k <= |m.payload| && RestKept(s, m)
      && Written(s.size, s.buf, Start(s.size, inn), Record(m), HEAD_SIZE, HEAD_SIZE + k)
    case WHead(m, inn, out, k) =>
      && Accepted(s, m, inn, out) && k <= HEAD_SIZE && RestKept(s, m)
      && Written(s.size, s.buf, Start(s.size, inn), Record(m), HEAD_SIZE, |Record(m)|)
      && Written(s.size, s.buf, Start(s.size, inn), Record(m), 0, k)
    case WPublish(m, next) =>
      && next == Advance(s.size, s.wp, |m.payload|) && RestKept(s, m)
      && Stored(s.size, s.buf, Start(s.size, s.wp), Record(m))
      && s.wp + Span(|m.payload|) <= s.rp + s.size
    case WRefused(inn) => inn == s.wp
  }

  function Unread(s: State): seq<Message>
    requires s.released <= |s.sent|
  {
    s.sent[s.released..]
  }

  /** The reader works on the first unread message and saw a wp beyond it. */
  ghost predicate AtFirst(s: State, out: nat, inn: nat)
    requires s.released <= |s.sent|
  {
    && out == s.rp && Unread(s) != []
    && Advance(s.size, out, |Unread(s)[0].payload|) <= inn
  }

  ghost predicate ReaderInv(s: State)
    requires s.released <= |s.sent|
  {
    match s.r
    case RIdle => true
    case RLoaded(out) => out == s.rp
    case RHead(out, inn, bytes) =>
      && AtFirst(s, out, inn) && bytes <= EncodeHead(Unread(s)[0].head)
    case RPayload(out, inn, head, got) =>
      && AtFirst(s, out, inn) && head == Unread(s)[0].head && got <= Unread(s)[0].payload
    case RAdvance(next) =>
      Unread(s) != [] && next == Advance(s.size, s.rp, |Unread(s)[0].payload|)
    case RBroken => false
  }

  /** A consumed message is the one that was sent, byte for byte. */
  ghost predicate Matches(f: Fate, m: Message) {
    f.head == m.head && (f.Delivered? ==> f.payload == m.payload)
  }

  ghost predicate LogInv(s: State) {
    && s.released <= |s.log| <= |s.sent|
    && |s.log| == s.released + (if s.r.RAdvance? then 1 else 0)
    && forall i | 0 <= i < |s.log| :: Matches(s.log[i], s.sent[i])
  }

  ghost predicate Inv(s: State) {
    && LogInv(s)
    && QueueInv(s.size, s.buf, s.rp, s.wp, Unread(s))
    && WriterInv(s)
    && ReaderInv(s)
  }

  // ------------------------------------------------------------ preservation

  /** The one arithmetic fact the protocol rests on: the bytes of an accepted record lie
      between wp and out + size, although wp may later run past that point. */
  lemma AcceptedFits(s: State, m: Message, inn: nat, out: nat)
    requires Inv(s) && Accepted(s, m, inn, out)
    ensures out <= s.rp <= s.wp <= Start(s.size, inn)
    ensures Start(s.size, inn) + |Record(m)| < out + s.size
    ensures |Record(m)| < s.size
  {
    EmptyIff(s.size, s.buf, s.rp, s.wp, Unread(s));
  }

  /** A write between wp and rp + size disturbs neither the queue nor the reader. */
  lemma WriteKeepsQueue(s: State, c: nat, b: byte)
    requires Inv(s) && s.wp <= c < s.rp + s.size
    ensures QueueInv(s.size, s.buf[Phys(s.size, c) := b], s.rp, s.wp, Unread(s))
  {
    EmptyIff(s.size, s.buf, s.rp, s.wp, Unread(s));
    WriteByte(s.size, s.buf, c, b, s.rp);
    QueueKept(s.size, s.buf, s.buf[Phys(s.size, c) := b], s.rp, s.wp, Unread(s));
  }

  /** Writing byte hi of a record extends what is written and keeps the rest of it. */
  lemma WriteExtends(size: FifoSize, buf: Buffer, start: nat, rec: seq<byte>, lo: nat, hi: nat)
    requires |buf| == size && lo <= hi < |rec| <= size
    requires Written(size, buf, start, rec, lo, hi)
    ensures Written(size, buf[Phys(size, start + hi) := rec[hi]], start, rec, lo, hi + 1)
    ensures forall a: nat, b: nat | a <= b <= |rec| && (b <= hi || hi < a) && Written(size, buf, start, rec, a, b) ::
              Written(size, buf[Phys(size, start + hi) := rec[hi]], start, rec, a, b)
    ensures SameOn(size, buf, buf[Phys(size, start + hi) := rec[hi]], start + |rec|, start + size)
  {
    WriteByte(size, buf, start + hi, rec[hi], start);
  }

  /** A step of the writer before it publishes concerns only the writer and the queue. */
  lemma WriterMoves(s: State, t: State)
    requires Inv(s) && t == s.(w := t.w, buf := t.buf, base := t.base)
    requires QueueInv(t.size, t.buf, t.rp, t.wp, Unread(t)) && WriterInv(t)
    ensures Inv(t)
  {
    assert LogInv(t) && ReaderInv(t);
  }

  /** A step of the reader before it consumes concerns only the reader. */
  lemma ReaderMoves(s: State, t: State)
    requires Inv(s) && t == s.(r := t.r) && !s.r.RAdvance? && !t.r.RAdvance? && ReaderInv(t)
    ensures Inv(t)
  {
    assert LogInv(t) && WriterInv(t);
  }

  lemma PayloadByteKeepsQueue(s: State, t: State)
    requires Inv(s) && WriterCopiesPayloadByte(s, t)
    ensures QueueInv(t.size, t.buf, t.rp, t.wp, Unread(t))
  {
    AcceptedFits(s, s.w.m, s.w.inn, s.w.out);
    WriteKeepsQueue(s, Start(s.size, s.w.inn) + HEAD_SIZE + s.w.k, s.w.m.payload[s.w.k]);
  }

  lemma PayloadByteKeepsWriter(s: State, t: State)
    requires Inv(s) && WriterCopiesPayloadByte(s, t)
    ensures |t.buf| == t.size && WriterInv(t)
  {
    var m, start, hi := s.w.m, Start(s.size, s.w.inn), HEAD_SIZE + s.w.k;
    AcceptedFits(s, m, s.w.inn, s.w.out);
    assert Record(m)[HEAD_SIZE..][s.w.k] == Record(m)[hi];
    WriteExtends(s.size, s.buf, start, Record(m), HEAD_SIZE, hi);
    assert t.buf == s.buf[Phys(s.size, start + hi) := Record(m)[hi]];
  }

  lemma PayloadByteKeepsInv(s: State, t: State)
    requires Inv(s) && WriterCopiesPayloadByte(s, t)
    ensures Inv(t)
  {
    PayloadByteKeepsQueue(s, t);
    PayloadByteKeepsWriter(s, t);
    WriterMoves(s, t);
  }

  lemma HeadByteKeepsQueue(s: State, t: State)
    requires Inv(s) && WriterCopiesHeadByte(s, t)
    ensures QueueInv(t.size, t.buf, t.rp, t.wp, Unread(t))
  {
    AcceptedFits(s, s.w.m, s.w.inn, s.w.out);
    var c, b := Start(s.size, s.w.inn) + s.w.k, EncodeHead(s.w.m.head)[s.w.k];
    assert t.buf == s.buf[Phys(s.size, c) := b] && Unread(t) == Unread(s);
    WriteKeepsQueue(s, c, b);
  }

  lemma HeadByteKeepsWriter(s: State, t: State)
    requires Inv(s) && WriterCopiesHeadByte(s, t)
    ensures |t.buf| == t.size && WriterInv(t)
  {
    var m, start, hi := s.w.m, Start(s.size, s.w.inn), s.w.k;
    AcceptedFits(s, m, s.w.inn, s.w.out);
    assert Record(m)[..HEAD_SIZE][hi] == Record(m)[hi];
    WriteExtends(s.size, s.buf, start, Record(m), 0, hi);
    assert t.buf == s.buf[Phys(s.size, start + hi) := Record(m)[hi]];
  }

  lemma HeadByteKeepsInv(s: State, t: State)
    requires Inv(s) && WriterCopiesHeadByte(s, t)
    ensures Inv(t)
  {
    HeadByteKeepsQueue(s, t);
    HeadByteKeepsWriter(s, t);
    WriterMoves(s, t);
  }

  lemma PublishKeepsInv(s: State, t: State)
    requires Inv(s) && WriterPublishes(s, t)
    ensures Inv(t)
  {
    assert Unread(t) == Unread(s) + [s.w.m];
    QueuePush(s.size, s.buf, s.rp, s.wp, Unread(s), s.w.m);
    forall i | 0 <= i < |t.log|
      ensures Matches(t.log[i], t.sent[i])
    {
      assert Matches(s.log[i], s.sent[i]);
    }
    EmptyIff(s.size, s.buf, s.rp, s.wp, Unread(s));
  }

  lemma AdvanceKeepsInv(s: State, t: State)
    requires Inv(s) && WriterAdvances(s, t)
    ensures Inv(t)
  {
    AcceptedFits(s, s.w.m, s.w.inn, s.w.out);
    assert Stored(s.size, s.buf, Start(s.size, s.wp), Record(s.w.m));
  }

  lemma WriterDecidesKeepsInv(s: State, t: State)
    requires Inv(s)
    requires (exists m :: WriterLoadsWp(s, t, m)) || WriterBusError(s, t) || WriterLoadsRp(s, t)
          || WriterTurnsToHead(s, t) || WriterRepublishes(s, t)
    ensures Inv(t)
  {
    EmptyIff(s.size, s.buf, s.rp, s.wp, Unread(s));
    WriterMoves(s, t);
  }

  lemma WriterKeepsInv(s: State, t: State)
    requires Inv(s) && WriterStep(s, t)
    ensures Inv(t)
  {
    if WriterCopiesPayloadByte(s, t) {
      PayloadByteKeepsInv(s, t);
    } else if WriterCopiesHeadByte(s, t) {
      HeadByteKeepsInv(s, t);
    } else if WriterAdvances(s, t) {
      AdvanceKeepsInv(s, t);
    } else if WriterPublishes(s, t) {
      PublishKeepsInv(s, t);
    } else {
      WriterDecidesKeepsInv(s, t);
    }
  }

  /** The record of the first unread message, as the reader finds it. */
  lemma FirstRecord(s: State)
    requires Inv(s) && Unread(s) != []
    ensures Stored(s.size, s.buf, Start(s.size, s.rp), Record(Unread(s)[0]))
  {
    assert Holds(s.size, s.buf, s.rp, Unread(s), 0);
    assert Pos(s.size, s.rp, Unread(s), 0) == s.rp;
  }

  lemma HeadReadKeepsReader(s: State, t: State)
    requires Inv(s) && ReaderReadsHeadByte(s, t)
    ensures t.released <= |t.sent| && ReaderInv(t)
  {
    FirstRecord(s);
    var m := Unread(s)[0];
    assert Record(m)[..HEAD_SIZE][|s.r.bytes|] == EncodeHead(m.head)[|s.r.bytes|];
  }

  lemma HeadReadKeepsInv(s: State, t: State)
    requires Inv(s) && ReaderReadsHeadByte(s, t)
    ensures Inv(t)
  {
    HeadReadKeepsReader(s, t);
    ReaderMoves(s, t);
  }

  lemma PayloadReadKeepsInv(s: State, t: State)
    requires Inv(s) && ReaderReadsPayloadByte(s, t)
    ensures Inv(t)
  {
    FirstRecord(s);
    var m := Unread(s)[0];
    assert Record(m)[HEAD_SIZE..][|s.r.got|] == m.payload[|s.r.got|];
    ReaderMoves(s, t);
  }

  /** The failure path of read_data_head cannot be taken. */
  lemma HeadCheckKeepsInv(s: State, t: State)
    requires Inv(s) && ReaderChecksHead(s, t)
    ensures Inv(t) && t.r.RPayload?
  {
    HeadRoundTrip(Unread(s)[0].head);
    assert s.r.bytes == EncodeHead(Unread(s)[0].head);
    ReaderMoves(s, t);
  }

  lemma ConsumeKeepsLog(s: State, t: State, next: nat)
    requires Inv(s) && (ReaderDelivers(s, t, next) || ReaderSkips(s, t, next))
    ensures LogInv(t)
  {
    var m := Unread(s)[0];
    assert m == s.sent[|s.log|];
    if ReaderDelivers(s, t, next) {
      assert s.r.got == m.payload;
    }
    forall i | 0 <= i < |t.log|
      ensures Matches(t.log[i], t.sent[i])
    {
      if i < |s.log| { assert Matches(s.log[i], s.sent[i]); }
    }
  }

  lemma ConsumeKeepsInv(s: State, t: State, next: nat)
    requires Inv(s) && (ReaderDelivers(s, t, next) || ReaderSkips(s, t, next))
    ensures Inv(t)
  {
    ConsumeKeepsLog(s, t, next);
    assert Unread(t) == Unread(s);
    assert WriterInv(t) && ReaderInv(t);
  }

  lemma ReleaseKeepsQueue(s: State, t: State)
    requires Inv(s) && ReaderPublishes(s, t)
    ensures t.released <= |t.sent| && QueueInv(t.size, t.buf, t.rp, t.wp, Unread(t)) && s.rp <= t.rp
  {
    QueuePop(s.size, s.buf, s.rp, s.wp, Unread(s));
    assert Unread(t) == Unread(s)[1..];
  }

  lemma ReleaseKeepsInv(s: State, t: State)
    requires Inv(s) && ReaderPublishes(s, t)
    ensures Inv(t)
  {
    ReleaseKeepsQueue(s, t);
    assert LogInv(t);
    assert ReaderInv(t);
    assert WriterInv(t);
  }

  lemma LoadKeepsInv(s: State, t: State)
    requires Inv(s)
    requires ReaderLoadsRp(s, t) || ReaderBusError(s, t) || ReaderLoadsWp(s, t) || ReaderNotifierFails(s, t)
    ensures Inv(t)
  {
    EmptyIff(s.size, s.buf, s.rp, s.wp, Unread(s));
    ReaderMoves(s, t);
  }

  lemma ReaderKeepsInv(s: State, t: State)
    requires Inv(s) && ReaderStep(s, t)
    ensures Inv(t)
  {
    if ReaderReadsHeadByte(s, t) {
      HeadReadKeepsInv(s, t);
    } else if ReaderChecksHead(s, t) {
      HeadCheckKeepsInv(s, t);
    } else if ReaderReadsPayloadByte(s, t) {
      PayloadReadKeepsInv(s, t);
    } else if next :| ReaderDelivers(s, t, next) {
      ConsumeKeepsInv(s, t, next);
    } else if next :| ReaderSkips(s, t, next) {
      ConsumeKeepsInv(s, t, next);
    } else if ReaderPublishes(s, t) {
      ReleaseKeepsInv(s, t);
    } else {
      LoadKeepsInv(s, t);
    }
  }

  lemma PortsKeepInv(s: State, t: State)
    requires Inv(s) && PortsChange(s, t)
    ensures Inv(t)
  {
    assert Unread(t) == Unread(s);
    assert WriterInv(t) && ReaderInv(t);
  }

  lemma NextKeepsInv(s: State, t: State)
    requires Inv(s) && Next(s, t)
    ensures Inv(t)
  {
    if WriterStep(s, t) {
      WriterKeepsInv(s, t);
    } else if ReaderStep(s, t) {
      ReaderKeepsInv(s, t);
    } else {
      PortsKeepInv(s, t);
    }
  }

  lemma {:induction false} RunInv(run: seq<State>, i: nat)
    requires Run(run) && i < |run|
    ensures Inv(run[i])
  {
    if i > 0 {
      RunInv(run, i - 1);
      assert StepTo(run, i);
      NextKeepsInv(run[i - 1], run[i]);
    }
  }

  // ------------------------------------------------------------ main results

  /** What every state of every run satisfies: the consumed messages are a prefix of
      those sent, byte for byte; the head check never fails; in - out stays within
      size + 23 while the unread bytes end within one lap; the copy length is never
      clamped. */
  lemma RunSafety(run: seq<State>, i: nat)
    requires Run(run) && i < |run|
    ensures var s := run[i];
            && |s.log| <= |s.sent|
            && (forall j | 0 <= j < |s.log| :: Matches(s.log[j], s.sent[j]))
            && !s.r.RBroken?
            && s.rp <= s.wp <= s.rp + s.size + HEAD_SIZE - 1
            && (s.r.RPayload? ==> CopyLen(s.r.head, s.r.out, s.r.inn) == s.r.head.length)
  {
    RunInv(run, i);
    var s := run[i];
    EmptyIff(s.size, s.buf, s.rp, s.wp, Unread(s));
  }

  lemma ByteMissesUnread(s: State, c: nat, b: byte)
    requires Inv(s) && s.wp <= c < s.rp + s.size
    ensures SameOn(s.size, s.buf, s.buf[Phys(s.size, c) := b], s.rp, s.wp)
  {
    EmptyIff(s.size, s.buf, s.rp, s.wp, Unread(s));
    WriteByte(s.size, s.buf, c, b, s.rp);
  }

  lemma OnlyCopiesWrite(s: State, t: State)
    requires Next(s, t) && s.buf != t.buf
    ensures WriterCopiesPayloadByte(s, t) || WriterCopiesHeadByte(s, t)
  {
  }

  lemma PayloadByteMissesUnread(s: State, t: State)
    requires Inv(s) && WriterCopiesPayloadByte(s, t)
    ensures SameOn(s.size, s.buf, t.buf, s.rp, s.wp)
  {
    AcceptedFits(s, s.w.m, s.w.inn, s.w.out);
    ByteMissesUnread(s, Start(s.size, s.w.inn) + HEAD_SIZE + s.w.k, s.w.m.payload[s.w.k]);
  }

  lemma HeadByteMissesUnread(s: State, t: State)
    requires Inv(s) && WriterCopiesHeadByte(s, t)
    ensures SameOn(s.size, s.buf, t.buf, s.rp, s.wp)
  {
    AcceptedFits(s, s.w.m, s.w.inn, s.w.out);
    ByteMissesUnread(s, Start(s.size, s.w.inn) + s.w.k, EncodeHead(s.w.m.head)[s.w.k]);
  }

  /** No write touches a byte of a message that is still in the ring: each step leaves
      every counter between rp and wp as it was.  The number of used bytes the writer
      computes is never negative, and what it writes ends before its stale out + size. */
  lemma WritesMissUnread(run: seq<State>, i: nat)
    requires Run(run) && i + 1 < |run|
    ensures var s, t := run[i], run[i + 1];
            && |s.buf| == s.size == |t.buf|
            && SameOn(s.size, s.buf, t.buf, s.rp, s.wp)
            && (s.w.WLoaded? ==> 0 <= s.w.inn - s.rp)
            && (s.w.WPayload? || s.w.WHead? ==>
                  && s.w.out <= s.rp && 0 <= s.w.inn - s.w.out < s.size
                  && Start(s.size, s.w.inn) + |Record(s.w.m)| < s.w.out + s.size)
  {
    RunInv(run, i);
    var s, t := run[i], run[i + 1];
    assert StepTo(run, i + 1);
    EmptyIff(s.size, s.buf, s.rp, s.wp, Unread(s));
    if WriterCopiesPayloadByte(s, t) {
      PayloadByteMissesUnread(s, t);
    } else if WriterCopiesHeadByte(s, t) {
      HeadByteMissesUnread(s, t);
    } else if s.buf != t.buf {
      OnlyCopiesWrite(s, t);
    }
    if s.w.WPayload? || s.w.WHead? {
      AcceptedFits(s, s.w.m, s.w.inn, s.w.out);
    }
  }

  /** When the writer is about to publish, the memory is exactly what one undisturbed
      call of the chunked copy would have made of the buffer it started from. */
  lemma CopiedAsOneCall(run: seq<State>, i: nat, b: Buffer)
    requires Run(run) && i < |run| && run[i].w.WPublish?
    requires var s := run[i]; var m, start := s.w.m, Start(s.size, s.wp);
             && |b| == |s.base| == s.size
             && Stored(s.size, b, start, Record(m))
             && SameOn(s.size, s.base, b, start + |Record(m)|, start + s.size)
    ensures run[i].buf == b
  {
    RunInv(run, i);
    var s := run[i];
    EmptyIff(s.size, s.buf, s.rp, s.wp, Unread(s));
    WrittenBufferUnique(s.size, s.base, s.buf, b, Start(s.size, s.wp), Record(s.w.m));
  }

  // --------------------------------------------------------- order per port

  /** The payloads queued at one receiver, in order. */
  function PortQueue(log: seq<Fate>, k: Key): seq<seq<byte>> {
    if log == [] then [] else
    var f := log[|log| - 1];
    PortQueue(log[..|log| - 1], k) + (if f.Delivered? && KeyOf(f.head) == k then [f.payload] else [])
  }

  ghost predicate NeverSkipped(log: seq<Fate>, k: Key) {
    forall i | 0 <= i < |log| :: log[i].Skipped? ==> KeyOf(log[i].head) != k
  }

  lemma {:induction false} QueueIsSent(log: seq<Fate>, sent: seq<Message>, k: Key)
    requires |log| == |sent| && NeverSkipped(log, k)
    requires forall i | 0 <= i < |log| :: Matches(log[i], sent[i])
    ensures PortQueue(log, k) == PortSent(sent, k)
  {
    if log != [] {
      var n := |log| - 1;
      assert NeverSkipped(log[..n], k) by {
        forall i | 0 <= i < n ensures log[..n][i].Skipped? ==> KeyOf(log[..n][i].head) != k {
          assert log[..n][i] == log[i];
        }
      }
      forall i | 0 <= i < n ensures Matches(log[..n][i], sent[..n][i]) {
        assert Matches(log[i], sent[i]);
      }
      QueueIsSent(log[..n], sent[..n], k);
      assert Matches(log[n], sent[n]);
    }
  }

  lemma LogStep(run: seq<State>, i: nat, k: Key) returns (f: seq<Fate>)
    requires Run(run) && 0 < i < |run| && k in run[i - 1].open
    ensures run[i].log == run[i - 1].log + f && NeverSkipped(f, k)
  {
    var s, t := run[i - 1], run[i];
    assert StepTo(run, i);
    if next :| ReaderSkips(s, t, next) {
      f := [Skipped(s.r.head)];
    } else if next :| ReaderDelivers(s, t, next) {
      f := [Delivered(s.r.head, s.r.got)];
    } else {
      f := [];
    }
  }

  lemma LogGrows(base: seq<Fate>, log: seq<Fate>, f: seq<Fate>, k: Key)
    requires base <= log && NeverSkipped(log[|base|..], k) && NeverSkipped(f, k)
    ensures base <= log + f && NeverSkipped((log + f)[|base|..], k)
  {
    assert (log + f)[|base|..] == log[|base|..] + f;
  }

  /** The log only grows, and what it grows by while k is open passes over nothing for k. */
  lemma {:induction false} OpenNeverSkipped(run: seq<State>, a: nat, i: nat, k: Key)
    requires Run(run) && a <= i < |run|
    requires forall j | a <= j <= i :: k in run[j].open
    ensures run[a].log <= run[i].log
    ensures NeverSkipped(run[i].log[|run[a].log|..], k)
  {
    if a < i {
      OpenNeverSkipped(run, a, i - 1, k);
      var f := LogStep(run, i, k);
      LogGrows(run[a].log, run[i - 1].log, f, k);
    }
  }

  /** While a port is open it gets exactly the messages sent to it, in order, from the first
      one the reader had not consumed when it opened up to the point the reader has reached. */
  lemma PortOrderWhileOpen(run: seq<State>, a: nat, i: nat, k: Key)
    requires Run(run) && a <= i < |run|
    requires forall j | a <= j <= i :: k in run[j].open
    ensures |run[a].log| <= |run[i].log| <= |run[i].sent|
    ensures var n := |run[a].log|;
      PortQueue(run[i].log[n..], k) == PortSent(run[i].sent[n..|run[i].log|], k)
  {
    RunInv(run, i);
    OpenNeverSkipped(run, a, i, k);
    var s, n := run[i], |run[a].log|;
    var log, sent := s.log[n..], s.sent[n..|s.log|];
    forall j | 0 <= j < |log| ensures Matches(log[j], sent[j]) {
      assert Matches(s.log[n + j], s.sent[n + j]);
    }
    QueueIsSent(log, sent, k);
  }

  /** A port that is open from the start gets exactly the messages sent to it so far. */
  lemma PortOrder(run: seq<State>, i: nat, k: Key)
    requires Run(run) && i < |run|
    requires forall j | 0 <= j <= i :: k in run[j].open
    ensures |run[i].log| <= |run[i].sent|
    ensures PortQueue(run[i].log, k) == PortSent(run[i].sent[..|run[i].log|], k)
  {
    PortOrderWhileOpen(run, 0, i, k);
    assert run[0].log == [] && run[i].log[0..] == run[i].log;
    assert run[i].sent[0..|run[i].log|] == run[i].sent[..|run[i].log|];
  }

  /** A refused notification leaves the ring, and the message at its head, as they were. */
  lemma FailedNotifyKeepsMessage(run: seq<State>, i: nat)
    requires Run(run) && i + 1 < |run| && ReaderNotifierFails(run[i], run[i + 1])
    ensures run[i].released < |run[i].sent| && run[i + 1].released == run[i].released
    ensures var s, t := run[i], run[i + 1];
            Unread(t) == Unread(s) != [] && s.r.head == Unread(t)[0].head
            && t.buf == s.buf && t.rp == s.rp && t.log == s.log
  {
    RunInv(run, i);
  }
}
