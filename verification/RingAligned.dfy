/** Rings whose size is a multiple of 32: in no run does either side ever jump to the top. */
module RingAligned {
  import opened RingLayout
  import opened MessageHead
  import opened RingProtocol

  /** The counters the writer holds privately. */
  function WriterCounters(w: Writer): set<nat> {
    match w
    case WIdle => {}
    case WLoaded(_, inn) => {inn}
    case WPayload(_, inn, out, _) => {inn, out}
    case WHead(_, inn, out, _) => {inn, out}
    case WPublish(_, next) => {next}
    case WRefused(inn) => {inn}
  }

  function ReaderCounters(r: Reader): set<nat> {
    match r
    case RIdle => {}
    case RLoaded(out) => {out}
    case RHead(out, inn, _) => {out, inn}
    case RPayload(out, inn, _, _) => {out, inn}
    case RAdvance(next) => {next}
    case RBroken => {}
  }

  predicate Multiple(c: nat) { c % 32 == 0 }

  ghost predicate AllAligned(s: State) {
    && Multiple(s.wp) && Multiple(s.rp)
    && (forall c | c in WriterCounters(s.w) :: Multiple(c))
    && forall c | c in ReaderCounters(s.r) :: Multiple(c)
  }

  lemma AdvanceAligned(size: FifoSize, c: nat, len: MsgLen)
    requires Multiple(size) && Multiple(c)
    ensures Multiple(Advance(size, c, len))
  {
    AlignedNeverJumps(size, c, len);
  }

  lemma WriterStaysAligned(s: State, t: State)
    requires Multiple(s.size) && AllAligned(s) && WriterStep(s, t)
    ensures t.size == s.size && AllAligned(t)
  {
    if WriterAdvances(s, t) {
      AdvanceAligned(s.size, s.w.inn, |s.w.m.payload|);
    }
  }

  lemma ConsumeStaysAligned(s: State, t: State, next: nat)
    requires Multiple(s.size) && AllAligned(s) && (ReaderDelivers(s, t, next) || ReaderSkips(s, t, next))
    ensures t.size == s.size && AllAligned(t)
  {
    assert s.r.out in ReaderCounters(s.r);
    AdvanceAligned(s.size, s.r.out, s.r.head.length);
  }

  lemma ReaderStaysAligned(s: State, t: State)
    requires Multiple(s.size) && AllAligned(s) && ReaderStep(s, t)
    ensures t.size == s.size && AllAligned(t)
  {
    if next :| ReaderDelivers(s, t, next) {
      ConsumeStaysAligned(s, t, next);
    } else if next :| ReaderSkips(s, t, next) {
      ConsumeStaysAligned(s, t, next);
    }
  }

  lemma {:induction false} RunAligned(run: seq<State>, i: nat)
    requires Run(run) && i < |run| && Multiple(run[0].size)
    ensures run[i].size == run[0].size && AllAligned(run[i])
  {
    if i > 0 {
      RunAligned(run, i - 1);
      var s, t := run[i - 1], run[i];
      assert StepTo(run, i);
      if WriterStep(s, t) {
        WriterStaysAligned(s, t);
      } else if ReaderStep(s, t) {
        ReaderStaysAligned(s, t);
      }
    }
  }

  /** In every state of every run the published counters and every private copy of one are
      multiples of 32, and at none of them is a head too long for what is left of the buffer:
      neither jump branch is ever taken. */
  lemma NeverJumps(run: seq<State>, i: nat)
    requires Run(run) && i < |run| && Multiple(run[0].size)
    ensures var s := run[i];
      forall c | c in {s.wp, s.rp} + WriterCounters(s.w) + ReaderCounters(s.r) ::
        Multiple(c) && Skip(s.size, c) == 0 && ToEnd(s.size, c) >= HEAD_SIZE
  {
    RunAligned(run, i);
    var s := run[i];
    forall c | c in {s.wp, s.rp} + WriterCounters(s.w) + ReaderCounters(s.r)
      ensures Multiple(c) && Skip(s.size, c) == 0
    {
      AlignedNeverSkips(s.size, c);
    }
  }
}
