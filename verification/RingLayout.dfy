/** How the byte ring of ax_pcie_msg_transfer.c lays records out.

  Both sides count bytes with counters that only grow.  Counter c names the byte
  c % size of the shared buffer.  A record (24-byte head, then payload) starts at
  the counter itself, unless fewer than 24 bytes are left before the end of the
  buffer, in which case it starts at the top of the buffer.  After a record the
  counter moves on by the record padded by at least 33 bytes. */
module RingLayout {

  const HEAD_SIZE: nat := 24
  const MEM_ALIGN: nat := 32
  const HEAD_CHECK_FINISHED: nat := 0xA65
  const SENDMEM_SIZE: nat := 384 * 1024
  const TWO_32: nat := 0x1_0000_0000

  /** ax_pcie_kfifo_init refuses sizes below 2 and stores the size in 32 bits. */
  type FifoSize = n: nat | 2 <= n < TWO_32 witness 2

  /** ax_pcie_msg_send rejects anything longer. */
  type MsgLen = n: nat | n < SENDMEM_SIZE

  // ---------------------------------------------------------------- counters

  /** c % size, taken one lap at a time (PhysIsMod). */
  function Phys(size: FifoSize, c: nat): (p: nat)
    ensures p < size
  {
    if c < size then c else Phys(size, c - size)
  }

  /** The bytes left before the end of the buffer at counter c. */
  function ToEnd(size: FifoSize, c: nat): (n: nat)
    ensures 1 <= n <= size
  {
    size - Phys(size, c)
  }

  /** Bytes skipped at the bottom of the buffer when a head does not fit there. */
  function Skip(size: FifoSize, c: nat): (n: nat)
    ensures n < HEAD_SIZE
  {
    if ToEnd(size, c) < HEAD_SIZE then ToEnd(size, c) else 0
  }

  /** The counter of the first head byte. */
  function Start(size: FifoSize, c: nat): (s: nat)
    ensures c <= s < c + HEAD_SIZE
  {
    c + Skip(size, c)
  }

  function FixLen(len: MsgLen): (fix: nat)
    ensures MEM_ALIGN < fix <= 2 * MEM_ALIGN
  {
    MEM_ALIGN + MEM_ALIGN - (len + HEAD_SIZE) % 32
  }

  /** next_wp and next_rp: the padded length of a record. */
  function Span(len: MsgLen): (n: nat)
    ensures len + HEAD_SIZE + MEM_ALIGN < n <= len + HEAD_SIZE + 2 * MEM_ALIGN < TWO_32
  {
    len + FixLen(len) + HEAD_SIZE
  }

  lemma SpanAligned(len: MsgLen)
    ensures Span(len) % 32 == 0
  {
  }

  function Advance(size: FifoSize, c: nat, len: MsgLen): (n: nat)
    ensures Start(size, c) + HEAD_SIZE + len + MEM_ALIGN < n
    ensures n <= c + Span(len) + HEAD_SIZE - 1
  {
    Start(size, c) + Span(len)
  }

  // ------------------------------------------------------------- facts

  lemma {:induction false} PhysIsMod(size: FifoSize, c: nat)
    ensures Phys(size, c) == c % size
    decreases c
  {
    if c >= size {
      PhysIsMod(size, c - size);
      OneLap(size, c);
    }
  }

  lemma OneLap(size: FifoSize, c: nat)
    requires c >= size
    ensures c % size == (c - size) % size
  {
    var q, r := (c - size) / size, (c - size) % size;
    var d := c / size - (q + 1);
    assert c - size == q * size + r && c == c / size * size + c % size;
    assert (q + 1) * size == q * size + size && c / size * size == (q + 1) * size + d * size;
    LapMonotone(size, d);
  }

  lemma LapMonotone(size: FifoSize, k: int)
    ensures k >= 1 ==> k * size >= size
    ensures k <= -1 ==> k * size <= 0 - size
  {
  }

  /** Counters closer than one lap name different bytes. */
  lemma {:induction false} PhysDistinct(size: FifoSize, a: nat, b: nat)
    requires a < b < a + size
    ensures Phys(size, a) != Phys(size, b)
    decreases a
  {
    if a >= size {
      PhysDistinct(size, a - size, b - size);
    }
  }

  /** Where the i-th byte after counter c lies: wrapped at most once within a lap. */
  lemma {:induction false} PhysOffset(size: FifoSize, c: nat, i: nat)
    requires i <= size
    ensures Phys(size, c + i)
         == if i < ToEnd(size, c) then Phys(size, c) + i else i - ToEnd(size, c)
    decreases c
  {
    if c >= size {
      PhysOffset(size, c - size, i);
    }
  }

  /** A record's start is the counter or the top of the buffer, and when the head
      fits in the buffer at all it is contiguous. */
  lemma StartPlace(size: FifoSize, c: nat)
    ensures Phys(size, Start(size, c)) == if ToEnd(size, c) < HEAD_SIZE then 0 else Phys(size, c)
    ensures HEAD_SIZE <= size ==> ToEnd(size, Start(size, c)) >= HEAD_SIZE
  {
    PhysOffset(size, c, Skip(size, c));
  }

  /** Every physical byte has exactly one counter in any lap. */
  lemma CounterOf(size: FifoSize, base: nat, p: nat) returns (c: nat)
    requires p < size
    ensures base <= c < base + size && Phys(size, c) == p
  {
    var i := if Phys(size, base) <= p then p - Phys(size, base) else ToEnd(size, base) + p;
    c := base + i;
    PhysOffset(size, base, i);
  }

  // ------------------------------------------------- aligned sizes never jump

  lemma {:induction false} Mod32Of(size: FifoSize, c: nat)
    requires size % 32 == 0 && c % 32 == 0
    ensures Phys(size, c) % 32 == 0
    decreases c
  {
    if c >= size {
      Mod32Of(size, c - size);
    }
  }

  /** When 32 divides the size the counters stay multiples of 32 and the head
      always fits: the jump to the top is dead code. */
  lemma AlignedNeverJumps(size: FifoSize, c: nat, len: MsgLen)
    requires size % 32 == 0 && c % 32 == 0
    ensures Skip(size, c) == 0
    ensures Advance(size, c, len) % 32 == 0
  {
    AlignedNeverSkips(size, c);
    SpanAligned(len);
    AlignedSum(c, Span(len));
  }

  lemma AlignedNeverSkips(size: FifoSize, c: nat)
    requires size % 32 == 0 && c % 32 == 0
    ensures Skip(size, c) == 0
  {
    Mod32Of(size, c);
    AlignedGap(size, Phys(size, c));
  }

  lemma AlignedGap(a: nat, b: nat)
    requires a % 32 == 0 && b % 32 == 0 && b < a
    ensures a - b >= 32
  {
  }

  lemma AlignedSum(a: nat, b: nat)
    requires a % 32 == 0 && b % 32 == 0
    ensures (a + b) % 32 == 0
  {
  }
}
