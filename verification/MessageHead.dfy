/** The 24-byte head in front of every payload: six little-endian 32-bit words. */
module MessageHead {
  import opened Common
  import opened RingLayout

  type u32 = x: int | 0 <= x < TWO_32

  datatype Head = Head(targetId: u32, slot: u32, port: u32, magic: u32, length: u32, check: u32)

  /** A message as it is handed to the ring: the head ax_pcie_send_message fills in
      always carries the payload length and the check word. */
  datatype RawMessage = RawMessage(head: Head, payload: seq<byte>)
  {
    predicate WellFormed() {
      && |payload| < SENDMEM_SIZE
      && head.length == |payload|
      && head.check == HEAD_CHECK_FINISHED
    }
  }

  type Message = m: RawMessage | m.WellFormed()
    witness RawMessage(Head(0, 0, 0, 0, 0, HEAD_CHECK_FINISHED), [])

  /** The head ax_pcie_send_message builds for a handle. */
  function MakeMessage(targetId: u32, port: u32, localSlot: u32, payload: seq<byte>): (m: Message)
    requires |payload| < SENDMEM_SIZE
    ensures m.payload == payload
    ensures m.head.targetId == targetId && m.head.port == port && m.head.slot == localSlot
    ensures m.head.length == |payload| && m.head.check == 0xA65 && m.head.magic == 0
  {
    RawMessage(Head(targetId, localSlot, port, 0, |payload|, HEAD_CHECK_FINISHED), payload)
  }

  function EncodeWord(x: u32): (b: seq<byte>)
    ensures |b| == 4
  {
    [x % 256, x / 0x100 % 256, x / 0x1_0000 % 256, x / 0x100_0000 % 256]
  }

  function DecodeWord(b: seq<byte>): u32
    requires |b| == 4
  {
    (b[0] as int) + 0x100 * (b[1] as int) + 0x1_0000 * (b[2] as int) + 0x100_0000 * (b[3] as int)
  }

  lemma WordRoundTrip(x: u32)
    ensures DecodeWord(EncodeWord(x)) == x
  {
    var q := x / 0x100;
    var r := q / 0x100;
    assert x / 0x1_0000 == r && x / 0x100_0000 == r / 0x100;
  }

  function EncodeHead(h: Head): (b: seq<byte>)
    ensures |b| == HEAD_SIZE
  {
    EncodeWord(h.targetId) + EncodeWord(h.slot) + EncodeWord(h.port) +
    EncodeWord(h.magic) + EncodeWord(h.length) + EncodeWord(h.check)
  }

  function DecodeHead(b: seq<byte>): Head
    requires |b| == HEAD_SIZE
  {
    Head(DecodeWord(b[0..4]), DecodeWord(b[4..8]), DecodeWord(b[8..12]),
         DecodeWord(b[12..16]), DecodeWord(b[16..20]), DecodeWord(b[20..24]))
  }

  lemma HeadRoundTrip(h: Head)
    ensures DecodeHead(EncodeHead(h)) == h
  {
    var b := EncodeHead(h);
    assert b[0..4] == EncodeWord(h.targetId) && b[4..8] == EncodeWord(h.slot);
    assert b[8..12] == EncodeWord(h.port) && b[12..16] == EncodeWord(h.magic);
    assert b[16..20] == EncodeWord(h.length) && b[20..24] == EncodeWord(h.check);
    WordRoundTrip(h.targetId); WordRoundTrip(h.slot); WordRoundTrip(h.port);
    WordRoundTrip(h.magic); WordRoundTrip(h.length); WordRoundTrip(h.check);
  }

  /** Where each field lies, least significant byte first. */
  lemma HeadLayout(h: Head)
    ensures var b := EncodeHead(h);
      && WordAt(b, 0, h.targetId) && WordAt(b, 4, h.slot) && WordAt(b, 8, h.port)
      && WordAt(b, 12, h.magic) && WordAt(b, 16, h.length) && WordAt(b, 20, h.check)
  {
    WordBytes(h.targetId); WordBytes(h.slot); WordBytes(h.port);
    WordBytes(h.magic); WordBytes(h.length); WordBytes(h.check);
  }

  predicate WordAt(b: seq<byte>, at: nat, x: u32)
    requires |b| == HEAD_SIZE && at <= 20
  {
    x == (b[at] as int) + 0x100 * (b[at + 1] as int) + 0x1_0000 * (b[at + 2] as int) + 0x100_0000 * (b[at + 3] as int)
  }

  lemma WordBytes(x: u32)
    ensures var b := EncodeWord(x);
      x == (b[0] as int) + 0x100 * (b[1] as int) + 0x1_0000 * (b[2] as int) + 0x100_0000 * (b[3] as int)
  {
    WordRoundTrip(x);
  }

  /** What the ring stores for a message. */
  function Record(m: Message): (r: seq<byte>)
    ensures |r| == HEAD_SIZE + |m.payload|
    ensures r[..HEAD_SIZE] == EncodeHead(m.head) && r[HEAD_SIZE..] == m.payload
  {
    EncodeHead(m.head) + m.payload
  }

  /** Receivers are found by the sender's slot and the port. */
  type Key = (u32, u32)

  function KeyOf(h: Head): Key { (h.slot, h.port) }

  /** The payloads among sent that are meant for receiver k, in order. */
  function PortSent(sent: seq<Message>, k: Key): seq<seq<byte>> {
    if sent == [] then [] else
    var m := sent[|sent| - 1];
    PortSent(sent[..|sent| - 1], k) + (if KeyOf(m.head) == k then [m.payload] else [])
  }
}
