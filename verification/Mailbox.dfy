/** Ringing the slave's mailbox: the credit check on the two counters, the search for a
  mailbox slot, and the register writes. */
module Mailbox {
  import opened Doorbell

  const NO_SLOT: nat := 0xFFFF_FFFF
  const POLLS: nat := 11           // the first read and ten more
  const DATA_BASE: nat := 0xC000   // MAILBOX_REG_BASE + PCIE_DATA
  const INFO_BASE: nat := 0xC100   // MAILBOX_REG_BASE + PCIE_INFO
  const INFO: nat := 0x0500_0008   // from CPU0_MASTERID to PCIE_MASTERID, 8 bytes

  type u32 = n: int | 0 <= n < 0x1_0000_0000

  /** One register write: offset in the bar, and value. */
  datatype Write = Write(offset: u32, value: u32)

  /** A register of mailbox slot regno; the shift and the sum are 32-bit. */
  function Register(base: nat, regno: u32): u32 {
    (base + regno * 4) % 0x1_0000_0000
  }

  /** A doorbell is two data words and then the word that raises the interrupt. */
  function Message(regno: u32): seq<Write> {
    [Write(Register(DATA_BASE, regno), 1), Write(Register(DATA_BASE, regno), 1),
     Write(Register(INFO_BASE, regno), INFO)]
  }

  /** The search succeeds with the slot that read number k gave. */
  ghost predicate FirstSlot(slots: nat -> u32, k: nat) {
    k < POLLS && slots(k) != NO_SLOT && forall j | 0 <= j < k :: slots(j) == NO_SLOT
  }

  /** ax_pcie_host_irq_to_slave: req and clr are the counters at 0x20 and 0x28, slots(i) is
      what the i-th read of the slot request register gives. A refusal writes nothing, and no
      slot is asked for without credit. */
  method HostIrqToSlave(present: bool, req: nat, clr: nat, slots: nat -> u32)
    returns (ret: int, writes: seq<Write>, polls: nat)
    ensures ret != -4 && (ret == 0 || polls > 0) ==> (req - clr) % 0x1_0000_0000 <= 8
    ensures present && (req - clr) % 0x1_0000_0000 <= 8 ==> polls > 0
    ensures ret in {0, -3, -4} && (ret == -4 <==> !present)
    ensures ret == 0 <==> present && Outstanding(req, clr) <= LIMIT && exists k: nat :: FirstSlot(slots, k)
    ensures ret == 0 ==> 0 < polls && FirstSlot(slots, polls - 1) && writes == Message(slots(polls - 1))
    ensures ret == 0 ==> var regno := slots(polls - 1);
      && |writes| == 3 && writes[0] == writes[1]
      && writes[0] == Write((0xC000 + 4 * regno) % 0x1_0000_0000, 1)
      && writes[2] == Write((0xC100 + 4 * regno) % 0x1_0000_0000, 0x0500_0008)
    ensures ret != 0 ==> writes == []
    ensures polls <= POLLS && (polls > 0 ==> present && Outstanding(req, clr) <= LIMIT)
    ensures ret == -3 && polls > 0 ==> polls == POLLS
  {
    writes, polls := [], 0;
    if !present {
      return -4, [], 0;
    }
    if Outstanding(req, clr) > LIMIT {
      return -3, [], 0;
    }
    var regno := slots(0);
    var timeout: nat := 10;
    polls := 1;
    while regno == NO_SLOT && timeout > 0
      invariant 0 < polls && polls + timeout == POLLS
      invariant regno == slots(polls - 1) && forall j | 0 <= j < polls - 1 :: slots(j) == NO_SLOT
      decreases timeout
    {
      regno := slots(polls);
      polls := polls + 1;
      timeout := timeout - 1;
    }
    if regno == NO_SLOT {
      return -3, [], polls;
    }
    var i := 0;
    while i < 2
      invariant 0 <= i <= 2 && writes == Message(regno)[..i]
    {
      writes := writes + [Write(Register(DATA_BASE, regno), 1)];
      i := i + 1;
    }
    writes := writes + [Write(Register(INFO_BASE, regno), INFO)];
    assert writes == Message(regno);
    assert FirstSlot(slots, polls - 1);
    ret := 0;
  }
}
