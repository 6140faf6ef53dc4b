/**
  The three register routines the downgrade is built from: unlocking the
  flash and option-byte registers, arming the mass erase on RDP regression
  (PCROP_RDP), and starting option-byte programming (OPTSTRT).
 */
module Flash {
  import opened Registers
  import opened CoreBus

  /** Both key pairs, each written in order and followed by a flush. */
  const UNLOCK_SEQUENCE: seq<Access> := [
    Write(FLASH_KEYR, FLASH_KEY1), Write(FLASH_KEYR, FLASH_KEY2), Flush,
    Write(FLASH_OPTKEYR, OPT_KEY1), Write(FLASH_OPTKEYR, OPT_KEY2), Flush
  ]

  /** Writes the flash key pair, flushes, writes the option key pair, flushes;
      the first access that fails ends the sequence. */
  function UnlockFlash(c: Core): Step<()>
  {
    Issue(c, UNLOCK_SEQUENCE)
  }

  /** UnlockFlash issues exactly the unlock sequence, stopping at and reporting
      the first access that fails, and writes only the two key registers. */
  lemma UnlockFlashRan(c: Core)
    ensures Ran(c, UnlockFlash(c), UNLOCK_SEQUENCE)
    ensures |c.trace| < |UnlockFlash(c).core.trace| <= |c.trace| + 6
    ensures forall a :: a != FLASH_KEYR && a != FLASH_OPTKEYR ==> Reg(UnlockFlash(c).core, a) == Reg(c, a)
  {
    IssueRan(c, UNLOCK_SEQUENCE);
  }

  /** The accesses SetPcropRdp issues when the register holds `v`: always the
      read, and the write only if PCROP_RDP is clear. */
  function PcropScript(v: Word): seq<Access>
  {
    if v & PCROP_RDP_MASK == PCROP_RDP_MASK then [Read(FLASH_PCROP1AER)]
    else [Read(FLASH_PCROP1AER), Write(FLASH_PCROP1AER, v | PCROP_RDP_MASK)]
  }

  /** Read-modify-write of FLASH_PCROP1AER setting PCROP_RDP, skipping the
      write when the bit is already set. */
  function SetPcropRdp(c: Core): Step<()>
  {
    var s := ReadWord(c, FLASH_PCROP1AER);
    if s.result.Err? then Propagate(s)
    else
      var v := s.result.value;
      if v & PCROP_RDP_MASK != PCROP_RDP_MASK then WriteWord(s.core, FLASH_PCROP1AER, v | PCROP_RDP_MASK)
      else Step(s.core, Ok(()))
  }

  /** SetPcropRdp reads the register and writes it back only when PCROP_RDP
      is clear, stopping at and reporting the first access that fails; no
      other register changes. */
  lemma SetPcropRdpRan(c: Core)
    ensures Ran(c, SetPcropRdp(c), PcropScript(Reg(c, FLASH_PCROP1AER)))
    ensures forall a :: a != FLASH_PCROP1AER ==> Reg(SetPcropRdp(c).core, a) == Reg(c, a)
  {
    if NextFails(c) {
      PcropReadFails(c);
    } else if Reg(c, FLASH_PCROP1AER) & PCROP_RDP_MASK != PCROP_RDP_MASK {
      PcropWrites(c);
    } else {
      PcropAlreadySet(c);
    }
  }

  lemma PcropReadFails(c: Core)
    requires NextFails(c)
    ensures Ran(c, SetPcropRdp(c), PcropScript(Reg(c, FLASH_PCROP1AER)))
    ensures forall a :: a != FLASH_PCROP1AER ==> Reg(SetPcropRdp(c).core, a) == Reg(c, a)
  {
    var v := Reg(c, FLASH_PCROP1AER);
    ReadRan(c, FLASH_PCROP1AER);
    FollowsExtend(c, SetPcropRdp(c).core, [Read(FLASH_PCROP1AER)], PcropScript(v)[1..]);
    assert [Read(FLASH_PCROP1AER)] + PcropScript(v)[1..] == PcropScript(v);
  }

  lemma PcropWrites(c: Core)
    requires !NextFails(c)
    requires Reg(c, FLASH_PCROP1AER) & PCROP_RDP_MASK != PCROP_RDP_MASK
    ensures Ran(c, SetPcropRdp(c), PcropScript(Reg(c, FLASH_PCROP1AER)))
    ensures forall a :: a != FLASH_PCROP1AER ==> Reg(SetPcropRdp(c).core, a) == Reg(c, a)
  {
    var d := Log(c, Read(FLASH_PCROP1AER));
    var x := Write(FLASH_PCROP1AER, Reg(c, FLASH_PCROP1AER) | PCROP_RDP_MASK);
    PcropAfterRead(c);
    ReadRan(c, FLASH_PCROP1AER);
    PerformRan(d, x);
    RanChain(c, d, Perform(d, x), [Read(FLASH_PCROP1AER)], [x]);
  }

  lemma PcropAfterRead(c: Core)
    requires !NextFails(c)
    requires Reg(c, FLASH_PCROP1AER) & PCROP_RDP_MASK != PCROP_RDP_MASK
    ensures SetPcropRdp(c) == Perform(Log(c, Read(FLASH_PCROP1AER)), Write(FLASH_PCROP1AER, Reg(c, FLASH_PCROP1AER) | PCROP_RDP_MASK))
    ensures PcropScript(Reg(c, FLASH_PCROP1AER)) == [Read(FLASH_PCROP1AER), Write(FLASH_PCROP1AER, Reg(c, FLASH_PCROP1AER) | PCROP_RDP_MASK)]
  {
  }

  lemma PcropAlreadySet(c: Core)
    requires !NextFails(c)
    requires Reg(c, FLASH_PCROP1AER) & PCROP_RDP_MASK == PCROP_RDP_MASK
    ensures Ran(c, SetPcropRdp(c), PcropScript(Reg(c, FLASH_PCROP1AER)))
    ensures forall a :: a != FLASH_PCROP1AER ==> Reg(SetPcropRdp(c).core, a) == Reg(c, a)
  {
    ReadRan(c, FLASH_PCROP1AER);
  }

  /** A successful SetPcropRdp leaves FLASH_PCROP1AER holding the value read
      with PCROP_RDP or-ed in, whether or not it wrote. */
  lemma SetPcropRdpValue(c: Core)
    requires SetPcropRdp(c).result.Ok?
    ensures Reg(SetPcropRdp(c).core, FLASH_PCROP1AER) == Reg(c, FLASH_PCROP1AER) | PCROP_RDP_MASK
  {
    if Reg(c, FLASH_PCROP1AER) & PCROP_RDP_MASK == PCROP_RDP_MASK {
      PcropAlreadySetValue(c);
    } else {
      PcropWrittenValue(c);
    }
  }

  lemma PcropWrittenValue(c: Core)
    requires SetPcropRdp(c).result.Ok?
    requires Reg(c, FLASH_PCROP1AER) & PCROP_RDP_MASK != PCROP_RDP_MASK
    ensures Reg(SetPcropRdp(c).core, FLASH_PCROP1AER) == Reg(c, FLASH_PCROP1AER) | PCROP_RDP_MASK
  {
  }

  lemma PcropAlreadySetValue(c: Core)
    requires SetPcropRdp(c).result.Ok?
    requires Reg(c, FLASH_PCROP1AER) & PCROP_RDP_MASK == PCROP_RDP_MASK
    ensures Reg(SetPcropRdp(c).core, FLASH_PCROP1AER) == Reg(c, FLASH_PCROP1AER) | PCROP_RDP_MASK
  {
    SetBitsAlreadySet(Reg(c, FLASH_PCROP1AER), PCROP_RDP_MASK);
  }

  /** After a successful SetPcropRdp, PCROP_RDP is set and every other bit of
      FLASH_PCROP1AER is as it was read. */
  lemma SetPcropRdpBits(c: Core)
    requires SetPcropRdp(c).result.Ok?
    ensures Reg(SetPcropRdp(c).core, FLASH_PCROP1AER) & PCROP_RDP_MASK == PCROP_RDP_MASK
    ensures Reg(SetPcropRdp(c).core, FLASH_PCROP1AER) & !PCROP_RDP_MASK == Reg(c, FLASH_PCROP1AER) & !PCROP_RDP_MASK
  {
    SetPcropRdpValue(c);
    SetBits(Reg(c, FLASH_PCROP1AER), PCROP_RDP_MASK);
  }

  /** Applying SetPcropRdp a second time reads the register and writes
      nothing, leaving the registers as the first application left them. */
  lemma SetPcropRdpIdempotent(c: Core)
    requires SetPcropRdp(c).result.Ok?
    requires !NextFails(SetPcropRdp(c).core)
    ensures SetPcropRdp(SetPcropRdp(c).core).result.Ok?
    ensures SetPcropRdp(SetPcropRdp(c).core).core.regs == SetPcropRdp(c).core.regs
    ensures SetPcropRdp(SetPcropRdp(c).core).core.trace == SetPcropRdp(c).core.trace + [Read(FLASH_PCROP1AER)]
  {
    SetPcropRdpRan(c);
  }

  /** The accesses SetOptstrt issues when FLASH_CR holds `v`. */
  function OptstrtScript(v: Word): seq<Access>
  {
    [Read(FLASH_CR), Write(FLASH_CR, v | OPTSTRT_MASK), Flush]
  }

  /** Read-modify-write of FLASH_CR setting OPTSTRT, then a flush so the
      write reaches the controller before anything else happens. */
  function SetOptstrt(c: Core): Step<()>
  {
    var s := ReadWord(c, FLASH_CR);
    if s.result.Err? then Propagate(s)
    else Issue(s.core, [Write(FLASH_CR, s.result.value | OPTSTRT_MASK), Flush])
  }

  /** SetOptstrt reads FLASH_CR, writes it back with OPTSTRT or-ed in, then
      flushes, stopping at and reporting the first access that fails; no other
      register changes. */
  lemma SetOptstrtRan(c: Core)
    ensures Ran(c, SetOptstrt(c), OptstrtScript(Reg(c, FLASH_CR)))
    ensures forall a :: a != FLASH_CR ==> Reg(SetOptstrt(c).core, a) == Reg(c, a)
  {
    if NextFails(c) {
      OptstrtReadFails(c);
    } else {
      OptstrtReadSucceeds(c);
    }
  }

  lemma OptstrtReadFails(c: Core)
    requires NextFails(c)
    ensures Ran(c, SetOptstrt(c), OptstrtScript(Reg(c, FLASH_CR)))
    ensures forall a :: a != FLASH_CR ==> Reg(SetOptstrt(c).core, a) == Reg(c, a)
  {
    var d := Log(c, Read(FLASH_CR));
    var tail := [Write(FLASH_CR, Reg(c, FLASH_CR) | OPTSTRT_MASK), Flush];
    ReadRan(c, FLASH_CR);
    assert [Read(FLASH_CR)] + tail == OptstrtScript(Reg(c, FLASH_CR));
    FollowsExtend(c, d, [Read(FLASH_CR)], tail);
  }

  lemma OptstrtReadSucceeds(c: Core)
    requires !NextFails(c)
    ensures Ran(c, SetOptstrt(c), OptstrtScript(Reg(c, FLASH_CR)))
    ensures forall a :: a != FLASH_CR ==> Reg(SetOptstrt(c).core, a) == Reg(c, a)
  {
    var d := Log(c, Read(FLASH_CR));
    var tail := [Write(FLASH_CR, Reg(c, FLASH_CR) | OPTSTRT_MASK), Flush];
    ReadRan(c, FLASH_CR);
    assert [Read(FLASH_CR)] + tail == OptstrtScript(Reg(c, FLASH_CR));
    OptstrtAfterRead(c);
    IssueRan(d, tail);
    RanChain(c, d, Issue(d, tail), [Read(FLASH_CR)], tail);
  }

  /** A successful SetOptstrt leaves FLASH_CR holding the value read with
      OPTSTRT or-ed in. */
  lemma SetOptstrtValue(c: Core)
    requires SetOptstrt(c).result.Ok?
    ensures Reg(SetOptstrt(c).core, FLASH_CR) == Reg(c, FLASH_CR) | OPTSTRT_MASK
  {
    var v := Reg(c, FLASH_CR) | OPTSTRT_MASK;
    OptstrtAfterRead(c);
    WriteThenFlush(Log(c, Read(FLASH_CR)), FLASH_CR, v);
  }

  lemma OptstrtAfterRead(c: Core)
    requires !NextFails(c)
    ensures SetOptstrt(c) == Issue(Log(c, Read(FLASH_CR)), [Write(FLASH_CR, Reg(c, FLASH_CR) | OPTSTRT_MASK), Flush])
  {
  }

  lemma WriteThenFlush(c: Core, a: Addr, v: Word)
    requires Issue(c, [Write(a, v), Flush]).result.Ok?
    ensures Reg(Issue(c, [Write(a, v), Flush]).core, a) == v
  {
    var s1 := WriteWord(c, a, v);
    assert Issue(c, [Write(a, v), Flush]) == Issue(s1.core, [Flush]);
  }

  /** After a successful SetOptstrt, OPTSTRT is set and every other bit of
      FLASH_CR is as it was read. */
  lemma SetOptstrtBits(c: Core)
    requires SetOptstrt(c).result.Ok?
    ensures Reg(SetOptstrt(c).core, FLASH_CR) & OPTSTRT_MASK == OPTSTRT_MASK
    ensures Reg(SetOptstrt(c).core, FLASH_CR) & !OPTSTRT_MASK == Reg(c, FLASH_CR) & !OPTSTRT_MASK
  {
    SetOptstrtValue(c);
    SetBits(Reg(c, FLASH_CR), OPTSTRT_MASK);
  }
}
