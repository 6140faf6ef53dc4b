/**
  Readout-protection levels and their encoding in the low byte of FLASH_OPTR.
 */
module Rdp {
  import opened Registers

  /** Level 0: no protection; level 1: memories protected (reversible);
      level 2: chip protected (irreversible). */
  datatype Level = Lvl0 | Lvl1 | Lvl2

  const RDP_LVL0: bv8 := 0xAA
  const RDP_LVL2: bv8 := 0xCC

  /** The RDP byte: the register truncated to its low 8 bits. */
  function LowByte(x: Word): bv8
  {
    (x & 0xFF) as bv8
  }

  /** Every byte other than the two canonical encodings means level 1. */
  function Classify(x: bv8): (l: Level)
    ensures l == Lvl0 <==> x == RDP_LVL0
    ensures l == Lvl2 <==> x == RDP_LVL2
    ensures l == Lvl1 <==> x != RDP_LVL0 && x != RDP_LVL2
  {
    if x == 0xAA then Lvl0
    else if x == 0xCC then Lvl2
    else Lvl1
  }

  function OptrLevel(optr: Word): Level
  {
    Classify(LowByte(optr))
  }

  /** Only the low byte of FLASH_OPTR decides the level. */
  lemma LevelDependsOnLowByteOnly(x: Word, y: Word)
    requires x & 0xFF == y & 0xFF
    ensures OptrLevel(x) == OptrLevel(y)
  {
  }

  /** The value the downgrade writes to FLASH_OPTR: the RDP byte replaced by
      the level-0 encoding, every other option bit kept. */
  function OpenedOptr(optr: Word): (r: Word)
    ensures OptrLevel(r) == Lvl0
    ensures r & 0xFFFF_FF00 == optr & 0xFFFF_FF00
    ensures LowByte(r) == RDP_LVL0
  {
    (optr & 0xFFFF_FF00) | 0xAA
  }
}
