/**
  The run the procedure is written for: nothing fails, FLASH_OPTR encodes
  level 1, and the flash controller is idle whenever FLASH_SR is read. Then
  the chip ends up with RDP level 0 requested, the mass erase armed, option
  programming started, and the first status poll ends the wait. Then the
  run whose erase never finishes, which times out at the first clock reading
  past the deadline. A concrete run of each follows.
 */
module Scenarios {
  import opened Registers
  import opened CoreBus
  import opened Rdp
  import opened Flash
  import opened Poll
  import opened Downgrade
  import opened Effects

  /** With no failure in its first nine accesses, the request issues all of
      its script and changes neither FLASH_CR nor FLASH_SR. */
  lemma RequestSucceeds(c: Core, optr: Word)
    requires Clean(c.faults, |c.trace|, |c.trace| + 9)
    ensures var q := RequestLevel0(c, optr);
      && q.result.Ok?
      && |RequestScript(c, optr)| <= 9
      && Completed(c, q.core, RequestScript(c, optr))
      && Reg(q.core, FLASH_CR) == Reg(c, FLASH_CR)
      && Reg(q.core, FLASH_SR) == Reg(c, FLASH_SR)
  {
    RequestLevel0Ran(c, optr);
  }

  /** With no failure in its first five accesses, FLASH_SR idle at the check
      and BSY clear at the first poll, steps 4 to 6 set OPTSTRT and report
      the time of that first poll. */
  lemma ProgramSucceeds(c: Core, clock: seq<int>)
    requires ClockOk(clock)
    requires Clean(c.faults, |c.trace|, |c.trace| + 5)
    requires SrAt(c, |c.trace|) & BSY_MASK == 0 && SrAt(c, |c.trace|) & PESD_MASK == 0
    requires SrAt(c, |c.trace| + 4) & BSY_MASK == 0
    ensures var r := CheckThenProgram(c, clock);
      && r.result == Ok(Downgraded(clock[1] - clock[0]))
      && |r.core.trace| == |c.trace| + 5
      && Reg(r.core, FLASH_CR) == Reg(c, FLASH_CR) | OPTSTRT_MASK
      && forall a :: a != FLASH_CR ==> Reg(r.core, a) == Reg(c, a)
  {
    var d := Log(c, Read(FLASH_SR));
    CheckReadyOutcome(c);
    CheckThenProgramAfterCheck(c, clock);
    var o := SetOptstrt(d);
    SetOptstrtRan(d);
    assert o.result.Ok?;
    SetOptstrtValue(d);
    assert |o.core.trace| == |c.trace| + 4;
    assert SrAt(o.core, |o.core.trace|) == SrAt(c, |c.trace| + 4);
    WaitEndsAtFirstPoll(o.core, clock);
    var r := CheckThenProgram(c, clock);
    assert r.core == Log(o.core, Read(FLASH_SR));
    forall a | a != FLASH_CR
      ensures Reg(r.core, a) == Reg(c, a)
    {
      assert Reg(r.core, a) == Reg(o.core, a);
      assert Reg(o.core, a) == Reg(d, a);
    }
  }

  /** The level-1 path when nothing fails and the controller is idle. */
  lemma Lvl1Succeeds(c: Core, optr: Word, clock: seq<int>)
    requires ClockOk(clock)
    requires Clean(c.faults, |c.trace|, |c.trace| + 14)
    requires forall k :: |c.trace| <= k ==> SrAt(c, k) & BSY_MASK == 0 && SrAt(c, k) & PESD_MASK == 0
    ensures var r := DowngradeLvl1(c, optr, clock);
      && r.result == Ok(Downgraded(clock[1] - clock[0]))
      && Reg(r.core, FLASH_OPTR) == OpenedOptr(optr)
      && Reg(r.core, FLASH_PCROP1AER) == Reg(c, FLASH_PCROP1AER) | PCROP_RDP_MASK
      && Reg(r.core, FLASH_CR) == Reg(c, FLASH_CR) | OPTSTRT_MASK
  {
    var q := RequestLevel0(c, optr);
    RequestSucceeds(c, optr);
    RequestLevel0Value(c, optr);
    Lvl1AfterRequest(c, optr, clock);
    assert SrAt(q.core, |q.core.trace|) == SrAt(c, |q.core.trace|);
    assert SrAt(q.core, |q.core.trace| + 4) == SrAt(c, |q.core.trace| + 4);
    ProgramSucceeds(q.core, clock);
  }

  /** The run the procedure is written for. */
  lemma HappyPath(c: Core, clock: seq<int>)
    requires ClockOk(clock)
    requires OptrLevel(Reg(c, FLASH_OPTR)) == Lvl1
    requires Clean(c.faults, |c.trace|, |c.trace| + 15)
    requires forall k :: |c.trace| <= k ==> SrAt(c, k) & BSY_MASK == 0 && SrAt(c, k) & PESD_MASK == 0
    ensures var r := RemoveProtection(c, clock);
      && r.result == Ok(Downgraded(clock[1] - clock[0]))
      && Reg(r.core, FLASH_OPTR) == OpenedOptr(Reg(c, FLASH_OPTR))
      && OptrLevel(Reg(r.core, FLASH_OPTR)) == Lvl0
      && Reg(r.core, FLASH_PCROP1AER) == Reg(c, FLASH_PCROP1AER) | PCROP_RDP_MASK
      && Reg(r.core, FLASH_CR) == Reg(c, FLASH_CR) | OPTSTRT_MASK
  {
    var d := Log(c, Read(FLASH_OPTR));
    Level1IsDowngraded(c, clock);
    forall k | |d.trace| <= k
      ensures SrAt(d, k) & BSY_MASK == 0 && SrAt(d, k) & PESD_MASK == 0
    {
      assert SrAt(d, k) == SrAt(c, k);
    }
    Lvl1Succeeds(d, Reg(c, FLASH_OPTR), clock);
  }

  /** Level 1 on a blank controller: FLASH_OPTR holds 0xAB and every other
      register 0, nothing fails, and the first poll comes one microsecond
      after the wait began. */
  lemma BlankChipIsOpened()
    ensures var r := RemoveProtection(Core(map[FLASH_OPTR := 0xAB], [], {}, map[]), [0, 1000, 31_000_000_000]);
      && r.result == Ok(Downgraded(1000))
      && Reg(r.core, FLASH_OPTR) == 0xAA
      && Reg(r.core, FLASH_PCROP1AER) == 0x8000_0000
      && Reg(r.core, FLASH_CR) == 0x0002_0000
  {
    var c := Core(map[FLASH_OPTR := 0xAB], [], {}, map[]);
    assert LowByte(0xAB) == 0xAB;
    HappyPath(c, [0, 1000, 31_000_000_000]);
  }

  /** An erase that never finishes: at level 1 with no failures, the check
      sees neither BSY nor PESD and every later FLASH_SR read sees BSY. The
      wait then goes round until the first clock reading `j` past the
      deadline, and the procedure times out with that reading's difference,
      right after the poll of iteration `j`. */
  lemma BusyForeverTimesOut(c: Core, clock: seq<int>, j: nat)
    requires ClockOk(clock)
    requires OptrLevel(Reg(c, FLASH_OPTR)) == Lvl1 && c.faults == {}
    requires var check := |c.trace| + 1 + |RequestScript(c, Reg(c, FLASH_OPTR))|;
      && SrAt(c, check) & BSY_MASK == 0 && SrAt(c, check) & PESD_MASK == 0
      && forall k: nat :: check < k ==> SrAt(c, k) & BSY_MASK != 0
    requires 1 <= j < |clock| && clock[j] - clock[0] > ERASE_TIMEOUT
    requires forall i :: 1 <= i < j ==> clock[i] - clock[0] <= ERASE_TIMEOUT
    ensures var r := RemoveProtection(c, clock);
      var check := |c.trace| + 1 + |RequestScript(c, Reg(c, FLASH_OPTR))|;
      && r.result == Err(Timeout(clock[j] - clock[0]))
      && |r.core.trace| == check + 4 + j
  {
    var d := Log(c, Read(FLASH_OPTR));
    assert !NextFails(c);
    Level1IsDowngraded(c, clock);
    RequestScriptAfterRead(c, FLASH_OPTR, Reg(c, FLASH_OPTR));
    forall k: nat
      ensures SrAt(d, k) == SrAt(c, k)
    {
    }
    BusyForeverOutcome(d, Reg(c, FLASH_OPTR), clock, j, RemoveProtection(c, clock));
  }

  /** BusyForeverTimesOut for any outcome of the level-1 path. */
  lemma BusyForeverOutcome(c: Core, optr: Word, clock: seq<int>, j: nat, r: Step<Report>)
    requires ClockOk(clock)
    requires c.faults == {}
    requires Lvl1Outcome(c, optr, clock, r)
    requires var check := |c.trace| + |RequestScript(c, optr)|;
      && SrAt(c, check) & BSY_MASK == 0 && SrAt(c, check) & PESD_MASK == 0
      && forall k: nat :: check < k ==> SrAt(c, k) & BSY_MASK != 0
    requires 1 <= j < |clock| && clock[j] - clock[0] > ERASE_TIMEOUT
    requires forall i :: 1 <= i < j ==> clock[i] - clock[0] <= ERASE_TIMEOUT
    ensures r.result == Err(Timeout(clock[j] - clock[0]))
    ensures |r.core.trace| == |c.trace| + |RequestScript(c, optr)| + 4 + j
  {
    var check := |c.trace| + |RequestScript(c, optr)|;
    var n := |r.core.trace| - check;
    assert Clean(c.faults, |c.trace|, check + 1);
    assert r.result.Err? ==> !r.result.error.Transport?;
    assert r.result.Err? && r.result.error.Timeout?;
    assert Finished(c, check, clock, r);
    assert j <= n - 4;
    assert SrAt(c, check + 3 + j) & BSY_MASK != 0;
    assert n - 4 <= j;
  }

  /** A concrete erase that never finishes: FLASH_SR reads BSY except at the
      check (access 10), and the polls come at 10, 20 and 31 seconds. The
      wait goes round three times, and the procedure times out at the third
      poll after writing FLASH_CR exactly once. */
  lemma StuckEraseTimesOut()
    ensures var c := Core(map[FLASH_SR := BSY_MASK], [], {}, map[10 := 0]);
      var r := RemoveProtection(c, [0, 10_000_000_000, 20_000_000_000, 31_000_000_000]);
      && r.result == Err(Timeout(31_000_000_000))
      && |r.core.trace| == 17
      && Written(r.core.trace, FLASH_CR) == [OPTSTRT_MASK]
  {
    var c := Core(map[FLASH_SR := BSY_MASK], [], {}, map[10 := 0]);
    var clock := [0, 10_000_000_000, 20_000_000_000, 31_000_000_000];
    var d := Log(c, Read(FLASH_OPTR));
    var r := RemoveProtection(c, clock);
    assert LowByte(0) == 0;
    assert |PcropScript(0)| == 2;
    BusyForeverTimesOut(c, clock, 3);
    Level1Writes(c, clock);
    Lvl1Writes(d, 0, clock);
    assert r.core.trace == Since(c, r.core);
  }
}
