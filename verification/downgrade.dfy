/**
  The downgrade procedure: read FLASH_OPTR, classify the RDP level, and
  either do nothing (level 0), refuse (level 2), or take the chip from level
  1 to level 0 in six steps:
    1. unlock FLASH_CR and the option bytes;
    2. set PCROP_RDP, arming the erase of the PCROP area;
    3. write FLASH_OPTR with the level-0 RDP byte;
    4. check that FLASH_SR shows neither BSY nor PESD;
    5. set OPTSTRT in FLASH_CR and flush;
    6. poll FLASH_SR until BSY clears, or give up past the deadline.
 */
module Downgrade {
  import opened Registers
  import opened CoreBus
  import opened Rdp
  import opened Flash
  import opened Poll

  /** What a successful run reports. */
  datatype Report = AlreadyOpen | Downgraded(eraseTime: int)

  /** Level-1 steps 1 to 3: unlock, set PCROP_RDP, write FLASH_OPTR with its
      RDP byte replaced by the level-0 encoding. `optr` is the value read at
      the start, before unlocking. */
  function RequestLevel0(c: Core, optr: Word): Step<()>
  {
    var u := UnlockFlash(c);
    if u.result.Err? then u
    else
      var p := SetPcropRdp(u.core);
      if p.result.Err? then p
      else WriteWord(p.core, FLASH_OPTR, OpenedOptr(optr))
  }

  /** The accesses RequestLevel0 issues when nothing fails. */
  function RequestScript(c: Core, optr: Word): seq<Access>
  {
    UNLOCK_SEQUENCE + PcropScript(Reg(c, FLASH_PCROP1AER)) + [Write(FLASH_OPTR, OpenedOptr(optr))]
  }

  /** Level-1 step 4: read FLASH_SR and refuse to go on while an operation is
      in progress (BSY) or suspended (PESD). */
  function CheckReady(c: Core): Step<()>
  {
    var s := ReadWord(c, FLASH_SR);
    if s.result.Err? then Propagate(s)
    else if s.result.value & BSY_MASK != 0 then Step(s.core, Err(Busy))
    else if s.result.value & PESD_MASK != 0 then Step(s.core, Err(Suspended))
    else Step(s.core, Ok(()))
  }

  /** Level-1 steps 5 and 6: set OPTSTRT, wait for BSY to clear, report the
      erase duration. */
  function ProgramAndWait(c: Core, clock: seq<int>): Step<Report>
    requires ClockOk(clock)
  {
    var o := SetOptstrt(c);
    if o.result.Err? then Propagate(o)
    else
      var w := WaitNotBusy(o.core, clock, 1);
      if w.result.Err? then Propagate(w) else Step(w.core, Ok(Downgraded(w.result.value)))
  }

  /** Level-1 steps 4 to 6. */
  function CheckThenProgram(c: Core, clock: seq<int>): Step<Report>
    requires ClockOk(clock)
  {
    var k := CheckReady(c);
    if k.result.Err? then Propagate(k) else ProgramAndWait(k.core, clock)
  }

  /** The whole level-1 path; `optr` is FLASH_OPTR as read at the start. */
  function DowngradeLvl1(c: Core, optr: Word, clock: seq<int>): Step<Report>
    requires ClockOk(clock)
  {
    var q := RequestLevel0(c, optr);
    if q.result.Err? then Propagate(q) else CheckThenProgram(q.core, clock)
  }

  /** The procedure: read FLASH_OPTR, classify its low byte, dispatch. */
  function RemoveProtection(c: Core, clock: seq<int>): Step<Report>
    requires ClockOk(clock)
  {
    var s := ReadWord(c, FLASH_OPTR);
    if s.result.Err? then Propagate(s)
    else
      match OptrLevel(s.result.value)
      case Lvl0 => Step(s.core, Ok(AlreadyOpen))
      case Lvl1 => DowngradeLvl1(s.core, s.result.value, clock)
      case Lvl2 => Step(s.core, Err(Level2))
  }

  // ---------------------------------------------------------------------
  // The level-1 stages, one at a time
  // ---------------------------------------------------------------------

  lemma RequestAfterUnlock(c: Core, optr: Word)
    requires UnlockFlash(c).result.Ok?
    ensures RequestLevel0(c, optr) == RequestAfterPcrop(UnlockFlash(c).core, optr)
  {
  }

  /** RequestLevel0 after a successful unlock. */
  function RequestAfterPcrop(c: Core, optr: Word): Step<()>
  {
    var p := SetPcropRdp(c);
    if p.result.Err? then p else WriteWord(p.core, FLASH_OPTR, OpenedOptr(optr))
  }

  lemma RequestAfterPcropRan(c: Core, optr: Word)
    ensures Ran(c, RequestAfterPcrop(c, optr), PcropScript(Reg(c, FLASH_PCROP1AER)) + [Write(FLASH_OPTR, OpenedOptr(optr))])
    ensures forall a :: a != FLASH_PCROP1AER && a != FLASH_OPTR ==> Reg(RequestAfterPcrop(c, optr).core, a) == Reg(c, a)
  {
    var p := SetPcropRdp(c);
    var x := Write(FLASH_OPTR, OpenedOptr(optr));
    SetPcropRdpRan(c);
    if p.result.Err? {
      FollowsExtend(c, p.core, PcropScript(Reg(c, FLASH_PCROP1AER)), [x]);
    } else {
      PerformRan(p.core, x);
      RanChain(c, p.core, Perform(p.core, x), PcropScript(Reg(c, FLASH_PCROP1AER)), [x]);
    }
  }

  /** RequestLevel0 issues the unlock sequence, the PCROP_RDP update and the
      FLASH_OPTR write in that order, stopping at the first access that
      fails, and writes no register other than the key registers,
      FLASH_PCROP1AER and FLASH_OPTR. */
  lemma RequestLevel0Ran(c: Core, optr: Word)
    ensures Ran(c, RequestLevel0(c, optr), RequestScript(c, optr))
    ensures forall a :: a != FLASH_KEYR && a != FLASH_OPTKEYR && a != FLASH_PCROP1AER && a != FLASH_OPTR ==>
      Reg(RequestLevel0(c, optr).core, a) == Reg(c, a)
  {
    var u := UnlockFlash(c);
    var tail := PcropScript(Reg(c, FLASH_PCROP1AER)) + [Write(FLASH_OPTR, OpenedOptr(optr))];
    assert RequestScript(c, optr) == UNLOCK_SEQUENCE + tail;
    UnlockFlashRan(c);
    if u.result.Err? {
      FollowsExtend(c, u.core, UNLOCK_SEQUENCE, tail);
    } else {
      RequestAfterUnlock(c, optr);
      RequestAfterPcropRan(u.core, optr);
      RanChain(c, u.core, RequestAfterPcrop(u.core, optr), UNLOCK_SEQUENCE, tail);
    }
  }

  /** A successful request leaves PCROP_RDP set in FLASH_PCROP1AER and
      FLASH_OPTR holding the level-0 value computed from `optr`. */
  lemma RequestLevel0Value(c: Core, optr: Word)
    requires RequestLevel0(c, optr).result.Ok?
    ensures Reg(RequestLevel0(c, optr).core, FLASH_PCROP1AER) == Reg(c, FLASH_PCROP1AER) | PCROP_RDP_MASK
    ensures Reg(RequestLevel0(c, optr).core, FLASH_OPTR) == OpenedOptr(optr)
  {
    var u := UnlockFlash(c);
    UnlockFlashRan(c);
    RequestAfterUnlock(c, optr);
    SetPcropRdpValue(u.core);
  }

  /** CheckReady reads FLASH_SR once and lets the procedure go on exactly when
      the read succeeds with BSY and PESD both clear; BSY is reported before
      PESD. */
  lemma CheckReadyOutcome(c: Core)
    ensures CheckReady(c).core == Log(c, Read(FLASH_SR))
    ensures CheckReady(c).result.Ok? <==>
      !NextFails(c) && SrAt(c, |c.trace|) & BSY_MASK == 0 && SrAt(c, |c.trace|) & PESD_MASK == 0
    ensures CheckReady(c).result == Err(Busy) <==> !NextFails(c) && SrAt(c, |c.trace|) & BSY_MASK != 0
    ensures CheckReady(c).result == Err(Suspended) <==>
      !NextFails(c) && SrAt(c, |c.trace|) & BSY_MASK == 0 && SrAt(c, |c.trace|) & PESD_MASK != 0
    ensures NextFails(c) ==> CheckReady(c).result == Err(Transport(Read(FLASH_SR)))
  {
  }

  /** The accesses ProgramAndWait may issue: the OPTSTRT read-modify-write
      and flush, then at most one FLASH_SR read per clock reading. */
  function ProgramScript(c: Core, clock: seq<int>): seq<Access>
    requires ClockOk(clock)
  {
    OptstrtScript(Reg(c, FLASH_CR)) + SrReads(|clock| - 1)
  }

  /** What starting option programming and waiting may have produced from
      `c`: a prefix of their script, in which the OPTSTRT read, write and
      flush are accesses 0 to 2 and the poll of iteration `j` is access
      `j + 2`. Every poll but the last saw BSY set before the deadline.
      Success and timeout need all of it to have succeeded; success comes
      exactly when the last poll saw BSY clear, and both report the last
      poll's clock difference, past the deadline for a timeout. */
  predicate ProgramOutcome(c: Core, clock: seq<int>, r: Step<Report>)
    requires ClockOk(clock)
  {
    var n := |r.core.trace| - |c.trace|;
    && Follows(c, r.core, ProgramScript(c, clock))
    && n <= |clock| + 2
    && BusyBefore(c, |c.trace| + 3, |r.core.trace| - 1, clock, 1)
    && (r.result.Err? ==> r.result.error.Transport? || r.result.error.Timeout?)
    && (r.result.Ok? || r.result.error.Timeout? ==>
          && 3 < n
          && Clean(c.faults, |c.trace|, |r.core.trace|)
          && (r.result.Ok? <==> SrAt(c, |r.core.trace| - 1) & BSY_MASK == 0)
          && (r.result.Ok? ==> r.result.value == Downgraded(clock[n - 3] - clock[0]))
          && (r.result.Err? ==>
                r.result.error.elapsed == clock[n - 3] - clock[0] && r.result.error.elapsed > ERASE_TIMEOUT))
    && Reported(c, r)
  }

  lemma ProgramAndWaitShape(c: Core, clock: seq<int>)
    requires ClockOk(clock)
    ensures ProgramOutcome(c, clock, ProgramAndWait(c, clock))
  {
    SetOptstrtRan(c);
    if SetOptstrt(c).result.Err? {
      OptstrtFails(c, clock);
    } else {
      OptstrtThenWait(c, clock);
    }
  }

  lemma OptstrtFails(c: Core, clock: seq<int>)
    requires ClockOk(clock)
    requires SetOptstrt(c).result.Err?
    ensures ProgramOutcome(c, clock, ProgramAndWait(c, clock))
  {
    var o := SetOptstrt(c);
    SetOptstrtRan(c);
    RanReported(c, o, OptstrtScript(Reg(c, FLASH_CR)));
    FollowsExtend(c, o.core, OptstrtScript(Reg(c, FLASH_CR)), SrReads(|clock| - 1));
  }

  lemma OptstrtThenWait(c: Core, clock: seq<int>)
    requires ClockOk(clock)
    requires SetOptstrt(c).result.Ok?
    ensures ProgramOutcome(c, clock, ProgramAndWait(c, clock))
  {
    var o := SetOptstrt(c);
    var w := WaitNotBusy(o.core, clock, 1);
    SetOptstrtRan(c);
    WaitNotBusyPolled(o.core, clock, 1);
    ProgramLift(c, o.core, w, clock);
  }

  /** A completed OPTSTRT update followed by a poll is an outcome of steps 5
      and 6. */
  lemma ProgramLift(c: Core, o: Core, w: Step<int>, clock: seq<int>)
    requires ClockOk(clock)
    requires Completed(c, o, OptstrtScript(Reg(c, FLASH_CR)))
    requires Reg(o, FLASH_SR) == Reg(c, FLASH_SR)
    requires Polled(o, w, clock, 1)
    ensures ProgramOutcome(c, clock, if w.result.Err? then Propagate(w) else Step(w.core, Ok(Downgraded(w.result.value))))
  {
    PolledReported(o, w, clock, 1);
    ReportedExtend(c, o, w);
    ProgramPolls(c, o, w, clock);
  }

  /** The trace part of ProgramLift: the polls, placed after the three
      OPTSTRT accesses. */
  lemma ProgramPolls(c: Core, o: Core, w: Step<int>, clock: seq<int>)
    requires ClockOk(clock)
    requires Completed(c, o, OptstrtScript(Reg(c, FLASH_CR)))
    requires Reg(o, FLASH_SR) == Reg(c, FLASH_SR)
    requires Polled(o, w, clock, 1)
    ensures |o.trace| == |c.trace| + 3
    ensures Follows(c, w.core, ProgramScript(c, clock))
    ensures |w.core.trace| - |c.trace| <= |clock| + 2
    ensures BusyBefore(c, |c.trace| + 3, |w.core.trace| - 1, clock, 1)
    ensures SrAt(o, |w.core.trace| - 1) == SrAt(c, |w.core.trace| - 1)
  {
    ChainFollows(c, o, w.core, OptstrtScript(Reg(c, FLASH_CR)), SrReads(|clock| - 1));
    forall k | |o.trace| <= k < |w.core.trace| - 1
      ensures SrAt(c, k) & BSY_MASK != 0 && clock[k - |c.trace| - 2] - clock[0] <= ERASE_TIMEOUT
    {
      assert SrAt(o, k) == SrAt(c, k);
      assert k - |c.trace| - 2 == 1 + (k - |o.trace|);
    }
  }

  lemma CheckThenProgramAfterCheck(c: Core, clock: seq<int>)
    requires ClockOk(clock)
    requires CheckReady(c).result.Ok?
    ensures CheckThenProgram(c, clock) == ProgramAndWait(Log(c, Read(FLASH_SR)), clock)
  {
    CheckReadyOutcome(c);
  }

  /** How a run whose FLASH_SR check is access `k` may stop at that check:
      Busy exactly when every access up to and including the check succeeded
      and the check saw BSY; Suspended likewise with PESD and no BSY; either
      way nothing is issued after the check. */
  predicate Stopped(c: Core, k: nat, r: Step<Report>)
  {
    && (r.result == Err(Busy) <==> Clean(c.faults, |c.trace|, k + 1) && SrAt(c, k) & BSY_MASK != 0)
    && (r.result == Err(Suspended) <==>
          Clean(c.faults, |c.trace|, k + 1) && SrAt(c, k) & BSY_MASK == 0 && SrAt(c, k) & PESD_MASK != 0)
    && (r.result == Err(Busy) || r.result == Err(Suspended) ==> |r.core.trace| == k + 1)
  }

  /** How a run whose FLASH_SR check is access `k` may end past the check,
      where the poll of iteration `j` is access `k + 3 + j`: every poll but
      the last saw BSY set before the deadline; success or timeout only when
      every access succeeded, the check saw neither BSY nor PESD, and OPTSTRT
      was written and flushed; success exactly when the last poll found BSY
      clear, reporting that poll's clock difference; a timeout reporting it
      past the deadline; never a level-2 refusal. */
  predicate Finished(c: Core, k: nat, clock: seq<int>, r: Step<Report>)
  {
    var n := |r.core.trace| - k;
    && n <= |clock| + 3
    && BusyBefore(c, k + 4, |r.core.trace| - 1, clock, 1)
    && (r.result.Ok? ==> r.result.value.Downgraded?)
    && (r.result.Err? ==> !r.result.error.Level2?)
    && (r.result.Ok? || r.result.error.Timeout? ==>
          && 4 < n
          && Clean(c.faults, |c.trace|, |r.core.trace|)
          && SrAt(c, k) & BSY_MASK == 0 && SrAt(c, k) & PESD_MASK == 0
          && (r.result.Ok? <==> SrAt(c, |r.core.trace| - 1) & BSY_MASK == 0)
          && (r.result.Ok? ==> r.result.value.eraseTime == clock[n - 4] - clock[0])
          && (r.result.Err? ==>
                r.result.error.elapsed == clock[n - 4] - clock[0] && r.result.error.elapsed > ERASE_TIMEOUT))
  }

  /** A downgrade whose FLASH_SR check is access `check`: every access
      succeeded, the check saw neither BSY nor PESD, every poll but the last
      saw BSY set before the deadline, the last poll saw BSY clear, and the
      erase time reported is that poll's clock difference, not negative. */
  predicate ErasedAt(c: Core, check: nat, clock: seq<int>, r: Step<Report>)
  {
    && check + 4 < |r.core.trace| <= check + 3 + |clock|
    && Clean(c.faults, |c.trace|, |r.core.trace|)
    && SrAt(c, check) & BSY_MASK == 0 && SrAt(c, check) & PESD_MASK == 0
    && BusyBefore(c, check + 4, |r.core.trace| - 1, clock, 1)
    && SrAt(c, |r.core.trace| - 1) & BSY_MASK == 0
    && r.result.Ok? && r.result.value.Downgraded?
    && r.result.value.eraseTime == clock[|r.core.trace| - check - 4] - clock[0]
    && r.result.value.eraseTime >= 0
  }

  /** What steps 4 to 6 may have produced from `c`. */
  predicate CheckOutcome(c: Core, clock: seq<int>, r: Step<Report>)
    requires ClockOk(clock)
  {
    && Follows(c, r.core, [Read(FLASH_SR)] + ProgramScript(c, clock))
    && Stopped(c, |c.trace|, r)
    && Finished(c, |c.trace|, clock, r)
    && Reported(c, r)
  }

  /** The FLASH_SR check in front of programming and the wait. */
  lemma CheckThenProgramShape(c: Core, clock: seq<int>)
    requires ClockOk(clock)
    ensures CheckOutcome(c, clock, CheckThenProgram(c, clock))
  {
    var d := Log(c, Read(FLASH_SR));
    CheckReadyOutcome(c);
    ReadRan(c, FLASH_SR);
    assert Clean(c.faults, |c.trace|, |c.trace| + 1) <==> !NextFails(c);
    if CheckReady(c).result.Err? {
      FollowsExtend(c, d, [Read(FLASH_SR)], ProgramScript(c, clock));
    } else {
      CheckPassed(c, clock);
    }
  }

  lemma CheckPassed(c: Core, clock: seq<int>)
    requires ClockOk(clock)
    requires CheckReady(c).result.Ok?
    ensures CheckOutcome(c, clock, CheckThenProgram(c, clock))
  {
    var d := Log(c, Read(FLASH_SR));
    CheckReadyOutcome(c);
    CheckThenProgramAfterCheck(c, clock);
    ProgramAndWaitShape(d, clock);
    CheckLift(c, clock, CheckThenProgram(c, clock));
  }

  /** A FLASH_SR check that succeeded and saw neither BSY nor PESD, followed
      by an outcome of steps 5 and 6, is an outcome of steps 4 to 6. */
  lemma CheckLift(c: Core, clock: seq<int>, r: Step<Report>)
    requires ClockOk(clock)
    requires !NextFails(c) && SrAt(c, |c.trace|) & BSY_MASK == 0 && SrAt(c, |c.trace|) & PESD_MASK == 0
    requires ProgramOutcome(Log(c, Read(FLASH_SR)), clock, r)
    ensures CheckOutcome(c, clock, r)
  {
    var d := Log(c, Read(FLASH_SR));
    assert Completed(c, d, [Read(FLASH_SR)]);
    assert ProgramScript(d, clock) == ProgramScript(c, clock);
    ChainFollows(c, d, r.core, [Read(FLASH_SR)], ProgramScript(c, clock));
    ReportedExtend(c, d, r);
    forall i | |d.trace| <= i < |r.core.trace|
      ensures SrAt(d, i) == SrAt(c, i)
    {
    }
  }

  /** Every access the level-1 path may issue, in order: the unlock
      sequence, the PCROP_RDP update, the FLASH_OPTR write, the FLASH_SR
      check, the OPTSTRT update and flush, and the status polls. */
  function Lvl1Plan(c: Core, optr: Word, clock: seq<int>): seq<Access>
    requires ClockOk(clock)
  {
    RequestScript(c, optr) + ([Read(FLASH_SR)] + ProgramScript(c, clock))
  }

  lemma Lvl1AfterRequest(c: Core, optr: Word, clock: seq<int>)
    requires ClockOk(clock)
    requires RequestLevel0(c, optr).result.Ok?
    ensures DowngradeLvl1(c, optr, clock) == CheckThenProgram(RequestLevel0(c, optr).core, clock)
  {
  }

  /** What the level-1 path may have produced from `c`: a prefix of its
      plan, stopped or finished as above with the FLASH_SR check as the
      access right after the request. */
  predicate Lvl1Outcome(c: Core, optr: Word, clock: seq<int>, r: Step<Report>)
    requires ClockOk(clock)
  {
    var check := |c.trace| + |RequestScript(c, optr)|;
    && Follows(c, r.core, Lvl1Plan(c, optr, clock))
    && Stopped(c, check, r)
    && Finished(c, check, clock, r)
    && Reported(c, r)
  }

  /** The level-1 path's outcome, whatever the environment does. */
  lemma DowngradeLvl1Shape(c: Core, optr: Word, clock: seq<int>)
    requires ClockOk(clock)
    ensures Lvl1Outcome(c, optr, clock, DowngradeLvl1(c, optr, clock))
  {
    RequestLevel0Ran(c, optr);
    if RequestLevel0(c, optr).result.Err? {
      Lvl1RequestFails(c, optr, clock);
    } else {
      Lvl1RequestDone(c, optr, clock);
    }
  }

  lemma Lvl1RequestFails(c: Core, optr: Word, clock: seq<int>)
    requires ClockOk(clock)
    requires RequestLevel0(c, optr).result.Err?
    ensures Lvl1Outcome(c, optr, clock, DowngradeLvl1(c, optr, clock))
  {
    RequestLevel0Ran(c, optr);
    RequestFailed(c, optr, clock, RequestLevel0(c, optr));
  }

  /** A request that failed ends the level-1 path with its error. */
  lemma RequestFailed(c: Core, optr: Word, clock: seq<int>, q: Step<()>)
    requires ClockOk(clock)
    requires Ran(c, q, RequestScript(c, optr))
    requires q.result.Err?
    ensures Lvl1Outcome(c, optr, clock, Propagate(q))
  {
    FailedTrace(c, optr, clock, q);
    Lvl1Failed(c, optr, clock, Propagate(q));
  }

  /** A run that failed on an access before the FLASH_SR check is an
      outcome of the level-1 path. */
  lemma Lvl1Failed(c: Core, optr: Word, clock: seq<int>, r: Step<Report>)
    requires ClockOk(clock)
    requires Follows(c, r.core, Lvl1Plan(c, optr, clock))
    requires |c.trace| < |r.core.trace| <= |c.trace| + |RequestScript(c, optr)|
    requires |r.core.trace| - 1 in c.faults
    requires r.result.Err? && r.result.error.Transport?
    requires r.result.error.access == r.core.trace[|r.core.trace| - 1]
    ensures Lvl1Outcome(c, optr, clock, r)
  {
    FailedEnds(c, optr, clock, r);
    Lvl1OutcomeIntro(c, optr, clock, r);
  }

  /** The parts of Lvl1Outcome past the trace, for a run that failed before
      the FLASH_SR check. */
  lemma FailedEnds(c: Core, optr: Word, clock: seq<int>, r: Step<Report>)
    requires ClockOk(clock)
    requires |c.trace| < |r.core.trace| <= |c.trace| + |RequestScript(c, optr)|
    requires |r.core.trace| - 1 in c.faults
    requires r.result.Err? && r.result.error.Transport?
    requires r.result.error.access == r.core.trace[|r.core.trace| - 1]
    ensures var check := |c.trace| + |RequestScript(c, optr)|;
      Stopped(c, check, r) && Finished(c, check, clock, r) && Reported(c, r)
  {
    FailedBeforeCheck(c, |c.trace| + |RequestScript(c, optr)|, clock, r);
  }

  /** Lvl1Outcome from its four parts. */
  lemma Lvl1OutcomeIntro(c: Core, optr: Word, clock: seq<int>, r: Step<Report>)
    requires ClockOk(clock)
    requires Follows(c, r.core, Lvl1Plan(c, optr, clock))
    requires var check := |c.trace| + |RequestScript(c, optr)|;
      Stopped(c, check, r) && Finished(c, check, clock, r) && Reported(c, r)
    ensures Lvl1Outcome(c, optr, clock, r)
  {
  }

  /** The trace of a failed request: a prefix of the level-1 plan that ends
      with the failed access, before the FLASH_SR check. */
  lemma FailedTrace(c: Core, optr: Word, clock: seq<int>, q: Step<()>)
    requires ClockOk(clock)
    requires Ran(c, q, RequestScript(c, optr))
    requires q.result.Err?
    ensures Follows(c, q.core, Lvl1Plan(c, optr, clock))
    ensures |c.trace| < |q.core.trace| <= |c.trace| + |RequestScript(c, optr)|
    ensures |q.core.trace| - 1 in c.faults
    ensures q.result.error.Transport? && q.result.error.access == q.core.trace[|q.core.trace| - 1]
  {
    var script := RequestScript(c, optr);
    RanReported(c, q, script);
    FollowsExtend(c, q.core, script, [Read(FLASH_SR)] + ProgramScript(c, clock));
  }

  /** A transport error on an access before the check `k` neither stopped at
      the check nor finished past it. */
  lemma FailedBeforeCheck(c: Core, k: nat, clock: seq<int>, r: Step<Report>)
    requires r.result.Err? && r.result.error.Transport?
    requires |c.trace| < |r.core.trace| <= k
    requires |r.core.trace| - 1 in c.faults
    ensures Stopped(c, k, r) && Finished(c, k, clock, r)
  {
    assert !Clean(c.faults, |c.trace|, k + 1);
  }

  lemma Lvl1RequestDone(c: Core, optr: Word, clock: seq<int>)
    requires ClockOk(clock)
    requires RequestLevel0(c, optr).result.Ok?
    ensures Lvl1Outcome(c, optr, clock, DowngradeLvl1(c, optr, clock))
  {
    var q := RequestLevel0(c, optr);
    RequestLevel0Ran(c, optr);
    Lvl1AfterRequest(c, optr, clock);
    CheckThenProgramShape(q.core, clock);
    Lvl1Lift(c, q.core, optr, clock, DowngradeLvl1(c, optr, clock));
  }

  /** A completed request that left FLASH_CR and FLASH_SR alone, followed by
      an outcome of steps 4 to 6, is an outcome of the level-1 path. */
  lemma Lvl1Lift(c: Core, q: Core, optr: Word, clock: seq<int>, r: Step<Report>)
    requires ClockOk(clock)
    requires Completed(c, q, RequestScript(c, optr))
    requires Reg(q, FLASH_CR) == Reg(c, FLASH_CR) && Reg(q, FLASH_SR) == Reg(c, FLASH_SR)
    requires CheckOutcome(q, clock, r)
    ensures Lvl1Outcome(c, optr, clock, r)
  {
    assert ProgramScript(q, clock) == ProgramScript(c, clock);
    ChainFollows(c, q, r.core, RequestScript(c, optr), [Read(FLASH_SR)] + ProgramScript(c, clock));
    ReportedExtend(c, q, r);
    StoppedLift(c, q, |q.trace|, r);
    FinishedLift(c, q, |q.trace|, clock, r);
    Lvl1OutcomeIntro(c, optr, clock, r);
  }

  /** Accesses that all succeeded, in front of a run that leaves FLASH_SR
      alone, do not change how the run stopped at its check `k`. */
  lemma StoppedLift(c: Core, q: Core, k: nat, r: Step<Report>)
    requires Extends(c, q) && Clean(c.faults, |c.trace|, |q.trace|)
    requires Reg(q, FLASH_SR) == Reg(c, FLASH_SR)
    requires |q.trace| <= k
    requires Stopped(q, k, r)
    ensures Stopped(c, k, r)
  {
    assert SrAt(q, k) == SrAt(c, k);
    assert Clean(c.faults, |c.trace|, k + 1) <==> Clean(q.faults, |q.trace|, k + 1);
  }

  /** Likewise for how the run ended past its check. */
  lemma FinishedLift(c: Core, q: Core, k: nat, clock: seq<int>, r: Step<Report>)
    requires Extends(c, q) && Clean(c.faults, |c.trace|, |q.trace|)
    requires Reg(q, FLASH_SR) == Reg(c, FLASH_SR)
    requires |q.trace| <= k
    requires Finished(q, k, clock, r)
    ensures Finished(c, k, clock, r)
  {
    forall i | |q.trace| <= i < |r.core.trace|
      ensures SrAt(q, i) == SrAt(c, i)
    {
    }
  }

  // ---------------------------------------------------------------------
  // The whole procedure
  // ---------------------------------------------------------------------

  /** A failed FLASH_OPTR read ends the procedure at once. */
  lemma OptrReadFails(c: Core, clock: seq<int>)
    requires ClockOk(clock)
    requires NextFails(c)
    ensures RemoveProtection(c, clock) == Step(Log(c, Read(FLASH_OPTR)), Err(Transport(Read(FLASH_OPTR))))
  {
  }

  /** At level 0 the procedure reports success after the one read and
      accesses nothing else. */
  lemma AlreadyOpenIsNoOp(c: Core, clock: seq<int>)
    requires ClockOk(clock)
    requires !NextFails(c) && OptrLevel(Reg(c, FLASH_OPTR)) == Lvl0
    ensures RemoveProtection(c, clock) == Step(Log(c, Read(FLASH_OPTR)), Ok(AlreadyOpen))
  {
  }

  /** At level 2 the procedure refuses after the one read and accesses
      nothing else. */
  lemma Level2IsRefused(c: Core, clock: seq<int>)
    requires ClockOk(clock)
    requires !NextFails(c) && OptrLevel(Reg(c, FLASH_OPTR)) == Lvl2
    ensures RemoveProtection(c, clock) == Step(Log(c, Read(FLASH_OPTR)), Err(Level2))
  {
  }

  lemma Level1Dispatch(c: Core, clock: seq<int>)
    requires ClockOk(clock)
    requires !NextFails(c) && OptrLevel(Reg(c, FLASH_OPTR)) == Lvl1
    ensures RemoveProtection(c, clock) == DowngradeLvl1(Log(c, Read(FLASH_OPTR)), Reg(c, FLASH_OPTR), clock)
  {
  }

  /** At level 1 the procedure runs the level-1 path on the value it read. */
  lemma Level1IsDowngraded(c: Core, clock: seq<int>)
    requires ClockOk(clock)
    requires !NextFails(c) && OptrLevel(Reg(c, FLASH_OPTR)) == Lvl1
    ensures RemoveProtection(c, clock) == DowngradeLvl1(Log(c, Read(FLASH_OPTR)), Reg(c, FLASH_OPTR), clock)
    ensures Lvl1Outcome(Log(c, Read(FLASH_OPTR)), Reg(c, FLASH_OPTR), clock, RemoveProtection(c, clock))
  {
    Level1Dispatch(c, clock);
    DowngradeLvl1Shape(Log(c, Read(FLASH_OPTR)), Reg(c, FLASH_OPTR), clock);
  }

  /** How the procedure ends, by the level FLASH_OPTR encodes: it reports
      "already open" exactly at level 0 and refuses exactly at level 2, in
      both cases after the one read. A downgrade is reported only at level 1,
      with every access successful, the FLASH_SR check clear of BSY and PESD,
      every poll but the last seeing BSY set before the deadline, and the
      last poll seeing BSY clear; the erase time is that poll's clock
      difference. `check` is the index of the FLASH_SR check. */
  lemma RemoveProtectionOutcome(c: Core, clock: seq<int>)
    requires ClockOk(clock)
    ensures var r := RemoveProtection(c, clock);
      var level := OptrLevel(Reg(c, FLASH_OPTR));
      var check := |c.trace| + 1 + |RequestScript(c, Reg(c, FLASH_OPTR))|;
      && (r.result == Ok(AlreadyOpen) <==> !NextFails(c) && level == Lvl0)
      && (r.result == Err(Level2) <==> !NextFails(c) && level == Lvl2)
      && (r.result == Ok(AlreadyOpen) || r.result == Err(Level2) ==> r.core == Log(c, Read(FLASH_OPTR)))
      && (r.result.Ok? && r.result.value.Downgraded? ==>
            !NextFails(c) && level == Lvl1 && ErasedAt(c, check, clock, r))
      && Reported(c, r)
  {
    RemoveProtectionLevels(c, clock);
    RemoveProtectionDowngrade(c, clock);
  }

  /** The level-0 and level-2 clauses of RemoveProtectionOutcome. */
  lemma RemoveProtectionLevels(c: Core, clock: seq<int>)
    requires ClockOk(clock)
    ensures var r := RemoveProtection(c, clock);
      var level := OptrLevel(Reg(c, FLASH_OPTR));
      && (r.result == Ok(AlreadyOpen) <==> !NextFails(c) && level == Lvl0)
      && (r.result == Err(Level2) <==> !NextFails(c) && level == Lvl2)
      && (r.result == Ok(AlreadyOpen) || r.result == Err(Level2) ==> r.core == Log(c, Read(FLASH_OPTR)))
  {
    if !NextFails(c) && OptrLevel(Reg(c, FLASH_OPTR)) == Lvl1 {
      var d := Log(c, Read(FLASH_OPTR));
      Level1Dispatch(c, clock);
      Lvl1Ends(d, Reg(c, FLASH_OPTR), clock);
    }
  }

  /** The downgrade and transport-error clauses of RemoveProtectionOutcome. */
  lemma RemoveProtectionDowngrade(c: Core, clock: seq<int>)
    requires ClockOk(clock)
    ensures var r := RemoveProtection(c, clock);
      var level := OptrLevel(Reg(c, FLASH_OPTR));
      var check := |c.trace| + 1 + |RequestScript(c, Reg(c, FLASH_OPTR))|;
      && (r.result.Ok? && r.result.value.Downgraded? ==>
            !NextFails(c) && level == Lvl1 && ErasedAt(c, check, clock, r))
      && Reported(c, r)
  {
    if !NextFails(c) && OptrLevel(Reg(c, FLASH_OPTR)) == Lvl1 {
      Level1IsDowngraded(c, clock);
      Level1Downgraded(c, clock, RemoveProtection(c, clock));
    }
  }

  /** A level-1 run after a successful FLASH_OPTR read that ends in a
      downgrade erased as RemoveProtectionDowngrade states, and reports the
      access it failed at. */
  lemma Level1Downgraded(c: Core, clock: seq<int>, r: Step<Report>)
    requires ClockOk(clock)
    requires !NextFails(c)
    requires Lvl1Outcome(Log(c, Read(FLASH_OPTR)), Reg(c, FLASH_OPTR), clock, r)
    ensures var check := |c.trace| + 1 + |RequestScript(c, Reg(c, FLASH_OPTR))|;
      && (r.result.Ok? ==> ErasedAt(c, check, clock, r))
      && Reported(c, r)
  {
    Level1Outcome(c, Reg(c, FLASH_OPTR), clock, r);
  }

  /** The level-1 case of RemoveProtectionOutcome: how the level-1 path,
      run after a successful FLASH_OPTR read, stopped or finished, restated
      from before that read. */
  lemma Level1Outcome(c: Core, optr: Word, clock: seq<int>, r: Step<Report>)
    requires ClockOk(clock)
    requires !NextFails(c)
    requires var d := Log(c, Read(FLASH_OPTR));
      var check := |d.trace| + |RequestScript(d, optr)|;
      && Stopped(d, check, r)
      && Finished(d, check, clock, r)
      && Reported(d, r)
    ensures var check := |c.trace| + 1 + |RequestScript(c, optr)|;
      && r.result != Ok(AlreadyOpen) && r.result != Err(Level2)
      && (r.result.Ok? ==> ErasedAt(c, check, clock, r))
      && Reported(c, r)
  {
    var check := |c.trace| + 1 + |RequestScript(c, optr)|;
    RequestScriptAfterRead(c, FLASH_OPTR, optr);
    OptrReadLift(c, check, clock, r);
    if r.result.Ok? {
      FinishedDowngraded(c, check, clock, r);
    }
  }

  /** A successful run that finished past its check `k` is a downgrade
      erased as Finished describes. */
  lemma FinishedDowngraded(c: Core, k: nat, clock: seq<int>, r: Step<Report>)
    requires ClockOk(clock)
    requires Finished(c, k, clock, r) && r.result.Ok?
    ensures ErasedAt(c, k, clock, r)
  {
  }

  /** A read does not change what the request would issue. */
  lemma RequestScriptAfterRead(c: Core, a: Addr, optr: Word)
    ensures RequestScript(Log(c, Read(a)), optr) == RequestScript(c, optr)
  {
  }

  /** How the level-1 path stops or finishes, without its trace. */
  lemma Lvl1Ends(c: Core, optr: Word, clock: seq<int>)
    requires ClockOk(clock)
    ensures var r := DowngradeLvl1(c, optr, clock);
      var check := |c.trace| + |RequestScript(c, optr)|;
      && Stopped(c, check, r)
      && Finished(c, check, clock, r)
      && Reported(c, r)
  {
    DowngradeLvl1Shape(c, optr, clock);
  }

  /** A successful FLASH_OPTR read in front of a run keeps how it stopped at
      or finished past its check `k`, and which access it reports. */
  lemma OptrReadLift(c: Core, k: nat, clock: seq<int>, r: Step<Report>)
    requires !NextFails(c) && |c.trace| < k
    requires Stopped(Log(c, Read(FLASH_OPTR)), k, r)
    requires Finished(Log(c, Read(FLASH_OPTR)), k, clock, r)
    requires Reported(Log(c, Read(FLASH_OPTR)), r)
    ensures Stopped(c, k, r) && Finished(c, k, clock, r) && Reported(c, r)
  {
    var d := Log(c, Read(FLASH_OPTR));
    assert Clean(c.faults, |c.trace|, |d.trace|);
    StoppedLift(c, d, k, r);
    FinishedLift(c, d, k, clock, r);
    ReportedExtend(c, d, r);
  }

  /** The converse, for the level-1 path: when every access up to the poll
      at access `p` succeeds, the FLASH_SR check at access `check` sees
      neither BSY nor PESD, every poll before `p` sees BSY set before the
      deadline, and the poll at `p` sees BSY clear, the path stops right
      after that poll and reports its clock difference as the erase time. */
  lemma ClearedInTimeIsDowngraded(c: Core, optr: Word, clock: seq<int>, p: nat)
    requires ClockOk(clock)
    requires var check := |c.trace| + |RequestScript(c, optr)|;
      && check + 4 <= p < check + 3 + |clock|
      && Clean(c.faults, |c.trace|, p + 1)
      && SrAt(c, check) & BSY_MASK == 0 && SrAt(c, check) & PESD_MASK == 0
      && BusyBefore(c, check + 4, p, clock, 1)
      && SrAt(c, p) & BSY_MASK == 0
    ensures var r := DowngradeLvl1(c, optr, clock);
      var check := |c.trace| + |RequestScript(c, optr)|;
      && |r.core.trace| == p + 1
      && r.result == Ok(Downgraded(clock[p - check - 3] - clock[0]))
  {
    DowngradeLvl1Shape(c, optr, clock);
  }

  /** The same for the whole procedure, started on a core whose FLASH_OPTR
      encodes level 1. */
  lemma ClearedInTimeIsReported(c: Core, clock: seq<int>, p: nat)
    requires ClockOk(clock)
    requires OptrLevel(Reg(c, FLASH_OPTR)) == Lvl1
    requires var check := |c.trace| + 1 + |RequestScript(c, Reg(c, FLASH_OPTR))|;
      && check + 4 <= p < check + 3 + |clock|
      && Clean(c.faults, |c.trace|, p + 1)
      && SrAt(c, check) & BSY_MASK == 0 && SrAt(c, check) & PESD_MASK == 0
      && BusyBefore(c, check + 4, p, clock, 1)
      && SrAt(c, p) & BSY_MASK == 0
    ensures var r := RemoveProtection(c, clock);
      var check := |c.trace| + 1 + |RequestScript(c, Reg(c, FLASH_OPTR))|;
      && |r.core.trace| == p + 1
      && r.result == Ok(Downgraded(clock[p - check - 3] - clock[0]))
  {
    var d := Log(c, Read(FLASH_OPTR));
    assert !NextFails(c);
    Level1Dispatch(c, clock);
    assert RequestScript(d, Reg(c, FLASH_OPTR)) == RequestScript(c, Reg(c, FLASH_OPTR));
    forall i | |d.trace| <= i
      ensures SrAt(d, i) == SrAt(c, i)
    {
    }
    ClearedInTimeIsDowngraded(d, Reg(c, FLASH_OPTR), clock, p);
  }
}
