/**
  Which registers the downgrade writes, how often and with what: FLASH_OPTR
  at most once, with the level-0 value; FLASH_CR at most once, with OPTSTRT
  or-ed in, and only after FLASH_OPTR was written; nothing outside the flash controller's
  key, PCROP, option and control registers.
 */
module Effects {
  import opened Registers
  import opened CoreBus
  import opened Rdp
  import opened Flash
  import opened Poll
  import opened Downgrade

  /** The registers the level-1 path may write. */
  predicate Touched(a: Addr)
  {
    a == FLASH_KEYR || a == FLASH_OPTKEYR || a == FLASH_PCROP1AER || a == FLASH_OPTR || a == FLASH_CR
  }

  /** The accesses from `c` to `d`. */
  function Since(c: Core, d: Core): seq<Access>
    requires |c.trace| <= |d.trace|
  {
    d.trace[|c.trace|..]
  }

  /** The request writes FLASH_OPTR once, as its last access, and never
      FLASH_CR; every write in it goes to a register the path may touch. */
  lemma RequestScriptShape(c: Core, optr: Word)
    ensures var s := RequestScript(c, optr);
      && |s| >= 8
      && s[|s| - 1] == Write(FLASH_OPTR, OpenedOptr(optr))
      && (forall i :: 0 <= i < |s| - 1 ==> !IsWriteTo(s[i], FLASH_OPTR))
      && (forall i :: 0 <= i < |s| ==> !IsWriteTo(s[i], FLASH_CR))
      && (forall i :: 0 <= i < |s| && s[i].Write? ==> Touched(s[i].addr))
  {
    var s := RequestScript(c, optr);
    var p := PcropScript(Reg(c, FLASH_PCROP1AER));
    assert s == UNLOCK_SEQUENCE + p + [Write(FLASH_OPTR, OpenedOptr(optr))];
    forall i | 0 <= i < |s| - 1
      ensures !IsWriteTo(s[i], FLASH_OPTR) && !IsWriteTo(s[i], FLASH_CR)
      ensures s[i].Write? ==> Touched(s[i].addr)
    {
      if i >= 6 {
        assert s[i] == p[i - 6];
      }
    }
  }

  /** The steps after the request write FLASH_CR once, as their third
      access, and never FLASH_OPTR. */
  lemma ProgramTailShape(c: Core, clock: seq<int>)
    requires ClockOk(clock)
    ensures var s := [Read(FLASH_SR)] + ProgramScript(c, clock);
      && |s| >= 5
      && s[2] == Write(FLASH_CR, Reg(c, FLASH_CR) | OPTSTRT_MASK)
      && (forall i :: 0 <= i < |s| && i != 2 ==> !IsWriteTo(s[i], FLASH_CR))
      && (forall i :: 0 <= i < |s| ==> !IsWriteTo(s[i], FLASH_OPTR))
      && (forall i :: 0 <= i < |s| && s[i].Write? ==> s[i].addr == FLASH_CR)
  {
    var s := [Read(FLASH_SR)] + ProgramScript(c, clock);
    var polls := SrReads(|clock| - 1);
    assert s == [Read(FLASH_SR)] + OptstrtScript(Reg(c, FLASH_CR)) + polls;
    forall i | 4 <= i < |s|
      ensures s[i] == Read(FLASH_SR)
    {
      assert s[i] == polls[i - 4];
    }
  }

  /** In the level-1 plan FLASH_OPTR is written only at index `m - 1` and
      FLASH_CR only at index `m + 2`, where `m` is the request's length. */
  lemma PlanShape(c: Core, optr: Word, clock: seq<int>)
    requires ClockOk(clock)
    ensures var plan := Lvl1Plan(c, optr, clock);
      var m := |RequestScript(c, optr)|;
      && m >= 8 && m + 4 < |plan|
      && plan[m - 1] == Write(FLASH_OPTR, OpenedOptr(optr))
      && plan[m + 2] == Write(FLASH_CR, Reg(c, FLASH_CR) | OPTSTRT_MASK)
      && (forall i :: 0 <= i < |plan| && i != m - 1 ==> !IsWriteTo(plan[i], FLASH_OPTR))
      && (forall i :: 0 <= i < |plan| && i != m + 2 ==> !IsWriteTo(plan[i], FLASH_CR))
      && (forall i :: 0 <= i < |plan| && plan[i].Write? ==> Touched(plan[i].addr))
  {
    var r := RequestScript(c, optr);
    var t := [Read(FLASH_SR)] + ProgramScript(c, clock);
    var plan := Lvl1Plan(c, optr, clock);
    RequestScriptShape(c, optr);
    ProgramTailShape(c, clock);
    forall i | |r| <= i < |plan|
      ensures plan[i] == t[i - |r|]
    {
    }
  }

  /** The writes in the first `n` accesses of the level-1 plan. */
  lemma PlanPrefixWrites(c: Core, optr: Word, clock: seq<int>, n: nat)
    requires ClockOk(clock)
    requires n <= |Lvl1Plan(c, optr, clock)|
    ensures var t := Lvl1Plan(c, optr, clock)[..n];
      var m := |RequestScript(c, optr)|;
      && Written(t, FLASH_OPTR) == (if m - 1 < n then [OpenedOptr(optr)] else [])
      && Written(t, FLASH_CR) == (if m + 2 < n then [Reg(c, FLASH_CR) | OPTSTRT_MASK] else [])
      && (forall a :: !Touched(a) ==> Written(t, a) == [])
  {
    var plan := Lvl1Plan(c, optr, clock);
    var m := |RequestScript(c, optr)|;
    var t := plan[..n];
    PlanShape(c, optr, clock);
    WrittenOnce(plan, m - 1, FLASH_OPTR, n);
    WrittenOnce(plan, m + 2, FLASH_CR, n);
    forall a | !Touched(a)
      ensures Written(t, a) == []
    {
      WrittenNone(t, a);
    }
  }

  /** How far into its plan a level-1 outcome `r` got: a prefix of the
      plan, one access past the request when the check stopped it, more than
      four past when it succeeded or timed out. */
  predicate Reached(c: Core, optr: Word, clock: seq<int>, r: Step<Report>)
    requires ClockOk(clock)
  {
    var m := |RequestScript(c, optr)|;
    && |c.trace| <= |r.core.trace| <= |c.trace| + |Lvl1Plan(c, optr, clock)|
    && r.core.trace[..|c.trace|] == c.trace
    && Since(c, r.core) == Lvl1Plan(c, optr, clock)[..|r.core.trace| - |c.trace|]
    && (r.result == Err(Busy) || r.result == Err(Suspended) ==> |r.core.trace| - |c.trace| == m + 1)
    && (r.result.Ok? || r.result.error.Timeout? ==> |r.core.trace| - |c.trace| > m + 4)
  }

  /** The writes of a level-1 outcome: FLASH_OPTR at most once, with the
      level-0 value; FLASH_CR at most once, with OPTSTRT or-ed into the value
      FLASH_CR held in `c` (the key writes do not change FLASH_CR in this
      model, so that is also the value the OPTSTRT read returns), and only
      once FLASH_OPTR has been written, after that write; no FLASH_CR
      write when the check stopped the path; the FLASH_CR write whenever the
      path succeeded or timed out; no register outside the flash
      controller's. */
  ghost predicate Lvl1WritesOk(c: Core, optr: Word, r: Step<Report>)
    requires |c.trace| <= |r.core.trace|
  {
    var t := Since(c, r.core);
    && Written(t, FLASH_OPTR) <= [OpenedOptr(optr)]
    && Written(t, FLASH_CR) <= [Reg(c, FLASH_CR) | OPTSTRT_MASK]
    && (Written(t, FLASH_CR) != [] ==> Written(t, FLASH_OPTR) != [])
    && WritesBefore(t, FLASH_OPTR, FLASH_CR)
    && (r.result == Err(Busy) || r.result == Err(Suspended) ==>
          Written(t, FLASH_OPTR) == [OpenedOptr(optr)] && Written(t, FLASH_CR) == [])
    && (r.result.Ok? || r.result.error.Timeout? ==>
          Written(t, FLASH_OPTR) == [OpenedOptr(optr)] &&
          Written(t, FLASH_CR) == [Reg(c, FLASH_CR) | OPTSTRT_MASK])
    && (forall a :: !Touched(a) ==> Written(t, a) == [])
  }

  /** The writes the level-1 path issues. */
  lemma Lvl1Writes(c: Core, optr: Word, clock: seq<int>)
    requires ClockOk(clock)
    ensures |c.trace| <= |DowngradeLvl1(c, optr, clock).core.trace|
    ensures Lvl1WritesOk(c, optr, DowngradeLvl1(c, optr, clock))
  {
    Lvl1Length(c, optr, clock);
    WritesOfReached(c, optr, clock, DowngradeLvl1(c, optr, clock));
  }

  lemma WritesOfReached(c: Core, optr: Word, clock: seq<int>, r: Step<Report>)
    requires ClockOk(clock)
    requires Reached(c, optr, clock, r)
    ensures Lvl1WritesOk(c, optr, r)
  {
    WritesCounted(c, optr, clock, r);
    OrderOfReached(c, optr, clock, r);
  }

  /** Lvl1WritesOk but for the order of the two writes. */
  lemma WritesCounted(c: Core, optr: Word, clock: seq<int>, r: Step<Report>)
    requires ClockOk(clock)
    requires Reached(c, optr, clock, r)
    ensures var t := Since(c, r.core);
      && Written(t, FLASH_OPTR) <= [OpenedOptr(optr)]
      && Written(t, FLASH_CR) <= [Reg(c, FLASH_CR) | OPTSTRT_MASK]
      && (Written(t, FLASH_CR) != [] ==> Written(t, FLASH_OPTR) != [])
      && (r.result == Err(Busy) || r.result == Err(Suspended) ==>
            Written(t, FLASH_OPTR) == [OpenedOptr(optr)] && Written(t, FLASH_CR) == [])
      && (r.result.Ok? || r.result.error.Timeout? ==>
            Written(t, FLASH_OPTR) == [OpenedOptr(optr)] &&
            Written(t, FLASH_CR) == [Reg(c, FLASH_CR) | OPTSTRT_MASK])
      && (forall a :: !Touched(a) ==> Written(t, a) == [])
  {
    var n := |r.core.trace| - |c.trace|;
    var m := |RequestScript(c, optr)|;
    var t := Since(c, r.core);
    PlanPrefixWrites(c, optr, clock, n);
    var wo := Written(t, FLASH_OPTR);
    var wc := Written(t, FLASH_CR);
    assert wo == (if m - 1 < n then [OpenedOptr(optr)] else []);
    assert wc == (if m + 2 < n then [Reg(c, FLASH_CR) | OPTSTRT_MASK] else []);
  }

  lemma OrderOfReached(c: Core, optr: Word, clock: seq<int>, r: Step<Report>)
    requires ClockOk(clock)
    requires Reached(c, optr, clock, r)
    ensures WritesBefore(Since(c, r.core), FLASH_OPTR, FLASH_CR)
  {
    PlanOrder(c, optr, clock, |r.core.trace| - |c.trace|);
  }

  /** In every prefix of the level-1 plan, the FLASH_OPTR write comes before
      the FLASH_CR write. */
  lemma PlanOrder(c: Core, optr: Word, clock: seq<int>, n: nat)
    requires ClockOk(clock)
    requires n <= |Lvl1Plan(c, optr, clock)|
    ensures WritesBefore(Lvl1Plan(c, optr, clock)[..n], FLASH_OPTR, FLASH_CR)
  {
    var plan := Lvl1Plan(c, optr, clock);
    var t := plan[..n];
    PlanShape(c, optr, clock);
    forall i, k | 0 <= i < |t| && 0 <= k < |t| && IsWriteTo(t[i], FLASH_OPTR) && IsWriteTo(t[k], FLASH_CR)
      ensures i < k
    {
      assert t[i] == plan[i] && t[k] == plan[k];
    }
  }

  lemma Lvl1Length(c: Core, optr: Word, clock: seq<int>)
    requires ClockOk(clock)
    ensures Reached(c, optr, clock, DowngradeLvl1(c, optr, clock))
  {
    DowngradeLvl1Shape(c, optr, clock);
  }

  /** The writes the whole procedure issues: none unless FLASH_OPTR encoded
      level 1, and then those of the level-1 path on the value read. */
  lemma RemoveProtectionWrites(c: Core, clock: seq<int>)
    requires ClockOk(clock)
    ensures var r := RemoveProtection(c, clock);
      && |c.trace| < |r.core.trace|
      && var t := Since(c, r.core);
      && (NextFails(c) || OptrLevel(Reg(c, FLASH_OPTR)) != Lvl1 ==> forall a :: Written(t, a) == [])
      && Written(t, FLASH_OPTR) <= [OpenedOptr(Reg(c, FLASH_OPTR))]
      && Written(t, FLASH_CR) <= [Reg(c, FLASH_CR) | OPTSTRT_MASK]
      && (Written(t, FLASH_CR) != [] ==> Written(t, FLASH_OPTR) != [])
      && WritesBefore(t, FLASH_OPTR, FLASH_CR)
      && (r.result.Ok? && r.result.value.Downgraded? ==>
            Written(t, FLASH_OPTR) == [OpenedOptr(Reg(c, FLASH_OPTR))] &&
            Written(t, FLASH_CR) == [Reg(c, FLASH_CR) | OPTSTRT_MASK])
      && (forall a :: !Touched(a) ==> Written(t, a) == [])
  {
    if NextFails(c) || OptrLevel(Reg(c, FLASH_OPTR)) != Lvl1 {
      NoLevel1NoWrites(c, clock);
    } else {
      var d := Log(c, Read(FLASH_OPTR));
      var r := RemoveProtection(c, clock);
      Level1Writes(c, clock);
      Lvl1Writes(d, Reg(c, FLASH_OPTR), clock);
      WritesBeforeAfterRead(FLASH_OPTR, Since(d, r.core), FLASH_OPTR, FLASH_CR);
    }
  }

  lemma NoLevel1NoWrites(c: Core, clock: seq<int>)
    requires ClockOk(clock)
    requires NextFails(c) || OptrLevel(Reg(c, FLASH_OPTR)) != Lvl1
    ensures var r := RemoveProtection(c, clock);
      && |c.trace| < |r.core.trace|
      && Since(c, r.core) == [Read(FLASH_OPTR)]
      && forall a :: Written(Since(c, r.core), a) == []
  {
    var r := RemoveProtection(c, clock);
    assert r.core == Log(c, Read(FLASH_OPTR));
    assert Since(c, r.core) == [Read(FLASH_OPTR)];
    forall a
      ensures Written(Since(c, r.core), a) == []
    {
      WrittenSingle(Read(FLASH_OPTR), a);
    }
  }

  lemma Level1Writes(c: Core, clock: seq<int>)
    requires ClockOk(clock)
    requires !NextFails(c) && OptrLevel(Reg(c, FLASH_OPTR)) == Lvl1
    ensures var r := RemoveProtection(c, clock);
      var d := Log(c, Read(FLASH_OPTR));
      && |d.trace| <= |r.core.trace|
      && r == DowngradeLvl1(d, Reg(c, FLASH_OPTR), clock)
      && Since(c, r.core) == [Read(FLASH_OPTR)] + Since(d, r.core)
      && forall a :: Written(Since(c, r.core), a) == Written(Since(d, r.core), a)
  {
    var d := Log(c, Read(FLASH_OPTR));
    var r := RemoveProtection(c, clock);
    Level1Dispatch(c, clock);
    Lvl1Length(d, Reg(c, FLASH_OPTR), clock);
    assert Since(c, r.core) == [Read(FLASH_OPTR)] + Since(d, r.core);
    WrittenAfterRead(FLASH_OPTR, Since(d, r.core));
  }
}
