/**
  The wait for the option-byte programming (and the mass erase it triggers)
  to finish: FLASH_SR is read until BSY clears, or until more than 30 seconds
  have passed since the wait began.

  The monotonic clock is a parameter: `clock[0]` is the instant taken when the
  wait begins and `clock[j]` the instant read in the j-th iteration, just
  after that iteration's status read.
 */
module Poll {
  import opened Registers
  import opened CoreBus

  /** The erase deadline, 30 seconds, in nanoseconds. */
  const ERASE_TIMEOUT: int := 30_000_000_000

  /** The clock never runs backwards and eventually passes the deadline. */
  predicate ClockOk(clock: seq<int>)
  {
    && |clock| >= 2
    && (forall i, j :: 0 <= i <= j < |clock| ==> clock[i] <= clock[j])
    && clock[|clock| - 1] - clock[0] > ERASE_TIMEOUT
  }

  /** Busy-polls FLASH_SR from iteration `j` on; returns the elapsed time at
      the read that found BSY clear. */
  function WaitNotBusy(c: Core, clock: seq<int>, j: nat): Step<int>
    requires ClockOk(clock)
    requires 1 <= j < |clock|
    decreases |clock| - j
  {
    var s := ReadWord(c, FLASH_SR);
    if s.result.Err? then Propagate(s)
    else
      var elapsed := clock[j] - clock[0];
      if s.result.value & BSY_MASK == 0 then Step(s.core, Ok(elapsed))
      else if elapsed > ERASE_TIMEOUT then Step(s.core, Err(Timeout(elapsed)))
      else WaitNotBusy(s.core, clock, j + 1)
  }

  /** What polling from iteration `j` of `clock` on may have produced: only
      FLASH_SR reads, no register changed, every read but the last one
      succeeded, saw BSY set and came before the deadline, and the last read
      decides the outcome. */
  predicate Polled(c: Core, r: Step<int>, clock: seq<int>, j: nat)
    requires 1 <= j < |clock|
  {
    var base := |c.trace|;
    var last := |r.core.trace| - 1;
    && Follows(c, r.core, SrReads(|clock| - j))
    && base <= last
    && r.core.regs == c.regs
    && BusyBefore(c, base, last, clock, j)
    && (r.result.Ok? <==> last !in c.faults && SrAt(c, last) & BSY_MASK == 0)
    && (r.result.Ok? ==> r.result.value == clock[j + last - base] - clock[0])
    && (r.result.Err? ==>
          if last in c.faults then r.result.error == Transport(Read(FLASH_SR))
          else
            && r.result.error == Timeout(clock[j + last - base] - clock[0])
            && clock[j + last - base] - clock[0] > ERASE_TIMEOUT)
  }

  /** The polls at accesses `first` up to, not including, `last` all saw
      BSY set before the deadline, where the poll at `first` is iteration
      `j`: the poll at access `i` is iteration `i - first + j`, whose
      instant is `clock[i - first + j]`. */
  predicate BusyBefore(c: Core, first: nat, last: int, clock: seq<int>, j: nat)
  {
    && last - first + j <= |clock|
    && forall i :: first <= i < last ==>
         SrAt(c, i) & BSY_MASK != 0 && clock[i - first + j] - clock[0] <= ERASE_TIMEOUT
  }

  /** The first iteration ends the wait: the read failed, BSY was clear, or
      the deadline had passed. */
  lemma WaitEndsHere(c: Core, clock: seq<int>, j: nat)
    requires ClockOk(clock)
    requires 1 <= j < |clock|
    requires NextFails(c) || SrAt(c, |c.trace|) & BSY_MASK == 0 || clock[j] - clock[0] > ERASE_TIMEOUT
    ensures Polled(c, WaitNotBusy(c, clock, j), clock, j)
  {
    var d := Log(c, Read(FLASH_SR));
    var rest := SrReads(|clock| - j - 1);
    assert [Read(FLASH_SR)] + rest == SrReads(|clock| - j);
    ReadRan(c, FLASH_SR);
    FollowsExtend(c, d, [Read(FLASH_SR)], rest);
    assert WaitNotBusy(c, clock, j).core == d;
  }

  /** The first iteration saw BSY set before the deadline, so the wait goes on
      with the next iteration. */
  lemma WaitGoesOn(c: Core, clock: seq<int>, j: nat)
    requires ClockOk(clock)
    requires 1 <= j < |clock|
    requires !NextFails(c) && SrAt(c, |c.trace|) & BSY_MASK != 0 && clock[j] - clock[0] <= ERASE_TIMEOUT
    ensures j + 1 < |clock|
    ensures WaitNotBusy(c, clock, j) == WaitNotBusy(Log(c, Read(FLASH_SR)), clock, j + 1)
  {
  }

  /** WaitNotBusy issues only FLASH_SR reads and returns success exactly when
      a read finds BSY clear, a timeout exactly when BSY is still set past the
      deadline, and a transport error exactly when a read fails. */
  lemma {:induction false} WaitNotBusyPolled(c: Core, clock: seq<int>, j: nat)
    requires ClockOk(clock)
    requires 1 <= j < |clock|
    ensures Polled(c, WaitNotBusy(c, clock, j), clock, j)
    decreases |clock| - j
  {
    if NextFails(c) || SrAt(c, |c.trace|) & BSY_MASK == 0 || clock[j] - clock[0] > ERASE_TIMEOUT {
      WaitEndsHere(c, clock, j);
    } else {
      var d := Log(c, Read(FLASH_SR));
      WaitGoesOn(c, clock, j);
      WaitNotBusyPolled(d, clock, j + 1);
      PolledLift(c, WaitNotBusy(d, clock, j + 1), clock, j);
    }
  }

  /** One more successful read that saw BSY set before the deadline, in front
      of a poll from the next iteration, is a poll from this iteration. */
  lemma PolledLift(c: Core, r: Step<int>, clock: seq<int>, j: nat)
    requires ClockOk(clock)
    requires 1 <= j && j + 1 < |clock|
    requires !NextFails(c) && SrAt(c, |c.trace|) & BSY_MASK != 0 && clock[j] - clock[0] <= ERASE_TIMEOUT
    requires Polled(Log(c, Read(FLASH_SR)), r, clock, j + 1)
    ensures Polled(c, r, clock, j)
  {
    var d := Log(c, Read(FLASH_SR));
    var rest := SrReads(|clock| - j - 1);
    assert [Read(FLASH_SR)] + rest == SrReads(|clock| - j);
    assert Completed(c, d, [Read(FLASH_SR)]);
    ChainFollows(c, d, r.core, [Read(FLASH_SR)], rest);
    forall k | |c.trace| <= k < |r.core.trace| - 1
      ensures SrAt(c, k) & BSY_MASK != 0 && clock[k - |c.trace| + j] - clock[0] <= ERASE_TIMEOUT
    {
      if k > |c.trace| {
        assert SrAt(d, k) == SrAt(c, k);
        assert k - |d.trace| + (j + 1) == k - |c.trace| + j;
      }
    }
  }

  /** A poll's transport error names its last read, which failed. */
  lemma PolledReported(c: Core, r: Step<int>, clock: seq<int>, j: nat)
    requires 1 <= j < |clock|
    requires Polled(c, r, clock, j)
    ensures Reported(c, r)
  {
    var n := |r.core.trace| - |c.trace|;
    assert r.core.trace[|r.core.trace| - 1] == SrReads(|clock| - j)[..n][n - 1];
  }

  /** A first poll that succeeds and finds BSY clear ends the wait with the
      time of that poll. */
  lemma WaitEndsAtFirstPoll(c: Core, clock: seq<int>)
    requires ClockOk(clock)
    requires !NextFails(c) && SrAt(c, |c.trace|) & BSY_MASK == 0
    ensures WaitNotBusy(c, clock, 1) == Step(Log(c, Read(FLASH_SR)), Ok(clock[1] - clock[0]))
  {
  }

  /** A successful wait reports a non-negative duration. */
  lemma WaitDurationNonNegative(c: Core, clock: seq<int>)
    requires ClockOk(clock)
    requires WaitNotBusy(c, clock, 1).result.Ok?
    ensures WaitNotBusy(c, clock, 1).result.value >= 0
  {
    WaitNotBusyPolled(c, clock, 1);
  }
}
