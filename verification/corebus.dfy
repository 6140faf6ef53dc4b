/**
  The register-access interface of one target core: 32-bit reads, 32-bit
  writes and a flush, each of which may fail.

  The core is an immutable value. `regs` holds the register contents the
  software can see; `trace` logs every access issued so far, failed ones
  included. The environment is fixed up front: access number k (counting from
  zero over the whole trace) fails exactly when k is in `faults`, and a read
  of FLASH_SR issued as access k returns `status[k]` when present, modelling
  the flash controller changing its own status bits. A register that was
  never written reads as zero.
 */
module CoreBus {
  import opened Registers

  /** Why the procedure stopped. */
  datatype Error =
    | Transport(access: Access)   // the probe failed to perform this access
    | Level2                      // RDP level 2 cannot be removed
    | Busy                        // BSY was set before option programming
    | Suspended                   // PESD was set before option programming
    | Timeout(elapsed: int)       // BSY stayed set past the erase deadline

  datatype Result<T> = Ok(value: T) | Err(error: Error)

  datatype Core = Core(regs: map<Addr, Word>, trace: seq<Access>, faults: set<nat>, status: map<nat, Word>)

  /** The state after one access, and what the access produced. */
  datatype Step<T> = Step(core: Core, result: Result<T>)

  function Reg(c: Core, a: Addr): Word
  {
    if a in c.regs then c.regs[a] else 0
  }

  /** What a read of FLASH_SR issued as access k returns. */
  function SrAt(c: Core, k: nat): Word
  {
    if k in c.status then c.status[k] else Reg(c, FLASH_SR)
  }

  /** What a read of `a` issued as the next access returns. */
  function Sampled(c: Core, a: Addr): Word
  {
    if a == FLASH_SR then SrAt(c, |c.trace|) else Reg(c, a)
  }

  predicate NextFails(c: Core)
  {
    |c.trace| in c.faults
  }

  function Log(c: Core, x: Access): Core
  {
    c.(trace := c.trace + [x])
  }

  function ReadWord(c: Core, a: Addr): Step<Word>
  {
    if NextFails(c) then Step(Log(c, Read(a)), Err(Transport(Read(a))))
    else Step(Log(c, Read(a)), Ok(Sampled(c, a)))
  }

  function WriteWord(c: Core, a: Addr, v: Word): Step<()>
  {
    if NextFails(c) then Step(Log(c, Write(a, v)), Err(Transport(Write(a, v))))
    else Step(Log(c, Write(a, v)).(regs := c.regs[a := v]), Ok(()))
  }

  function FlushWrites(c: Core): Step<()>
  {
    if NextFails(c) then Step(Log(c, Flush), Err(Transport(Flush)))
    else Step(Log(c, Flush), Ok(()))
  }

  /** Passes a failure on with a different success type. */
  function Propagate<T, U>(s: Step<T>): (r: Step<U>)
    requires s.result.Err?
  {
    Step(s.core, Err(s.result.error))
  }

  /** No access in [lo, hi) fails. */
  predicate Clean(faults: set<nat>, lo: int, hi: int)
  {
    forall k: nat :: lo <= k < hi ==> k !in faults
  }

  /** `d` is `c` after more accesses: same environment, longer trace. */
  predicate Extends(c: Core, d: Core)
  {
    && d.faults == c.faults
    && d.status == c.status
    && |c.trace| <= |d.trace|
    && d.trace[..|c.trace|] == c.trace
  }

  /** From `c` to `d` the core issued a prefix of `script`, and every access
      of it but possibly the last one succeeded. */
  predicate Follows(c: Core, d: Core, script: seq<Access>)
  {
    && Extends(c, d)
    && |d.trace| - |c.trace| <= |script|
    && d.trace == c.trace + script[..|d.trace| - |c.trace|]
    && Clean(c.faults, |c.trace|, |d.trace| - 1)
  }

  /** From `c` to `d` the core issued all of `script` and nothing failed. */
  predicate Completed(c: Core, d: Core, script: seq<Access>)
  {
    && Extends(c, d)
    && d.trace == c.trace + script
    && Clean(c.faults, |c.trace|, |d.trace|)
  }

  /** `r` is the outcome of running `script` from `c` with the usual
      early return: it stops at the first access that fails and reports it. */
  predicate Ran<T>(c: Core, r: Step<T>, script: seq<Access>)
  {
    && Follows(c, r.core, script)
    && (r.result.Ok? <==> Completed(c, r.core, script))
    && (r.result.Err? ==>
          && |c.trace| < |r.core.trace|
          && |r.core.trace| - 1 in c.faults
          && r.result.error == Transport(script[|r.core.trace| - |c.trace| - 1]))
  }

  /** A transport error names the last access issued, and that access is
      one the environment made fail. */
  predicate Reported<T>(c: Core, r: Step<T>)
  {
    r.result.Err? && r.result.error.Transport? ==>
      && |c.trace| < |r.core.trace|
      && |r.core.trace| - 1 in c.faults
      && r.result.error.access == r.core.trace[|r.core.trace| - 1]
  }

  lemma RanReported<T>(c: Core, r: Step<T>, script: seq<Access>)
    requires Ran(c, r, script)
    ensures Reported(c, r)
  {
    if r.result.Err? {
      var n := |r.core.trace| - |c.trace|;
      assert r.core.trace[|r.core.trace| - 1] == script[..n][n - 1];
    }
  }

  /** Accesses that succeeded in front of a run do not change what its error
      blames. */
  lemma ReportedExtend<T>(c: Core, d: Core, r: Step<T>)
    requires Extends(c, d)
    requires Reported(d, r)
    ensures Reported(c, r)
  {
  }

  lemma FollowsExtend(c: Core, d: Core, s: seq<Access>, t: seq<Access>)
    requires Follows(c, d, s)
    ensures Follows(c, d, s + t)
  {
    var n := |d.trace| - |c.trace|;
    assert (s + t)[..n] == s[..n];
  }

  /** Completing `s` and then following `t` follows `s + t`. */
  lemma ChainFollows(c: Core, d: Core, e: Core, s: seq<Access>, t: seq<Access>)
    requires Completed(c, d, s)
    requires Follows(d, e, t)
    ensures Follows(c, e, s + t)
  {
    var m := |e.trace| - |d.trace|;
    assert e.trace == c.trace + s + t[..m];
    assert (s + t)[..|s| + m] == s + t[..m];
    assert e.trace[..|c.trace|] == c.trace;
  }

  lemma ChainCompleted(c: Core, d: Core, e: Core, s: seq<Access>, t: seq<Access>)
    requires Completed(c, d, s)
    requires Completed(d, e, t)
    ensures Completed(c, e, s + t)
  {
    assert e.trace == c.trace + (s + t);
    assert e.trace[..|c.trace|] == c.trace;
  }

  /** Running `s` to completion and then running `t` is running `s + t`. */
  lemma RanChain<T>(c: Core, d: Core, r: Step<T>, s: seq<Access>, t: seq<Access>)
    requires Completed(c, d, s)
    requires Ran(d, r, t)
    ensures Ran(c, r, s + t)
  {
    ChainFollows(c, d, r.core, s, t);
    if r.result.Ok? {
      ChainCompleted(c, d, r.core, s, t);
    } else {
      assert (s + t)[|r.core.trace| - |c.trace| - 1] == t[|r.core.trace| - |d.trace| - 1];
    }
  }

  /** A single access either completes or fails and is reported. */
  lemma LogRan<T>(c: Core, x: Access, r: Step<T>)
    requires r.core == Log(c, x) || (!NextFails(c) && r.core == Log(c, x).(regs := r.core.regs))
    requires r.result.Err? <==> NextFails(c)
    requires r.result.Err? ==> r.result.error == Transport(x)
    ensures Ran(c, r, [x])
  {
    assert r.core.trace == c.trace + [x];
    assert [x][..1] == [x];
  }

  lemma ReadRan(c: Core, a: Addr)
    ensures Ran(c, ReadWord(c, a), [Read(a)])
  {
    LogRan(c, Read(a), ReadWord(c, a));
  }

  /** Performs one write or flush. */
  function Perform(c: Core, x: Access): Step<()>
    requires !x.Read?
  {
    match x
    case Write(a, v) => WriteWord(c, a, v)
    case Flush => FlushWrites(c)
  }

  lemma PerformRan(c: Core, x: Access)
    requires !x.Read?
    ensures Ran(c, Perform(c, x), [x])
    ensures forall a :: !IsWriteTo(x, a) ==> Reg(Perform(c, x).core, a) == Reg(c, a)
  {
    LogRan(c, x, Perform(c, x));
  }

  /** Issues a script of writes and flushes in order, stopping at the first
      access that fails. */
  function Issue(c: Core, script: seq<Access>): Step<()>
    requires forall i :: 0 <= i < |script| ==> !script[i].Read?
    decreases |script|
  {
    if script == [] then Step(c, Ok(()))
    else
      var s := Perform(c, script[0]);
      if s.result.Err? then s else Issue(s.core, script[1..])
  }

  /** Issue runs its script with early return, and writes only the registers
      the script names. */
  lemma {:induction false} IssueRan(c: Core, script: seq<Access>)
    requires forall i :: 0 <= i < |script| ==> !script[i].Read?
    ensures Ran(c, Issue(c, script), script)
    ensures forall a :: (forall i :: 0 <= i < |script| ==> !IsWriteTo(script[i], a)) ==>
      Reg(Issue(c, script).core, a) == Reg(c, a)
    decreases |script|
  {
    if script == [] {
      assert Completed(c, c, script);
    } else {
      var s := Perform(c, script[0]);
      PerformRan(c, script[0]);
      assert [script[0]] + script[1..] == script;
      if s.result.Err? {
        FollowsExtend(c, s.core, [script[0]], script[1..]);
      } else {
        IssueRan(s.core, script[1..]);
        RanChain(c, s.core, Issue(s.core, script[1..]), [script[0]], script[1..]);
      }
    }
  }
}
