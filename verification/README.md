# stm32wl-unlock: the readout-protection downgrade, in Dafny

`stm32wl-unlock` takes an STM32WL microcontroller from readout-protection
(RDP) level 1 back to level 0 over a debug probe. This triggers the mass erase
that the chip performs on that transition. The tool does this with a fixed
sequence of 32-bit reads, 32-bit writes and flushes against the flash
controller's registers:

1. Read `FLASH_OPTR` and classify its low byte: 0xAA is level 0, 0xCC is
   level 2, anything else is level 1.
2. At level 0, do nothing. At level 2, refuse.
3. At level 1, in six steps:
   1. write the two key pairs, unlocking `FLASH_CR` and the option bytes;
   2. set `PCROP_RDP` in `FLASH_PCROP1AER`, so the downgrade also erases the
      PCROP area;
   3. write `FLASH_OPTR` with its RDP byte replaced by 0xAA;
   4. refuse to go on while `FLASH_SR` shows BSY or PESD;
   5. set `OPTSTRT` in `FLASH_CR` and flush;
   6. poll `FLASH_SR` until BSY clears, giving up after 30 seconds.

This project models that procedure and proves what it does with the
registers.

- The probe's core is an immutable value `CoreBus.Core`, made of:
  - a register file `map<Addr, bv32>`, where unwritten registers read as 0;
  - a trace of every access issued, failed ones included;
  - the environment: the set of access numbers that fail, and the values
    `FLASH_SR` reads return at given access numbers.
- Every probe call returns a `Step` holding the new core and an
  `Ok`/`Err` result. Rust's `?` becomes an explicit early return.
- The monotonic clock is a sequence of instants passed in by the caller.

Modules, one per part of the program:

- `Registers`: addresses, masks and keys, accesses, and the writes a trace
  contains.
- `CoreBus`: the register interface, and the predicates that describe a run
  with early return. `Ran`, `Follows` and `Completed` say that the trace is
  a prefix of a script and that the run stopped at the first failed access.
- `Rdp`: the level classifier and the level-0 `FLASH_OPTR` value.
- `Flash`: `unlock_flash`, `set_pcrop_rdp` and `set_optstrt`.
- `Poll`: the busy-wait loop.
- `Downgrade`: the procedure in `main` after the session is attached, and its
  level-1 stages.
- `Effects`: which registers the procedure writes, how often, and with what
  values.
- `Scenarios`: the run the procedure is written for, a run whose erase
  never finishes, and a concrete run of each.

## Model

| member | source | states |
|---|---|---|
| Rdp.Classify | src/main.rs:34-42 | the classifier is total on bytes: level 0 exactly for 0xAA, level 2 exactly for 0xCC, level 1 for every other byte |
| Rdp.LevelDependsOnLowByteOnly | src/main.rs:152 | two `FLASH_OPTR` values with the same low byte have the same level; the other 24 bits never matter |
| Rdp.OpenedOptr | src/main.rs:169 | the value written to `FLASH_OPTR` keeps the upper 24 bits of the value read, has 0xAA as its low byte, and classifies as level 0 |
| CoreBus.IssueRan | src/main.rs:98-112 | a fixed sequence of writes and flushes, each followed by `?`, issues a prefix of the sequence and stops at the first access that fails, reporting that access; it succeeds exactly when every access did; registers the sequence does not write keep their values |
| Flash.UnlockFlashRan | src/main.rs:98-112 | `unlock_flash` issues KEYR←0x45670123, KEYR←0xCDEF89AB, flush, OPTKEYR←0x08192A3B, OPTKEYR←0x4C5D6E7F, flush in that order, stops at the first failure, issues at least one and at most six accesses, and changes only the two key registers |
| Flash.SetPcropRdpRan | src/main.rs:69-82 | `set_pcrop_rdp` reads `FLASH_PCROP1AER`, then writes it back with bit 31 set only when that bit was clear; it stops at and reports the first failure and changes no other register |
| Flash.SetPcropRdpValue | src/main.rs:76-79 | after a successful `set_pcrop_rdp` the register holds the value read with bit 31 or-ed in, whether or not a write was needed |
| Flash.SetPcropRdpBits | src/main.rs:70-79 | after a successful `set_pcrop_rdp`, bit 31 is set and every other bit equals the value read |
| Flash.SetPcropRdpIdempotent | src/main.rs:76-79 | a second `set_pcrop_rdp` right after a successful one, when its read does not fail, issues a single read, no write, succeeds, and leaves every register as the first left it |
| Flash.SetOptstrtRan | src/main.rs:84-96 | `set_optstrt` issues the `FLASH_CR` read, the write of that value with bit 17 set, then a flush, in that order; it stops at and reports the first failure and changes no other register |
| Flash.SetOptstrtValue | src/main.rs:85-93 | after a successful `set_optstrt`, `FLASH_CR` holds exactly the value read or-ed with `1 << 17` |
| Flash.SetOptstrtBits | src/main.rs:85-93 | after a successful `set_optstrt`, OPTSTRT is set and every other bit of `FLASH_CR` equals the value read |
| Poll.WaitNotBusyPolled | src/main.rs:187-202 | the wait issues only `FLASH_SR` reads and changes no register. It returns Ok exactly when a read succeeds with BSY clear, and then reports that read's elapsed time. It times out only when the last read still saw BSY set and more than 30 s had passed. Every earlier read saw BSY set within the deadline. A transport error means the last read failed |
| Poll.WaitEndsAtFirstPoll | src/main.rs:189-197 | a first poll that succeeds with BSY clear ends the wait at once, reporting the first clock difference |
| Poll.WaitDurationNonNegative | src/main.rs:188-195 | the erase duration reported on success is not negative |
| Downgrade.RequestLevel0Ran | src/main.rs:161-170 | on level 1, the unlock sequence, the PCROP_RDP update and the `FLASH_OPTR` write are issued in that order, stopping at the first failure; only the key registers, `FLASH_PCROP1AER` and `FLASH_OPTR` can change |
| Downgrade.RequestLevel0Value | src/main.rs:162-170 | after those steps succeed, `FLASH_PCROP1AER` has PCROP_RDP set, and `FLASH_OPTR` holds the level-0 value computed from the `FLASH_OPTR` value read before unlocking |
| Downgrade.CheckReadyOutcome | src/main.rs:172-182 | the pre-start check reads `FLASH_SR` once. It goes on exactly when the read succeeds with BSY and PESD both clear. It reports Busy exactly when BSY is set, and Suspended exactly when PESD is set without BSY |
| Downgrade.ProgramAndWaitShape | src/main.rs:184-205 | starting option programming and waiting issue a prefix of the OPTSTRT read, write and flush followed by `FLASH_SR` reads. Every poll but the last saw BSY set before the deadline. Success and timeout come only after all of these succeeded. Success comes exactly when the last poll saw BSY clear, and reports that poll's clock difference. A timeout reports the last poll's clock difference, which is past 30 s |
| Downgrade.CheckThenProgramShape | src/main.rs:172-205 | with the check in front: Busy or Suspended stop the procedure right after the `FLASH_SR` read, before `FLASH_CR` is touched. Success and timeout require the check to have passed |
| Downgrade.DowngradeLvl1Shape | src/main.rs:161-206 | on the whole level-1 path, the trace is a prefix of the plan: unlock, PCROP, OPTR, SR check, CR read/write/flush, polls. Busy and Suspended happen exactly when every access up to the check succeeded and the check saw the bit, and then nothing follows the check. Every poll but the last saw BSY set before the deadline. Success happens only when everything succeeded, the check passed and the last poll saw BSY clear, and it reports that poll's clock difference. A timeout reports the last poll's clock difference, past 30 s. A transport error names the last access, which failed |
| Downgrade.OptrReadFails | src/main.rs:147-149 | a failed `FLASH_OPTR` read ends the procedure at once with that error, after that single access |
| Downgrade.AlreadyOpenIsNoOp | src/main.rs:156-160 | at level 0 the procedure returns Ok after the `FLASH_OPTR` read and issues nothing else |
| Downgrade.Level2IsRefused | src/main.rs:207 | at level 2 the procedure returns the level-2 error after the `FLASH_OPTR` read and issues nothing else |
| Downgrade.Level1IsDowngraded | src/main.rs:152-161 | at level 1 the procedure runs the level-1 path on the `FLASH_OPTR` value it read |
| Downgrade.RemoveProtectionOutcome | src/main.rs:147-208 | the whole procedure reports "already open" exactly at level 0, and the level-2 error exactly at level 2, each right after the one read. It reports a downgrade only at level 1. Then no access failed, the check saw neither BSY nor PESD, and every poll but the last saw BSY set before the deadline. The last poll saw BSY clear, and the erase time is that poll's clock difference, which is not negative. A transport error always names the failed last access |
| Downgrade.ClearedInTimeIsDowngraded | src/main.rs:161-206 | the converse on the level-1 path: if every access up to a poll succeeds, the check saw neither BSY nor PESD, every earlier poll saw BSY set before the deadline, and that poll sees BSY clear, then the path stops right after that poll and reports `Downgraded` with that poll's clock difference |
| Downgrade.ClearedInTimeIsReported | src/main.rs:147-206 | the same converse for the whole procedure started at level 1: it reports `Downgraded` with the clock difference of the first poll that sees BSY clear, and issues nothing after it |
| Effects.Lvl1Writes | src/main.rs:161-206 | the level-1 path writes `FLASH_OPTR` at most once, with `(optr & 0xFFFFFF00) \| 0xAA`. It writes `FLASH_CR` at most once, with OPTSTRT or-ed in, only when `FLASH_OPTR` was also written, and after that write. It never writes `FLASH_CR` when the check saw BSY or PESD, and does write it on success or timeout. It writes nothing outside the five flash registers |
| Effects.RemoveProtectionWrites | src/main.rs:147-208 | the whole procedure writes nothing unless the read succeeded and showed level 1. Every `FLASH_OPTR` write comes before every `FLASH_CR` write. A downgrade it reports comes with exactly one `FLASH_OPTR` write (the level-0 value) and exactly one `FLASH_CR` write (OPTSTRT set) |
| Scenarios.HappyPath | src/main.rs:147-206 | with no failures, level 1, and an idle controller, the procedure succeeds at the first poll. It leaves `FLASH_OPTR` at the level-0 value, PCROP_RDP set, and OPTSTRT set |
| Scenarios.BlankChipIsOpened | src/main.rs:147-206 | `FLASH_OPTR` = 0x000000AB on an otherwise blank controller ends with `FLASH_OPTR` = 0xAA, `FLASH_PCROP1AER` = 0x80000000, `FLASH_CR` = 0x00020000, and an erase time of the first clock difference |
| Scenarios.BusyForeverTimesOut | src/main.rs:147-201 | at level 1 with no failures, a check that sees neither BSY nor PESD and BSY set at every later `FLASH_SR` read, the wait goes round until the first clock reading `j` past 30 s. The procedure then times out with that reading's difference, right after the poll of iteration `j` |
| Scenarios.StuckEraseTimesOut | src/main.rs:187-201 | with polls at 10, 20 and 31 s and BSY never clearing, the loop goes round three times. The procedure times out with 31 s after 17 accesses, having written `FLASH_CR` exactly once, with OPTSTRT |

## Left out

- Probe listing and selection, command-line parsing, the target lookup and
  attaching the session and core (src/main.rs:54-67, 114-145). These are
  calls into `probe_rs` and `clap`. The model starts from an attached core.
- Logging, and the `println!` text at src/main.rs:154 and 204 with the
  `Display` text of the levels. They print text and decide nothing.
- The value `main` returns on success. It is `Ok(())` both at level 0
  (src/main.rs:159) and after a downgrade (src/main.rs:205). The model's
  `Downgrade.Report` stands instead for what the program prints on those two
  paths (src/main.rs:158, 195): `AlreadyOpen` for "Nothing to do", and
  `Downgraded(eraseTime)` for the erase duration it prints.
- Error messages. The `anyhow` context strings become a tag that names what
  failed:
  - `Transport(access)` for a failed probe call, naming the access;
  - `Level2`, `Busy`, `Suspended`;
  - `Timeout(elapsed)`, where the program's timeout error carries no value.
- Real time. `Instant::now()` readings are a caller-supplied sequence:
  - `clock[0]` is read when the wait begins, and `clock[j]` at the j-th poll;
  - the clock must never run backwards, and must pass the 30 s deadline
    within the sequence (`Poll.ClockOk`);
  - on real hardware the monotonic clock always gets there, and this is what
    bounds the loop;
  - durations are whole nanoseconds.
- Nothing is left out in the deadline test, but note one consequence of it.
  The elapsed time reported is `clock[j] - clock[0]`. The loop in `main` tests
  BSY before the deadline, so a BSY-clear read after the deadline still counts
  as success. A success can therefore report more than 30 s. This is what
  the program does, and the model keeps it.
- Hardware behaviour: what the mass erase does, and whether `FLASH_OPTR`
  really reads 0xAA after programming. The model states which accesses are
  issued and what a read returns, not what the silicon does. Every register
  except `FLASH_SR` holds the last value written to it, or its starting
  value if none was. So the key writes do not clear LOCK or OPTLOCK in
  `FLASH_CR`, and the `FLASH_CR` read in `set_optstrt` returns the starting
  `FLASH_CR`. The `Reg(c, FLASH_CR) | OPTSTRT_MASK` in `Effects.Lvl1Writes`,
  `Effects.RemoveProtectionWrites` and `Scenarios.HappyPath` is therefore
  relative to the starting register file. The controller's own status
  changes are an input: the values a `FLASH_SR` read returns at given access
  numbers.
- Why a probe access fails. The set of failing access numbers is an input,
  so every combination of failures is covered.
- The `FLASH_OPTR` value written is computed from the value read before
  unlocking, as `main` does. It is not read again.
- The test module (src/main.rs:211-217). It only looks up the target name.
