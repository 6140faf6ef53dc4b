/**
  The STM32WL flash-controller registers that the readout-protection (RDP)
  downgrade touches, the bit masks and unlock keys it uses, and the accesses a
  debug probe issues against them.
 */
module Registers {

  /** A byte address on the target's bus. */
  type Addr = nat

  /** Every flash-controller register is 32 bits wide. */
  type Word = bv32

  const FLASH_KEYR: Addr := 0x5800_4008
  const FLASH_OPTKEYR: Addr := 0x5800_400C
  const FLASH_SR: Addr := 0x5800_4010
  const FLASH_CR: Addr := 0x5800_4014
  const FLASH_OPTR: Addr := 0x5800_4020
  const FLASH_PCROP1AER: Addr := 0x5800_4028

  /** FLASH_PCROP1AER: erase the PCROP area when RDP drops from level 1 to 0. */
  const PCROP_RDP_MASK: Word := 1 << 31
  /** FLASH_CR: start option-byte programming. */
  const OPTSTRT_MASK: Word := 1 << 17
  /** FLASH_SR: an operation is in progress. */
  const BSY_MASK: Word := 1 << 16
  /** FLASH_SR: program/erase is suspended. */
  const PESD_MASK: Word := 1 << 19

  /** The two key pairs that unlock FLASH_CR and the option bytes. */
  const FLASH_KEY1: Word := 0x4567_0123
  const FLASH_KEY2: Word := 0xCDEF_89AB
  const OPT_KEY1: Word := 0x0819_2A3B
  const OPT_KEY2: Word := 0x4C5D_6E7F

  /** One access the probe issues: a 32-bit read, a 32-bit write, or a flush. */
  datatype Access = Read(addr: Addr) | Write(addr: Addr, value: Word) | Flush

  predicate IsWriteTo(x: Access, a: Addr)
  {
    x.Write? && x.addr == a
  }

  /** In `t`, every write to `a` comes before every write to `b`. */
  predicate WritesBefore(t: seq<Access>, a: Addr, b: Addr)
  {
    forall i, k :: 0 <= i < |t| && 0 <= k < |t| && IsWriteTo(t[i], a) && IsWriteTo(t[k], b) ==> i < k
  }

  /** A read in front of `t` keeps the order of its writes. */
  lemma WritesBeforeAfterRead(x: Addr, t: seq<Access>, a: Addr, b: Addr)
    requires WritesBefore(t, a, b)
    ensures WritesBefore([Read(x)] + t, a, b)
  {
    var u := [Read(x)] + t;
    forall i, k | 0 <= i < |u| && 0 <= k < |u| && IsWriteTo(u[i], a) && IsWriteTo(u[k], b)
      ensures i < k
    {
      assert u[i] == t[i - 1] && u[k] == t[k - 1];
    }
  }

  /** Or-ing in a mask sets its bits and keeps every other bit. */
  lemma SetBits(v: Word, m: Word)
    ensures (v | m) & m == m
    ensures (v | m) & !m == v & !m
  {
  }

  /** Or-ing in a mask whose bits are already set changes nothing. */
  lemma SetBitsAlreadySet(v: Word, m: Word)
    requires v & m == m
    ensures v | m == v
  {
  }

  /** The value `x` writes to `a`, if it is a write to `a`. */
  function WrittenBy(x: Access, a: Addr): seq<Word>
  {
    if IsWriteTo(x, a) then [x.value] else []
  }

  /** The values written to `a` in `t`, in the order they were written. */
  function Written(t: seq<Access>, a: Addr): seq<Word>
  {
    if t == [] then [] else WrittenBy(t[0], a) + Written(t[1..], a)
  }

  lemma {:induction false} WrittenAppend(s: seq<Access>, t: seq<Access>, a: Addr)
    ensures Written(s + t, a) == Written(s, a) + Written(t, a)
    decreases |s|
  {
    if s == [] {
      assert s + t == t;
    } else {
      var h := WrittenBy(s[0], a);
      assert (s + t)[0] == s[0];
      assert (s + t)[1..] == s[1..] + t;
      WrittenAppend(s[1..], t, a);
      calc {
        Written(s + t, a);
        h + Written(s[1..] + t, a);
        h + (Written(s[1..], a) + Written(t, a));
        (h + Written(s[1..], a)) + Written(t, a);
        Written(s, a) + Written(t, a);
      }
    }
  }

  lemma {:induction false} WrittenNone(t: seq<Access>, a: Addr)
    requires forall i :: 0 <= i < |t| ==> !IsWriteTo(t[i], a)
    ensures Written(t, a) == []
    decreases |t|
  {
    if t != [] {
      WrittenNone(t[1..], a);
    }
  }

  lemma WrittenSingle(x: Access, a: Addr)
    ensures Written([x], a) == WrittenBy(x, a)
  {
    assert [x][1..] == [];
  }

  /** A read in front of `t` writes nothing. */
  lemma WrittenAfterRead(b: Addr, t: seq<Access>)
    ensures forall a :: Written([Read(b)] + t, a) == Written(t, a)
  {
    forall a
      ensures Written([Read(b)] + t, a) == Written(t, a)
    {
      WrittenAppend([Read(b)], t, a);
      WrittenSingle(Read(b), a);
    }
  }

  /** When `t` writes `a` only at index `k`, a prefix of `t` has written `a`
      once if it reaches past `k`, and not at all otherwise. */
  lemma WrittenOnce(t: seq<Access>, k: nat, a: Addr, n: nat)
    requires k < |t| && IsWriteTo(t[k], a)
    requires forall i :: 0 <= i < |t| && i != k ==> !IsWriteTo(t[i], a)
    requires n <= |t|
    ensures Written(t[..n], a) == if k < n then [t[k].value] else []
  {
    if n <= k {
      WrittenNone(t[..n], a);
    } else {
      assert t[..n] == t[..k] + [t[k]] + t[k + 1..n];
      WrittenAppend(t[..k] + [t[k]], t[k + 1..n], a);
      WrittenAppend(t[..k], [t[k]], a);
      WrittenNone(t[..k], a);
      WrittenNone(t[k + 1..n], a);
      WrittenSingle(t[k], a);
    }
  }

  /** `n` reads of FLASH_SR, the only accesses the busy-poll issues. */
  function SrReads(n: nat): (t: seq<Access>)
    ensures |t| == n
    ensures forall i :: 0 <= i < n ==> t[i] == Read(FLASH_SR)
  {
    seq(n, _ => Read(FLASH_SR))
  }
}
