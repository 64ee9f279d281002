/** When the transport of pink_write_vm_data can be noticed (pinktrace/write.c). The word-wise
    write goes wrong at the edges of words, counts in an `unsigned int` and reports a failure at
    once differently; process_vm_writev does none of this, and restricts the address to the ABI. */
module WriteAgreement {
  import opened CTypes
  import opened AddressSpace
  import opened VmRead
  import opened VmWrite
  import opened Dispatch

  /** Every outcome over ptrace on `m` has the count and the memory of every outcome over
      process_vm_writev. */
  ghost predicate WritesAgree(m: Memory, wsize: WordSize, addr: nat, len: nat) {
    forall src: seq<byte>, slow: int, slowMem: Memory, fast: int, fastMem: Memory ::
      && SourceSuffices(m.w, addr, len, |src|) && SlowWrite(m, addr, src, len, slow, slowMem)
      && FastWrite(m, SetupAddr(addr, m.w, wsize), true, src, len, fast, fastMem)
      ==> slow == fast && SameBytes(slowMem, fastMem)
  }

  /** A pair of outcomes that differ. */
  lemma Disagree(m: Memory, wsize: WordSize, addr: nat, src: seq<byte>, len: nat, slow: int, slowMem: Memory,
                 fast: int, fastMem: Memory)
    requires SourceSuffices(m.w, addr, len, |src|) && SlowWrite(m, addr, src, len, slow, slowMem)
    requires FastWrite(m, SetupAddr(addr, m.w, wsize), true, src, len, fast, fastMem)
    requires slow != fast || !SameBytes(slowMem, fastMem)
    ensures !WritesAgree(m, wsize, addr, len)
  {
  }

  /** What a caller can check about a write where everything can be written. */
  predicate PlainWrite(w: WordSize, wsize: WordSize, addr: nat, len: nat) {
    Residue(addr, w) == 0 && Residue(len, w) == 0 && InAbiRange(addr, w, wsize) && len < TWO32
  }

  lemma PlainWritesAgree(m: Memory, wsize: WordSize, addr: nat, len: nat)
    requires m.WritablePrefix(addr, len) == len && PlainWrite(m.w, wsize, addr, len)
    ensures WritesAgree(m, wsize, addr, len)
  {
    InRangeAddr(addr, m.w, wsize);
    forall src: seq<byte>, slow: int, slowMem: Memory, fast: int, fastMem: Memory
      | SourceSuffices(m.w, addr, len, |src|) && SlowWrite(m, addr, src, len, slow, slowMem)
        && FastWrite(m, SetupAddr(addr, m.w, wsize), true, src, len, fast, fastMem)
      ensures slow == fast && SameBytes(slowMem, fastMem)
    {
      AlignedWriteCopies(m, slowMem, addr, src, len, len);
    }
  }

  /** Writing ones over ptrace where everything can be written. */
  lemma SlowOnes(m: Memory, addr: nat, len: nat)
    requires m.WritablePrefix(addr, len) == len
    ensures SourceSuffices(m.w, addr, len, len + m.w)
    ensures SlowWrite(m, addr, Ones(len + m.w), len, U32(len), OnesOver(m, addr, len))
  {
    OnesEffect(m, addr, len + m.w, len, len);
  }

  /** An address that the mask moves: memory is mapped where ptrace writes, not where
      process_vm_writev does. */
  lemma MaskedWriteDisagrees(w: WordSize, wsize: WordSize, addr: nat, len: nat)
    requires len > 0 && !InAbiRange(addr, w, wsize)
    ensures !WritesAgree(MappedOnly(w, addr, len), wsize, addr, len)
  {
    var m, a := MappedOnly(w, addr, len), SetupAddr(addr, w, wsize);
    MappedThere(w, addr, len);
    MasksDown(addr);
    Unmapped(w, addr, len, a, len);
    SlowOnes(m, addr, len);
    Disagree(m, wsize, addr, Ones(len + w), len, U32(len), OnesOver(m, addr, len), -1, m);
  }

  /** Writing ones over process_vm_writev where everything can be written. */
  lemma FastOnes(m: Memory, addr: nat, len: nat)
    requires m.WritablePrefix(addr, len) == len
    ensures FastWrite(m, addr, true, Ones(len + m.w), len, len, m.Store(addr, Ones(len)))
  {
    OnesPrefix(len + m.w, len);
  }

  /** Ones that are counted differently or that end up elsewhere. */
  lemma OnesDisagree(m: Memory, wsize: WordSize, addr: nat, len: nat)
    requires m.WritablePrefix(addr, len) == len && SetupAddr(addr, m.w, wsize) == addr
    requires U32(len) != len || !SameBytes(OnesOver(m, addr, len), m.Store(addr, Ones(len)))
    ensures !WritesAgree(m, wsize, addr, len)
  {
    SlowOnes(m, addr, len);
    FastOnes(m, addr, len);
    Disagree(m, wsize, addr, Ones(len + m.w), len, U32(len), OnesOver(m, addr, len), len, m.Store(addr, Ones(len)));
  }

  /** A count that does not fit, or a spill beyond the target. */
  lemma UnevenWriteDisagrees(w: WordSize, wsize: WordSize, addr: nat, len: nat)
    requires len > 0 && InAbiRange(addr, w, wsize) && !PlainWrite(w, wsize, addr, len)
    ensures !WritesAgree(MappedOnly(w, addr, len), wsize, addr, len)
  {
    var m := MappedOnly(w, addr, len);
    MappedThere(w, addr, len);
    InRangeAddr(addr, w, wsize);
    if len < TWO32 {
      Spill(m, addr, len);
    }
    OnesDisagree(m, wsize, addr, len);
  }

  /** All other writes disagree on memory that is mapped just where ptrace writes. */
  lemma OtherWritesDisagree(w: WordSize, wsize: WordSize, addr: nat, len: nat)
    requires len > 0 && !PlainWrite(w, wsize, addr, len)
    ensures var m := MappedOnly(w, addr, len); m.WritablePrefix(addr, len) == len && !WritesAgree(m, wsize, addr, len)
  {
    MappedThere(w, addr, len);
    if InAbiRange(addr, w, wsize) {
      UnevenWriteDisagrees(w, wsize, addr, len);
    } else {
      MaskedWriteDisagrees(w, wsize, addr, len);
    }
  }

  /** Where everything can be written, the transports agree exactly on whole words at a word
      boundary that the ABI can address and whose number of bytes an `unsigned int` can hold. */
  lemma WritableWritesAgreeIff(w: WordSize, wsize: WordSize, addr: nat, len: nat)
    ensures (forall m: Memory :: m.w == w && m.WritablePrefix(addr, len) == len ==> WritesAgree(m, wsize, addr, len))
        <==> len == 0 || PlainWrite(w, wsize, addr, len)
  {
    if len == 0 {
      forall m: Memory | m.w == w ensures WritesAgree(m, wsize, addr, len) {
        EmptyWritesAgree(m, wsize, addr);
      }
    } else if PlainWrite(w, wsize, addr, len) {
      forall m: Memory | m.w == w && m.WritablePrefix(addr, len) == len ensures WritesAgree(m, wsize, addr, len) {
        PlainWritesAgree(m, wsize, addr, len);
      }
    } else {
      OtherWritesDisagree(w, wsize, addr, len);
    }
  }

  lemma EmptyWritesAgree(m: Memory, wsize: WordSize, addr: nat)
    ensures WritesAgree(m, wsize, addr, 0)
  {
  }

  /** A failure at once is a large number on a 64-bit host, and -1 over process_vm_writev. */
  lemma FailuresDisagree(wsize: WordSize, addr: nat, len: nat)
    requires len > 0
    ensures !WritesAgree(Memory(8, map[], map[], map[]), wsize, addr, len)
  {
    var m := Memory(8, map[], map[], map[]);
    FirstWordFailure(m, addr, len);
    WritablePrefixIs(m, addr, len, 0);
    WritablePrefixIs(m, SetupAddr(addr, 8, wsize), len, 0);
    Disagree(m, wsize, addr, Ones(len + 8), len, WriteCount(m, addr, len), m, -1, m);
  }

  /** A fault after the first word: process_vm_writev may have stored part of that word only. */
  lemma PartialWritesDisagree(wsize: WordSize, addr: nat, len: nat)
    requires Residue(addr, 4) == 0 && len > 4
    ensures !WritesAgree(MappedOnly(4, addr, 4), wsize, addr, len)
  {
    var m, src := MappedOnly(4, addr, 4), Ones(len + 4);
    MappedThere(4, addr, 4);
    WritablePrefixFacts(m, addr, 4);
    NextWord(addr, 4);
    assert WordIndex(addr + 3, 4) == WordIndex(addr, 4) by { SameWord(addr, addr + 3, 4); }
    assert !m.Writable(addr + 4);
    WritablePrefixIs(m, addr, len, 4);
    OnesEffect(m, addr, len + 4, len, 4);
    Disagree(m, wsize, addr, src, len, WriteCount(m, addr, len), OnesOver(m, addr, 4), 1, m.Store(addr, src[..1]));
  }

  /** One word of a 32-bit host is written entirely or not at all. */
  lemma OneWordAgrees(m: Memory, wsize: WordSize, addr: nat)
    requires m.w == 4 && Residue(addr, 4) == 0
    ensures WritesAgree(m, wsize, addr, 4)
  {
    WordWritable(m, addr);
    WritablePrefixFacts(m, addr, 4);
    if m.Writable(addr) {
      PlainWritesAgree(m, wsize, addr, 4);
    } else {
      FirstWordFailure(m, addr, 4);
    }
  }

  /** Faults included, only single words of a 32-bit host are left. */
  lemma WritesAgreeIff(w: WordSize, wsize: WordSize, addr: nat, len: nat)
    ensures (forall m: Memory :: m.w == w ==> WritesAgree(m, wsize, addr, len))
        <==> len == 0 || (w == 4 && Residue(addr, 4) == 0 && len == 4)
  {
    if len == 0 {
      forall m: Memory | m.w == w ensures WritesAgree(m, wsize, addr, len) {
        EmptyWritesAgree(m, wsize, addr);
      }
    } else if w == 8 {
      FailuresDisagree(wsize, addr, len);
    } else if Residue(addr, 4) != 0 || len < 4 {
      OtherWritesDisagree(w, wsize, addr, len);
    } else if len > 4 {
      PartialWritesDisagree(wsize, addr, len);
    } else {
      forall m: Memory | m.w == w ensures WritesAgree(m, wsize, addr, len) {
        OneWordAgrees(m, wsize, addr);
      }
    }
  }
}
