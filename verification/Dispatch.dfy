/** The dispatchers that choose a transport (pinktrace/read.c, pinktrace/write.c), and when the
    choice can be noticed. */
module Dispatch {
  import opened CTypes
  import opened AddressSpace
  import opened Kernel
  import opened VmRead
  import opened VmString
  import opened VmChunks
  import opened VmWrite

  /** The errors on which the dispatchers fall back to ptrace. */
  predicate FallsBack(attachErr: nat) {
    attachErr == ENOSYS || attachErr == EPERM
  }

  /** The address that a read goes to: the fast transport restricts it to the ABI, ptrace does
      not. */
  function ReadAddr(m: Memory, attachErr: nat, wsize: WordSize, addr: nat): (a: nat) {
    if FallsBack(attachErr) then addr else SetupAddr(addr, m.w, wsize)
  }

  /** pink_read_vm_data. */
  method ReadVmData(t: Tracee, wsize: WordSize, addr: nat, dest: array<byte>, len: nat) returns (r: int)
    requires len <= dest.Length && IsObjectSize(len, t.mem.w)
    modifies t`mem, t`errno, t`peeks, t`requests, dest
    ensures t.mem == old(t.mem) && r <= len
    ensures FallsBack(t.attachErr) ==>
              && r == (if t.mem.Prefix(addr, len) == len then U32(len) else -1)
              && t.errno == (if len == 0 then t.attachErr else ReadError(t.mem, addr, len))
              && dest[..] == Overwrite(old(dest[..]), 0, t.mem.Slice(addr, t.mem.Prefix(addr, len)))
    ensures t.attachErr != 0 && !FallsBack(t.attachErr) ==>
              r == -1 && t.errno == t.attachErr && dest[..] == old(dest[..])
    ensures t.attachErr == 0 ==>
              var a := SetupAddr(addr, t.mem.w, wsize); var p := t.mem.Prefix(a, len);
              if len > 0 && p == 0 then r == -1 && t.errno == EFAULT && dest[..] == old(dest[..])
              else
                && 0 <= r <= p && (len > 0 ==> r > 0) && (t.full && p == len ==> r == len)
                && t.errno == 0 && dest[..] == Overwrite(old(dest[..]), 0, t.mem.Slice(a, r))
  {
    t.errno := 0;
    r := CRead(t, wsize, addr, dest, len);
    if t.errno == ENOSYS || t.errno == EPERM {
      r := LRead(t, addr, dest, len);
    }
  }

  /** What pink_read_vm_data_full returns over ptrace. */
  function SlowFull(m: Memory, addr: nat, len: nat): (r: int) {
    if m.Prefix(addr, len) < len then -ReadError(m, addr, len)
    else if U32(len) != len then -EFAULT
    else 0
  }

  /** What it returns over process_vm_readv, when that completes on mapped ranges. */
  function FastFull(m: Memory, a: nat, len: nat): (r: int) {
    if m.Prefix(a, len) < len then -EFAULT else 0
  }

  /** A full read was cut short although process_vm_readv works: the one failure that is not
      decided by the address space. */
  ghost predicate CutShort(t: Tracee, r: int) {
    t.attachErr == 0 && !t.full && r == -EFAULT
  }

  /** The error of pink_read_vm_data_full, 0 if it succeeds, unless it is cut short. */
  function FullError(m: Memory, attachErr: nat, wsize: WordSize, addr: nat, len: nat): (e: int) {
    if FallsBack(attachErr) then -SlowFull(m, addr, len)
    else if attachErr != 0 then attachErr
    else -FastFull(m, SetupAddr(addr, m.w, wsize), len)
  }

  /** A fault has an error. */
  lemma ReadErrorPositive(m: Memory, addr: nat, len: nat)
    ensures ReadError(m, addr, len) >= 0
    ensures ReadError(m, addr, len) == 0 <==> m.Prefix(addr, len) == len
    ensures m.OnlyAddressFaults() && m.Prefix(addr, len) < len ==> ReadError(m, addr, len) == EFAULT
  {
    PrefixFacts(m, addr, len);
  }

  /** pink_read_vm_data_full. A result of 0 means that all the bytes are there. */
  method ReadVmDataFull(t: Tracee, wsize: WordSize, addr: nat, dest: array<byte>, len: nat) returns (r: int)
    requires len <= dest.Length && IsObjectSize(len, t.mem.w)
    modifies t`mem, t`errno, t`peeks, t`requests, dest
    ensures t.mem == old(t.mem) && r <= 0
    ensures r == 0 ==>
              dest[..] == Overwrite(old(dest[..]), 0, t.mem.Slice(ReadAddr(t.mem, t.attachErr, wsize, addr), len))
    ensures r == 0 ==> t.mem.Prefix(ReadAddr(t.mem, t.attachErr, wsize, addr), len) == len
    ensures FallsBack(t.attachErr) ==> r == SlowFull(t.mem, addr, len)
    ensures t.attachErr != 0 && !FallsBack(t.attachErr) ==> r == -(t.attachErr as int)
    ensures t.attachErr == 0 ==> r == 0 || r == -EFAULT
    ensures t.attachErr == 0 && t.full ==> r == FastFull(t.mem, SetupAddr(addr, t.mem.w, wsize), len)
  {
    t.errno := 0;
    var l := ReadVmData(t, wsize, addr, dest, len);
    ReadErrorPositive(t.mem, addr, len);
    if l < 0 {
      return -t.errno;
    }
    if len != l {
      return -EFAULT;
    }
    return 0;
  }

  // ---------------------------------------------------------------------------
  // Transport independence
  // ---------------------------------------------------------------------------

  /** Both transports give the same verdict on every address space, and the same bytes. */
  ghost predicate TransportsAgree(w: WordSize, wsize: WordSize, addr: nat, len: nat) {
    forall m: Memory :: m.w == w && m.OnlyAddressFaults() ==>
      && SlowFull(m, addr, len) == FastFull(m, SetupAddr(addr, w, wsize), len)
      && (SlowFull(m, addr, len) == 0 ==> m.Slice(addr, len) == m.Slice(SetupAddr(addr, w, wsize), len))
  }

  lemma MasksDown(addr: nat)
    requires addr >= TWO32
    ensures addr % TWO32 + TWO32 <= addr
  {
  }

  lemma InRangeAddr(addr: nat, w: WordSize, wsize: WordSize)
    requires InAbiRange(addr, w, wsize)
    ensures SetupAddr(addr, w, wsize) == addr
  {
  }

  /** pink_read_vm_data_full does not depend on the transport exactly for addresses that the
      ABI can form and lengths that the ptrace transport's counter can hold. */
  lemma TransportsAgreeIff(w: WordSize, wsize: WordSize, addr: nat, len: nat)
    ensures TransportsAgree(w, wsize, addr, len) <==> len == 0 || (InAbiRange(addr, w, wsize) && len < TWO32)
  {
    var a := SetupAddr(addr, w, wsize);
    if len == 0 {
    } else if len >= TWO32 {
      var m := MappedOnly(w, a, len);
      MappedThere(w, a, len);
      ReadErrorPositive(m, addr, len);
      assert FastFull(m, a, len) == 0 && SlowFull(m, addr, len) != 0;
    } else if !InAbiRange(addr, w, wsize) {
      var m := MappedOnly(w, addr, len);
      MappedThere(w, addr, len);
      MasksDown(addr);
      Unmapped(w, addr, len, a, len);
      assert SlowFull(m, addr, len) == 0 && FastFull(m, a, len) != 0;
    } else {
      InRangeAddr(addr, w, wsize);
      forall m: Memory | m.w == w && m.OnlyAddressFaults()
        ensures SlowFull(m, addr, len) == FastFull(m, a, len)
      {
        ReadErrorPositive(m, addr, len);
      }
    }
  }

  // ---------------------------------------------------------------------------
  // Strings
  // ---------------------------------------------------------------------------

  /** pink_read_vm_data_nul. `copied` bytes end up in `dest`. */
  method ReadVmDataNul(t: Tracee, wsize: WordSize, addr: nat, dest: array<byte>, len: nat)
    returns (r: int, ghost copied: nat)
    requires len <= dest.Length && len < TWO31
    modifies t`mem, t`errno, t`peeks, t`requests, dest
    ensures t.mem == old(t.mem) && copied <= len
    ensures len > 0 && FallsBack(t.attachErr) ==>
              && r == SlowCount(t.mem, addr, len) && copied == SlowCopied(t.mem, addr, len)
              && t.errno == ReadError(t.mem, addr, Needed(t.mem, addr, len))
    ensures len > 0 && t.attachErr != 0 && !FallsBack(t.attachErr) ==>
              r == -1 && t.errno == t.attachErr && copied == 0
    ensures var a := SetupAddr(addr, t.mem.w, wsize);
            len == 0 || t.attachErr == 0 ==>
              && r == FastCount(t.mem, a, len) && r <= copied <= t.mem.Prefix(a, len)
              && t.errno == if FastFaults(t.mem, a, len) then EFAULT else 0
    ensures dest[..] == Overwrite(old(dest[..]), 0, t.mem.Slice(ReadAddr(t.mem, t.attachErr, wsize, addr), copied))
  {
    t.errno := 0;
    ghost var before := dest[..];
    ghost var log;
    r, copied, log := CReadNul(t, wsize, addr, dest, len);
    if t.errno == ENOSYS || t.errno == EPERM {
      assert dest[..] == before;
      copied := SlowCopied(t.mem, addr, len);
      r := LReadNul(t, addr, dest, len);
    }
  }

  /** The two counts of a string whose NUL at offset `k` is within reach of both transports. */
  lemma StringCounts(m: Memory, addr: nat, len: nat, k: nat)
    requires k < len && m.FirstNul(addr, len) == k && m.Prefix(addr, k + 1) == k + 1
    ensures FastCount(m, addr, len) == k + 1
    ensures SlowCount(m, addr, len) == if Residue(addr, m.w) + k < m.w then Residue(addr, m.w) + k else k
    ensures k < SlowCopied(m, addr, len)
  {
    FirstNulFacts(m, addr, len);
    PrefixFacts(m, addr, k + 1);
    PrefixFacts(m, addr, len);
    FirstNulIs(m, addr, m.Span(addr, len), k);
  }

  /** When the two string reads return the same count, on one address space and at one address, in
      terms of where the first fault and the first NUL are: nothing asked for; a fault at once; no
      fault before `len` and no NUL before the end of the last word; a NUL in that word but not
      before `len`, exactly at `len` and not in the first word of an unaligned string; a NUL
      before `len` in the first word of a string that starts one byte into it. */
  predicate CountsShouldAgree(m: Memory, addr: nat, len: nat) {
    if len == 0 then true
    else
      var k, residue := SeenNul(m, addr, len), Residue(addr, m.w);
      if m.Prefix(addr, len) <= Min(k, len - 1) then m.Prefix(addr, len) == 0
      else if k < len then residue == 1 && 1 + k < m.w
      else if NulSeen(m, addr, len) then k == len && (residue == 0 || residue + k >= m.w)
      else true
  }

  lemma StringCountsAgreeIff(m: Memory, addr: nat, len: nat)
    requires len < TWO31
    ensures FastCount(m, addr, len) == SlowCount(m, addr, len) <==> CountsShouldAgree(m, addr, len)
  {
    if len > 0 {
      NulWithin(m, addr, len);
      PrefixWithin(m, addr, Needed(m, addr, len), len);
    }
  }

  /** The string reads return the same count over both transports, whatever the address space. */
  ghost predicate CountsAlwaysAgree(w: WordSize, wsize: WordSize, addr: nat, len: nat) {
    forall m: Memory :: m.w == w ==> FastCount(m, SetupAddr(addr, w, wsize), len) == SlowCount(m, addr, len)
  }

  /** Of the requests for at least one byte, exactly those that start one byte into a word and end
      with that word get a count that does not depend on the transport. */
  lemma CountsAlwaysAgreeIff(w: WordSize, wsize: WordSize, addr: nat, len: nat)
    requires len < TWO31
    ensures CountsAlwaysAgree(w, wsize, addr, len)
        <==> len == 0 || (InAbiRange(addr, w, wsize) && Residue(addr, w) == 1 && len == w - 1)
  {
    if len == 0 {
    } else if !InAbiRange(addr, w, wsize) {
      MaskedCountDiffers(w, wsize, addr, len);
    } else {
      InRangeAddr(addr, w, wsize);
      if Residue(addr, w) != 1 {
        CountsDiffer(w, addr, len, 0);
      } else if len >= w {
        CountsDiffer(w, addr, len, w - 1);
      } else if len < w - 1 {
        CountsDiffer(w, addr, len, len);
      } else {
        forall m: Memory | m.w == w ensures FastCount(m, addr, len) == SlowCount(m, addr, len) {
          RestOfWordCounts(m, addr);
        }
      }
    }
  }

  /** Below an address that the mask moves there need be nothing. */
  lemma MaskedCountDiffers(w: WordSize, wsize: WordSize, addr: nat, len: nat)
    requires 0 < len < TWO31 && !InAbiRange(addr, w, wsize)
    ensures !CountsAlwaysAgree(w, wsize, addr, len)
  {
    var m, a := MappedOnly(w, addr, len), SetupAddr(addr, w, wsize);
    MappedThere(w, addr, len);
    MasksDown(addr);
    Unmapped(w, addr, len, a, len);
    PrefixWithin(m, addr, Needed(m, addr, len), len);
    assert FastCount(m, a, len) == -1 && SlowCount(m, addr, len) >= 0;
  }

  /** A string of `k` ones that is counted differently. */
  lemma CountsDiffer(w: WordSize, addr: nat, len: nat, k: nat)
    requires 0 < len < TWO31
    requires if k == 0 then Residue(addr, w) != 1
             else Residue(addr, w) == 1 && (if k == len then len < w - 1 else k == w - 1 < len)
    ensures exists m: Memory :: m.w == w && FastCount(m, addr, len) != SlowCount(m, addr, len)
  {
    var m := StringOnly(w, addr, len, k);
    if k == len {
      AlignSameWord(m, addr, addr + len - 1);
      assert m.Span(addr, len) == w - 1;
    }
    StringThere(w, addr, len, k, m.Span(addr, len));
    StringCountsAgreeIff(m, addr, len);
  }

  /** The rest of a word, from its second byte on. */
  lemma RestOfWordCounts(m: Memory, addr: nat)
    requires Residue(addr, m.w) == 1
    ensures FastCount(m, addr, m.w - 1) == SlowCount(m, addr, m.w - 1)
  {
    var len := m.w - 1;
    StringCountsAgreeIff(m, addr, len);
    WordReadable(m, addr);
    PrefixFacts(m, addr, len);
    SameWord(addr, addr + len - 1, m.w);
    assert m.Span(addr, len) == len;
  }

  /** The first NUL of the shorter range is the first of the longer one, or there is none in it. */
  lemma NulWithin(m: Memory, addr: nat, len: nat)
    requires len > 0
    ensures m.FirstNul(addr, len) == Min(len, SeenNul(m, addr, len))
  {
    FirstNulFacts(m, addr, m.Span(addr, len));
    FirstNulIs(m, addr, len, Min(len, SeenNul(m, addr, len)));
  }

  lemma PrefixWithin(m: Memory, addr: nat, n: nat, len: nat)
    requires n <= len
    ensures m.Prefix(addr, n) == Min(n, m.Prefix(addr, len))
  {
    PrefixFacts(m, addr, len);
    PrefixIs(m, addr, n, Min(n, m.Prefix(addr, len)));
  }

  /** An aligned string is never counted alike once it has a NUL within `len`: the ptrace
      transport leaves the NUL out of the count that the documentation says includes it. */
  lemma AlignedStringsDiffer(m: Memory, addr: nat, len: nat)
    requires 0 < len < TWO31 && Residue(addr, m.w) == 0
    requires m.FirstNul(addr, len) < len && m.Prefix(addr, len) == len
    ensures SlowCount(m, addr, len) == FastCount(m, addr, len) - 1
  {
    NulWithin(m, addr, len);
    PrefixWithin(m, addr, m.FirstNul(addr, len) + 1, len);
    StringCounts(m, addr, len, m.FirstNul(addr, len));
  }

  // ---------------------------------------------------------------------------
  // Writing
  // ---------------------------------------------------------------------------

  /** The result and the memory after a write of the first `len` bytes of `src` over ptrace. */
  ghost predicate SlowWrite(m: Memory, addr: nat, src: seq<byte>, len: nat, r: int, m': Memory)
    requires SourceSuffices(m.w, addr, len, |src|)
  {
    r == WriteCount(m, addr, len) && WriteEffect(m, m', addr, src, len, m.WritablePrefix(addr, len))
  }

  /** The same over process_vm_writev, which stores some prefix of what can be written. */
  ghost predicate FastWrite(m: Memory, a: nat, full: bool, src: seq<byte>, len: nat, r: int, m': Memory)
    requires len <= |src|
  {
    var p := m.WritablePrefix(a, len);
    if len > 0 && p == 0 then r == -1 && m' == m
    else 0 <= r <= p && (len > 0 ==> r > 0) && (full && p == len ==> r == len) && m' == m.Store(a, src[..r])
  }

  /** pink_write_vm_data. */
  method WriteVmData(t: Tracee, wsize: WordSize, addr: nat, src: array<byte>, len: nat) returns (r: int)
    requires IsObjectSize(len, t.mem.w) && SourceSuffices(t.mem.w, addr, len, src.Length)
    modifies t`mem, t`errno, t`peeks
    ensures FallsBack(t.attachErr) ==>
              && SlowWrite(old(t.mem), addr, src[..], len, r, t.mem)
              && t.errno == if len == 0 then t.attachErr else WriteError(old(t.mem), addr, len)
    ensures t.attachErr != 0 && !FallsBack(t.attachErr) ==>
              r == -1 && t.errno == t.attachErr && t.mem == old(t.mem)
    ensures t.attachErr == 0 ==>
              && FastWrite(old(t.mem), SetupAddr(addr, old(t.mem.w), wsize), t.full, src[..], len, r, t.mem)
              && t.errno == if r < 0 then EFAULT else 0
  {
    t.errno := 0;
    r := CWrite(t, wsize, addr, src, len);
    if t.errno == ENOSYS || t.errno == EPERM {
      r := LWrite(t, addr, src, len);
    }
  }

  /** Writing whole words and reading them back, over either transport: the bytes return, and
      everything around them is as before. */
  method WriteThenRead(t: Tracee, wsize: WordSize, addr: nat, src: array<byte>, dest: array<byte>, len: nat)
    returns (written: int, r: int)
    requires len <= src.Length && len <= dest.Length && src != dest
    requires len < TWO32 && IsObjectSize(len, t.mem.w)
    requires Residue(addr, t.mem.w) == 0 && Residue(len, t.mem.w) == 0 && InAbiRange(addr, t.mem.w, wsize)
    requires t.mem.Prefix(addr, len) == len && t.mem.WritablePrefix(addr, len) == len
    requires FallsBack(t.attachErr) || (t.attachErr == 0 && t.full)
    modifies t`mem, t`errno, t`peeks, t`requests, dest
    ensures written == len && r == 0 && dest[..len] == src[..len]
    ensures forall b: nat :: !(addr <= b < addr + len) ==> t.mem.At(b) == old(t.mem.At(b))
  {
    ghost var m, bytes := t.mem, src[..];
    InRangeAddr(addr, m.w, wsize);
    written := WriteVmData(t, wsize, addr, src, len);
    ghost var now := t.mem;
    Stored(m, now, addr, bytes, len);
    assert SlowFull(now, addr, len) == 0 && FastFull(now, addr, len) == 0;
    r := ReadVmDataFull(t, wsize, addr, dest, len);
  }

  /** Both ways of writing whole words leave memory with the bytes stored. */
  lemma Stored(m: Memory, now: Memory, addr: nat, src: seq<byte>, len: nat)
    requires len <= |src| && Residue(addr, m.w) == 0 && Residue(len, m.w) == 0
    requires m.WritablePrefix(addr, len) == len && SourceSuffices(m.w, addr, len, |src|)
    requires now == m.Store(addr, src[..len]) || WriteEffect(m, now, addr, src, len, len)
    ensures now.Prefix(addr, len) == m.Prefix(addr, len) && now.Slice(addr, len) == src[..len]
    ensures forall b: nat :: !(addr <= b < addr + len) ==> now.At(b) == m.At(b)
  {
    SamePrefix(m, now, addr, len);
    if now == m.Store(addr, src[..len]) {
      assert now.Slice(addr, len) == src[..len];
    } else {
      AlignedWriteOutcome(m, now, addr, src, len);
      var s := m.Store(addr, src[..len]);
      assert forall b: nat :: now.At(b) == s.At(b);
    }
  }
}
