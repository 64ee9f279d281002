/** Reading NUL-terminated strings from the tracee word by word (pinktrace/vm.c). The
    specifications speak of the first NUL and of the readable prefix only. */
module VmString {
  import opened CTypes
  import opened AddressSpace
  import opened Kernel
  import opened VmRead

  /** Offset of the first NUL that the word-wise scan can see. It looks at whole words, so the
      scan reaches the end of the last word even where that lies beyond `len`. Without a NUL
      this is the length of the scanned range, which is never less than `len`. */
  function SeenNul(m: Memory, addr: nat, len: nat): (k: nat)
    requires len > 0
  {
    m.FirstNul(addr, m.Span(addr, len))
  }

  /** There is a NUL where the word-wise scan looks. */
  predicate NulSeen(m: Memory, addr: nat, len: nat)
    requires len > 0
  {
    SeenNul(m, addr, len) < m.Span(addr, len)
  }

  /** How many bytes have to be readable: up to the first NUL, or up to `len`. */
  function Needed(m: Memory, addr: nat, len: nat): (n: nat)
    ensures n <= len && (len > 0 ==> n > 0)
  {
    if len == 0 then 0 else Min(len, SeenNul(m, addr, len) + 1)
  }

  predicate SlowSucceeds(m: Memory, addr: nat, len: nat) {
    m.Prefix(addr, Needed(m, addr, len)) == Needed(m, addr, len)
  }

  /** What pink_vm_lread_nul returns. The NUL itself is not counted, and a NUL in the first
      word is counted from the start of that word rather than from `addr`. */
  function SlowCount(m: Memory, addr: nat, len: nat): (r: int) {
    if len == 0 then 0
    else if !SlowSucceeds(m, addr, len) then -1
    else if NulSeen(m, addr, len) then
      var k := SeenNul(m, addr, len);
      if Residue(addr, m.w) + k < m.w then Residue(addr, m.w) + k else k
    else U32(len)
  }

  /** How many bytes pink_vm_lread_nul copies: all of the word that ends the scan. */
  function SlowCopied(m: Memory, addr: nat, len: nat): (c: nat)
    ensures c <= len
  {
    var n := Needed(m, addr, len);
    if !SlowSucceeds(m, addr, len) then m.Prefix(addr, n)
    else if len == 0 then 0 else Min(len, m.Span(addr, n))
  }

  /** How many bytes bring up the last word that is peeked. */
  function PeekedBytes(m: Memory, addr: nat, len: nat): (n: nat) {
    var need := Needed(m, addr, len);
    Min(need, m.Prefix(addr, need) + 1)
  }

  /** The scan of one word of bytes `u` from index `residue`: the first NUL, or the end. */
  method ScanWord(u: Word, residue: nat) returns (j: nat)
    requires residue <= |u|
    ensures residue <= j <= |u|
    ensures forall i :: residue <= i < j ==> u[i] != 0
    ensures j < |u| ==> u[j] == 0
  {
    j := residue;
    while j < |u|
      invariant residue <= j <= |u|
      invariant forall i :: residue <= i < j ==> u[i] != 0
    {
      if u[j] == 0 {
        return;
      }
      j := j + 1;
    }
  }

  /** No NUL in the `off` bytes read so far; after the last word, none in all of that word. */
  predicate ScannedTo(m: Memory, addr: nat, len: nat, off: nat)
    requires off <= len
  {
    m.FirstNul(addr, if 0 < off == len then m.Span(addr, len) else off)
      == if 0 < off == len then m.Span(addr, len) else off
  }

  /** The scan of a word, in terms of the tracee's memory. */
  lemma ScanIsMemory(m: Memory, a: nat, j: nat)
    requires Residue(a, m.w) <= j <= m.w
    requires var u := m.Slice(m.Align(a), m.w);
             (forall i :: Residue(a, m.w) <= i < j ==> u[i] != 0) && (j < m.w ==> u[j] == 0)
    ensures forall x: nat :: a <= x < m.Align(a) + j ==> m.At(x) != 0
    ensures j < m.w ==> m.At(m.Align(a) + j) == 0
  {
    var u := m.Slice(m.Align(a), m.w);
    forall x: nat | a <= x < m.Align(a) + j ensures m.At(x) != 0 {
      assert u[x - m.Align(a)] == m.At(x);
    }
  }

  lemma ScanWholeWord(m: Memory, addr: nat, len: nat, off: nat, n: nat)
    requires off < len && ScannedTo(m, addr, len, off)
    requires n == Min(m.w - Residue(addr + off, m.w), len - off) && n > 0
    requires forall x: nat :: addr + off <= x < m.Align(addr + off) + m.w ==> m.At(x) != 0
    ensures ScannedTo(m, addr, len, off + n)
  {
    AlignSameWord(m, addr + off, addr + off + n - 1);
    var end := if off + n == len then m.Span(addr, len) else off + n;
    FirstNulFacts(m, addr, off);
    FirstNulIs(m, addr, end, end);
  }

  /** Where the scan stops is determined by what it has seen: no NUL before `addr + off`, and
      the first one in the word there, at offset `k`. */
  lemma NulInThisWord(m: Memory, addr: nat, len: nat, off: nat, k: nat)
    requires off < len
    requires off <= k && addr + k < m.Align(addr + off) + m.w
    requires ScannedTo(m, addr, len, off)
    requires forall x: nat :: addr + off <= x < addr + k ==> m.At(x) != 0
    requires m.At(addr + k) == 0
    ensures SeenNul(m, addr, len) == k && NulSeen(m, addr, len)
  {
    var s := m.Span(addr, len);
    AlignMonotone(m, addr + off, addr + len - 1);
    FirstNulFacts(m, addr, off);
    FirstNulIs(m, addr, s, k);
  }

  /** The bytes needed up to a NUL in the word at `off` are readable and end in that word. */
  lemma NulInWord(m: Memory, addr: nat, len: nat, off: nat, k: nat)
    requires off < len && off <= k && addr + k < m.Align(addr + off) + m.w
    requires SeenNul(m, addr, len) == k
    requires forall x: nat :: addr <= x < addr + off ==> m.Readable(x)
    requires forall x: nat :: addr + off <= x < m.Align(addr + off) + m.w ==> m.Readable(x)
    ensures var n := Needed(m, addr, len);
            && off < n && m.Prefix(addr, n) == n
            && m.Align(addr + n - 1) == m.Align(addr + off)
            && WordIndex(addr + n - 1, m.w) == WordIndex(addr + off, m.w)
  {
    var n := Needed(m, addr, len);
    PrefixIs(m, addr, n, n);
    AlignSameWord(m, addr + off, addr + n - 1);
  }

  /** The outcome when the scan stops at a NUL in the word at offset `off`. */
  lemma StopAtNul(m: Memory, addr: nat, len: nat, off: nat, k: nat)
    requires off < len && off <= k && addr + k < m.Align(addr + off) + m.w
    requires off == 0 || Residue(addr + off, m.w) == 0
    requires SeenNul(m, addr, len) == k && NulSeen(m, addr, len)
    requires forall x: nat :: addr <= x < addr + off ==> m.Readable(x)
    requires forall x: nat :: addr + off <= x < m.Align(addr + off) + m.w ==> m.Readable(x)
    ensures SlowSucceeds(m, addr, len) && SlowCount(m, addr, len) == if off == 0 then Residue(addr, m.w) + k else k
    ensures SlowCopied(m, addr, len) == Min(len, m.Align(addr + off) + m.w - addr)
    ensures m.WordsSpanned(addr, Needed(m, addr, len)) == m.WordsSpanned(addr, off + 1)
  {
    NulInWord(m, addr, len, off, k);
    if off > 0 {
      LaterWord(addr, off, m.w);
    }
  }

  /** The outcome when the word at offset `off` is the first that cannot be read. */
  lemma StopAtFault(m: Memory, addr: nat, len: nat, off: nat)
    requires off < len && !m.Readable(addr + off)
    requires ScannedTo(m, addr, len, off)
    requires forall x: nat :: addr <= x < addr + off ==> m.Readable(x)
    ensures SlowCount(m, addr, len) == -1 && SlowCopied(m, addr, len) == off && PeekedBytes(m, addr, len) == off + 1
    ensures ReadError(m, addr, Needed(m, addr, len)) == PinkError(m.PeekErrno(addr + off))
  {
    FirstNulFacts(m, addr, off);
    FirstNulFacts(m, addr, m.Span(addr, len));
    PrefixIs(m, addr, Needed(m, addr, len), off);
  }

  /** The outcome when no word of the range holds a NUL. */
  lemma StopAtEnd(m: Memory, addr: nat, len: nat)
    requires len > 0 && ScannedTo(m, addr, len, len)
    requires forall x: nat :: addr <= x < addr + len ==> m.Readable(x)
    ensures Needed(m, addr, len) == len && SlowSucceeds(m, addr, len)
    ensures SlowCount(m, addr, len) == U32(len) && SlowCopied(m, addr, len) == len
  {
    PrefixIs(m, addr, len, len);
  }

  /** The outcome when the scan of the word at `c` has found a NUL at index `j`. */
  lemma ScanStops(m: Memory, addr: nat, len: nat, c: Cursor, j: nat)
    requires AtWord(m, addr, len, c) && c.rem > 0 && c.residue <= j < m.w
    requires forall x: nat :: addr <= x < addr + c.off ==> m.Readable(x)
    requires forall x: nat :: c.a <= x < m.Align(c.a) + m.w ==> m.Readable(x)
    requires ScannedTo(m, addr, len, c.off)
    requires forall x: nat :: c.a <= x < m.Align(c.a) + j ==> m.At(x) != 0
    requires m.At(m.Align(c.a) + j) == 0
    ensures SlowCount(m, addr, len) == c.off + j && SlowCopied(m, addr, len) == c.off + Turn(m, c)
    ensures ReadError(m, addr, Needed(m, addr, len)) == 0
    ensures m.WordsSpanned(addr, PeekedBytes(m, addr, len)) == m.WordsSpanned(addr, c.off + 1)
  {
    NulInThisWord(m, addr, len, c.off, c.off + j - c.residue);
    StopAtNul(m, addr, len, c.off, c.off + j - c.residue);
  }

  /** The scan of the word at `c`, and what it decides. */
  method ScanStep(m: Memory, addr: nat, len: nat, c: Cursor, u: Word) returns (j: nat)
    requires AtWord(m, addr, len, c) && c.rem > 0 && u == m.Slice(m.Align(c.a), m.w)
    requires forall x: nat :: addr <= x < addr + c.off ==> m.Readable(x)
    requires forall x: nat :: c.a <= x < m.Align(c.a) + m.w ==> m.Readable(x)
    requires ScannedTo(m, addr, len, c.off)
    ensures j <= m.w
    ensures j == m.w ==> c.off + Turn(m, c) <= len && ScannedTo(m, addr, len, c.off + Turn(m, c))
    ensures j < m.w ==>
              && SlowCount(m, addr, len) == c.off + j && SlowCopied(m, addr, len) == c.off + Turn(m, c)
              && ReadError(m, addr, Needed(m, addr, len)) == 0
              && m.WordsSpanned(addr, PeekedBytes(m, addr, len)) == m.WordsSpanned(addr, c.off + 1)
  {
    j := ScanWord(u, c.residue);
    ScanIsMemory(m, c.a, j);
    if j == m.w {
      ScanWholeWord(m, addr, len, c.off, Turn(m, c));
    } else {
      ScanStops(m, addr, len, c, j);
    }
  }

  /** The word-wise string read succeeds exactly when all the bytes from `addr` to the first NUL, or
      to the end of the range if that is earlier, are readable. Neither what lies before `addr` nor
      what lies behind the NUL matters. */
  lemma StopsInTimeIff(m: Memory, addr: nat, len: nat)
    requires len > 0
    ensures SlowCount(m, addr, len) >= 0 <==>
            forall x: nat :: addr <= x < addr + len && (forall y: nat :: addr <= y < x ==> m.At(y) != 0) ==> m.Readable(x)
  {
    var n := Needed(m, addr, len);
    FirstNulFacts(m, addr, m.Span(addr, len));
    PrefixFacts(m, addr, n);
    if SlowCount(m, addr, len) >= 0 {
      forall x: nat | addr <= x < addr + len && (forall y: nat :: addr <= y < x ==> m.At(y) != 0)
        ensures m.Readable(x)
      {
        assert x < addr + n by {
          if n < len {
            assert m.At(addr + n - 1) == 0;
          }
        }
      }
    } else {
      var x := addr + m.Prefix(addr, n);
      assert !m.Readable(x) && forall y: nat :: addr <= y < x ==> m.At(y) != 0;
    }
  }

  /** The string read has ended with this result. */
  ghost predicate Finished(m: Memory, addr: nat, len: nat, r: int, errno: int, buf: seq<byte>, now: seq<byte>,
                           log: seq<nat>, peeks: seq<nat>)
    requires len <= |buf|
  {
    && r == SlowCount(m, addr, len) && errno == ReadError(m, addr, Needed(m, addr, len))
    && now == Overwrite(buf, 0, m.Slice(addr, SlowCopied(m, addr, len)))
    && Peeked(m, addr, PeekedBytes(m, addr, len), log, peeks)
  }

  lemma FinishAtFault(m: Memory, addr: nat, len: nat, c: Cursor, errno: int, buf: seq<byte>, now: seq<byte>,
                      log: seq<nat>, peeks: seq<nat>)
    requires Progress(m, addr, len, c, buf, now) && c.rem > 0 && ScannedTo(m, addr, len, c.off)
    requires !m.Readable(c.a) && errno == PinkError(m.PeekErrno(c.a)) && Peeked(m, addr, c.off + 1, log, peeks)
    ensures Finished(m, addr, len, -1, errno, buf, now, log, peeks)
  {
    StopAtFault(m, addr, len, c.off);
  }

  /** One turn of the string loop: `stop` is the value to return, if the loop ends here. */
  method ReadAndScan(t: Tracee, m: Memory, addr: nat, len: nat, c: Cursor, dest: array<byte>,
                     ghost buf: seq<byte>, ghost log: seq<nat>) returns (done: bool, stop: int, d: Cursor)
    requires t.mem == m && c.rem > 0
    requires Progress(m, addr, len, c, buf, dest[..]) && Peeked(m, addr, c.off, log, t.peeks)
    requires ScannedTo(m, addr, len, c.off)
    modifies t`mem, t`errno, t`peeks, dest
    ensures t.mem == m && d.rem < c.rem && d.off > 0
    ensures done ==> Finished(m, addr, len, stop, t.errno, buf, dest[..], log, t.peeks)
    ensures !done ==> t.errno == 0 && d.off <= len && ScannedTo(m, addr, len, d.off)
    ensures !done ==> Progress(m, addr, len, d, buf, dest[..]) && Peeked(m, addr, d.off, log, t.peeks)
  {
    var e, u;
    e, u, d := ReadWord(t, m, addr, len, c, dest, buf, log);
    if e < 0 {
      FinishAtFault(m, addr, len, c, t.errno, buf, dest[..], log, t.peeks);
      return true, -1, d;
    }
    var j := ScanStep(m, addr, len, c, u);
    if j < m.w {
      return true, c.off + j, d;
    }
    return false, 0, d;
  }

  /** pink_vm_lread_nul. */
  method LReadNul(t: Tracee, addr: nat, dest: array<byte>, len: nat) returns (r: int)
    requires len <= dest.Length && IsObjectSize(len, t.mem.w)
    modifies t`mem, t`errno, t`peeks, dest
    ensures t.mem == old(t.mem)
    ensures r == SlowCount(t.mem, addr, len)
    ensures dest[..] == Overwrite(old(dest[..]), 0, t.mem.Slice(addr, SlowCopied(t.mem, addr, len)))
    ensures t.errno == if len == 0 then old(t.errno) else ReadError(t.mem, addr, Needed(t.mem, addr, len))
    ensures Peeked(t.mem, addr, PeekedBytes(t.mem, addr, len), old(t.peeks), t.peeks)
  {
    var m := t.mem;
    ghost var buf, log := dest[..], t.peeks;
    var c := Start(m, addr, len);
    while c.rem > 0
      invariant t.mem == m
      invariant Progress(m, addr, len, c, buf, dest[..]) && Peeked(m, addr, c.off, log, t.peeks)
      invariant ScannedTo(m, addr, len, c.off)
      invariant t.errno == if c.off == 0 then old(t.errno) else 0
      decreases c.rem
    {
      var done, stop, d := ReadAndScan(t, m, addr, len, c, dest, buf, log);
      if done {
        return stop;
      }
      c := d;
    }
    if len > 0 {
      StopAtEnd(m, addr, len);
    }
    return c.count;
  }
}
