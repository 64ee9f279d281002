/** Reading the tracee's memory (pinktrace/vm.c): one word at a time with PTRACE_PEEKDATA,
    or in one go with process_vm_readv. */
module VmRead {
  import opened CTypes
  import opened AddressSpace
  import opened Kernel

  /** No C object is larger than PTRDIFF_MAX bytes. */
  predicate IsObjectSize(len: nat, w: WordSize) {
    len < if w == 4 then TWO31 else TWO63
  }

  /** Restrict an address to the word size of the ABI, as setup_addr does on 64-bit hosts. */
  function SetupAddr(addr: nat, w: WordSize, wsize: WordSize): (a: nat) {
    if wsize < w then addr % Modulus(wsize) else addr
  }

  /** On a 64-bit host a 32-bit ABI gets the low half of the address, any other gets all of it. */
  lemma SetupAddrKeeps(addr: nat, w: WordSize, wsize: WordSize)
    ensures w == 8 && wsize == 4 ==>
              SetupAddr(addr, w, wsize) < 0x1_0000_0000 && exists q: nat :: Above(addr, q) == SetupAddr(addr, w, wsize)
    ensures w == 4 || wsize == 8 ==> SetupAddr(addr, w, wsize) == addr
  {
    assert Above(addr, addr / TWO32) == addr % TWO32;
  }

  /** What is left of an address above `q` times 4 GiB. */
  function Above(addr: nat, q: nat): int {
    addr - 0x1_0000_0000 * q
  }

  /** The address is one that a program of this ABI can form. */
  predicate InAbiRange(addr: nat, w: WordSize, wsize: WordSize) {
    wsize < w ==> addr < Modulus(wsize)
  }

  /** The error of the fault that stops a word-wise read of `len` bytes, 0 if none does. */
  function ReadError(m: Memory, addr: nat, len: nat): (e: int) {
    var p := m.Prefix(addr, len);
    if p == len then 0 else PinkError(m.PeekErrno(addr + p))
  }

  /** The body of the word loops: peek the word of `a` and copy the next `n` bytes out of it. */
  method CopyFromWord(t: Tracee, m: Memory, a: nat, dest: array<byte>, off: nat, n: nat) returns (e: int, u: Word)
    requires t.mem == m
    requires off + n <= dest.Length && a + n <= m.Align(a) + m.w
    modifies t`mem, t`errno, t`peeks, dest
    ensures t.mem == m && t.peeks == old(t.peeks) + [WordIndex(a, m.w)]
    ensures e == -PinkError(m.PeekErrno(a)) && t.errno == -e
    ensures e < 0 ==> dest[..] == old(dest[..])
    ensures e == 0 ==> forall i :: 0 <= i < dest.Length ==>
              dest[i] == if off <= i < off + n then m.At(a + (i - off)) else old(dest[i])
    ensures e == 0 ==> u == m.Slice(m.Align(a), m.w)
  {
    var base, residue := m.Align(a), Residue(a, m.w);
    AlignFacts(a, m.w);
    e, u := t.PinkPtrace(PeekData, base, MinusOne(m.w));
    if e < 0 {
      t.errno := -e;
      return;
    }
    forall i | 0 <= i < n {
      dest[off + i] := u[residue + i];
    }
  }

  /** The local variables of the word loops: next address, bytes done, bytes left, the
      `unsigned int` count, and the residue of the next address. */
  datatype Cursor = Cursor(a: nat, off: nat, rem: nat, count: nat, residue: nat)

  function Start(m: Memory, addr: nat, len: nat): (c: Cursor) {
    Cursor(addr, 0, len, 0, Residue(addr, m.w))
  }

  /** How many bytes the next turn transfers: the rest of the word, or of the request. */
  function Turn(m: Memory, c: Cursor): (n: int) {
    Min(m.w - c.residue, c.rem)
  }

  function Advance(m: Memory, c: Cursor): (d: Cursor)
    requires c.residue < m.w
  {
    var n := Turn(m, c);
    Cursor(m.Align(c.a) + m.w, c.off + n, c.rem - n, U32(c.count + n), 0)
  }

  /** The next byte is where it should be, and it starts a word unless none has been moved yet. */
  predicate AtWord(m: Memory, addr: nat, len: nat, c: Cursor) {
    && c.off + c.rem == len && c.count == U32(c.off) && c.residue < m.w
    && (c.rem > 0 ==> c.a == addr + c.off && c.residue == Residue(c.a, m.w) && (c.off == 0 || c.residue == 0))
  }

  /** One turn of the word loops keeps to the words. */
  lemma AdvanceToWord(m: Memory, addr: nat, len: nat, c: Cursor)
    requires AtWord(m, addr, len, c) && c.rem > 0
    ensures Turn(m, c) > 0 && c.a + Turn(m, c) <= m.Align(c.a) + m.w
    ensures AtWord(m, addr, len, Advance(m, c))
  {
    NextWord(c.a, m.w);
    AddU32(c.off, Turn(m, c));
  }

  /** One turn of the word loops touches one more word, all of it readable or none of it. */
  lemma WordStep(m: Memory, addr: nat, len: nat, c: Cursor)
    requires AtWord(m, addr, len, c) && c.rem > 0
    ensures WordIndex(c.a, m.w) == WordIndex(addr, m.w) + m.WordsSpanned(addr, c.off)
    ensures m.WordsSpanned(addr, c.off + Turn(m, c)) == m.WordsSpanned(addr, c.off + 1) == m.WordsSpanned(addr, c.off) + 1
  {
    AlignSameWord(m, c.a, c.a + Turn(m, c) - 1);
    if c.off > 0 {
      PreviousWord(c.a, m.w);
    }
  }

  /** The words that the first `n` bytes touch have been peeked, each once and in order. */
  ghost predicate Peeked(m: Memory, addr: nat, n: nat, before: seq<nat>, now: seq<nat>) {
    now == before + WordRun(WordIndex(addr, m.w), m.WordsSpanned(addr, n))
  }

  /** Peeking the word at `c` peeks the words of one byte more, and of the whole turn. */
  lemma PeekNext(m: Memory, addr: nat, len: nat, c: Cursor, log: seq<nat>, before: seq<nat>, now: seq<nat>)
    requires AtWord(m, addr, len, c) && c.rem > 0
    requires Peeked(m, addr, c.off, log, before) && now == before + [WordIndex(c.a, m.w)]
    ensures Peeked(m, addr, c.off + 1, log, now) && Peeked(m, addr, c.off + Turn(m, c), log, now)
  {
    WordStep(m, addr, len, c);
    ExtendRun(WordIndex(addr, m.w), m.WordsSpanned(addr, c.off));
  }

  /** The invariant of the word loops: the bytes done have been read and copied, and no more. */
  ghost predicate Progress(m: Memory, addr: nat, len: nat, c: Cursor, buf: seq<byte>, now: seq<byte>) {
    && AtWord(m, addr, len, c) && len <= |buf|
    && (forall x: nat :: addr <= x < addr + c.off ==> m.Readable(x))
    && now == Overwrite(buf, 0, m.Slice(addr, c.off))
  }

  /** One turn of the word loops, up to what is done with the word `u`. */
  method ReadWord(t: Tracee, m: Memory, addr: nat, len: nat, c: Cursor, dest: array<byte>,
                  ghost buf: seq<byte>, ghost log: seq<nat>) returns (e: int, u: Word, d: Cursor)
    requires t.mem == m && c.rem > 0
    requires Progress(m, addr, len, c, buf, dest[..]) && Peeked(m, addr, c.off, log, t.peeks)
    modifies t`mem, t`errno, t`peeks, dest
    ensures t.mem == m && d == Advance(m, c) && d.rem < c.rem
    ensures e == -PinkError(m.PeekErrno(c.a)) && t.errno == -e
    ensures e < 0 ==> dest[..] == old(dest[..])
    ensures e == 0 ==> Progress(m, addr, len, d, buf, dest[..])
    ensures e == 0 ==> u == m.Slice(m.Align(c.a), m.w)
    ensures e == 0 ==> forall x: nat :: c.a <= x < m.Align(c.a) + m.w ==> m.Readable(x)
    ensures Peeked(m, addr, c.off + 1, log, t.peeks) && Peeked(m, addr, d.off, log, t.peeks)
  {
    AdvanceToWord(m, addr, len, c);
    WordReadable(m, c.a);
    PeekNext(m, addr, len, c, log, t.peeks, t.peeks + [WordIndex(c.a, m.w)]);
    d := Advance(m, c);
    e, u := CopyFromWord(t, m, c.a, dest, c.off, Turn(m, c));
    if e == 0 {
      IsCopy(m, addr, d.off, buf, dest[..]);
    }
  }

  /** The outcome of the plain read when it stops where `c` is. */
  lemma StopRead(m: Memory, addr: nat, len: nat, c: Cursor, buf: seq<byte>, now: seq<byte>)
    requires Progress(m, addr, len, c, buf, now)
    requires c.rem == 0 || !m.Readable(c.a)
    ensures m.Prefix(addr, len) == c.off
    ensures ReadError(m, addr, len) == if c.rem == 0 then 0 else PinkError(m.PeekErrno(c.a))
  {
    PrefixIs(m, addr, len, c.off);
  }

  /** pink_vm_lread. The count is an `unsigned int`, so it is exact below 2^32 only. */
  method LRead(t: Tracee, addr: nat, dest: array<byte>, len: nat) returns (r: int)
    requires len <= dest.Length && IsObjectSize(len, t.mem.w)
    modifies t`mem, t`errno, t`peeks, dest
    ensures t.mem == old(t.mem)
    ensures dest[..] == Overwrite(old(dest[..]), 0, t.mem.Slice(addr, t.mem.Prefix(addr, len)))
    ensures r == if t.mem.Prefix(addr, len) == len then U32(len) else -1
    ensures t.errno == if len == 0 then old(t.errno) else ReadError(t.mem, addr, len)
    ensures Peeked(t.mem, addr, Min(len, t.mem.Prefix(addr, len) + 1), old(t.peeks), t.peeks)
  {
    var m := t.mem;
    ghost var buf, log := dest[..], t.peeks;
    var c := Start(m, addr, len);
    while c.rem > 0
      invariant t.mem == m
      invariant Progress(m, addr, len, c, buf, dest[..]) && Peeked(m, addr, c.off, log, t.peeks)
      invariant t.errno == if c.off == 0 then old(t.errno) else 0
      decreases c.rem
    {
      var e, _, d := ReadWord(t, m, addr, len, c, dest, buf, log);
      if e < 0 {
        StopRead(m, addr, len, c, buf, dest[..]);
        return -1;
      }
      c := d;
    }
    StopRead(m, addr, len, c, buf, dest[..]);
    return c.count;
  }

  /** pink_vm_cread: one call of process_vm_readv, on the address restricted to the ABI. */
  method CRead(t: Tracee, wsize: WordSize, addr: nat, dest: array<byte>, len: nat) returns (r: int)
    requires len <= dest.Length && IsObjectSize(len, t.mem.w)
    modifies t`errno, t`requests, dest
    ensures t.requests == old(t.requests) + [(SetupAddr(addr, t.mem.w, wsize), len)]
    ensures var a := SetupAddr(addr, t.mem.w, wsize); var p := t.mem.Prefix(a, len);
            if t.attachErr != 0 || (len > 0 && p == 0) then
              r == -1 && dest[..] == old(dest[..]) && t.errno == if t.attachErr != 0 then t.attachErr else EFAULT
            else
              && 0 <= r <= p && (len > 0 ==> r > 0) && (t.full && p == len ==> r == len)
              && dest[..] == Overwrite(old(dest[..]), 0, t.mem.Slice(a, r)) && t.errno == old(t.errno)
  {
    r := t.Readv(SetupAddr(addr, t.mem.w, wsize), dest, 0, len);
  }
}
