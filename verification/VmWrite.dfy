/** Writing the tracee's memory (pinktrace/vm.c): whole words with PTRACE_POKEDATA, or in one
    go with process_vm_writev. */
module VmWrite {
  import opened CTypes
  import opened AddressSpace
  import opened Kernel
  import opened VmRead

  /** How much of `src` the first turn reads beyond its residue. The word loop takes the first
      word from `src[residue]` on, so an unaligned write reads past the first `len` bytes. */
  predicate SourceSuffices(w: WordSize, addr: nat, len: nat, n: nat) {
    len <= n && Residue(addr, w) + Min(w - Residue(addr, w), len) <= n
  }

  /** Which byte of `src` ends up `d` bytes after the start of the first word; -1 where the
      word loop stores whatever its buffer held. */
  function SourceIndex(w: WordSize, addr: nat, len: nat, d: nat): (i: int) {
    var residue := Residue(addr, w);
    var first := Min(w - residue, len);
    if d < w then (if d < first then residue + d else -1)
    else if first + d - w < len then first + d - w else -1
  }

  /** The end of the last word that writing the first `done` bytes touches. */
  function TouchedEnd(m: Memory, addr: nat, done: nat): (e: nat) {
    if done == 0 then m.Align(addr) else m.Align(addr + done - 1) + m.w
  }

  /** What memory looks like once the words of the first `done` bytes have been written. */
  ghost predicate WriteEffect(m: Memory, m': Memory, addr: nat, src: seq<byte>, len: nat, done: nat)
    requires SourceSuffices(m.w, addr, len, |src|)
  {
    && m'.w == m.w && m'.peekErr == m.peekErr && m'.pokeErr == m.pokeErr
    && (forall b: nat :: !(m.Align(addr) <= b < TouchedEnd(m, addr, done)) ==> m'.At(b) == m.At(b))
    && (forall b: nat :: m.Align(addr) <= b < TouchedEnd(m, addr, done) ==>
          var i := SourceIndex(m.w, addr, len, b - m.Align(addr)); i >= 0 ==> m'.At(b) == src[i])
  }

  /** What pink_vm_lwrite returns. The -1 of a failure on the first word shares a conditional
      with an `unsigned int`, and is converted to that type before it is to `ssize_t`. */
  function WriteCount(m: Memory, addr: nat, len: nat): (r: int) {
    var p := m.WritablePrefix(addr, len);
    if p == len then U32(p) else Signed(if U32(p) > 0 then U32(p) else Unsigned(-1, 4), m.w)
  }

  /** The error of the fault that stops a word-wise write of `len` bytes, 0 if none does. */
  function WriteError(m: Memory, addr: nat, len: nat): (e: int) {
    var p := m.WritablePrefix(addr, len);
    if p == len then 0 else PinkError(m.PokeErrno(addr + p))
  }

  /** The word that a turn of the loop pokes: `n` bytes of `src`, the rest of it arbitrary. */
  predicate PokedWord(u: Word, src: seq<byte>, from: nat, n: nat) {
    && from + n <= |src| && n <= |u|
    && forall i :: 0 <= i < n ==> u[i] == src[from + i]
  }

  /** Where the bytes of the word at `c` come from. */
  lemma TurnSource(m: Memory, addr: nat, len: nat, c: Cursor, j: nat)
    requires AtWord(m, addr, len, c) && c.rem > 0 && j < m.w
    ensures m.Align(c.a) >= m.Align(addr)
    ensures SourceIndex(m.w, addr, len, m.Align(c.a) + j - m.Align(addr))
              == if j < Turn(m, c) then c.off + c.residue + j else -1
  {
    AlignMonotone(m, addr, c.a);
    if c.off > 0 {
      LaterWord(addr, c.off, m.w);
      FirstTurnIsFull(m, addr, len, c);
    }
  }

  /** A loop that goes on has written the whole first word. */
  lemma FirstTurnIsFull(m: Memory, addr: nat, len: nat, c: Cursor)
    requires AtWord(m, addr, len, c) && c.rem > 0 && c.off > 0
    ensures m.w - Residue(addr, m.w) <= c.off < len
  {
    LaterWord(addr, c.off, m.w);
  }

  /** A turn of the loop starts where the touched words end, and ends where they end next. */
  lemma TurnTouches(m: Memory, addr: nat, len: nat, c: Cursor)
    requires AtWord(m, addr, len, c) && c.rem > 0
    ensures TouchedEnd(m, addr, c.off) == m.Align(c.a)
    ensures Turn(m, c) > 0 && TouchedEnd(m, addr, c.off + Turn(m, c)) == m.Align(c.a) + m.w
  {
    AlignSameWord(m, c.a, c.a + Turn(m, c) - 1);
    if c.off > 0 {
      EndsWithWord(m, c.a);
    }
  }

  /** The bytes of the word that a turn pokes are the ones the effect asks for. */
  lemma PokedBytes(m: Memory, addr: nat, src: seq<byte>, len: nat, c: Cursor, u: Word, b: nat)
    requires SourceSuffices(m.w, addr, len, |src|) && |u| == m.w
    requires AtWord(m, addr, len, c) && c.rem > 0
    requires PokedWord(u, src, c.off + c.residue, Turn(m, c))
    requires m.Align(c.a) <= b < m.Align(c.a) + m.w
    ensures b >= m.Align(addr)
    ensures var i := SourceIndex(m.w, addr, len, b - m.Align(addr)); i >= 0 ==> u[b - m.Align(c.a)] == src[i]
  {
    TurnSource(m, addr, len, c, b - m.Align(c.a));
  }

  /** One byte of the effect of poking the word of a turn. */
  lemma ExtendEffectAt(m: Memory, now: Memory, addr: nat, src: seq<byte>, len: nat, c: Cursor, u: Word, b: nat)
    requires SourceSuffices(m.w, addr, len, |src|) && |u| == m.w
    requires AtWord(m, addr, len, c) && c.rem > 0
    requires WriteEffect(m, now, addr, src, len, c.off)
    requires PokedWord(u, src, c.off + c.residue, Turn(m, c))
    requires TouchedEnd(m, addr, c.off) == m.Align(c.a)
    ensures var at := now.Store(m.Align(c.a), u).At(b);
            if m.Align(addr) <= b < m.Align(c.a) + m.w then
              var i := SourceIndex(m.w, addr, len, b - m.Align(addr)); i >= 0 ==> at == src[i]
            else at == m.At(b)
  {
    AlignMonotone(m, addr, c.a);
    if m.Align(c.a) <= b < m.Align(c.a) + m.w {
      PokedBytes(m, addr, src, len, c, u, b);
    }
  }

  /** Poking the word of a turn extends the effect by that turn. */
  lemma ExtendEffect(m: Memory, now: Memory, addr: nat, src: seq<byte>, len: nat, c: Cursor, u: Word)
    requires SourceSuffices(m.w, addr, len, |src|) && |u| == m.w
    requires AtWord(m, addr, len, c) && c.rem > 0
    requires WriteEffect(m, now, addr, src, len, c.off)
    requires PokedWord(u, src, c.off + c.residue, Turn(m, c))
    ensures WriteEffect(m, now.Store(m.Align(c.a), u), addr, src, len, c.off + Turn(m, c))
  {
    TurnTouches(m, addr, len, c);
    var next := now.Store(m.Align(c.a), u);
    forall b: nat
      ensures !(m.Align(addr) <= b < m.Align(c.a) + m.w) ==> next.At(b) == m.At(b)
      ensures m.Align(addr) <= b < m.Align(c.a) + m.w ==>
                var i := SourceIndex(m.w, addr, len, b - m.Align(addr)); i >= 0 ==> next.At(b) == src[i]
    {
      ExtendEffectAt(m, now, addr, src, len, c, u, b);
    }
  }

  /** The first turn reads within `src`, and so do the others. */
  lemma TurnInSource(m: Memory, addr: nat, len: nat, c: Cursor, n: nat)
    requires SourceSuffices(m.w, addr, len, n) && AtWord(m, addr, len, c) && c.rem > 0
    ensures c.off + c.residue + Turn(m, c) <= n
  {
  }

  /** Loading the word buffer: `memcpy` fills a part of it, the rest is what it was. */
  method LoadWord(w: WordSize, src: array<byte>, from: nat, n: nat) returns (u: Word)
    requires n <= w && from + n <= src.Length
    ensures |u| == w && PokedWord(u, src[..], from, n)
  {
    assert |MinusOne(w)| == w;
    var junk: Word :| |junk| == w;
    u := src[from..from + n] + junk[n..];
  }

  /** The invariant of the write loop. */
  ghost predicate WriteProgress(m: Memory, now: Memory, addr: nat, src: seq<byte>, len: nat, c: Cursor)
    requires SourceSuffices(m.w, addr, len, |src|)
  {
    && AtWord(m, addr, len, c)
    && (forall x: nat :: addr <= x < addr + c.off ==> m.Writable(x))
    && WriteEffect(m, now, addr, src, len, c.off)
  }

  /** The whole word of a turn is writable, or none of it, before and after earlier turns. */
  lemma TurnWritable(m: Memory, now: Memory, addr: nat, len: nat, c: Cursor)
    requires AtWord(m, addr, len, c) && c.rem > 0 && now.w == m.w && now.pokeErr == m.pokeErr
    ensures Residue(m.Align(c.a), m.w) == 0 && now.PokeErrno(m.Align(c.a)) == m.PokeErrno(c.a)
    ensures forall x: nat :: c.a <= x < c.a + Turn(m, c) ==> m.PokeErrno(x) == m.PokeErrno(c.a)
  {
    AlignFacts(c.a, m.w);
    WordWritable(m, c.a);
  }

  lemma TurnExtendsWritable(m: Memory, addr: nat, len: nat, c: Cursor)
    requires AtWord(m, addr, len, c) && c.rem > 0 && m.Writable(c.a)
    requires forall x: nat :: addr <= x < addr + c.off ==> m.Writable(x)
    ensures forall x: nat :: addr <= x < addr + c.off + Turn(m, c) ==> m.Writable(x)
  {
    WordWritable(m, c.a);
  }

  /** What a turn adds to the progress, once its effect is known. */
  lemma NextProgress(m: Memory, next: Memory, addr: nat, src: seq<byte>, len: nat, c: Cursor)
    requires SourceSuffices(m.w, addr, len, |src|) && AtWord(m, addr, len, c) && c.rem > 0 && m.Writable(c.a)
    requires forall x: nat :: addr <= x < addr + c.off ==> m.Writable(x)
    requires WriteEffect(m, next, addr, src, len, c.off + Turn(m, c))
    ensures WriteProgress(m, next, addr, src, len, Advance(m, c))
  {
    AdvanceToWord(m, addr, len, c);
    TurnExtendsWritable(m, addr, len, c);
  }

  /** Poking the word of a turn keeps the invariant. */
  lemma WriteStep(m: Memory, now: Memory, addr: nat, src: seq<byte>, len: nat, c: Cursor, u: Word)
    requires SourceSuffices(m.w, addr, len, |src|) && WriteProgress(m, now, addr, src, len, c) && c.rem > 0
    requires |u| == m.w && PokedWord(u, src, c.off + c.residue, Turn(m, c)) && m.Writable(c.a)
    ensures WriteProgress(m, now.Store(m.Align(c.a), u), addr, src, len, Advance(m, c))
  {
    ExtendEffect(m, now, addr, src, len, c, u);
    NextProgress(m, now.Store(m.Align(c.a), u), addr, src, len, c);
  }

  /** One turn of the write loop. */
  method WriteWord(t: Tracee, m: Memory, addr: nat, src: array<byte>, len: nat, c: Cursor) returns (e: int)
    requires SourceSuffices(m.w, addr, len, src.Length) && c.rem > 0
    requires WriteProgress(m, t.mem, addr, src[..], len, c)
    modifies t`mem, t`errno, t`peeks
    ensures e == -PinkError(m.PokeErrno(c.a)) && t.errno == -e && t.peeks == old(t.peeks)
    ensures e < 0 ==> t.mem == old(t.mem)
    ensures e == 0 ==> WriteProgress(m, t.mem, addr, src[..], len, Advance(m, c))
  {
    TurnInSource(m, addr, len, c, src.Length);
    TurnWritable(m, t.mem, addr, len, c);
    var u := LoadWord(m.w, src, c.off + c.residue, Turn(m, c));
    if m.Writable(c.a) {
      WriteStep(m, t.mem, addr, src[..], len, c, u);
    }
    var val;
    e, val := t.PinkPtrace(PokeData, m.Align(c.a), u);
  }

  lemma StopWrite(m: Memory, now: Memory, addr: nat, src: seq<byte>, len: nat, c: Cursor)
    requires SourceSuffices(m.w, addr, len, |src|) && WriteProgress(m, now, addr, src, len, c)
    requires c.rem == 0 || !m.Writable(c.a)
    ensures m.WritablePrefix(addr, len) == c.off
    ensures WriteError(m, addr, len) == if c.rem == 0 then 0 else PinkError(m.PokeErrno(c.a))
  {
    WritablePrefixIs(m, addr, len, c.off);
  }

  /** The count as a number: of the bytes written modulo 2^32, unless that is 0 and the write was cut
      short. */
  lemma WriteCountIs(m: Memory, addr: nat, len: nat)
    requires IsObjectSize(len, m.w)
    ensures var p := m.WritablePrefix(addr, len);
            WriteCount(m, addr, len) ==
              if p == len || p % TWO32 > 0 then p % TWO32 else if m.w == 4 then -1 else TWO32 - 1
  {
    var p := m.WritablePrefix(addr, len);
    U32IsRemainder(p);
    if m.w == 4 {
      SignedKeeps(U32(p), 4);
    } else {
      SignedKeeps(U32(p), 8);
    }
  }

  /** An aligned write that faults at word number `j` returns the bytes of the `j` words before. */
  lemma FaultAtWord(m: Memory, addr: nat, len: nat, j: nat)
    requires IsObjectSize(len, m.w) && len < TWO32 && Residue(addr, m.w) == 0
    requires 0 < j && j * m.w < len && !m.Writable(addr + j * m.w)
    requires forall x: nat :: addr <= x < addr + j * m.w ==> m.Writable(x)
    ensures WriteCount(m, addr, len) == j * m.w
  {
    WritablePrefixIs(m, addr, len, j * m.w);
    WriteCountIs(m, addr, len);
  }

  /** pink_vm_lwrite. */
  method LWrite(t: Tracee, addr: nat, src: array<byte>, len: nat) returns (r: int)
    requires IsObjectSize(len, t.mem.w) && SourceSuffices(t.mem.w, addr, len, src.Length)
    modifies t`mem, t`errno, t`peeks
    ensures r == WriteCount(old(t.mem), addr, len)
    ensures var p := old(t.mem).WritablePrefix(addr, len); p == len || p % TWO32 > 0 ==> r == p % TWO32
    ensures t.errno == if len == 0 then old(t.errno) else WriteError(old(t.mem), addr, len)
    ensures WriteEffect(old(t.mem), t.mem, addr, src[..], len, old(t.mem).WritablePrefix(addr, len))
    ensures t.peeks == old(t.peeks)
  {
    var m := t.mem;
    var c := Start(m, addr, len);
    WriteCountIs(m, addr, len);
    while c.rem > 0
      invariant WriteProgress(m, t.mem, addr, src[..], len, c)
      invariant t.errno == (if c.off == 0 then old(t.errno) else 0) && t.peeks == old(t.peeks)
      decreases c.rem
    {
      var e := WriteWord(t, m, addr, src, len, c);
      if e < 0 {
        StopWrite(m, t.mem, addr, src[..], len, c);
        return Signed(if c.count > 0 then c.count else Unsigned(-1, 4), m.w);
      }
      c := Advance(m, c);
    }
    StopWrite(m, t.mem, addr, src[..], len, c);
    return c.count;
  }

  /** pink_vm_cwrite: one call of process_vm_writev, on the address restricted to the ABI. */
  method CWrite(t: Tracee, wsize: WordSize, addr: nat, src: array<byte>, len: nat) returns (r: int)
    requires len <= src.Length && IsObjectSize(len, t.mem.w)
    modifies t`errno, t`mem
    ensures var a := SetupAddr(addr, old(t.mem.w), wsize); var p := old(t.mem).WritablePrefix(a, len);
            if t.attachErr != 0 || (len > 0 && p == 0) then
              r == -1 && t.mem == old(t.mem) && t.errno == if t.attachErr != 0 then t.attachErr else EFAULT
            else
              && 0 <= r <= p && (len > 0 ==> r > 0) && (t.full && p == len ==> r == len)
              && t.mem == old(t.mem).Store(a, src[..r]) && t.errno == old(t.errno)
  {
    WritablePrefixFacts(t.mem, SetupAddr(addr, t.mem.w, wsize), len);
    r := t.Writev(SetupAddr(addr, t.mem.w, wsize), src, len);
  }

  // ---------------------------------------------------------------------------
  // When a word-wise write is a copy
  // ---------------------------------------------------------------------------

  ghost predicate SameBytes(m: Memory, m': Memory) {
    forall b: nat :: m.At(b) == m'.At(b)
  }

  /** Whatever memory, source and buffer held, writing `len` bytes at `addr` where all of them can
      be written stores those bytes there and changes nothing else. */
  ghost predicate AlwaysCopies(w: WordSize, addr: nat, len: nat) {
    forall m: Memory, m': Memory, src: seq<byte> ::
      && m.w == w && m.WritablePrefix(addr, len) == len
      && SourceSuffices(w, addr, len, |src|) && WriteEffect(m, m', addr, src, len, len)
      ==> SameBytes(m', m.Store(addr, src[..len]))
  }

  lemma AlignedByte(m: Memory, m': Memory, addr: nat, src: seq<byte>, len: nat, done: nat, b: nat)
    requires Residue(addr, m.w) == 0 && Residue(len, m.w) == 0 && 0 < done <= len <= |src|
    requires m.Align(addr) == addr && TouchedEnd(m, addr, done) == addr + done
    requires SourceSuffices(m.w, addr, len, |src|) && WriteEffect(m, m', addr, src, len, done)
    ensures m'.At(b) == if addr <= b < addr + done then src[b - addr] else m.At(b)
  {
    LaterWord(0, len, m.w);
    if addr <= b < addr + done {
      assert SourceIndex(m.w, addr, len, b - addr) == b - addr;
    }
  }

  /** Whole words at a word boundary are copied, as far as the write got. */
  lemma AlignedWriteCopies(m: Memory, m': Memory, addr: nat, src: seq<byte>, len: nat, done: nat)
    requires Residue(addr, m.w) == 0 && Residue(len, m.w) == 0 && Residue(done, m.w) == 0 && done <= len <= |src|
    requires SourceSuffices(m.w, addr, len, |src|) && WriteEffect(m, m', addr, src, len, done)
    ensures SameBytes(m', m.Store(addr, src[..done]))
  {
    if done > 0 {
      TouchesExactly(m, addr, done);
    }
    var s := m.Store(addr, src[..done]);
    forall b: nat ensures m'.At(b) == s.At(b) {
      if done > 0 {
        AlignedByte(m, m', addr, src, len, done, b);
      }
    }
  }

  /** What is left writable from a word boundary on is whole words. */
  lemma WritablePrefixIsWords(m: Memory, addr: nat, len: nat)
    requires Residue(addr, m.w) == 0 && m.WritablePrefix(addr, len) < len
    ensures Residue(m.WritablePrefix(addr, len), m.w) == 0
  {
    var p := m.WritablePrefix(addr, len);
    WritablePrefixFacts(m, addr, len);
    ResidueOfSum(addr, p, m.w);
    var word := m.Align(addr + p);
    AlignFacts(addr + p, m.w);
    AlignMonotone(m, addr, addr + p);
    assert word < addr + p ==> m.Writable(word);
    WordWritable(m, word);
  }

  /** The outcome of writing whole words at a word boundary: the bytes before the fault are
      stored, all of them if there is none, and nothing else changes. */
  lemma AlignedWriteOutcome(m: Memory, m': Memory, addr: nat, src: seq<byte>, len: nat)
    requires Residue(addr, m.w) == 0 && Residue(len, m.w) == 0 && len <= |src|
    requires SourceSuffices(m.w, addr, len, |src|)
    requires WriteEffect(m, m', addr, src, len, m.WritablePrefix(addr, len))
    ensures var p := m.WritablePrefix(addr, len);
            SameBytes(m', m.Store(addr, src[..p])) && m'.Slice(addr, p) == src[..p]
  {
    var p := m.WritablePrefix(addr, len);
    if p < len {
      WritablePrefixIsWords(m, addr, len);
    }
    AlignedWriteCopies(m, m', addr, src, len, p);
    var s := m.Store(addr, src[..p]);
    forall i | 0 <= i < p ensures m'.Slice(addr, p)[i] == src[i] {
      assert m'.At(addr + i) == s.At(addr + i);
    }
  }

  /** A range ends with its last word exactly when it ends at a word boundary. */
  lemma EndsWithWord(m: Memory, e: nat)
    requires e > 0
    ensures m.Align(e - 1) + m.w >= e
    ensures m.Align(e - 1) + m.w == e <==> Residue(e, m.w) == 0
  {
    WordArithmetic(e, m.w);
    WordArithmetic(e - 1, m.w);
  }

  lemma {:induction false} ResidueOfSum(a: nat, n: nat, w: WordSize)
    requires Residue(a, w) == 0
    ensures Residue(a + n, w) == Residue(n, w)
  {
    if a > 0 {
      ResidueOfSum(a - w, n, w);
    }
  }

  /** The touched words are the target range exactly when both its ends are word boundaries. */
  lemma TouchesExactly(m: Memory, addr: nat, len: nat)
    requires len > 0
    ensures (m.Align(addr) == addr && TouchedEnd(m, addr, len) == addr + len)
        <==> (Residue(addr, m.w) == 0 && Residue(len, m.w) == 0)
    ensures TouchedEnd(m, addr, len) >= addr + len
  {
    EndsWithWord(m, addr + len);
    if Residue(addr, m.w) == 0 {
      ResidueOfSum(addr, len, m.w);
    }
  }

  lemma TouchedForward(m: Memory, addr: nat, done: nat)
    ensures TouchedEnd(m, addr, done) >= m.Align(addr)
  {
    if done > 0 {
      AlignMonotone(m, addr, addr + done - 1);
    }
  }

  /** Ones over all the words that are touched by the first `done` bytes. */
  function OnesOver(m: Memory, addr: nat, done: nat): (m': Memory) {
    TouchedForward(m, addr, done);
    m.Store(m.Align(addr), Ones(TouchedEnd(m, addr, done) - m.Align(addr)))
  }

  /** That is a possible effect of writing ones. */
  lemma OnesEffect(m: Memory, addr: nat, n: nat, len: nat, done: nat)
    requires SourceSuffices(m.w, addr, len, n)
    ensures WriteEffect(m, OnesOver(m, addr, done), addr, Ones(n), len, done)
  {
    TouchedForward(m, addr, done);
    var m' := OnesOver(m, addr, done);
    forall b: nat | m.Align(addr) <= b < TouchedEnd(m, addr, done) ensures m'.At(b) == 1 {
    }
  }

  /** In a memory of zeros, ones over all the touched words are not ones over the target. */
  lemma Spill(m: Memory, addr: nat, len: nat)
    requires m.cells == map[] && len > 0 && !(Residue(addr, m.w) == 0 && Residue(len, m.w) == 0)
    ensures !SameBytes(OnesOver(m, addr, len), m.Store(addr, Ones(len)))
  {
    TouchedForward(m, addr, len);
    TouchesExactly(m, addr, len);
    var m', s := OnesOver(m, addr, len), m.Store(addr, Ones(len));
    var spill := if m.Align(addr) < addr then m.Align(addr) else addr + len;
    assert m'.At(spill) == 1 && s.At(spill) == 0;
  }

  /** Memory of zeros, a source of ones, and a buffer that happened to hold ones. */
  lemma MisalignedWriteSpills(w: WordSize, addr: nat, len: nat)
    requires len > 0 && !(Residue(addr, w) == 0 && Residue(len, w) == 0)
    ensures !AlwaysCopies(w, addr, len)
  {
    var m, src := MappedOnly(w, addr, len), Ones(len + w);
    MappedThere(w, addr, len);
    OnesEffect(m, addr, len + w, len, len);
    Spill(m, addr, len);
    OnesPrefix(len + w, len);
  }

  /** At an unaligned address no buffer content helps: the first byte of the word, which is not
      part of the target, always becomes the source byte at the residue. */
  lemma UnalignedWriteHitsWordStart(m: Memory, m': Memory, addr: nat, src: seq<byte>, len: nat)
    requires len > 0 && Residue(addr, m.w) > 0 && SourceSuffices(m.w, addr, len, |src|)
    requires WriteEffect(m, m', addr, src, len, len)
    ensures m'.At(m.Align(addr)) == src[Residue(addr, m.w)]
    ensures SameBytes(m', m.Store(addr, src[..len])) ==> m.At(m.Align(addr)) == src[Residue(addr, m.w)]
  {
    TouchesExactly(m, addr, len);
    var s := m.Store(addr, src[..len]);
    assert s.At(m.Align(addr)) == m.At(m.Align(addr));
  }

  /** So there is a writable memory and a source for which every outcome differs from a copy. */
  lemma UnalignedNeverCopies(w: WordSize, addr: nat, len: nat)
    requires len > 0 && Residue(addr, w) > 0
    ensures var m, src := MappedOnly(w, addr, len), Ones(len + w);
            && m.WritablePrefix(addr, len) == len
            && forall m': Memory :: WriteEffect(m, m', addr, src, len, len) ==> !SameBytes(m', m.Store(addr, src[..len]))
  {
    var m, src := MappedOnly(w, addr, len), Ones(len + w);
    MappedThere(w, addr, len);
    forall m': Memory | WriteEffect(m, m', addr, src, len, len) ensures !SameBytes(m', m.Store(addr, src[..len])) {
      UnalignedWriteHitsWordStart(m, m', addr, src, len);
    }
  }

  /** pink_vm_lwrite is a copy exactly for whole words at word boundaries. */
  lemma WriteCopiesIff(w: WordSize, addr: nat, len: nat)
    ensures AlwaysCopies(w, addr, len) <==> len == 0 || (Residue(addr, w) == 0 && Residue(len, w) == 0)
  {
    if len > 0 && !(Residue(addr, w) == 0 && Residue(len, w) == 0) {
      MisalignedWriteSpills(w, addr, len);
    } else {
      forall m: Memory, m': Memory, src: seq<byte>
        | m.w == w && m.WritablePrefix(addr, len) == len
          && SourceSuffices(w, addr, len, |src|) && WriteEffect(m, m', addr, src, len, len)
        ensures SameBytes(m', m.Store(addr, src[..len]))
      {
        if len > 0 {
          AlignedWriteCopies(m, m', addr, src, len, len);
        }
      }
    }
  }

  /** A failure on the first word is not reported as -1 on a 64-bit host. */
  lemma FirstWordFailure(m: Memory, addr: nat, len: nat)
    requires len > 0 && !m.Writable(addr)
    ensures WriteCount(m, addr, len) == -1 <==> m.w == 4
  {
    WritablePrefixIs(m, addr, len, 0);
  }
}
