/** The tracee's address space, and the byte-level vocabulary in which every
    transfer is specified: what is there, how far it can be read, where the first
    NUL is. None of it knows about words being moved one at a time or about chunks. */
module AddressSpace {
  import opened CTypes

  /** A machine word as the bytes of the union that `vm.c` reads it through. */
  type Word = seq<byte>

  /** `cells` are the bytes; a request on the word with index `k` fails with the error
      `peekErr[k]` (`pokeErr[k]` for a write), 0 meaning that it succeeds. Words that
      are not listed are not mapped. Faults are therefore constant on each word. */
  datatype Memory = Memory(
    w: WordSize,
    cells: map<nat, byte>,
    peekErr: map<nat, nat>,
    pokeErr: map<nat, nat>)
  {
    function At(a: nat): byte {
      if a in cells then cells[a] else 0
    }

    /** The raw error of PTRACE_PEEKDATA on the word that holds `a`; 0 if readable. */
    function PeekErrno(a: nat): nat {
      if WordIndex(a, w) in peekErr then peekErr[WordIndex(a, w)] else EIO
    }

    /** The raw error of PTRACE_POKEDATA on the word that holds `a`; 0 if writable. */
    function PokeErrno(a: nat): nat {
      if WordIndex(a, w) in pokeErr then pokeErr[WordIndex(a, w)] else EIO
    }

    predicate Readable(a: nat) {
      PeekErrno(a) == 0
    }

    predicate Writable(a: nat) {
      PokeErrno(a) == 0
    }

    /** The `n` bytes at `a`. */
    function Slice(a: nat, n: nat): (s: seq<byte>)
      ensures |s| == n
      ensures forall i :: 0 <= i < n ==> s[i] == At(a + i)
    {
      seq<byte>(n, i requires 0 <= i < n => At(a + i))
    }

    /** How many of the `n` bytes at `a` can be read before the first fault. */
    function Prefix(a: nat, n: nat): (p: nat)
      ensures p <= n
      decreases n
    {
      if n == 0 || !Readable(a) then 0 else 1 + Prefix(a + 1, n - 1)
    }

    /** How many of the `n` bytes at `a` can be written before the first fault. */
    function WritablePrefix(a: nat, n: nat): (p: nat)
      ensures p <= n
      decreases n
    {
      if n == 0 || !Writable(a) then 0 else 1 + WritablePrefix(a + 1, n - 1)
    }

    /** Offset of the first NUL among the `n` bytes at `a`; `n` if there is none. */
    function FirstNul(a: nat, n: nat): (k: nat)
      ensures k <= n
      decreases n
    {
      if n == 0 || At(a) == 0 then 0 else 1 + FirstNul(a + 1, n - 1)
    }

    /** The address of the word that holds `a`. */
    function Align(a: nat): (b: nat)
      ensures b <= a < b + w && a == b + Residue(a, w)
    {
      a - Residue(a, w)
    }

    /** Bytes from `a` to the end of the last word that the `n` bytes at `a` touch. */
    function Span(a: nat, n: nat): (s: nat)
      requires n > 0
      ensures n <= s < n + w
    {
      Align(a + n - 1) + w - a
    }

    /** How many words the `n` bytes at `a` touch. */
    function WordsSpanned(a: nat, n: nat): (k: nat) {
      if n == 0 then 0
      else
        WordOrder(a, a + n - 1, w);
        WordIndex(a + n - 1, w) - WordIndex(a, w) + 1
    }

    /** Memory after the bytes `bs` have been stored at `a`. */
    function Store(a: nat, bs: seq<byte>): (m: Memory)
      ensures m.w == w && m.peekErr == peekErr && m.pokeErr == pokeErr
      ensures forall b: nat :: m.At(b) == if a <= b < a + |bs| then bs[b - a] else At(b)
    {
      var stored := map b: nat | b in Addresses(a, |bs|) :: bs[b - a];
      this.(cells := cells + stored)
    }

    /** Every fault is one of the two errors that ptrace(2) reports for bad addresses. */
    predicate OnlyAddressFaults() {
      forall k :: k in peekErr ==> peekErr[k] in {0, EIO, EFAULT}
    }
  }

  /** The addresses of `n` bytes at `a`. */
  function Addresses(a: nat, n: nat): (r: set<nat>)
    ensures forall b: nat :: b in r <==> a <= b < a + n
  {
    if n == 0 then {} else {a + n - 1} + Addresses(a, n - 1)
  }

  lemma AlignFacts(a: nat, w: WordSize)
    ensures Residue(a - Residue(a, w), w) == 0 && WordIndex(a - Residue(a, w), w) == WordIndex(a, w)
  {
    WordArithmetic(a, w);
    WordArithmetic(a - Residue(a, w), w);
  }

  lemma WordOrder(a: nat, b: nat, w: WordSize)
    requires a <= b
    ensures WordIndex(a, w) <= WordIndex(b, w)
  {
    WordArithmetic(a, w);
    WordArithmetic(b, w);
  }

  /** Addresses in one aligned word have the same word index. */
  lemma SameWord(a: nat, b: nat, w: WordSize)
    requires a <= b < a - Residue(a, w) + w
    ensures WordIndex(b, w) == WordIndex(a, w) && Residue(b, w) == Residue(a, w) + (b - a)
  {
    WordArithmetic(a, w);
    WordArithmetic(b, w);
  }

  lemma NextWord(a: nat, w: WordSize)
    ensures Residue(a - Residue(a, w) + w, w) == 0 && WordIndex(a - Residue(a, w) + w, w) == WordIndex(a, w) + 1
  {
    WordArithmetic(a, w);
    WordArithmetic(a - Residue(a, w) + w, w);
  }

  /** The byte before a word belongs to the word before. */
  lemma PreviousWord(a: nat, w: WordSize)
    requires a > 0 && Residue(a, w) == 0
    ensures WordIndex(a, w) == WordIndex(a - 1, w) + 1
  {
    WordArithmetic(a, w);
    WordArithmetic(a - 1, w);
  }

  /** A later word starts at least a word's rest away. */
  lemma LaterWord(a: nat, off: nat, w: WordSize)
    requires off > 0 && Residue(a + off, w) == 0
    ensures Residue(a, w) + off >= w
  {
    WordArithmetic(a, w);
    WordArithmetic(a + off, w);
  }

  lemma AlignMonotone(m: Memory, a: nat, b: nat)
    requires a <= b
    ensures m.Align(a) <= m.Align(b)
  {
    WordArithmetic(a, m.w);
    WordArithmetic(b, m.w);
  }

  lemma AlignSameWord(m: Memory, a: nat, b: nat)
    requires a <= b < m.Align(a) + m.w
    ensures m.Align(b) == m.Align(a) && WordIndex(b, m.w) == WordIndex(a, m.w)
  {
    SameWord(a, b, m.w);
  }

  /** Readability does not change inside a word. */
  lemma WordReadable(m: Memory, a: nat)
    ensures forall x: nat :: a <= x < m.Align(a) + m.w ==> m.PeekErrno(x) == m.PeekErrno(a)
  {
    forall x: nat | a <= x < m.Align(a) + m.w ensures m.PeekErrno(x) == m.PeekErrno(a) {
      SameWord(a, x, m.w);
    }
  }

  lemma WordWritable(m: Memory, a: nat)
    ensures forall x: nat :: a <= x < m.Align(a) + m.w ==> m.PokeErrno(x) == m.PokeErrno(a)
  {
    forall x: nat | a <= x < m.Align(a) + m.w ensures m.PokeErrno(x) == m.PokeErrno(a) {
      SameWord(a, x, m.w);
    }
  }

  /** The readable prefix is readable, and it ends at a fault or not at all. */
  lemma {:induction false} PrefixFacts(m: Memory, a: nat, n: nat)
    ensures forall x: nat :: a <= x < a + m.Prefix(a, n) ==> m.Readable(x)
    ensures m.Prefix(a, n) < n ==> !m.Readable(a + m.Prefix(a, n))
    decreases n
  {
    if n > 0 && m.Readable(a) {
      PrefixFacts(m, a + 1, n - 1);
    }
  }

  /** The bytes `bs` lie at `a` and can be read. */
  ghost predicate Holds(m: Memory, a: nat, bs: seq<byte>) {
    m.Prefix(a, |bs|) == |bs| && m.Slice(a, |bs|) == bs
  }

  /** Bytes one behind the other. */
  lemma HoldsBoth(m: Memory, a: nat, x: seq<byte>, y: seq<byte>)
    requires Holds(m, a, x + y)
    ensures Holds(m, a, x) && Holds(m, a + |x|, y)
  {
    PrefixFacts(m, a, |x + y|);
    PrefixFacts(m, a, |x|);
    PrefixFacts(m, a + |x|, |y|);
    var all := m.Slice(a, |x + y|);
    assert m.Slice(a, |x|) == all[..|x|] && m.Slice(a + |x|, |y|) == all[|x|..];
  }

  /** What pins a readable prefix down. */
  lemma PrefixIs(m: Memory, a: nat, n: nat, p: nat)
    requires p <= n
    requires forall x: nat :: a <= x < a + p ==> m.Readable(x)
    requires p < n ==> !m.Readable(a + p)
    ensures m.Prefix(a, n) == p
  {
    PrefixFacts(m, a, n);
  }

  lemma {:induction false} WritablePrefixFacts(m: Memory, a: nat, n: nat)
    ensures forall x: nat :: a <= x < a + m.WritablePrefix(a, n) ==> m.Writable(x)
    ensures m.WritablePrefix(a, n) < n ==> !m.Writable(a + m.WritablePrefix(a, n))
    decreases n
  {
    if n > 0 && m.Writable(a) {
      WritablePrefixFacts(m, a + 1, n - 1);
    }
  }

  lemma WritablePrefixIs(m: Memory, a: nat, n: nat, p: nat)
    requires p <= n
    requires forall x: nat :: a <= x < a + p ==> m.Writable(x)
    requires p < n ==> !m.Writable(a + p)
    ensures m.WritablePrefix(a, n) == p
  {
    WritablePrefixFacts(m, a, n);
  }

  /** No NUL before the first one, and that one is a NUL. */
  lemma {:induction false} FirstNulFacts(m: Memory, a: nat, n: nat)
    ensures forall x: nat :: a <= x < a + m.FirstNul(a, n) ==> m.At(x) != 0
    ensures m.FirstNul(a, n) < n ==> m.At(a + m.FirstNul(a, n)) == 0
    decreases n
  {
    if n > 0 && m.At(a) != 0 {
      FirstNulFacts(m, a + 1, n - 1);
    }
  }

  /** What pins the first NUL down. */
  lemma FirstNulIs(m: Memory, a: nat, n: nat, k: nat)
    requires k <= n
    requires forall x: nat :: a <= x < a + k ==> m.At(x) != 0
    requires k < n ==> m.At(a + k) == 0
    ensures m.FirstNul(a, n) == k
  {
    FirstNulFacts(m, a, n);
  }

  /** The number of words touched, as the rounded-up quotient. */
  lemma WordsSpannedIsCeiling(m: Memory, a: nat, n: nat)
    ensures m.WordsSpanned(a, n) == if n == 0 then 0 else
              var r := Residue(a, m.w); if m.w == 4 then (r + n + 3) / 4 else (r + n + 7) / 8
  {
    WordArithmetic(a, m.w);
    if n > 0 {
      WordArithmetic(a + n - 1, m.w);
    }
  }

  // ---------------------------------------------------------------------------
  // Small address spaces
  // ---------------------------------------------------------------------------

  /** The words that `n` bytes at `a` touch. */
  function Words(w: WordSize, a: nat, n: nat): (ws: set<nat>)
    requires n > 0
  {
    WordOrder(a, a + n - 1, w);
    Addresses(WordIndex(a, w), WordIndex(a + n - 1, w) - WordIndex(a, w) + 1)
  }

  /** An address space of zeros in which the words of `n` bytes at `a` can be read and written, and
      no others. */
  function MappedOnly(w: WordSize, a: nat, n: nat): (m: Memory)
    requires n > 0
  {
    var mapped := map k: nat | k in Words(w, a, n) :: 0;
    Memory(w, map[], mapped, mapped)
  }

  lemma MappedThere(w: WordSize, a: nat, n: nat)
    requires n > 0
    ensures var m := MappedOnly(w, a, n);
            m.OnlyAddressFaults() && m.Prefix(a, n) == n && m.WritablePrefix(a, n) == n
  {
    var m := MappedOnly(w, a, n);
    forall x: nat | a <= x < a + n ensures m.Readable(x) && m.Writable(x) {
      WordOrder(a, x, w);
      WordOrder(x, a + n - 1, w);
    }
    PrefixIs(m, a, n, n);
    WritablePrefixIs(m, a, n, n);
  }

  function Ones(n: nat): (s: seq<byte>)
    ensures |s| == n && forall i :: 0 <= i < n ==> s[i] == 1
  {
    seq<byte>(n, _ => 1)
  }

  lemma OnesPrefix(n: nat, k: nat)
    requires k <= n
    ensures Ones(n)[..k] == Ones(k)
  {
  }

  /** The same with a string of `k` ones at `a`. */
  function StringOnly(w: WordSize, a: nat, n: nat, k: nat): (m: Memory)
    requires n > 0
  {
    MappedOnly(w, a, n).Store(a, Ones(k))
  }

  lemma StringThere(w: WordSize, a: nat, n: nat, k: nat, len: nat)
    requires n > 0 && k <= len
    ensures var m := StringOnly(w, a, n, k); m.Prefix(a, n) == n && m.FirstNul(a, len) == k
  {
    var m := StringOnly(w, a, n, k);
    MappedThere(w, a, n);
    SamePrefix(MappedOnly(w, a, n), m, a, n);
    FirstNulIs(m, a, len, k);
  }

  lemma OutsideWords(w: WordSize, a: nat, n: nat, b: nat)
    requires n > 0 && (b + w <= a || a + n + w <= b)
    ensures WordIndex(b, w) !in Words(w, a, n)
  {
    WordArithmetic(a, w);
    WordArithmetic(a + n - 1, w);
    WordArithmetic(b, w);
  }

  /** A byte outside the mapped words. */
  lemma Unmapped(w: WordSize, a: nat, n: nat, b: nat, len: nat)
    requires n > 0 && len > 0 && (b + w <= a || a + n + w <= b)
    ensures var m := MappedOnly(w, a, n); m.Prefix(b, len) == 0 && m.WritablePrefix(b, len) == 0
  {
    OutsideWords(w, a, n, b);
  }

  /** What can be read and written depends on the error maps only. */
  lemma {:induction false} SamePrefix(m: Memory, now: Memory, a: nat, n: nat)
    requires now.w == m.w && now.peekErr == m.peekErr && now.pokeErr == m.pokeErr
    ensures now.Prefix(a, n) == m.Prefix(a, n) && now.WritablePrefix(a, n) == m.WritablePrefix(a, n)
    decreases n
  {
    if n > 0 {
      SamePrefix(m, now, a + 1, n - 1);
    }
  }
}
