/** Reading NUL-terminated strings with process_vm_readv (pink_vm_cread_nul), and how the
    chunks it asks for lie in the pages. */
module VmChunks {
  import opened CTypes
  import opened AddressSpace
  import opened Kernel
  import opened VmRead

  const PAGE := 4096
  const MAX_CHUNK := 256

  /** The chunk length as the code computes it. Page ends are counted from the first address
      of the string, `addr`, in every turn. */
  function ChunkLen(addr: nat, rem: nat): (n: int) {
    var n := if rem > MAX_CHUNK then MAX_CHUNK else rem;
    var endInPage := (addr + n) % PAGE;
    if n - endInPage > 0 then n - endInPage else n
  }

  /** The size of every chunk but the last. */
  function Stride(a: nat): (c: int)
    ensures 1 <= c <= MAX_CHUNK
  {
    Min(MAX_CHUNK, PAGE - a % PAGE)
  }

  /** It is the least of what is left, the cap and the distance to the page end. */
  lemma ChunkLenIs(addr: nat, rem: nat)
    ensures ChunkLen(addr, rem) == Min(rem, Stride(addr))
    ensures Stride(addr) == Min(256, 4096 - addr % 4096)
    ensures 0 <= ChunkLen(addr, rem) <= rem && (rem > 0 ==> ChunkLen(addr, rem) > 0)
  {
    var n := Min(rem, MAX_CHUNK);
    if addr % PAGE + n < PAGE {
      assert (addr + n) % PAGE == addr % PAGE + n;
    } else {
      assert (addr + n) % PAGE == addr % PAGE + n - PAGE;
    }
  }

  /** What pink_vm_cread_nul returns: a bounded strnlen that counts the NUL, or the bytes before
      the fault that came first. */
  function FastCount(m: Memory, a: nat, len: nat): (r: int) {
    var p, k := m.Prefix(a, len), m.FirstNul(a, len);
    if k < p then k + 1
    else if p == len || p > 0 then p
    else -1
  }

  predicate FastFaults(m: Memory, a: nat, len: nat) {
    m.Prefix(a, len) < len && m.FirstNul(a, len) >= m.Prefix(a, len)
  }

  /** The chunked read ends at its first NUL, at offset `k`. */
  predicate FoundNul(m: Memory, a: nat, len: nat, k: nat) {
    m.FirstNul(a, len) == k < len && FastCount(m, a, len) == k + 1 && !FastFaults(m, a, len)
  }

  /** memchr for NUL among the `n` bytes of `buf` at `off`: its position, or `n`. */
  method FindNul(buf: array<byte>, off: nat, n: nat) returns (j: nat)
    requires off + n <= buf.Length
    ensures j <= n
    ensures forall i :: off <= i < off + j ==> buf[i] != 0
    ensures j < n ==> buf[off + j] == 0
  {
    j := 0;
    while j < n
      invariant j <= n
      invariant forall i :: off <= i < off + j ==> buf[i] != 0
    {
      if buf[off + j] == 0 {
        return;
      }
      j := j + 1;
    }
  }

  /** The requests of a run in which every read is complete and no NUL comes up. */
  ghost function Schedule(a: nat, off: nat, len: nat): (s: seq<(nat, nat)>)
    requires off <= len
    decreases len - off
  {
    if off == len then []
    else
      ChunkLenIs(a, len - off);
      [(a + off, ChunkLen(a, len - off))] + Schedule(a, off + ChunkLen(a, len - off), len)
  }

  /** The invariant of the chunk loop after `off` bytes. */
  ghost predicate ChunkProgress(m: Memory, a: nat, len: nat, off: nat, buf: seq<byte>, now: seq<byte>) {
    && off <= len <= |buf|
    && (forall x: nat :: a <= x < a + off ==> m.Readable(x) && m.At(x) != 0)
    && now == Overwrite(buf, 0, m.Slice(a, off))
  }

  /** The outcome when `off` bytes without NUL have been read and the next cannot be, or none
      is left. */
  lemma ChunkEnd(m: Memory, a: nat, len: nat, off: nat, buf: seq<byte>, now: seq<byte>)
    requires ChunkProgress(m, a, len, off, buf, now)
    requires off == len || !m.Readable(a + off)
    ensures m.Prefix(a, len) == off && (FastFaults(m, a, len) <==> off < len)
    ensures FastCount(m, a, len) == if off == len || off > 0 then off else -1
    ensures off <= m.FirstNul(a, len)
  {
    PrefixIs(m, a, len, off);
    FirstNulFacts(m, a, len);
  }

  /** The outcome when the chunk of `r` bytes at `off` holds a NUL at `j`. */
  lemma ChunkNul(m: Memory, a: nat, len: nat, off: nat, r: nat, j: nat)
    requires off + r <= len && j < r
    requires forall x: nat :: a <= x < a + off + r ==> m.Readable(x)
    requires forall x: nat :: a <= x < a + off + j ==> m.At(x) != 0
    requires m.At(a + off + j) == 0
    ensures m.FirstNul(a, len) == off + j && off + r <= m.Prefix(a, len)
    ensures FastCount(m, a, len) == off + j + 1
  {
    FirstNulIs(m, a, len, off + j);
    PrefixFacts(m, a, len);
  }

  /** Chunks are copied one behind the other. */
  lemma ChunkCopied(m: Memory, a: nat, off: nat, r: nat, buf: seq<byte>, was: seq<byte>, now: seq<byte>)
    requires off + r <= |buf| && was == Overwrite(buf, 0, m.Slice(a, off))
    requires now == Overwrite(was, off, m.Slice(a + off, r))
    ensures now == Overwrite(buf, 0, m.Slice(a, off + r))
  {
    IsCopy(m, a, off + r, buf, now);
  }

  /** What a read of `r` bytes at `off` brings, given that the first NUL among them is at `j`. */
  lemma ChunkOutcome(m: Memory, a: nat, len: nat, off: nat, r: nat, j: nat,
                     buf: seq<byte>, was: seq<byte>, now: seq<byte>)
    requires ChunkProgress(m, a, len, off, buf, was) && off + r <= len && j <= r <= m.Prefix(a + off, len - off)
    requires now == Overwrite(was, off, m.Slice(a + off, r))
    requires forall i :: off <= i < off + j ==> now[i] != 0
    requires j < r ==> now[off + j] == 0
    ensures now == Overwrite(buf, 0, m.Slice(a, off + r))
    ensures j == r ==> ChunkProgress(m, a, len, off + r, buf, now)
    ensures j < r ==> off + r <= m.Prefix(a, len) && FoundNul(m, a, len, off + j)
  {
    PrefixFacts(m, a + off, len - off);
    ChunkCopied(m, a, off, r, buf, was, now);
    forall x: nat | a + off <= x < a + off + j ensures m.At(x) != 0 {
      assert now[x - a] == m.At(x);
    }
    if j < r {
      assert now[off + j] == m.At(a + off + j);
      ChunkNul(m, a, len, off, r, j);
    }
  }

  /** A shorter request has a shorter readable prefix. */
  lemma PrefixOfPart(m: Memory, a: nat, off: nat, n: nat, len: nat)
    requires off + n <= len
    ensures m.Prefix(a + off, n) <= m.Prefix(a + off, len - off)
    ensures m.Prefix(a, len) == len ==> m.Prefix(a + off, n) == n
    ensures n > 0 ==> (m.Prefix(a + off, n) > 0 <==> m.Readable(a + off))
  {
    PrefixFacts(m, a + off, n);
    PrefixFacts(m, a + off, len - off);
    PrefixFacts(m, a, len);
  }

  /** One turn of the chunk loop: ask for `n` bytes at `off` and look for a NUL in what comes.
      `r` bytes came, the first NUL among them is at `j`. */
  method ReadChunk(t: Tracee, m: Memory, a: nat, len: nat, off: nat, n: nat, dest: array<byte>, ghost buf: seq<byte>)
    returns (r: int, j: nat)
    requires t.mem == m && n > 0 && off + n <= len && ChunkProgress(m, a, len, off, buf, dest[..])
    modifies t`errno, t`requests, dest
    ensures t.requests == old(t.requests) + [(a + off, n)]
    ensures r < 0 <==> t.attachErr != 0 || !m.Readable(a + off)
    ensures r < 0 ==> dest[..] == old(dest[..]) && t.errno == if t.attachErr != 0 then t.attachErr else EFAULT
    ensures r >= 0 ==> 0 < r <= n && j <= r && t.errno == old(t.errno)
    ensures r >= 0 && t.full && m.Prefix(a, len) == len ==> r == n
    ensures r >= 0 ==> dest[..] == Overwrite(buf, 0, m.Slice(a, off + r))
    ensures r >= 0 && j == r ==> ChunkProgress(m, a, len, off + r, buf, dest[..])
    ensures 0 <= j < r ==> off + r <= m.Prefix(a, len) && FoundNul(m, a, len, off + j)
  {
    PrefixOfPart(m, a, off, n, len);
    ghost var was := dest[..];
    r := t.Readv(a + off, dest, off, n);
    j := 0;
    if r >= 0 {
      j := FindNul(dest, off, r);
      ChunkOutcome(m, a, len, off, r, j, buf, was, dest[..]);
    }
  }

  /** A request is for the rest of the range or a stride, whichever is less, and never for nothing. */
  predicate ChunkRequest(a: nat, len: nat, q: (nat, nat)) {
    a <= q.0 < a + len && q.1 == Min(a + len - q.0, Stride(a)) && q.1 > 0
  }

  /** The requests of a run, whatever it is given: the first is at the start, each goes on where the
      bytes delivered for the one before end, and all have the size they should. */
  ghost predicate ChunkRun(a: nat, len: nat, log: seq<(nat, nat)>) {
    && (forall i :: 0 <= i < |log| ==> ChunkRequest(a, len, log[i]))
    && (log != [] ==> log[0].0 == a)
    && (forall i :: 0 < i < |log| ==> log[i - 1].0 < log[i].0 <= log[i - 1].0 + log[i - 1].1)
  }

  /** How far a complete run asks when the first NUL is at `k`, or nowhere if that is `len`: to the
      end of the chunk that holds it. */
  function Reached(a: nat, len: nat, k: nat): (e: nat)
    ensures k <= len ==> e <= len
  {
    if k >= len then len else Min(len, (k / Stride(a) + 1) * Stride(a))
  }

  /** The requests of a run that has come as far as `off`. A complete run, in which every read
      brings all it asks for, keeps to the schedule. */
  ghost predicate AskedTo(a: nat, len: nat, off: nat, complete: bool, log: seq<(nat, nat)>)
    requires off <= len
  {
    && ChunkRun(a, len, log)
    && (if log == [] then off == 0 else log[|log| - 1].0 < a + off <= log[|log| - 1].0 + log[|log| - 1].1)
    && (complete ==> log == Schedule(a, 0, off) && (off < len ==> WholeStrides(a, off)))
  }

  /** A schedule that is at least a stride long starts with a whole one. */
  lemma FirstStride(a: nat, off: nat, len: nat)
    requires off + Stride(a) <= len
    ensures Stride(a) > 0
    ensures Schedule(a, off, len) == [(a + off, Stride(a))] + Schedule(a, off + Stride(a), len)
  {
    ChunkLenIs(a, len - off);
  }

  /** `k` bytes are a number of whole strides. */
  predicate WholeStrides(a: nat, k: nat) {
    k == 0 || (k >= Stride(a) && WholeStrides(a, k - Stride(a)))
  }

  lemma {:induction false} StridesAreMultiple(a: nat, k: nat) returns (i: nat)
    requires WholeStrides(a, k)
    ensures k == i * Stride(a)
  {
    if k == 0 {
      i := 0;
    } else {
      var j := StridesAreMultiple(a, k - Stride(a));
      i := j + 1;
      Times(i, Stride(a));
    }
  }

  lemma {:induction false} MultipleIsStrides(a: nat, k: nat, i: nat)
    requires k == i * Stride(a)
    ensures WholeStrides(a, k)
    decreases i
  {
    if i > 0 {
      Times(i, Stride(a));
      MultipleIsStrides(a, k - Stride(a), i - 1);
    }
  }

  lemma OneChunk(a: nat, off: nat, n: nat)
    requires 0 < n <= Stride(a)
    ensures Schedule(a, off, off + n) == [(a + off, n)]
  {
    ChunkLenIs(a, n);
    assert Schedule(a, off + n, off + n) == [];
  }

  /** A schedule of whole strides goes on with the next chunk. */
  lemma {:induction false} ScheduleAppend(a: nat, off: nat, upto: nat, n: nat)
    requires 0 < n <= Stride(a) && off <= upto && WholeStrides(a, upto - off)
    ensures Schedule(a, off, upto + n) == Schedule(a, off, upto) + [(a + upto, n)]
    decreases upto - off
  {
    if upto == off {
      OneChunk(a, off, n);
    } else {
      var next := off + Stride(a);
      FirstStride(a, off, upto);
      FirstStride(a, off, upto + n);
      ScheduleAppend(a, next, upto, n);
      Associates([(a + off, Stride(a))], Schedule(a, next, upto), [(a + upto, n)]);
    }
  }

  /** A schedule of whole strides is the beginning of every longer one. */
  lemma {:induction false} ScheduleSplit(a: nat, off: nat, upto: nat, len: nat)
    requires off <= upto <= len && WholeStrides(a, upto - off)
    ensures Schedule(a, off, len) == Schedule(a, off, upto) + Schedule(a, upto, len)
    decreases upto - off
  {
    if upto > off {
      var next := off + Stride(a);
      FirstStride(a, off, upto);
      FirstStride(a, off, len);
      ScheduleSplit(a, next, upto, len);
      Associates([(a + off, Stride(a))], Schedule(a, next, upto), Schedule(a, upto, len));
    }
  }

  /** Asking for the next chunk. */
  lemma AskNext(a: nat, len: nat, off: nat, complete: bool, log: seq<(nat, nat)>)
    requires off < len && AskedTo(a, len, off, complete, log)
    ensures var n := ChunkLen(a, len - off); var next := log + [(a + off, n)];
            && 0 < n <= len - off && ChunkRun(a, len, next)
            && (complete ==> next == Schedule(a, 0, off + n))
            && (complete && off + n < len ==> WholeStrides(a, off + n))
  {
    ChunkLenIs(a, len - off);
    var n := ChunkLen(a, len - off);
    AppendRequest(a, len, log, (a + off, n));
    if complete {
      ScheduleAppend(a, 0, off, n);
    }
  }

  lemma AppendRequest(a: nat, len: nat, log: seq<(nat, nat)>, q: (nat, nat))
    requires ChunkRun(a, len, log) && ChunkRequest(a, len, q)
    requires if log == [] then q.0 == a else log[|log| - 1].0 < q.0 <= log[|log| - 1].0 + log[|log| - 1].1
    ensures ChunkRun(a, len, log + [q])
  {
    var next := log + [q];
    forall i | 0 < i < |next| ensures next[i - 1].0 < next[i].0 <= next[i - 1].0 + next[i - 1].1 {
      if i < |log| {
        assert next[i - 1] == log[i - 1] && next[i] == log[i];
      }
    }
  }

  /** Having received `r` bytes of it. */
  lemma Receive(a: nat, len: nat, off: nat, complete: bool, log: seq<(nat, nat)>, r: nat)
    requires off < len && AskedTo(a, len, off, complete, log)
    requires 0 < r <= ChunkLen(a, len - off) && off + r <= len && (complete ==> r == ChunkLen(a, len - off))
    ensures AskedTo(a, len, off + r, complete, log + [(a + off, ChunkLen(a, len - off))])
  {
    AskNext(a, len, off, complete, log);
    var next := log + [(a + off, ChunkLen(a, len - off))];
    assert next[|next| - 1] == (a + off, ChunkLen(a, len - off));
    assert complete ==> next == Schedule(a, 0, off + r);
  }

  /** Every read of the range is complete. */
  ghost predicate CompleteRun(t: Tracee, m: Memory, a: nat, len: nat) {
    t.full && t.attachErr == 0 && m.Prefix(a, len) == len
  }

  /** The requests of a run on the range: those of a run in any case, and in a complete run exactly
      the schedule up to the end of the chunk of the first NUL. */
  ghost predicate RequestsOfRun(m: Memory, a: nat, len: nat, complete: bool, log: seq<(nat, nat)>) {
    && ChunkRun(a, len, log) && (len > 0 ==> log != [])
    && (complete ==> log == Schedule(a, 0, Reached(a, len, m.FirstNul(a, len))))
  }

  lemma ChunkStart(k: nat, c: nat)
    requires c > 0
    ensures k / c * c <= k < k / c * c + c
  {
    assert k == c * (k / c) + k % c;
  }

  /** The end of the chunk at `off` is as far as a run asks for a NUL in that chunk. */
  lemma ReachedIs(a: nat, len: nat, k: nat, off: nat)
    requires off < len && WholeStrides(a, off) && off <= k < off + ChunkLen(a, len - off)
    ensures Reached(a, len, k) == off + ChunkLen(a, len - off)
  {
    ChunkLenIs(a, len - off);
    var i := StridesAreMultiple(a, off);
    QuotientIs(k, Stride(a), i, k - off);
    Times(i + 1, Stride(a));
  }

  /** The run ends here: with a request that failed or brought a NUL. */
  lemma LastRequest(m: Memory, a: nat, len: nat, off: nat, complete: bool, log: seq<(nat, nat)>)
    requires off < len && AskedTo(a, len, off, complete, log)
    requires complete ==> off <= m.FirstNul(a, len) < off + ChunkLen(a, len - off)
    ensures RequestsOfRun(m, a, len, complete, log + [(a + off, ChunkLen(a, len - off))])
  {
    AskNext(a, len, off, complete, log);
    if complete {
      ReachedIs(a, len, m.FirstNul(a, len), off);
    }
  }

  /** The chunked read has ended with this result, `copied` bytes being in the buffer. */
  ghost predicate Finished(m: Memory, a: nat, len: nat, attachErr: nat, r: int, copied: nat,
                           errnoBefore: int, errno: int, buf: seq<byte>, now: seq<byte>)
    requires len <= |buf|
  {
    && copied <= len && now == Overwrite(buf, 0, m.Slice(a, copied))
    && if len > 0 && attachErr != 0 then r == -1 && copied == 0 && errno == attachErr
       else
         && r == FastCount(m, a, len) && r <= copied <= m.Prefix(a, len)
         && errno == if FastFaults(m, a, len) then EFAULT else errnoBefore
  }

  /** The outcome when a request fails. */
  lemma FinishAtFailure(m: Memory, a: nat, len: nat, off: nat, attachErr: nat, errnoBefore: int, errno: int,
                        buf: seq<byte>, now: seq<byte>)
    requires off < len && ChunkProgress(m, a, len, off, buf, now) && (off > 0 ==> attachErr == 0)
    requires attachErr != 0 || !m.Readable(a + off)
    requires errno == if attachErr != 0 then attachErr else EFAULT
    ensures Finished(m, a, len, attachErr, if off > 0 then off else -1, off, errnoBefore, errno, buf, now)
    ensures attachErr == 0 ==> m.Prefix(a, len) < len
  {
    if attachErr == 0 {
      ChunkEnd(m, a, len, off, buf, now);
    }
  }

  /** One turn of the chunk loop. `upto` bytes have been copied after it; `stop` is the value to
      return, if the loop ends here. */
  method ChunkTurn(t: Tracee, m: Memory, a: nat, len: nat, off: nat, dest: array<byte>, ghost buf: seq<byte>)
    returns (done: bool, stop: int, upto: nat)
    requires t.mem == m && off < len && ChunkProgress(m, a, len, off, buf, dest[..])
    requires off > 0 ==> t.attachErr == 0
    modifies t`errno, t`requests, dest
    ensures t.requests == old(t.requests) + [(a + off, ChunkLen(a, len - off))]
    ensures off <= upto <= len && (CompleteRun(t, m, a, len) ==>
              if done then off <= m.FirstNul(a, len) < off + ChunkLen(a, len - off)
              else upto - off == ChunkLen(a, len - off))
    ensures done ==> Finished(m, a, len, t.attachErr, stop, upto, old(t.errno), t.errno, buf, dest[..])
    ensures !done ==> 0 < upto - off <= ChunkLen(a, len - off) && t.errno == old(t.errno) && t.attachErr == 0
    ensures !done ==> ChunkProgress(m, a, len, upto, buf, dest[..])
  {
    var chunk := ChunkLen(a, len - off);
    ChunkLenIs(a, len - off);
    var n, j := ReadChunk(t, m, a, len, off, chunk, dest, buf);
    if n < 0 {
      FinishAtFailure(m, a, len, off, t.attachErr, old(t.errno), t.errno, buf, dest[..]);
      return true, if off > 0 then off else -1, off;
    }
    if j < n {
      return true, off + j + 1, off + n;
    }
    return false, 0, off + n;
  }

  /** What a turn does to the log. */
  lemma LogTurn(m: Memory, a: nat, len: nat, off: nat, complete: bool, log: seq<(nat, nat)>, done: bool, upto: nat)
    requires off < len && off <= upto <= len && AskedTo(a, len, off, complete, log)
    requires complete ==> if done then off <= m.FirstNul(a, len) < off + ChunkLen(a, len - off)
                          else upto - off == ChunkLen(a, len - off)
    requires !done ==> 0 < upto - off <= ChunkLen(a, len - off)
    ensures var next := log + [(a + off, ChunkLen(a, len - off))];
            if done then RequestsOfRun(m, a, len, complete, next) else AskedTo(a, len, upto, complete, next)
  {
    if done {
      LastRequest(m, a, len, off, complete, log);
    } else {
      Receive(a, len, off, complete, log, upto - off);
    }
  }

  lemma NothingAsked(a: nat, len: nat, complete: bool)
    ensures AskedTo(a, len, 0, complete, [])
  {
  }

  lemma AllAsked(m: Memory, a: nat, len: nat, complete: bool, log: seq<(nat, nat)>)
    requires AskedTo(a, len, len, complete, log) && m.FirstNul(a, len) == len
    ensures RequestsOfRun(m, a, len, complete, log)
  {
  }

  /** The loop of pink_vm_cread_nul, for every schedule of short reads. `copied` bytes end up in
      `dest`, and `log` is what was asked for. */
  method ReadChunks(t: Tracee, a: nat, dest: array<byte>, len: nat)
    returns (r: int, ghost copied: nat, ghost log: seq<(nat, nat)>)
    requires len <= dest.Length
    modifies t`errno, t`requests, dest
    ensures Finished(t.mem, a, len, t.attachErr, r, copied, old(t.errno), t.errno, old(dest[..]), dest[..])
    ensures t.requests == old(t.requests) + log
    ensures RequestsOfRun(t.mem, a, len, CompleteRun(t, t.mem, a, len), log)
  {
    var m := t.mem;
    ghost var buf, complete := dest[..], CompleteRun(t, m, a, len);
    var off: nat := 0;
    log := [];
    NothingAsked(a, len, complete);
    while off < len
      invariant t.mem == m && off <= len && t.errno == old(t.errno)
      invariant off > 0 ==> t.attachErr == 0
      invariant ChunkProgress(m, a, len, off, buf, dest[..])
      invariant t.requests == old(t.requests) + log && AskedTo(a, len, off, complete, log)
    {
      var done, stop, upto := ChunkTurn(t, m, a, len, off, dest, buf);
      LogTurn(m, a, len, off, complete, log, done, upto);
      log := log + [(a + off, ChunkLen(a, len - off))];
      if done {
        return stop, upto, log;
      }
      off := upto;
    }
    ChunkEnd(m, a, len, off, buf, dest[..]);
    AllAsked(m, a, len, complete, log);
    return off, off, log;
  }

  /** pink_vm_cread_nul. The code keeps `len` in an `int`. */
  method CReadNul(t: Tracee, wsize: WordSize, addr: nat, dest: array<byte>, len: nat)
    returns (r: int, ghost copied: nat, ghost log: seq<(nat, nat)>)
    requires len <= dest.Length && len < TWO31
    modifies t`errno, t`requests, dest
    ensures len > 0 && t.attachErr != 0 ==> r == -1 && copied == 0 && t.errno == t.attachErr
    ensures var a := SetupAddr(addr, t.mem.w, wsize);
            len == 0 || t.attachErr == 0 ==>
              && r == FastCount(t.mem, a, len) && r <= copied <= t.mem.Prefix(a, len)
              && t.errno == if FastFaults(t.mem, a, len) then EFAULT else old(t.errno)
    ensures copied <= len
    ensures dest[..] == Overwrite(old(dest[..]), 0, t.mem.Slice(SetupAddr(addr, t.mem.w, wsize), copied))
    ensures t.requests == old(t.requests) + log
    ensures var a := SetupAddr(addr, t.mem.w, wsize);
            RequestsOfRun(t.mem, a, len, CompleteRun(t, t.mem, a, len), log)
  {
    r, copied, log := ReadChunks(t, SetupAddr(addr, t.mem.w, wsize), dest, len);
  }

  // ---------------------------------------------------------------------------
  // Chunks and pages
  // ---------------------------------------------------------------------------

  /** The chunk lies in one page. */
  predicate InOnePage(q: (nat, nat)) {
    q.0 % PAGE + q.1 <= PAGE
  }

  ghost predicate NoChunkCrosses(a: nat, len: nat) {
    forall q :: q in Schedule(a, 0, len) ==> InOnePage(q)
  }

  lemma {:induction false} ScheduleFrom(a: nat, off: nat, len: nat, i: nat, k: nat)
    requires off <= len && i < |Schedule(a, off, len)| && k == i * Stride(a)
    ensures off + k < len && Schedule(a, off, len)[i] == (a + off + k, Min(Stride(a), len - off - k))
    decreases len - off
  {
    ChunkLenIs(a, len - off);
    if i > 0 {
      Times(i, Stride(a));
      ScheduleFrom(a, off + ChunkLen(a, len - off), len, i - 1, k - Stride(a));
    }
  }

  /** Consecutive chunks are a stride apart: chunk `i` is at `i` strides. */
  lemma ScheduleAt(a: nat, off: nat, len: nat, i: nat)
    requires off <= len && i < |Schedule(a, off, len)|
    ensures off + i * Stride(a) < len
    ensures Schedule(a, off, len)[i] == (a + off + i * Stride(a), Min(Stride(a), len - off - i * Stride(a)))
  {
    ScheduleFrom(a, off, len, i, i * Stride(a));
  }

  /** Every multiple of the stride below `len` starts a chunk. */
  lemma {:induction false} ScheduleLength(a: nat, off: nat, len: nat, i: nat, k: nat)
    requires k == i * Stride(a) && off + k < len
    ensures i < |Schedule(a, off, len)|
    decreases i
  {
    ChunkLenIs(a, len - off);
    if i > 0 {
      var c := Stride(a);
      Times(i, c);
      ScheduleLength(a, off + c, len, i - 1, k - c);
    }
  }

  /** The first page end that a chunk can straddle, counted from the page of `a`: chunks that
      are cut short for the first page end meet it exactly. */
  function RiskyPageEnd(a: nat): (e: int) {
    if Stride(a) == MAX_CHUNK then PAGE else 2 * PAGE
  }

  /** The multiples of `c` around a number that is not one. */
  lemma Between(x: nat, c: nat) returns (i: nat, k: nat)
    requires c > 0 && x % c != 0
    ensures k == i * c && k < x < k + c
  {
    i := x / c;
    k := i * c;
  }

  lemma Straddle(a: nat, k: nat, e: int)
    requires a % PAGE + k < e && (e == PAGE || (e == 2 * PAGE && a % PAGE + k >= PAGE))
    ensures (a + k) % PAGE == a % PAGE + k - (e - PAGE)
  {
  }

  /** A position between two multiples of the stride is inside a chunk. */
  lemma ChunkStraddles(a: nat, len: nat)
    requires (RiskyPageEnd(a) - a % PAGE) % Stride(a) != 0 && a % PAGE + len > RiskyPageEnd(a)
    ensures !NoChunkCrosses(a, len)
  {
    var s, c, e := a % PAGE, Stride(a), RiskyPageEnd(a);
    var i, k := Between(e - s, c);
    ScheduleLength(a, 0, len, i, k);
    ScheduleAt(a, 0, len, i);
    Straddle(a, k, e);
    var q := Schedule(a, 0, len)[i];
    assert q in Schedule(a, 0, len) && !InOnePage(q);
  }

  lemma ShiftByMultiples(s: nat, c: nat)
    requires c > 0
    ensures (s + c) % c == s % c && (s + 2 * c) % c == s % c
  {
    var q := s / c;
    assert s == c * q + s % c;
    Remainder(s + c, c, q + 1, s % c);
    Remainder(s + 2 * c, c, q + 2, s % c);
  }

  lemma Remainder(x: int, c: int, q: int, r: int)
    requires c > 0 && x == c * q + r && 0 <= r < c
    ensures x % c == r
  {
    var p := x / c;
    Product(c, p - q);
    assert c * (p - q) == c * p - c * q == r - x % c;
  }

  lemma Product(c: int, d: int)
    requires c > 0
    ensures d >= 1 ==> c * d >= c
    ensures d == 0 ==> c * d == 0
    ensures d <= -1 ==> c * d <= -c
  {
  }

  /** Multiples of `c` are at least `c` apart. */
  lemma NextMultiple(x: int, y: int, c: int, u: int, v: int)
    requires c > 0 && x == c * u && y == c * v && x < y
    ensures x + c <= y
  {
    Product(c, v - u);
    assert c * (v - u) == c * v - c * u;
  }

  lemma Collect(c: int, v: int, t: int, u: int, i: int)
    ensures c * v * t + c * u + i * c == c * (v * t + u + i)
  {
    assert c * (v * t) == (c * v) * t;
    assert c * (v * t + u + i) == c * (v * t) + c * u + c * i;
  }

  /** A page is a whole number of strides when the stride divides the offset in the page. */
  lemma PageIsStrides(a: nat) returns (u: nat, v: nat)
    requires a % PAGE % Stride(a) == 0
    ensures a % PAGE == Stride(a) * u && PAGE == Stride(a) * v
  {
    var c := Stride(a);
    u := a % PAGE / c;
    v := if c == MAX_CHUNK then 16 else u + 1;
    if c != MAX_CHUNK {
      assert c * (u + 1) == c * u + c;
    }
  }

  /** Chunks that start at multiples of a stride which divides the page lie in one page. */
  lemma AlignedChunk(a: nat, i: nat)
    requires a % PAGE % Stride(a) == 0
    ensures (a + i * Stride(a)) % PAGE + Stride(a) <= PAGE
  {
    var c := Stride(a);
    var u, v := PageIsStrides(a);
    var k := i * c;
    var x, t := (a + k) % PAGE, a / PAGE - (a + k) / PAGE;
    assert x == PAGE * t + c * u + k;
    Collect(c, v, t, u, i);
    NextMultiple(x, PAGE, c, v * t + u + i, v);
  }

  /** The string starts at a multiple of the stride in its page, or is too short to reach a page end
      that a chunk would straddle. */
  predicate KeepsToPages(a: nat, len: nat) {
    a % PAGE % Stride(a) == 0 || a % PAGE + len <= RiskyPageEnd(a)
  }

  /** Exactly when no chunk of the schedule crosses a page end. */
  lemma ScheduleCrossingIff(a: nat, len: nat)
    ensures NoChunkCrosses(a, len) <==> KeepsToPages(a, len)
  {
    var s, c, e := a % PAGE, Stride(a), RiskyPageEnd(a);
    if s % c != 0 && s + len > e {
      ShiftByMultiples(s, c);
      assert (e - s) % c != 0;
      ChunkStraddles(a, len);
    } else {
      forall q | q in Schedule(a, 0, len) ensures InOnePage(q) {
        var i :| 0 <= i < |Schedule(a, 0, len)| && Schedule(a, 0, len)[i] == q;
        ScheduleAt(a, 0, len, i);
        if s % c == 0 {
          AlignedChunk(a, i);
        } else {
          ShortRunChunk(a, len, i, i * c);
        }
      }
    }
  }

  lemma ShortRunChunk(a: nat, len: nat, i: nat, k: nat)
    requires k == i * Stride(a) && k < len && a % PAGE + len <= RiskyPageEnd(a)
    ensures InOnePage((a + k, Min(Stride(a), len - k)))
  {
    if i > 0 {
      Times(i, Stride(a));
    }
    if a % PAGE + k < PAGE {
      assert (a + k) % PAGE == a % PAGE + k;
    } else {
      assert (a + k) % PAGE == a % PAGE + k - PAGE;
    }
  }

  /** The first chunk never crosses a page end, on any run. */
  lemma FirstChunkInPage(a: nat, len: nat, log: seq<(nat, nat)>)
    requires ChunkRun(a, len, log) && log != []
    ensures InOnePage(log[0])
  {
    assert ChunkRequest(a, len, log[0]);
  }

  lemma NextChunk(a: nat, off: nat, len: nat)
    requires off < len
    ensures var n := ChunkLen(a, len - off);
            && 0 < n <= Stride(a) && off + n <= len
            && Schedule(a, off, len) == [(a + off, n)] + Schedule(a, off + n, len)
  {
    ChunkLenIs(a, len - off);
  }

  /** The schedule of the whole range, before and from the chunk at `off` on. */
  lemma ScheduleAround(a: nat, len: nat, off: nat)
    requires WholeStrides(a, off) && off < len
    ensures var n := ChunkLen(a, len - off);
            off + n <= len && Schedule(a, 0, off) + [(a + off, n)] <= Schedule(a, 0, len)
  {
    var n := ChunkLen(a, len - off);
    NextChunk(a, off, len);
    ScheduleSplit(a, 0, off, len);
    Associates(Schedule(a, 0, off), [(a + off, n)], Schedule(a, off + n, len));
  }

  /** The schedule as far as a position `k` in the chunk at `off`. */
  lemma ScheduleReaching(a: nat, len: nat, k: nat, off: nat)
    requires WholeStrides(a, off) && off <= k < off + Stride(a) && k < len
    ensures var n := ChunkLen(a, len - off);
            k < off + n && Schedule(a, 0, Reached(a, len, k)) == Schedule(a, 0, off) + [(a + off, n)]
  {
    ChunkLenIs(a, len - off);
    ReachedIs(a, len, k, off);
    ScheduleAppend(a, 0, off, ChunkLen(a, len - off));
  }

  /** The schedule that reaches a position ends with the chunk that holds it. */
  lemma ReachedHolds(a: nat, len: nat, k: nat)
    requires k < len
    ensures var reached := Schedule(a, 0, Reached(a, len, k));
            && reached <= Schedule(a, 0, len) && reached != []
            && var q := reached[|reached| - 1]; q.0 <= a + k < q.0 + q.1
  {
    var off := k / Stride(a) * Stride(a);
    ChunkStart(k, Stride(a));
    MultipleIsStrides(a, off, k / Stride(a));
    ScheduleAround(a, len, off);
    ScheduleReaching(a, len, k, off);
  }

  /** A complete run keeps to the beginning of the schedule of the whole range, and its last request
      is the one for the first NUL. */
  lemma RunEndsAtNul(m: Memory, a: nat, len: nat, log: seq<(nat, nat)>)
    requires RequestsOfRun(m, a, len, true, log) && len > 0
    ensures log <= Schedule(a, 0, len)
    ensures var k, q := m.FirstNul(a, len), log[|log| - 1]; k < len ==> q.0 <= a + k < q.0 + q.1
  {
    if m.FirstNul(a, len) < len {
      ReachedHolds(a, len, m.FirstNul(a, len));
    }
  }

  /** Exactly when a complete run keeps off page ends, as it means to: as far as it asks, which is to
      the end of the chunk of the first NUL. */
  lemma PageCrossingIff(m: Memory, a: nat, len: nat, log: seq<(nat, nat)>)
    requires RequestsOfRun(m, a, len, true, log)
    ensures (forall q :: q in log ==> InOnePage(q)) <==> KeepsToPages(a, Reached(a, len, m.FirstNul(a, len)))
  {
    ScheduleCrossingIff(a, Reached(a, len, m.FirstNul(a, len)));
  }

  /** A request of a complete run that crosses a page end, where there is one. */
  lemma RunCrosses(m: Memory, a: nat, len: nat, log: seq<(nat, nat)>) returns (q: (nat, nat))
    requires RequestsOfRun(m, a, len, true, log) && !KeepsToPages(a, Reached(a, len, m.FirstNul(a, len)))
    ensures q in log && !InOnePage(q)
  {
    PageCrossingIff(m, a, len, log);
    q :| q in log && !InOnePage(q);
  }

  /** A string 5000 bytes long that starts 100 bytes into a page is read across the page end. */
  method CrossingExample() returns (t: Tracee, r: int, ghost q: (nat, nat))
    ensures r == 5000 && q in t.requests && !InOnePage(q)
  {
    ghost var copied, log;
    var m := StringOnly(8, 100, 5000, 5000);
    StringThere(8, 100, 5000, 5000, 5000);
    t := new Tracee(m, 0, true);
    var dest := new byte[5000];
    r, copied, log := CReadNul(t, 8, 100, dest, 5000);
    q := RunCrosses(m, 100, 5000, log);
  }
}
