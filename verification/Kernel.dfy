/** The kernel as the library sees it: one traced process, the tracer's errno, and the
    requests of ptrace(2), process_vm_readv(2) and process_vm_writev(2) as abstract steps. */
module Kernel {
  import opened CTypes
  import opened AddressSpace

  /** The word -1, which PTRACE_PEEKDATA also returns on failure. */
  function MinusOne(w: WordSize): (u: Word) {
    seq(w, _ => 255)
  }

  /** The error that pink_ptrace reports for the raw error `e`. */
  function PinkError(e: nat): (p: int) {
    if e == EIO then EFAULT else e
  }

  /** It is an error exactly if the raw one is, never EIO, and any other error is kept. */
  lemma PinkErrorIs(e: nat)
    ensures PinkError(e) == 0 <==> e == 0
    ensures PinkError(e) != 5 && (e != 5 ==> PinkError(e) == e) && PinkError(5) == 14
  {
  }

  /** `buf` with the bytes `bs` copied over it at offset `off`. */
  function Overwrite(buf: seq<byte>, off: nat, bs: seq<byte>): (r: seq<byte>)
    requires off + |bs| <= |buf|
    ensures |r| == |buf|
    ensures forall i :: 0 <= i < |r| ==> r[i] == if off <= i < off + |bs| then bs[i - off] else buf[i]
  {
    seq<byte>(|buf|, i requires 0 <= i < |buf| => if off <= i < off + |bs| then bs[i - off] else buf[i])
  }

  /** A buffer that holds the first `n` bytes at `a` and is otherwise as it was. */
  lemma IsCopy(m: Memory, a: nat, n: nat, buf: seq<byte>, now: seq<byte>)
    requires n <= |buf| == |now|
    requires forall i :: 0 <= i < |now| ==> now[i] == if i < n then m.At(a + i) else buf[i]
    ensures now == Overwrite(buf, 0, m.Slice(a, n))
  {
  }

  /** The word indices first, first + 1, ..., n of them. */
  function WordRun(first: nat, n: nat): (r: seq<nat>)
    ensures |r| == n && forall i :: 0 <= i < n ==> r[i] == first + i
  {
    seq<nat>(n, i requires 0 <= i < n => first + i)
  }

  /** Extending a run by the next word. */
  lemma ExtendRun(first: nat, n: nat)
    ensures WordRun(first, n) + [first + n] == WordRun(first, n + 1)
  {
  }

  datatype Request = PeekData | PokeData

  class Tracee {
    var mem: Memory
    /** The tracer's errno. */
    var errno: int
    /** The error with which process_vm_readv and process_vm_writev refuse to work at all,
        ENOSYS or EPERM for instance; 0 when they are available. */
    const attachErr: nat
    /** Whether process_vm_readv and process_vm_writev complete on ranges that are mapped. */
    const full: bool
    /** Indices of the words peeked so far. */
    ghost var peeks: seq<nat>
    /** Address and length of every process_vm_readv call so far. */
    ghost var requests: seq<(nat, nat)>

    constructor (m: Memory, attachErr: nat, full: bool)
      ensures mem == m && errno == 0 && this.attachErr == attachErr && this.full == full
      ensures peeks == [] && requests == []
    {
      mem, errno, this.attachErr, this.full, peeks, requests := m, 0, attachErr, full, [], [];
    }

    /** ptrace(2) on one word: a failure returns -1 and sets errno, a success leaves errno alone. */
    method Ptrace(req: Request, a: nat, data: Word) returns (val: Word)
      requires Residue(a, mem.w) == 0 && |data| == mem.w
      modifies `mem, `errno, `peeks
      ensures |val| == mem.w == old(mem.w)
      ensures req.PeekData? ==> mem == old(mem) && peeks == old(peeks) + [WordIndex(a, mem.w)]
      ensures req.PeekData? && mem.Readable(a) ==> val == mem.Slice(a, mem.w) && errno == old(errno)
      ensures req.PeekData? && !mem.Readable(a) ==> val == MinusOne(mem.w) && errno == mem.PeekErrno(a)
      ensures req.PokeData? ==> peeks == old(peeks)
      ensures req.PokeData? && old(mem.Writable(a)) ==> mem == old(mem).Store(a, data) && errno == old(errno)
      ensures req.PokeData? && !old(mem.Writable(a)) ==>
                mem == old(mem) && val == MinusOne(mem.w) && errno == mem.PokeErrno(a)
    {
      match req
      case PeekData =>
        peeks := peeks + [WordIndex(a, mem.w)];
        if mem.Readable(a) {
          val := mem.Slice(a, mem.w);
        } else {
          val, errno := MinusOne(mem.w), mem.PeekErrno(a);
        }
      case PokeData =>
        if mem.Writable(a) {
          mem := mem.Store(a, data);
          val := seq(mem.w, _ => 0);
        } else {
          val, errno := MinusOne(mem.w), mem.PokeErrno(a);
        }
    }

    /** pink_ptrace: errno tells a word of all ones from a failure. */
    method PinkPtrace(req: Request, a: nat, data: Word) returns (r: int, val: Word)
      requires Residue(a, mem.w) == 0 && |data| == mem.w
      modifies `mem, `errno, `peeks
      ensures |val| == mem.w == old(mem.w)
      ensures req.PeekData? ==> mem == old(mem) && peeks == old(peeks) + [WordIndex(a, mem.w)]
      ensures req.PeekData? ==> errno == PinkError(mem.PeekErrno(a)) && r == -errno
      ensures req.PeekData? && mem.Readable(a) ==> val == mem.Slice(a, mem.w)
      ensures req.PokeData? ==> peeks == old(peeks)
      ensures req.PokeData? ==> errno == PinkError(old(mem.PokeErrno(a))) && r == -errno
      ensures req.PokeData? ==> mem == if old(mem.Writable(a)) then old(mem).Store(a, data) else old(mem)
    {
      errno := 0;
      val := Ptrace(req, a, data);
      if val == MinusOne(mem.w) && errno != 0 {
        if errno == EIO {
          errno := EFAULT;
        }
        return -errno, val;
      }
      r := 0;
    }

    /** process_vm_readv(2) with one local and one remote range. It delivers some prefix of
        the readable bytes, never none of them, all of them when `full`. */
    method Readv(a: nat, dest: array<byte>, off: nat, n: nat) returns (r: int)
      requires off + n <= dest.Length
      modifies `errno, `requests, dest
      ensures requests == old(requests) + [(a, n)]
      ensures r < 0 <==> attachErr != 0 || (n > 0 && !mem.Readable(a))
      ensures r < 0 ==> r == -1 && dest[..] == old(dest[..])
      ensures r < 0 ==> errno == if attachErr != 0 then attachErr else EFAULT
      ensures r >= 0 ==> r <= mem.Prefix(a, n) && (n > 0 ==> r > 0) && errno == old(errno)
      ensures r >= 0 && full && mem.Prefix(a, n) == n ==> r == n
      ensures r >= 0 ==> dest[..] == Overwrite(old(dest[..]), off, mem.Slice(a, r))
    {
      requests := requests + [(a, n)];
      if attachErr != 0 {
        errno := attachErr;
        return -1;
      }
      var p := mem.Prefix(a, n);
      if n > 0 && p == 0 {
        errno := EFAULT;
        return -1;
      }
      PrefixFacts(mem, a, n);
      if full && p == n {
        r := n;
      } else {
        r :| 0 <= r <= p && (n > 0 ==> r > 0);
      }
      forall i | 0 <= i < r {
        dest[off + i] := mem.At(a + i);
      }
    }

    /** process_vm_writev(2) with one local and one remote range. */
    method Writev(a: nat, src: array<byte>, n: nat) returns (r: int)
      requires n <= src.Length
      modifies `errno, `mem
      ensures mem.w == old(mem.w)
      ensures r < 0 <==> attachErr != 0 || (n > 0 && !old(mem.Writable(a)))
      ensures r < 0 ==> r == -1 && mem == old(mem)
      ensures r < 0 ==> errno == if attachErr != 0 then attachErr else EFAULT
      ensures r >= 0 ==> r <= old(mem.WritablePrefix(a, n)) && (n > 0 ==> r > 0) && errno == old(errno)
      ensures r >= 0 && full && old(mem.WritablePrefix(a, n)) == n ==> r == n
      ensures r >= 0 ==> mem == old(mem).Store(a, src[..r])
    {
      if attachErr != 0 {
        errno := attachErr;
        return -1;
      }
      var p := mem.WritablePrefix(a, n);
      if n > 0 && p == 0 {
        errno := EFAULT;
        return -1;
      }
      WritablePrefixFacts(mem, a, n);
      if full && p == n {
        r := n;
      } else {
        r :| 0 <= r <= p && (n > 0 ==> r > 0);
      }
      mem := mem.Store(a, src[..r]);
    }
  }
}
