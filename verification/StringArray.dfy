/** NULL-terminated arrays of strings in the tracee (pink_read_string_array). */
module StringArray {
  import opened CTypes
  import opened AddressSpace
  import opened Kernel
  import opened VmRead
  import opened VmString
  import opened VmChunks
  import opened Dispatch

  /** Distance of element `i` of an array of `wsize`-byte pointers, which lie one behind the other. */
  function Offset(i: nat, wsize: WordSize): (d: nat) {
    if i == 0 then 0 else Offset(i - 1, wsize) + wsize
  }

  lemma {:induction false} OffsetIs(i: nat, wsize: WordSize)
    ensures Offset(i, wsize) == i * wsize == if wsize == 4 then 4 * i else 8 * i
  {
    if i > 0 {
      OffsetIs(i - 1, wsize);
    }
  }

  lemma {:induction false} OffsetGrows(i: nat, j: nat, wsize: WordSize)
    requires i <= j
    ensures Offset(i, wsize) <= Offset(j, wsize)
    decreases j
  {
    if i < j {
      OffsetGrows(i, j - 1, wsize);
    }
  }

  /** The pointer stored at `a`. */
  function Pointer(m: Memory, a: nat, wsize: WordSize): (p: nat) {
    FromBytes(m.Slice(a, wsize))
  }

  /** The pointer at `a` can be read and is `p`. */
  predicate PointerAt(m: Memory, a: nat, wsize: WordSize, p: nat) {
    m.Prefix(a, wsize) == wsize && Pointer(m, a, wsize) == p
  }

  /** The bytes of an array of pointers. */
  function Layout(ps: seq<nat>, wsize: WordSize): (bs: seq<byte>)
    ensures |bs| == Offset(|ps|, wsize)
  {
    if ps == [] then [] else Layout(ps[..|ps| - 1], wsize) + ToBytes(ps[|ps| - 1], wsize)
  }

  lemma StoredPointer(m: Memory, a: nat, p: nat, wsize: WordSize)
    requires p < Pow256(wsize) && Holds(m, a, ToBytes(p, wsize))
    ensures PointerAt(m, a, wsize, p)
  {
    StoreLoad(p, wsize);
  }

  /** In memory that holds an array of pointers, element `i` can be read and is pointer `i`. */
  lemma {:induction false} LayoutElement(m: Memory, arr: nat, ps: seq<nat>, wsize: WordSize, i: nat)
    requires i < |ps| && ps[i] < Pow256(wsize) && Holds(m, arr, Layout(ps, wsize))
    ensures PointerAt(m, arr + Offset(i, wsize), wsize, ps[i])
    decreases |ps|
  {
    var n := |ps| - 1;
    HoldsBoth(m, arr, Layout(ps[..n], wsize), ToBytes(ps[n], wsize));
    if i < n {
      LayoutElement(m, arr, ps[..n], wsize, i);
    } else {
      StoredPointer(m, arr + Offset(n, wsize), ps[n], wsize);
    }
  }

  /** The count that reading a string of at most `len` bytes at `ptr` returns. */
  function StringCount(m: Memory, attachErr: nat, ptr: nat, len: nat): (r: int) {
    if FallsBack(attachErr) then SlowCount(m, ptr, len) else FastCount(m, ptr, len)
  }

  /** The buffer starts with the bytes of the string at `ptr` that its read delivers. */
  ghost predicate Delivered(m: Memory, attachErr: nat, ptr: nat, len: nat, buf: seq<byte>) {
    var c := if FallsBack(attachErr) then SlowCopied(m, ptr, len) else FastCount(m, ptr, len);
    0 <= c <= |buf| ==> buf[..c] == m.Slice(ptr, c)
  }

  /** The read of a pointer reports an error: the transport fails, or ptrace meets a fault, or
      process_vm_readv meets one at once. */
  predicate PointerFails(attachErr: nat, p: nat, wsize: WordSize) {
    if FallsBack(attachErr) then p < wsize else attachErr != 0 || p == 0
  }

  /** The read of a pointer delivers all of it. */
  predicate PointerArrives(attachErr: nat, full: bool, p: nat, wsize: WordSize) {
    p == wsize && (FallsBack(attachErr) || (attachErr == 0 && full))
  }

  /** What the variable for the pointer holds after a read of it that reported no error: the bytes
      delivered, in front of whatever was there. */
  ghost predicate PointerVariable(m: Memory, attachErr: nat, full: bool, wsize: WordSize, a: nat, cp: seq<byte>, got: nat) {
    var p := m.Prefix(a, wsize);
    && !PointerFails(attachErr, p, wsize)
    && |cp| == wsize && 0 < got <= p && cp[..got] == m.Slice(a, got)
    && (PointerArrives(attachErr, full, p, wsize) ==> got == wsize)
  }

  lemma FrontOfVariable(m: Memory, a: nat, n: nat, before: seq<byte>, now: seq<byte>)
    requires n <= |before| && now == Overwrite(before, 0, m.Slice(a, n))
    ensures now[..n] == m.Slice(a, n)
  {
  }

  /** The read of the pointer at `addr` into a variable that is not initialised. */
  method ReadPointer(t: Tracee, wsize: WordSize, addr: nat) returns (cp: seq<byte>, ghost got: nat)
    requires wsize <= t.mem.w
    modifies t`mem, t`errno, t`peeks, t`requests
    ensures t.mem == old(t.mem) && |cp| == wsize
    ensures var a := ReadAddr(t.mem, t.attachErr, wsize, addr);
            if t.errno != 0 then PointerFails(t.attachErr, t.mem.Prefix(a, wsize), wsize)
            else PointerVariable(t.mem, t.attachErr, t.full, wsize, a, cp, got)
  {
    var data := new byte[wsize];
    ghost var before := data[..];
    t.errno := 0;
    ReadErrorPositive(t.mem, addr, wsize);
    var r := ReadVmData(t, wsize, addr, data, wsize);
    ghost var a := ReadAddr(t.mem, t.attachErr, wsize, addr);
    cp, got := data[..], if r < 0 then 0 else r;
    if t.errno == 0 {
      FrontOfVariable(t.mem, a, got, before, cp);
    }
  }

  /** The string that a pointer leads to. */
  method ReadString(t: Tracee, wsize: WordSize, ptr: nat, dest: array<byte>, len: nat) returns (r: int)
    requires len <= dest.Length && len < TWO31 && wsize <= t.mem.w && ptr < Pow256(wsize)
    modifies t`mem, t`errno, t`peeks, t`requests, dest
    ensures t.mem == old(t.mem)
    ensures t.attachErr == 0 || FallsBack(t.attachErr) ==>
              && r == StringCount(t.mem, t.attachErr, ptr, len)
              && Delivered(t.mem, t.attachErr, ptr, len, dest[..])
  {
    Pow256Values();
    InRangeAddr(ptr, t.mem.w, wsize);
    var count, _ := ReadVmDataNul(t, wsize, ptr, dest, len);
    r := count;
  }

  /** pink_read_string_array. `nullptr` is the flag before the call, `isNull` after it. `cp` is what
      the variable for the pointer holds and `got` how many bytes of it come from the tracee. */
  method ReadStringArray(t: Tracee, wsize: WordSize, arg: nat, index: nat, dest: array<byte>, len: nat,
                         nullptr: bool) returns (r: int, isNull: bool, ghost cp: seq<byte>, ghost got: nat)
    requires len <= dest.Length && len < TWO31 && wsize <= t.mem.w
    modifies t`mem, t`errno, t`peeks, t`requests, dest
    ensures t.mem == old(t.mem)
    ensures var a := ReadAddr(t.mem, t.attachErr, wsize, arg + Offset(index, wsize));
            var ptr := FromBytes(cp);
            if PointerFails(t.attachErr, t.mem.Prefix(a, wsize), wsize) then
              r == 0 && isNull == nullptr && dest[..] == old(dest[..]) && t.errno != 0
            else
              && PointerVariable(t.mem, t.attachErr, t.full, wsize, a, cp, got)
              && isNull == (ptr == 0)
              && (ptr == 0 ==> r == 0 && dest[..] == old(dest[..]))
              && (ptr != 0 ==> r == StringCount(t.mem, t.attachErr, ptr, len)
                               && Delivered(t.mem, t.attachErr, ptr, len, dest[..]))
  {
    isNull := nullptr;
    var data;
    OffsetIs(index, wsize);
    data, got := ReadPointer(t, wsize, arg + index * wsize);
    cp := data;
    if t.errno != 0 {
      return 0, nullptr, cp, got;
    }
    var ptr := FromBytes(data);
    if ptr == 0 {
      return 0, true, cp, got;
    }
    isNull := false;
    r := ReadString(t, wsize, ptr, dest, len);
  }

  /** A pointer that arrives is the one in memory. */
  lemma ArrivedPointer(m: Memory, attachErr: nat, full: bool, wsize: WordSize, a: nat, cp: seq<byte>, got: nat)
    requires PointerVariable(m, attachErr, full, wsize, a, cp, got)
    requires PointerArrives(attachErr, full, m.Prefix(a, wsize), wsize)
    ensures FromBytes(cp) == Pointer(m, a, wsize)
  {
    assert cp[..got] == cp;
  }

  /** Whether a pointer can be read is all or nothing, whatever the address space, exactly when it
      does not straddle two words of the host. Only then does the code never look at a pointer of
      which it has read a part. */
  lemma AllOrNothingIff(w: WordSize, wsize: WordSize, a: nat)
    requires wsize <= w
    ensures (forall m: Memory :: m.w == w ==> m.Prefix(a, wsize) == 0 || m.Prefix(a, wsize) == wsize)
        <==> Residue(a, w) + wsize <= w
  {
    if Residue(a, w) + wsize <= w {
      forall m: Memory | m.w == w ensures m.Prefix(a, wsize) == 0 || m.Prefix(a, wsize) == wsize {
        WordReadable(m, a);
        PrefixFacts(m, a, wsize);
      }
    } else {
      var m := MappedOnly(w, a, 1);
      MappedThere(w, a, 1);
      PrefixFacts(m, a, 1);
      PrefixFacts(m, a, wsize);
      NextWord(a, w);
      var next := a - Residue(a, w) + w;
      assert !m.Readable(next);
      assert m.Readable(a);
    }
  }

  /** A multiple of the pointer size starts a pointer that lies in one word of the host. */
  lemma AlignedFits(a: nat, w: WordSize, wsize: WordSize)
    requires wsize <= w && Residue(a, wsize) == 0
    ensures Residue(a, w) + wsize <= w
  {
    WordArithmetic(a, w);
    WordArithmetic(a, wsize);
  }

  /** Adding whole pointers and masking both keep alignment. */
  lemma {:induction false} KeepsAlignment(arg: nat, i: nat, wsize: WordSize)
    requires Residue(arg, wsize) == 0
    ensures Residue(arg + Offset(i, wsize), wsize) == 0
  {
    if i > 0 {
      KeepsAlignment(arg, i - 1, wsize);
      assert arg + Offset(i, wsize) == arg + Offset(i - 1, wsize) + wsize;
    }
  }

  lemma RemainderBy4(n: nat, q: nat, r: nat)
    requires n == 4 * q + r && r < 4
    ensures n % 4 == r
  {
  }

  lemma MaskKeepsAlignment(a: nat)
    ensures Residue(a % TWO32, 4) == Residue(a, 4)
  {
    var q, low := a / TWO32, a % TWO32;
    WordArithmetic(a, 4);
    WordArithmetic(low, 4);
    assert a == 4 * (TWO30 * q + low / 4) + low % 4;
    RemainderBy4(a, TWO30 * q + low / 4, low % 4);
  }

  /** Elements of an aligned array do not straddle words, over either transport. */
  lemma AlignedElement(m: Memory, attachErr: nat, wsize: WordSize, arg: nat, index: nat)
    requires wsize <= m.w && Residue(arg, wsize) == 0
    ensures var p := m.Prefix(ReadAddr(m, attachErr, wsize, arg + Offset(index, wsize)), wsize); p == 0 || p == wsize
  {
    var a := arg + Offset(index, wsize);
    KeepsAlignment(arg, index, wsize);
    MaskKeepsAlignment(a);
    AlignedFits(ReadAddr(m, attachErr, wsize, a), m.w, wsize);
    AllOrNothingIff(m.w, wsize, ReadAddr(m, attachErr, wsize, a));
  }

  // ---------------------------------------------------------------------------
  // Walking an array
  // ---------------------------------------------------------------------------

  /** What a walk over the array at `arr` works on: memory, the transport, the pointer size, and the
      size of the buffer. */
  datatype Array = Array(m: Memory, attachErr: nat, full: bool, wsize: WordSize, arr: nat, len: nat) {
    /** Where the read of element `i` goes. */
    function Addr(i: nat): (a: nat) {
      ReadAddr(m, attachErr, wsize, arr + Offset(i, wsize))
    }

    /** How much of element `i` can be read. */
    function Readable(i: nat): (p: nat) {
      m.Prefix(Addr(i), wsize)
    }

    /** The loop ends at this visit: with the terminator, or with a string that cannot be read. */
    predicate Ends(v: Visit) {
      v.Visited? && (v.ptr == 0 || StringCount(m, attachErr, v.ptr, len) < 0)
    }

    /** The visit of element `i` is possible. */
    predicate VisitAt(i: nat, v: Visit) {
      if PointerFails(attachErr, Readable(i), wsize) then v == Skipped
      else
        v.Visited? && (PointerArrives(attachErr, full, Readable(i), wsize) ==> v.ptr == Pointer(m, Addr(i), wsize))
    }

    /** The buffer after a visit that does not end the loop. */
    ghost predicate BufferAfter(v: Visit, before: seq<byte>, after: seq<byte>) {
      match v
      case Skipped => after == before
      case Visited(ptr) => Delivered(m, attachErr, ptr, len, after)
    }

    /** Memory decides every visit: over ptrace, or with complete reads of an aligned array, or when
        the transport fails as a whole. */
    predicate Decided() {
      wsize <= m.w && (attachErr == 0 ==> full && Residue(arr, wsize) == 0)
    }

    /** Element `i` ends a walk, by what is in memory: it is read entirely and is NULL, or leads to a
        string that cannot be read. */
    predicate StopsAt(i: nat) {
      PointerArrives(attachErr, full, Readable(i), wsize) && Ends(Visited(Pointer(m, Addr(i), wsize)))
    }
  }

  /** What a turn makes of an element: nothing, if it cannot be read, or a pointer. */
  datatype Visit = Skipped | Visited(ptr: nat)

  /** A visit and the buffer after it. */
  datatype Step = Step(visit: Visit, buf: seq<byte>)

  /** The buffer after the first `j` steps. */
  function BufferAt(start: seq<byte>, log: seq<Step>, j: nat): (buf: seq<byte>)
    requires j <= |log|
  {
    if j == 0 then start else log[j - 1].buf
  }

  /** Step `j` of a walk from index `first` on visits its element and does not end the walk. */
  ghost predicate StepAt(x: Array, first: nat, start: seq<byte>, log: seq<Step>, j: nat)
    requires j < |log|
  {
    var v := log[j].visit;
    x.VisitAt(first + j, v) && !x.Ends(v) && x.BufferAfter(v, BufferAt(start, log, j), log[j].buf)
  }

  /** `log` is a walk from index `first` on that has not ended. */
  ghost predicate Walked(x: Array, first: nat, start: seq<byte>, log: seq<Step>) {
    forall j: nat :: j < |log| ==> StepAt(x, first, start, log, j)
  }

  lemma WalkNext(x: Array, first: nat, start: seq<byte>, log: seq<Step>, v: Visit, buf: seq<byte>)
    requires Walked(x, first, start, log)
    requires x.VisitAt(first + |log|, v) && !x.Ends(v) && x.BufferAfter(v, BufferAt(start, log, |log|), buf)
    ensures Walked(x, first, start, log + [Step(v, buf)])
  {
    var next := log + [Step(v, buf)];
    forall j: nat | j < |next| ensures StepAt(x, first, start, next, j) {
      assert BufferAt(start, next, j) == BufferAt(start, log, j);
      if j < |log| {
        assert StepAt(x, first, start, log, j) && next[j] == log[j];
      }
    }
  }

  /** The array that a call walks over. */
  ghost function Over(t: Tracee, wsize: WordSize, arr: nat, len: nat): (x: Array)
    reads t
  {
    Array(t.mem, t.attachErr, t.full, wsize, arr, len)
  }

  /** One turn of the loop; the flag for the terminator is still clear. */
  method VisitElement(t: Tracee, wsize: WordSize, arr: nat, i: nat, dest: array<byte>, len: nat)
    returns (r: int, nil: bool, ghost v: Visit)
    requires len <= dest.Length && len < TWO31 && wsize <= t.mem.w
    modifies t`mem, t`errno, t`peeks, t`requests, dest
    ensures t.mem == old(t.mem)
    ensures var x := Over(t, wsize, arr, len);
            && x.VisitAt(i, v) && (x.Ends(v) <==> r < 0 || nil)
            && (x.Ends(v) ==> (r < 0 <==> v.ptr != 0))
            && (!x.Ends(v) ==> x.BufferAfter(v, old(dest[..]), dest[..]))
  {
    ghost var cp, got;
    r, nil, cp, got := ReadStringArray(t, wsize, arr, i, dest, len, false);
    ghost var x := Over(t, wsize, arr, len);
    v := Skipped;
    if !PointerFails(x.attachErr, x.Readable(i), wsize) {
      v := Visited(FromBytes(cp));
      if PointerArrives(x.attachErr, x.full, x.Readable(i), wsize) {
        ArrivedPointer(x.m, x.attachErr, x.full, wsize, x.Addr(i), cp, got);
      }
    }
  }

  /** How a walk of at most `turns` turns has gone: `last` is the visit that ended it, if one did. */
  ghost predicate WalkResult(x: Array, first: nat, start: seq<byte>, turns: nat, ended: bool, log: seq<Step>, last: Visit) {
    && Walked(x, first, start, log)
    && if ended then |log| < turns && x.VisitAt(first + |log|, last) && x.Ends(last) else |log| == turns
  }

  /** The loop of a decoder over the elements from index `first` on, for as many turns as it is
      given: the loop of the code has no bound. It ends in the turn of the first element that is
      NULL or leads to an unreadable string, and passes over elements that cannot be read. */
  method Walk(t: Tracee, wsize: WordSize, arr: nat, first: nat, dest: array<byte>, len: nat, turns: nat)
    returns (ended: bool, failed: bool, ghost log: seq<Step>, ghost last: Visit)
    requires len <= dest.Length && len < TWO31 && wsize <= t.mem.w
    modifies t`mem, t`errno, t`peeks, t`requests, dest
    ensures t.mem == old(t.mem)
    ensures WalkResult(Over(t, wsize, arr, len), first, old(dest[..]), turns, ended, log, last)
    ensures ended ==> (failed <==> last.ptr != 0)
  {
    log, last, ended, failed := [], Skipped, false, false;
    ghost var x, start := Over(t, wsize, arr, len), dest[..];
    for i := 0 to turns
      invariant Over(t, wsize, arr, len) == x && t.mem == old(t.mem)
      invariant |log| == i && dest[..] == BufferAt(start, log, i) && Walked(x, first, start, log)
    {
      var r, nil;
      r, nil, last := VisitElement(t, wsize, arr, first + i, dest, len);
      if r < 0 || nil {
        return true, r < 0, log, last;
      }
      WalkNext(x, first, start, log, last, dest[..]);
      log := log + [Step(last, dest[..])];
    }
  }

  lemma VisitDecided(x: Array, i: nat, v: Visit)
    requires x.Decided() && x.VisitAt(i, v)
    ensures x.Ends(v) <==> x.StopsAt(i)
  {
    if x.attachErr == 0 {
      AlignedElement(x.m, x.attachErr, x.wsize, x.arr, i);
    }
  }

  /** The elements that a walk has passed do not stop it. */
  lemma PassedBy(x: Array, first: nat, start: seq<byte>, log: seq<Step>, i: nat)
    requires x.Decided() && Walked(x, first, start, log) && first <= i < first + |log|
    ensures !x.StopsAt(i)
  {
    assert StepAt(x, first, start, log, i - first);
    VisitDecided(x, i, log[i - first].visit);
  }

  /** Where memory decides, a walk ends within `turns` turns exactly if one of that many elements
      stops it, and at the first that does. So it never ends when the transport fails as a whole,
      and from index 1 on, where the code starts, the terminator of an empty array does not count. */
  lemma WalkEndsIff(x: Array, first: nat, start: seq<byte>, turns: nat, ended: bool, log: seq<Step>, last: Visit)
    requires x.Decided() && WalkResult(x, first, start, turns, ended, log, last)
    ensures forall i: nat :: first <= i < first + |log| ==> !x.StopsAt(i)
    ensures ended ==> x.StopsAt(first + |log|)
    ensures ended <==> exists i: nat :: first <= i < first + turns && x.StopsAt(i)
  {
    forall i: nat | first <= i < first + |log| ensures !x.StopsAt(i) {
      PassedBy(x, first, start, log, i);
    }
    if ended {
      VisitDecided(x, first + |log|, last);
    }
  }

  /** Element `i` of the array can be read. */
  predicate ElementReadable(m: Memory, arr: nat, wsize: WordSize, i: nat) {
    var a := arr + Offset(i, wsize);
    m.Prefix(a, wsize) == wsize && InAbiRange(a, m.w, wsize)
  }

  /** Element `i` of the array. */
  function Element(m: Memory, arr: nat, wsize: WordSize, i: nat): (p: nat) {
    Pointer(m, arr + Offset(i, wsize), wsize)
  }

  /** An array of strings at `arr` from index `first` on: pointers that are not NULL up to one at
      index `n` that is, all of them in the range of the ABI and readable. */
  ghost predicate IsStringArray(m: Memory, arr: nat, wsize: WordSize, first: nat, n: nat) {
    && (forall i: nat :: first <= i <= n ==> ElementReadable(m, arr, wsize, i))
    && (forall i: nat :: first <= i <= n ==> (Element(m, arr, wsize, i) == 0 <==> i == n))
  }

  /** Where a walk over such an array ends, over either transport: at the terminator, unless it
      meets a string that cannot be read before. */
  lemma ArrayStopsAt(x: Array, first: nat, n: nat, i: nat)
    requires FallsBack(x.attachErr) || (x.attachErr == 0 && x.full)
    requires IsStringArray(x.m, x.arr, x.wsize, first, n) && first <= i <= n
    ensures x.StopsAt(i) <==> i == n || StringCount(x.m, x.attachErr, Element(x.m, x.arr, x.wsize, i), x.len) < 0
  {
    assert ElementReadable(x.m, x.arr, x.wsize, i) && (Element(x.m, x.arr, x.wsize, i) == 0 <==> i == n);
    InRangeAddr(x.arr + Offset(i, x.wsize), x.m.w, x.wsize);
  }

  /** The pointers `ps` lie in memory at `arr`, one behind the other. */
  ghost predicate PointersAt(m: Memory, arr: nat, ps: seq<nat>, wsize: WordSize) {
    forall i: nat :: i < |ps| ==> PointerAt(m, arr + Offset(i, wsize), wsize, ps[i])
  }

  lemma LayoutPointers(m: Memory, arr: nat, ps: seq<nat>, wsize: WordSize)
    requires (forall i: nat :: i < |ps| ==> ps[i] < Pow256(wsize)) && Holds(m, arr, Layout(ps, wsize))
    ensures PointersAt(m, arr, ps, wsize)
  {
    forall i: nat | i < |ps| ensures PointerAt(m, arr + Offset(i, wsize), wsize, ps[i]) {
      LayoutElement(m, arr, ps, wsize, i);
    }
  }

  lemma PointersAreArray(m: Memory, arr: nat, wsize: WordSize, ps: seq<nat>, first: nat)
    requires (forall i: nat :: i < |ps| ==> 0 < ps[i]) && PointersAt(m, arr, ps + [0], wsize)
    requires first <= |ps| && InAbiRange(arr + Offset(|ps|, wsize), m.w, wsize)
    ensures IsStringArray(m, arr, wsize, first, |ps|)
    ensures forall i: nat :: i < |ps| ==> Element(m, arr, wsize, i) == ps[i]
  {
    var all := ps + [0];
    forall i: nat | i <= |ps|
      ensures ElementReadable(m, arr, wsize, i) && Element(m, arr, wsize, i) == all[i]
    {
      assert PointerAt(m, arr + Offset(i, wsize), wsize, all[i]);
      OffsetGrows(i, |ps|, wsize);
    }
  }

  /** Memory that holds the pointers `ps` and a NULL behind them is such an array, and its elements
      are those pointers. */
  lemma LayoutIsArray(m: Memory, arr: nat, wsize: WordSize, ps: seq<nat>, first: nat)
    requires forall i: nat :: i < |ps| ==> 0 < ps[i] < Pow256(wsize)
    requires Holds(m, arr, Layout(ps + [0], wsize))
    requires first <= |ps| && InAbiRange(arr + Offset(|ps|, wsize), m.w, wsize)
    ensures IsStringArray(m, arr, wsize, first, |ps|)
    ensures forall i: nat :: i < |ps| ==> Element(m, arr, wsize, i) == ps[i]
  {
    LayoutPointers(m, arr, ps + [0], wsize);
    PointersAreArray(m, arr, wsize, ps, first);
  }
}
