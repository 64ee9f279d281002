/** Integers through a pipe (pinktrace/pipe.c), over every schedule of short reads and writes. */
module Pipe {
  import opened CTypes

  /** The bytes of an `int`. */
  function EncodeInt(i: int): (bs: seq<byte>)
    ensures |bs| == 4
  {
    ToBytes(Unsigned(i, 4), 4)
  }

  function DecodeInt(bs: seq<byte>): (i: int)
    requires |bs| == 4
  {
    Signed(FromBytes(bs), 4)
  }

  lemma IntRoundTrip(i: int)
    requires IsSigned(i, 4)
    ensures DecodeInt(EncodeInt(i)) == i
  {
    Pow256Values();
    StoreLoad(Unsigned(i, 4), 4);
    SignedKeeps(i, 4);
  }

  /** The bytes of a sequence of integers. */
  function Encode(xs: seq<int>): (bs: seq<byte>) {
    if xs == [] then [] else EncodeInt(xs[0]) + Encode(xs[1..])
  }

  lemma {:induction false} EncodeAppend(xs: seq<int>, x: int)
    ensures Encode(xs + [x]) == Encode(xs) + EncodeInt(x)
  {
    if xs == [] {
      assert [] + [x] == [x] && [x][1..] == [];
    } else {
      EncodeAppend(xs[1..], x);
      assert (xs + [x])[1..] == xs[1..] + [x];
      Associates(EncodeInt(xs[0]), Encode(xs[1..]), EncodeInt(x));
    }
  }

  /** What a sender and a receiver go through on one pipe. */
  class Channel {
    /** The bytes in the pipe. */
    var data: seq<byte>
    var errno: int
    /** The integers sent and received by the calls that returned 0, and whether all did. */
    ghost var sent: seq<int>
    ghost var received: seq<int>
    ghost var intact: bool

    /** While every call has returned 0, the integers received are the first of those sent, in
        order, and the pipe holds the bytes of the rest. */
    ghost predicate Valid()
      reads this
    {
      && (forall x :: x in sent ==> IsSigned(x, 4))
      && (intact ==> received <= sent && data == Encode(sent[|received|..]))
    }

    constructor ()
      ensures Valid() && intact && sent == [] && received == [] && data == []
    {
      data, errno, sent, received, intact := [], 0, [], [], true;
    }

    /** read(2): some of the bytes that are there, none at the end, or an error. */
    method Read(n: nat) returns (r: int, bs: seq<byte>)
      requires n > 0
      modifies `data, `errno
      ensures -1 <= r <= n && r <= |old(data)|
      ensures r < 0 ==> errno > 0 && data == old(data) && bs == []
      ensures r >= 0 ==> errno == old(errno) && bs == old(data)[..r] && data == old(data)[r..]
    {
      if * {
        var e: int :| e > 0;
        errno := e;
        return -1, [];
      }
      r :| 0 <= r <= n && r <= |data|;
      bs, data := data[..r], data[r..];
    }

    /** write(2): some of the bytes, or an error. */
    method Write(bs: seq<byte>) returns (r: int)
      requires bs != []
      modifies `data, `errno
      ensures -1 <= r <= |bs|
      ensures r < 0 ==> errno > 0 && data == old(data)
      ensures r >= 0 ==> errno == old(errno) && data == old(data) + bs[..r]
    {
      if * {
        var e: int :| e > 0;
        errno := e;
        return -1;
      }
      r :| 0 <= r <= |bs|;
      data := data + bs[..r];
    }

    /** atomic_read: `k` bytes move from the pipe to `buf`; fewer than asked for is reported. */
    method AtomicRead(buf: array<byte>, count: nat) returns (r: int, ghost k: nat, ghost failed: bool)
      requires count <= buf.Length
      modifies `data, `errno, buf
      ensures k <= count && k <= |old(data)| && data == old(data)[k..] && buf[..k] == old(data)[..k]
      ensures r == if failed && k == 0 then -1 else k
      ensures if failed then errno > 0 && k < count else errno == old(errno)
    {
      var total, rest := 0, count;
      ghost var start := data;
      while rest > 0
        invariant 0 <= total <= |start| && rest == count - total >= 0
        invariant data == start[total..] && buf[..total] == start[..total]
        invariant errno == old(errno)
        decreases rest
      {
        var n, bs := Read(rest);
        if n < 0 {
          return if total > 0 then total else -1, total, true;
        } else if n == 0 {
          return total, total, false;
        }
        forall i | 0 <= i < n {
          buf[total + i] := bs[i];
        }
        assert start[..total + n] == start[..total] + bs;
        assert buf[..total + n] == buf[..total] + buf[total..total + n];
        total := total + n;
        rest := rest - n;
      }
      return total, total, false;
    }

    /** atomic_write: the first `k` bytes of `bs` go into the pipe. */
    method AtomicWrite(bs: seq<byte>) returns (r: int, ghost k: nat, ghost failed: bool)
      modifies `data, `errno
      ensures k <= |bs| && data == old(data) + bs[..k]
      ensures r == if failed && k == 0 then -1 else k
      ensures if failed then errno > 0 && k < |bs| else errno == old(errno)
    {
      var total, rest := 0, bs;
      while rest != []
        invariant 0 <= total <= |bs| && rest == bs[total..]
        invariant data == old(data) + bs[..total]
        invariant errno == old(errno)
        decreases |rest|
      {
        var n := Write(rest);
        if n < 0 {
          return if total > 0 then total else -1, total, true;
        } else if n == 0 {
          return total, total, false;
        }
        assert bs[..total + n] == bs[..total] + rest[..n];
        total := total + n;
        rest := rest[n..];
      }
      return total, total, false;
    }

    /** pink_pipe_write_int. */
    method WriteInt(i: int) returns (r: int)
      requires Valid() && IsSigned(i, 4)
      modifies this
      ensures Valid() && r <= 0 && received == old(received)
      ensures r == 0 <==> data == old(data) + EncodeInt(i)
      ensures r != 0 ==> exists k: nat :: k < 4 && data == old(data) + EncodeInt(i)[..k]
      ensures intact == (old(intact) && r == 0) && sent == if r == 0 then old(sent) + [i] else old(sent)
    {
      errno := 0;
      var bs := EncodeInt(i);
      var count, k, failed := AtomicWrite(bs);
      if count != 4 {
        intact := false;
        return if errno != 0 then -errno else -EINVAL;
      }
      assert bs[..k] == bs;
      if intact {
        EncodeAppend(sent[|received|..], i);
        assert (sent + [i])[|received|..] == sent[|received|..] + [i];
      }
      sent := sent + [i];
      return 0;
    }

    /** pink_pipe_read_int. */
    method ReadInt() returns (r: int, i: int)
      requires Valid()
      modifies this
      ensures Valid() && r <= 0 && sent == old(sent)
      ensures r == 0 ==> |old(data)| >= 4 && i == DecodeInt(old(data)[..4]) && data == old(data)[4..]
      ensures r != 0 ==> exists k: nat :: k < 4 && k <= |old(data)| && data == old(data)[k..]
      ensures intact == (old(intact) && r == 0)
      ensures received == if r == 0 then old(received) + [i] else old(received)
      ensures intact ==> |old(received)| < |sent| && i == sent[|old(received)|]
    {
      errno, i := 0, 0;
      var buf := new byte[4];
      ghost var start := data;
      var count, k, failed := AtomicRead(buf, 4);
      if count != 4 {
        intact := false;
        return if errno != 0 then -errno else -EINVAL, i;
      }
      i := DecodeInt(buf[..]);
      assert buf[..] == buf[..k] == start[..4];
      if intact {
        HeadOfEncoding(sent[|received|..], start);
        assert sent[|received|] in sent;
        assert sent[|received|..][1..] == sent[|received| + 1..];
      }
      received := received + [i];
      return 0, i;
    }
  }

  /** The first four bytes of an encoding are its first integer. */
  lemma HeadOfEncoding(xs: seq<int>, bs: seq<byte>)
    requires bs == Encode(xs) && |bs| >= 4 && forall x :: x in xs ==> IsSigned(x, 4)
    ensures xs != [] && DecodeInt(bs[..4]) == xs[0] && bs[4..] == Encode(xs[1..])
  {
    if xs != [] {
      assert xs[0] in xs;
      IntRoundTrip(xs[0]);
      assert bs[..4] == EncodeInt(xs[0]);
    }
  }
}
