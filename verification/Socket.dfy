/** Socket call arguments and socket addresses (pinktrace/socket.c), read from the registers or,
    for socketcall(2), from the tracee's memory. */
module Socket {
  import opened CTypes
  import opened AddressSpace
  import opened Kernel
  import opened VmRead
  import opened Dispatch
  import opened Registers
  import opened Syscalls
  import opened StringArray

  datatype ArgResult = Ok(value: nat) | Err(error: int)

  /** Where socketcall(2) keeps argument `index`. */
  function SocketcallAddr(regs: Regs, abi: Abi, index: nat): (a: nat) {
    Unsigned(Unsigned(Arg(regs, abi, 1), 8) + Offset(index, Wordsize(abi)), 8)
  }

  /** What pink_read_socket_argument finds. */
  function SocketArg(m: Memory, attachErr: nat, regs: Regs, abi: Abi, socketcall: bool, index: nat): (r: ArgResult) {
    if !socketcall then
      if index < MAX_ARGS then Ok(Unsigned(Arg(regs, abi, index), 8)) else Err(EINVAL)
    else
      var addr, wsize := SocketcallAddr(regs, abi, index), Wordsize(abi);
      var e := FullError(m, attachErr, wsize, addr, wsize);
      if e == 0 then Ok(Pointer(m, ReadAddr(m, attachErr, wsize, addr), wsize)) else Err(e)
  }

  /** pink_read_vm_data_full: what the address space decides, or a read that was cut short. */
  method ReadFull(t: Tracee, wsize: WordSize, addr: nat, dest: array<byte>, len: nat) returns (r: int)
    requires len <= dest.Length && IsObjectSize(len, t.mem.w)
    modifies t`mem, t`errno, t`peeks, t`requests, dest
    ensures t.mem == old(t.mem) && r <= 0
    ensures r == -FullError(t.mem, t.attachErr, wsize, addr, len) || CutShort(t, r)
    ensures r == 0 ==>
              dest[..] == Overwrite(old(dest[..]), 0, t.mem.Slice(ReadAddr(t.mem, t.attachErr, wsize, addr), len))
  {
    r := ReadVmDataFull(t, wsize, addr, dest, len);
  }

  /** An unsigned integer of the ABI's word size, read from memory. */
  method ReadWordAt(t: Tracee, wsize: WordSize, addr: nat) returns (r: int, value: nat)
    requires wsize <= t.mem.w
    modifies t`mem, t`errno, t`peeks, t`requests
    ensures t.mem == old(t.mem) && r <= 0
    ensures r == -FullError(t.mem, t.attachErr, wsize, addr, wsize) || CutShort(t, r)
    ensures r == 0 ==> value == Pointer(t.mem, ReadAddr(t.mem, t.attachErr, wsize, addr), wsize)
  {
    var arg := new byte[wsize];
    value := 0;
    r := ReadFull(t, wsize, addr, arg, wsize);
    if r < 0 {
      return;
    }
    assert arg[..] == t.mem.Slice(ReadAddr(t.mem, t.attachErr, wsize, addr), wsize);
    value := FromBytes(arg[..]);
  }

  /** A read that found its argument, or failed with the error that stands for it. */
  predicate Found(o: ArgResult, r: int, value: nat) {
    match o
    case Ok(v) => r == 0 && value == v
    case Err(e) => r == -e && r < 0
  }

  /** An argument of socketcall(2), from memory. */
  method ReadSocketcallArgument(t: Tracee, rs: Regset, index: nat, ghost regs: Regs) returns (r: int, value: nat)
    requires rs.cells.Length == 2 * NREGS && Reflects(rs.abi, rs.cells[..], regs)
    requires t.mem.w == 8
    modifies t`mem, t`errno, t`peeks, t`requests
    ensures t.mem == old(t.mem)
    ensures Found(SocketArg(t.mem, t.attachErr, regs, rs.abi, true, index), r, value) || CutShort(t, r)
  {
    var arg;
    r, arg := ReadArgument(rs, 1, regs);
    var wsize := Wordsize(rs.abi);
    var addr := Unsigned(Unsigned(arg, 8) + index * wsize, 8);
    OffsetIs(index, wsize);
    assert addr == SocketcallAddr(regs, rs.abi, index);
    r, value := ReadWordAt(t, wsize, addr);
  }

  /** pink_read_socket_argument. */
  method ReadSocketArgument(t: Tracee, rs: Regset, socketcall: bool, index: nat, ghost regs: Regs)
    returns (r: int, value: nat)
    requires rs.cells.Length == 2 * NREGS && Reflects(rs.abi, rs.cells[..], regs)
    requires t.mem.w == 8
    modifies t`mem, t`errno, t`peeks, t`requests
    ensures t.mem == old(t.mem)
    ensures Found(SocketArg(t.mem, t.attachErr, regs, rs.abi, socketcall, index), r, value) || CutShort(t, r)
  {
    if !socketcall {
      var arg;
      r, arg := ReadArgument(rs, index, regs);
      value := if r == 0 then Unsigned(arg, 8) else 0;
      return;
    }
    r, value := ReadSocketcallArgument(t, rs, index, regs);
  }

  // ---------------------------------------------------------------------------
  // Socket addresses
  // ---------------------------------------------------------------------------

  const SOCKADDR_SIZE := 128

  /** How many bytes of the address are read for the length that the tracee gave. */
  function UsedLength(addrlen: nat): (n: nat)
    ensures 2 <= n <= SOCKADDR_SIZE && (2 <= addrlen <= SOCKADDR_SIZE ==> n == addrlen)
  {
    if addrlen < 2 || addrlen > SOCKADDR_SIZE then SOCKADDR_SIZE else addrlen
  }

  function SockaddrByte(m: Memory, a: nat, n: nat, i: nat): byte {
    if i < n && i < SOCKADDR_SIZE - 1 then m.At(a + i) else 0
  }

  /** The decoded address: tracee bytes, zeros behind them, and a zero in the last place. */
  function SockaddrBytes(m: Memory, a: nat, n: nat): (s: seq<byte>)
    ensures |s| == SOCKADDR_SIZE
  {
    seq<byte>(SOCKADDR_SIZE, i requires 0 <= i < SOCKADDR_SIZE => SockaddrByte(m, a, n, i))
  }

  /** struct pink_sockaddr. */
  class Sockaddr {
    var family: int
    var length: nat
    const pad: array<byte>

    constructor ()
      ensures pad.Length == SOCKADDR_SIZE && fresh(pad)
    {
      family, length, pad := 0, 0, new byte[SOCKADDR_SIZE](_ => 0);
    }
  }

  /** The file descriptor of the call: argument 0 as an `int`. */
  function FdOf(value: nat): int {
    Signed(value, 4)
  }

  /** The outcome of pink_read_socket_address, given what the arguments are. */
  datatype Outcome =
    | Failed(error: int)
    | NullAddress(fd: int)
    | Address(fd: int, family: int, length: nat, bytes: seq<byte>)

  /** The outcome for the argument values `addr` and `addrlen`. */
  function AddressOutcome(m: Memory, attachErr: nat, wsize: WordSize, fd: int, addr: nat, addrlen: nat): (o: Outcome) {
    if addr == 0 then NullAddress(fd)
    else
      var n := UsedLength(addrlen);
      var e := FullError(m, attachErr, wsize, addr, n);
      if e != 0 then Failed(e)
      else
        var bytes := SockaddrBytes(m, ReadAddr(m, attachErr, wsize, addr), n);
        Address(fd, FromBytes(bytes[..2]), n, bytes)
  }

  /** The three arguments that matter, or the error of the first that cannot be read. */
  datatype Arguments = Arguments(fd: int, addr: nat, addrlen: nat) | NoArguments(error: int)

  function Combine(f: ArgResult, a: ArgResult, l: ArgResult, wantFd: bool): (r: Arguments) {
    if wantFd && f.Err? then NoArguments(f.error)
    else if a.Err? then NoArguments(a.error)
    else if l.Err? then NoArguments(l.error)
    else Arguments(if wantFd then FdOf(f.value) else 0, a.value, l.value)
  }

  function SocketArguments(m: Memory, attachErr: nat, regs: Regs, abi: Abi, socketcall: bool, index: nat,
                           wantFd: bool): (r: Arguments) {
    Combine(SocketArg(m, attachErr, regs, abi, socketcall, 0),
            SocketArg(m, attachErr, regs, abi, socketcall, index),
            SocketArg(m, attachErr, regs, abi, socketcall, index + 1), wantFd)
  }

  function SocketAddressOutcome(m: Memory, attachErr: nat, regs: Regs, abi: Abi, socketcall: bool, index: nat,
                                wantFd: bool): (o: Outcome) {
    match SocketArguments(m, attachErr, regs, abi, socketcall, index, wantFd)
    case NoArguments(e) => Failed(e)
    case Arguments(fd, addr, addrlen) => AddressOutcome(m, attachErr, Wordsize(abi), fd, addr, addrlen)
  }

  /** A result of 0 with the arguments, or the negated error. */
  predicate GotArguments(args: Arguments, r: int, fd: int, addr: nat, addrlen: nat) {
    match args
    case NoArguments(e) => r == -e && r < 0
    case Arguments(f, a, l) => r == 0 && fd == f && addr == a && addrlen == l
  }

  /** The descriptor argument. */
  method ReadFd(t: Tracee, rs: Regset, socketcall: bool, ghost regs: Regs) returns (r: int, fd: int)
    requires rs.cells.Length == 2 * NREGS && Reflects(rs.abi, rs.cells[..], regs)
    requires t.mem.w == 8
    modifies t`mem, t`errno, t`peeks, t`requests
    ensures t.mem == old(t.mem)
    ensures CutShort(t, r) ||
            match SocketArg(t.mem, t.attachErr, regs, rs.abi, socketcall, 0)
            case Ok(v) => r == 0 && fd == FdOf(v)
            case Err(e) => r == -e && r < 0
  {
    var value;
    r, value := ReadSocketArgument(t, rs, socketcall, 0, regs);
    fd := if r < 0 then 0 else Signed(value, 4);
  }

  /** The arguments with a descriptor are those without, after the descriptor. */
  lemma ArgumentsWithFd(m: Memory, attachErr: nat, regs: Regs, abi: Abi, socketcall: bool, index: nat)
    ensures SocketArguments(m, attachErr, regs, abi, socketcall, index, true) ==
              match SocketArg(m, attachErr, regs, abi, socketcall, 0)
              case Err(e) => NoArguments(e)
              case Ok(v) =>
                match SocketArguments(m, attachErr, regs, abi, socketcall, index, false)
                case NoArguments(e) => NoArguments(e)
                case Arguments(_, a, l) => Arguments(FdOf(v), a, l)
  {
  }

  /** The address and its length. */
  method ReadAddressArguments(t: Tracee, rs: Regset, socketcall: bool, index: nat, ghost regs: Regs)
    returns (r: int, addr: nat, addrlen: nat)
    requires rs.cells.Length == 2 * NREGS && Reflects(rs.abi, rs.cells[..], regs)
    requires t.mem.w == 8
    modifies t`mem, t`errno, t`peeks, t`requests
    ensures t.mem == old(t.mem)
    ensures CutShort(t, r) ||
            GotArguments(SocketArguments(t.mem, t.attachErr, regs, rs.abi, socketcall, index, false), r, 0, addr, addrlen)
  {
    addrlen := 0;
    r, addr := ReadSocketArgument(t, rs, socketcall, index, regs);
    if r < 0 {
      return;
    }
    r, addrlen := ReadSocketArgument(t, rs, socketcall, index + 1, regs);
  }

  /** The three arguments, read in the order of the code. */
  method ReadSocketArguments(t: Tracee, rs: Regset, socketcall: bool, index: nat, wantFd: bool, ghost regs: Regs)
    returns (r: int, fd: int, addr: nat, addrlen: nat)
    requires rs.cells.Length == 2 * NREGS && Reflects(rs.abi, rs.cells[..], regs)
    requires t.mem.w == 8
    modifies t`mem, t`errno, t`peeks, t`requests
    ensures t.mem == old(t.mem)
    ensures CutShort(t, r) ||
            GotArguments(SocketArguments(t.mem, t.attachErr, regs, rs.abi, socketcall, index, wantFd), r, fd, addr, addrlen)
  {
    fd, addr, addrlen := 0, 0, 0;
    ArgumentsWithFd(t.mem, t.attachErr, regs, rs.abi, socketcall, index);
    if wantFd {
      r, fd := ReadFd(t, rs, socketcall, regs);
      if r < 0 {
        return;
      }
    }
    r, addr, addrlen := ReadAddressArguments(t, rs, socketcall, index, regs);
  }

  /** Reading and patching the address in place. */
  method ReadAddressBytes(t: Tracee, wsize: WordSize, addr: nat, addrlen: nat, sa: Sockaddr) returns (r: int)
    requires sa.pad.Length == SOCKADDR_SIZE && t.mem.w == 8 && addr != 0
    modifies t`mem, t`errno, t`peeks, t`requests, sa, sa.pad
    ensures t.mem == old(t.mem)
    ensures r <= 0 && (r < 0 ==> sa.family == old(sa.family) && sa.length == old(sa.length))
    ensures CutShort(t, r) ||
            match AddressOutcome(t.mem, t.attachErr, wsize, 0, addr, addrlen)
            case Failed(e) => r == -e && r < 0
            case Address(_, family, length, bytes) =>
              r == 0 && sa.family == family && sa.length == length && sa.pad[..] == bytes
            case NullAddress(_) => false
  {
    var n := addrlen;
    if n < 2 || n > sa.pad.Length {
      n := sa.pad.Length;
    }
    forall i | 0 <= i < sa.pad.Length {
      sa.pad[i] := 0;
    }
    r := ReadFull(t, wsize, addr, sa.pad, n);
    if r < 0 {
      return;
    }
    sa.pad[sa.pad.Length - 1] := 0;
    ghost var bytes := SockaddrBytes(t.mem, ReadAddr(t.mem, t.attachErr, wsize, addr), n);
    assert sa.pad[..] == bytes;
    assert sa.pad[..2] == bytes[..2];
    sa.family := FromBytes(sa.pad[..2]);
    sa.length := n;
  }

  /** pink_read_socket_address. `fd` is meaningful if it was asked for. Success is what the registers
      and the address space decide, on every schedule of short reads; so is failure, unless a read
      was cut short. Failure leaves family and length. */
  method ReadSocketAddress(t: Tracee, rs: Regset, socketcall: bool, index: nat, wantFd: bool, sa: Sockaddr,
                           ghost regs: Regs) returns (r: int, fd: int)
    requires rs.cells.Length == 2 * NREGS && Reflects(rs.abi, rs.cells[..], regs)
    requires sa.pad.Length == SOCKADDR_SIZE && t.mem.w == 8
    modifies t`mem, t`errno, t`peeks, t`requests, sa, sa.pad
    ensures t.mem == old(t.mem)
    ensures r <= 0 && (r < 0 ==> sa.family == old(sa.family) && sa.length == old(sa.length))
    ensures CutShort(t, r) ||
            match SocketAddressOutcome(t.mem, t.attachErr, regs, rs.abi, socketcall, index, wantFd)
            case Failed(e) => r == -e && r < 0
            case NullAddress(f) =>
              r == 0 && fd == f && sa.family == -1 && sa.length == 0 && sa.pad[..] == old(sa.pad[..])
            case Address(f, family, length, bytes) =>
              r == 0 && fd == f && sa.family == family && sa.length == length && sa.pad[..] == bytes
  {
    var addr, addrlen;
    r, fd, addr, addrlen := ReadSocketArguments(t, rs, socketcall, index, wantFd, regs);
    if r < 0 {
      return;
    }
    if addr == 0 {
      sa.family := -1;
      sa.length := 0;
      return 0, fd;
    }
    r := ReadAddressBytes(t, Wordsize(rs.abi), addr, addrlen, sa);
  }

  /** Every address that is delivered has a length between 2 and 128, the tracee's bytes below it
      except for the last byte of the buffer, zeros from it on, and the family of its first two
      bytes. */
  lemma DeliveredAddress(m: Memory, attachErr: nat, wsize: WordSize, fd: int, addr: nat, addrlen: nat)
    ensures var o := AddressOutcome(m, attachErr, wsize, fd, addr, addrlen);
            var a := ReadAddr(m, attachErr, wsize, addr);
            o.Address? ==>
              && o.fd == fd && o.length == (if 2 <= addrlen <= 128 then addrlen else 128) && |o.bytes| == 128
              && m.Prefix(a, o.length) == o.length && o.family == FromBytes(m.Slice(a, 2))
              && (forall i: nat :: i < o.length && i < SOCKADDR_SIZE - 1 ==> o.bytes[i] == m.At(a + i))
              && (forall i: nat :: o.length <= i < SOCKADDR_SIZE ==> o.bytes[i] == 0)
              && o.bytes[SOCKADDR_SIZE - 1] == 0
  {
    var o := AddressOutcome(m, attachErr, wsize, fd, addr, addrlen);
    if o.Address? {
      var a := ReadAddr(m, attachErr, wsize, addr);
      FullMeansReadable(m, attachErr, wsize, addr, o.length);
      assert o.bytes[..2] == m.Slice(a, 2);
    }
  }

  /** A NULL address is reported as such, and only that. */
  lemma NullAddressIff(m: Memory, attachErr: nat, wsize: WordSize, fd: int, addr: nat, addrlen: nat)
    ensures var o := AddressOutcome(m, attachErr, wsize, fd, addr, addrlen);
            (o.NullAddress? <==> addr == 0) && (!o.Failed? ==> o.fd == fd)
  {
  }

  /** A descriptor comes back from a register of either size that holds it. */
  lemma FdOfInt(fd: int, w: WordSize)
    requires IsSigned(fd, 4)
    ensures FdOf(Unsigned(fd, w)) == fd
  {
    UnsignedOnce(fd, w);
    UnsignedOnce(fd, 4);
    if fd >= 0 {
      SignedKeeps(fd, 4);
    } else if w == 4 {
      UnsignedOnce(fd + TWO32, 4);
    } else {
      UnsignedIs(fd + TWO64, 4, TWO32 - 1, fd + TWO32);
    }
  }

  /** Where an address is read over process_vm_readv: an x86_64 one as it is, one of a 32-bit or x32
      tracee in its low half. */
  lemma AbiAddress(m: Memory, addr: nat, abi: Abi)
    requires m.w == 8
    ensures ReadAddr(m, 0, Wordsize(abi), addr) == if abi.X86_64? then addr else addr % 0x1_0000_0000
  {
  }

  lemma FullMeansReadable(m: Memory, attachErr: nat, wsize: WordSize, addr: nat, len: nat)
    requires FullError(m, attachErr, wsize, addr, len) == 0
    ensures var a := ReadAddr(m, attachErr, wsize, addr); m.Prefix(a, len) == len
  {
    ReadErrorPositive(m, addr, len);
  }

  // ---------------------------------------------------------------------------
  // socketcall(2) against direct calls, for i386
  // ---------------------------------------------------------------------------

  /** An argument with the 32-bit value `x`, as a register holds it: sign-extended. */
  function InRegister(x: u32): (v: nat) {
    Unsigned(Signed(x, 4), 8)
  }

  /** The same argument is decoded alike from a register and from memory modulo 2^32, and exactly
      alike if and only if its top bit is clear. */
  lemma ArgumentsAgreeIff(x: u32)
    ensures InRegister(x) % TWO32 == x
    ensures InRegister(x) == x <==> x < TWO31
  {
  }

  /** A socket address gets the same outcome from registers and from memory, whatever the tracee's
      memory is. */
  ghost predicate AlwaysAgree(attachErr: nat, fd: u32, addr: u32, addrlen: u32) {
    forall m: Memory :: m.w == 8 ==>
      AddressOutcome(m, attachErr, 4, FdOf(InRegister(fd)), InRegister(addr), InRegister(addrlen))
        == AddressOutcome(m, attachErr, 4, FdOf(fd), addr, addrlen)
  }

  lemma SameOutcome(m: Memory, attachErr: nat, fd: u32, addr: u32, addrlen: u32)
    requires m.w == 8 && (FallsBack(attachErr) ==> addr < TWO31)
    ensures AddressOutcome(m, attachErr, 4, FdOf(InRegister(fd)), InRegister(addr), InRegister(addrlen))
         == AddressOutcome(m, attachErr, 4, FdOf(fd), addr, addrlen)
  {
    ArgumentsAgreeIff(fd);
    ArgumentsAgreeIff(addr);
    ArgumentsAgreeIff(addrlen);
    assert UsedLength(InRegister(addrlen)) == UsedLength(addrlen);
    assert FdOf(InRegister(fd)) == FdOf(fd);
    assert SetupAddr(InRegister(addr), 8, 4) == SetupAddr(addr, 8, 4);
  }

  /** Memory that holds an address where a 32-bit pointer says, and nothing beyond 2^63. */
  lemma FarAddressFails(attachErr: nat, fd: int, addr: u32, addrlen: nat, fd': int, far: nat, addrlen': nat)
    requires FallsBack(attachErr) && 0 < addr && far >= TWO63
    ensures exists m: Memory :: m.w == 8 &&
              AddressOutcome(m, attachErr, 4, fd', far, addrlen') != AddressOutcome(m, attachErr, 4, fd, addr, addrlen)
  {
    var n, k := UsedLength(addrlen), UsedLength(addrlen');
    var m := MappedOnly(8, addr, n);
    MappedThere(8, addr, n);
    Unmapped(8, addr, n, far, k);
    ReadErrorPositive(m, far, k);
    assert AddressOutcome(m, attachErr, 4, fd', far, addrlen').Failed?;
  }

  /** Over ptrace an address with its top bit set is looked for beyond 2^63. */
  lemma SignExtendedAddressFails(attachErr: nat, fd: u32, addr: u32, addrlen: u32)
    requires FallsBack(attachErr) && addr >= TWO31
    ensures !AlwaysAgree(attachErr, fd, addr, addrlen)
  {
    UnsignedOnce(addr, 4);
    UnsignedOnce(Signed(addr, 4), 8);
    FarAddressFails(attachErr, FdOf(fd), addr, addrlen, FdOf(InRegister(fd)), InRegister(addr), InRegister(addrlen));
  }

  /** Exactly when direct calls and socketcall(2) give the same socket address: always over
      process_vm_readv, whatever the top bits of the arguments; over ptrace, when the address has
      its top bit clear. Descriptors and lengths do not matter. */
  lemma SocketAddressesAgreeIff(attachErr: nat, fd: u32, addr: u32, addrlen: u32)
    ensures AlwaysAgree(attachErr, fd, addr, addrlen) <==> (FallsBack(attachErr) ==> addr < TWO31)
  {
    if FallsBack(attachErr) && addr >= TWO31 {
      SignExtendedAddressFails(attachErr, fd, addr, addrlen);
    } else {
      forall m: Memory | m.w == 8
        ensures AddressOutcome(m, attachErr, 4, FdOf(InRegister(fd)), InRegister(addr), InRegister(addrlen))
             == AddressOutcome(m, attachErr, 4, FdOf(fd), addr, addrlen)
      {
        SameOutcome(m, attachErr, fd, addr, addrlen);
      }
    }
  }

  /** The value of a direct argument. */
  function Direct(regs: Regs, i: nat): (x: u32)
    requires i < MAX_ARGS
  {
    regs[ArgReg(I386, i)] % TWO32
  }

  /** The words `args` lie in memory at `a`, one after the other, and can be read. */
  ghost predicate ArgumentsAt(m: Memory, a: nat, args: seq<u32>) {
    Holds(m, a, Layout(args, 4))
  }

  /** Where the fast transport looks for the argument words of a 32-bit tracee. */
  lemma SocketcallAddress(x: u32, d: nat)
    requires x + d < TWO32
    ensures x < TWO31 ==> Unsigned(InRegister(x) + d, 8) == x + d
    ensures Unsigned(InRegister(x) + d, 8) % TWO32 == x + d
  {
    ArgumentsAgreeIff(x);
  }

  /** Where an argument word is read: over process_vm_readv wherever it is, over ptrace below 2^31. */
  lemma SocketcallReads(m: Memory, attachErr: nat, call: Regs, i: nat)
    requires m.w == 8 && Direct(call, 1) + 4 * i < TWO32
    requires attachErr == 0 || (FallsBack(attachErr) && Direct(call, 1) < TWO31)
    ensures ReadAddr(m, attachErr, 4, SocketcallAddr(call, I386, i)) == Direct(call, 1) + Offset(i, 4)
  {
    var x, d := Direct(call, 1), Offset(i, 4);
    OffsetIs(i, 4);
    SocketcallAddress(x, d);
    assert SocketcallAddr(call, I386, i) == Unsigned(InRegister(x) + d, 8);
  }

  lemma WordIsArgument(m: Memory, attachErr: nat, call: Regs, i: nat, v: nat)
    requires m.w == 8 && (attachErr == 0 || FallsBack(attachErr))
    requires PointerAt(m, ReadAddr(m, attachErr, 4, SocketcallAddr(call, I386, i)), 4, v)
    ensures SocketArg(m, attachErr, call, I386, true, i) == Ok(v)
  {
  }

  /** pink_read_socket_argument finds the words that socketcall(2) was given: over
      process_vm_readv wherever they are, over ptrace below 2^31. */
  lemma SocketcallFindsArgument(m: Memory, attachErr: nat, call: Regs, args: seq<u32>, i: nat)
    requires m.w == 8 && i < |args| && ArgumentsAt(m, Direct(call, 1), args)
    requires Direct(call, 1) + 4 * i < TWO32
    requires attachErr == 0 || (FallsBack(attachErr) && Direct(call, 1) < TWO31)
    ensures SocketArg(m, attachErr, call, I386, true, i) == Ok(args[i])
  {
    Pow256Values();
    LayoutElement(m, Direct(call, 1), args, 4, i);
    SocketcallReads(m, attachErr, call, i);
    WordIsArgument(m, attachErr, call, i, args[i]);
  }

  /** The first `n` arguments of a direct call. */
  function DirectArguments(regs: Regs, n: nat): (args: seq<u32>)
    requires n <= MAX_ARGS
  {
    seq<u32>(n, i requires 0 <= i < n => Direct(regs, i))
  }

  lemma OutcomeOfArguments(m: Memory, attachErr: nat, regs: Regs, socketcall: bool, index: nat, wantFd: bool,
                           fd: nat, addr: nat, addrlen: nat)
    requires SocketArg(m, attachErr, regs, I386, socketcall, 0) == Ok(fd)
    requires SocketArg(m, attachErr, regs, I386, socketcall, index) == Ok(addr)
    requires SocketArg(m, attachErr, regs, I386, socketcall, index + 1) == Ok(addrlen)
    ensures SocketAddressOutcome(m, attachErr, regs, I386, socketcall, index, wantFd)
         == AddressOutcome(m, attachErr, 4, if wantFd then FdOf(fd) else 0, addr, addrlen)
  {
  }

  lemma SocketcallOutcome(m: Memory, attachErr: nat, call: Regs, args: seq<u32>, index: nat, wantFd: bool)
    requires m.w == 8 && index + 2 <= |args| && ArgumentsAt(m, Direct(call, 1), args)
    requires Direct(call, 1) + 4 * (index + 1) < TWO32
    requires attachErr == 0 || (FallsBack(attachErr) && Direct(call, 1) < TWO31)
    ensures SocketAddressOutcome(m, attachErr, call, I386, true, index, wantFd)
         == AddressOutcome(m, attachErr, 4, if wantFd then FdOf(args[0]) else 0, args[index], args[index + 1])
  {
    SocketcallFindsArgument(m, attachErr, call, args, 0);
    SocketcallFindsArgument(m, attachErr, call, args, index);
    SocketcallFindsArgument(m, attachErr, call, args, index + 1);
    OutcomeOfArguments(m, attachErr, call, true, index, wantFd, args[0], args[index], args[index + 1]);
  }

  lemma DirectOutcome(m: Memory, attachErr: nat, regs: Regs, index: nat, wantFd: bool)
    requires index <= 4
    ensures SocketAddressOutcome(m, attachErr, regs, I386, false, index, wantFd)
         == AddressOutcome(m, attachErr, 4, if wantFd then FdOf(InRegister(Direct(regs, 0))) else 0,
                           InRegister(Direct(regs, index)), InRegister(Direct(regs, index + 1)))
  {
    OutcomeOfArguments(m, attachErr, regs, false, index, wantFd, InRegister(Direct(regs, 0)),
                       InRegister(Direct(regs, index)), InRegister(Direct(regs, index + 1)));
  }

  /** For equal arguments, up to the length of the address, pink_read_socket_address does not depend
      on how they are passed. What lies behind them does not matter. */
  lemma SocketCallsAgree(m: Memory, attachErr: nat, direct: Regs, call: Regs, index: nat, wantFd: bool)
    requires m.w == 8 && index <= 4 && ArgumentsAt(m, Direct(call, 1), DirectArguments(direct, index + 2))
    requires Direct(call, 1) + 4 * (index + 2) <= TWO32
    requires attachErr == 0 || (FallsBack(attachErr) && Direct(call, 1) < TWO31 && Direct(direct, index) < TWO31)
    ensures SocketAddressOutcome(m, attachErr, direct, I386, false, index, wantFd)
         == SocketAddressOutcome(m, attachErr, call, I386, true, index, wantFd)
  {
    SocketcallOutcome(m, attachErr, call, DirectArguments(direct, index + 2), index, wantFd);
    DirectOutcome(m, attachErr, direct, index, wantFd);
    SameOutcome(m, attachErr, if wantFd then Direct(direct, 0) else 0, Direct(direct, index), Direct(direct, index + 1));
  }
}
