/** System call number, arguments and return value on the x86_64 host (pinktrace/read.c,
    pinktrace/write.c): what is read back after any sequence of writes. */
module Syscalls {
  import opened CTypes
  import opened Kernel
  import opened Registers

  // ---------------------------------------------------------------------------
  // Reading
  // ---------------------------------------------------------------------------

  /** The register of argument `i`. */
  function ArgReg(abi: Abi, i: nat): (reg: nat)
    requires i < MAX_ARGS
    ensures reg < NREGS && reg !in {RAX, ORIG_RAX, CS}
  {
    if abi.I386? then [RBX, RCX, RDX, RSI, RDI, RBP][i] else [RDI, RSI, RDX, R10, R8, R9][i]
  }

  /** The i386 field of argument `i`. */
  function ArgField(i: nat): (f: nat)
    requires i < MAX_ARGS
    ensures CopiedFrom(f) == ArgReg(I386, i)
  {
    [EBX, ECX, EDX, ESI, EDI, EBP][i]
  }

  /** The system call number that the registers hold. */
  function SysNum(regs: Regs, abi: Abi): (n: int) {
    match abi
    case I386 => regs[ORIG_RAX] % TWO32
    case X86_64 => Signed(regs[ORIG_RAX], 8)
    case X32 => Signed(regs[ORIG_RAX], 8) - X32_SYSCALL_BIT
  }

  /** The value of argument `i`. */
  function Arg(regs: Regs, abi: Abi, i: nat): (v: int)
    requires i < MAX_ARGS
  {
    if abi.I386? then Signed(regs[ArgReg(abi, i)] % TWO32, 4) else Signed(regs[ArgReg(abi, i)], 8)
  }

  /** The content of the return value register. */
  function RetReg(regs: Regs, abi: Abi): (v: int) {
    if abi.I386? then Signed(regs[RAX] % TWO32, 4) else Signed(regs[RAX], 8)
  }

  /** pink_read_syscall. */
  method ReadSyscall(rs: Regset, ghost regs: Regs) returns (n: int)
    requires rs.cells.Length == 2 * NREGS && Reflects(rs.abi, rs.cells[..], regs)
    ensures n == SysNum(regs, rs.abi)
  {
    if rs.abi == I386 {
      assert CopiedFrom(ORIG_EAX) == ORIG_RAX;
      n := rs.cells[ORIG_EAX];
    } else {
      n := Signed(Field64(rs.cells[..], ORIG_RAX), 8);
      if rs.abi == X32 {
        n := n - X32_SYSCALL_BIT;
      }
    }
  }

  /** pink_read_argument. */
  method ReadArgument(rs: Regset, index: nat, ghost regs: Regs) returns (r: int, v: int)
    requires rs.cells.Length == 2 * NREGS && Reflects(rs.abi, rs.cells[..], regs)
    ensures r == if index < MAX_ARGS then 0 else -EINVAL
    ensures index < MAX_ARGS ==> v == Arg(regs, rs.abi, index)
  {
    if index >= MAX_ARGS {
      return -EINVAL, 0;
    }
    r := 0;
    if rs.abi != I386 {
      var cells: Cells := rs.cells[..];
      match index
      case 0 => v := Signed(Field64(cells, RDI), 8);
      case 1 => v := Signed(Field64(cells, RSI), 8);
      case 2 => v := Signed(Field64(cells, RDX), 8);
      case 3 => v := Signed(Field64(cells, R10), 8);
      case 4 => v := Signed(Field64(cells, R8), 8);
      case _ => v := Signed(Field64(cells, R9), 8);
    } else {
      assert CopiedFrom(ArgField(index)) == ArgReg(I386, index);
      match index
      case 0 => v := Signed(rs.cells[EBX], 4);
      case 1 => v := Signed(rs.cells[ECX], 4);
      case 2 => v := Signed(rs.cells[EDX], 4);
      case 3 => v := Signed(rs.cells[ESI], 4);
      case 4 => v := Signed(rs.cells[EDI], 4);
      case _ => v := Signed(rs.cells[EBP], 4);
    }
  }

  // ---------------------------------------------------------------------------
  // Writing
  // ---------------------------------------------------------------------------

  datatype Write = WriteArg(index: nat, v: int) | WriteRet(v: int) | WriteSys(n: int)

  /** The register that a write goes to. */
  function Target(abi: Abi, op: Write): (reg: nat)
    requires op.WriteArg? ==> op.index < MAX_ARGS
    ensures reg < NREGS && reg != CS
  {
    match op
    case WriteArg(i, _) => ArgReg(abi, i)
    case WriteRet(_) => RAX
    case WriteSys(_) => ORIG_RAX
  }

  function Value(op: Write): int {
    match op
    case WriteArg(_, v) => v
    case WriteRet(v) => v
    case WriteSys(n) => n
  }

  /** The registers after a write. */
  function Apply(regs: Regs, abi: Abi, op: Write): (r: Regs)
    requires op.WriteArg? ==> op.index < MAX_ARGS
  {
    regs[Target(abi, op) := Unsigned(Value(op), 8)]
  }

  /** pink_write_argument. */
  method WriteArgument(task: Task, rs: Regset, index: nat, v: int) returns (r: int)
    modifies task
    ensures index >= MAX_ARGS ==> r == -EINVAL && task.regs == old(task.regs)
    ensures index < MAX_ARGS && task.userErr == 0 ==>
              r == 0 && task.regs == Apply(old(task.regs), rs.abi, WriteArg(index, v))
    ensures index < MAX_ARGS && task.userErr != 0 ==> r == -PinkError(task.userErr) < 0 && task.regs == old(task.regs)
  {
    if index >= MAX_ARGS {
      return -EINVAL;
    }
    if rs.abi == I386 {
      match index
      case 0 => r := task.PokeUser(RBX, v);
      case 1 => r := task.PokeUser(RCX, v);
      case 2 => r := task.PokeUser(RDX, v);
      case 3 => r := task.PokeUser(RSI, v);
      case 4 => r := task.PokeUser(RDI, v);
      case _ => r := task.PokeUser(RBP, v);
    } else {
      match index
      case 0 => r := task.PokeUser(RDI, v);
      case 1 => r := task.PokeUser(RSI, v);
      case 2 => r := task.PokeUser(RDX, v);
      case 3 => r := task.PokeUser(R10, v);
      case 4 => r := task.PokeUser(R8, v);
      case _ => r := task.PokeUser(R9, v);
    }
  }

  /** pink_write_syscall. */
  method WriteSyscall(task: Task, rs: Regset, n: int) returns (r: int)
    modifies task
    ensures task.userErr == 0 ==> r == 0 && task.regs == Apply(old(task.regs), rs.abi, WriteSys(n))
    ensures task.userErr != 0 ==> r == -PinkError(task.userErr) < 0 && task.regs == old(task.regs)
  {
    r := task.PokeUser(ORIG_RAX, n);
  }

  /** pink_write_retval. */
  method WriteRetval(task: Task, rs: Regset, retval: int, error: int) returns (r: int)
    modifies task
    ensures task.userErr == 0 ==>
              r == 0 && task.regs == Apply(old(task.regs), rs.abi, WriteRet(if error != 0 then -error else retval))
    ensures task.userErr != 0 ==> r == -PinkError(task.userErr) < 0 && task.regs == old(task.regs)
  {
    var v := retval;
    if error != 0 {
      v := -error;
    }
    r := task.PokeUser(RAX, v);
  }

  // ---------------------------------------------------------------------------
  // Writes refine independent slots
  // ---------------------------------------------------------------------------

  /** What a tracer thinks it writes to: eight cells that have nothing to do with each other. */
  datatype Slots = Slots(args: seq<int>, ret: int, sys: int)

  function View(regs: Regs, abi: Abi): (s: Slots) {
    Slots(seq(MAX_ARGS, i requires 0 <= i < MAX_ARGS => Arg(regs, abi, i)), RetReg(regs, abi), SysNum(regs, abi))
  }

  /** A value as a cell of this ABI holds it. */
  function Held(abi: Abi, v: int): int {
    Signed(v, if abi.I386? then 4 else 8)
  }

  function HeldSys(abi: Abi, n: int): int {
    match abi
    case I386 => Unsigned(n, 4)
    case X86_64 => Signed(n, 8)
    case X32 => Signed(n, 8) - X32_SYSCALL_BIT
  }

  function ApplySlots(s: Slots, abi: Abi, op: Write): (r: Slots)
    requires |s.args| == MAX_ARGS && (op.WriteArg? ==> op.index < MAX_ARGS)
    ensures |r.args| == MAX_ARGS
  {
    match op
    case WriteArg(i, v) => s.(args := s.args[i := Held(abi, v)])
    case WriteRet(v) => s.(ret := Held(abi, v))
    case WriteSys(n) => s.(sys := HeldSys(abi, n))
  }

  /** A write that the tracee's ABI survives: a system call number of a 64-bit tracee carries
      bit 30 exactly when the tracee is an x32 one. */
  predicate KeepsAbi(abi: Abi, op: Write) {
    && (op.WriteArg? ==> op.index < MAX_ARGS)
    && (op.WriteSys? && !abi.I386? ==> (Bit30(Unsigned(op.n, 8)) <==> abi.X32?))
  }

  function RunWrites(regs: Regs, abi: Abi, ops: seq<Write>): (r: Regs)
    requires forall op :: op in ops ==> KeepsAbi(abi, op)
    decreases |ops|
  {
    if ops == [] then regs
    else
      assert KeepsAbi(abi, ops[0]);
      assert forall op :: op in ops[1..] ==> op in ops;
      RunWrites(Apply(regs, abi, ops[0]), abi, ops[1..])
  }

  function RunSlots(s: Slots, abi: Abi, ops: seq<Write>): (r: Slots)
    requires |s.args| == MAX_ARGS && forall op :: op in ops ==> KeepsAbi(abi, op)
    decreases |ops|
  {
    if ops == [] then s
    else
      assert KeepsAbi(abi, ops[0]);
      assert forall op :: op in ops[1..] ==> op in ops;
      RunSlots(ApplySlots(s, abi, ops[0]), abi, ops[1..])
  }

  /** Going through an unsigned register does not change what a signed read sees. */
  lemma ThroughRegister(v: int)
    ensures Signed(Unsigned(v, 8), 8) == Signed(v, 8)
    ensures Unsigned(v, 8) % TWO32 == Unsigned(v, 4)
    ensures Signed(Unsigned(v, 8) % TWO32, 4) == Signed(v, 4)
  {
    var u := Unsigned(v, 8);
    UnsignedOnce(u, 8);
    assert v == TWO32 * (TWO32 * (v / TWO64) + u / TWO32) + u % TWO32;
    UnsignedIs(v, 4, TWO32 * (v / TWO64) + u / TWO32, u % TWO32);
    UnsignedOnce(u % TWO32, 4);
  }

  lemma ArgRegsDistinct(abi: Abi, i: nat, j: nat)
    requires i < MAX_ARGS && j < MAX_ARGS && i != j
    ensures ArgReg(abi, i) != ArgReg(abi, j)
  {
  }

  /** One write changes its own slot and no other, and the ABI is detected as before. */
  lemma WriteRefinesSlot(regs: Regs, compat: bool, op: Write)
    requires KeepsAbi(DetectAbi(compat, regs), op)
    ensures var abi := DetectAbi(compat, regs); var next := Apply(regs, abi, op);
            DetectAbi(compat, next) == abi && View(next, abi) == ApplySlots(View(regs, abi), abi, op)
  {
    var abi := DetectAbi(compat, regs);
    var next := Apply(regs, abi, op);
    ThroughRegister(Value(op));
    var expected := ApplySlots(View(regs, abi), abi, op);
    forall i: nat | i < MAX_ARGS ensures Arg(next, abi, i) == expected.args[i] {
      if op.WriteArg? && op.index != i {
        ArgRegsDistinct(abi, i, op.index);
      }
    }
    assert View(next, abi).args == expected.args;
  }

  /** Any sequence of writes, then a refill: reading shows what the independent slots hold. */
  lemma {:induction false} WritesRefineSlots(regs: Regs, compat: bool, ops: seq<Write>)
    requires forall op :: op in ops ==> KeepsAbi(DetectAbi(compat, regs), op)
    ensures var abi := DetectAbi(compat, regs); var last := RunWrites(regs, abi, ops);
            DetectAbi(compat, last) == abi && View(last, abi) == RunSlots(View(regs, abi), abi, ops)
    decreases |ops|
  {
    if ops != [] {
      var abi := DetectAbi(compat, regs);
      assert ops[0] in ops;
      WriteRefinesSlot(regs, compat, ops[0]);
      assert forall op :: op in ops[1..] ==> op in ops;
      WritesRefineSlots(Apply(regs, abi, ops[0]), compat, ops[1..]);
    }
  }

  /** Exactly which system call numbers are read back as they were written. */
  lemma SyscallRoundTripIff(regs: Regs, compat: bool, n: int)
    requires IsSigned(n, 8)
    ensures var next := Apply(regs, DetectAbi(compat, regs), WriteSys(n));
            (SysNum(next, DetectAbi(compat, next)) == n)
            <==> (if compat then 0 <= n < TWO32 else !Bit30(Unsigned(n, 8)))
  {
    ThroughRegister(n);
    SignedKeeps(n, 8);
  }

  /** Writing the number of an x32 system call as it was read turns the tracee into an x86_64 one:
      bit 30 is taken off in reading and not put back in writing. */
  lemma X32NumberLosesAbi(regs: Regs)
    requires DetectAbi(false, regs) == X32
    ensures DetectAbi(false, Apply(regs, X32, WriteSys(SysNum(regs, X32)))) == X86_64
  {
    var u := regs[ORIG_RAX];
    TakeOffBit30(u);
    SignedMinus(u, TWO30);
  }

  lemma TakeOffBit30(u: nat)
    requires Bit30(u)
    ensures u >= TWO30 && !Bit30(u - TWO30)
  {
    assert (u - TWO30) / TWO30 == u / TWO30 - 1;
  }

  lemma SignedMinus(u: u64, d: nat)
    requires d <= u
    ensures Unsigned(Signed(u, 8) - d, 8) == u - d
  {
  }

  // ---------------------------------------------------------------------------
  // Return values
  // ---------------------------------------------------------------------------

  /** is_negated_errno on a host with words of `w` bytes, for an ABI with words of `wsize`. */
  predicate IsNegatedErrno(w: WordSize, wsize: WordSize, val: int, nerrnos: int) {
    var max := Unsigned(-nerrnos, w);
    if wsize < w then val % TWO32 > max % TWO32 else val > max
  }

  lemma Negated32(v: int)
    ensures Unsigned(-v, 4) == if v % TWO32 == 0 then 0 else TWO32 - v % TWO32
  {
    var q, r := v / TWO32, v % TWO32;
    assert v == TWO32 * q + r;
    UnsignedIs(-v, 4, if r == 0 then -q else -q - 1, if r == 0 then 0 else TWO32 - r);
  }

  lemma Negated64(v: int)
    ensures Unsigned(-v, 8) == if v % TWO64 == 0 then 0 else TWO64 - v % TWO64
  {
    var q, r := v / TWO64, v % TWO64;
    assert v == TWO64 * q + r;
    UnsignedIs(-v, 8, if r == 0 then -q else -q - 1, if r == 0 then 0 else TWO64 - r);
  }

  lemma LowBitsOf64(n: int)
    requires 0 < n < TWO31
    ensures (TWO64 - n) % TWO32 == TWO32 - n
  {
    UnsignedIs(TWO64 - n, 4, TWO32 - 1, TWO32 - n);
  }

  /** The error numbers are those below the size of the errno table. */
  lemma NegatedErrnoIff(w: WordSize, wsize: WordSize, val: int, nerrnos: int)
    requires wsize <= w && 0 <= val < Modulus(w) && 0 < nerrnos < TWO31
    ensures IsNegatedErrno(w, wsize, val, nerrnos) <==> 1 <= Unsigned(-val, wsize) < nerrnos
  {
    if w == 8 {
      Negated64(nerrnos);
    } else {
      Negated32(nerrnos);
    }
    if wsize == 4 {
      Negated32(val);
      LowBitsOf64(nerrnos);
    } else {
      Negated64(val);
    }
  }

  /** What pink_read_retval makes of the content of the return value register. */
  function DecodeRetval(raw: int, abi: Abi, nerrnos: int): (r: (int, int)) {
    if IsNegatedErrno(8, Wordsize(abi), Unsigned(raw, 8), nerrnos) then (-1, Signed(-raw, 4)) else (raw, 0)
  }

  /** The content of the return value register is a negated error number: of an x86_64 tracee all of
      it, of a 32-bit or x32 one its low half. */
  predicate ErrorIn(v: int, abi: Abi, nerrnos: int) {
    if abi.X86_64? then -nerrnos < v < 0 else 1 <= -v % TWO32 < nerrnos
  }

  lemma DecodeRetvalIs(v: int, abi: Abi, nerrnos: int)
    requires IsSigned(v, 8) && 0 < nerrnos < TWO31
    ensures DecodeRetval(v, abi, nerrnos) == if ErrorIn(v, abi, nerrnos) then (-1, -v % TWO32) else (v, 0)
  {
    NegatedErrnoIff(8, Wordsize(abi), Unsigned(v, 8), nerrnos);
    NegationThroughRegister(v);
    UnsignedOnce(-v, 8);
    if ErrorIn(v, abi, nerrnos) {
      if abi.X86_64? {
        UnsignedOnce(-v, 4);
      }
      SignedKeeps(-v % TWO32, 4);
    }
  }

  /** pink_read_retval. */
  method ReadRetval(rs: Regset, nerrnos: int, ghost regs: Regs) returns (retval: int, error: int)
    requires rs.cells.Length == 2 * NREGS && Reflects(rs.abi, rs.cells[..], regs)
    ensures (retval, error) == DecodeRetval(RetReg(regs, rs.abi), rs.abi, nerrnos)
    ensures var v := RetReg(regs, rs.abi);
            0 < nerrnos < TWO31 ==>
              (retval, error) == if ErrorIn(v, rs.abi, nerrnos) then (-1, -v % TWO32) else (v, 0)
  {
    var rax;
    if rs.abi == I386 {
      assert CopiedFrom(EAX) == RAX;
      rax := Signed(rs.cells[EAX], 4);
    } else {
      rax := Signed(Field64(rs.cells[..], RAX), 8);
    }
    error := 0;
    if 0 < nerrnos < TWO31 {
      DecodeRetvalIs(rax, rs.abi, nerrnos);
    }
    if IsNegatedErrno(8, Wordsize(rs.abi), Unsigned(rax, 8), nerrnos) {
      retval := -1;
      error := Signed(-rax, 4);
    } else {
      retval := rax;
    }
  }

  /** What is read after pink_write_retval and a refill. */
  function RetvalRoundTrip(regs: Regs, compat: bool, retval: int, error: int, nerrnos: int): (r: (int, int)) {
    var next := Apply(regs, DetectAbi(compat, regs), WriteRet(if error != 0 then -error else retval));
    DecodeRetval(RetReg(next, DetectAbi(compat, next)), DetectAbi(compat, next), nerrnos)
  }

  /** Negation commutes with passing through the register. */
  lemma NegationThroughRegister(v: int)
    ensures Unsigned(-Unsigned(v, 8), 8) == Unsigned(-v, 8)
    ensures Unsigned(-Unsigned(v, 8), 4) == Unsigned(-v, 4)
    ensures Unsigned(-Signed(v, 4), 4) == Unsigned(-v, 4)
  {
    Negated32(Unsigned(v, 8));
    Negated64(Unsigned(v, 8));
    Negated32(Signed(v, 4));
    Negated32(v);
    Negated64(v);
    ThroughRegister(v);
  }

  /** What is read after writing `v` to the return value register. */
  lemma RetvalAfterWrite(regs: Regs, compat: bool, v: int, nerrnos: int)
    requires IsSigned(v, 8) && 0 < nerrnos < TWO31
    ensures var abi := DetectAbi(compat, regs); var next := Apply(regs, abi, WriteRet(v));
            && DetectAbi(compat, next) == abi
            && RetReg(next, abi) == (if abi.I386? then Signed(v, 4) else v)
            && (IsNegatedErrno(8, Wordsize(abi), Unsigned(RetReg(next, abi), 8), nerrnos)
                <==> 1 <= Unsigned(-v, Wordsize(abi)) < nerrnos)
  {
    var abi := DetectAbi(compat, regs);
    var next := Apply(regs, abi, WriteRet(v));
    ThroughRegister(v);
    SignedKeeps(v, 8);
    var raw := RetReg(next, abi);
    NegatedErrnoIff(8, Wordsize(abi), Unsigned(raw, 8), nerrnos);
    NegationThroughRegister(raw);
    NegationThroughRegister(v);
  }

  lemma SmallUnsigned(e: int, w: WordSize)
    requires IsSigned(e, 4)
    ensures Unsigned(e, w) == if e >= 0 then e else e + Modulus(w)
  {
    UnsignedOnce(e, w);
  }

  /** Exactly the known error numbers are read back as errors. */
  lemma ErrorRoundTripIff(regs: Regs, compat: bool, retval: int, error: int, nerrnos: int)
    requires error != 0 && -TWO31 < error < TWO31 && 0 < nerrnos < TWO31
    ensures RetvalRoundTrip(regs, compat, retval, error, nerrnos) == (-1, error) <==> 1 <= error < nerrnos
  {
    var abi := DetectAbi(compat, regs);
    RetvalAfterWrite(regs, compat, -error, nerrnos);
    SmallUnsigned(error, Wordsize(abi));
    if 1 <= error < nerrnos {
      SignedKeeps(-error, 4);
      SignedKeeps(error, 4);
    }
  }

  /** Exactly which values are read back as they were written: those that the return value
      register can hold and that are not negated errors. */
  lemma ValueRoundTripIff(regs: Regs, compat: bool, v: int, nerrnos: int)
    requires IsSigned(v, 8) && 0 < nerrnos < TWO31
    ensures var abi := DetectAbi(compat, regs);
            (RetvalRoundTrip(regs, compat, v, 0, nerrnos) == (v, 0))
            <==> (!ErrorIn(v, abi, nerrnos) && (abi.I386? ==> IsSigned(v, 4)))
  {
    var abi := DetectAbi(compat, regs);
    RetvalAfterWrite(regs, compat, v, nerrnos);
    SignedKeeps(v, 4);
    UnsignedOnce(-v, 8);
    if 1 <= Unsigned(-v, Wordsize(abi)) < nerrnos {
      ErrorIsNonzero(v, nerrnos);
    }
  }

  /** A value in the error window does not decode to the error number 0. */
  lemma ErrorIsNonzero(v: int, nerrnos: int)
    requires 0 < nerrnos < TWO31
    requires 1 <= Unsigned(-v, 4) < nerrnos || 1 <= Unsigned(-v, 8) < nerrnos
    ensures Signed(-v, 4) != 0 && Signed(-Signed(v, 4), 4) != 0
  {
    NegationThroughRegister(v);
    ThroughRegister(-v);
  }

  // ---------------------------------------------------------------------------
  // Writing, refilling and reading
  // ---------------------------------------------------------------------------

  /** An argument written, with the register set refilled by either method, reads back as the slot
      holds it. */
  method ArgumentReadBack(task: Task, rs: Regset, index: nat, v: int, getregset: bool) returns (r: int, got: int)
    requires rs.cells.Length == 2 * NREGS && task.Valid() && task.userErr == 0 && index < MAX_ARGS
    requires rs.abi == DetectAbi(task.compat, task.regs)
    modifies task, rs, rs.cells
    ensures r == 0 && rs.abi == old(rs.abi) && got == Held(rs.abi, v)
    ensures View(task.regs, rs.abi) == ApplySlots(old(View(task.regs, rs.abi)), rs.abi, WriteArg(index, v))
  {
    WriteRefinesSlot(task.regs, task.compat, WriteArg(index, v));
    r := WriteArgument(task, rs, index, v);
    if getregset {
      r := rs.Fill(task);
    } else {
      r := rs.FillByHeuristic(task);
    }
    r, got := ReadArgument(rs, index, task.regs);
    assert got == View(task.regs, rs.abi).args[index];
  }

  /** A return value or error written, refilled and read. */
  method RetvalReadBack(task: Task, rs: Regset, retval: int, error: int, nerrnos: int, getregset: bool)
    returns (value: int, err: int)
    requires rs.cells.Length == 2 * NREGS && task.Valid() && task.userErr == 0
    requires rs.abi == DetectAbi(task.compat, task.regs)
    modifies task, rs, rs.cells
    ensures (value, err) == old(RetvalRoundTrip(task.regs, task.compat, retval, error, nerrnos))
  {
    var r := WriteRetval(task, rs, retval, error);
    if getregset {
      r := rs.Fill(task);
    } else {
      r := rs.FillByHeuristic(task);
    }
    value, err := ReadRetval(rs, nerrnos, task.regs);
  }
}
