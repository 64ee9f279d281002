/** The register set of the x86_64 host: filling it from the tracee with the i386 registers
    overlaid on the x86_64 ones, and telling the system call ABI (pinktrace/regset.c). */
module Registers {
  import opened CTypes
  import opened Kernel

  datatype Abi = X86_64 | I386 | X32

  /** pink_abi_wordsize. */
  function Wordsize(abi: Abi): (w: WordSize) {
    match abi
    case X86_64 => 8
    case I386 => 4
    case X32 => 4
  }

  // Registers in the order of the user area (struct user_regs_struct).
  const RBP := 4
  const RBX := 5
  const R10 := 7
  const R9 := 8
  const R8 := 9
  const RAX := 10
  const RCX := 11
  const RDX := 12
  const RSI := 13
  const RDI := 14
  const ORIG_RAX := 15
  const RIP := 16
  const CS := 17
  const EFLAGS := 18
  const RSP := 19
  const SS := 20
  const DS := 23
  const ES := 24
  const FS := 25
  const GS := 26
  const NREGS := 27

  // Registers in the order of struct i386_user_regs_struct.
  const EBX := 0
  const ECX := 1
  const EDX := 2
  const ESI := 3
  const EDI := 4
  const EBP := 5
  const EAX := 6
  const ORIG_EAX := 11
  const EIP := 12
  const ESP := 15

  const MAX_ARGS := 6
  const USER32_CS := 0x23
  const X32_SYSCALL_BIT := TWO30
  const SIZEOF_X86_64_REGS := 8 * NREGS
  const SIZEOF_I386_REGS := 68

  type Regs = r: seq<u64> | |r| == NREGS witness seq(NREGS, _ => 0)

  /** Bit 30, by which the kernel marks x32 system calls. */
  predicate Bit30(n: nat) {
    n / TWO30 % 2 == 1
  }

  lemma Bit30Is(high: nat, bit: bool, low: nat)
    requires low < 0x4000_0000
    ensures Bit30(0x8000_0000 * high + (if bit then 0x4000_0000 else 0) + low) <==> bit
  {
    var n := 0x8000_0000 * high + (if bit then 0x4000_0000 else 0) + low;
    assert n / 0x4000_0000 == 2 * high + if bit then 1 else 0;
  }

  // ---------------------------------------------------------------------------
  // Narrowing in place
  // ---------------------------------------------------------------------------

  /** The register that a field of struct i386_user_regs_struct is copied from; -1 for the
      fields that the code leaves alone. */
  function CopiedFrom(field: int): (reg: int)
    ensures -1 <= reg < NREGS
    ensures reg >= 0 ==> 0 <= field < 16
  {
    if field == EBX then RBX
    else if field == ECX then RCX
    else if field == EDX then RDX
    else if field == ESI then RSI
    else if field == EDI then RDI
    else if field == EBP then RBP
    else if field == EAX then RAX
    else if field == ORIG_EAX then ORIG_RAX
    else if field == EIP then RIP
    else if field == ESP then RSP
    else -1
  }

  /** The union as 32-bit cells, least significant half first: an i386 field is one cell, an
      x86_64 register is two. */
  type Cells = s: seq<u32> | |s| == 2 * NREGS witness seq(2 * NREGS, _ => 0)

  /** The low half of a register. */
  function LowHalf(cells: Cells, reg: int): u32
    requires 0 <= reg < NREGS
  {
    cells[2 * reg]
  }

  /** Only fields of the i386 structure have been assigned. */
  ghost predicate OnlyFields(done: seq<int>) {
    forall f :: f in done ==> CopiedFrom(f) >= 0
  }

  /** The cells after copying the given fields one after the other, each through the union as
      it is by then. */
  function RunCopies(cells: Cells, fields: seq<int>): (r: Cells)
    requires OnlyFields(fields)
    decreases |fields|
  {
    if fields == [] then cells
    else
      var last := fields[|fields| - 1];
      assert last in fields && CopiedFrom(last) >= 0;
      var before := RunCopies(cells, fields[..|fields| - 1]);
      before[last := LowHalf(before, CopiedFrom(last))]
  }

  /** No copied field lies on the low half of a register that is copied. */
  lemma CopiesDoNotInterfere(f: int, g: int)
    requires CopiedFrom(f) >= 0 && CopiedFrom(g) >= 0
    ensures f != 2 * CopiedFrom(g)
  {
  }

  /** Copying in place acts as if there was no overlap: each field named gets the low half of
      the original register, the rest keeps its value. */
  lemma {:induction false} CopiesInPlace(cells: Cells, fields: seq<int>)
    requires OnlyFields(fields)
    ensures forall i :: 0 <= i < |cells| ==>
              RunCopies(cells, fields)[i] == if i in fields then LowHalf(cells, CopiedFrom(i)) else cells[i]
    decreases |fields|
  {
    if fields != [] {
      var last, rest := fields[|fields| - 1], fields[..|fields| - 1];
      assert last in fields && fields == rest + [last];
      CopiesInPlace(cells, rest);
      forall f | f in rest ensures f != 2 * CopiedFrom(last) {
        CopiesDoNotInterfere(f, last);
      }
    }
  }

  /** The copy that the code means, from an original that is not overlaid. */
  function Narrowed(cells: Cells): (r: Cells) {
    seq<u32>(2 * NREGS, i requires 0 <= i < 2 * NREGS =>
      if CopiedFrom(i) >= 0 then LowHalf(cells, CopiedFrom(i)) else cells[i])
  }

  /** The comment in the code says that the order of the copies is important. It is not: every
      order in which all of them are made gives the copy that is meant. */
  lemma NarrowingOrderFree(cells: Cells, order: seq<int>)
    requires forall f :: f in order <==> CopiedFrom(f) >= 0
    ensures RunCopies(cells, order) == Narrowed(cells)
  {
    CopiesInPlace(cells, order);
  }

  /** One assignment through the union: a field of the i386 structure from an x86_64 register. */
  method CopyField(cells: array<u32>, field: int, reg: nat, ghost original: Cells, ghost done: seq<int>)
    returns (ghost done': seq<int>)
    requires cells.Length == 2 * NREGS && CopiedFrom(field) == reg
    requires OnlyFields(done) && cells[..] == RunCopies(original, done)
    modifies cells
    ensures done' == done + [field] && OnlyFields(done')
    ensures cells[..] == RunCopies(original, done')
  {
    done' := done + [field];
    assert done'[..|done|] == done;
    cells[field] := cells[2 * reg];
  }

  /** The first six assignments: the argument registers. */
  method NarrowArguments(cells: array<u32>, ghost original: Cells) returns (ghost done: seq<int>)
    requires cells.Length == 2 * NREGS && cells[..] == original
    modifies cells
    ensures done == [EBX, ECX, EDX, ESI, EDI, EBP] && OnlyFields(done)
    ensures cells[..] == RunCopies(original, done)
  {
    done := CopyField(cells, EBX, RBX, original, []);
    done := CopyField(cells, ECX, RCX, original, done);
    done := CopyField(cells, EDX, RDX, original, done);
    done := CopyField(cells, ESI, RSI, original, done);
    done := CopyField(cells, EDI, RDI, original, done);
    done := CopyField(cells, EBP, RBP, original, done);
  }

  /** The ten assignments, in the order of the code. */
  method Narrow(cells: array<u32>)
    requires cells.Length == 2 * NREGS
    modifies cells
    ensures cells[..] == Narrowed(old(cells[..]))
  {
    ghost var original: Cells := cells[..];
    ghost var done := NarrowArguments(cells, original);
    done := CopyField(cells, EAX, RAX, original, done);
    done := CopyField(cells, ORIG_EAX, ORIG_RAX, original, done);
    done := CopyField(cells, EIP, RIP, original, done);
    done := CopyField(cells, ESP, RSP, original, done);
    NarrowingOrderFree(original, done);
  }

  // ---------------------------------------------------------------------------
  // Filling the register set
  // ---------------------------------------------------------------------------

  /** Half of a register as it lies in the union. */
  function Half(regs: Regs, i: int): u32
    requires 0 <= i < 2 * NREGS
  {
    if i % 2 == 0 then regs[i / 2] % TWO32 else regs[i / 2] / TWO32
  }

  /** The union filled with the x86_64 registers. */
  function X86Cells(regs: Regs): (c: Cells) {
    seq<u32>(2 * NREGS, i requires 0 <= i < 2 * NREGS => Half(regs, i))
  }

  /** A 64-bit register of the union. */
  function Field64(cells: Cells, reg: int): u64
    requires 0 <= reg < NREGS
  {
    cells[2 * reg] + TWO32 * cells[2 * reg + 1]
  }

  lemma Field64OfX86Cells(regs: Regs)
    ensures forall i :: 0 <= i < NREGS ==> Field64(X86Cells(regs), i) == regs[i]
  {
  }

  /** The register behind each of the 17 fields of struct i386_user_regs_struct. */
  function I386Source(field: int): (reg: int)
    requires 0 <= field < 17
    ensures 0 <= reg < NREGS && (CopiedFrom(field) >= 0 ==> reg == CopiedFrom(field))
  {
    [RBX, RCX, RDX, RSI, RDI, RBP, RAX, DS, ES, FS, GS, ORIG_RAX, RIP, CS, EFLAGS, RSP, SS][field]
  }

  /** Which system call ABI the tracee is in. */
  function DetectAbi(compat: bool, regs: Regs): (abi: Abi) {
    if compat then I386 else if Bit30(regs[ORIG_RAX]) then X32 else X86_64
  }

  /** What a register set says is what the registers say, as far as the readers look. */
  ghost predicate Reflects(abi: Abi, cells: Cells, regs: Regs) {
    if abi.I386? then forall f :: CopiedFrom(f) >= 0 ==> cells[f] == regs[CopiedFrom(f)] % TWO32
    else forall i :: 0 <= i < NREGS ==> Field64(cells, i) == regs[i]
  }

  /** Narrowing in place gives what a 32-bit view of the registers shows. */
  lemma NarrowedReflects(regs: Regs)
    ensures Reflects(I386, Narrowed(X86Cells(regs)), regs)
  {
    var cells := X86Cells(regs);
    forall f | CopiedFrom(f) >= 0 ensures Narrowed(cells)[f] == regs[CopiedFrom(f)] % TWO32 {
      assert cells[2 * CopiedFrom(f)] == Half(regs, 2 * CopiedFrom(f));
    }
  }

  /** The tracee's user area. `compat` says that it runs 32-bit code. */
  class Task {
    var regs: Regs
    const compat: bool
    /** The error with which the requests on the user area fail; 0 when they succeed. */
    const userErr: nat

    /** 32-bit code runs in the code segment of that name, other code does not. */
    ghost predicate Valid()
      reads this
    {
      regs[CS] == USER32_CS <==> compat
    }

    /** pink_write_word_user on the slot of a register. */
    method PokeUser(reg: nat, v: int) returns (r: int)
      requires reg < NREGS
      modifies this
      ensures r == -PinkError(userErr)
      ensures regs == if userErr == 0 then old(regs)[reg := Unsigned(v, 8)] else old(regs)
    {
      if userErr != 0 {
        return -PinkError(userErr);
      }
      regs := regs[reg := Unsigned(v, 8)];
      r := 0;
    }
  }

  /** struct pink_regset. */
  class Regset {
    const cells: array<u32>
    var iovLen: nat
    var abi: Abi

    constructor ()
      ensures cells.Length == 2 * NREGS && fresh(cells)
    {
      cells, iovLen, abi := new u32[2 * NREGS](_ => 0), 0, X86_64;
    }

    /** PTRACE_GETREGS: all the x86_64 registers. */
    method GetRegs(task: Task) returns (r: int)
      requires cells.Length == 2 * NREGS
      modifies cells
      ensures r == -PinkError(task.userErr)
      ensures cells[..] == if r == 0 then X86Cells(task.regs) else old(cells[..])
    {
      if task.userErr != 0 {
        return -PinkError(task.userErr);
      }
      forall i | 0 <= i < cells.Length {
        cells[i] := Half(task.regs, i);
      }
      r := 0;
    }

    /** PTRACE_GETREGSET with NT_PRSTATUS: the registers of the tracee's kind, and how many
        bytes they take. */
    method GetRegset(task: Task) returns (r: int)
      requires cells.Length == 2 * NREGS
      modifies `iovLen, cells
      ensures r == -PinkError(task.userErr)
      ensures r == 0 && task.compat ==>
                iovLen == SIZEOF_I386_REGS && forall f :: 0 <= f < 17 ==> cells[f] == task.regs[I386Source(f)] % TWO32
      ensures r == 0 && !task.compat ==> iovLen == SIZEOF_X86_64_REGS && cells[..] == X86Cells(task.regs)
      ensures r != 0 ==> iovLen == old(iovLen) && cells[..] == old(cells[..])
    {
      if task.userErr != 0 {
        return -PinkError(task.userErr);
      }
      if task.compat {
        iovLen := SIZEOF_I386_REGS;
        forall f | 0 <= f < 17 {
          cells[f] := task.regs[I386Source(f)] % TWO32;
        }
      } else {
        iovLen := SIZEOF_X86_64_REGS;
        forall i | 0 <= i < cells.Length {
          cells[i] := Half(task.regs, i);
        }
      }
      r := 0;
    }

    /** The ABI from the size of the register set and bit 30 of the system call number. */
    method DecideAbi()
      requires cells.Length == 2 * NREGS
      modifies `abi
      ensures abi == if iovLen == SIZEOF_I386_REGS then I386
                     else if Bit30(Field64(cells[..], ORIG_RAX)) then X32 else X86_64
    {
      if iovLen == SIZEOF_I386_REGS {
        abi := I386;
      } else if Bit30(Field64(cells[..], ORIG_RAX)) {
        abi := X32;
      } else {
        abi := X86_64;
      }
    }

    /** pink_regset_fill where PTRACE_GETREGSET is available. */
    method Fill(task: Task) returns (r: int)
      requires cells.Length == 2 * NREGS
      modifies this, cells
      ensures r == -PinkError(task.userErr)
      ensures r == 0 ==> abi == DetectAbi(task.compat, task.regs) && Reflects(abi, cells[..], task.regs)
      ensures r != 0 ==> abi == old(abi) && cells[..] == old(cells[..])
    {
      iovLen := 2 * NREGS * 4;
      r := GetRegset(task);
      if r < 0 {
        return;
      }
      Field64OfX86Cells(task.regs);
      DecideAbi();
    }

    /** pink_regset_fill where it is not: the registers of a 32-bit tracee, told by its code
        segment, are narrowed in place. */
    method FillByHeuristic(task: Task) returns (r: int)
      requires cells.Length == 2 * NREGS && task.Valid()
      modifies this, cells
      ensures r == -PinkError(task.userErr)
      ensures r == 0 ==> abi == DetectAbi(task.compat, task.regs) && Reflects(abi, cells[..], task.regs)
      ensures r != 0 ==> abi == old(abi) && cells[..] == old(cells[..])
    {
      iovLen := SIZEOF_X86_64_REGS;
      r := GetRegs(task);
      if r < 0 {
        return;
      }
      Field64OfX86Cells(task.regs);
      if Field64(cells[..], CS) == USER32_CS {
        iovLen := SIZEOF_I386_REGS;
        Narrow(cells);
        NarrowedReflects(task.regs);
      }
      DecideAbi();
    }
  }
}
