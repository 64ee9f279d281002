/** The return value on PowerPC (pinktrace/read.c, pinktrace/write.c): the summary overflow bit
    of the condition register says whether r3 holds a result or an error number. */
module PowerPc {
  import opened CTypes
  import opened Kernel
  import opened Syscalls

  const SO_MASK := 0x1000_0000

  predicate HasSO(ccr: nat) {
    ccr / SO_MASK % 2 == 1
  }

  function SetSO(ccr: nat): (r: nat) {
    if HasSO(ccr) then ccr else ccr + SO_MASK
  }

  function ClearSO(ccr: nat): (r: nat) {
    if HasSO(ccr) then ccr - SO_MASK else ccr
  }

  /** All the bits of the condition register but summary overflow. */
  function OtherBits(ccr: nat): (nat, nat) {
    (ccr / SO_MASK / 2, ccr % SO_MASK)
  }

  /** Setting and clearing act on that bit and on no other. */
  lemma SOBit(ccr: nat)
    ensures HasSO(SetSO(ccr)) && OtherBits(SetSO(ccr)) == OtherBits(ccr)
    ensures !HasSO(ClearSO(ccr)) && OtherBits(ClearSO(ccr)) == OtherBits(ccr)
  {
    if HasSO(ccr) {
      assert (ccr - SO_MASK) / SO_MASK == ccr / SO_MASK - 1;
    } else {
      assert (ccr + SO_MASK) / SO_MASK == ccr / SO_MASK + 1;
    }
  }

  /** The bit is the one with the value 2^28. */
  lemma SOBitIs(high: nat, so: bool, low: nat)
    requires low < 0x1000_0000
    ensures HasSO(0x2000_0000 * high + (if so then 0x1000_0000 else 0) + low) <==> so
  {
    var ccr := 0x2000_0000 * high + (if so then 0x1000_0000 else 0) + low;
    assert ccr / 0x1000_0000 == 2 * high + if so then 1 else 0;
  }

  /** The errors of the three requests that writing a return value makes, 0 meaning success. */
  datatype UserErrors = UserErrors(readCcr: nat, writeR3: nat, writeCcr: nat)

  /** The ABI that pink_regset_fill finds on a 64-bit host: the bit of the machine state register
      that tells is masked with 0. */
  function DetectAbi(msr: bv64): (abi: int) {
    if msr & 0 != 0 then 0 else 1
  }

  /** pink_abi_wordsize on a host with words of `w` bytes. */
  function AbiWordsize(w: WordSize, abi: int): (wsize: WordSize) {
    if w == 8 && abi == 0 then 8 else 4
  }

  /** Whatever the machine state register holds, the tracee is taken for a 32-bit one. */
  lemma AlwaysPpc32(w: WordSize, msr: bv64)
    ensures AbiWordsize(w, DetectAbi(msr)) == 4
  {
    assert msr & 0 == 0;
  }

  /** What r3 and the summary overflow bit say under an ABI with words of `wsize` bytes: the number
      in r3 with its sign turned when the bit is set, unless that is, in a word of the ABI, the
      negation of an error number. */
  function Decode(w: WordSize, wsize: WordSize, gpr3: int, so: bool, nerrnos: int): (r: (int, int)) {
    var e := Unsigned(if so then gpr3 else -gpr3, wsize);
    if 1 <= e < nerrnos then (-1, e) else (Signed(if so then -gpr3 else gpr3, w), 0)
  }

  /** The user area: r3 and the condition register, in words of `w` bytes. */
  class Task {
    const w: WordSize
    var gpr3: nat
    var ccr: nat

    ghost predicate Valid()
      reads this
    {
      gpr3 < Modulus(w)
    }

    /** pink_write_retval. The two registers are written one after the other: when the second
        request fails, r3 has its new value and the summary overflow bit does not. */
    method WriteRetval(retval: int, error: int, errors: UserErrors) returns (r: int)
      requires Valid()
      modifies this
      ensures Valid()
      ensures r < 0 <==> errors != UserErrors(0, 0, 0)
      ensures r == -PinkError(if errors.readCcr != 0 then errors.readCcr
                              else if errors.writeR3 != 0 then errors.writeR3 else errors.writeCcr)
      ensures errors.readCcr == 0 && errors.writeR3 == 0 ==>
                gpr3 == Unsigned(if error != 0 then error else retval, w)
      ensures errors.readCcr != 0 || errors.writeR3 != 0 ==> gpr3 == old(gpr3)
      ensures r == 0 ==> HasSO(ccr) == (error != 0) && OtherBits(ccr) == OtherBits(old(ccr))
      ensures r < 0 ==> ccr == old(ccr)
    {
      if errors.readCcr != 0 {
        return -PinkError(errors.readCcr);
      }
      SOBit(ccr);
      var flags, value := ccr, retval;
      if error != 0 {
        value := error;
        flags := SetSO(flags);
      } else {
        flags := ClearSO(flags);
      }
      if errors.writeR3 != 0 {
        return -PinkError(errors.writeR3);
      }
      gpr3 := Unsigned(value, w);
      if errors.writeCcr != 0 {
        return -PinkError(errors.writeCcr);
      }
      ccr := flags;
      r := 0;
    }

    /** pink_read_retval, after a refill that found an ABI with words of `wsize` bytes. */
    method ReadRetval(wsize: WordSize, nerrnos: int) returns (retval: int, error: int)
      requires Valid() && wsize <= w && 0 < nerrnos < TWO31
      ensures (retval, error) == Decode(w, wsize, gpr3, HasSO(ccr), nerrnos)
    {
      var result := Signed(gpr3, w);
      if HasSO(ccr) {
        result := Signed(-result, w);
      }
      error := 0;
      DecodeIs(w, wsize, gpr3, HasSO(ccr), nerrnos);
      if IsNegatedErrno(w, wsize, Unsigned(result, w), nerrnos) {
        retval := -1;
        error := Signed(-result, 4);
      } else {
        retval := result;
      }
    }
  }

  /** Turning the sign in a register. */
  lemma TurnedSign(gpr3: int, w: WordSize)
    requires 0 <= gpr3 < Modulus(w)
    ensures Signed(-Signed(gpr3, w), w) == Signed(-gpr3, w)
    ensures Unsigned(Signed(gpr3, w), w) == gpr3 && Unsigned(Signed(-gpr3, w), w) == Unsigned(-gpr3, w)
  {
    UnsignedOnce(gpr3, w);
    UnsignedOnce(-gpr3, w);
    UnsignedOnce(Signed(gpr3, w), w);
    UnsignedOnce(-Signed(gpr3, w), w);
    UnsignedOnce(Signed(-gpr3, w), w);
  }

  /** A word of the ABI is the low part of a register. */
  lemma LowPart(v: int, w: WordSize, wsize: WordSize)
    requires wsize <= w
    ensures Unsigned(Unsigned(v, w), wsize) == Unsigned(v, wsize)
  {
    if wsize == w {
      UnsignedOnce(Unsigned(v, w), w);
    } else {
      ThroughRegister(v);
    }
  }

  /** So is that of the negation of a register. */
  lemma NegatedLowPart(v: int, w: WordSize, wsize: WordSize)
    requires wsize <= w
    ensures Unsigned(-Unsigned(v, w), wsize) == Unsigned(-v, wsize)
  {
    if wsize == w {
      NegatedUnsigned(v, w);
    } else {
      NegationThroughRegister(v);
    }
  }

  /** The `int` that the negation of a signed number is stored in. */
  lemma NegatedInt(v: int, w: WordSize)
    ensures Unsigned(-Signed(v, w), 4) == Unsigned(-v, 4)
  {
    var u := Unsigned(v, w);
    var low := Unsigned(-u, 4);
    NegatedLowPart(v, w, 4);
    assert -u == TWO32 * (-u / TWO32) + low;
    if Signed(v, w) != u {
      UnsignedIs(-Signed(v, w), 4, -u / TWO32 + (if w == 4 then 1 else TWO32), low);
    }
  }

  /** An error number is the same in a word of either size. */
  lemma SmallLowPart(v: int, wsize: WordSize, nerrnos: int)
    requires 1 <= Unsigned(v, wsize) < nerrnos < TWO31
    ensures Unsigned(v, 4) == Unsigned(v, wsize)
  {
    LowPart(v, wsize, 4);
    UnsignedOnce(Unsigned(v, wsize), 4);
  }

  /** Storing a signed number in a register. */
  lemma SignedInRegister(v: int, w: WordSize)
    ensures Unsigned(Signed(v, w), w) == Unsigned(v, w)
  {
    UnsignedOnce(Signed(v, w), w);
  }

  /** The error test on a signed number is the window on its negation. */
  lemma SignedWindowIff(w: WordSize, wsize: WordSize, v: int, nerrnos: int)
    requires wsize <= w && 0 < nerrnos < TWO31
    ensures IsNegatedErrno(w, wsize, Unsigned(Signed(v, w), w), nerrnos) <==> 1 <= Unsigned(-v, wsize) < nerrnos
  {
    SignedInRegister(v, w);
    NegatedErrnoIff(w, wsize, Unsigned(v, w), nerrnos);
    NegatedLowPart(v, w, wsize);
  }

  /** In the window, the `int` that takes the error is the error number. */
  lemma WindowError(w: WordSize, wsize: WordSize, v: int, nerrnos: int)
    requires 1 <= Unsigned(-v, wsize) < nerrnos < TWO31
    ensures Signed(-Signed(v, w), 4) == Unsigned(-v, wsize)
  {
    NegatedInt(v, w);
    SmallLowPart(-v, wsize, nerrnos);
  }

  /** The reader's test and its two results are the window on the number with its sign turned. */
  lemma DecodeIs(w: WordSize, wsize: WordSize, gpr3: int, so: bool, nerrnos: int)
    requires wsize <= w && 0 <= gpr3 < Modulus(w) && 0 < nerrnos < TWO31
    ensures var result := if so then Signed(-Signed(gpr3, w), w) else Signed(gpr3, w);
            Decode(w, wsize, gpr3, so, nerrnos) ==
              if IsNegatedErrno(w, wsize, Unsigned(result, w), nerrnos) then (-1, Signed(-result, 4)) else (result, 0)
  {
    TurnedSign(gpr3, w);
    var v := if so then -gpr3 else gpr3;
    SignedWindowIff(w, wsize, v, nerrnos);
    if 1 <= Unsigned(-v, wsize) < nerrnos {
      WindowError(w, wsize, v, nerrnos);
    }
  }

  /** Exactly the known error numbers are read back as errors, and only once the summary overflow
      bit is set: a write that fails between the two registers leaves no error. */
  lemma ErrorRoundTripIff(w: WordSize, wsize: WordSize, error: int, so: bool, nerrnos: int)
    requires wsize <= w && error != 0 && -TWO31 < error < TWO31 && 0 < nerrnos < TWO31
    ensures Decode(w, wsize, Unsigned(error, w), so, nerrnos) == (-1, error) <==> so && 1 <= error < nerrnos
  {
    LowPart(error, w, wsize);
    NegatedLowPart(error, w, wsize);
    SmallUnsigned(error, wsize);
    SmallUnsigned(-error, wsize);
  }

  /** With the bit cleared, exactly the values outside the error window are read back, although the
      bit tells them from errors: the window is applied without regard to it. */
  lemma ValueRoundTripIff(w: WordSize, wsize: WordSize, v: int, nerrnos: int)
    requires wsize <= w && IsSigned(v, w) && 0 < nerrnos < TWO31
    ensures Decode(w, wsize, Unsigned(v, w), false, nerrnos) == (v, 0) <==> !(1 <= Unsigned(-v, wsize) < nerrnos)
  {
    NegatedLowPart(v, w, wsize);
    UnsignedOnce(Unsigned(v, w), w);
    SignedKeeps(v, w);
  }

  /** With the bit left set by a write that failed half way, what is read is the negated value, or
      the value taken for an error number. */
  lemma TornValue(w: WordSize, wsize: WordSize, v: int, nerrnos: int)
    requires wsize <= w && IsSigned(v, w) && 0 < nerrnos < TWO31
    ensures var e := Unsigned(v, wsize);
            Decode(w, wsize, Unsigned(v, w), true, nerrnos) == if 1 <= e < nerrnos then (-1, e) else (Signed(-v, w), 0)
  {
    LowPart(v, w, wsize);
    NegatedUnsigned(v, w);
  }

  /** On a 64-bit host the ABI that is found matters exactly for numbers whose low half alone is an
      error number: under the ABI the tracee really has they are values. */
  lemma AbiMattersIff(gpr3: int, so: bool, nerrnos: int)
    requires 0 <= gpr3 < TWO64 && 0 < nerrnos < TWO31
    ensures var e: int := if so then gpr3 else -gpr3;
            Decode(8, 4, gpr3, so, nerrnos) != Decode(8, 8, gpr3, so, nerrnos)
            <==> 1 <= Unsigned(e, 4) < nerrnos && Unsigned(e, 8) != Unsigned(e, 4)
  {
    var e: int := if so then gpr3 else -gpr3;
    if 1 <= Unsigned(e, 8) < nerrnos {
      SmallLowPart(e, 8, nerrnos);
    }
  }

  /** The value 2^32 - 5, for instance, is read as the error 5. */
  lemma LargeValueIsError(msr: bv64)
    ensures Decode(8, AbiWordsize(8, DetectAbi(msr)), Unsigned(TWO32 - 5, 8), false, 133) == (-1, 5)
  {
    AlwaysPpc32(8, msr);
    UnsignedOnce(TWO32 - 5, 8);
    UnsignedOnce(5 - TWO32, 4);
  }

  lemma NegatedUnsigned(v: int, w: WordSize)
    ensures Unsigned(-Unsigned(v, w), w) == Unsigned(-v, w)
    ensures Signed(-Unsigned(v, w), w) == Signed(-v, w)
  {
    if w == 4 {
      Negated32(v);
      Negated32(Unsigned(v, 4));
    } else {
      Negated64(v);
      Negated64(Unsigned(v, 8));
    }
    UnsignedOnce(Unsigned(v, w), w);
  }
}
