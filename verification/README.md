# PinkTrace in Dafny

PinkTrace reads and writes the memory and registers of a traced process. This project models
the algorithms underneath its ptrace(2) wrapping and proves what they compute:

- **Memory transfer** (`VmRead`, `VmString`, `VmChunks`, `VmWrite`, `Dispatch`, `WriteAgreement`): the
  transport that moves one `long` at a time with PEEKDATA and POKEDATA, the transport over process_vm_readv and
  process_vm_writev, and the dispatchers that choose between them by errno. Both are proved against
  closed forms over bytes: the readable prefix of a range, its first NUL, the bytes themselves.
- **Registers** (`Registers`, `Syscalls`, `PowerPc`): ABI detection, the narrowing of x86_64 registers
  to i386 ones inside one union, and the codec for system call numbers, arguments and return values.
- **Derived decoders** (`StringArray`, `Socket`): NULL-terminated string arrays, socketcall(2)
  arguments and socket addresses, over either transport.
- **Tables** (`Names`), **pipes** (`Pipe`) and the **event loop** of the example tracer (`Tracer`).

`CTypes` holds C integers, `AddressSpace` the byte-level vocabulary, `Kernel` the requests to the
kernel as abstract steps. `dafny verify dfyconfig.toml` checks everything.

## The kernel

A tracee's memory is bytes plus an error for each word, the same for all bytes of a word. An
attempt at process_vm_readv fails as a whole with `attachErr` if that is not 0. Otherwise it
delivers some non-empty prefix of the readable bytes (any one: the contracts hold for every
schedule of short transfers), or fails with EFAULT if there is none. `full` is the assumption that
it completes on mapped ranges; contracts that need it name it. Decoders that ask for a whole range
answer a short read with EFAULT; their contracts have that as the one outcome that memory does not
decide (`Dispatch.CutShort`). Every request on the user area has its own error. A 32-bit tracee is one whose code segment is 0x23. A pipe moves any
number of bytes per call, none, or fails. Hosts are little-endian, with words of 4 or 8 bytes for
memory transfer and PowerPC, 8 for x86_64.

## Where the code does not do what it says

Each of these is proved, with the exact condition where there is one.

- `pink_vm_lread` counts in an `unsigned int` (`pinktrace/vm.c:40`), so a complete read of 4 GiB or more
  is reported modulo 2^32 and `pink_read_vm_data_full` calls it a fault.
- Only the fast transport restricts addresses to the ABI (`pinktrace/vm.c:22-33`).
  `Dispatch.TransportsAgreeIff` says exactly when the transport cannot be noticed.
- The ptrace string read does not count the NUL, counts from the start of the first word instead of
  from the address, and may count a NUL beyond the requested length. `pinktrace/read.h:180` documents a
  count that includes the NUL. `Dispatch.CountsAlwaysAgreeIff` says for which requests the count does
  not depend on the transport, `Dispatch.StringCountsAgreeIff` on which memories it does not.
- The chunked string read means not to cross pages (`pinktrace/vm.c:204-208`) but measures every chunk
  from the first address. `VmChunks.PageCrossingIff` says exactly when its requests keep to pages.
- `pink_vm_lwrite` takes unaligned data from the wrong place and writes whole words.
  `VmWrite.WriteCopiesIff` says exactly when it is a copy. A failure on the first word is not
  returned as -1 on a 64-bit host (`VmWrite.FirstWordFailure`). `WriteAgreement.WritesAgreeIff` and
  `WriteAgreement.WritableWritesAgreeIff` say exactly when the transport of a write cannot be noticed.
- `pink_read_string_array` looks at a pointer of which it has read a part only, the rest being
  uninitialised. `StringArray.AllOrNothingIff` says exactly where faults cannot do that to a pointer,
  aligned arrays included.
- The loop over an argument list starts at index 1 (`examples/pink-simple-strace.c:167-169`). It leaves
  out the first argument, runs past the terminator of an empty list, and does not end when nothing can
  be read. `StringArray.WalkEndsIff` says exactly when it ends.
- Looking up the name of a system call number does not always give the number back, even a name that
  is in the table once: the empty name is refused (`Names.NameThenLookupIff`).
- On PowerPC, a return value whose second register cannot be written is left half written, and reads
  back as something else (`PowerPc.ErrorRoundTripIff`, `PowerPc.TornValue`).
- PowerPC64 masks the machine state register with 0 (`pinktrace/regset.c:70-71`), so every tracee is
  taken for a 32-bit one and the errno test looks at the low half of a return value only.
  `PowerPc.AbiMattersIff` says exactly which return values that gets wrong.
- The order of the register copies, "important" at `pinktrace/regset.c:91-94`, does not matter
  (`Registers.NarrowingOrderFree`).
- A system call number written to a 64-bit tracee reads back unless bit 30 is set; writing back the number of an x32
  call turns the tracee into an x86_64 one.
- The example tracer takes signal deliveries for system call stops. `Tracer.InStepIff` says exactly
  when it is in step with the tracee.

## Model

| member | source | states |
|---|---|---|
| `AddressSpace.PrefixFacts` | pinktrace/vm.c:50-55 | the readable prefix of a range is readable throughout and ends at a fault or at the end |
| `AddressSpace.FirstNulFacts` | pinktrace/vm.c:93-95 | the first NUL of a range is a NUL and none comes before it |
| `AddressSpace.WordsSpannedIsCeiling` | pinktrace/vm.c:43-64 | the number of words a range touches is the residue plus the length, divided by the word size, rounded up |
| `CTypes.FromBytesAt` | pinktrace/read.c:463-475 | byte i of an integer read from memory is its digit i to base 256, least significant first |
| `CTypes.ToBytesAt` | pinktrace/pipe.c:118-127 | so is byte i of an integer that is stored |
| `Kernel.Tracee.PinkPtrace` | pinktrace/trace.c:9-28 | errno ends up 0 exactly on success, a word of all ones included; EIO becomes EFAULT; the result is the negated errno; a poke stores one word or nothing |
| `Kernel.PinkErrorIs` | pinktrace/trace.c:18-25 | the error reported is 0 exactly if the raw one is, EIO becomes EFAULT and every other error is kept |
| `VmRead.ReadWord` | pinktrace/vm.c:43-64 | one turn of the word loop peeks the next word once and copies exactly the next bytes, or changes nothing but errno |
| `VmRead.LRead` | pinktrace/vm.c:36-66 | for every address and length: the bytes before the first fault are copied and no others, the words they need are peeked once each in order and no others, the count is the length modulo 2^32 or -1 with the error of the first faulting word |
| `VmRead.CRead` | pinktrace/vm.c:167-180 | one request at the address restricted to the ABI; a prefix of the readable bytes is delivered, or -1 with the error and nothing |
| `VmRead.SetupAddrKeeps` | pinktrace/vm.c:22-33 | a 32-bit ABI on a 64-bit host gets the address below 2^32 that differs from the one given by a multiple of 2^32; every other gets the address itself |
| `VmString.StopAtNul` | pinktrace/vm.c:91-95 | when the scan ends in the word of the first NUL: the count, the bytes copied and the words touched |
| `VmString.StopAtFault` | pinktrace/vm.c:84-89 | a fault before any NUL gives -1, its error, and exactly the bytes before it |
| `VmString.StopAtEnd` | pinktrace/vm.c:96-102 | without a NUL in any word of the range the count is the length modulo 2^32 and all of it is copied |
| `VmString.StopsInTimeIff` | pinktrace/vm.c:69-103 | the read succeeds exactly when every byte up to the first NUL, or to the end of the range, is readable; bytes before the address and after the NUL do not matter |
| `VmString.ScanWord` | pinktrace/vm.c:93-95 | the scan of a word finds the first NUL from the residue on, or the end of the word |
| `VmString.LReadNul` | pinktrace/vm.c:69-103 | count, bytes copied, errno and the exact list of words peeked, in terms of the first NUL and the readable prefix |
| `VmChunks.ChunkLenIs` | pinktrace/vm.c:200-212 | every chunk is the least of what is left, 256, and the distance of the first address to its page end, and at least 1 |
| `VmChunks.ReadChunk` | pinktrace/vm.c:214-224 | one request for the next chunk; the first NUL in what came, or progress by what came |
| `VmChunks.ReadChunks` | pinktrace/vm.c:194-226 | over every schedule of short reads and faults the result is the bounded string length plus one, the length, or the bytes before the fault; the requests start at the address, each goes on within or right after the one before, and each is for the rest or a stride, whichever is less; in a complete run they are exactly the schedule to the end of the chunk of the first NUL, or of the range |
| `VmChunks.CReadNul` | pinktrace/vm.c:183-227 | the same result and requests at the address restricted to the ABI, with the buffer equal to tracee memory for at least the counted bytes |
| `VmChunks.ScheduleAt` | pinktrace/vm.c:194-225 | with complete reads, chunk number i starts i strides after the address |
| `VmChunks.RunEndsAtNul` | pinktrace/vm.c:214-224 | a complete run keeps to the beginning of the schedule of the whole range, and its last request is the one for the first NUL |
| `VmChunks.FirstChunkInPage` | pinktrace/vm.c:204-208 | the first request of every run keeps to one page |
| `VmChunks.PageCrossingIff` | pinktrace/vm.c:204-212 | in a complete run no request crosses a page end exactly when the address is a multiple of the stride within its page, or the chunks up to that of the first NUL, or of the end of the range, do not reach the first page end at risk |
| `VmChunks.CrossingExample` | pinktrace/vm.c:204-212 | a run on a string 100 bytes into a page: it succeeds, and one of its requests crosses the page end |
| `VmWrite.LWrite` | pinktrace/vm.c:106-134 | for every address and length: which bytes of the source end up where, word by word up to the first fault, everything else unchanged; the count is that of the bytes written modulo 2^32, unless that is 0 and the write was cut short |
| `VmWrite.WriteCountIs` | pinktrace/vm.c:123-133 | the count in every case: the bytes written modulo 2^32, or for a cut write whose count is 0 the number 2^32 - 1, -1 on a 32-bit host |
| `VmWrite.FaultAtWord` | pinktrace/vm.c:123-126 | an aligned write below 4 GiB that faults at its word number j > 0 returns j times the word size |
| `VmWrite.AlignedWriteOutcome` | pinktrace/vm.c:106-134 | whole words at a word boundary: memory becomes the old one with exactly the bytes before the fault stored |
| `VmWrite.WriteCopiesIff` | pinktrace/vm.c:111-123 | writing where everything can be written is a copy, whatever memory, source and buffer hold, exactly when address and length are multiples of the word size or the length is 0 |
| `VmWrite.MisalignedWriteSpills` | pinktrace/vm.c:116-123 | for every other address and length there is a writable memory and a source for which it may not be |
| `VmWrite.UnalignedNeverCopies` | pinktrace/vm.c:114-121 | at an unaligned address there is a writable memory and a source for which it never is, whatever the buffer held: the first byte of the word becomes the source byte at the residue |
| `VmWrite.FirstWordFailure` | pinktrace/vm.c:123-126 | a failure on the first word is returned as -1 exactly on 32-bit hosts |
| `VmWrite.CWrite` | pinktrace/vm.c:261-274 | a prefix of the source is stored at the address restricted to the ABI, or -1 with the error and nothing |
| `Dispatch.ReadVmData` | pinktrace/read.c:416-426 | ENOSYS and EPERM lead to the ptrace transport, other errors to -1; result, errno and buffer in each case |
| `Dispatch.ReadVmDataFull` | pinktrace/read.c:429-441 | 0 only with all bytes delivered; otherwise the negated error, EFAULT for short reads; exactly which, over ptrace and over complete reads |
| `Dispatch.TransportsAgreeIff` | pinktrace/read.c:416-441 | on all address spaces the full read gives the same result and bytes over both transports exactly when the address is in ABI range and the length below 2^32, or the length is 0 |
| `Dispatch.ReadVmDataNul` | pinktrace/read.c:444-454 | the string read over the transport that errno selects: count, errno and buffer |
| `Dispatch.StringCounts` | pinktrace/read.c:444-454 | with the NUL at offset k within reach the fast count is k + 1, the slow one k, or k plus the residue in the first word, and both deliver bytes 0 to k |
| `Dispatch.StringCountsAgreeIff` | pinktrace/vm.c:69-103 | for one memory and one address, exactly for which positions of the first fault and the first NUL the two string reads return the same count |
| `Dispatch.CountsAlwaysAgreeIff` | pinktrace/read.c:444-454 | on all memories the two string reads return the same count, the mask of the fast one included, exactly when the length is 0, or the address is in ABI range, one byte into a word, and the range ends with that word |
| `Dispatch.AlignedStringsDiffer` | pinktrace/read.h:180-182 | for aligned strings with a NUL in range the ptrace count is one short of the documented one |
| `Dispatch.WriteVmData` | pinktrace/write.c:225-235 | the write over the transport that errno selects: count, errno and memory |
| `WriteAgreement.WritableWritesAgreeIff` | pinktrace/write.c:225-235 | where everything can be written, both transports give the same count and the same memory exactly when the length is 0, or address and length are multiples of the word size, the address in ABI range and the length below 2^32 |
| `WriteAgreement.WritesAgreeIff` | pinktrace/write.c:225-235 | on all memories, faults included, they do exactly when the length is 0, or the host has 32 bits and one word is written at a word boundary |
| `Dispatch.WriteThenRead` | pinktrace/write.c:225-235 | whole words written at a word boundary read back over either transport, and nothing around them changes |
| `Registers.CopiesInPlace` | pinktrace/regset.c:91-112 | copies through the union act as copies from a separate original |
| `Registers.NarrowingOrderFree` | pinktrace/regset.c:91-112 | every order of the copies gives each i386 field the low half of its original register and leaves the rest |
| `Registers.Narrow` | pinktrace/regset.c:95-111 | the ten assignments give that result in place |
| `Registers.Regset.Fill` | pinktrace/regset.c:79-128 | with GETREGSET: the ABI is the tracee's (i386 by the size of the register set, x32 by bit 30 of the system call number, x86_64 otherwise) and every field read later is its register |
| `Registers.Regset.FillByHeuristic` | pinktrace/regset.c:85-128 | without it: the same ABI and the same fields, by code segment and narrowing |
| `Registers.Bit30Is` | pinktrace/regset.c:125 | the bit that marks x32 calls is the one with the value 2^30 |
| `Syscalls.ReadSyscall` | pinktrace/read.c:101-109 | the number the tracee's registers hold, without the x32 bit |
| `Syscalls.ReadArgument` | pinktrace/read.c:384-409 | the argument register of the ABI, sign-extended for i386; EINVAL beyond six |
| `Syscalls.WriteArgument` | pinktrace/write.c:189-218 | the same register is written and no other; EINVAL beyond six |
| `Syscalls.WriteSyscall` | pinktrace/write.c:63-64 | only the system call number register is written |
| `Syscalls.WriteRetval` | pinktrace/write.c:120-123 | only the return value register is written, with the negated error if there is one |
| `Syscalls.WriteRefinesSlot` | pinktrace/write.c:189-218 | a write changes its own slot as read back after a refill, no other slot, and not the ABI |
| `Syscalls.WritesRefineSlots` | pinktrace/write.c:63-218 | any sequence of writes followed by a refill reads like eight independent cells |
| `Syscalls.SyscallRoundTripIff` | pinktrace/read.c:101-109 | a number reads back exactly if it is an unsigned 32-bit one (i386) or has bit 30 clear (otherwise) |
| `Syscalls.X32NumberLosesAbi` | pinktrace/read.c:106-107 | writing back the number of an x32 call as read makes the tracee an x86_64 one |
| `Syscalls.NegatedErrnoIff` | pinktrace/read.c:119-150 | the test holds exactly when the negated value, modulo the ABI's word, is at least 1 and below the size of the errno table |
| `Syscalls.ReadRetval` | pinktrace/read.c:264-278 | (-1, error) when the register of an x86_64 tracee lies between minus the size of the errno table and 0, or for i386 and x32 when its low half does modulo 2^32; the register and 0 otherwise |
| `Syscalls.ErrorRoundTripIff` | pinktrace/write.c:120-123 | an error reads back as (-1, error) exactly if it is in the errno table |
| `Syscalls.ValueRoundTripIff` | pinktrace/read.c:264-278 | a value reads back with error 0 exactly if it is no negated error number, of 64 bits for x86_64 and modulo 2^32 for i386 and x32, and an i386 register can hold it |
| `Syscalls.ArgumentReadBack` | pinktrace/write.c:189-218 | write, refill by either method, read: the slot's value comes back and no other slot has changed |
| `Syscalls.RetvalReadBack` | pinktrace/write.c:120-123 | write, refill by either method, read: the round trip that the two lemmas above decide |
| `PowerPc.SOBit` | pinktrace/write.c:106-111 | setting and clearing summary overflow changes that bit and no other |
| `PowerPc.SOBitIs` | pinktrace/read.c:241-246 | that bit is the one with the value 2^28 |
| `PowerPc.Task.WriteRetval` | pinktrace/write.c:98-115 | r3 and the summary overflow bit are written, the other bits of the condition register kept; the first of three requests to fail gives the result, and r3 is the only register changed if that is the third |
| `PowerPc.Task.ReadRetval` | pinktrace/read.c:119-150 | with the sign of r3 turned by summary overflow: (-1, e) when e, its negation modulo the word of the ABI that was found, is at least 1 and below the size of the errno table, the signed number and 0 otherwise |
| `PowerPc.ErrorRoundTripIff` | pinktrace/read.c:240-254 | under either ABI an error reads back exactly if summary overflow is set and it is in the errno table |
| `PowerPc.ValueRoundTripIff` | pinktrace/read.c:240-254 | a value reads back exactly if its negation modulo the word of the ABI is outside the error window, although its summary overflow bit is clear |
| `PowerPc.TornValue` | pinktrace/write.c:113-115 | a value written under a summary overflow bit that could not be cleared reads back negated, or as the error number it is modulo the word of the ABI |
| `PowerPc.AlwaysPpc32` | pinktrace/regset.c:69-72 | whatever the machine state register holds, the ABI found on a 64-bit host is the 32-bit one |
| `PowerPc.AbiMattersIff` | pinktrace/read.c:142-148 | on a 64-bit host the ABI found changes what is read exactly for numbers whose low half alone is an error number |
| `PowerPc.LargeValueIsError` | pinktrace/read.c:240-254 | the value 2^32 - 5 reads back as the error 5 on a 64-bit host |
| `StringArray.ReadStringArray` | pinktrace/read.c:457-487 | an element that fails, over ptrace also one that is readable in part, returns 0 and leaves flag and buffer; otherwise the variable holds the bytes delivered, on every schedule of short reads, in front of what was there; NULL sets the flag and leaves the buffer, another pointer clears it and delivers its string |
| `StringArray.LayoutElement` | pinktrace/read.c:469-475 | where the bytes in memory are those of pointers one behind the other, element i can be read and is pointer i |
| `StringArray.LayoutIsArray` | examples/pink-simple-strace.c:167-185 | where a NULL follows them they are an array of strings in the sense of the walk, with those pointers as elements |
| `StringArray.AllOrNothingIff` | pinktrace/read.c:467-473 | on all memories a pointer is readable entirely or not at all exactly when it does not straddle two host words |
| `StringArray.AlignedElement` | pinktrace/read.c:467-473 | so is every element of an array that starts at a multiple of the pointer size, over either transport |
| `StringArray.Walk` | examples/pink-simple-strace.c:167-185 | for any number of turns, from any index and over every transport: each turn passes over an element that cannot be read, or delivers its string, and the loop ends at the first pointer that is NULL or leads to an unreadable string |
| `StringArray.WalkEndsIff` | examples/pink-simple-strace.c:167-185 | where memory decides what is read, a walk ends within that many turns exactly if one of the elements from the first on is NULL or leads to an unreadable string; elements before the first, the terminator of an empty array included, do not count, and no element does when the transport fails as a whole |
| `StringArray.ArrayStopsAt` | examples/pink-simple-strace.c:167-185 | in a readable array an element ends the walk exactly if it is the terminator or leads to an unreadable string |
| `Socket.ReadSocketArgument` | pinktrace/socket.c:18-62 | the argument from the register, or from memory zero-extended; its error otherwise, or EFAULT when a short read cut it |
| `Socket.ReadSocketAddress` | pinktrace/socket.c:65-105 | over every schedule of short reads: NULL gives family -1 and length 0 with the buffer untouched; success delivers the address; a failure, by error or by a short read, leaves family and length |
| `Socket.DeliveredAddress` | pinktrace/socket.c:93-102 | length as given if between 2 and 128 and 128 otherwise, tracee bytes below it but a zero at 127, zeros from it on, family from the first two bytes, the descriptor of the call |
| `Socket.NullAddressIff` | pinktrace/socket.c:88-92 | the outcome is a NULL address exactly if the address is 0 |
| `Socket.FdOfInt` | pinktrace/socket.c:73-81 | a descriptor comes back from the register or memory word that holds it, negative ones included |
| `Socket.AbiAddress` | pinktrace/socket.c:97-98 | process_vm_readv gets an x86_64 address unmasked and the low half of an i386 or x32 one |
| `Socket.ArgumentsAgreeIff` | pinktrace/socket.c:30-59 | register and memory decoding agree modulo 2^32, and exactly if and only if the top bit is clear |
| `Socket.SocketAddressesAgreeIff` | pinktrace/socket.c:65-105 | both decodings give the same address on every memory exactly over process_vm_readv, or when the address has its top bit clear |
| `Socket.SocketcallFindsArgument` | pinktrace/socket.c:39-59 | where the argument words lie one behind the other at the second argument of socketcall(2), they are the arguments found |
| `Socket.SocketCallsAgree` | pinktrace/socket.c:65-105 | for arguments equal up to the length of the address, whatever lies behind them, direct calls and socketcall(2) have the same outcome, descriptor included |
| `Names.ShuffleInvolution` | pinktrace/name.c:288-320 | shuffling is its own inverse on all unsigned longs |
| `Names.ShuffleClosesGap` | pinktrace/name.c:299-317 | exactly the ARM-specific numbers land right after the ordinary ones |
| `Names.ShuffleKeepsOrder` | pinktrace/name.c:299-317 | they keep their order there, with cmpxchg first |
| `Names.ShuffleMovesIff` | pinktrace/name.c:288-320 | a number moves exactly if it is one of them or in their place, and none does elsewhere than on ARM |
| `Names.ShufflePositions` | pinktrace/linux/arm/syscallent.h:396-406 | cmpxchg is at 388 and the number 0xf0000 + k at 389 + k |
| `Names.Lookup` | pinktrace/name.c:413-447 | -1 exactly for names that are missing, empty or absent; otherwise the number of the first entry with the name, which has that name again |
| `Names.NameThenLookupIff` | pinktrace/name.c:383-447 | what looking up the name of a number returns is the number exactly if the name is not empty and no earlier entry repeats it |
| `Names.XName` | pinktrace/name.c:326-332 | the first entry with the value, or none |
| `Names.XLookup` | pinktrace/name.c:335-344 | the value of the first entry with the string |
| `Names.LookupThenNameIff` | pinktrace/name.c:326-344 | naming a looked-up value gives the string back exactly if no earlier entry shares the value |
| `Pipe.Channel.AtomicRead` | pinktrace/pipe.c:39-58 | a prefix of the pipe moves to the buffer, and the result tells how much or that it failed |
| `Pipe.Channel.AtomicWrite` | pinktrace/pipe.c:60-79 | a prefix of the buffer moves to the pipe, and the result tells how much or that it failed |
| `Pipe.Channel.WriteInt` | pinktrace/pipe.c:118-127 | 0 exactly when all four bytes went in; while all calls return 0 the pipe holds the integers not yet received |
| `Pipe.Channel.ReadInt` | pinktrace/pipe.c:107-116 | 0 with the next integer sent; while all calls return 0 the integers received are a prefix of those sent |
| `Pipe.IntRoundTrip` | pinktrace/pipe.c:118-127 | the bytes of an integer decode to it |
| `Tracer.StatusDecoded` | pinktrace/event.c:9-12 | what the status word tells about a stop, and that signals and system calls both have event 0 |
| `Tracer.Process.HandleSyscall` | examples/pink-simple-strace.c:267-306 | entries and exits alternate |
| `Tracer.Process.HandleStop` | examples/pink-simple-strace.c:396-409 | event-0 stops change the phase, others do not; the ABI is refreshed at event-0 and exec stops if the registers can be read |
| `Tracer.Process.Loop` | examples/pink-simple-strace.c:366-412 | over every run, stops included whose registers cannot be read: the phase, the balance of entries and exits, the ABI, where the loop ends and with which exit code |
| `Tracer.InStepIff` | examples/pink-simple-strace.c:268-306 | the tracer's phase is the tracee's exactly after an even number of signal deliveries |
| `Tracer.AlwaysInStepIff` | examples/pink-simple-strace.c:366-410 | it is all along a run exactly if no signal is delivered |
| `Tracer.EventsKeepPhase` | examples/pink-simple-strace.c:403-408 | events, exec included, leave both phases alone |

## Left out

- VmRead.LRead: addresses are natural numbers, so the wrap-around of `addr` at the top of the address space is not modelled; the same holds for the other transfers.
- VmRead.LRead: lengths are those of C objects, at most PTRDIFF_MAX.
- VmChunks.CReadNul: lengths of 2^31 and more, which the code truncates to an `int`.
- VmWrite.LWrite: the source must be long enough for what the code reads; an unaligned write reads past the requested length, which is undefined behaviour for a shorter source.
- StringArray.Walk: the printing of decode_execve, and the wrap-around of its `unsigned` index after 2^32 turns.
- Syscalls.ErrorRoundTripIff: the error INT_MIN, whose negation is undefined behaviour in C.
- Tracer.Process.HandleSyscall: decoding and printing of arguments and results.
- Faults that change in the middle of a transfer, and words of which only some bytes can be read.
- AArch64, 32-bit ARM, i386 and x32 hosts, and IA-64 in the register codec.
- The contents of the name tables, which are arbitrary sequences here; pink_name_errno, pink_name_signal and their lookups are the system call case without shuffling.
- The forwarding wrappers and pink_trace_setup in pinktrace/trace.c, pipe creation, allocation, and the Python bindings: each forwards its arguments to one system call and has no logic of its own.
