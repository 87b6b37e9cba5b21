# Determinant in Dafny

Determinant is a RISC-V virtual machine (RV32IMAC, Zicsr, Zba, Zbb, Zbs) whose promise is
that the same program and the same input give the same bits on every host. This project
models the machine as a state machine and as the object that implements it, and proves what
that promise rests on: the decode cache cannot be observed, faults are precise, LR/SC keeps
its word, runs can be cut anywhere, snapshots are lossless, the decoder is the one its table
describes, and loading and host calls do exactly what they say. It also covers the
self-contained algorithms that the repository uses to test the machine: the corpus programs
in C, the device-tree writer and the test-program generator.

`dafny verify dfyconfig.toml` checks the whole project.

## How it is built

| files | what they hold |
|---|---|
| `Words`, `Bits` | 8-, 16-, 32- and 64-bit integers as integers with explicit ranges, byte orders; single bits |
| `Isa`, `Alu`, `Machine`, `Laws`, `BitLaws`, `StepLaws` | opcodes and instructions; what each computes; the architectural state and one step of it, through the *effect* an instruction has; laws between instructions; and, number by number, what a step of each does to pc, registers, memory and CSRs |
| `History`, `Reservation`, `Faults`, `Parity` | any interleaving of guest steps and host actions, and what holds over all of them |
| `Cache`, `Running`, `Vm`, `Masks` | the decode cache, the run loops, and the `Vm` class that updates registers, memory and cache in place and is proved against the step function; the masks that the model writes as remainders |
| `BitFields`, `Registry`, `Decoder`, `Encoding`, `Assembler` | field extraction, the 95-row mask/match table, the nested-switch decoder and their agreement; the instruction-set listings by number, which the decoder follows for every word; and an encoder that is its inverse |
| `Snapshot`, `Loader`, `Elf`, `HostCall`, `Session` | the state encoding, the ELF loader and the host-call interface, as methods on `Vm`; ELF images written field by field and what the loader makes of them; sessions that mix all of this with steps and host actions |
| `Sha256`, `Qsort`, `Crc32`, `Arith64` | the corpus programs |
| `DeviceTree` | the flattened-device-tree writer, with a reader of its own |
| `Assembly`, `Flow`, `Labels`, `Blocks`, `Reach`, `Offsets`, `Programs` | assembly lines, their sizes and how they run; the generator's rules as a check of the lines; the branch-label resolver; why the lines end; why every jump can be encoded, in the decoder's own ranges; whole programs behind their prologue |
| `Endings`, `Generator` | the instructions that end a program, on the machine itself; and the generator, whose programs have all of these properties |

The step function does not follow the source's control flow. An instruction is first mapped
to an `Effect` (compute, load, store, branch, jump, LR, SC, AMO, CSR access, fence, stop), the
effect is refused or performed, and pc and the cycle count follow. The `Vm` class follows the
source, and its `Step` is proved to do exactly what the step function says.

## Findings

- `mulmod` and `powmod` (tests/programs/src/arith64.c:3-8) are exact on all operands exactly
  for moduli up to 2^63. Above that the doubling overflows: for every such modulus the square
  of 2^32 comes out as 0, and 2 to the power 64 as 0. The corpus itself calls `powmod` with
  the modulus 2^64 - 59 (arith64.c:38), outside the range where it is exact; what it computes
  for those particular operands is not part of the theorem.
- The device-tree writer's blob reads back as the same tree exactly when no name holds a NUL
  byte; a NUL inside a name cuts it short for every reader. The writer does not check this.
  The one tree that `build` makes has NUL-free names whatever its arguments, which only reach
  values and a hexadecimal number, so it always reads back.
- The padding of the streaming SHA-256 is injective for messages of any length, also beyond
  the standard's 2^64 bits, where the length field wraps.
- `lookup` in the registry needs no disjointness to agree with a scan of the whole table: the
  buckets keep the table's order. Disjointness is what makes the table's order irrelevant.
- An entry's mask and match stand for its fields (registry.zig:52) exactly when f7, f5, f12 and
  rs2_eq agree on the bits they share; an entry that gives, say, contradicting f7 and f5 matches
  words without those fields. No row of the table gives two fields that share bits.

## Model

| member | source | states |
|---|---|---|
| `Alu.MulhExact` | src/instructions/rv32m.zig:50-58 | MULH and MUL together are the exact signed 64-bit product, and the 64-bit multiply does not wrap |
| `Alu.MulhsuExact` | src/instructions/rv32m.zig:59-64 | the same for signed times unsigned |
| `Alu.MulhuExact` | src/instructions/rv32m.zig:65-69 | the same for unsigned operands |
| `Alu.DivideSigned` | src/instructions/rv32m.zig:70-92 | DIV and REM: dividend = divisor * quotient + remainder, remainder smaller than the divisor with the dividend's sign; the defined results for zero and INT_MIN / -1; the identity modulo 2^32 on all inputs |
| `Alu.DivideUnsigned` | src/instructions/rv32m.zig:81-93 | DIVU and REMU, with the defined results for zero |
| `Alu.LeadingZeros` | src/instructions/zbb.zig:109 | CLZ is n exactly when the highest set bit is bit 31 - n; 32 only for zero |
| `Alu.LowZeros` | src/instructions/zbb.zig:110 | CTZ is n exactly when 2^n divides the word with an odd quotient; 32 only for zero |
| `Alu.SignExtendsByte` | src/instructions/zbb.zig:116-119 | SEXT.B keeps the low byte and its sign |
| `Alu.SignExtendsHalf` | src/instructions/zbb.zig:120-123 | SEXT.H keeps the low halfword and its sign |
| `Alu.ByteReverse` | src/instructions/zbb.zig:143 | each byte of REV8's result is the mirrored byte of the operand |
| `Alu.ByteReverseTwice` | src/instructions/zbb.zig:143 | REV8 is its own inverse |
| `Laws.SubtractUndoesAdd` | src/cpu/exec_i.zig:17-18 | SUB undoes ADD and ADD undoes SUB, wrap-around included |
| `Laws.ImmediateForms` | src/cpu/exec_i.zig:28-37 | each immediate form is its register form with the sign-extended immediate |
| `Laws.BranchesAndComparisons` | src/cpu/exec_i.zig:80-98 | branches come in complements, and agree with SLT, SLTU and the difference |
| `Laws.SignedAndUnsigned` | src/cpu/exec_i.zig:87-95 | the signed and unsigned comparisons differ exactly on words of different sign |
| `Laws.ShiftLeftAndBack` | src/cpu/exec_i.zig:19-23 | SLL then SRL keeps exactly the low 32 - n bits |
| `Laws.ArithmeticShift` | src/cpu/exec_i.zig:24 | SRA rounds the signed value down to a multiple of 2^n |
| `BitLaws.LogicBits` | src/cpu/exec_i.zig:22-26 | AND, OR and XOR work on each bit by itself |
| `BitLaws.NegatedLogicBits` | src/instructions/zbb.zig:106-108 | ANDN, ORN and XNOR do so with the second operand's bits flipped |
| `BitLaws.RotateRightBit` | src/instructions/zbb.zig:130-134 | bit i of a right rotate by n is bit i + n, counted around |
| `BitLaws.RotateLeftBit` | src/instructions/zbb.zig:125-129 | bit i of a left rotate by n is bit i - n, counted around |
| `BitLaws.RotateBack` | src/instructions/zbb.zig:125-134 | rotating one way and back gives the word back, for every amount |
| `BitLaws.SingleBits` | src/instructions/zbs.zig:68-76 | BSET, BCLR and BINV and their immediate forms change exactly bit n, and BEXT and BEXTI read it |
| `BitLaws.Population` | src/instructions/zbb.zig:111 | CPOP is the number of positions that hold a one |
| `Laws.StoreThenLoad` | src/cpu/exec_i.zig:39-78 | a load returns the value stored there, cut to the width |
| `Laws.LoadElsewhere` | src/cpu/exec_i.zig:39-78 | a load that does not overlap a store sees what was there before |
| `Laws.AmoUpdates` | src/cpu.zig:483-487 | an AMO gives rd the old word and leaves the new one in memory |
| `Laws.CountersJoin` | src/instructions/zicsr.zig:79-85 | the two halves of cycle and of instret are the 64-bit count of retired instructions |
| `Laws.ScratchRoundTrip` | src/instructions/zicsr.zig:54-61 | what is swapped into mscratch is what the next read returns |
| `Laws.ScaledSums` | src/instructions/zba.zig:38-44 | SH1ADD, SH2ADD and SH3ADD give 2, 4 and 8 times rs1 plus rs2, modulo 2^32 |
| `Laws.Extremes` | src/instructions/zbb.zig:112-115 | MIN and MAX give one of the operands that as a signed integer is at most or at least both; MINU and MAXU the same unsigned |
| `Laws.FilledBytes` | src/instructions/zbb.zig:135-142 | ORC.B turns every byte that is not zero into 255 |
| `BitLaws.LowHalfBits` | src/instructions/zbb.zig:124 | ZEXT.H keeps bits 0 to 15 and clears the rest |
| `BitLaws.SraBit` | src/cpu/exec_i.zig:24 | bit i of SRA is bit i + n, or the sign where there is none |
| `StepLaws.FetchedBytes` | src/cpu.zig:259-269 | what is fetched is the two bytes at pc, or four if the low two bits of the first are set, least significant first; the size is 2 or 4 accordingly |
| `StepLaws.StraightOn` | src/cpu.zig:385-417 | a retiring step that is no branch and no jump goes on at pc + 4 if the byte at pc is 3 modulo 4 and at pc + 2 if not, modulo 2^32; every retiring step counts one |
| `StepLaws.BranchGoes` | src/cpu/exec_i.zig:80-98 | a branch goes to pc plus its offset if its comparison holds, else on behind it, and changes nothing else |
| `StepLaws.JalGoes` | src/cpu/exec_i.zig:104-107 | JAL goes to pc plus its offset and leaves the address behind it in rd |
| `StepLaws.JalrGoes` | src/cpu/exec_i.zig:108-113 | JALR goes to rs1 plus its immediate with bit 0 cleared and leaves the address behind it in rd, also when rd is rs1 |
| `StepLaws.StopsAndFences` | src/cpu/exec_i.zig:115-120 | ECALL and EBREAK report themselves, everything else goes on; neither they nor fences change registers, memory, reservation or mscratch |
| `StepLaws.LoadGives` | src/cpu/exec_i.zig:39-64 | a load gives the bytes at rs1 plus the immediate, with the sign above them for LB and LH and zeros for LBU and LHU |
| `StepLaws.StoreWrites` | src/cpu/exec_i.zig:66-78 | a store writes the low 1, 2 or 4 bytes of rs2 there, least significant first, and touches no other byte and no register |
| `StepLaws.UpperGives` | src/cpu/exec_i.zig:100-102 | LUI gives the immediate, AUIPC pc plus the immediate |
| `StepLaws.ArithmeticGives` | src/cpu/exec_i.zig:15-37 | the register operations on rs1 and rs2, and the immediate ones on rs1 and the immediate, give the sum, difference, comparison or the bits they are named for |
| `StepLaws.ExtensionGives` | src/cpu.zig:451-509 | the M, Zba, Zbb and Zbs instructions change only rd, to what their own laws say, from rs1 and from rs2 or the immediate |
| `StepLaws.AmoGives` | src/instructions/rv32a.zig:70-83 | each of the nine AMOs: rd gets the old word, memory the operand, sum, bits or extreme it is named for, and no other byte changes |
| `StepLaws.LoadReservedGives` | src/cpu.zig:462-466 | LR.W gives the word at rs1 and reserves it |
| `StepLaws.StoreConditionalGives` | src/cpu.zig:467-482 | SC.W writes rs2 and gives 0 if the word is reserved, else writes nothing and gives 1; nothing is reserved afterwards |
| `StepLaws.CsrGives` | src/instructions/zicsr.zig:52-89 | rd gets the CSR's value, and mscratch is swapped, or has the operand's bits set or cleared, each bit by itself; nothing else changes |
| `StepLaws.CsrRefused` | src/cpu.zig:515-525 | a CSR instruction retires exactly if the CSR it reads is one of the five and the one it writes is mscratch, and is illegal otherwise |
| `Reservation.OtherBytesKept` | src/cpu.zig:273-324 | an action changes no byte outside the range it is said to write |
| `Reservation.ReservationStep` | src/cpu.zig:332-352 | one action leaves a word reserved exactly when it is an LR.W of it that retires, or it was reserved and the action does not disturb it |
| `Reservation.ReservationHistory` | src/cpu.zig:307-352 | over every history, a word is reserved exactly when an LR.W of it retired and nothing disturbed it since |
| `Reservation.HeldWordUnchanged` | src/cpu.zig:332-352 | a reserved word still holds the bytes that LR.W loaded |
| `Reservation.StoreConditionalHistory` | src/cpu.zig:459-489 | a retiring SC.W stores and returns 0 exactly when its word is held since an LR.W, else stores nothing and returns 1; no reservation survives it |
| `Faults.FaultsAreExplained` | src/cpu.zig:385-440 | a step returns an error, and describeFault names an address, exactly when that error and address are what is wrong with the instruction at pc; a failing step changes nothing |
| `Faults.CauseUnique` | src/cpu.zig:419-440 | no state has two such causes |
| `Parity.PcStaysEven` | src/cpu/exec_i.zig:80-113 | from an even pc, every pc of every history, the last included, is even, and no step returns MisalignedPC |
| `Cache.FetchIsNeverEmpty` | src/cpu.zig:146-152 | fetch never returns the bits that mark an empty cache slot |
| `Cache.CachedDecodeIsDecode` | src/cpu.zig:442-449 | with consistent slots, decoding through the cache is decoding, and the slots stay consistent |
| `Cache.CachedStepIsStep` | src/cpu.zig:385-417 | a step of the cached machine gives the state and the reply of the machine with no cache |
| `Cache.CacheIsInvisible` | src/cpu.zig:136-140 | two machines with the same architectural state and caches of any size and content reply alike to every history and stay equal |
| `Cache.CachedRunIsTrace` | src/cpu.zig:136-140 | a history of the cached machine passes through the states of the machine with no cache |
| `Cache.FinalOfConcat` | src/cpu.zig:376-384 | a history followed by another is one history |
| `Running.RunIsRunSteps` | src/cpu.zig:356-369 | a limited run is the first limit - cycle_count steps of an unlimited one |
| `Running.EnoughIsEnough` | src/cpu.zig:356-369 | once a number of steps is enough for a run to end, more steps change nothing |
| `Running.RunCounts` | src/cpu.zig:360-369 | cycle_count grows by exactly the retired instructions, never wraps, and stands at the limit after a run that reports no stop and no fault |
| `Running.RunSplits` | src/cpu.zig:356-369 | run(a) then run(b) is run(b), for a <= b, when run(a) hit its limit; otherwise run(b) is run(a) |
| `Running.RunForBudget` | src/cpu.zig:371-374 | runFor(n) is exactly n steps of an unlimited run, or those up to a count of 2^64 - 1 where that is fewer, so it retires at most n instructions |
| `Running.TracingIsTransparent` | src/main.zig:236-251 | the traced loop gives the result and the state of run |
| `Running.OneLinePerInstruction` | src/main.zig:236-251 | it prints one line for each retired instruction, numbered by cycle count |
| `StepLaws.TraceTells` | src/main.zig:236-251 | the i-th line tells the count, pc and instruction bytes of the state before the i-th step |
| `VirtualMachine.Init` | src/cpu.zig:173-206 | a VM in the power-on state with an empty cache, or nothing exactly when the memory size is invalid |
| `VirtualMachine.Vm.Reset` | src/cpu.zig:193-206 | reset restores exactly that state |
| `VirtualMachine.Vm.ReadReg` | src/cpu.zig:246-250 | reads the register, x0 as zero |
| `VirtualMachine.Vm.WriteReg` | src/cpu.zig:252-257 | only the named register changes, and x0 stays zero |
| `VirtualMachine.Vm.Fetch` | src/cpu.zig:259-269 | the instruction bits at pc, or the fetch error |
| `VirtualMachine.Vm.ReadByte` | src/cpu.zig:291-294 | the byte, or out of bounds |
| `VirtualMachine.Vm.ReadHalfword` | src/cpu.zig:296-300 | alignment, then bounds, then the little-endian halfword |
| `VirtualMachine.Vm.ReadWord` | src/cpu.zig:302-305 | alignment, then bounds, then the little-endian word |
| `VirtualMachine.Vm.CheckWordAccess` | src/cpu.zig:326-330 | the first check that fails |
| `VirtualMachine.Vm.WriteByte` | src/cpu.zig:307-311 | stores one byte and drops a reservation on its word, or fails with nothing changed |
| `VirtualMachine.Vm.WriteHalfword` | src/cpu.zig:313-318 | the same for a halfword |
| `VirtualMachine.Vm.WriteWord` | src/cpu.zig:320-324 | the same for a word |
| `VirtualMachine.Vm.InvalidateReservation` | src/cpu.zig:332-342 | for an aligned access the masked comparison is overlap with the reserved word |
| `VirtualMachine.Vm.InvalidateReservationRange` | src/cpu.zig:344-352 | drops the reservation exactly on overlap |
| `VirtualMachine.Vm.LoadProgram` | src/cpu.zig:271-279 | splices the bytes in and drops an overlapped reservation, or fails with nothing changed |
| `VirtualMachine.Vm.ClearReservation` | src/cpu.zig:281-286 | drops the reservation and nothing else |
| `VirtualMachine.Vm.ZeroFill` | src/loader.zig:76-81 | zeroes the range and drops the reservation, unless the range is empty |
| `VirtualMachine.Vm.ExecuteI` | src/cpu/exec_i.zig:12-123 | performs exactly the instruction's effect, or refuses it with nothing changed, and sets the next pc |
| `VirtualMachine.Vm.ExecuteA` | src/cpu.zig:459-489 | the same for LR.W, SC.W and the AMOs |
| `VirtualMachine.Vm.ExecuteCsr` | src/cpu.zig:511-525 | the same for the CSR instructions |
| `VirtualMachine.Vm.ReadCsr` | src/instructions/zicsr.zig:79-89 | the counter halves and mscratch; nothing else is readable |
| `VirtualMachine.Vm.WriteCsr` | src/instructions/zicsr.zig:91-100 | only mscratch can be written |
| `VirtualMachine.Vm.SwapCsr` | src/instructions/zicsr.zig:54-61 | CSRRW reads only if rd is not x0, and a refused write leaves everything as it was |
| `VirtualMachine.Vm.UpdateCsr` | src/instructions/zicsr.zig:62-75 | CSRRS and CSRRC write only if the operand field is not zero |
| `VirtualMachine.Vm.DecodeCached` | src/cpu.zig:442-449 | returns what the decoder returns, and fills the slot of pc only on success |
| `VirtualMachine.Vm.Dispatch` | src/cpu.zig:390-411 | the executed instruction has exactly its effect, for every extension |
| `VirtualMachine.Vm.Step` | src/cpu.zig:385-417 | the new state and reply are those of the cached machine and, apart from the cache, of the machine with no cache; a fault changes nothing architectural |
| `VirtualMachine.Vm.DescribeFault` | src/cpu.zig:419-440 | refines the description that FaultsAreExplained is about, without using the cache |
| `VirtualMachine.Vm.Run` | src/cpu.zig:356-369 | with any limit, or with none whenever the run ends, the state, result and stop_pc are those of the run function; a limited run always terminates |
| `VirtualMachine.Vm.RunFor` | src/cpu.zig:371-374 | the same with the saturated limit |
| `VirtualMachine.Vm.TraceRun` | src/main.zig:239-251 | the same state, result and stop_pc as run, with exactly the trace lines of the run |
| `VirtualMachine.Vm.Drive` | src/cpu.zig:385-417 | any history driven through the methods gives the replies and states of the model |
| `Masks.SlotMask` | src/cpu.zig:446 | with any power of two of slots, the slot of a pc is the one that masking pc / 2 gives |
| `Masks.AddressMasks` | src/cpu.zig:332-338 | clearing the low bits of an address with a mask, there and for the target of JALR, and testing the low two bits of an instruction, are the remainders that the model takes |
| `BitFields.JumpOffsetsEven` | src/decoders/bitfields.zig:57-83 | immB and immJ have bit 0 clear for every word |
| `Encoding.ImmediateBits` | src/decoders/bitfields.zig:44-83 | each bit of each of the five immediates, sign included, is the word's bit at the place its format says, for every word |
| `Registry.MatchesIsAgrees` | src/decoders/registry.zig:30-64 | for an entry with any choice of fields, matching under mask and match means having the given value in each given field, for all words, exactly when fields that share bits give them the same value |
| `Registry.InconsistentPattern` | src/decoders/registry.zig:41-64 | an entry whose fields contradict each other matches its own pattern, which does not have the fields |
| `Registry.OverlapExample` | src/decoders/registry.zig:41-64 | one such entry and word |
| `Registry.FirstMatchSound` | src/decoders/registry.zig:81-90 | a search returns an entry that matches, and nothing only if none does |
| `Registry.OrderDoesNotMatter` | src/decoders/registry.zig:81-90 | in a disjoint table any order of the entries gives the same answer |
| `Registry.Lookup` | src/decoders/registry.zig:67-90 | for any table, scanning the bucket of the opcode finds what scanning the whole table finds |
| `Decoder.EveryRowDecodes` | src/decoders/branch.zig:37-188 | a word that agrees with a row decodes to that row's instruction |
| `Decoder.DecodedHasRow` | src/decoders/branch.zig:37-188 | a word that decodes agrees with the row of the decoded opcode |
| `Decoder.TableDisjoint` | src/decoders/registry.zig:126-251 | no word matches two rows of the table |
| `Decoder.DecoderMeetsRegistry` | src/decoders/branch.zig:37-188 | for every 32-bit word the decoder succeeds exactly when a row matches, and returns that row's instruction in every field |
| `Decoder.DecoderSuitsVm` | src/decoders/branch.zig:37-58 | it keeps the bits it decoded and its branch and jump offsets are even, given the same of 16-bit expansion |
| `Encoding.DecodesAsListed` | src/decoders/branch.zig:37-188 | every 32-bit word decodes to the instruction that the listings give for its numbers, or to none if they give none, with each register and each immediate bit from its place in the word |
| `Assembler.DecodesEncoded` | src/decoders/branch.zig:37-188 | every instruction with operands that its format can hold is, in every field, what its encoding decodes to |
| `Assembler.EncodesDecoded` | src/decoders/branch.zig:37-188 | every 32-bit word that decodes is the encoding of such an instruction, but for the ordering bits of atomics and the unused bits of fences |
| `Assembler.EncodingsDiffer` | src/decoders/branch.zig:37-188 | no two such instructions share an encoding |
| `Snapshot.RestoreAfterWrite` | src/cpu/state.zig:61-96 | restoring a written snapshot gives the same state, whatever follows it in the stream |
| `Snapshot.WriteAfterRestore` | src/cpu/state.zig:61-96 | writing after an accepted restore gives the same bytes |
| `Snapshot.RejectedSnapshots` | src/cpu/state.zig:70-88 | a rejected header changes nothing, and nothing a VM of this size writes is rejected |
| `Snapshot.RejectedHeaders` | src/cpu/state.zig:70-88 | a header is rejected exactly if no state of this memory size has it |
| `Snapshot.CutSnapshot` | src/cpu/state.zig:70-96 | a snapshot that breaks off inside the header changes nothing; behind it, all but the memory is as in the snapshot, and as much of the memory as there was |
| `Snapshot.EncodingInjective` | src/cpu/state.zig:1-3 | different states have different encodings |
| `Snapshot.Layout` | src/cpu/state.zig:12-17 | which four bytes of the header hold which field, by offset |
| `Snapshot.MemorySizeOfSnapshot` | src/cpu/state.zig:98-107 | the first 12 bytes of any snapshot give its memory size |
| `Snapshot.RestoredRunsAlike` | src/cpu.zig:230-237 | a restored VM, with an empty cache and stop_pc 0, replies to every history as the VM that wrote the snapshot |
| `Snapshot.EncodeHeader` | src/cpu/state.zig:44-59 | the buffer filled word by word is the header encoding of the state |
| `Snapshot.WriteSnapshot` | src/cpu/state.zig:61-66 | the bytes are the encoding of the state |
| `Snapshot.RestoreSnapshot` | src/cpu/state.zig:70-96 | refines the restore function, including a stream that ends early; only a complete restore empties the cache |
| `Loader.HeaderInside` | src/loader.zig:45-52 | for entry sizes of at least 32, every program header lies inside the image |
| `Loader.Segments.Next` | src/loader.zig:45-52 | the iterator yields the PT_LOAD segments in order and then none |
| `Loader.Parse` | src/loader.zig:86-107 | accepts exactly the well-formed images, and gives entry point and table |
| `Loader.LoadedBytes` | src/loader.zig:62-84 | after loading, each byte is what the last segment covering it says, and unchanged if none does |
| `Loader.LoadIsHistory` | src/loader.zig:73-82 | loading is a history of host writes, so the theorems over histories hold across it |
| `Loader.LoadElf` | src/loader.zig:66-84 | all or nothing: an image that is malformed or does not fit changes nothing; the load of a checked segment cannot fail |
| `Elf.HeaderReads` | src/loader.zig:109-120 | a program header written field by field is read back as the segment it describes, and as none if its type is not 1 |
| `Elf.FileReads` | src/loader.zig:86-99 | a file header written field by field is accepted exactly if its entry point is even, and gives the entry point and the table |
| `Elf.AcceptedImages` | src/loader.zig:86-107 | of all byte strings, exactly those are accepted that have the fixed bytes, an even entry point and a table inside the file whose segments lie in the file |
| `Elf.ImageReads` | src/loader.zig:86-107 | an image written with any number of program headers gives just their segments, in order |
| `Elf.ImageLoads` | src/loader.zig:66-84 | loading it: refused exactly if a segment is not in the file, the entry is odd or a segment does not fit memory; else every byte of memory is the last covering header's byte of the file, zero behind those, and the old one where none covers it |
| `HostCall.Host.HandleRead` | src/hostcall.zig:64-72 | performs the specified read; the copy into guest memory cannot fail |
| `HostCall.Host.HandleWrite` | src/hostcall.zig:54-63 | performs the specified write |
| `HostCall.Host.Handle` | src/hostcall.zig:47-80 | every call has the specified outcome and effect |
| `HostCall.OtherCallsChangeNothing` | src/hostcall.zig:47-75 | a failing call changes only a0, to EBADF or EFAULT; exit and unknown calls change nothing |
| `HostCall.ReadDelivers` | src/hostcall.zig:64-72 | a read puts exactly the next input bytes at a1, says how many, and writes nowhere else |
| `HostCall.WriteSends` | src/hostcall.zig:54-63 | a write to descriptor 1 or 2 with its buffer in memory appends just those bytes to that stream and leaves their number in a0; the other stream, the input and everything else in the machine stay |
| `HostCall.FailedCalls` | src/hostcall.zig:54-75 | a write to another descriptor, or a read of one other than 0, leaves -9; a buffer outside memory leaves -14; nothing else changes |
| `HostCall.CallIsHistory` | src/hostcall.zig:47-80 | a call is a history of host writes |
| `HostCall.InputIsDeliveredInOrder` | src/hostcall.zig:64-72 | over any session the delivered bytes are exactly the input up to input_pos |
| `HostCall.OutputIsWhatWasWritten` | src/hostcall.zig:54-63 | over any session each output stream is exactly the written guest buffers, in order |
| `Session.SessionIsHistory` | src/loader.zig:66-84 | any mix of steps, host actions, ELF loads and host calls is a history of the machine's own actions |
| `Session.SessionStreams` | src/hostcall.zig:47-80 | at every point of every session of steps, host actions, loads and calls, the input up to input_pos is exactly what its calls delivered, and each output stream exactly what they sent, in order |
| `Session.SessionPcEven` | src/cpu/exec_i.zig:80-113 | so pc stays even across loads and calls |
| `Session.EventStep` | src/cpu.zig:332-352 | one event leaves a word reserved exactly when it is an LR.W of it that retires, or it was reserved and the event, a load or call included, does not upset it |
| `Session.StoreConditionalSession` | src/cpu.zig:459-489 | the LR/SC theorem with ELF loads and host calls among the events |
| `Sha256.PaddingFillsBlocks` | tests/programs/src/sha256.c:47-53 | the padded message is whole 64-byte blocks |
| `Sha256.FewestZeros` | tests/programs/src/sha256.c:50 | no smaller number of zero bytes would do (section 5.1.1 of FIPS 180-4) |
| `Sha256.PaddingInjective` | tests/programs/src/sha256.c:47-53 | different messages pad to different blocks, of whatever length |
| `Sha256.PaddingShape` | tests/programs/src/sha256.c:47-53 | the padding is a byte 0x80, zeros and eight bytes of length |
| `Sha256.Absorbing` | tests/programs/src/sha256.c:38-46 | bytes that complete a block are folded in, the others stay pending |
| `Sha256.CountBits` | tests/programs/src/sha256.c:43 | the two length words count bits modulo 2^64: a carry shows as a low word that got smaller |
| `Sha256.LengthField` | tests/programs/src/sha256.c:51-53 | their big-endian bytes are the low 64 bits of the length |
| `Sha256.Context.Init` | tests/programs/src/sha256.c:34-37 | nothing absorbed yet |
| `Sha256.InitialValue` | tests/programs/src/sha256.c:34-37 | the eight starting words are the first 32 bits of the fractional parts of the square roots of the first eight primes (section 5.3.3 of FIPS 180-4) |
| `Sha256.Context.Update` | tests/programs/src/sha256.c:38-46 | the context then stands for the message with the bytes appended |
| `Sha256.LengthBytes` | tests/programs/src/sha256.c:51-52 | the eight bytes are the two words, high word first, most significant byte first |
| `Sha256.Context.Final` | tests/programs/src/sha256.c:47-55 | the digest is the block function folded over the padded message; the zero loop ends |
| `Sha256.DigestOf` | tests/programs/src/sha256.c:66-70 | however a message is cut into updates, the digest is that of the whole |
| `Qsort.ShuffledRange` | tests/programs/src/qsort.c:10-22 | "shuffled" is exactly: each value occurs in the range as often as before, and everything else is untouched |
| `Qsort.Insert` | tests/programs/src/qsort.c:8 | one insertion sorts the longer prefix |
| `Qsort.InsertionSort` | tests/programs/src/qsort.c:7-9 | sorted, shuffled, nothing outside the range touched |
| `Qsort.Scan` | tests/programs/src/qsort.c:15-16 | the unguarded scans stop inside the range, at the first element on the wrong side |
| `Qsort.Partition` | tests/programs/src/qsort.c:12-18 | everything up to i is at most the pivot, everything from j on at least; both sides are shorter than the range |
| `Qsort.Quick` | tests/programs/src/qsort.c:10-22 | sorted, shuffled, nothing else touched, and 2 to the recursion depth is at most the range length |
| `Crc32.FeedIsShifts` | tests/programs/src/crc32.c:17-24 | for any linear shift register, feeding bits one by one is adding them all and shifting |
| `Crc32.EightShifts` | tests/programs/src/crc32.c:5-16 | eight shifts of any register are one table entry exclusive-or the register shifted by eight |
| `Crc32.MakeTable` | tests/programs/src/crc32.c:5-11 | every entry is eight shifts of its index |
| `Crc32.CrcTab` | tests/programs/src/crc32.c:12-16 | the table-driven CRC is the bit-serial CRC-32 of the message (section 8 of RFC 1952) |
| `Crc32.CrcBit` | tests/programs/src/crc32.c:17-24 | so is the bitwise one |
| `Crc32.Polynomial` | tests/programs/src/crc32.c:5-11 | the polynomial's bits are the exponents that the standard lists |
| `Crc32.CheckValue` | tests/programs/src/crc32.c:27 | the CRC of "123456789" is 0xCBF43926 |
| `Arith64.Isqrt` | tests/programs/src/arith64.c:9 | r*r <= n < (r+1)*(r+1), r fits 32 bits, no sum overflows 64 bits, the loop ends |
| `Arith64.MulMod` | tests/programs/src/arith64.c:3-7 | the loop computes the doubling recursion, wrap-around included |
| `Arith64.PowMod` | tests/programs/src/arith64.c:8 | the loop computes the squaring recursion |
| `Arith64.MulModExactIff` | tests/programs/src/arith64.c:3-7 | it is the product modulo m for all operands if and only if m <= 2^63 |
| `Arith64.PowModExactIff` | tests/programs/src/arith64.c:8 | it is the power modulo m for all operands if and only if m <= 2^63 |
| `DeviceTree.NodeReads` | tools/spike_diff/mkdtb.py:79-90 | parsing an emitted node gives back exactly that tree, whatever follows |
| `DeviceTree.InternTreeKeeps` | tools/spike_diff/mkdtb.py:67-71 | every name is interned, no offset ever changes, and each points at its NUL-terminated text |
| `DeviceTree.TokensAligned` | tools/spike_diff/mkdtb.py:75-90 | every token of the structure block, the closing FDT_END included, listed with its offset, stands there on a 4-byte boundary (section 5.4 of the Devicetree Specification) |
| `DeviceTree.HeaderDescribes` | tools/spike_diff/mkdtb.py:95-108 | the header's offsets and sizes describe adjacent, aligned blocks that fill the blob (sections 5.2 and 5.5) |
| `DeviceTree.FixedFields` | tools/spike_diff/mkdtb.py:95-108 | the magic number, versions and boot processor are those of the specification (section 5.2) |
| `DeviceTree.TokenNumbers` | tools/spike_diff/mkdtb.py:75-92 | nodes, properties and the block begin and end with the tokens 1, 2, 3 and 9 (section 5.4.1) |
| `DeviceTree.BlobRoundTrip` | tools/spike_diff/mkdtb.py:64-108 | reading the blob through its header gives back the tree if and only if no name holds a NUL |
| `DeviceTree.Writer.StrOff` | tools/spike_diff/mkdtb.py:67-71 | interns a name once and returns its offset |
| `DeviceTree.Writer.Pad4` | tools/spike_diff/mkdtb.py:75-77 | pads with zeros to the next multiple of four |
| `DeviceTree.Writer.Emit` | tools/spike_diff/mkdtb.py:79-90 | appends exactly the node's encoding under the final name offsets, keeping alignment |
| `DeviceTree.Build` | tools/spike_diff/mkdtb.py:92-108 | returns the blob of the tree; it fails exactly when the blob would reach 2^32 bytes |
| `Labels.Candidates` | tools/spike_diff/gen.py:529-536 | exactly the boundaries at most 8 items on and within byte range; empty exactly when the item exceeds its own range |
| `Labels.Choose` | tools/spike_diff/gen.py:524-540 | every branch gets an eligible target and a label; labels are distinct and new; fails exactly when some branch does not fit its own range |
| `Labels.AllHaveTargets` | tools/spike_diff/gen.py:526-537 | every branch has an eligible target to choose exactly if every branch fits its own range |
| `Labels.Resolve` | tools/spike_diff/gen.py:521-549 | the output is the assembly of such a plan |
| `Labels.DefsOfOutput` | tools/spike_diff/gen.py:541-549 | each label of the plan is defined exactly once in the output, the end label left to the caller, and no other label is added |
| `Labels.LabelStands` | tools/spike_diff/gen.py:542-546 | wherever the output stands, a boundary's label stands right before its item's lines |
| `Labels.JumpsForward` | tools/spike_diff/gen.py:521-549 | every branch goes strictly forward in the output, to a boundary at most 8 items on |
| `Labels.OutputLabelled` | tools/spike_diff/gen.py:521-549 | nested output included, no label is defined twice and every jump's label is defined exactly once |
| `Blocks.Landing` | tools/spike_diff/gen.py:541-549 | the label of a boundary is found in the whole program exactly at that boundary |
| `Blocks.BlockRuns` | tools/spike_diff/gen.py:521-523 | run line by line, a block reaches its end from every boundary under any branch outcomes, within a fixed number of lines |
| `Blocks.RoundsRun` | tools/spike_diff/gen.py:404-425 | a counted loop goes through exactly as many rounds as its counter holds, each from the top label through the whole body to the branch back with the counter one lower, and then on |
| `Blocks.ProgramEnds` | tools/spike_diff/gen.py:507-518 | the lines of a formed block reach their end for all register contents and branch outcomes |
| `Reach.OutputLength` | tools/spike_diff/gen.py:526-535 | items that declare their size resolve to lines of just that many bytes |
| `Reach.BranchFits` | tools/spike_diff/gen.py:373-402 | the offset from a resolved branch to its label, counted in bytes, is even, not negative and within what its instruction format encodes |
| `Reach.BackFits` | tools/spike_diff/gen.py:415-425 | so is the offset of a loop's branch back to its top, compressed or not |
| `Reach.JumpsEncodable` | tools/spike_diff/gen.py:521-549 | every jump of a block can be encoded, those of the loops inside it included |
| `Offsets.FormsAreDecoded` | src/decoders/bitfields.zig:57-83 | for the 32-bit formats, the offsets that are taken to be encodable are exactly those that the decoder returns for some word |
| `Programs.PrologueRuns` | tools/spike_diff/gen.py:508-513 | after the prologue every register but BASE holds its value and BASE the address of the data region |
| `Programs.RunBehind` | tools/spike_diff/gen.py:515-516 | lines do behind other lines what they do alone |
| `Programs.ProgramEncodable` | tools/spike_diff/gen.py:507-518 | every jump of a whole program can be encoded |
| `Programs.GeneratedPrograms` | tools/spike_diff/gen.py:5-18 | a well-made program initialises every register, reaches its end within a bound, obeys the rules at every line, and leaves no LR.W without its SC.W and BASE unchanged |
| `Endings.MisalignedEnds` | tools/spike_diff/gen.py:465-472 | a load or store off its alignment from BASE faults in every state of the machine and changes nothing |
| `Endings.MisalignedAtomicEnds` | tools/spike_diff/gen.py:473-476 | so does an AMO, LR.W or SC.W at BASE plus an offset that is no multiple of four, with or without a reservation |
| `Endings.UnmappedEnds` | tools/spike_diff/gen.py:477-483 | so does a load or store of any width at 0x50000 or above |
| `Endings.UnmappedAtomicEnds` | tools/spike_diff/gen.py:484-487 | so does an AMO, LR.W or SC.W there |
| `Endings.UnmappedJumpEnds` | tools/spike_diff/gen.py:488-489 | a jump there retires and the next fetch faults |
| `Endings.CsrEnds` | tools/spike_diff/gen.py:490-494 | a write to a read-only counter, or any access to a CSR that is not there, faults |
| `Endings.ReservedWordEnds` | tools/spike_diff/gen.py:68-74 | none of the reserved 32-bit encodings decodes |
| `Flow.LineKeeps` | tools/spike_diff/gen.py:292-302 | what the check knows before a line is what holds when it runs |
| `Flow.AccessInside` | tools/spike_diff/gen.py:296-302 | an address of the form BASE + (r & mask) + imm that passes is aligned and inside the data region for every register value |
| `Flow.LawfulRuns` | tools/spike_diff/gen.py:5-18 | lines that pass obey the rules at every point of every run: accesses inside the region, counters only as differences, nothing but computation and loads between LR.W and SC.W |
| `Generator.MemAddrInside` | tools/spike_diff/gen.py:296-302 | every choice of immediate, biased or not, keeps a load or store inside the data region |
| `Generator.Gen.Tmp` | tools/spike_diff/gen.py:145-147 | a register that is neither x0 nor reserved always exists, and is returned |
| `Generator.Gen.MemAddr` | tools/spike_diff/gen.py:296-302 | the immediates it picks are such |
| `Generator.Gen.CompressedMemory` | tools/spike_diff/gen.py:316-329 | so are the offsets of compressed loads and stores, through x2 or a narrow register |
| `Generator.Gen.LrSc` | tools/spike_diff/gen.py:339-367 | starts with an LR.W and ends with an SC.W, every SC.W finds an address that is still there, and the reservations are undone |
| `Generator.Gen.CsrCounter` | tools/spike_diff/gen.py:432-451 | nothing reads the first counter value before the difference is taken, and no absolute value is left |
| `Generator.Gen.LoopItem` | tools/spike_diff/gen.py:404-425 | outside a loop, a loop: its lines, of the size it declares, a body that never writes the counter and is short enough for the branch back, labels defined exactly once |
| `Generator.Gen.BlockOf` | tools/spike_diff/gen.py:502-505 | items and pieces in pairs, of the sizes they declare, none of which writes a register reserved at the start |
| `Generator.Gen.Body` | tools/spike_diff/gen.py:514-515 | for every choice, resolving succeeds and the lines are those of a formed block of n items, with every label defined exactly once, that passes the check |
| `Generator.Gen.Terminator` | tools/spike_diff/gen.py:457-499 | every ending it picks stops or faults, in every state of the runner's machine |
| `Generator.Gen.Program` | tools/spike_diff/gen.py:507-518 | prologue, resolved items and ending: the program is well made, runs well from any registers under any outcomes, can be encoded, and its ending ends it |
| `Generator.Generate` | tools/spike_diff/gen.py:552-561 | a new generator's program has all of this |

## Left out

- The bodies of the 16-bit (RV32C) expansion: `expand` is any function that keeps the bits it
  expands and whose branch and jump offsets are even.
- `VirtualMachine.Init`: the fixed and the run-time memory layouts are one byte array here.
- `VirtualMachine.Vm.Run`: a run with no limit that never ends has no result to speak of; the contract
  takes a number of steps within which it ends.
- A host that assigns the VM's fields directly: host actions go through the methods. For the
  LR/SC theorem, a snapshot restored from elsewhere brings a reservation without its history,
  so histories start with no reservation.
- Failing writers and readers, apart from a snapshot stream that ends early.
- The SHA-256 of the state (stateDigest): what it hashes is the encoding, which is injective.
- `Sha256.DigestOf`: holds for every block function; the compression function itself, its
  constants and the message schedule are not modelled.
- `Sha256.Context.Take`: copies into the buffer and compresses from it as sequences; that source and
  destination of the copy do not overlap is assumed by the types.
- The shell sort of qsort.c (gsort), gcd64 and the xorshift generators, and the other corpus
  programs: they would add easier members of the same kind.
- `Qsort.Quick`: indices are unbounded integers; all of them stay between first - 1 and last + 1,
  so the source's 32-bit int does not overflow for arrays it can index.
- The particular tree that mkdtb.py builds and its text encoding: the writer is modelled for every
  tree of byte strings. FDT_NOP tokens, which the writer never emits, are not read.
- `Generator.Gen.Program`: an instruction is the registers it reads and writes, its size, its memory
  access and where it goes; its text and the value it computes are not modelled, nor are the data
  words. That mscratch gets a value is not part of the line's state. What is said of the ending is
  about this machine, not the reference simulator.
- `Endings.ReservedHalfwordEnds`: that the 16-bit expansion rejects the reserved halfwords is an
  assumption, as the expansion is not modelled.
- `Flow.LawfulRuns`: values that instructions compute and branch outcomes are arbitrary, so it says
  nothing about what a program computes.
- `Reach.JumpsEncodable`: the size of each line is the generator's; that the assembler agrees is not
  part of this model.
- Command line, reports, disassembly, memory dumps, differential-test drivers, build scripts:
  user interface and plumbing.
