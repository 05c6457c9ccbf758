# Riscv-Sym: a verified model of the hart, its memory system and its devices

This Dafny project models the RV32IMAC + Zicsr emulator of the repository (CPU step loop, CSR file, Sv32 memory
system, SD card, assembler, compressed-instruction expander) and proves properties of the model.

Verify it with `dafny verify dfyconfig.toml`.

## How it is organised

Values and specification functions, one module per source file or component:

- `Words`, `Ranges`: 32-bit words, the numbers they stand for, and signed ranges as bit patterns.
- `Csr`: the CSR file (specification and the class `CsrUnit`, a 4096-word array updated in place); `CsrViews`: its views.
- `Crc16`, `SdCard`, `Mmio`: the CRC loop, the SD byte protocol, the memory-mapped devices.
- `Bus`: the memory system as a flat array of 2^32 bytes, devices and satp; translation, loads and stores.
- `PagedMemory`: the class `Memory`: pages allocated on demand, device registers and a disk, updated in place. Every
  method is proved against the functions of `Bus`.
- `Isa`, `Alu`, `Compressed`: the decoder, the arithmetic, the expander.
- `Machine`: the hart as a state machine: every instruction, trap, return, the turn of the step loop, runs.
- `Cpu`: the class `RiscvCpu`: registers, pc, mode and reservation updated in place over `CsrUnit` and `Memory`. Every
  method, up to `Step` and `Run`, is proved against the functions of `Machine`.

So what is proved of `Bus` and `Machine` holds of the imperative classes: the abstract state of the object after
`Run(keys)` is `Machine.Turns` of the one before, and `Loop` shows that this is a run.

Properties:

- `Sv32Manual`, `Sv32Example`, `Sv32Pages`: the unrolled walk against the recursive one of section 4.3.2 of the RISC-V
  Instruction Set Manual, Volume II (20211203); where they differ; superpages; stores and loads.
- `Integrity`, `UserMode`, `UserExample`: what code in user mode cannot change, over whole runs, and a state this speaks of.
- `Reachable`, `Loop`: an invariant of every state reachable from reset, what it means for translation, and the first fetch.
- `Traps`, `Nesting`, `Interrupts`: nesting of traps and returns, step by step and over runs of the loop; choice of
  interrupts; undisturbed machine-level handlers.
- `Delegation`: which trap goes to which level, bit by bit, and where the interrupts, calls and faults of a turn end.
- `CsrLaws`: what every CSR instruction reads and writes, bit by bit. `Timers`, `Console`: time, mip and the console's
  registers in numbers and bits.
- `StoredBytes`, `BareMemory`, `DirectMemory`, `LrSc`, `LrScAlias`: what the reservation check sees; LR/SC over runs whose
  accesses reach their own addresses, through a direct map or with translation off; and what fails otherwise.
- `Faults`, `Straddling`, `FaultExamples`: precise page faults, all-or-nothing AMOs, accesses across two pages.
  `BusFacts`, `Effects`, `ExecFacts`: frames of accesses and instructions.
- `FlatMemory`, `RamFacts`: the paged memory seen as a flat array. `Accesses`: what loads, stores and AMOs do, in
  terms of the bytes of RAM, with translation on or off.
- `SdTransactions`, `SdReplies`, `CrcAlgebra`, `CrcRemainder`: the card as a block device, its replies, and the one read
  that has no meaning; the CRC as a polynomial remainder.
- `Formats`, `Assembler`, `RvcForms`: assembling and compressing are undone by decoding and expanding, and the assembler
  rejects exactly what cannot be encoded.
- `Numbers`, `Arithmetic`: bit-vector operations as operations on the numbers and bits of their operands, and from them
  the meaning of every register, immediate, atomic and branch operation. `Computes`: the same of whole instructions.
- `MulDivLaws`, `AluLaws`: the laws of the M extension; comparisons as comparisons of numbers; register shifts.

## Where the code and its specification differ

The model follows the code. Each difference is stated as lemmas: the exact condition and, for most, an instance.

- A root page-table entry with W set and R and X clear is followed as a pointer, where section 4.3.2 of the manual
  faults: `TranslateAgreesExactly`; `WriteOnlyEntryTranslates`.
- Physical addresses have 32 bits, where the manual has 34: `TruncationExactly`.
- Interrupts are chosen by their own number, whatever mideleg says: `AgreesWithManualExactly` gives the exact mideleg values.
- Stores announce their virtual address to the reservation, which is kept by physical address: `StoreGoesUnnoticed`, for
  every store through any address; `SuccessDespiteStore` through the reserved virtual address, `SuccessDespiteAlias`
  through an alias.
- The reservation check does not wrap at 2^32, while stores do: `UnwrappedExactly` gives the words it protects;
  `SuccessDespiteWrap`.
- A fetch across two pages is checked as loads of its bytes: `StraddlingFetchCompletes`, `StraddlingFetchFaultsAsLoad`;
  `FetchWithoutExecute`, `ExecuteOnlyFetchFaults`.
- SC.W and the AMOs begin with a load, and report a load page fault exactly when that load faults: `AtomicFaultCause`;
  `AmoFaultsAsLoad`.
- A delegated interrupt rewrites the delegated software-writable bits of mip: `DelegatedInterruptRewritesMip`.
- Register shifts take six bits of rs2; with bit 5 set C++ gives them no result, and the model's turn has `NoMeaning`:
  `ShiftsExactly`.
- The bound test before a CRC of a disk block wraps at 32 bits, so that the first clock of a read of block 0x7FFFFF reads
  past a disk of less than 4 GiB; the model's turn then has `NoMeaning`: `LosesExactly`; `LastBlockOverreads`.

## Model

| member | source | states |
|---|---|---|
| `UserMode.MemoryIntegrity` | src/core/Memory.cpp:146-337 | over every run whose states before the last are in user mode, with page tables user code cannot store to: satp, every page-table word, every RAM byte no user store reaches, and every translation are as at the start |
| `UserMode.CsrIntegrity` | src/core/CsrUnit.cpp:157-169 | in the user-mode states of such a run every CSR above user level except mip is as at the start |
| `UserMode.ReachedThroughUserLeaf` | src/core/Memory.cpp:227-240 | user mode can store to an address exactly when its walk ends in a leaf with V, R, W, U, A and D set (aligned, for a superpage) |
| `UserMode.SeparatedMeansPaging` | src/core/Memory.cpp:146-163 | page tables are out of reach only with paging on: without it every byte can be stored to |
| `Integrity.TranslateStable` | src/core/Memory.cpp:163-337 | if only reachable bytes changed and the page tables are out of reach, every translation is the same |
| `Integrity.Write32Confined` | src/core/Memory.cpp:618-632 | a 32-bit store, straddling or not, changes only bytes some store translation reaches |
| `Sv32Manual.TranslateAgrees` | src/core/Memory.cpp:146-337 | the unrolled walk returns the address or fault, and leaves the devices, as the recursive walk of section 4.3.2 of the Privileged manual does, unless the root entry is write-only |
| `Sv32Manual.TranslateAgreesExactly` | src/core/Memory.cpp:202-209 | the two walks answer the same if and only if it is not the case that the root entry is write-only and the second entry is an acceptable leaf |
| `Sv32Manual.TruncationExactly` | src/core/Memory.cpp:335 | the 34-bit physical address of the manual is the 32-bit one if and only if the page number is below 2^20 |
| `Sv32Example.WriteOnlyEntryTranslates` | src/core/Memory.cpp:209 | a concrete memory on which the source translates and the manual faults |
| `Sv32Pages.SuperpageIsItsPages` | src/core/Memory.cpp:209-333 | an aligned superpage translates or faults, for every address, mode, SUM and access type, as a table listing its 1024 pages: the two checking branches agree |
| `Sv32Pages.StoreImpliesLoad` | src/core/Memory.cpp:227-305 | when a store translates, a load in the same state translates to the same address with the same effect |
| `Bus.OffsetPreserved` | src/core/Memory.cpp:335 | translation keeps the offset within the page |
| `Reachable.ReachableInv` | src/core/RiscvCpu.cpp:402-416 | in every state of every run from reset and any loaded program: x0 is 0, the mode is not reserved, mstatus has only legal bits with MPP not 2, the memory system's satp is the CSR's, and misa and the read-only CSRs have their reset values |
| `Reachable.ReachableTranslation` | src/core/Memory.cpp:146-337 | in every state with that invariant, so in every reachable one, an access below M-mode with paging on is translated by the satp CSR's tables exactly as the manual's walk does, unless the root entry is write-only; M-mode accesses are not translated |
| `Reachable.ExecKeepsInv` | src/core/instruction/Instruction.cpp:18-50 | every instruction keeps that invariant, whatever it does |
| `Reachable.TrapKeepsInv` | src/core/RiscvCpu.cpp:244-320 | every trap keeps it |
| `Reachable.WriteKeepsFile` | src/core/CsrUnit.cpp:73-141 | every CSR write keeps mstatus legal and the read-only registers constant, and only a write to satp changes satp |
| `Loop.TurnsIsRun` | src/core/RiscvCpu.cpp:132-239 | the loop for given keyboard input goes through a run with that input |
| `Loop.LoopKeepsInv` | src/core/RiscvCpu.cpp:402-416 | the state any number of turns after reset satisfies the invariant |
| `Loop.FirstFetch` | src/core/RiscvCpu.cpp:402-416 | out of reset the first fetch is the program word at 0x80000000, the stack pointer is one MiB above it, every other register is 0 and no interrupt is waiting to be taken |
| `Traps.SupervisorTrapNests` | src/core/RiscvCpu.cpp:244-351 | after a delegated trap, any sequence of machine traps, MRETs and work keeping sepc, SPIE and SPP, followed by SRET, resumes the interrupted pc, mode and SIE |
| `Nesting.HandlerResumes` | src/core/RiscvCpu.cpp:132-351 | the same over runs of the step loop: from a delegated trap, through any turns, in any mode, with machine traps, interrupts and MRETs nested in any way, none of which executes SRET, disturbs sepc, SPIE or SPP, or traps to S-mode, SRET resumes the interrupted pc, mode and SIE |
| `Nesting.StepRemembers` | src/core/RiscvCpu.cpp:132-239 | each such turn keeps what the supervisor level remembers |
| `Traps.MachineTrapReturns` | src/core/RiscvCpu.cpp:283-350 | a machine trap whose mepc, MPIE and MPP are kept resumes by MRET at its pc, mode and MIE, with every other bit of mstatus as the handler left it; the trap itself left those as they were |
| `Traps.MachineTrapPushes` | src/core/RiscvCpu.cpp:293-319 | a trap into M-mode records pc, mode, MIE, cause and value, clears MIE, goes to mtvec, and leaves every other CSR, the registers and memory alone |
| `Traps.SupervisorTrapPushes` | src/core/RiscvCpu.cpp:263-291 | a delegated trap does the same on the supervisor level and leaves the machine level alone |
| `Traps.MachineReturnPops` | src/core/RiscvCpu.cpp:337-350 | MRET resumes what the machine level remembers and changes nothing else of mstatus |
| `Traps.SupervisorReturnPops` | src/core/RiscvCpu.cpp:325-336 | SRET resumes what the supervisor level remembers and changes nothing else of mstatus |
| `Traps.TrapNeverLowers` | src/core/RiscvCpu.cpp:253-261 | a trap never lowers privilege |
| `Delegation.TrapGoes` | src/core/RiscvCpu.cpp:253-319 | from U or S a trap goes to S-mode if and only if the bit of its number is set in mideleg, for interrupts, or medeleg; from M-mode never; at stvec or mtvec, low two bits cleared, the handler finds pc, cause and value |
| `Traps.DelegatedExactly` | src/core/RiscvCpu.cpp:253-261 | a trap is delegated if and only if it comes from U or S and that bit is set |
| `Delegation.InterruptTurn` | src/core/RiscvCpu.cpp:186-214 | a turn that completes an instruction ends in the handler of the first interrupt that is pending and enabled bit by bit once the instruction has settled, and in the settled state when there is none |
| `Delegation.StandardInterruptTurn` | src/core/RiscvCpu.cpp:186-319 | with the supervisor interrupts delegated, code in U and S is taken by interrupts 1, 5 and 9 to S-mode at stvec and by 3, 7 and 11 to M-mode at mtvec, with pc and cause recorded there |
| `Delegation.PageFaultReport` | src/core/RiscvCpu.cpp:218-319 | what the reported page faults of the `Faults` results mean: from U or S with bit 12, 13 or 15 of medeleg set the hart is in S-mode at stvec, else in M-mode at mtvec |
| `Delegation.CallsReport` | src/core/instruction/SystemInstruction.cpp:369-402 | ECALL traps with cause 8, 9 or 11 by mode and EBREAK with 3, both with value 0 |
| `Delegation.PrivilegedReport` | src/core/instruction/SystemInstruction.cpp:404-450 | MRET below M, SRET in U or in S under TSR, and SFENCE.VMA in U are illegal instructions with the word as value; else they return or do nothing |
| `Delegation.IllegalTurn` | src/core/RiscvCpu.cpp:159-162 | a word that is no instruction traps with cause 2 and the fetched word, no register, RAM byte or time changed |
| `Delegation.StopsExactly` | src/core/RiscvCpu.cpp:156 | the loop stops exactly when the word 0, or one that expands to it, is fetched at address 0 |
| `Delegation.DelegatedInterruptRewritesMip` | src/core/RiscvCpu.cpp:264-266 | a delegated interrupt sets its own bit and clears the other delegated software-writable bits of mip, and no other bit |
| `CsrLaws.CsrInstruction` | src/core/instruction/SystemInstruction.cpp:192-367 | every CSR instruction on every register in every mode: refused with an illegal-instruction trap, or rd holds what the register showed and, unless a set or clear has x0 or 0 as operand, each writable bit is the operand bit, set by it, or cleared by it, every other bit and register kept, and a write to satp reaches the memory system |
| `CsrLaws.AccessExactly` | src/core/CsrUnit.cpp:157-173 | access is refused exactly by mode against bits 9 and 8 of the number, and for writes by bits 11 and 10 both set |
| `CsrLaws.ReadShows` | src/core/CsrUnit.cpp:45-71 | counters show the halves of mtime as numbers, sstatus its bits of mstatus, sie and sip the delegated bits, other registers themselves |
| `CsrLaws.WritesFile` | src/core/CsrUnit.cpp:73-141 | the wanted bits land where the register has a writable one: the ten of mstatus without a reserved MPP, the six of sstatus, the delegated ones of sie and sip, three of mip, all of any other register but misa |
| `Timers.SettleMeans` | src/core/RiscvCpu.cpp:165-184 | after an instruction time has advanced by one modulo 2^64; mip bit 7 is set if and only if it has reached mtimecmp, bit 5 if and only if it has reached the number with low word CSR 0x14D and high word 0x15D, bits 9 and 11 if and only if the console asks; every other bit and CSR is as before |
| `Timers.AdvanceIs` | src/core/Memory.cpp:76-78 | time advances by one modulo 2^64, in the numbers of its halves |
| `Timers.TimerRegisters` | src/core/Memory.cpp:353-485 | the four timer addresses read the low and high halves of mtime and mtimecmp, and a store replaces the half of mtimecmp it names and nothing else |
| `Console.CharacterArrives` | src/core/Memory.cpp:487-529 | a character that arrives while none waits is announced by LSR and, when enabled, by the line and IIR; it stays whatever else is typed, is read once, and leaves the console as before it came |
| `Console.CharacterSent` | src/core/Memory.cpp:370-386 | sending a character and enabling the transmit interrupt raise the line; reading IIR with no character waiting lowers it |
| `Console.ClaimAnswers` | src/core/Memory.cpp:550-557 | the claim register answers 12 exactly while the line is up |
| `Console.KeyPends` | src/core/RiscvCpu.cpp:139-184 | a key typed before a turn, with the receive interrupt enabled, has both external interrupts pending when the turn has settled |
| `Console.SdPort` | src/core/Memory.cpp:389-560 | the SD port reads as the card's reply, changing nothing, and hands the card the low byte of a store |
| `CsrViews.SstatusView` | src/core/CsrUnit.cpp:59-98 | sstatus reads back its own bits; a write to it keeps all other bits of mstatus and every other CSR |
| `CsrViews.SieReadsBack` | src/core/CsrUnit.cpp:62-106 | sie reads back what was written, in exactly the delegated bits |
| `CsrViews.SieKeeps` | src/core/CsrUnit.cpp:102-106 | a write to sie keeps the undelegated bits of mie and every other CSR |
| `CsrViews.SipView` | src/core/CsrUnit.cpp:109-114 | a write to sip changes only the delegated software-writable bits of mip |
| `Interrupts.HighestIsChosen` | src/core/RiscvCpu.cpp:186-214 | the chosen interrupt is first in the order MEI, MSI, MTI, SEI, SSI, STI among those pending and enabled, and none is chosen exactly when there is none |
| `Interrupts.AgreesWithManualExactly` | src/core/RiscvCpu.cpp:186-214 | the choice is that of section 3.1.9 of the Privileged manual for every mode, mstatus and pending set if and only if mideleg delegates exactly the three supervisor interrupts |
| `Interrupts.HandlerUndisturbed` | src/core/RiscvCpu.cpp:186-214 | after a trap into M-mode, until a step sets MIE or leaves M-mode, the hart stays in M-mode with MIE clear and no step takes an interrupt |
| `Interrupts.UnmasksExactly` | src/core/instruction/SystemInstruction.cpp:192-435 | the condition is exact: a turn in such a handler has left M-mode or set MIE when interrupts are looked at if and only if it executes SRET, or MRET with MPP other than M or MPIE set, or a CSR write to mstatus with the bit of MIE set |
| `Interrupts.ExecQuiet` | src/core/instruction/SystemInstruction.cpp:192-435 | the same of one instruction: any other, reads of mstatus and writes that leave MIE clear included, keeps M-mode and MIE clear |
| `LrSc.SuccessMeansUntouched` | src/core/instruction/RTypeInstruction.cpp:475-538 | in a run that began unreserved and whose stores, LR.W, SC.W and AMOs reach their own addresses or fault, when SC.W succeeds an LR.W of the same address came before; since the latest one there was no trap, SC, or store or AMO to a byte of the word, and the word is what it read |
| `LrSc.BareSuccessMeansUntouched` | src/core/instruction/RTypeInstruction.cpp:475-538 | so in every run with translation off |
| `DirectMemory.DirectMapAtHome` | src/core/Memory.cpp:146-337 | a page table that gives a page its own number lets accesses to it reach their own addresses |
| `DirectMemory.StoreAccessChanges` | src/core/Memory.cpp:618-685 | a store that reaches its own addresses, straddling or not, completed or faulted on the way, changes only bytes its virtual address names |
| `LrSc.ReservationHistory` | src/core/RiscvCpu.cpp:353-380 | the same for every state of such a run that holds a reservation |
| `LrSc.ConditionalOutcome` | src/core/instruction/RTypeInstruction.cpp:503-538 | with any translation SC.W faults, or writes 0 to rd and stores exactly when the address it translates to is reserved, else writes 1 and stores nothing; it ends the reservation |
| `LrSc.ExecGuards` | src/core/RiscvCpu.cpp:353-365 | every instruction but LR.W that reaches its own addresses either ends the reservation or leaves its word unchanged |
| `StoredBytes.UnseenKeepsWord` | src/core/RiscvCpu.cpp:353-365 | a store that the reservation check calls disjoint changes no byte of a word between 3 and 0xFFFFFFFC |
| `StoredBytes.UnwrappedExactly` | src/core/RiscvCpu.cpp:353-365 | the check sees every store to a byte of a word if and only if the word is between 3 and 0xFFFFFFFC |
| `StoredBytes.WrapsUnseen` | src/core/RiscvCpu.cpp:353-365 | for every other word, a store that writes a byte of it and is not seen |
| `LrScAlias.StoreGoesUnnoticed` | src/core/instruction/STypeInstruction.cpp:54-124 | after LR.W, any SB, SH or SW through any address, wherever it lands, ends the reservation exactly when its virtual address, taken as a physical one, overlaps the word; SC.W then succeeds over what it left exactly when it did not |
| `LrScAlias.SuccessDespiteStore` | src/core/instruction/RTypeInstruction.cpp:483 | a concrete state in which SC.W succeeds although any given other value was stored after the LR.W |
| `LrScAlias.SuccessDespiteAlias` | src/core/instruction/RTypeInstruction.cpp:483 | a concrete state in which the reserved word lies at its own address and SC.W succeeds after a store of any given value through an alias |
| `LrScAlias.SuccessDespiteWrap` | src/core/RiscvCpu.cpp:353-365 | with translation off, in every state, SC.W to address 0 succeeds after a word store to 0xFFFFFFFD changed its first byte |
| `Faults.FetchFaultIsPrecise` | src/core/RiscvCpu.cpp:218-238 | a fetch within a page that faults changes no register, RAM byte or time, and the handler finds pc, pc as the value, and cause 12 |
| `Faults.StraddlingFetchFaultsAsLoad` | src/core/Memory.cpp:642-645 | a fetch across pages that does not complete ends in a load page fault at the first of the bytes pc to pc + 3 that cannot be loaded, and has changed no register, RAM byte or time |
| `Faults.StraddlingFetchCompletes` | src/core/Memory.cpp:642-645 | it completes if and only if each of its four bytes can be loaded as data |
| `FaultExamples.FetchWithoutExecute` | src/core/Memory.cpp:642-645 | on pages that may be read and not executed such a fetch completes |
| `FaultExamples.ExecuteOnlyFetchFaults` | src/core/Memory.cpp:642-645 | on pages that may be executed and not read it faults as a load |
| `Faults.AccessFaultIsPrecise` | src/core/RiscvCpu.cpp:218-238 | a load, store, LR, SC or AMO within a page that faults changes no register, RAM byte or time, and the handler finds the pc, the accessed address and the cause: 13 for loads and LR, 15 for stores, and for SC and AMOs 13 exactly when the load they begin with faults, else 15 |
| `Faults.AtomicFaultCause` | src/core/instruction/RTypeInstruction.cpp:503-569 | SC.W and the AMOs report the store page fault of the manual exactly when their load translates |
| `FaultExamples.AmoFaultsAsLoad` | src/core/instruction/RTypeInstruction.cpp:540-569 | a concrete user-mode turn in which an AMO on an unmapped page reports cause 13 |
| `Faults.MemoryFaultIsPrecise` | src/core/instruction/STypeInstruction.cpp:54-124 | the instruction itself: address, exact access type and frame of the fault |
| `Faults.AmoIsAllOrNothing` | src/core/instruction/RTypeInstruction.cpp:540-569 | an AMO on a mapped RAM word either faults on the store with nothing changed, or replaces exactly that word by the operation on the old word and rs2 and puts the old word in rd |
| `Straddling.StraddlingStore` | src/core/Memory.cpp:627-630 | a word store across pages completes if and only if each byte can be written; else it faults at the first that cannot, with exactly the bytes before it written |
| `Straddling.StoredByte` | src/core/Memory.cpp:678-685 | writing one of those bytes changes that byte of RAM where it translates to, and no other |
| `Straddling.StraddlingLoad` | src/core/Memory.cpp:642-645 | a word load across pages completes if and only if each byte can be read, else it faults at the first that cannot |
| `FlatMemory.SequenceIsFlat` | src/core/Memory.cpp:618-696 | with translation off and away from devices, every sequence of 8-, 16- and 32-bit loads and stores, straddling and wrapping ones included, gets the little-endian answers of a flat array and leaves its contents |
| `Accesses.LoadInstruction` | src/core/instruction/ITypeInstruction.cpp:240-352 | with translation on or off, a load inside a page from RAM puts in rd the number in the bytes at the translated address: signed for LB, LH and LW, unsigned for LBU and LHU; no other register and no RAM byte changes |
| `Accesses.StoreInstruction` | src/core/instruction/STypeInstruction.cpp:54-124 | a store inside a page to RAM leaves the low bytes of rs2 there, least significant first, and no other RAM byte or register changed |
| `Accesses.AmoInstruction` | src/core/instruction/RTypeInstruction.cpp:540-648 | an AMO on a RAM word puts the word in rd and stores the sum, the other operand, the bitwise result or the extreme of word and rs2, as numbers and bits |
| `RamFacts.ReadBack` | src/core/Memory.cpp:618-648 | a word written is the word read, at every address |
| `RamFacts.WordElsewhere` | src/core/Memory.cpp:618-632 | a word write changes no other byte |
| `SdTransactions.Refines` | src/core/Memory.cpp:389-464 | every byte sequence from idle has a meaning exactly when it has one for the block device, and then leaves its disk: completed CMD24 blocks in order, plus the received prefix of the one in progress at block (argument mod 2^23) |
| `SdTransactions.AlwaysLegal` | src/core/Memory.cpp:389-464 | for every byte sequence, as long as it has a meaning, the state and its counters stay in their legal range and the disk keeps its size |
| `SdTransactions.LosesExactly` | src/core/Memory.cpp:418-423 | a byte has no meaning if and only if it is the first clock of a read of block 0x7FFFFF on a disk of less than 2^32 bytes |
| `SdTransactions.OverreadsExactly` | src/core/Memory.cpp:421-422 | the wrapped bound test passes for a block that is not on the disk for exactly that block and those disks |
| `SdTransactions.LastBlockOverreads` | src/core/Memory.cpp:389-423 | seven bytes from idle that read past the disk |
| `Reachable.RunIsMeaningful` | src/core/RiscvCpu.cpp:132-239 | no state of a run follows a turn in which the card read past its disk |
| `SdTransactions.WriteThenRead` | src/core/Memory.cpp:392-462 | a full CMD24 of 512 bytes and a CMD17 of the same block answer 0x00, 0xFE, the bytes, and two bytes that make the CRC of the 514 zero; idle again after exactly 517 clocks |
| `SdTransactions.WriteTransaction` | src/core/Memory.cpp:442-462 | a completed write leaves the port idle with that block replaced and nothing else |
| `SdReplies.WriteReplies` | src/core/Memory.cpp:392-462 | the replies of the card to a whole write: 0xFF five times, 0x00 for the command, 0x00 once then 0xFF up to the token, that reply held for the data and its CRC, then 0x05 |
| `SdTransactions.CommandPhase` | src/core/Memory.cpp:392-417 | six bytes from idle give the command and its argument, most significant byte first |
| `CrcRemainder.CrcIsRemainder` | src/core/Memory.cpp:339-351 | for messages of every length the CRC is the one polynomial of degree below 16 congruent to the message times x^16 modulo x^16 + x^12 + x^5 + 1 |
| `CrcRemainder.ShiftIsTimesX` | src/core/Memory.cpp:343-347 | one turn of the inner loop multiplies by x modulo the generator |
| `CrcAlgebra.CrcLinear` | src/core/Memory.cpp:339-351 | the CRC of a bytewise XOR is the XOR of the CRCs |
| `CrcAlgebra.AppendedCrcIsZero` | src/core/Memory.cpp:339-351 | a message followed by its CRC, high byte first, has CRC 0 |
| `CrcAlgebra.BitsFit` | src/core/Memory.cpp:343-347 | the register stays below 2^16 after every bit |
| `Assembler.AssembleThenDecode` | src/core/AssemblyCompiler.cpp:494-604 | for every line: the word is 0 exactly when the range checks reject it, else it is an uncompressed word that decodes to the named instruction with its registers and signed immediate |
| `Assembler.AcceptsExactly` | src/core/AssemblyCompiler.cpp:494-604 | the range checks reject exactly the lines that cannot be assembled: a line is accepted if and only if some word decodes to the instruction it names; a CSR line, if and only if its CSR number is below 4096 and its argument below 32 |
| `Assembler.AssembleInjective` | src/core/AssemblyCompiler.cpp:197-208 | distinct instructions get distinct words |
| `Assembler.AssembledWordExecutes` | src/core/instruction/Instruction.cpp:18-50 | on every CPU state that fetches the word the turn executes the named instruction |
| `Assembler.DecodesR` | src/core/instruction/RTypeInstruction.cpp:22-69 | each register operation's word decodes to it |
| `Assembler.DecodesAmo` | src/core/instruction/RTypeInstruction.cpp:450-473 | each AMO's word decodes to it |
| `Assembler.DecodesB` | src/core/instruction/BTypeInstruction.cpp:16-28 | each branch with an even offset of 13 bits decodes to itself |
| `Assembler.DecodesJ` | src/core/instruction/JTypeInstruction.cpp:14-26 | JAL with an even offset of 21 bits decodes to itself |
| `Assembler.DecodesU` | src/core/instruction/UTypeInstruction.cpp:12-18 | LUI and AUIPC decode to themselves |
| `Assembler.DecodesShift` | src/core/instruction/ITypeInstruction.cpp:52-62 | shift amounts survive, and bit 30 tells SRAI from SRLI |
| `Assembler.DecodesStore` | src/core/instruction/STypeInstruction.cpp:16-25 | each store decodes to itself |
| `Assembler.DecodesCsr` | src/core/instruction/SystemInstruction.cpp:158-190 | each CSR instruction decodes to itself with its CSR number |
| `Formats.ImmOfB` | src/core/instruction/BTypeInstruction.cpp:16-28 | scattering and gathering a branch offset is the identity |
| `Formats.ImmOfJ` | src/core/instruction/JTypeInstruction.cpp:14-26 | scattering and gathering a jump offset is the identity |
| `Formats.ImmOfI` | src/core/instruction/ITypeInstruction.cpp:12-21 | the I immediate is sign-extended back |
| `Formats.ImmOfS` | src/core/instruction/STypeInstruction.cpp:16-25 | the S immediate is sign-extended back |
| `Formats.CodesOfR` | src/core/include/core/instruction/Instruction.h:15-21 | the bit-field extractor reads back opcode, funct3 and funct7 |
| `Ranges.RangeFits12` | src/core/AssemblyCompiler.cpp:752-760 | a number passes the range check if and only if its word is a 12-bit signed immediate |
| `Ranges.RangeFits13` | src/core/AssemblyCompiler.cpp:521-535 | a number passes the branch offset check if and only if its word is an even 13-bit signed immediate |
| `RvcForms.ExpansionDecodes` | src/core/instruction/CTypeInstruction.cpp:54-219 | for every legal compressed form the expander undoes the chapter 16 layout: its word is accepted and decodes to the form's 32-bit instruction |
| `RvcForms.CompressedExecutes` | src/core/RiscvCpu.cpp:144-164 | on every CPU state that fetches it the turn executes that instruction with pc + 2 as fall-through and link |
| `Computes.RegisterInstruction` | src/core/instruction/RTypeInstruction.cpp:71-444 | a register instruction puts the meaning of its operation on rs1 and rs2, in that order, in rd and changes no other register; a shift by 32 or more has no outcome |
| `Computes.ImmediateInstruction` | src/core/instruction/ITypeInstruction.cpp:68-236 | the same of immediate instructions, on rs1 and the immediate |
| `Computes.UpperInstruction` | src/core/instruction/UTypeInstruction.cpp:19-52 | LUI puts the immediate in rd, AUIPC pc plus it, modulo 2^32 |
| `Computes.BranchInstruction` | src/core/instruction/BTypeInstruction.cpp:62-177 | a branch goes to pc plus its offset modulo 2^32 exactly when its comparison of the numbers in rs1 and rs2 holds, else falls through, and changes nothing else |
| `Computes.JalInstruction` | src/core/instruction/JTypeInstruction.cpp:44-64 | JAL links the fall-through address and goes to pc plus its offset |
| `Computes.JalrInstruction` | src/core/instruction/ITypeInstruction.cpp:371-393 | JALR goes to rs1 as it was before the link, plus its offset, less the lowest bit, and links the fall-through address |
| `Arithmetic.RegisterOperations` | src/core/instruction/RTypeInstruction.cpp:71-444 | ADD and SUB are sum and difference modulo 2^32; shifts products and floor quotients by powers of two; comparisons those of the numbers, signed or not; AND, OR, XOR bit by bit; products and quotients those of the numbers |
| `Arithmetic.ImmediateOperations` | src/core/instruction/ITypeInstruction.cpp:68-236 | the same of the immediate operations |
| `Arithmetic.AmoOperations` | src/core/instruction/RTypeInstruction.cpp:571-645 | the same of the atomic operations |
| `Arithmetic.BranchConditions` | src/core/instruction/BTypeInstruction.cpp:62-177 | branches compare the numbers for equality and order, signed or not |
| `Numbers.DifferenceIs` | src/core/instruction/RTypeInstruction.cpp:90-107 | the difference of two words stands for the difference of their numbers modulo 2^32 |
| `Numbers.SignedRightIs` | src/core/instruction/RTypeInstruction.cpp:206-224 | an arithmetic shift right is the signed number divided by a power of two, rounded down |
| `MulDivLaws.UnsignedProduct` | src/core/instruction/RTypeInstruction.cpp:266-340 | MULHU and MUL are the halves of the unsigned product |
| `MulDivLaws.SignedProduct` | src/core/instruction/RTypeInstruction.cpp:285-302 | MULH and MUL are the halves of the signed product |
| `MulDivLaws.SignedHighProduct` | src/core/instruction/RTypeInstruction.cpp:285-302 | MULH is MULHU less each operand for the other's sign, modulo 2^32 |
| `MulDivLaws.MixedHighProduct` | src/core/instruction/RTypeInstruction.cpp:304-321 | MULHSU is MULHU less rs2 for rs1's sign, modulo 2^32 |
| `MulDivLaws.DivisionLaw` | src/core/instruction/RTypeInstruction.cpp:342-419 | DIV times rs2 plus REM is rs1 modulo 2^32, with zero and overflow |
| `MulDivLaws.SignedDivision` | src/core/instruction/RTypeInstruction.cpp:342-419 | away from zero and overflow DIV and REM are the truncated quotient and remainder |
| `MulDivLaws.RemainderIsSmall` | src/core/instruction/RTypeInstruction.cpp:394-419 | for nonzero rs2 the remainder is smaller in magnitude than rs2, and zero or of rs1's sign |
| `MulDivLaws.UnsignedDivisionLaw` | src/core/instruction/RTypeInstruction.cpp:369-444 | DIVU and REMU divide exactly, and give all ones and rs1 for a zero divisor |
| `Words.NatRoundTrip` | src/core/include/core/instruction/Instruction.h:15-21 | the word of a number below 2^32 stands for that number |
| `Words.WordRoundTrip` | src/core/include/core/instruction/Instruction.h:15-21 | and the number of a word is below 2^32 and gives the word back: a bijection |
| `BusFacts.TranslateFrame` | src/core/Memory.cpp:146-337 | translation changes neither RAM, satp, time nor disk, and a fault carries the address and access type asked for |
| `BusFacts.Write32Frame` | src/core/Memory.cpp:618-632 | a store never changes satp or time; inside a page a faulting store changes nothing but a device register read on the walk |
| `ExecFacts.MemoryKeeps` | src/core/instruction/RTypeInstruction.cpp:540-569 | loads, stores, LR, SC and AMOs keep CSRs, mode, pc, satp and time, keep x0, and fault without touching a register |
| `ExecFacts.PlainKeeps` | src/core/instruction/Instruction.cpp:18-50 | all instructions that are neither memory nor system change only registers and nextPc |
| `Mmio.Claims` | src/core/Memory.cpp:353-563 | exactly the listed addresses are claimed, more of them for loads than for stores; only the SD data port reaches the card, none moves time |
| `PagedMemory.Memory.PageFor` | src/core/Memory.cpp:80-96 | allocating a zeroed page does not change the flat contents |
| `PagedMemory.Memory.LoadByte` | src/core/Memory.cpp:80-96 | a byte of a missing page reads as zero |
| `PagedMemory.Memory.Poke` | src/core/Memory.cpp:618-632 | a byte put through a page pointer is that one byte of the flat array |
| `PagedMemory.Memory.ReadPhysical` | src/core/Memory.cpp:116-144 | the physical word read, by device, page or bytes, is the flat array's or the device's |
| `PagedMemory.Memory.TranslateAddress` | src/core/Memory.cpp:146-337 | returns or throws what the specification of the walk says, with its effect on the devices |
| `PagedMemory.Memory.Read8` | src/core/Memory.cpp:687-696 | the paged memory's 8-bit load is the flat memory's |
| `PagedMemory.Memory.Read16` | src/core/Memory.cpp:663-676 | the same for 16 bits, straddling or not |
| `PagedMemory.Memory.Read32` | src/core/Memory.cpp:634-648 | the same for 32 bits and instruction fetches |
| `PagedMemory.Memory.Write8` | src/core/Memory.cpp:678-685 | the 8-bit store is the flat memory's |
| `PagedMemory.Memory.Write16` | src/core/Memory.cpp:650-661 | the same for 16 bits, byte by byte when straddling |
| `PagedMemory.Memory.Write32` | src/core/Memory.cpp:618-632 | the same for 32 bits, byte by byte when straddling |
| `PagedMemory.Memory.HandleMmio` | src/core/Memory.cpp:353-467 | a store is taken by a device exactly when specified, with the specified new device state |
| `PagedMemory.Memory.HandleMmioRead` | src/core/Memory.cpp:469-563 | a load is answered by a device exactly when specified, with the specified value and side effect |
| `PagedMemory.Memory.WriteSd` | src/core/Memory.cpp:389-464 | one byte at the SD port is one step of the card |
| `PagedMemory.Memory.ClockRead` | src/core/Memory.cpp:418-441 | one clock of a read answers as specified |
| `PagedMemory.Memory.StartRead` | src/core/Memory.cpp:419-423 | the first clock: the wrapped bound test, the CRC by the loop, and no meaning when the block is not on the disk |
| `PagedMemory.Memory.ClockWrite` | src/core/Memory.cpp:442-462 | one byte of a write stores as specified |
| `PagedMemory.Memory.SetSatp` | src/core/Memory.cpp:98-114 | satp and nothing else |
| `PagedMemory.Memory.IncrementTime` | src/core/Memory.cpp:76-78 | mtime advances by one |
| `PagedMemory.Memory.Reset` | src/core/Memory.cpp:698-701 | RAM reads as zero and satp is zero; the devices keep their state |
| `Crc16.GetCrc16` | src/core/Memory.cpp:339-351 | the loops compute the CRC of the bytes |
| `Crc16.ShiftByte` | src/core/Memory.cpp:343-348 | the inner loop shifts eight times |
| `Csr.CsrUnit.constructor` | src/core/CsrUnit.cpp:33-35 | a new register file is the reset one |
| `Csr.CsrUnit.Reset` | src/core/CsrUnit.cpp:37-43 | every register has its reset value |
| `Csr.CsrUnit.ReadCsr` | src/core/CsrUnit.cpp:45-71 | the value of a read, with counters and views |
| `Csr.CsrUnit.WriteCsr` | src/core/CsrUnit.cpp:73-141 | the whole register file after a write, with masks and aliases |
| `Csr.CsrUnit.SetMip` | src/core/CsrUnit.cpp:153-155 | mip and nothing else |
| `Cpu.RiscvCpu.SetRegister` | src/core/RiscvCpu.cpp:45-51 | x0 stays, any other register is set |
| `Cpu.RiscvCpu.NotifyStore` | src/core/RiscvCpu.cpp:353-365 | an overlapping store ends the reservation |
| `Cpu.RiscvCpu.MakeReservation` | src/core/RiscvCpu.cpp:367-370 | the physical address is reserved |
| `Cpu.RiscvCpu.CheckAndClearReservation` | src/core/RiscvCpu.cpp:372-376 | reports whether the address is reserved, and ends the reservation either way |
| `Cpu.RiscvCpu.TakeTrap` | src/core/RiscvCpu.cpp:244-320 | the object after a trap is in the specified state, all CSR writes included |
| `Cpu.RiscvCpu.SupervisorReturn` | src/core/RiscvCpu.cpp:325-336 | the object after SRET |
| `Cpu.RiscvCpu.MachineReturn` | src/core/RiscvCpu.cpp:337-350 | the object after MRET |
| `Cpu.RiscvCpu.ExecuteLoad` | src/core/instruction/ITypeInstruction.cpp:240-258 | a load, extended, or its page fault |
| `Cpu.RiscvCpu.ExecuteStore` | src/core/instruction/STypeInstruction.cpp:54-124 | notification, then the store or its page fault |
| `Cpu.RiscvCpu.ExecuteLoadReserved` | src/core/instruction/RTypeInstruction.cpp:475-501 | load, second translation, reservation |
| `Cpu.RiscvCpu.ExecuteStoreConditional` | src/core/instruction/RTypeInstruction.cpp:503-538 | translation, check, and the store only when reserved |
| `Cpu.RiscvCpu.ExecuteAmo` | src/core/instruction/RTypeInstruction.cpp:540-569 | load, notification, store, and the old value in rd |
| `Cpu.RiscvCpu.ExecuteCsr` | src/core/instruction/SystemInstruction.cpp:192-367 | access check, read, write passed on to satp, old value in rd |
| `Cpu.RiscvCpu.ExecuteSret` | src/core/instruction/SystemInstruction.cpp:416-435 | SRET or its illegal-instruction trap |
| `Cpu.RiscvCpu.Execute` | src/core/instruction/Instruction.cpp:18-50 | the object after any instruction is in the specified state, with the specified outcome |
| `Cpu.RiscvCpu.Settle` | src/core/RiscvCpu.cpp:166-189 | pc moves, time advances, mip shows timers and console |
| `Cpu.RiscvCpu.Deliver` | src/core/RiscvCpu.cpp:186-214 | an enabled pending interrupt is taken at once |
| `Cpu.RiscvCpu.Step` | src/core/RiscvCpu.cpp:132-239 | one turn of the loop on the object is one turn of the specification |
| `Cpu.RiscvCpu.Run` | src/core/RiscvCpu.cpp:132-239 | so are any number of turns |
| `Cpu.RiscvCpu.Reset` | src/core/RiscvCpu.cpp:402-416 | the object after reset |
| `AluLaws.UnsignedComparisons` | src/core/instruction/BTypeInstruction.cpp:140-177 | the unsigned comparisons compare the unsigned numbers the words stand for |
| `AluLaws.SignedExtremes` | src/core/instruction/RTypeInstruction.cpp:606-626 | AMOMIN and AMOMAX keep the smaller and the larger word as signed numbers |
| `AluLaws.UnsignedExtremes` | src/core/instruction/RTypeInstruction.cpp:628-644 | AMOMINU and AMOMAXU keep the smaller and the larger word as unsigned numbers |
| `AluLaws.ShiftsExactly` | src/core/instruction/RTypeInstruction.cpp:109-219 | register shifts have a result exactly when bit 5 of rs2 is clear, and it is the shift by the low five bits |
| `UserExample.ExampleIsSeparated` | src/core/Memory.cpp:146-337 | a concrete user-mode state meets the conditions of the integrity results, and its user code can store to a page |
| `Reachable.RunKeepsInv` | src/core/RiscvCpu.cpp:132-239 | every run that starts in the invariant stays in it |
| `PagedMemory.Memory.constructor` | src/core/Memory.cpp:698-701 | a new memory reads as zero everywhere, with satp zero and the card idle |

## Left out

- The Qt interface, the command line, the terminal, and `resetGUI`, which clears the memory system's satp but not the CSR; runs start at `reset`.
- Files and the operating system: loading binaries and disk images, console output, polling the keyboard. A character may arrive before any turn, as a parameter.
- Logging, with its counters and its extra page-table reads, and the messages of `InstructionOutput`.
- Semihosting: EBREAK always raises the breakpoint trap.
- Parsing of assembly text and numbers: lines start from register numbers and 32-bit integers. CSR names are their numbers.
- CSR numbers of 4096 and more, which the 12-bit field cannot express, and `setBit` and `clearBit`, which nothing modelled calls.
- The bodies of FENCE and WFI, which change nothing.
- Step: a register shift by 32 or more, or a read past the disk, has no successor state, because C++ gives it no meaning.
- Run: the loop ends when the list of keyboard inputs does, in place of the shutdown flag.
- UserMode.CsrIntegrity: speaks of the states still in user mode; the trap that ends such a run writes the trap registers.
- LrSc.SuccessMeansUntouched: the unchanged word is claimed for addresses from 3 to 0xFFFFFFFC, the words the check protects (`UnwrappedExactly`), and what rd held for words no device answers.
- PagedMemory.Memory.SetSatp: without the reads of the new root table that the source makes for its log, which on a root in the console's page would take a pending character.
- RvcForms.ExpansionDecodes: covers the forms of RV32 with shift amounts below 32 and destinations other than x0 where that would be a hint; the source accepts some hints and shift amounts with bit 5 set as well.
- Sv32Manual.TranslateAgrees: MXR is required clear, as the mstatus mask keeps it; MPRV is modelled but can never be set.
