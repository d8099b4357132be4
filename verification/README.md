# A verified model of the HyRISC v2 emulator

HyRISC v2 (HV2) is a 32-bit processor emulated by a fetch/decode/execute loop behind a
three-word prefetch pipeline. It has 32 registers (r31 is the program counter, r30 the link
register), four privilege levels, exceptions, coprocessor registers, and an MMU with four
software-filled maps of 32 entries. Around it sit byte-buffer devices, a disassembler, an ELF
loader, a text-mode display, a keyboard controller, a clock divider and a BIOS in the
processor's own assembly language.

This project models that code as it is written and proves what it does. `dafny verify
dfyconfig.toml` verifies all of it. The results, hardest first:

* **The pipeline refines an instruction set without one.** `DelayedIsa.RunRefines` relates any
  run of cycles, in every mode and for every instruction, to a machine with delay slots; its
  hypotheses reach no further than the run. `SequentialIsa.FlushModeRefines` shows that with
  XFLUSH_ON_FT set the slots vanish and one instruction runs at a time with r31 = A + 12, after
  which execution goes on at r31 exactly if the instruction transfers (`SequentialIsa.Transfers`).
  `DelaySlots.DelaySlotModeRefines` covers the flag clear: exactly two slots behind every transfer,
  exceptions and sysret included. `Prefetch.PlainRunsRefine` and `Prefetch.PlainSlotsRefine`
  restate both with hypotheses that can be decided before each instruction runs. Timing
  (`DelayedIsa.CyclesFromEmpty`), calls (`CallReturn.CallCycles`) and system calls in both modes
  (`SystemCalls.SyscallCycles`, `SystemCalls.SyscallCyclesFlushed`) are derived for the pipelined
  machine. `Lock.LockSpins` puts the theorem to work on the BIOS's own closing loop, wherever it is
  placed, down to the count of its cycles.
* **Every word has a second meaning, and the executor follows it.** `InstructionMeaning` says for
  each of the 32 groups what a word does, in integers modulo 2^32, numbered fields and named parts of
  the state; `AluMeaning.OperateMeans` characterises the sixteen operations by relations that
  determine their result, and `AccessMeaning` lists the causes of every access, in order and by
  number, from the bits of the map entry and the address.
* **The emulator object computes that machine.** `Processor.Hv2` updates registers, pipeline,
  control registers, maps and device buffers in place, as the source does; `Hv2.Cycle` is proved
  equal to the pure cycle, with the raising of each exception where the source raises it.
* **Disassembly is faithful.** A reader recovers from each printed line the instruction the
  executor decodes, so words that print alike act alike on every state.
* **Memory is flat.** Translation, device search and buffers act as one little-endian byte memory,
  through any sequence of writes, and a loaded program reads back through them.
* **Invariants of every run**: what stays as the host left it, how privilege moves, how the MMU
  follows it, and what the exceptions of one access amount to.
* **The periphery**: the renderer equals its per-pixel formula, the BIOS prints decimals, the
  keyboard controller delivers each byte at most once, the divider fires floor(n / (ratio + 1))
  times.

## Files

`Words`, `Alu`, `Core`, `Mmu`, `Instructions` and `Execute` define the processor as functions on
values; an access yields the list of exceptions it raises beside its result, so that the effect
of several exceptions in one access can be stated. `DelayedIsa`, `SequentialIsa`,
`DelaySlots`, `Prefetch`, `SystemCalls`, `CallReturn` and `Lock` hold the refinement, `Privilege`,
`Faults`, `FetchFaults`, `Invariants`, `BranchEncoding`, `Departures` and `FlatMemory` the other
theorems. `AluMeaning`, `InstructionMeaning` and `AccessMeaning` restate the processor in terms that
share none of its functions for operands, addresses, coprocessor registers and translation, and
`Mnemonics` the disassembler's tables and columns.
`Processor` is the imperative emulator, `Loader` the ELF loader on it. `Text` and
`Disassembler`, `TextMode`, `Keyboard`, `Clock` and `Bios` model the rest.

A `Word` is an integer below 2^32, and every wrap-around is written out (`Wrap`, `Plus`,
`Times`). Bit operations are recursive functions on integers; the masks and shifts of the source
are proved equal to the divisions and remainders used here (`Core.ControlBitsAreMasks`,
`Instructions.*AreMasks`). What C++ leaves undefined is an outcome of its own (`Undefined`,
`Stuck`, `Broken`, `None`), never a precondition of the processor.

## Where the code departs from its documents

The model follows the code. Each point is pinned by a lemma.

* spec.txt:91 puts COPN in bits 11 to 7; the code reads bits 12 to 8, which overlap COPR in bit 12
  (`Departures.SharedBit`). The two agree if and only if bits 12 to 7 are all clear or all set
  (`Departures.CopnRightIff`), and the instruction does what the document says in every state if and
  only if they agree or neither number names a register (`Departures.ExchangeRightIff`);
  `Departures.ExchangeWrong` is a word for which it does not. The overlap also means that only even
  registers of coprocessors 0 and 4 resolve (`Invariants.OnlyEvenRegisters`), so xhaddr, cr1, msel
  and the vaddr and attr words of the maps can never be written by a program (`Invariants.RunKeeps`).
* spec.txt:81-88 gives the register branch six conditions; the code reads one bit, and compares for
  equality or indexes before its table (`Departures.RegisterBranchOnlyEqual`). It is right in every
  state if and only if the condition is ge with both registers the same or the first r0, or le with
  both the same or the second r0 (`Departures.RegisterBranchRightIff`; in one state,
  `Departures.RegisterBranchRightAt`); `Departures.RegisterBranchWrong` is a word for which it is not.
* Set-if-condition-immediate compares the number of its source register, not its value
  (`Departures.SetConditionIgnoresSource`). It is right in every state if and only if its result goes
  to r0, its source is r0, or the comparison is constant: gt or le against 0xffffffff, ge or lt
  against 0 (`Departures.SetConditionRightIff`); `Departures.SetConditionWrong` is one word for which
  it is not.
* sysret never flushes (`Departures.SysretKeepsSlots`), so at a sysret the sequential reading is
  right if and only if xpc = A + 12 (`Departures.SysretIsSequentialIff`).
* mtcr from r31 flushes without a transfer and so skips the next two instructions
  (`Departures.MoveFromPcSkipsTwo`).
* With the flag clear one instruction flushes all the same: mtcr from r31 to CR0 of a value that sets
  the flag (`DelaySlots.FlushIffSet`).
* A failed translation carries on at physical address 0 (`Faults.FailedStoreGoesToZero`). A store
  that does so changes no memory, whatever it stores, if and only if no device covers address 0 or
  the first that does is read-only, as the BIOS ROM is (`Faults.FailedStoreHarmlessIff`);
  `Faults.FailedStoreReachesRam` is an example where it does.
* A faulting fetch still adds four to the handler address (`Faults.FetchFaultClosedForm`), so the
  handler's first word is never fetched: the word the fetch returned runs in its place, in flush mode
  at once (`FetchFaults.StrayRuns`) and otherwise behind the words of the two slots
  (`FetchFaults.StrayAfterSlots`). The handler is entered as it should be if and only if that word is
  the handler's first, or the instruction executed in the same cycle discards it
  (`FetchFaults.EntersIff`). It is, after a failed translation, with the handler at physical address 0
  (`FetchFaults.FailedTranslationEnters`), as after reset with an MMU that exceptions turn off
  (`FetchFaults.ZeroHandlerEnters`); it is not in `FetchFaults.StrayRunsInExample`, on a page that
  may be read but not executed.
* A faulting load still writes its destination (`Faults.LoadClosedForm`): it does no more than its
  exceptions if and only if the value is there already (`Faults.FaultingLoadHarmlessIff`), which is not
  so in `Faults.FaultingLoadClears`.
* The keyboard commands named enable and disable are exchanged (`Keyboard.EnableMutes`).
* A column narrower than three characters does not cut its text (`Text.SetSizeLength`), and every
  symbol heading widens all later lines (`Disassembler.Printer.Disassemble`).

## Model

| member | source | states |
|---|---|---|
| `Alu.SumsUndo` | hv2/hv2.cpp:88-89 | add commutes modulo 2^32 and sub undoes it from either side |
| `Alu.ProductsAreSums` | hv2/hv2.cpp:90-91 | mul is repeated addition modulo 2^32; mla adds the product to the destination |
| `Alu.QuotientAndRemainder` | hv2/hv2.cpp:92-93 | div and mod are the quotient and the remainder, undefined exactly for a zero divisor |
| `Alu.LogicByBits` | hv2/hv2.cpp:94-96 | bit i of and, or and xor is the and, or and exclusive or of the operands' bits i |
| `Alu.ShiftsByIntegers` | hv2/hv2.cpp:97-99 | lsl multiplies modulo 2^32, lsr divides, asr divides the signed value; undefined exactly from 32 on |
| `Alu.ExtensionsAreSigned` | hv2/hv2.cpp:100-101 | sign extension gives the representative of the low bits in the signed range |
| `Alu.ExtensionsAreMasks` | hv2/hv2.cpp:188-200 | the sign extensions are the and, test and or of the source's masks |
| `Alu.Extension17` | hv2/hv2.cpp:196-200 | the 17-bit sign extension is congruent to its operand modulo 2^17 and in the signed range |
| `Alu.AsrIsFloorDivision` | hv2/hv2.cpp:64-74 | arithmetic right shift by s < 32 is floor division of the signed value by 2^s |
| `Alu.BitOfRol` | hv2/hv2.cpp:76-80 | bit i of a left rotation by r is bit i - r modulo 32 of the operand |
| `Alu.RotationsCompose` | hv2/hv2.cpp:76-86 | rotations compose additively modulo 32, and rol and ror undo each other |
| `Alu.RotationsByBits` | hv2/hv2.cpp:102-103 | rol and ror move bit i to i + s and i - s modulo 32, undefined exactly for multiples of 32 |
| `Alu.ConditionsAreComparisons` | hv2/hv2.cpp:107-112 | the six conditions are the unsigned comparisons, in three complementary pairs |
| `AluMeaning.OperateMeans` | hv2/hv2.cpp:88-103 | an operation computes v if and only if it is defined (divisor not 0, shift below 32, rotation no multiple of 32) and v is its integer or bitwise result, whatever the old destination |
| `AluMeaning.YieldsOne` | hv2/hv2.cpp:88-103 | these results are unique |
| `AluMeaning.OnlyMlaReadsDestination` | hv2/hv2.cpp:88-103 | the result is the same for every old destination if and only if the operation is not mla |
| `Core.ControlBitsAreMasks` | hv2/mmu.hpp:19-23 | every control-bit test, set and clear of the model is the mask operation of the source |
| `Mmu.AttributesAreMasks` | hv2/mmu.cpp:59-88 | so is every test of an attribute or an alignment |
| `Instructions.RegisterFieldsAreMasks` | hv2/hv2.cpp:30-34 | the group and register fields are the source's shifts and masks |
| `Instructions.OperandFieldsAreMasks` | hv2/hv2.cpp:35-60 | so are the ALU, branch, load/store and immediate fields |
| `Instructions.SystemFieldsAreMasks` | hv2/hv2.cpp:44-56 | so are the coprocessor, system, mode and shift fields |
| `Instructions.DisplacementsAreMasks` | hv2/hv2.cpp:274-282 | the 17-bit and 11-bit displacements are the shifted parts joined by or |
| `BranchEncoding.DecodeEncode` | hv2/hv2.cpp:273-282 | splitting any 17-bit displacement over the S bit and the 16-bit field and decoding gives it back |
| `BranchEncoding.BranchMovesPc` | hv2/hv2.cpp:268-287 | a taken branch moves r31 by exactly its displacement modulo 2^32 and links if asked; one not taken leaves both |
| `InstructionMeaning.FlagFieldsAreMasks` | hv2/hv2.cpp:36-59 | the one-bit fields are the source's shifts and masks |
| `InstructionMeaning.AluWord` | hv2/hv2.cpp:235-259 | an ALU word leaves in its destination the result for its two registers, or for its destination and its 16 bits as a signed or unsigned integer, and is undefined exactly where the operation is |
| `InstructionMeaning.AddressIs` | hv2/hv2.cpp:379-425 | the address in each of the eight modes: base plus or minus index times scale, index times 2^shift, or the 11-bit displacement, modulo 2^32 |
| `InstructionMeaning.AccessWord` | hv2/hv2.cpp:427-449 | load, store and lea read, write and leave that address; the fourth operation does nothing |
| `InstructionMeaning.RegisterWord` | hv2/hv2.cpp:116-168 | mfcr copies and mtcr sets cr0, xcause, xpc and the MMU control word by register number, and the rest is kept |
| `InstructionMeaning.HiddenRegisters` | hv2/hv2.cpp:116-168 | the same of cr1, xhaddr and msel, which no word can name |
| `InstructionMeaning.WindowWord` | hv2/hv2.cpp:136-168 | word 0x10 + 128m + 4e of the window is the physical base, and word 0x10 + 128m + 4e + 2 the size, of entry e of map msel + m; undefined beyond the four maps |
| `InstructionMeaning.NoRegisterWord` | hv2/hv2.cpp:149-168 | any other register number raises 0x400008; operations above 1 lie outside the table |
| `InstructionMeaning.LoadImmediateWord` | hv2/hv2.cpp:451-460 | li leaves its signed or unsigned 16 bits times 2^shift, extended before the shift |
| `InstructionMeaning.SetWord` | hv2/hv2.cpp:462-486 | set-if-condition leaves exactly 1 or 0; the immediate form compares its register number with its signed or unsigned 16 bits |
| `InstructionMeaning.BranchWord` | hv2/hv2.cpp:261-288 | an immediate branch is taken by its condition, by its signed 17-bit displacement, with the old r31 in r30 if it links |
| `InstructionMeaning.BranchRegisterWord` | hv2/hv2.cpp:290-307 | a register branch is undefined with its condition bit clear, and else taken on equality to r31 plus its third register, or to that register |
| `InstructionMeaning.SystemWord` | hv2/hv2.cpp:328-368 | the xcause of every system operation, with the immediate above its low byte, the exit of debug, and sysret |
| `InstructionMeaning.CauseIs` | hv2/hv2.cpp:336-359 | joining base and shifted immediate by or is their sum, but for bit 22, which both may set |
| `InstructionMeaning.OtherWord` | hv2/hv2.cpp:321-326 | coprocessor instructions do nothing, and the five free groups raise 0x400007 |
| `InstructionMeaning.RaiseIs` | hv2/exception.cpp:9-17 | the whole state after an exception, for every control word |
| `InstructionMeaning.SysReturnIs` | hv2/privilege.cpp:30-50 | the whole state after sysret, for every control word: level, enable bit and map |
| `DelayedIsa.FetchIgnoresRegisters` | hv2/mmu.cpp:47-107 | what a fetch returns and raises does not depend on the registers |
| `DelayedIsa.ZeroIsNop` | hv2/hv2.cpp:230-259 | opcode 0 changes nothing once r0 is 0, so a flushed slot is a bubble |
| `DelayedIsa.BubbleCycle` | hv2/hv2.cpp:543-575 | a cycle before the pipeline is full fetches one more word and executes nothing |
| `DelayedIsa.RetireCycle` | hv2/hv2.cpp:543-575 | a cycle of a full pipeline is exactly one step of the machine with delay slots |
| `DelayedIsa.RunRefines` | hv2/hv2.cpp:543-575 | any number of cycles is the instructions they retire, in every mode and for every instruction, under hypotheses on these cycles alone |
| `DelayedIsa.RunRelates` | hv2/hv2.cpp:543-575 | and where one more cycle behaves, the words in the pipeline are those at the next addresses |
| `DelayedIsa.RetirementTime` | hv2/hv2.cpp:202-208 | the machine retires its nth instruction in exactly one cycle: n + 2t beyond those that fill the pipeline, with n - 1 retired just before |
| `DelayedIsa.RetiredState` | hv2/hv2.cpp:202-208 | after that cycle the pipeline is empty if the instruction flushed and full otherwise |
| `DelayedIsa.CyclesFromEmpty` | hv2/hv2.cpp:202-208 | from an empty pipeline the machine takes n + 2(t + 1) cycles for n instructions, t flushing before the last, neither more nor fewer |
| `DelayedIsa.NoLongStall` | hv2/hv2.cpp:202-208 | three more cycles always take the machine at least one instruction further |
| `SequentialIsa.FlushIsTransfer` | hv2/hv2.cpp:230-494 | with the flag set an instruction empties the pipeline exactly if it transfers, and otherwise, unless it is sysret, leaves r31 alone |
| `SequentialIsa.StepIsDelayedStep` | hv2/hv2.cpp:230-494 | one sequential step is one step of the machine with delay slots, restarted at r31 |
| `SequentialIsa.FlushModeRefines` | hv2/hv2.cpp:543-575 | the central theorem: n cycles from an empty pipeline are the sequential instructions they retire, r31 ahead by four for each prefetched word, if these find the flag set and are not sysret |
| `Prefetch.FetchSurvivesStore` | hv2/mmu.cpp:93-124 | a store whose physical bytes miss a word leaves its fetch unchanged |
| `Prefetch.KeepsTranslation` | hv2/hv2.cpp:230-494 | an instruction that does not flush nor write the MMU keeps the translation, if the flag is set or no transition bit is, and only stores change memory |
| `Prefetch.PlainKeeps` | hv2/hv2.cpp:543-575 | the hypothesis on the words in flight follows from conditions on the instruction before it runs |
| `Prefetch.PlainForBehaves` | hv2/hv2.cpp:543-575 | so do the hypotheses on any run, in both modes |
| `Prefetch.PlainRunsRefine` | hv2/hv2.cpp:543-575 | the central theorem under those conditions: no fetch faults, no write to the MMU, no store into the two words ahead |
| `Prefetch.PlainSlotsRefine` | hv2/hv2.cpp:543-575 | its counterpart with the flag and the transition bits clear, faulting accesses and sysret included |
| `Lock.LockStep` | bios/util.s:28-33 | each word of the BIOS lock loop, at any address and in any of its encodings, meets those conditions and moves to the next |
| `Lock.ManyTurns` | bios/util.s:28-33 | n turns of the loop are 3n instructions and 5n cycles, and meet the hypotheses of the refinement |
| `Lock.LockSpins` | bios/util.s:28-33 | n turns take exactly 5n cycles of the pipelined machine and change nothing |
| `Lock.RomIsLoop` | bios/util.s:28-33 | one hand-assembled placement of the loop in a ROM is such a loop |
| `DelaySlots.FlushIffSet` | hv2/hv2.cpp:202-208 | with the flag clear an instruction flushes if and only if it sets the flag from r31 |
| `DelaySlots.ClearNeverFlushes` | hv2/hv2.cpp:202-208 | no other instruction does |
| `DelaySlots.TransferTakesEffectInThree` | hv2/hv2.cpp:543-575 | with the flag clear, wherever r31 points after an instruction is where execution is three instructions later |
| `DelaySlots.EveryCycleRetires` | hv2/hv2.cpp:543-575 | with the flag clear a full pipeline retires one instruction in every cycle |
| `DelaySlots.DelaySlotModeRefines` | hv2/hv2.cpp:543-575 | with the flag clear, n cycles are exactly n instructions of the machine with two delay slots, to its end if it stops |
| `SystemCalls.SyscallEntersHandler` | hv2/hv2.cpp:329-337 | flag clear: a syscall at A runs A + 4 and A + 8 once each, then the handler at xhaddr, with xpc = A + 12 |
| `SystemCalls.SyscallFlushes` | hv2/hv2.cpp:329-337 | flag set: the handler starts at once with xpc = A + 12, so A + 4 and A + 8 do not run |
| `SystemCalls.SysretResumes` | hv2/hv2.cpp:361-366 | sysret in either mode: two slots that neither transfer nor fault, then xpc, in sequence |
| `SystemCalls.SyscallResumes` | hv2/hv2.cpp:361-366 | flag clear: a handler of any length that returns with that xpc resumes at A + 12 |
| `SystemCalls.SyscallResumesFlushed` | hv2/hv2.cpp:361-366 | flag set: the same |
| `SystemCalls.SyscallCycles` | hv2/hv2.cpp:543-575 | on the pipelined machine, flag clear: the whole call takes one cycle for each instruction, and the word at A + 12 is the next executed |
| `SystemCalls.SyscallCyclesFlushed` | hv2/hv2.cpp:543-575 | flag set: two cycles more for each flush, and the word at A + 12 is the next executed |
| `CallReturn.LinkStep` | hv2/hv2.cpp:273-287 | a taken linking branch at A leaves A + 12 in lr and continues at its target |
| `CallReturn.ReturnSequence` | bios/util.s:19-23 | moving lr, less eight, to pc, with either spelling of the moves, continues at lr - 8 in three instructions |
| `CallReturn.CallReturns` | bios/util.s:19-23 | any callee that gives lr back and returns so makes A + 4 the caller's next instruction |
| `CallReturn.CallCycles` | hv2/hv2.cpp:543-575 | on the pipelined machine: in the cycle that retires the return, the pipeline is empty and r31 is A + 4 |
| `Departures.SharedBit` | hv2/hv2.cpp:44-45 | the coprocessor and register numbers a word can name are exactly the pairs that agree on the shared bit |
| `Departures.CopnRightIff` | hv2/hv2.cpp:45 | the code's coprocessor number is the documented bits 11 to 7 if and only if bits 12 to 7 are all clear or all set |
| `Departures.ExchangeRightIff` | hv2/hv2.cpp:310-319 | mtcr and mfcr do what the document says in every state if and only if the numbers agree or neither names a register |
| `Departures.ExchangeWrong` | hv2/hv2.cpp:310-319 | one word and state in which mtcr does not |
| `Departures.RegisterBranchOnlyEqual` | hv2/hv2.cpp:291-307 | a register branch is undefined if and only if its bit is clear, and otherwise branches on equality |
| `Departures.RegisterBranchRightAt` | hv2/hv2.cpp:291-307 | in one state it does what the document says if and only if its bit is set and equality decides as the documented condition does, or taking the branch makes no difference |
| `Departures.RegisterBranchRightIff` | hv2/hv2.cpp:291-307 | in every state, if and only if the condition is ge or le on registers for which it means equality |
| `Departures.RegisterBranchWrong` | hv2/hv2.cpp:291-307 | one word and state in which it does not |
| `Departures.SetConditionIgnoresSource` | hv2/hv2.cpp:463-475 | set-if-condition-immediate writes the same value in every state |
| `Departures.SetConditionRightAt` | hv2/hv2.cpp:463-475 | in one state it does what the document says if and only if the register's number compares as its value does, or the result goes to r0 |
| `Departures.SetConditionRightIff` | hv2/hv2.cpp:463-475 | in every state, if and only if the result goes to r0, the source is r0, or the comparison is constant |
| `Departures.SetConditionWrong` | hv2/hv2.cpp:463-475 | one word and state in which it does not |
| `Departures.SysretKeepsSlots` | hv2/hv2.cpp:362-366 | sysret keeps two delay slots whatever the flag |
| `Departures.SysretIsSequentialIff` | hv2/hv2.cpp:362-366 | at a sysret the sequential instruction set is followed if and only if xpc = A + 12 |
| `Departures.MoveFromPcSkipsTwo` | hv2/hv2.cpp:149-158 | mtcr from r31 skips the two prefetched instructions if the flag is set after it, and none otherwise |
| `Privilege.LevelIsClamped` | hv2/privilege.cpp:8-33 | any sequence of exceptions and sysrets acts on the level as one clamp composed from its parts |
| `Privilege.SummaryComposes` | hv2/privilege.cpp:8-33 | the clamp of a concatenation is the composition of the clamps |
| `Privilege.NestingRestores` | hv2/exception.cpp:9-17 | k exceptions and k sysrets restore the level if and only if it was at least k (k up to 3), and end at k otherwise |
| `Privilege.TransitionsKeepSwitched` | hv2/privilege.cpp:8-50 | with the three transition bits set, every level change keeps the MMU on above level 0 and the map at the level |
| `Privilege.CycleKeepsSwitched` | hv2/hv2.cpp:543-575 | so does every cycle that does not write the COP4 control register |
| `Privilege.RunKeepsSwitched` | hv2/hv2.cpp:543-575 | so does every run, through accesses with several exceptions and sysret |
| `Faults.AtMostThree` | hv2/mmu.cpp:47-124 | an access raises at most three exceptions, and at most two unless its size is that of a fetch, as size field 3 is |
| `Faults.RaiseAllClosedForm` | hv2/exception.cpp:9-17 | the closed form of k exceptions: r31, xcause, xpc, level, control word and map |
| `Faults.LoadClosedForm` | hv2/hv2.cpp:430-435 | a load is that closed form, then its destination, flushed exactly if the flag is set and it faulted or wrote r31 |
| `Faults.FaultingLoadHarmlessIff` | hv2/hv2.cpp:430-435 | a faulting load does no more than its exceptions if and only if the value it writes is there already |
| `Faults.FaultingLoadClears` | hv2/mmu.cpp:98-103 | an example where it is not |
| `Faults.FetchFaultClosedForm` | hv2/hv2.cpp:543-575 | a cycle whose fetch faults k times executes from that closed form plus four |
| `FetchFaults.StrayAfterSlots` | hv2/hv2.cpp:543-575 | after the fault the words of the two slots run, then the returned word, with the handler's second and third behind it |
| `FetchFaults.StrayRuns` | hv2/hv2.cpp:543-575 | in flush mode the slots are bubbles, and the returned word runs in place of the handler's first |
| `FetchFaults.EntersIff` | hv2/hv2.cpp:543-575 | the cycle is the one that enters the handler if and only if the returned word is the handler's first or its instruction discards it |
| `FetchFaults.EntersFlushedIff` | hv2/hv2.cpp:543-575 | in flush mode, if and only if the returned word is the handler's first |
| `FetchFaults.FailedTranslationEnters` | hv2/mmu.cpp:47-67 | where the translation fails, the handler is entered as it should be if it lies at physical address 0 |
| `FetchFaults.ZeroHandlerEnters` | hv2/hv2.cpp:577-581 | as it does after reset, if the exception turns the MMU off |
| `FetchFaults.UnexecutableIsFetched` | hv2/mmu.cpp:59-61 | a readable page without the exec bit raises one exception and is fetched from all the same |
| `FetchFaults.StrayRunsInExample` | hv2/hv2.cpp:543-575 | a machine on which such a word runs in place of the handler's first |
| `FetchFaults.FailedFetchReadsZero` | hv2/mmu.cpp:47-107 | after a failed translation the returned word is the one at physical address 0, or 0 |
| `Faults.FailedStoreGoesToZero` | hv2/mmu.cpp:47-67 | a store whose translation failed goes to the first device at physical 0 |
| `Faults.FailedStoreHarmlessIff` | hv2/mmu.cpp:109-124 | it changes no memory, whatever its value, if and only if no device covers address 0 or the first that does is read-only |
| `Faults.FailedStoreChangesNothing` | dev/bios_rom.hpp:38-40 | in those cases no value does |
| `Faults.FailedStoreReachesRam` | hv2/mmu.cpp:109-124 | an example with RAM there |
| `Invariants.OnlyEvenRegisters` | hv2/hv2.cpp:44-45 | a word that names coprocessor 0 or 4 names an even register |
| `Invariants.WindowLayout` | hv2/hv2.cpp:136-142 | word 128m + 4e + f of the window reads the physical base, virtual base, size or attributes of entry e of map m, for f = 0 to 3 |
| `Invariants.WindowWrite` | hv2/hv2.cpp:136-142 | writing it sets that part of that entry and keeps everything else |
| `Invariants.WindowInside` | hv2/hv2.cpp:116-147 | with map 0 selected every register that resolves can be read and written inside the maps |
| `Invariants.CycleKeeps` | hv2/hv2.cpp:543-575 | a cycle keeps r0, msel, xhaddr, cr1 and the vaddr and attr words of all maps |
| `Invariants.RunKeeps` | hv2/hv2.cpp:543-575 | so does every run, whatever memory and the pipeline hold |
| `Invariants.FromReset` | hv2/hv2.cpp:577-581 | so does every run from reset, whose handler therefore stays at address 0 |
| `FlatMemory.EntryOrderIrrelevant` | hv2/mmu.cpp:5-17 | permuting the entries of a map with disjoint ranges changes no search |
| `FlatMemory.DeviceOrderIrrelevant` | hv2/mmu.cpp:25-36 | permuting disjoint devices changes no read |
| `FlatMemory.DeviceOrderIrrelevantToWrites` | hv2/mmu.cpp:109-124 | permuting disjoint devices permutes the outcome of a write |
| `FlatMemory.TranslationInjective` | hv2/mmu.cpp:21-23 | different virtual addresses go to different physical addresses |
| `FlatMemory.ReadIsFlat` | dev/ram.hpp:23-37 | a sized read without exceptions is the sum of its flat bytes by powers of 256 |
| `FlatMemory.WriteChangesPhysBytes` | dev/ram.hpp:39-48 | physically, a write changes exactly its one, two or four bytes |
| `FlatMemory.WriteIsFlat` | hv2/mmu.cpp:109-124 | virtually, a write without exceptions changes exactly its one, two or four flat bytes |
| `FlatMemory.ReadAfterWrite` | hv2/mmu.cpp:93-124 | after any write any read sees the stored bytes where they overlap and the old ones elsewhere, and raises nothing new |
| `FlatMemory.CleanStays` | hv2/mmu.cpp:109-124 | a write without exceptions keeps any other such write one |
| `FlatMemory.WritesAreFlat` | hv2/mmu.cpp:109-124 | after any sequence of them each byte is the last one stored there, or the old one |
| `FlatMemory.ReadAfterWrites` | hv2/mmu.cpp:93-124 | and any read returns its bytes, without exceptions |
| `AccessMeaning.PhysicalTranslation` | hv2/mmu.cpp:71-88 | with the MMU off the address is physical, and only misalignment raises: 0x800004 for a fetch, 0x800005 for checked long and short accesses |
| `AccessMeaning.UnmappedTranslation` | hv2/mmu.cpp:51-57 | where no entry of the current map covers the address: 0x800000 and physical address 0 |
| `AccessMeaning.UnreadableTranslation` | hv2/mmu.cpp:59-67 | where the first that does has bit 2 clear: 0x800003 for a fetch with bit 0 clear, then 0x800001, and physical address 0 |
| `AccessMeaning.ReadableTranslation` | hv2/mmu.cpp:59-88 | where it has bit 2 set: 0x800003 for such a fetch, then misalignment, and paddr + address - vaddr modulo 2^32 |
| `AccessMeaning.CasesCover` | hv2/mmu.cpp:5-17 | an address that any entry covers has a first one |
| `AccessMeaning.PhysicalCauses` | hv2/mmu.cpp:93-124 | the ordered causes of a read and a write and the final xcause, MMU off, with 0x800000 last where no device is |
| `AccessMeaning.UnmappedCauses` | hv2/mmu.cpp:93-124 | the same where no entry covers the address |
| `AccessMeaning.UnreadableCauses` | hv2/mmu.cpp:93-124 | the same where the first that does is not readable |
| `AccessMeaning.ReadableCauses` | hv2/mmu.cpp:93-124 | the same where it is |
| `AccessMeaning.AccessGoesTo` | hv2/mmu.cpp:93-124 | the first device at the physical address serves the access; with none a read yields 0 and a write changes nothing |
| `AccessMeaning.DeviceReadIs` | dev/ram.hpp:23-37 | a read takes one, two or four bytes of the buffer, lowest first, and needs four |
| `AccessMeaning.DeviceWriteIs` | dev/ram.hpp:39-48 | a write replaces one, two or four bytes, lowest first, unless the device is read-only |
| `Processor.MmioDevice.Read` | dev/ram.hpp:23-37 | the buffer read returns the little-endian value of the model |
| `Processor.MmioDevice.Write` | dev/ram.hpp:39-48 | the buffer write stores the low bytes lowest first, and the ROM keeps its contents |
| `Processor.Hv2.constructor` | hv2/hv2.cpp:577-581 | reset leaves everything zero but the cause |
| `Processor.Hv2.Flush` | hv2/hv2.cpp:202-208 | the three slots are zeroed exactly if r31 was written and the flag is set |
| `Processor.Hv2.PrivilegeUp` | hv2/privilege.cpp:8-28 | the level, enable bit and map after a step up |
| `Processor.Hv2.PrivilegeDown` | hv2/privilege.cpp:30-50 | the level, enable bit and map after a step down |
| `Processor.Hv2.Exception` | hv2/exception.cpp:9-17 | the whole state and the slots after an exception |
| `Processor.Hv2.SearchMap` | hv2/mmu.cpp:5-17 | the first entry of the current map that covers the address |
| `Processor.Hv2.GetDeviceAtPhys` | hv2/mmu.cpp:25-36 | the first device that covers the address |
| `Processor.Hv2.GetPhys` | hv2/mmu.cpp:47-91 | the physical address, with the exceptions of the translation raised in order |
| `Processor.Hv2.MmuRead` | hv2/mmu.cpp:93-107 | the value and the exceptions of a read |
| `Processor.Hv2.WriteDevice` | hv2/mmu.cpp:123 | one device is written, the others and the processor are not |
| `Processor.Hv2.MmuWrite` | hv2/mmu.cpp:109-124 | the memory and the exceptions of a write |
| `Processor.Hv2.AttachDevice` | hv2/mmu.cpp:126-128 | the device is last in the list, nothing else changes |
| `Processor.Hv2.CreateMapping` | hv2/mmu.cpp:130-132 | one entry of the current map is replaced |
| `Processor.Hv2.ExecuteAlu` | hv2/hv2.cpp:235-259 | the state, memory and slots after an ALU instruction |
| `Processor.Hv2.ExecuteBranch` | hv2/hv2.cpp:261-307 | the same after a branch |
| `Processor.Hv2.ReadCopRegister` | hv2/hv2.cpp:116-168 | the value of a coprocessor register, or none |
| `Processor.Hv2.WriteCopRegister` | hv2/hv2.cpp:116-158 | the state after writing a coprocessor register, slots and memory untouched |
| `Processor.Hv2.Mtcr` | hv2/hv2.cpp:149-158 | the state and the slots after mtcr, before its flush |
| `Processor.Hv2.Mfcr` | hv2/hv2.cpp:160-168 | the same after mfcr |
| `Processor.Hv2.ExecuteExchange` | hv2/hv2.cpp:309-319 | the state, memory and slots after mtcr or mfcr |
| `Processor.Hv2.ExecuteSystem` | hv2/hv2.cpp:328-368 | the same after a system instruction, or the exit status |
| `Processor.Hv2.Sysret` | hv2/hv2.cpp:361-366 | the state, memory and slots after sysret |
| `Processor.Hv2.EffectiveAddress` | hv2/hv2.cpp:379-425 | the address of all eight modes |
| `Processor.Hv2.Load` | hv2/hv2.cpp:430-435 | the state, memory and slots after a load |
| `Processor.Hv2.Save` | hv2/hv2.cpp:437-440 | the same after a store |
| `Processor.Hv2.AccessAt` | hv2/hv2.cpp:427-448 | the same for all four operations at a given address |
| `Processor.Hv2.ExecuteLoadStore` | hv2/hv2.cpp:370-449 | the same after a load, store or lea |
| `Processor.Hv2.ExecuteSet` | hv2/hv2.cpp:451-486 | the same after a load immediate or a set-if-condition |
| `Processor.Hv2.ClearR0` | hv2/hv2.cpp:493 | r0 is cleared and nothing else changes |
| `Processor.Hv2.Execute` | hv2/hv2.cpp:230-494 | the same after any word, with r0 cleared |
| `Processor.Hv2.Cycle` | hv2/hv2.cpp:543-575 | one call is one cycle of the machine the refinement theorems are about |
| `Loader.CopySegment` | frontend/main.cpp:48-52 | the file bytes, repeated, fill the segment's memory size, and nothing else changes |
| `Loader.LoadElf` | frontend/main.cpp:25-61 | every segment lies in RAM behind the previous one, its mapping is installed, r31 is the entry point |
| `Loader.LoadedMapFromEmpty` | frontend/main.cpp:34-57 | from an empty map the entries are exactly the segments', in order |
| `Loader.LoadedBytesReadBack` | hv2/mmu.cpp:93-107 | a byte read at vaddr + t returns byte t modulo the file size, without exceptions |
| `Loader.LoadedProgramReadsBack` | frontend/main.cpp:25-61 | in the state the loader leaves, every byte of every segment reads back |
| `Loader.LoadThenRead` | frontend/main.cpp:25-61 | on the processor itself: loading into attached RAM and reading through the MMU returns the file's byte |
| `Loader.FileBytesRepeat` | frontend/main.cpp:48-52 | the bytes of the file come in order, and again from the first |
| `Text.ValueOfPrint` | hv2/disas.cpp:175-189 | a printed number reads back, in decimal and hexadecimal |
| `Text.SetSizeLength` | hv2/disas.cpp:164-173 | a column gets its size if and only if the text fits or the column holds three dots |
| `Text.SetSizeText` | hv2/disas.cpp:164-173 | a text that fits is followed by blanks, one that does not keeps its beginning in front of three dots |
| `Disassembler.RegisterRoundTrip` | hv2/disas.cpp:136-162 | a printed register name determines the register |
| `Disassembler.MnemonicRoundTrip` | hv2/disas.cpp:191-293 | the mnemonic determines the kind of instruction |
| `Disassembler.AccessRoundTrip` | hv2/disas.cpp:297-380 | the operands of a load, store or lea determine it, in all eight modes |
| `Disassembler.OperandRoundTrip` | hv2/disas.cpp:203-413 | the operands determine the instruction of each kind |
| `Disassembler.TextRoundTrip` | hv2/disas.cpp:191-413 | mnemonic and operands read back as the instruction the executor decodes |
| `Disassembler.SameTextSameEffect` | hv2/disas.cpp:90-120 | words with the same mnemonic and operands have the same effect on every state |
| `Disassembler.UncoveredMayDiffer` | hv2/disas.cpp:284-289 | two words that print nothing and act differently |
| `Disassembler.Printer.OpcodeBytes` | hv2/disas.cpp:419-429 | the four bytes of the word, highest first |
| `Disassembler.Printer.Disassemble` | hv2/disas.cpp:415-463 | the line, its columns, the symbol heading, and the printer's new state |
| `Disassembler.LineRoundTrip` | hv2/disas.cpp:415-463 | a printed line reads back as the instruction the executor decodes |
| `Disassembler.SameLineSameEffect` | hv2/disas.cpp:415-463 | words whose lines agree after the opcode column have the same effect on every state |
| `Mnemonics.MnemonicIs` | hv2/disas.cpp:38-88 | the mnemonic of every word, in literal names by group and field |
| `Mnemonics.RegisterIs` | hv2/disas.cpp:3-36 | the register names: r0, at, a0, x0 to x24, fp, sp, lr, pc |
| `Mnemonics.AddressIs` | hv2/disas.cpp:308-378 | the bracketed address in each of the eight modes |
| `Mnemonics.ImmediateWidths` | hv2/disas.cpp:222-231 | immediates are padded to four and eight digits |
| `Mnemonics.LineColumns` | hv2/disas.cpp:415-446 | the address and the four opcode bytes of a default line read back |
| `Mnemonics.BodyWidth` | hv2/disas.cpp:415-446 | in every style a line is as wide as its columns, those of size 0 left out |
| `Mnemonics.HeadingReads` | hv2/disas.cpp:448-456 | a symbol heading is a line with the address and the name |
| `TextMode.Display.constructor` | dev/vga_textmode.hpp:173-186 | the buffers have the sizes rendering needs |
| `TextMode.Display.IndexInjective` | dev/vga_textmode.hpp:144 | every pixel of the screen has its own place, in bounds |
| `TextMode.Display.IndexOnto` | dev/vga_textmode.hpp:173-175 | every place in the buffer is the place of a pixel |
| `TextMode.Display.CellsInjective` | dev/vga_textmode.hpp:123-144 | the four loop variables never reach the same place twice |
| `TextMode.Display.PixelOfCell` | dev/vga_textmode.hpp:149-170 | the per-pixel formula at a cell's pixel is what the nested loops compute for it |
| `TextMode.Display.DrawScanline` | dev/vga_textmode.hpp:138-145 | one scanline of a glyph is drawn and nothing else changes |
| `TextMode.Display.DrawCell` | dev/vga_textmode.hpp:124-147 | one character cell is drawn and nothing else changes |
| `TextMode.Display.DrawRow` | dev/vga_textmode.hpp:123-148 | one row of characters is drawn and nothing else changes |
| `TextMode.Display.Render` | dev/vga_textmode.hpp:120-171 | every place of the screen buffer shows the per-pixel formula |
| `TextMode.Display.ScreenIs` | dev/vga_textmode.hpp:149-170 | the rendered colour of each pixel from the two bytes of its character and the font: the low four bits of the attribute where bit 7 - x is set, bits 4 to 6 where it is not, and nothing set beyond eight columns |
| `TextMode.PaletteIs` | dev/vga_textmode.hpp:18-23 | the sixteen colours by their red, green, blue and brightness bits, with brown for colour 6 |
| `Keyboard.BitsAreMasks` | dev/i8042.hpp:127-134 | every status and configuration bit operation is the mask operation of the source |
| `Keyboard.Controller.ReadPort` | dev/i8042.hpp:136-154 | the value and the new state of a port read |
| `Keyboard.Controller.WriteDataPort` | dev/i8042.hpp:158-200 | the new state of a data byte written |
| `Keyboard.Controller.WriteCommandPort` | dev/i8042.hpp:203-304 | the new state of a command and the exception it raises |
| `Keyboard.Controller.WritePort` | dev/i8042.hpp:156-306 | the new state of a write to any port and the exception it raises |
| `Keyboard.Controller.KeyDown` | dev/i8042.hpp:308-318 | the new state of a key press and the exception it raises |
| `Keyboard.RunKeepsSound` | dev/i8042.hpp:136-318 | in every run the status has no bits but the two full flags, and an empty output buffer holds 0 |
| `Keyboard.DeliveredIsFirst` | dev/i8042.hpp:156-200 | each delivered byte is the first written to the data port since the previous delivery; later ones are dropped, none is delivered twice |
| `Keyboard.EnableMutes` | dev/i8042.hpp:272-274 | the command named enable mutes the keyboard, the one named disable lets it through |
| `Keyboard.DataByteIs` | dev/i8042.hpp:158-200 | which register takes the byte after each command, and that it waits after any other |
| `Keyboard.CommandIs` | dev/i8042.hpp:203-304 | what each command puts in the output buffer, which bits it switches, and its exception |
| `Keyboard.KeyIs` | dev/i8042.hpp:308-318 | a key is lost, or put in the output buffer with or without an exception, by bits 4 and 0 of the configuration |
| `Clock.Divider.Tick` | hv2/clock.cpp:12-24 | the count after a tick and whether it fired |
| `Clock.CountBalance` | hv2/clock.cpp:12-24 | the count is n less (ratio + 1) for each firing and stays below ratio + 1 |
| `Clock.FiresFloorTimes` | hv2/clock.cpp:12-24 | after n ticks the clock has fired exactly floor(n / (ratio + 1)) times |
| `Bios.BinToBcd` | bios/util.s:1-20 | the loop packs the eight low decimal digits of any word, one to a nibble |
| `Bios.PackIsModular` | bios/util.s:10-17 | the packed digits are those of n modulo 10^8 |
| `Bios.GetIntegerLen` | bios/vga.s:173-188 | the number of hexadecimal digits, one for zero |
| `Bios.Selected` | bios/vga.s:203-209 | masking the shifted number at the top digit and moving it down selects a nibble |
| `Bios.PrintInteger` | bios/vga.s:190-223 | the hexadecimal digits are output highest first, without leading zeros |
| `Bios.PackedDigits` | bios/util.s:10-17 | the hexadecimal digits of the packed number are the decimal digits of n |
| `Bios.PrintDecimal` | bios/bios.s:56-66 | converting and printing outputs the decimal digits of n modulo 10^8, "0" for 0 |

## Left out

- The screen, command line, ELF file parsing, symbol tables, logging and the internal trace: input and output and foreign libraries. The loader takes a sequence of segments instead.
- PCI and I/O port dispatch: field packing and a first-match lookup. The keyboard controller's ports are called directly.
- The ATA and block devices: largely to-do in the source.
- The register styles and prefixes of the disassembler other than the defaults.
- vga_vt_scroll, vga_memcpy and the cursor arithmetic of vga_vt_putchar: unfinished in the source.
- The BIOS assembler is not in the repository, so the BIOS routines are modelled by their mnemonics and labels, with registers as variables, not as machine words.
- hv2_privilege_transition as a function of its own: nothing calls it; its text is that of the two privilege functions.
- Processor.Hv2.Cycle: without the trace printing. `std::exit` in the debug exit is an outcome with the status.
- Processor.Hv2.SearchMap: returns the entry; the source returns a pointer into a copy of the map that is gone by then.
- Processor.Hv2.Execute: the cases of the switch are methods of their own; the two bodies of coprocessor access share the register lookup as a value instead of a pointer.
- Processor.Hv2.PrivilegeDown: omits the source's test for level 0 after the increment, which cannot hold.
- Processor.MmioDevice.Read: multi-byte accesses are little-endian, as on the hosts the source is written for. RAM, BIOS RAM, BIOS ROM and video RAM are one class with a flag; every device has a buffer of its own.
- SequentialIsa.FlushModeRefines: assumes that the fetches of the run do not fault and that words already fetched are still what memory holds when they execute; Prefetch.PlainRunsRefine replaces the second by conditions decided before each instruction.
- DelaySlots.DelaySlotModeRefines: assumes the same; Prefetch.PlainSlotsRefine replaces it, while no transition bit of the MMU is set.
- FlatMemory.ReadIsFlat: only accesses whose bytes translate to consecutive addresses of one device, since the source translates the first only; reads, not writes, also need four bytes of room in the buffer, which the source fetches whatever the size.
- Loader.LoadElf: requires at most 32 segments, file bytes for every segment that occupies memory, and room in RAM; outside that the source divides by zero or writes out of bounds. The inner loop is Loader.CopySegment.
- Loader.LoadedBytesReadBack: needs three bytes of RAM behind the byte read, since a byte read fetches four.
- Disassembler.SameTextSameEffect: not for register branches and set-if-condition-immediate, which print a placeholder, nor for coprocessor instructions and undefined operations, which print nothing that identifies them; Disassembler.UncoveredMayDiffer shows that it would be false of these.
- Disassembler.LineRoundTrip: lines without a symbol heading, in the default columns.
- TextMode.Display.Render: the four nested loops are one method each; character widths of more than 32 bits, undefined in the source, and fonts of fewer than 256 glyphs are excluded.
- Clock.Divider.constructor: starts the count at zero; the source never sets it.
- Clock.FiresFloorTimes: over real numbers; the rounding of floats is not modelled.
- Lock.LockSpins: counts as nops the register operations into r0 that are defined for all operands, and as unconditional the branches that compare a register with itself or with r0 from the side that always holds; the ROM of Lock.RomIsLoop is assembled by hand and is not the repository's.
- Bios.PrintInteger: vga_vt_putchar appends to the output.
