# Verified models of the Mavericks compatibility tools

These tools keep current macOS programs running on OS X 10.9. The project models the parts of
them that rewrite code, rewrite images or keep shared state, and proves what each must keep:

- **avxemu's compiler** (`Decoded`, `BmiExec`, `BmiMeaning`, `ScalarMachine`, `Lowering`,
  `ShlxLowering`, `InlineBmi`, `SlotLzcnt`, `Emitter`; `VecExec`, `PackedLanes`, `SseMachine`,
  `NativeBlock`, `NativeEmitter`, `NativeDispatch`). Instructions that the processor lacks are
  compiled to ones it has. The emitted instructions are a datatype with an interpreter over
  registers, flags and memory, the reference is the emulator, and the theorems say that both leave
  the same state. `bsf` and `bsr` of zero, and flags that the manual leaves undefined, are whatever
  an arbitrary oracle says.
- **avxemu's rewriter** (`X86Len`, `OrdinaryLengths`, `VexDecode`, `VexEncode`, `LockPrefix`,
  `ControlFlow`, `Branches`, `Worklist`, `Trampoline`, `Simulation`, `LoopTargets`, `LoopExample`,
  `Patcher`, `SwitchTables`, `TableExample`, `JumpTable`, `JumpWindows`, `Relocation`, `Copying`).
  The two decoders are byte-level functions, and encoders with opcode numbers of their own say what
  they must find. A patched function is shown equivalent, step by step and in both directions, to
  the original with every fault trapped and emulated.
- **The Mach-O transformers** (`Uleb`, `BindOpcodes`, `BindProgram`, `Dylibs`, `DylibEditor`; `Words`,
  `ChainedFixups`, `ChainPacking`, `CommandRemoval`; `FunctionStarts`, `ExportTrie`, `TriePacking`,
  `HeaderGrowth`, `HeaderPlaces`, `HeaderFields`, `HeaderGrower`). dyld's reading of bind and rebase
  opcodes is an interpreter, and each tool is proved to keep what dyld makes of the image. Bind
  programs, chains, imports and trie nodes are also built from their parts, by the formats' own bit
  positions, and every reader is shown to find those parts.
- **The kevent64 stash** (`KeventQueue`, `KeventRuns`, `KeventStash`, `KeventShim`, `StashProtocol`): the table
  against an ordered map per kqueue, the fate of every event over every run, and the lock and the
  lock-free flag under arbitrary interleaving.
- **The weak-reference registry** (`WeakRegistry`): the hash table and the protocol with libobjc.
- **Mach time** (`MachTime`) and **PDEP/PEXT** (`BitDeposit`).

Code that works in place is a class or a method over arrays whose contract ties the new state to
a function of the old one; the properties are lemmas about those functions. `ByteStrings` holds
the byte type.

## Where the code does not do what is said of it

- `safe_copyable` (avxemu/src/reloc.c:89-109) is documented to reject every relative transfer. It
  asks `lde_cflow` for a target with offset 0 and takes a negative answer for "no target", so a
  conditional jump to before its own start is accepted. `Relocation.CopyableIff` gives the exact
  condition and `Relocation.BackwardJumpIsCopied` an instance.
- The ordinal map of `change_dylib` counts a dylib as deleted if any deletion names it, while the
  table drops it only if the first matching change is a deletion and never matches an upward link.
  `Dylibs.MapAgreesIff` gives the exact condition, and two lemmas give instances.
- `scan_function` (avxemu/src/tramp.c:1056-1079) patches in a second pass that, unlike the first,
  does not step over the switch tables of resolved dispatches, and may write a jump into one.
  `SwitchTables.TablesKeptIff` says exactly when every table entry survives, and
  `TableExample.TablePatched` is a function in which one does not.
- `lde_cflow` (avxemu/src/lde.c:167-191) reports no target for loop, loope, loopne and jrcxz
  (E0..E3), so `emit_run` may overwrite an instruction that such a branch leads to.
  `LoopTargets.SimulatedIff` says exactly when the patched function is still equivalent, and
  `LoopExample.BranchOverwritten` is a function for which it is not.
- `lde_cflow` takes the last four bytes of a near branch for its displacement. With the operand-size
  prefix the length decoder gives it two, so the opcode is read as part of it.
  `Branches.ReportedTaken` and `Branches.ReportedEnds` hold for every other branch, and
  `Branches.PrefixedMisread` is an instance.
- `x86_len` (avxemu/src/lde.c:82-91) gives an operand-wide immediate two bytes under the operand-size
  prefix even where REX.W overrides it. `OrdinaryLengths.LengthExact` says for which instructions the
  length is two short, `OrdinaryLengths.WideAddShort` is an instance.
- `change_dylib` (change_dylib.c:596-605, 639) sizes the buffer for the new table without the paths
  that a change lengthens, and fills it before it checks for room. `Dylibs.ScratchFitsIff` says
  when the table fits the buffer, `Dylibs.LongPathOverruns` is an instance.
- `patch_macho` takes the high byte of a full-address rebase from bits 43..50, where the chained
  pointer format puts it at 36..43, and drops it from an offset. `ChainedFixups.PlainTarget` says
  for which words the result is nevertheless right, `ChainedFixups.HighByteMisplaced` and
  `ChainedFixups.HighByteDropped` are instances.
- Lowering the image base keeps the function starts only if the leading delta is neither zero
  before nor zero modulo 2^64 after the change (`FunctionStarts.StartsKeptIff`); a padded zero
  delta is an instance (`FunctionStarts.ZeroDeltaRevived`).

## What the theorems ask for

The code relies on the following without checking it, so it appears in `requires` clauses.

- Register file and stack: a lowering starts with rsp a multiple of eight; displacements from it
  are integers.
- Trampolines: control enters a function only at instructions of the first pass, where a direct
  branch takes it (`Branches.Takes`, which knows nothing of `lde_cflow`), by falling through an
  instruction that does not end the flow (`Branches.Ends`), or by an indirect jump, which goes where
  its table says if it resolved (`JumpTable.DispatchTakesEntry`); a near branch with the
  operand-size prefix is not taken; a call (E8) is a step that comes back behind itself, and the
  target of xbegin (C7 F8) is not entered; the REX byte of a faulting instruction, if any, is
  directly before its opcode. The simulation asks that patches stay in code, which they do where no
  dispatch resolves (`Trampoline.NoTableGood`), and that no loop branch leads into a jump, which
  holds where there is none (`Simulation.NoLoopsClear`).
- Jump tables: REX.W on lea, movsxd and add; the index zero-extended where the compare is 32 bits
  wide; the table unmodified; execution entering no later than the bounding instruction.
- Bind streams and symbol table of one image do not overlap.
- Chained fixups: pointers do not overlap, segment indices below 16, no addend, effective ordinals
  from -15 up; for the rebased value, plain words as in `ChainedFixups.PlainTarget`.
- Rewriting dylibs: growing the header refuses or yields at least the bytes asked for
  (`HeaderGrowth.GapCovers`).
- Growing: data offsets zero or past the insertion point and inside the file, initializer entries
  and function starts not overlapping, sizes below 4 GiB.
- Weak references: allocation and sentinel attachment succeed, and `objc_initWeak`, `objc_copyWeak`
  and `objc_moveWeak` write to slots for which libobjc holds no registration, as the ARC runtime
  interface demands of their callers.
- Mach time: numerators below 2^30 for the error bound, and products that fit 64 bits.

## Model

| member | source | states |
|---|---|---|
| BmiExec.TrailingFrom | avxemu/src/exec_bmi.c:99-101 | the counting loop stops at the lowest set bit: every bit before the result is clear, the result bit is set unless the word ran out |
| BmiExec.LeadingFrom | avxemu/src/exec_bmi.c:102-104 | the same from the top |
| BmiExec.NonzeroHasBit | avxemu/src/exec_bmi.c:99-105 | for a nonzero source neither counting loop runs off the word, so the zero test alone decides carry |
| BmiMeaning.AndnMeaning | avxemu/src/exec_bmi.c:47-50 | bit k of andn is bit k of the second and not of the first, below the operand size and zero above; flag bits 0 and 11 clear, 6 for a zero result, 7 the top bit of the size, all others as before |
| BmiMeaning.ShlxMeaning | avxemu/src/exec_bmi.c:93 | every bit moves up by the count modulo the operand size, what leaves the size is lost, no flag changes |
| BmiMeaning.CountsMeaning | avxemu/src/exec_bmi.c:99-105 | tzcnt and lzcnt give the number of zeros below the lowest or above the highest set bit of the operand size, all of them for zero; bit 0 of the flags for a zero source, bit 6 for a count of none, 7 and 11 clear |
| Lowering.OpenSaves | avxemu/src/reloc.c:279-288 | opening a lowering steps over the red zone and saves two registers and the flags, changing nothing at or above rsp-128 |
| Lowering.CloseRestores | avxemu/src/reloc.c:270-288 | closing patches the saved flags image in place and restores registers, flags and rsp |
| Lowering.PatchImage | avxemu/src/exec_bmi.c:21-28 | clearing and or-ing the four owned bits of a saved flags image is exactly set_flags |
| Lowering.LowestIsTrailing | avxemu/src/exec_bmi.c:99-101 | the bit bsf finds is the trailing-zero count |
| Lowering.HighestIsLeading | avxemu/src/exec_bmi.c:102-104 | the bit bsr finds, subtracted from size-1, is the leading-zero count |
| Lowering.TzcntValueCorrect | avxemu/src/reloc.c:302-340 | the emitted value stage computes the trailing-zero count, with bsf of zero leaving an arbitrary register |
| Lowering.LzcntValueCorrect | avxemu/src/reloc.c:302-340 | the same for the leading-zero count, whatever bsr of zero leaves |
| Lowering.CountFlagsCorrect | avxemu/src/reloc.c:302-340 | the flag stage leaves exactly the carry and zero bits the count defines |
| Lowering.CountOutcome | avxemu/src/exec_bmi.c:99-105 | bmi_exec on tzcnt and lzcnt: result, carry from a zero source, zero from a zero result, sign and overflow clear |
| Lowering.AndnFlagsCorrect | avxemu/src/reloc.c:341-369 | the flag stage of andn leaves exactly zero and sign of the result |
| ShlxLowering.Correct | avxemu/src/reloc.c:370-397 | the push, shift-by-cl and pop sequence computes shlx for every aliasing with rcx and restores rcx, flags and rsp |
| InlineBmi.PickScratch | avxemu/src/reloc.c:290-300 | the scan always finds two distinct scratch registers, neither rsp nor one of the three to avoid, and finds the lowest ones |
| InlineBmi.TzcntCorrect | avxemu/src/reloc.c:302-340 | the whole tzcnt lowering is the emulator, all aliasing and both widths |
| InlineBmi.LzcntCorrect | avxemu/src/reloc.c:302-340 | the whole lzcnt lowering is the emulator |
| InlineBmi.AndnCorrect | avxemu/src/reloc.c:341-369 | the whole andn lowering is the emulator |
| InlineBmi.LoweringCorrect | avxemu/src/reloc.c:302-398 | main result: every instruction emit_lowering accepts is compiled to code giving the emulator's registers and flags, rsp back, all memory from rsp-128 up untouched, no misaligned access |
| Emitter.CodeBuffer.EmitLowering | avxemu/src/reloc.c:302-398 | the emitter appends exactly the lowered sequence, or declines and appends nothing |
| SlotLzcnt.BlockCorrect | avxemu/src/tramp.c:662-693 | one slot-based lzcnt block does to the spilled registers and flags what the emulator does, nothing else |
| SlotLzcnt.RunCorrect | avxemu/src/tramp.c:711-726 | main result: the same for runs of any length with any dependencies between the instructions |
| Emitter.CodeBuffer.EmitSlotLzcnt | avxemu/src/tramp.c:662-693 | the emitter appends exactly that block |
| Emitter.CodeBuffer.EmitSlotRun | avxemu/src/tramp.c:711-726 | a run is emitted whole or declined before anything is written |
| NativeBlock.EaCorrect | avxemu/src/tramp.c:402-413 | the emitted address computation equals ea_rf for every base, index, scale, displacement and rip form, modulo 2^64 |
| NativeBlock.BLoaded | avxemu/src/tramp.c:445-451 | an operand comes from the cache register exactly when it is the previous destination, otherwise from its slot or memory |
| NativeBlock.LanesAreResult | avxemu/src/exec.c:41-80 | the two 128-bit halves computed lane by lane are the 256-bit result |
| NativeBlock.WidenCorrect | avxemu/src/tramp.c:460-530 | the zero-extending move, from register or memory, both widths |
| NativeBlock.OneCorrect | avxemu/src/tramp.c:460-530 | one emitted instruction does exactly what the emulator does to ymm, gpr and flags, and leaves the cache holding the low half of its destination and the zero register zero |
| NativeBlock.RunCorrect | avxemu/src/tramp.c:565-577 | the cache invariant carries over a run |
| NativeBlock.BlockCorrect | avxemu/src/tramp.c:565-577 | main result: for every run of supported instructions the emitted block leaves the register file exactly as emulating them one by one |
| PackedLanes.LaneIs | avxemu/src/exec.c:41-80 | each lane operation on bytes as numbers: and, or and xor digit by digit in base two, the difference modulo 256, equality, and the comparison as two's complement numbers |
| NativeDispatch.DecodedIsSupported | avxemu/src/tramp.c:428-443 | what decodes to one of the nine operations without fs or gs meets the emitter's test and the block theorem's conditions; which bytes those are is VexEncode.DecodeEncoded |
| NativeEmitter.CodeBuffer.PutOne | avxemu/src/tramp.c:460-530 | one instruction emits at most 92 bytes, inside the 128-byte slack its guard leaves |
| NativeEmitter.CodeBuffer.EmitBlock | avxemu/src/tramp.c:565-577 | the block is exactly the verified sequence; no run of at most 64 supported instructions overflows the buffer or is declined |
| X86Len.SelfDelimiting | avxemu/src/lde.c:75-165 | a length found with one end is found with every end at or past the instruction's |
| X86Len.SkipPrefixes | avxemu/src/lde.c:96-110 | the prefix cursor loop |
| X86Len.Measure | avxemu/src/lde.c:96-165 | x86_len on a text computes the length function and never reads at or past its end |
| VexDecode.DecodersAgree | avxemu/src/decode.c:16-339 | whenever decode and x86_len both accept bytes with at most one REX, directly before the opcode, they accept the same length |
| VexDecode.AtLeastFour | avxemu/src/decode.c:77-339 | an instruction the emulator accepts is at least four bytes long |
| VexDecode.FirstByte | avxemu/src/decode.c:61-112 | an accepted instruction never starts with a padding byte |
| VexEncode.ModrmRead | avxemu/src/decode.c:16-58 | register, rip, base, scaled-index and absolute operands, put together from base, index, scale and displacement of each width, are read as those |
| VexEncode.DecodeEncoded | avxemu/src/decode.c:114-339 | main result: the nine vector operations, andn and shlx, put together by the manual's own opcode pages with any registers, memory operand, width, segment and prefix form, decode to that operation with those operands, whatever follows |
| VexEncode.DecodeCount | avxemu/src/decode.c:77-112 | and so do tzcnt and lzcnt of every size |
| OrdinaryLengths.LengthExact | avxemu/src/lde.c:14-165 | main result: instructions of the one-byte, 0F, 0F 38 and 0F 3A pages, put together from prefixes, REX, opcode, operand and immediate, are measured at their own length, whatever follows; two bytes short exactly with REX.W, the operand-size prefix and an operand-wide immediate |
| OrdinaryLengths.SiteExact | avxemu/src/lde.c:96-149 | of those exactly the bit scans with an F3 are reported as lzcnt or tzcnt, each as itself, with the place of its last F3 |
| OrdinaryLengths.WideAddShort | avxemu/src/lde.c:82-91 | a seven-byte add that is measured as five |
| LockPrefix.LengthFlipped | avxemu/src/lde.c:96-165 | turning the last F3 of a counting instruction into F0 keeps its length |
| LockPrefix.DecodeFlipped | avxemu/src/decode.c:82-112 | and leaves the emulator's descriptor identical |
| LockPrefix.SiteLocal | avxemu/src/decode.c:16-112 | at such a site the decoder reads nothing past the instruction |
| LockPrefix.PatchKeepsStarts | avxemu/src/lde.c:340-353 | the scan keeps every instruction boundary of the linear walk |
| LockPrefix.PatchKeepsSites | avxemu/src/lde.c:340-353 | every rewritten site decodes as before in the fully rewritten text |
| LockPrefix.PatchChangesOnlySites | avxemu/src/lde.c:340-353 | a changed byte is the last F3 of a site of the walk, now F0 |
| LockPrefix.ScanZcnt | avxemu/src/lde.c:340-353 | the in-place scan counts the sites and produces exactly the patched text |
| Worklist.Stack.Push | avxemu/src/lde.c:233-245 | marking on push: the stack never overflows, so the bounds guard never drops an unmarked offset |
| Worklist.PushTable | avxemu/src/lde.c:246-258 | exactly the targets of the entries before the first that is unreadable or leaves the function are marked |
| Worklist.EntryRead | avxemu/src/lde.c:247-257 | entry k of a table of four-byte displacements, least significant byte first, names the table's address plus displacement k |
| Worklist.Visit | avxemu/src/lde.c:246-266 | one turn of the worklist keeps the visited set closed and reachable |
| Worklist.RdZcnt | avxemu/src/lde.c:223-266 | the walk terminates and visits exactly the offsets that some route of fall-throughs, direct branches and switch-table entries reaches, each table at the address of a visited lea; while there is room every visited site, so every one on a path, is reported |
| Worklist.ClosedHoldsPath | avxemu/src/lde.c:223-266 | a closed set holding the entry holds every offset any path reaches |
| Worklist.TakenEdge | avxemu/src/lde.c:223-266 | where the processor takes a direct branch inside the function is an edge of the walk, loop branches apart |
| Trampoline.BoundaryOrder | avxemu/src/tramp.c:946-968 | no boundary of the linear walk lies inside another instruction |
| Trampoline.CollectTargets | avxemu/src/tramp.c:946-970 | pass 1: clean or not, whether an indirect jump stays unresolved, and exactly the in-function targets that cflow and the resolved tables give; that cflow's are the processor's is Simulation.TakenMarked |
| Simulation.TakenMarked | avxemu/src/tramp.c:946-970 | wherever the processor takes a direct branch of a first-pass instruction inside the function, pass 1 has marked it, loop branches apart |
| Trampoline.PassFacts | avxemu/src/tramp.c:946-970 | its instructions decode and do not overlap, and every indirect jump is resolved or noticed |
| Trampoline.OneWalk | avxemu/src/tramp.c:946-970 | where no dispatch resolves both passes walk the same instructions |
| Trampoline.NoTableGood | avxemu/src/tramp.c:1056-1079 | and there every good patch is one that the simulation covers |
| Trampoline.FaultLength | avxemu/src/tramp.c:800-815 | a faulting instruction's emulator length is its walk length, at least four |
| Simulation.StepStaysClear | avxemu/src/tramp.c:752-798 | no step of the program ever lands inside a written jump |
| Simulation.PatchedIsOriginal | avxemu/src/tramp.c:752-813 | main result: with patches in code and no loop branch into a written jump, every patched execution is an original trap-and-emulate execution with the same start and end, and never enters a written jump; branches go where prefixes, opcode and displacement send them (Branches.Takes), resolved dispatches where their tables do |
| Simulation.OriginalIsPatched | avxemu/src/tramp.c:752-813 | and every original execution ending outside the replaced runs is a patched one that never enters a written jump |
| LoopTargets.SimulatedIff | avxemu/src/tramp.c:752-798 | whatever the instructions do, patched executions are original ones exactly if no loop branch leads inside a written jump |
| Simulation.NoLoopsClear | avxemu/src/tramp.c:752-798 | a function without loop branches meets that condition whatever is patched |
| LoopExample.BranchOverwritten | avxemu/src/tramp.c:752-798 | a function patched although a jrcxz leads into the jump, and a processor on which it then does what the original cannot |
| ControlFlow.LoopUnreported | avxemu/src/lde.c:167-191 | loop, loope, loopne and jrcxz are classified as plain fall-through |
| Branches.BranchFlow | avxemu/src/lde.c:167-191 | a branch put together from prefixes, REX, opcode and displacement is reported with its end plus the displacement as target, and as ending the flow exactly for EB and E9 |
| Branches.TakenReported | avxemu/src/lde.c:167-191 | wherever the processor takes a direct branch, that is the reported target, loop branches apart |
| Branches.ReportedTaken | avxemu/src/lde.c:167-191 | what is reported as a target is where the processor goes, unless a near branch has the operand-size prefix |
| Branches.EndsReported | avxemu/src/lde.c:167-191 | EB, E9, the returns, hlt and ud2 are reported as ending the flow |
| Branches.ReportedEnds | avxemu/src/lde.c:167-191 | and nothing else is, with the same exception |
| Branches.PrefixedMisread | avxemu/src/lde.c:167-191 | 66 E9 rel16: prefix and opcode are read as part of the displacement |
| Branches.IndirectRead | avxemu/src/lde.c:207-213 | a jump through FF /4 is recognized behind any prefixes and REX |
| Branches.LeaRead | avxemu/src/lde.c:195-205 | a rip-relative lea is measured and recognized with its displacement |
| Patcher.JumpDecodes | avxemu/src/tramp.c:785-791 | the five bytes written decode as one jump to the thunk, for every rel32 |
| Patcher.GatherRun | avxemu/src/tramp.c:800-815 | a gathered run is consecutive faulting boundaries from q, none missed, and maximal: only the end of the function, a sound instruction or the limit of 64 ends it |
| Patcher.StartTest | avxemu/src/tramp.c:755-764 | emit_run's test accepts a start exactly when a patch there is good |
| Patcher.ChooseStart | avxemu/src/tramp.c:755-764 | the first good start of the run is chosen, or there is none |
| Patcher.WriteJump | avxemu/src/tramp.c:785-791 | the in-place write changes exactly the five bytes |
| Patcher.EmitRun | avxemu/src/tramp.c:752-795 | a run is patched at its first good start if that start's thunk is in reach, otherwise nothing changes |
| Patcher.ScanFunction | avxemu/src/tramp.c:1056-1079 | main result: the faulting instructions of a clean function divide into maximal runs, and the jumps written are exactly those the runs call for: good, ordered, disjoint, with only their bytes changed |
| Patcher.RunsUnique | avxemu/src/tramp.c:800-815 | there is one division into maximal runs, so the jumps are determined |
| Patcher.PatchedIff | avxemu/src/tramp.c:752-798 | an instruction of a run is taken over exactly when it is not before the run's first safe start and that start's thunk is in reach |
| Patcher.GoodStartPatched | avxemu/src/tramp.c:752-798 | with thunks in reach no instruction with a safe start is left to trap; patching nothing is refused |
| Patcher.AndnPatched | avxemu/src/tramp.c:1056-1079 | on a lone andn the division without runs is refused and its jump is required |
| SwitchTables.TablesKeptIff | avxemu/src/tramp.c:1056-1079 | main result: every entry of every resolved table survives the second pass exactly if the jump of each patched run starts in no table and, where it reaches into one, its displacement bytes are there already |
| SwitchTables.KeptIff | avxemu/src/tramp.c:752-798 | the same for any good jumps written: the opcode always changes the byte it is written over |
| SwitchTables.TablesIntact | avxemu/src/tramp.c:926-935 | jumps that stay in code leave every entry of every resolved table |
| TableExample.TablePatched | avxemu/src/tramp.c:1056-1079 | a clean function whose switch table the second pass writes a jump over, after which the entry leads elsewhere whatever the thunk's address |
| Patcher.SiteIsJump | avxemu/src/tramp.c:785-791 | at a site the patched text holds a jump to its thunk |
| Patcher.OthersIntact | avxemu/src/tramp.c:1056-1079 | at every boundary of the second pass that is no site and not overwritten the original instruction is intact |
| Patcher.CodeIntact | avxemu/src/tramp.c:1056-1079 | and so at every instruction of the first pass, the program points of the simulation, when patches stay in code |
| JumpTable.SearchRuns | avxemu/src/tramp.c:895-921 | any execution from the bounding instruction through the gap leaves the index below the bound |
| JumpTable.WindowComputes | avxemu/src/tramp.c:856-893 | lea, movsxd and add compute the address one table entry names |
| JumpTable.DispatchTakesEntry | avxemu/src/tramp.c:842-935 | every straight-line execution of an accepted window jumps to a counted table entry |
| JumpTable.BoundIndex | avxemu/src/tramp.c:895-921 | the backward loop |
| JumpTable.ResolveJumpTable | avxemu/src/tramp.c:842-935 | accepts exactly the matching windows while table slots remain, marks exactly the entries' in-function targets, keeps all other marks, and changes nothing on a refusal |
| JumpWindows.WindowResolves | avxemu/src/tramp.c:842-935 | every window put together in the shape compilers emit, with any of the three compares, zero-extending or plain, short or near ja and any registers, resolves to its table with one entry for each index up to the bound |
| JumpTable.DispatchLandsOnMark | avxemu/src/tramp.c:842-935 | main result: the jump lands on a marked target or outside the function |
| Relocation.CopyableIff | avxemu/src/reloc.c:142-175 | what safe_copyable accepts is position independent exactly when it is no conditional jump; a conditional jump is accepted exactly when its target precedes its own start |
| Relocation.BackwardJumpIsCopied | avxemu/src/reloc.c:142-144 | a concrete backward conditional jump that is accepted |
| Copying.CopiedExactly | avxemu/src/reloc.c:142-175 | an ordinary instruction, put together from its parts, is copied exactly if it uses registers only, has an opcode of one or two bytes and is no call, return or indirect jump |
| Relocation.BuildWindow | avxemu/src/reloc.c:449-462 | the window is whole copyable instructions, at least five bytes, within the limit, and no longer than needed; it is refused only at an instruction before that which cannot be decoded or copied |
| Relocation.RefusedMeansNone | avxemu/src/reloc.c:449-462 | after a refusal no run of copyable instructions is long enough for the jump |
| Relocation.FindFunction | avxemu/src/tramp.c:1003-1007 | the bisection finds the last function starting at or before the site |
| Relocation.PatchSafe | avxemu/src/tramp.c:998-1032 | 1 only if the site lies in one clean function without unresolved indirect jumps none of whose branches or table entries enters the jump; 0 only if that fails or the function is too large |
| BitDeposit.Pdep | avxemu/src/exec_bmi.c:30-35 | the loop computes the deposit |
| BitDeposit.Pext | avxemu/src/exec_bmi.c:36-41 | the loop computes the extraction |
| BitDeposit.DepositBit | avxemu/src/exec_bmi.c:30-35 | bit i of the deposit is the source bit numbered by the mask bits below i, if mask bit i is set |
| BitDeposit.ExtractBit | avxemu/src/exec_bmi.c:36-41 | each selected source bit lands at the number of mask bits below it |
| BitDeposit.ExtractDeposit | avxemu/src/exec_bmi.c:88-89 | pext(pdep(v,m),m) is v cut to popcount(m) bits |
| BitDeposit.DepositExtract | avxemu/src/exec_bmi.c:88-89 | pdep(pext(v,m),m) is v & m |
| BitDeposit.LowIsMod | avxemu/src/exec_bmi.c:36-41 | cutting to k bits is the remainder modulo 2^k |
| Uleb.DecodeEncode | macho_grow.h:103-129 | every 64-bit value written in any sufficient width up to ten bytes reads back, whatever follows |
| Uleb.StandardExamples | macho_grow.h:103-129 | the values that the standard's section on ULEB128 lists are encoded as it lists them |
| Uleb.MinLenIsMinimal | macho_grow.h:113-116 | no encoding of a value is shorter than mg_uleb_minlen |
| Uleb.Width64 | macho_grow.h:113-116 | ten bytes are enough for 64 bits |
| Uleb.DecodeAt | macho_grow.h:101-111 | the decoding loop, its ten-byte cap and 64-bit truncation |
| Uleb.EncodeFixed | macho_grow.h:118-129 | writes exactly the padded encoding, or refuses and writes nothing |
| Uleb.EncodeUnique | macho_grow.h:118-129 | an encoding of a given width is the padded encoding of its value |
| BindOpcodes.OpLocal | change_dylib.c:133-136 | the length of a bind operation depends on its own bytes |
| BindOpcodes.RenumberKeepsBinds | change_dylib.c:145-231 | main result: the renumbered stream performs the same bind operations in the same order with only the ordinal mapped (how bytes become operations is BindProgram.BindsAssembled) |
| BindOpcodes.RenumberSuffix | change_dylib.c:145-231 | same length, same operation boundaries, and each suffix is renumbered on its own |
| BindOpcodes.RenumberKeepsLazyBinds | change_dylib.c:294-304 | the same when dyld enters the lazy stream at an operation |
| BindOpcodes.BindsKnown | change_dylib.c:158-210 | an accepted stream binds nothing to a deleted or unknown library |
| BindOpcodes.RewriteUleb | change_dylib.c:179-210 | a ULEB ordinal is rewritten in its own width or refused |
| BindOpcodes.RenumberStream | change_dylib.c:145-231 | the in-place walk succeeds exactly when the stream can be renumbered, leaves Renumber's bytes (for assembled programs BindProgram.RenumberAssembled), and touches no byte outside the stream |
| BindProgram.RenumberAssembled | change_dylib.c:145-231 | main result: a program of the thirteen operations, each with its own encoding, renumbers to the program with its ordinals mapped and all else as it was, or is refused exactly if some ordinal is unknown, deleted or no longer fits its form |
| BindProgram.UnknownRefused | change_dylib.c:225-228 | an unassigned opcode is refused behind any program |
| BindProgram.BindsAssembled | change_dylib.c:145-231 | reading an assembled program performs the binds its operations call for, in order, up to the first Done |
| BindProgram.StartsAssembled | change_dylib.c:294-304 | the places where the renumbering starts an operation are the operations of the program |
| Dylibs.BuiltOrdinals | change_dylib.c:318-489 | the new table's ordinal-bearing commands are the inserts, then the survivors in order as changed, then the adds |
| Dylibs.LibraryChanged | change_dylib.c:361-442 | what the first option naming a library makes of its command: nothing, or its new path and kind with base and body kept, in the least multiple of eight that holds the path or as long as before |
| Dylibs.RpathChanged | change_dylib.c:384-418 | the same for a run path, which keeps its kind |
| Dylibs.Untouched | change_dylib.c:318-489 | a command that no option names and that is not stripped is copied |
| Dylibs.PlaceIsPosition | change_dylib.c:318-489 | where the table puts each surviving command |
| Dylibs.MapAgreesIff | change_dylib.c:606-636 | main result: the ordinal map agrees with the emitted table exactly when every deletion takes effect on the command it names: not an upward link, no earlier change of the same path |
| Dylibs.DisjointIsConsistent | change_dylib.c:606-636 | enough for that: no path both changed and deleted, no deleted library upward |
| Dylibs.UpwardDisagrees | change_dylib.c:367-374 | a deleted upward library stays in the table though the map calls it deleted |
| Dylibs.ChangeBeforeDeleteDisagrees | change_dylib.c:371-374 | a change before the deletion of the same path wins in the table |
| Dylibs.LastOrdinal | change_dylib.c:627-636 | the count checked against 253 is the number of ordinals the table gets |
| Dylibs.BuildFits | change_dylib.c:375-402 | every path still fits its command, and sizes stay multiples of eight |
| DylibEditor.BuildLcs | change_dylib.c:318-489 | the walk builds that table and reports its size, its command count, and whether anything changed |
| Dylibs.UnchangingBuild | change_dylib.c:318-489 | when no option applies the table is the old one |
| Dylibs.ScratchFitsIff | change_dylib.c:596-639 | the new table fits the buffer it is built in exactly if the changes lengthen the old commands by no more than their room and 64 bytes |
| Dylibs.LongPathOverruns | change_dylib.c:596-639 | a lengthened path whose table is 232 bytes for a buffer of 128 |
| DylibEditor.ComputeMap | change_dylib.c:606-636 | the loop fills that map, or refuses exactly past 253 ordinals |
| DylibEditor.SymKept | change_dylib.c:265-292 | a renumbered symbol names the mapped ordinal and is otherwise unchanged |
| DylibEditor.EntryRenumbered | change_dylib.c:265-292 | an undefined symbol that is no debugging entry and names library 1 to 253 gets the mapped library in the high byte of its descriptor or is refused if there is none; every other entry stays |
| DylibEditor.RenumberSymtab | change_dylib.c:265-292 | all undefined symbols renumbered, or refused because one names a deleted or unknown library |
| DylibEditor.Image.RenumberOrdinals | change_dylib.c:238-309 | refuses chained images, leaves flat ones alone, otherwise renumbers symbols and the three streams |
| DylibEditor.Image.Rewrite | change_dylib.c:606-698 | main result: succeeds exactly when the counts fit and, unless nothing changes, the table fits or may grow and the ordinals can be renumbered; then every bind operation and undefined symbol names the same command, possibly renamed |
| Words.AddAllAt | macho_grow.h:192-195 | adding a delta to words that do not overlap adds it to each exactly once |
| ChainPacking.LinkReads | patch_macho.c:172-186 | a link packed by the format's bit positions, with its stride, bind bit and import or target, is read as that link |
| ChainPacking.ImportReads | patch_macho.c:186-203 | an import packed as ordinal byte, weak bit and name offset gives that ordinal, flag and name, weak lookup becoming flat |
| ChainPacking.ChainFinds | patch_macho.c:172-255 | the walk of a packed chain finds each link where it was put and stops after the last |
| ChainPacking.ImageFound | patch_macho.c:155-256 | the walk of packed segments and pages meets exactly their links, in page order |
| ChainPacking.ImageConverted | patch_macho.c:155-260 | main result: dyld reads the streams written for packed pages as the linker's own list of rebases and binds |
| ChainPacking.RebaseWanted | patch_macho.c:233-241 | the address a packed rebase asks for is the format's, and the one written exactly without a high byte |
| ChainedFixups.Converter.WalkChain | patch_macho.c:172-255 | one chain walked in place while it is being overwritten converts exactly its links (for packed chains those that were put there, ChainPacking.ChainFinds); offsets grow, so it ends |
| ChainedFixups.Converter.Run | patch_macho.c:155-260 | all segments and pages: the rewritten bytes and both opcode streams are exactly those of the fixups met, which for packed pages are the links packed (ChainPacking.ImageFound) |
| ChainedFixups.PlainTarget | patch_macho.c:233-241 | the pointer gets the address the format defines exactly when its word has no high8 and, for full addresses, no reserved bit |
| ChainedFixups.HighByteMisplaced | patch_macho.c:233-241 | a full address for which 2^36 is written where the format says 2^56 |
| ChainedFixups.HighByteDropped | patch_macho.c:233-241 | the same word as an offset loses its high byte |
| ChainedFixups.OrdinalOpRead | patch_macho.c:204-217 | the emitted ordinal opcode selects the intended ordinal exactly down to -15 |
| ChainedFixups.RebaseStreamRead | patch_macho.c:241-246 | dyld rebases exactly the pointers the chains rebase, in order |
| ChainedFixups.BindStreamRead | patch_macho.c:186-226 | dyld performs exactly the chains' bind operations, with -3 as flat lookup of a weak import |
| ChainedFixups.SlidIsDirect | patch_macho.c:155-256 | sliding the rewritten pointers is walking the chains with that slide |
| ChainedFixups.ConversionKeepsMeaning | patch_macho.c:155-260 | main result: for every slide the emitted streams on the rewritten bytes give the bytes and the bindings the chains call for |
| ChainedFixups.Minimal | patch_macho.c:62-64 | ob_uleb writes the minimal encoding |
| CommandRemoval.SortDescending | patch_macho.c:259-269 | the exchange sort orders by descending position and permutes |
| CommandRemoval.KeptWithout | patch_macho.c:271-281 | removing the highest command first leaves the positions of the others valid |
| CommandRemoval.RemoveCommands | patch_macho.c:259-281 | what is left of the table is every byte of every other command, in order, whatever order they were noted in |
| FunctionStarts.ReencodeReads | macho_grow.h:131-144 | the patched first delta is the old plus grow, and nothing after it changes |
| FunctionStarts.StartsKeptIff | macho_grow.h:131-161 | from the lowered base the patched blob names the same functions exactly when neither the old nor the new leading delta is zero |
| FunctionStarts.ZeroDeltaRevived | macho_grow.h:131-161 | a padded zero delta that ended the list names a function after the patch |
| FunctionStarts.ReencodeBase | macho_grow.h:131-144 | patched in place, would widen, or malformed; a refusal writes nothing |
| FunctionStarts.DecodeStarts | macho_grow.h:146-161 | the decoding loop |
| FunctionStarts.StartsWritten | macho_grow.h:146-161 | deltas written in any widths are read back as the running sums from the base, up to the end or a zero byte, as far as there is room |
| ExportTrie.NodeSafe | macho_grow.h:209-247 | a safe node is well formed, exports only zero, and its children are safe one level down |
| ExportTrie.ScanSound | macho_grow.h:209-247 | main result: if the root scans safe, every reachable node is well formed and clean and lies on no cycle |
| ExportTrie.ScanExact | macho_grow.h:209-247 | the scan says safe exactly if every path from the root is within the depth limit and ends at a node that is well formed and exports no address but zero |
| TriePacking.NodeRead | macho_grow.h:209-247 | a node put together from its terminal of each kind and its children is read as that terminal and those children |
| ExportTrie.ScanTrie | macho_grow.h:209-247 | the recursion with its moving cursor terminates on any bytes and computes the scan |
| HeaderGrowth.EntriesShifted | macho_grow.h:177-200 | after the header walk every initializer section is found grow further on and passes the checks again |
| HeaderGrowth.GapCovers | macho_grow.h:255-260 | the gap is at least what was asked for exactly unless rounding wraps around |
| HeaderPlaces.GapLeast | macho_grow.h:255-260 | and then it is the least number of whole pages that is |
| HeaderPlaces.FirstSectionLeast | macho_grow.h:68-83 | the insertion point is the smallest offset of a section with data, or 4096 where none has any |
| HeaderPlaces.EntriesExact | macho_grow.h:177-200 | the initializer entries are every fourth byte of every section of that type, and nothing else |
| HeaderPlaces.BlobsFound | macho_grow.h:331-385 | the first function-starts command and the first command with an export trie are the ones audited |
| HeaderGrowth.AddressKeepsByte | macho_grow.h:397-485 | main result: every mapped address past the insertion point reads the same byte, initializer entries and leading function-starts delta apart |
| HeaderGrowth.FieldKept | macho_grow.h:85-88 | a file offset past the insertion point, bumped, points at the same byte; that every field is bumped is HeaderFields.HeaderFollows |
| HeaderFields.HeaderFollows | macho_grow.h:410-485 | main result: in every command after the header walk each of the nineteen named file offsets, section offset and reloff included, reads the byte it read before, an absent one stays absent, and names, sizes, addresses and kinds stay, the header segment's and the donor's sizes apart |
| HeaderGrowth.InitializersKept | macho_grow.h:487-495 | each initializer entry gains grow exactly once, so its address is unchanged |
| HeaderGrowth.FunctionsKept | macho_grow.h:497-511 | function starts read from the lowered base are unchanged exactly when neither leading delta is zero |
| HeaderGrowth.EntryKept | macho_grow.h:460-467 | the entry address is unchanged |
| HeaderGrowth.PagezeroBelow | macho_grow.h:418-424 | __PAGEZERO still ends at or below __TEXT |
| HeaderGrower.Audit | macho_grow.h:177-200 | the audit pass decides exactly whether every entry can gain grow |
| HeaderGrower.PatchInits | macho_grow.h:177-200 | the patch pass adds grow once to each entry and cannot fail after the audit |
| HeaderGrower.FindDonor | macho_grow.h:302-322 | a header-bearing segment exists and the last __PAGEZERO can donate |
| HeaderGrower.FirstSectionOffset | macho_grow.h:68-83 | the lowest section offset |
| HeaderGrower.Image.Grow | macho_grow.h:255-513 | all or nothing: -1 with everything unchanged, or 0 with the whole change made, which leaves every field of every command as HeaderFields.HeaderFollows says; no failure after the resize |
| KeventQueue.PutMeaning | mavericks-legacy-support/src/kevent64_shim.c:97-126 | keys keep their first-insertion order and hold the newest event |
| KeventQueue.RemoveMeaning | mavericks-legacy-support/src/kevent64_shim.c:137-159 | invalidation removes exactly the events of the filter |
| KeventQueue.LiveMeaning | mavericks-legacy-support/src/kevent64_shim.c:454-480 | exactly the events of closed descriptors are withheld |
| KeventQueue.StashRefines | mavericks-legacy-support/src/kevent64_shim.c:88-130 | stashing is inserting into the kqueue's ordered map, others untouched, unless all slots belong to others |
| KeventQueue.InvalidateRefines | mavericks-legacy-support/src/kevent64_shim.c:137-159 | invalidation is deletion from that map |
| KeventQueue.DrainRefines | mavericks-legacy-support/src/kevent64_shim.c:454-490 | draining takes the oldest events of that map |
| KeventQueue.RunConserves | mavericks-legacy-support/src/kevent64_shim.c:88-490 | for one kqueue's account: whatever the operations, each stashed event is delivered once, superseded, invalidated, stale, dropped for room, or still held, and keys stay distinct |
| KeventRuns.TableRefines | mavericks-legacy-support/src/kevent64_shim.c:88-490 | over every run of the sixteen slots, calls of all kqueues interleaved, each kqueue holds what its own ordered map would |
| KeventRuns.TableConserves | mavericks-legacy-support/src/kevent64_shim.c:88-490 | main result: over every run from the empty table each event stashed for a kqueue was handed out by its drains, superseded, invalidated, stale, dropped, or is still held |
| KeventRuns.TableInArrivalOrder | mavericks-legacy-support/src/kevent64_shim.c:97-126 | and what is held is in the order in which its keys arrived |
| KeventRuns.NoSlotMeansFull | mavericks-legacy-support/src/kevent64_shim.c:88-96 | a stash finds no slot only when sixteen other kqueues own the table |
| KeventStash.Stash.FindSlot | mavericks-legacy-support/src/kevent64_shim.c:88-96 | the slot loop: own slot first, else the first free one |
| KeventStash.Stash.StashEvents | mavericks-legacy-support/src/kevent64_shim.c:88-130 | the table after kq_stash |
| KeventStash.Stash.Compact | mavericks-legacy-support/src/kevent64_shim.c:141-156 | the in-place compaction |
| KeventStash.Stash.InvalidateFilter | mavericks-legacy-support/src/kevent64_shim.c:137-159 | the table after kq_invalidate_filter; skipping on a clear flag loses nothing |
| KeventStash.Stash.TakeFront | mavericks-legacy-support/src/kevent64_shim.c:458-486 | copying out and shifting down in place |
| KeventStash.Stash.Drain | mavericks-legacy-support/src/kevent64_shim.c:454-500 | the events delivered, the table left, and the flag cleared exactly when nothing is held |
| KeventShim.Register | mavericks-legacy-support/src/kevent64_shim.c:643-669 | only error events are returned, up to 32 others are held back, and the stash stays sound |
| KeventShim.DropDuplicates | mavericks-legacy-support/src/kevent64_shim.c:701-719 | the in-place compaction of the kernel's part |
| KeventShim.Wait | mavericks-legacy-support/src/kevent64_shim.c:671-723 | what a wait returns and leaves, for every kernel answer |
| KeventShim.FreshMeaning | mavericks-legacy-support/src/kevent64_shim.c:701-719 | exactly the kernel events whose key was not delivered survive |
| KeventShim.WaitDistinct | mavericks-legacy-support/src/kevent64_shim.c:671-723 | main result: a wait never returns two events of one key, and loses no other kernel event |
| KeventShim.Forget | mavericks-legacy-support/src/kevent64_shim.c:522-530 | after a deletion or disabling nothing of that filter is held |
| StashProtocol.StepInvariant | mavericks-legacy-support/src/kevent64_shim.c:88-159 | every step of every interleaving keeps mutual exclusion and the flag invariant |
| StashProtocol.ClearMeansEmpty | mavericks-legacy-support/src/kevent64_shim.c:61-65 | main result: in every reachable state a clear flag with the lock free means all slots are empty |
| StashProtocol.SkipMissesNothing | mavericks-legacy-support/src/kevent64_shim.c:137-138 | an invalidation that skips the lock misses nothing unless a stash is between append and flag |
| WeakRegistry.WithoutOk | mavericks-legacy-support/src/weak_custom_rr.c:99-110 | unlinking a node removes exactly its location |
| WeakRegistry.FrontOk | mavericks-legacy-support/src/weak_custom_rr.c:113-122 | linking a node at the front adds exactly its location |
| WeakRegistry.Registry.ForgetSlot | mavericks-legacy-support/src/weak_custom_rr.c:99-110 | no node is left for the location; all others are as before |
| WeakRegistry.Registry.RememberSlot | mavericks-legacy-support/src/weak_custom_rr.c:113-122 | exactly one node for the location, with the given object and owner |
| WeakRegistry.Registry.LookupSlot | mavericks-legacy-support/src/weak_custom_rr.c:125-129 | finds the node or nothing |
| WeakRegistry.Registry.ZeroFor | mavericks-legacy-support/src/weak_custom_rr.c:139-155 | every slot this code owns that names the object reads nil and is forgotten; nothing else changes |
| WeakRegistry.Registry.Deallocate | mavericks-legacy-support/src/weak_custom_rr.c:139-167 | after an object dies exactly its slots read nil, and the invariant holds |
| WeakRegistry.Registry.StoreWeak | mavericks-legacy-support/src/weak_custom_rr.c:247-281 | the store keeps the invariant, and libobjc's destroy is called only on slots given to it |
| WeakRegistry.Registry.InitWeak | mavericks-legacy-support/src/weak_custom_rr.c:283-299 | the same for a slot libobjc holds no registration for |
| WeakRegistry.Registry.LoadWeak | mavericks-legacy-support/src/weak_custom_rr.c:301-311 | a load gives nil or a live object, whoever owns the slot |
| WeakRegistry.Registry.DestroyWeak | mavericks-legacy-support/src/weak_custom_rr.c:319-336 | the slot is forgotten, and handed to libobjc only if given to it |
| WeakRegistry.Registry.CopyWeak | mavericks-legacy-support/src/weak_custom_rr.c:338-345 | into a destination that, as its callers promise, libobjc holds no registration for: the copy reads as the original |
| WeakRegistry.Registry.MoveWeak | mavericks-legacy-support/src/weak_custom_rr.c:347-350 | the same, and the original is forgotten |
| MachTime.MiddleProduct | mavericks-legacy-support/src/time.c:519-539 | exactly floor(a*b/2^32) mod 2^64, every intermediate in its type |
| MachTime.MultiplierError | mavericks-legacy-support/src/time.c:491-510 | the rounded multiplier is within half a unit |
| MachTime.Clock.Setup | mavericks-legacy-support/src/time.c:491-510 | the multiplier and resolution set up, zero on failure |
| MachTime.ShortcutAgreesIff | mavericks-legacy-support/src/time.c:546-549 | the 1:1 shortcut equals the multiply exactly below 2^62 |
| MachTime.NanosMonotone | mavericks-legacy-support/src/time.c:542-550 | time does not run backwards while the product fits |
| MachTime.NanosAccurate | mavericks-legacy-support/src/time.c:491-550 | within 1 + t/2^35 of t*numer/denom for numer below 2^30 |
| MachTime.Split | mavericks-legacy-support/src/time.c:553-575 | sec*10^9 + nsec == nanos with nsec below 10^9, despite 32-bit wrap-around |

## Left out

- Signals, machine contexts, page protection, side stacks, symbol rebinding and cpuid faking: kernel and loader plumbing.
- The thunk templates of `tramp.s`: spill, call, reload and resume are taken as the identity around the emulated run.
- Encodings of the emitted instructions: the instructions are a datatype; only the length of each SSE encoding is modelled, for the buffer bounds.
- 16-bit operands of the inline lowerings: `emit_lowering` declines them.
- Page-straddling reads of `mem_read` and `try_fixup_overread`: memory is a total map.
- The vector operations other than the nine that the native block supports, FMA and half-precision conversion: libm calls and one-line intrinsics.
- BMI operations without a lowering (blsi, blsr, blsmsk, bzhi, bextr, mulx, rorx, shrx, sarx, movbe): one-line expressions, apart from pdep and pext.
- Immediates and FMA operand order in the descriptor: no modelled emitter reads them.
- Reads of the decoder past the end of the text are an outcome of their own instead of reading whatever follows.
- Recursive-descent patching of functions that do not decode cleanly (`lde_rd_map` and the second half of `scan_function`), and `lde_scan_func`.
- The relocated block of `avxemu_relocate_block` itself, the pool cursor, and the flip of page protection while patching.
- xbegin as a relative transfer: the processors concerned do not have it.
- Load commands as bytes: they are records with their sizes; the bytes before the insertion point are not tracked when a header grows.
- Argument parsing, file I/O, diagnostics and counts of changes beyond whether there are any.
- Ordinal renumbering of chained images: the source refuses it.
- The appended LC_DYLD_INFO_ONLY command and the extension of __LINKEDIT: layout arithmetic.
- Pointer wrap-around in `mg_trie_scan` when a terminal size near 2^64 is added to an address: offsets are integers.
- The linked-list representation of the buckets: each chain is a sequence, in list order.
- Concurrency of the weak registry beyond its lock, and the race between a load and a deallocation on another thread that the source documents.
- Mach port sets and their draining, and the documented race between a stash and a sibling's wait: kernel behaviour.
- Sleep-offset estimation in `time.c`: sampling and floating point.
- DylibEditor.BuildLcs: the table is a sequence, so a write past the source's scratch buffer is not part of it; `Dylibs.ScratchFitsIff` says when there is none.
- DylibEditor.Image.Rewrite: growing the header is a parameter here, a refusal or the bytes gained; that the contents survive the move is `HeaderGrowth.AddressKeepsByte`, for `HeaderGrower`'s own image.
- NativeBlock.BlockCorrect: fs and gs operands and memory destinations are declined by the emitter, so they are not in the theorem.
- Worklist.RdZcnt: an allocation failure, where the source returns 0 sites, is not modelled.
- KeventRuns.TableConserves: events beyond 32 in one registration are dropped before they reach the queue and are not in the account; `KeventShim.Register` shows which are kept.
