# A verified model of the picoJava-II tools

The picoJava-II tool set holds an instruction-accurate simulator with data and
instruction caches, an assembler (jasm) and a disassembler (jdis). This Dafny
project models the parts of them whose state is the hardest to keep in order,
and proves what they are for. Check it with `dafny verify dfyconfig.toml`.

Each model has the form of its source: the caches, the stack machine, the
profiler, the lock registers, the interrupt scheduler and the class-file tables
are classes whose methods update fields and arrays step by step; each method is
proved against a function or a relation on values, and the theorems are lemmas
about those.

## What is modelled

**Caches** (`AddressFields`, `CacheState`, `Memory`, `DataCache`,
`CacheSystem`, `GdbInterface`, `CacheRuns`). The two-way write-back data cache
stands in front of a memory that may refuse any word. Its *view* at an address is
the byte in the valid way with the address's tag, or else the memory byte. The
invariant is that valid ways of a set have distinct tags, clean lines equal
memory, and tags and bits are in range. Every operation, successful or refused
part way through a write-back or a line fill, keeps the invariant and acts on the
view as on one flat memory. `CacheRuns.Run` says so for all runs, `Sweep` that
the index-flush loop empties the cache into memory, and `WriteThenRead` that a
debugger write is seen by debugger reads, data loads and instruction fetch.

**Assembler and disassembler** (`JavaInts`, `Opcodes`, `Jasm`, `Jdis`,
`AsmRoundTrip`, `AsmProgram`, `AsmFidelity`). Instruction encoding, switch tables,
labels and layout on one side; the walk that collects labels and the walk that
prints on the other. Both walks visit exactly the assembler's pcs, and the listing
of an assembled method is its source, with exact conditions for layout and
operands. `TableSwitch` follows a switch table on to the interpreter.

**Call frames** (`GlobalRegs`, `FrameStack`, `StackShuffles`, `CallFrames`).
Invokes, the three kinds of return, local loads and stores, constants and the dup
family run on raw memory words and four registers. They refine steps on a list of
activations; a balanced run from an invoke to its return restores the caller. The
stack-limit register is part of the model, and every refused instruction leaves
memory representing the same activations.

**Profiler** (`ProfileLog`, `ProfileLaws`, `Profiler`). The profiler's stack,
counters and caller and callee lists agree with a ghost log of block exits, and
conservation laws for inclusive and self time are proved over all runs.

**Lock registers** (`Locks`) refine a map from objects to nesting depths.
**Interrupts** (`IntrTable`, `Interrupts`): selection, dispatch and the loop head,
over all runs. **Constant pool** (`ConstPool`, `ConstPoolReader`): numbering,
writing, and reading back.

## Where the code falls short

Each of these is proved twice: by the exact condition under which the code does what
is expected of it, and by a concrete input on which it does not.

- A tableswitch takes one slot for each key in its range but its length counts the
  pairs. Where gaps or repeated keys make the two differ, the pcs behind it are wrong
  (`AsmProgram.LayoutIsExactIff`, `AsmProgram.GapMovesTheNext`,
  `AsmProgram.GapIsResolved`). With no key at all its
  range wraps around and the disassembler skips two slots that are not there
  (`AsmFidelity.TableReadIff`, `AsmFidelity.EmptySwitchIsMisread`). Execution still
  selects the right label (`TableSwitch.SwitchKeepsItsMeaning`).
- The two walks of the disassembler part company at the opcodes 186 and 204 to 208,
  whose table length is 0, and at the wide prefix before ldc, goto or jsr: the printing
  walk finds the mnemonics ldc_w, goto_w and jsr_w and skips four bytes, the label walk
  finds no length and skips one. A switch whose entry count is so far below zero that its
  length is not positive keeps both walks from advancing (`Jdis.WalksAgree`, `Jdis.LabelWalkStalls`, `Jdis.WideGotoIsPrinted`,
  `Jdis.SwitchWalksBack`).
- The listing prints bytes unsigned and shorts signed, so negative bytes, large
  constant indexes and far branches are not shown as written; and the indexed loads and
  stores and one extended opcode are not shown at all unless the disassembler is told
  that the code is for Maya (`AsmFidelity.OperandsKeptIff`,
  `AsmFidelity.NegativeAndFarAreLost`, `AsmFidelity.IndexedIsNotListed`).
- The pool length is written in sixteen bits and read as a signed short: a pool of 32768
  indexes or more does not come back. It is refused, or taken for a shorter one
  (`ConstPoolReader.PoolRoundTrip`, `ConstPoolReader.PoolIsRefused`,
  `ConstPoolReader.PoolIsTakenForEmpty`).
- A refused instruction fill has already overwritten the start of a line that stays
  valid under its old tag (`CacheSystemModel.RefusedFillUnseenIff`,
  `CacheSystemModel.RefusedFillIsSeen`). The data cache clears the valid bit first and
  has no such fault.
- Re-entering the entry point "Program" of the bottom frame counts its time twice,
  because that frame is not registered with its entry point
  (`ProfileLaws.InclusiveTime`, `ProfileLaws.RootReentryIsDoubled`). Leaving the
  bottom entry keeps its self count, which is then recorded again
  (`ProfileLaws.SelfTime`, `ProfileLaws.BottomSelfIsDoubled`).
- A dispatch stops at the first one-shot interrupt it disables. Entries due at the
  same count in later slots stay due in the past, and as the loop compares counts for
  equality, no interrupt is dispatched from then on until they are disabled
  (`IntrTable.TickMissesNoneIff`, `IntrTable.MissedSilences`,
  `IntrTable.TwoOneShotsCollide`).
- The lock registers get out of order (`Locks.KeepsOrderIff`) by a nonzero reference
  whose address bits are all zero, which hits every free register, on entry
  (`Locks.ZeroAddressHitsEmptyRegisters`) and on exit (`Locks.ZeroAddressUnderflows`);
  by the entry beyond depth 255, which leaves depth 0 in an occupied register
  (`Locks.FullBreaksOrder`); and without fast monitors by the last exit of an object,
  which leaves it at depth 0 (`Locks.SlowExitKeepsOrderIff`, `Locks.DepthZeroStays`).
- Two plain writes of stack pointer and limit can raise an exception on the way
  between two allowed pairs (`GlobalRegs.ExceptionIff`,
  `GlobalRegs.OrderOfTwoWritesMatters`); the privileged update of both cannot.

A return without locals and arguments overwrites the saved pc with its result. That is
harmless only because the code has read the word before (`FrameStack.ReturnWords`).

## Conventions

Words, bytes and addresses are bounded integers, and the source's masks, shifts and
wrap-around are written out. Memory is a sequence of bytes (caches) or of words (call
frames); refusals are two sets of word addresses, one for reads and one for writes.
Registers outside a component, enable bits, clocks, file contents and method
descriptors are parameters. A word is in big-endian order, as the processor sees it.

## Model

| member | source | states |
|---|---|---|
| AddressFields.FieldIsDivMod | tools/cache/src/util.c:33-46 | `getFieldValue`'s masks and shifts compute the field as quotient and remainder, for every address and every pair of bit positions the masks can express |
| AddressFields.SplitAddress | tools/cache/src/util.c:33-57 | index is below the number of entries, tag below 2^(31-l), and tag, index and offset together rebuild the address: no bit is lost or used twice |
| AddressFields.JoinAddress | tools/cache/src/util.c:48-57 | `makeDAddr`/`makeIAddr` is the inverse: the address joined from tag, index and offset has that tag, that index and that offset, and does not leave the address space |
| AddressFields.LineMembers | tools/cache/src/util.c:48-68 | a line is one aligned block of addresses: an address has the line's tag and index if and only if it lies in the block |
| AddressFields.TagFits | tools/cache/src/cache.h:50-79 | tags fit the 23-bit (data) and 22-bit (instruction) tag fields for every cache size |
| CacheState.EmptyCache | tools/cache/src/cache.c:1012-1022 | the state after initialisation keeps the invariant and its view is memory |
| CacheState.StoreOwnLine | tools/cache/src/cache.c:1173-1183 | any prefix of a write-back keeps the invariant and the view, so a write-back that fails part way is invisible |
| CacheState.ReplaceBackedWay | tools/cache/src/cache.c:1184-1219 | replacing a way that memory backs by an invalid way or by another line read from memory keeps the invariant and the view |
| CacheState.WriteHit | tools/cache/src/cache.c:278-317 | a store into the way that holds the line, with the dirty bit set, is that store to the flat view and keeps the invariant |
| CacheState.HitView | tools/cache/src/cache.c:341-344 | bytes in the matching way are the bytes of the view |
| CacheState.MissView | tools/cache/src/cache.c:1291-1292 | without a matching way the view is memory |
| CommonMemory.Memory.WriteLine | tools/cache/src/cache.c:1174-1183 | the word loop stops at the first refused word; exactly the words before it have been stored, and it succeeds if and only if memory refuses none |
| CommonMemory.StopsOnce | tools/cache/src/cache.c:1174-1183 | there is but one place at which the transfer of a line can stop, which the refused words alone determine |
| DataCacheModel.DataCache.constructor | tools/cache/src/cache.c:949-1026 | the cache starts empty, with 16 * 2^size entries, the invariant holding and memory in view |
| DataCacheModel.DataCache.LookUp | tools/cache/src/cache.c:1146-1153 | a reported hit is one; a miss reports the replacement way and neither way holds the tag |
| DataCacheModel.DataCache.WriteBack | tools/cache/src/cache.c:1170-1183 | view unchanged whether or not memory refuses a word; on success memory holds the line |
| DataCacheModel.DataCache.LoadWords | tools/cache/src/cache.c:1193-1210 | succeeds if and only if no word of the line is refused, and stops at the first refused one, leaving the words before it in the line; changes no other line, tag or bit |
| DataCacheModel.DataCache.Fill | tools/cache/src/cache.c:1188-1221 | view and invariant kept on success and on failure part way; success leaves the line clean, present and the other way next to be replaced, failure leaves the way invalid |
| DataCacheModel.DataCache.Select | tools/cache/src/cache.c:1130-1226 | view and invariant kept in all cases; succeeds if and only if the words that the write-back and the fill need are not refused; on success the returned way holds the address; other sets untouched; a hit changes nothing |
| DataCacheModel.DataCache.Read | tools/cache/src/cache.c:322-347 | returns the word of the flat view, which it leaves unchanged also when it fails |
| DataCacheModel.DataCache.Write | tools/cache/src/cache.c:255-320 | a byte store puts the lowest byte of the data into the view at the address, a short store the two lowest in order, a word store all four, and no other byte changes; a failing store, and one of an unknown size, leaves the view unchanged; the line is then dirty and most recently used |
| DataCacheModel.DataCache.StoreIntoLine | tools/cache/src/cache.c:278-317 | the byte loop into the selected line is a flat store, and sets the dirty bit and the replacement bit |
| DataCacheModel.DataCache.NAWrite | tools/cache/src/cache.c:176-253 | a non-allocating word store acts on the view as a flat store on a hit and on a miss; a miss fails if and only if memory refuses the word, and leaves the cache alone |
| DataCacheModel.MissStore | tools/cache/src/cache.c:199-207 | a store that goes past the cache to memory, at an address the cache does not hold, is that store to the view |
| DataCacheModel.DataCache.ZeroLine | tools/cache/src/cache.c:802-860 | exactly the 16 bytes of the line become zero in view; fails if and only if the line is not cached, the way to be replaced is dirty and memory refuses it, which leaves the view and every entry as they were |
| DataCacheModel.DataCache.FlushLine | tools/cache/src/cache.c:706-740 | view unchanged; on success the line is not cached; no other address becomes cached; fails if and only if the line is dirty and memory refuses it, with the cache untouched |
| DataCacheModel.DataCache.Drop | tools/cache/src/cache.c:721-740 | one way is written back if dirty and made invalid; view unchanged; on refusal nothing changes |
| DataCacheModel.DataCache.IndexFlushLine | tools/cache/src/cache.c:627-657 | the way chosen by bit 31 of the address is dropped from the set of the address, the view and all other sets are unchanged |
| DataCacheModel.DataCache.InvalidateLine | tools/cache/src/cache.c:761-779 | exactly the bytes of the line revert to memory; all other addresses keep their view |
| DataCacheModel.DataCache.DebugRead | tools/cache/src/cache.c:1267-1295 | returns the word of the view and changes nothing, not even replacement bits |
| CacheSystemModel.CacheSystem.constructor | tools/cache/src/cache.c:866-943 | an empty instruction cache of the size and line length that the encoded size and the processor ask for: every fetch sees memory |
| CacheSystemModel.CacheSystem.FillLine | tools/cache/src/cache.c:1244-1260 | a fill succeeds if and only if memory refuses no word; a refused fill stops at the first refused word and leaves tag and valid bit, but has overwritten the line up to there |
| CacheSystemModel.RefusedFillUnseenIff | tools/cache/src/cache.c:1241-1261 | an instruction fill that stops at a refused word goes unseen by all later fetches if and only if the old line was not valid or begins with the very words of memory before that one |
| CacheSystemModel.RefusedFillIsSeen | tools/cache/src/cache.c:1241-1261 | a fetch from address 0 delivers the first byte of another line after a refused fill: a concrete cache |
| CacheSystemModel.CacheSystem.FetchWord | tools/cache/src/cache.c:349-374 | a fetch succeeds if and only if the line is held or memory refuses no word of it, and delivers the cached word, or memory's on a miss; a hit changes nothing, a filled entry agrees with memory, a refused fill stops at the first refused word, no other entry changes |
| CacheSystemModel.CacheSystem.CacheFlush | tools/cache/src/cache.c:693-747 | both caches: view unchanged, line gone from the data cache, instruction entry invalid on success; the result address is the argument plus the increment |
| CacheSystemModel.CacheSystem.CacheIndexFlush | tools/cache/src/cache.c:616-670 | the same for the way named by set index and bit 31, failing exactly if that way is dirty and memory refuses it; the instruction entry is made invalid only with the data cache enabled, as the code has it |
| CacheSystemModel.CacheSystem.CacheInvalidate | tools/cache/src/cache.c:753-796 | the line reverts to memory without a write-back; the instruction line is not held any more |
| GdbInterface.SimRead | tools/iam/src/gdb_interface.c:190-204 | a debugger read of any address range returns the view's bytes and changes nothing |
| GdbInterface.WriteByte | tools/iam/src/gdb_interface.c:221-248 | one byte of a debugger write changes one byte of the view, leaves the address in neither cache and validates no line elsewhere |
| GdbInterface.NonCachedStore | tools/iam/src/javamem.c:466-484 | the non-cached store is a store to memory and to the view when the address is not cached |
| GdbInterface.SimWrite | tools/iam/src/gdb_interface.c:209-250 | exactly the written bytes of the view change, and instruction fetch and memory agree on them afterwards |
| GdbInterface.WriteThenRead | tools/iam/src/gdb_interface.c:190-250 | a debugger read, a data load and an instruction fetch after a debugger write all deliver the new bytes |
| CacheRuns.Perform | tools/cache/src/cache.c:176-347 | each access, successful or refused, steps the view and returns its result as one flat memory would |
| CacheRuns.Run | tools/cache/src/cache.c:176-347 | over every sequence of reads, writes, non-allocating writes, zero-lines, flushes, index flushes and debug reads, with memory refusing any words at each access, all results are those of one flat memory; an access that meets no refusal succeeds |
| CacheRuns.LoadAfterStore | tools/cache/src/cache.c:278-317 | a load of the aligned word after a byte or short store delivers the low-order bytes of the data at their place and the old bytes beside them, after a word store the data |
| CacheRuns.SweepWay | tools/cache/src/cache.c:616-670 | driving the index flush by its own result address over all indexes empties one way, keeps the other and the view |
| CacheRuns.Sweep | tools/cache/src/cache.c:616-670 | both sweeps leave no valid line and memory equal to the view before them |
| JavaInts.ShortRoundTrip | tools/jdis/MethodData.java:247-249 | `getShort` reads a written short as its signed 16-bit value |
| JavaInts.IntRoundTrip | tools/jdis/MethodData.java:251-253 | `getInt` reads a written int as its signed 32-bit value |
| Opcodes.LengthsSpelledOut | tools/jasm/RuntimeConstants.java:567-772 | which numbers are instructions, and the length of each of them, number by number |
| Jasm.OneMoreLabel | tools/jasm/SwitchTable.java:94-98 | one more pair overrides exactly its key, so the last label of a repeated key wins |
| AsmRoundTrip.SwitchEncodingLength | tools/jasm/SwitchTable.java:47-67 | the length computed for a lookupswitch is the number of bytes written for it: opcode, padding, default, count and all pairs |
| Jasm.SwitchTable.RecalcTableSwitch | tools/jasm/SwitchTable.java:73-105 | the loops find the least and the greatest key and a slot table that holds for each key in range its (last) label and elsewhere the default; the length counts the pairs, not the slots |
| Jasm.WriteTableSwitch | tools/jasm/SwitchTable.java:107-116 | the emitted fields: padding, default, low, high and one offset for each slot, all relative to the instruction |
| Jasm.WriteLookupSwitch | tools/jasm/SwitchTable.java:57-67 | the emitted fields: padding, default, count and a key and an offset for each pair |
| Jasm.WriteInstr | tools/jasm/Instr.java:43-147 | emits the encoding of each instruction form, whose bytes AsmRoundTrip.EncodingSpelledOut and AsmRoundTrip.SwitchSpelledOut give; reports a compiler error if and only if a one-byte constant index does not fit |
| AsmRoundTrip.EncodingSpelledOut | tools/jasm/Instr.java:43-147 | for every group of the instruction set, by opcode number, the exact bytes: opcode and byte for local accesses, opcode and big-endian short for field, method and class instructions, relative displacements for branches, the two-operand forms, the wide and the extended prefix, and one byte for every other opcode |
| AsmRoundTrip.SwitchSpelledOut | tools/jasm/SwitchTable.java:57-116 | the exact bytes of both switches: padding to a multiple of four, default, range or count, and every offset, with its key before it in a lookupswitch |
| Jasm.WriteOperands | tools/jasm/Instr.java:81-131 | the packing of one or two operands into a byte, short or int emits the operand fields of the form one after the other |
| Jasm.MethodData.LabelDef | tools/jasm/MethodData.java:173-189 | a label is defined at the current pc once; a second definition, or a clash with a local variable, is refused and changes nothing |
| Jasm.MethodData.LabelRef | tools/jasm/MethodData.java:191-203 | a reference marks the label used without touching where it is defined; a name of a local variable is refused |
| Jasm.MethodData.AddInstr | tools/jasm/MethodData.java:292-310 | appends one instruction at the current pc, with the switch table resolved for that pc and a missing default set to the next instruction, advances the pc by its length and keeps the layout |
| Jasm.MethodData.WriteCode | tools/jasm/MethodData.java:393-396 | writes the announced length and the encodings of all instructions in order |
| Jasm.LayOutNext | tools/jasm/MethodData.java:292-310 | the next instruction starts where the lengths of those before it add up to |
| Jdis.WalksAgree | tools/jdis/MethodData.java:161-451 | the walk that collects labels and the walk that prints advance alike on every readable byte sequence, except exactly at the opcodes 186 and 204 to 208 and at the wide prefix before ldc, goto or jsr; and they move forward except exactly there and at a switch whose entry count makes its length negative or zero |
| Jdis.LabelWalkStalls | tools/jdis/MethodData.java:201-206 | on opcode 186 the label walk does not advance: a concrete input |
| Jdis.WideGotoIsPrinted | tools/jdis/MethodData.java:294-308 | on a wide goto the printing walk advances by four, the label walk by one: a concrete input |
| Jdis.OthersArePrinted | tools/jdis/MethodData.java:285-315 | an opcode is printed as a planted byte, with its own number, if and only if it has no mnemonic; the pseudo-opcodes are printed as themselves, and the wide prefix before ldc, goto or jsr with a short operand |
| Jdis.SwitchWalksBack | tools/jdis/MethodData.java:331-342 | a tableswitch from 0 to -7 sends both walks back by eight: a concrete input |
| Jdis.MethodData.CheckForLabelRef | tools/jdis/MethodData.java:161-207 | collects exactly the branch and switch targets of the instruction and returns its length |
| Jdis.MethodData.MarkSwitch | tools/jdis/MethodData.java:164-183 | collects the default and every target of both kinds of switch |
| Jdis.MethodData.LoadLabelTable | tools/jdis/MethodData.java:209-213 | collects the targets of all instructions from the first to the last and terminates |
| Jdis.MethodData.PrintTable | tools/jdis/MethodData.java:331-355 | shows default, keys and absolute targets of both kinds of switch |
| Jdis.MethodData.PrintCode | tools/jdis/MethodData.java:453-490 | one line for each instruction, labelled if and only if its pc is a collected target |
| AsmRoundTrip.SimpleDecodes | tools/jdis/MethodData.java:312-450 | every plain form is read back at its own pc with its own opcode, operands and length |
| AsmRoundTrip.PrefixedDecodes | tools/jdis/MethodData.java:285-310 | the same for the wide and the extended forms |
| AsmRoundTrip.TableDecodes | tools/jdis/MethodData.java:331-342 | the same for tableswitch with as many pairs as slots: default, range and all targets, behind the padding |
| AsmRoundTrip.LookupDecodes | tools/jdis/MethodData.java:344-355 | the same for lookupswitch: default and all pairs |
| AsmRoundTrip.InstrDecodes | tools/jdis/MethodData.java:264-451 | every assembled instruction is printed as it was and both walks skip exactly its bytes |
| AsmRoundTrip.EncodingLength | tools/jasm/Tables.java:195-230 | the length the assembler assumes is the number of bytes it emits; for tableswitch it is off by four for each slot more than pairs |
| AsmProgram.LayoutIsExactIff | tools/jasm/MethodData.java:292-310 | every pc is the number of bytes emitted before it, and the total the current pc, if and only if every tableswitch has as many pairs as slots |
| AsmProgram.GapMovesTheNext | tools/jasm/SwitchTable.java:73-105 | behind a tableswitch for the keys 0 and 2 the next instruction is recorded at 24 and emitted at 28: a concrete program |
| AsmProgram.GapIsResolved | tools/jasm/SwitchTable.java:73-105 | the table of that program is the one that resolution makes of the keys 0 and 2 |
| AsmProgram.WalksVisitThePcs | tools/jdis/MethodData.java:468-487 | both walks of the disassembler over the assembled code visit exactly the assembler's pcs and end at the end |
| AsmProgram.ListingShowsTheSource | tools/jdis/MethodData.java:453-490 | the listing of the assembled code shows the instructions of the source in order, at their pcs, labelled where referred to |
| AsmFidelity.OperandsKeptIff | tools/jdis/MethodData.java:264-451 | the listing shows all the operands that were given and the absolute targets if and only if they are in range: bytes unsigned, shorts and constant indexes as signed, displacements fitting their field, no more operands than the opcode takes, and for indexed and one extended form the Maya option |
| AsmFidelity.NegativeAndFarAreLost | tools/jdis/MethodData.java:362-364 | a bipush of -1 is listed as 255 and a goto to 40000 as one to -25536: concrete instructions |
| AsmFidelity.IndexedIsNotListed | tools/jdis/MethodData.java:275-284 | an indexed load is not listed at all without the Maya option: a concrete instruction |
| Jdis.RefsArePrinted | tools/jdis/MethodData.java:161-207 | the collected label references are exactly the targets the listing prints |
| AsmFidelity.TargetsKeptIff | tools/jdis/MethodData.java:161-207 | the listing refers to the targets that were given if and only if a short branch reaches its own |
| AsmFidelity.TargetsAreStarts | tools/jdis/MethodData.java:209-213 | if the targets of all instructions are instruction starts or the end of the code, and short branches reach theirs, so is every target that the label walk collects, whatever the other operands are |
| AsmFidelity.LabelsAreStarts | tools/jdis/MethodData.java:209-213 | in the code of every method whose targets are defined labels or the next instruction, and whose short branches reach them, every target that the label walk collects is an instruction start or the end of the code |
| AsmFidelity.DefinedLabelIsAStart | tools/jasm/MethodData.java:173-189 | a defined label is the start of an instruction or the end of the code |
| AsmFidelity.DefaultIsAStart | tools/jasm/SwitchTable.java:47-55 | so is the default that stands for the next instruction |
| AsmFidelity.TableIsSymbolic | tools/jasm/SwitchTable.java:94-98 | every slot of a resolved tableswitch is the label of a pair or the default |
| AsmFidelity.TableReadIff | tools/jasm/SwitchTable.java:73-105 | an emitted tableswitch is skipped correctly by the disassembler if and only if it has a key, and has the announced length if and only if it has as many pairs as slots |
| AsmFidelity.EmptySwitchIsMisread | tools/jasm/SwitchTable.java:73-105 | a tableswitch without keys is written in 16 bytes and read as 24: a concrete instruction |
| AsmFidelity.AssembleAndPrint | tools/jdis/MethodData.java:453-490 | writing a method body and disassembling the bytes gives one line for each instruction, which shows it as it was given if and only if its operands are in range, with the labels collected from the bytes; with symbolic targets that are reached, all these are instruction starts or the end |
| TableSwitch.ExecutionSelects | tools/iam/src/object_ops.c:740-771 | running the interpreter's tableswitch on the emitted bytes, loaded at a word boundary, jumps to the slot of the index, or to the default outside the range |
| TableSwitch.SwitchKeepsItsMeaning | tools/iam/src/object_ops.c:740-771 | for every 32-bit index execution jumps to the label the source gives for it, the last one if repeated, or else to the default; for every key table whose range does not overflow |
| GlobalRegs.PendingIsFirst | tools/iam/src/exception.c:55-89 | whatever exceptions are raised, and in whatever order, the pending one is the one with the smallest number of all |
| GlobalRegs.Registers.UpdateOptop | tools/iam/src/global_regs.c:123-152 | an update across an enabled limit leaves the stack pointer, disables the limit and raises exception 4; any other stores the value; the limit stays at or below the stack pointer |
| GlobalRegs.Registers.UpdateOplim | tools/iam/src/global_regs.c:166-175 | stores the value without its two low bits; a limit above the stack pointer is stored without bit 31 and raises exception 4; the discipline holds afterwards in any case |
| GlobalRegs.Registers.PrivUpdateOptop | tools/iam/src/ext_ops.c:189-208 | the three stages act as one atomic update of both registers, checked once, with the values that are stored; without privilege nothing but the exception changes, to 9 unless a smaller one is pending |
| GlobalRegs.Registers.Writes | tools/iam/src/global_regs.c:116-178 | over every sequence of updates an enabled limit never exceeds the stack pointer |
| GlobalRegs.ExceptionIff | tools/iam/src/global_regs.c:116-178 | a sequence of updates raises an exception if and only if one of them crosses the limit in force when it comes |
| GlobalRegs.OrderOfTwoWritesMatters | tools/iam/src/ext_ops.c:195-206 | two plain writes in either order can raise an exception between two allowed register pairs, which is why the atomic update exists |
| FrameStack.Grown | tools/iam/src/jvm_ops.c:976-978 | a word stored at the stack pointer is one more operand, and not visible before the stack pointer moves |
| FrameStack.Shrunk | tools/iam/src/jvm_ops.c:970-971 | moving the stack pointer up removes operands and keeps every other word |
| FrameStack.LocalWritten | tools/iam/src/jvm_ops.c:132-145 | a store through the vars register writes one local of the running activation only |
| FrameStack.Entered | tools/iam/src/object_ops.c:227-275 | the words written by a call represent the caller without its arguments under a new activation whose first locals are the arguments, in place |
| FrameStack.Left | tools/iam/src/jvm_ops.c:193-207 | the words after a return represent the caller with the results on its operands |
| FrameStack.ReturnWords | tools/iam/src/jvm_ops.c:183-269 | the result copy never destroys a saved word before it is read, even with no arguments and no locals, where it does overwrite the saved pc |
| FrameStack.StepKeepsCallers | tools/iam/src/object_ops.c:196-275 | no step changes anything in an activation below the running one, except that a return gives it results |
| FrameStack.RunKeepsCallers | tools/iam/src/object_ops.c:196-275 | over any run that does not return below a depth, everything below that depth is kept |
| FrameStack.BalancedCall | tools/iam/src/object_ops.c:196-275 | any run from an invoke to its matching return starts at the code of the method, with the arguments as its first locals and its own constant pool, and ends with vars, frame and constant pool restored, at the call's pc + 3, with exactly the arguments popped and the 0, 1 or 2 result words pushed |
| StackShuffles.OperandCopied | tools/iam/src/jvm_ops.h:53-56 | copying one stack slot to another copies that operand and nothing else |
| StackShuffles.CopiesDupX1 | tools/iam/src/jvm_ops.c:985-993 | three slot copies over the unspecified new word put the top operand under the second |
| StackShuffles.CopiesDupX2 | tools/iam/src/jvm_ops.c:995-1004 | four slot copies put the top operand under the third |
| StackShuffles.CopiesDup2X1 | tools/iam/src/jvm_ops.c:1006-1016 | five slot copies put the top pair under the third operand |
| StackShuffles.CopiesDup2X2 | tools/iam/src/jvm_ops.c:1018-1029 | six slot copies put the top pair under the second pair |
| StackShuffles.TwoDoubled | tools/iam/src/jvm_ops.c:980-983 | two slot copies below the stack pointer double the top pair, unseen before the stack pointer moves |
| StackShuffles.TwoSwapped | tools/iam/src/jvm_ops.c:1031-1037 | the exchange through a temporary swaps the top two operands |
| StackShuffles.RearrangedSpelledOut | tools/iam/src/jvm_ops.c:980-1037 | what each of the six instructions makes of the top words, word by word |
| StackShuffles.ShuffleLaws | tools/iam/src/jvm_ops.c:970-1037 | `dup_x1` then `pop` is `swap`; `swap` twice and `dup2` then `pop2` change nothing |
| CallFrames.Machine.SizeAndStackReturn | tools/iam/src/iam.h:42-45 | the pc advances; the stack pointer moves unless the limit refuses it |
| CallFrames.Machine.Push | tools/iam/src/jvm_ops.c:510-520 | one operand more, or a trap with the activations unchanged, if and only if the limit is crossed |
| CallFrames.Machine.Pop | tools/iam/src/jvm_ops.c:970-971 | one operand less, memory unchanged |
| CallFrames.Machine.Dup | tools/iam/src/jvm_ops.c:976-978 | the top operand twice, or a trap with the activations unchanged |
| CallFrames.Machine.Load | tools/iam/src/jvm_ops.c:82-96 | the local on top of the operands, or a trap with the activations unchanged |
| CallFrames.Machine.LoadTwo | tools/iam/src/jvm_ops.c:97-110 | the two words of a long local in order, or a trap with the activations unchanged |
| CallFrames.Machine.Store | tools/iam/src/jvm_ops.c:132-145 | the top operand moved to the local |
| CallFrames.Machine.StoreTwo | tools/iam/src/jvm_ops.c:147-160 | the top two operands moved to the two words of the local in order |
| CallFrames.Machine.CopyItem | tools/iam/src/jvm_ops.h:53-56 | copies one operand; while an exception is pending the write to memory is suppressed and nothing changes |
| CallFrames.Machine.Lower | tools/iam/src/jvm_ops.c:985-988 | the early stack pointer update of the rearranging instructions: traps if and only if the limit is crossed, and then nothing that follows is visible |
| CallFrames.Machine.DupX1 | tools/iam/src/jvm_ops.c:985-993 | rearranges the operands as specified, or traps with all operands as they were |
| CallFrames.Machine.DupX2 | tools/iam/src/jvm_ops.c:995-1004 | the same for `dup_x2` |
| CallFrames.Machine.Dup2X1 | tools/iam/src/jvm_ops.c:1006-1016 | the same for `dup2_x1` |
| CallFrames.Machine.Dup2X2 | tools/iam/src/jvm_ops.c:1018-1029 | the same for `dup2_x2` |
| CallFrames.Machine.Dup2 | tools/iam/src/jvm_ops.c:980-983 | the same for `dup2` |
| CallFrames.Machine.Swap | tools/iam/src/jvm_ops.c:1031-1037 | swaps the top two operands and cannot trap |
| CallFrames.Machine.SetupMethodCall | tools/iam/src/object_ops.c:196-284 | the call refines the abstract invoke: it continues at the code of the method, with its constant pool, vars above the arguments, frame below the locals, the stack pointer below the five saved words, and those words written; it traps if and only if the new stack pointer would cross the limit, and then pc, vars, frame, constant pool, stack pointer and memory are unchanged |
| CallFrames.Machine.EnterFrame | tools/iam/src/object_ops.c:233-275 | the part of a call behind the accepted trial: registers and the five saved words, one by one, and no other word of memory changed |
| CallFrames.Machine.Probe | tools/iam/src/object_ops.c:218-232 | traps if and only if the limit is crossed; when it passes, the registers are as before and no later stack pointer of the call can cross the limit |
| CallFrames.Machine.MakeRoom | tools/iam/src/object_ops.c:239-243 | the loop that makes room for the locals moves the stack pointer to the end and cannot trap |
| CallFrames.Machine.WriteFive | tools/iam/src/object_ops.c:245-257 | writes return pc, vars, frame, constant pool and method address in this order below the locals |
| CallFrames.Machine.Return0 | tools/iam/src/jvm_ops.c:244-269 | refines the abstract return without result: pc, vars, frame and constant pool are the words saved at the frame, the stack pointer is the old vars |
| CallFrames.Machine.Return1 | tools/iam/src/jvm_ops.c:183-212 | refines the abstract return with one word, which takes the place at the old vars |
| CallFrames.Machine.Return2 | tools/iam/src/jvm_ops.c:214-242 | refines the abstract return with two words, which take the two places from the old vars on, in order |
| CallFrames.Machine.CopyResults | tools/iam/src/jvm_ops.c:199-229 | the first result word is copied to the vars word, the second to the word below it, read after the first was written |
| CallFrames.ReturnShape | tools/iam/src/jvm_ops.c:183-269 | after the result copy the saved words still hold the caller's vars, frame and constant pool, and the memory represents the caller with its results |
| CallFrames.Machine.DoTableSwitch | tools/iam/src/object_ops.c:740-771 | pops the index and jumps where the words of the table say |
| CallFrames.Machine.Execute | tools/iam/src/jvm_ops.c:82-269 | each instruction refines its abstract step, or traps with the activations unchanged; it traps if and only if the step makes the stack grow across the limit |
| CallFrames.Machine.RunSteps | tools/iam/src/object_ops.c:196-284 | a run of the machine over raw memory refines a run over abstract activations, up to the first step that has no room or, exactly, the first one that crosses the limit |
| ProfileLog.RecentIsOrdered | tools/iam/src/profiler.c:717-751 | moving each sampled entry to the front leaves the list free of duplicates and in most-recent-first order |
| ProfileLog.CallersAddUp | tools/iam/src/profiler.c:480-495 | the caller-list sums and the samples without caller add up to the inclusive total |
| ProfileLaws.EnterKeeps | tools/iam/src/profiler.c:393-426 | entering a block keeps the stack invariant: each frame links to the nearest older frame of its function |
| ProfileLaws.LeaveKeeps | tools/iam/src/profiler.c:447-538 | so does leaving one, which moves its span to the correction of the frame it links to |
| ProfileLaws.LeaveInclusive | tools/iam/src/profiler.c:465-481 | leaving a block keeps the inclusive-time law |
| ProfileLaws.LeaveSelf | tools/iam/src/profiler.c:463-481 | leaving a block keeps the self-time law |
| ProfileLaws.LawsOfRuns | tools/iam/src/profiler.c:393-538 | all laws hold after every sequence of counted instructions, entries and exits |
| ProfileLaws.InclusiveTime | tools/iam/src/profiler.c:393-501 | recorded inclusive total = finished outermost spans + corrections pending on the stack, for every entry point but the root's; for the root's if and only if no re-entry took time |
| ProfileLaws.NeverMoreThanCounted | tools/iam/src/profiler.c:457-501 | in every state that satisfies the laws, under any recursion, the recorded inclusive total of a function other than the root is at most the number of instructions counted |
| ProfileLaws.SelfTime | tools/iam/src/profiler.c:463-538 | recorded self samples + self time on the stack + time since the top frame's last change = instructions counted, if and only if the bottom entry recorded no self time; the root spans and the open one always add up to it |
| ProfileLaws.RootReentryIsDoubled | tools/iam/src/profiler.c:94-104 | five instructions in a re-entered root are recorded while the outermost span of its entry point is not finished, five too many: a concrete run |
| ProfileLaws.BottomSelfIsDoubled | tools/iam/src/profiler.c:503-518 | after five instructions and two exits from the bottom entry ten are recorded as self time: a concrete run |
| ProfileLaws.SelfsAddUp | tools/iam/src/profiler.c:480-481 | the self samples over all entry points are the self samples of the run |
| Profiler.ArrangeAndSample | tools/iam/src/profiler.c:721-751 | the list search and rearrangement puts the entry first, keeps all other entries and their samples in order and adds the sample |
| Profiler.Profile.constructor | tools/iam/src/profiler.c:67-111 | one root block that starts at count 0, nothing recorded, frozen and not enabled |
| Profiler.Profile.CountInstruction | tools/iam/src/iam.c:245-251 | one more instruction, if the profile is enabled and not frozen, with all laws kept |
| Profiler.Profile.InsertIntoHashtable | tools/iam/src/profiler.c:612-668 | finds the entry point or adds an empty one, and changes no other |
| Profiler.Profile.MarkBlockEnter | tools/iam/src/profiler.c:345-438 | refines the abstract entry: a new top frame for the pc, with the flags given; nothing happens while frozen; the greatest depth is kept |
| Profiler.Profile.Push | tools/iam/src/profiler.c:395-426 | the new frame starts now, with no self time, no correction and the flags given, linked to the nearest older frame of its function; the frame below is charged up to now and no other changes |
| Profiler.Profile.FindNext | tools/iam/src/profiler.c:410-424 | the downward search finds the nearest older frame of the function, if any |
| Profiler.Profile.ExitRaw | tools/iam/src/profiler.c:447-538 | refines the abstract exit with all its samples: the new log entry holds the span, the corrected inclusive count and the self count of the top frame and the entry point below it |
| Profiler.Profile.PopTop | tools/iam/src/profiler.c:473-518 | the stack part of an exit; the bottom entry stays and starts again |
| Profiler.Profile.RecordSamples | tools/iam/src/profiler.c:480-498 | after the samples every record again agrees with the log of exits |
| Profiler.Profile.MarkBlockExit | tools/iam/src/profiler.c:540-599 | leaves the block; behind an invoke-interface block the method at the pc is entered anew, behind an athrow block that is not one all frames go that do not contain the pc, down to the first that does, and behind any other block nothing more happens |
| Profiler.Profile.UnwindTo | tools/iam/src/profiler.c:567-580 | leaves frames until one contains the pc |
| Profiler.Profile.Close | tools/iam/src/profiler.c:193-214 | leaves all frames, the root last, with one log entry for each |
| Profiler.UnwindFinds | tools/iam/src/profiler.c:567-597 | unwinding stops at the innermost frame that contains the pc, or at the bottom if none does, and each frame it leaves is one recorded exit |
| Profiler.EdgesAgree | tools/iam/src/profiler.c:480-495 | the samples of the caller list for c equal those of c's callee list; both lists are without duplicates, most recent first; for every function but the root the caller-list sums add up to its inclusive total |
| Profiler.TotalsAreExact | tools/iam/src/profiler.c:457-501 | the inclusive and self laws hold of the recorded statistics in every reachable profile, and no total but the root's exceeds the instructions counted |
| Locks.LockRegisters.MonitorEnter | tools/iam/src/object_ops.c:861-931 | the loops over the two registers compute the transition function of an entry; a null reference traps and changes neither register |
| Locks.LockRegisters.MonitorExit | tools/iam/src/object_ops.c:961-1024 | and that of an exit |
| Locks.EnterSpelledOut | tools/iam/src/object_ops.c:861-931 | an entry, case by case, where not both registers hold the object: null trap, one more or the overflow of the count byte, the first free register with 0x8001, or a miss |
| Locks.ExitSpelledOut | tools/iam/src/object_ops.c:961-1024 | an exit, case by case, where not both registers hold the object: null trap, underflow, one less, the freed register, or under the release bit the release trap with the register still held at depth 0 |
| Locks.MasksAreFields | tools/iam/src/object_ops.c:872-998 | the masks of references and count words are the fields of the model |
| Locks.LockRegisters.Run | tools/iam/src/object_ops.c:861-1024 | over every sequence with nonzero masked references and no overflow, results and registers are those of a map from objects to nesting depths |
| Locks.EnterRefines | tools/iam/src/object_ops.c:861-931 | an entry refines the map: depth + 1, a new object at depth 1, or a miss with a third object or a locked header |
| Locks.ExitRefines | tools/iam/src/object_ops.c:961-1024 | an exit refines the map: depth - 1, the object removed exactly at depth 0, a miss for an object not held |
| Locks.StepRefines | tools/iam/src/object_ops.c:861-1024 | every step keeps the occupied registers distinct and equal to 0x8000 plus the depth |
| Locks.MissesExactly | tools/iam/src/object_ops.c:861-1024 | a miss trap comes exactly for an exit of an object not held, or an entry of one not held whose header is locked, without fast monitors or with both registers in use; it leaves both registers unchanged |
| Locks.KeepsOrderIff | tools/iam/src/object_ops.c:861-1024 | every instruction, with fast monitors or without, keeps the registers in order if and only if: the address bits of a nonzero reference are not all zero, or both registers are in use; an entry does not find depth 255; an exit without fast monitors is not the last one of its object |
| Locks.EnterKeepsOrderIff | tools/iam/src/object_ops.c:874-913 | an entry of a reference with address bits keeps the registers in order if and only if it does not find depth 255 |
| Locks.SlowExitKeepsOrderIff | tools/iam/src/object_ops.c:990-998 | without fast monitors an exit keeps them in order if and only if it is not the last one of its object |
| Locks.FullBreaksOrder | tools/iam/src/object_ops.c:879-889 | the entry beyond depth 255 traps and leaves a register out of order |
| Locks.DepthIsNet | tools/iam/src/object_ops.c:861-1024 | a depth is the number of entries less the number of exits carried out, and at most two objects are held |
| Locks.EmptyIffBalanced | tools/iam/src/object_ops.c:861-1024 | both registers are free if and only if entries and exits of every object balance |
| Locks.ZeroAddressHitsEmptyRegisters | tools/iam/src/object_ops.c:872-890 | a nonzero reference masked to zero increments both empty registers: a concrete input |
| Locks.DepthZeroStays | tools/iam/src/object_ops.c:879-998 | the entry after depth 255, and the last exit without fast monitors, leave an object with depth 0: concrete registers |
| Locks.ZeroAddressUnderflows | tools/iam/src/object_ops.c:972-1007 | on exit it makes both counts underflow: a concrete input |
| IntrTable.Least | tools/iam/src/interrupts.c:149-179 | selects the least enabled entry by due count, level and slot |
| IntrTable.LeastUnique | tools/iam/src/interrupts.c:149-179 | no other entry meets that description |
| IntrTable.FirstOneShot | tools/iam/src/interrupts.c:130-146 | the slot at which a dispatch stops |
| IntrTable.DispatchSpelledOut | tools/iam/src/interrupts.c:130-146 | an entry is moved on by its period or switched off exactly if it is due and no due one-shot stands before it |
| IntrTable.TickMissesNoneIff | tools/iam/src/iam.c:158-191 | a pass leaves no enabled interrupt due in the past if and only if no due entry lies behind a due one-shot |
| IntrTable.RunMissesNoneIff | tools/iam/src/iam.c:118-187 | over every run no interrupt is ever due in the past if and only if that holds at each pass |
| IntrTable.MissedSilences | tools/iam/src/iam.c:159-163 | once an enabled interrupt is due in the past, none is dispatched until it is disabled, whatever else is added or disabled |
| IntrTable.TwoOneShotsCollide | tools/iam/src/interrupts.c:130-146 | two one-shots due together leave the second one missed: a concrete run |
| IntrTable.CleanDispatchServesAll | tools/iam/src/interrupts.c:107-147 | otherwise a dispatch moves on every due repeating entry by its period, disables the due one-shot, changes nothing else and delivers the least level due |
| IntrTable.Progression | tools/iam/src/interrupts.c:135-139 | the due counts of a repeating interrupt are start + firings * period, exactly, over every run |
| IntrTable.NeverAhead | tools/iam/src/interrupts.c:135-139 | its due count is never more than one period ahead |
| Interrupts.Scheduler.constructor | tools/iam/src/interrupts.c:39-45 | an empty table with nothing scheduled |
| Interrupts.Scheduler.ScheduleNext | tools/iam/src/interrupts.c:149-179 | the loop selects the least enabled entry by due count, level and slot, and its due count, or -1 |
| Interrupts.Scheduler.Add | tools/iam/src/interrupts.c:47-105 | refuses what the code refuses and then changes no entry; otherwise the first slot neither enabled nor repeating, or a new one, holds the level, the due count icount + count, the period and the flags given, enabled, and no other entry changes; selects anew |
| Interrupts.Scheduler.Disable | tools/iam/src/interrupts.c:181-193 | the named entry is off and no other has changed; selects anew |
| Interrupts.Scheduler.Dispatch | tools/iam/src/interrupts.c:107-147 | delivers the selected entry and moves the due ones on |
| Interrupts.Scheduler.MoveOn | tools/iam/src/interrupts.c:130-146 | the loop moves repeating due entries on and stops at the first due one-shot |
| Interrupts.Scheduler.Head | tools/iam/src/iam.c:158-163 | dispatches if and only if the instruction count equals the selected due count |
| Interrupts.Scheduler.LoopPass | tools/iam/src/iam.c:158-191 | one pass refines the abstract tick; which trap is taken, or none, depends on enable bit, level and non-maskable state |
| ConstPool.ClassData.Find1 | tools/jasm/ClassData.java:114-123 | the first free index at or after the start, with the pool made to reach it |
| ConstPool.ClassData.Find2 | tools/jasm/ClassData.java:124-134 | the first two free indexes in a row at or after the start; an index exception exactly if there are none and the last index of the pool is free |
| ConstPool.ClassData.NumberizePool | tools/jasm/ClassData.java:157-183 | numbers all constants rank by rank |
| ConstPool.ClassData.NumberizeRank | tools/jasm/ClassData.java:161-182 | numbers the constants of one rank after those before |
| ConstPool.ClassData.NumberizeCell | tools/jasm/ClassData.java:171-180 | gives the next free index, and two to a long or double |
| ConstPool.ClassData.WritePool | tools/jasm/ClassData.java:313-325 | the write loop never meets a misnumbered cell, writes the length and all constants in the order of their indexes, and fails if and only if a text is too long |
| ConstPool.ClassData.WriteConst | tools/jasm/ConstValue.java:162-196 | writes tag and operands of each kind of constant, the first byte being 1, 3, 4, 5, 6, 7, 8 or the number of the pair; refuses exactly the texts of more than 65535 bytes |
| ConstPool.ConstSpelledOut | tools/jasm/ConstValue.java:162-196 | the exact bytes of each kind of constant |
| ConstPool.EntryAt | tools/jasm/ClassData.java:157-183 | the k-th numbered constant stands at its index and the next index follows, two further after a long or double |
| ConstPoolReader.ClassData.ReadCP | tools/jdis/ClassData.java:301-343 | the loop fills tags and values as the reading function says, or fails as it does |
| ConstPoolReader.ParsedIff | tools/jdis/ClassData.java:310-338 | a constant is accepted if and only if its number is known and its bytes are there |
| ConstPoolReader.ConstReadsBack | tools/jdis/ClassData.java:310-338 | each written constant is read as the same kind with the same operands, and its bytes are used up |
| ConstPoolReader.NumberingIsDense | tools/jasm/ClassData.java:157-183 | indexes start at 1, increase without gaps, two for longs and doubles, and lower ranks come before higher ones |
| ConstPoolReader.PoolRoundTrip | tools/jdis/ClassData.java:301-343 | reading a written pool rebuilds it at the same indexes if and only if it has less than 32768 of them; then each constant comes back with the number of its own kind, its value, and the indexes of the constants it refers to |
| ConstPoolReader.PoolIsRefused | tools/jdis/ClassData.java:301-306 | a class of 32767 ints is refused: a concrete class |
| ConstPoolReader.PoolIsTakenForEmpty | tools/jdis/ClassData.java:301-306 | a class of 65536 ints is read as one without constants: a concrete class |
| ConstPoolReader.ReferencesKept | tools/jdis/ClassData.java:320-334 | references read are the indexes of the constants referred to |

## Left out

- DataCacheModel.DataCache.Write: requires the stored bytes to stay inside one line; the code prints a message for a misaligned store and performs it all the same, and one that crosses the end of a line would overwrite what follows the line in its array.
- DataCacheModel.DataCache.NAWrite: word stores, the only size its caller passes, at word addresses; what memory does with a byte or short store on a miss is decided in the common memory, which is not part of this model.
- DataCacheModel.DataCache.DebugRead: word addresses only, as its callers pass; an address inside the last word of a line would make the copy run past the line.
- CacheRuns.Run: cacheInvalidate is not one of the accesses of a run, since it is meant to drop stores; `CacheInvalidate` states its effect for itself.
- CacheSystemModel.CacheSystem.CacheIndexFlush: the instruction-cache side says which entry becomes invalid, not which address it held.
- CacheRuns.SweepWay: a memory that refuses no write, which is what it takes for every line to be written back.
- CacheRuns.Sweep: the same.
- GdbInterface.SimRead: with the data cache enabled; with it disabled the read goes to memory directly.
- GdbInterface.WriteByte: without refused words and with both caches enabled; sim_write does not look at the result of its flush.
- GdbInterface.NonCachedStore: a memory that takes the word.
- GdbInterface.SimWrite: as WriteByte, and without breakpoints and protection, and outside the stack-cache window.
- GdbInterface.WriteThenRead: as SimWrite.
- Jasm.MethodData.AddInstr: the pseudo-instruction `bytecode` and the opcodes with table length 0 are excluded, and a key range of 2^31 or more, for which the code's own arithmetic overflows.
- Jasm.SwitchTable.RecalcTableSwitch: key ranges whose size is an int, as an array size has to be; the code also drops its keys and labels when they are resolved; the model keeps them, so that contracts can refer to them.
- Jasm.WriteInstr: the pseudo-instruction `bytecode`, which plants a raw byte, and the opcodes with table length 0 are excluded.
- Jdis.MethodData.CheckForLabelRef: operands and tables inside the code; where they run off its end an index exception ends the disassembly, which is not modelled.
- Jdis.MethodData.MarkSwitch: the same.
- Jdis.MethodData.PrintTable: the same.
- Jdis.MethodData.LoadLabelTable: code on which the walks agree and move forward; elsewhere one of them reads operands as opcodes or does not end.
- Jdis.MethodData.PrintCode: the same.
- AsmFidelity.OperandsKeptIff: a second argument of a branch or a switch, which the parser never gives, is not part of the source text; that of an indexed form has been packed into the first.
- AsmFidelity.AssembleAndPrint: for tableswitches with as many pairs as slots; the conditions under which others are laid out and read are stated separately.
- FrameStack.BalancedCall: steps are those the class-file verifier admits, so an instruction touches its own locals and operands only.
- CallFrames.Machine.SetupMethodCall: method address, code address, size of locals and constant pool are parameters; how each form of invoke finds them is not modelled, nor is the check for a null receiver.
- CallFrames.Machine.Execute: a step needs the words it touches to be inside memory; what happens at address 0 is not modelled.
- Interrupts.Scheduler.Add: requires a free or reusable slot; the code's own check lets one more entry in, behind the end of the array.
- Profiler.Profile.MarkBlockEnter: requires less than 4096 open blocks; with more the code prints a warning and cuts the stack pointer back.
- Profiler.Profile.InsertIntoHashtable: the hash buckets are one map by start pc; names and the lookup of a method by its address are parameters or omitted.
- Profiler.Profile.Push: less than 4096 open blocks, as MarkBlockEnter.
- Locks.LockRegisters.Run: fast monitors, references with address bits and depths up to 255: the conditions whose need Locks.KeepsOrderIff states.
- Locks.EnterRefines: the same conditions.
- Locks.ExitRefines: the same conditions.
- Locks.StepRefines: the same conditions.
- Locks.SlowExitKeepsOrderIff: references with address bits; Locks.KeepsOrderIff covers the others.
- Locks.EnterKeepsOrderIff: the same.
- Locks.LockRegisters.MonitorEnter: the lock bit of the object header is a parameter, and the trap handlers that act on a miss, a release or an overflow are not modelled.
- ConstPool.ClassData.NumberizePool: the enumeration order of the hash table is the order of the given sequence, and explicit `const` declarations, which fix indexes beforehand, are omitted.
- ConstPool.ClassData.WriteConst: text is a sequence of encoded bytes and floating-point values are their bits; encoding and decoding of both are omitted.
- Caches of size 0, diagnostic writes of tags and data, preloading, checkpoints and display of caches.
- The common memory and the stack cache: memory is flat, and the stack is part of it.
- Routing of accesses by address range, memory protection, breakpoints and endianness of the host.
- Statistics objects: a statistic is the list of its samples. Counters of 64 bits are unbounded.
- Trap entry and return, and the processor state saved for a pending exception.
- Arithmetic, object, array and field instructions, and garbage-collection traps.
- The parser and scanner of the assembler, local-variable slots, and the line, local-variable, trap and exception tables.
- The rest of the main loop: instruction limits, signals, breakpoints and tracing.
