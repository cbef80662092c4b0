# Verified model of the stack unwinder and the log buffer

This project models two parts of the repository and proves what they are for.

**The native stack unwinder** (libunwindstack, used to symbolise crashes). Given the
registers of a frame and the memory of a process it finds the unwind description of the
function at the pc and computes the registers of the caller. Modelled are the DWARF
path (call-frame interpreter with its row and CIE caches, expression machine, in-place
evaluation of rules over a register snapshot, the two readers of .eh_frame, the
.eh_frame_hdr table), the ARM path (exception index, extraction of unwind instructions,
their interpreter, the whole step), and the readers around them (LEB128 cursor, symbol
cache, memory maps, word-granular ptrace reads).

**The Zap log buffer.** Messages are appended to a block with a header; full blocks are
handed to a background thread that writes them to a file.

Every component has the form of its source: objects that update fields are classes whose
methods are proved against a specification function, loops are loops with invariants, and
the theorems are lemmas about the specification. The main results are:

- **DWARF frames** (`FrameUnwind.StepToCaller`, `FrameUnwind.UnwindingUndoesPrologue`):
  from the bytes of a section whose instructions describe a function's prologue, a step at
  any pc of the function gives back the caller's stack pointer, return address and saved
  registers.
- **DWARF step** (`DwarfUnwind.Step`, `EhUnwind.StepOverBytes`): for every state of the
  caches and every visiting order, the caller's registers are the simultaneous assignment
  of freshly interpreted rules; from the bytes of an assembled section, those of the row
  that its instructions stand for. `DwarfRules` says what each rule means. Exact conditions
  for the parts stand beside it: when a row is right on its whole range
  (`CfaRows.RowUniformity`), when the row cache is transparent
  (`DwarfStep.RowCacheTransparency`), when the snapshot is faithful
  (`DwarfEval.SnapshotExactly`).
- **Call-frame programs** (`CfaCode.InterpreterBuildsRow`): the byte interpreter builds the
  row table of the instruction list.
- **ARM step** (`ArmStep.StepReachesCaller`): lookup, extraction and evaluation together
  undo any prologue, with the exact exception.
- **Expressions** (`DwarfPostfix.PostfixCompilation`): postfix code computes its tree.
- **.eh_frame** (`EhCode.CieReads`, `EhCode.FdeReads`, `EhLayout.SectionIndexed`): what an
  assembler writes is parsed and indexed as written; on every byte content the two parsers
  agree where both accept (`EhFrame.ParsersAgree`).
- **Lazy indexes** (`Symbols`, `EhFrameHdr`, `ExidxIndex` against what was written), **chunked
  readers** (`MapsChunking.ChunkingExactly`, `PtraceRead.Read`).
- **Zap** (`ZapBuffer.ConservationExactly`, `ZapFlush.NoStrandedChunk`,
  `ZapFlush.MessagesReachTheFile`): nothing is lost, duplicated or stranded.

Where a promised property is false of the code, the model keeps the code, a lemma gives
a failing input, and the exact condition is proved:

- a final DW_CFA_restore_state also restores the start of an older row, so that row claims
  too much (`CfaRows.StaleRestoreBreaksRow`, `CfaRows.UniformUnlessStaleRestore`);
- the FDE lookup counts a range's end as inside, so a start that touches the previous FDE
  may not be found (`DwarfStep.ThirdStartIsShadowed`, `DwarfStep.LookupExactly`);
- the snapshot's map is built with a 32-bit shift, so registers 32 apart share a bit
  (`DwarfEval.SharedBitMisreads`, `DwarfEval.SnapshotExactly`);
- a signed LEB128 number below -2^62 is not read back (`DwarfMemory.LeastSlebNotRead`,
  `DwarfMemory.SlebRoundTrip`);
- an unwind string whose last operand byte is 0xb0 gets no finish instruction
  (`ArmStep.AmbiguousPrologueFails`, `ArmStep.StepReachesCaller`);
- a map line longer than the buffer ends the reading with success
  (`MapsChunking.LongLineIsDropped`), and behind a bad line the start of the buffer is
  read again, so the list depends on the chunking (`MapsChunking.ChunkingMatters`); both
  in `MapsChunking.ChunkingExactly`;
- overlapping functions make a name depend on earlier lookups
  (`Symbols.OverlapDependsOnHistory`, `Symbols.HistoriesOfTwo`);
- the header reports a completely full log buffer as empty
  (`ZapBuffer.FullBufferReadsEmpty`, `ZapBuffer.LogLenExactly`);
- chunks that wait together reach the file newest first (`ZapFlush.NewestFirst`,
  `ZapFlush.OrderExactly`).

Operations that C++ leaves undefined have an outcome of their own, `UndefinedOperation`:
shifts by the width of the word or more (of a nonzero group or the sign in the DWARF
readers, in an expression), the least number divided by -1 or negated, a factored offset
beyond 64 bits, DW_OP_pick of the element behind the last one. No theorem gives them a
value. `UndefinedShift` is the same for the ARM stack adjustment.

The code departs from its standards in a few operations; the model follows the code:
DW_CFA_offset_extended is not factored, DW_OP_bra subtracts its offset on zero, comparisons
are unsigned.

Shared modules: `Machine` (bytes, words, partial memory), `Operands` (encoded operand lists),
`EncodedValues` (encoded pointers), `Sorting` (what std::sort promises), `IndexLookup` (the binary search of the address
tables). Memory is an immutable partial map from addresses to bytes; reads of /proc are an arbitrary chunking of a text;
the interleaving of threads is an arbitrary sequence of steps.

## Model

| member | source | states |
|---|---|---|
| `DwarfMemory.UlebRoundTrip` | library_hawkeye/src/main/cpp/external/libunwindstack-ndk/DwarfMemory.cpp:47-60 | Any ULEB128 string of a value below 2^64, minimal or padded, at any address and whatever follows it, decodes to that value and moves the cursor by exactly its length. |
| `DwarfMemory.SlebRoundTrip` | library_hawkeye/src/main/cpp/external/libunwindstack-ndk/DwarfMemory.cpp:62-79 | An SLEB128 string of any length that denotes a 64-bit value is read as that value, with the cursor behind it, if and only if it has at most nine bytes or its sign bit is clear; otherwise the sign extension shifts by 64 or more and is reported as undefined. |
| `DwarfMemory.SlebReadsExactly` | library_hawkeye/src/main/cpp/external/libunwindstack-ndk/DwarfMemory.cpp:62-79 | Of the 64-bit numbers in their shortest encoding, exactly those from -2^62 up are read back. |
| `DwarfMemory.LeastSlebNotRead` | library_hawkeye/src/main/cpp/external/libunwindstack-ndk/DwarfMemory.cpp:72-75 | The ten bytes 80 80 80 80 80 80 80 80 80 7f denote -2^63 and are its shortest encoding, and reading them is undefined. |
| `DwarfMemory.EncodeUlebValue` | library_hawkeye/src/main/cpp/external/libunwindstack-ndk/DwarfMemory.cpp:47-60 | The shortest unsigned encoding of every natural number denotes that number (partner of the decoder). |
| `DwarfMemory.EncodeSlebValue` | library_hawkeye/src/main/cpp/external/libunwindstack-ndk/DwarfMemory.cpp:62-79 | The shortest signed encoding of every integer denotes that integer. |
| `DwarfMemory.SignedOfPattern` | library_hawkeye/src/main/cpp/external/libunwindstack-ndk/DwarfMemory.cpp:62-79 | The delivered pattern, read as two's complement, is the signed value again for every 64-bit value. |
| `DwarfMemory.GroupAdded` | library_hawkeye/src/main/cpp/external/libunwindstack-ndk/DwarfMemory.cpp:47-60 | Adding a shifted seven-bit group to the running 64-bit sum equals combining the groups: the sum stays the denoted value modulo 2^64. |
| `DwarfMemory.Cursor.ReadULEB128` | library_hawkeye/src/main/cpp/external/libunwindstack-ndk/DwarfMemory.cpp:47-60 | The byte loop computes the denoted value modulo 2^64 and the cursor behind it, fails when the string is not readable to its end, and reports as undefined a nonzero group shifted by 64 or more. |
| `DwarfMemory.Cursor.ReadSLEB128` | library_hawkeye/src/main/cpp/external/libunwindstack-ndk/DwarfMemory.cpp:62-79 | The same for the signed reader, including the sign extension above the last group and its own undefined shift. |
| `DwarfMemory.EncodedSizeIsStride` | library_hawkeye/src/main/cpp/external/libunwindstack-ndk/DwarfMemory.cpp:81-103 | A successful read in a fixed-size, non-aligned encoding moves the cursor by exactly GetEncodedSize. |
| `EncodedValues.EncodedRoundTrip` | library_hawkeye/src/main/cpp/external/libunwindstack-ndk/DwarfMemory.cpp:105-242 | A number in any of the eleven formats, at any address, is read back added to exactly the base that the encoding names, absolute, pc, text, data or function, with the cursor behind its bytes; without that base it is not read. |
| `EncodedValues.PlainRoundTrip` | library_hawkeye/src/main/cpp/external/libunwindstack-ndk/DwarfMemory.cpp:150-242 | The bare format of an encoding, as pc ranges use it, reads the number back without a base. |
| `EncodedValues.AlignedRoundTrip` | library_hawkeye/src/main/cpp/external/libunwindstack-ndk/DwarfMemory.cpp:154-164 | An aligned pointer is the word at the next multiple of its size, with the cursor behind it. |
| `DwarfCfa.Interpreter.GetLocationInfo` | library_hawkeye/src/main/cpp/external/libunwindstack-ndk/DwarfCfa.cpp:40-143 | The interpreter loop terminates (measure: end offset minus cursor) and computes the run that the row theorems are about, including the remembered states it starts from and leaves behind. |
| `CfaCode.InterpreterBuildsRow` | library_hawkeye/src/main/cpp/external/libunwindstack-ndk/DwarfCfa.cpp:40-143 | For every list of call-frame instructions, assembled into bytes, from every state and at every pc, the byte interpreter returns exactly the row that applying the instructions in turn gives. |
| `CfaCode.InsnEffect` | library_hawkeye/src/main/cpp/external/libunwindstack-ndk/DwarfCfa.cpp:314-513 | Each instruction, with any operands that fit (signed ones from -2^62 up), decodes to its own length and changes the row as the instruction says, or fails for the reason it has: no CIE rules, a CFA that is not a register, or a product beyond 64 bits, which is undefined. |
| `Operands.ArgsRead` | library_hawkeye/src/main/cpp/external/libunwindstack-ndk/DwarfCfa.cpp:108-135 | Any list of operands, fixed-size, LEB128 or block, is read back as encoded and leaves the cursor behind it. |
| `CfaCode.ShapeKinds` | library_hawkeye/src/main/cpp/external/libunwindstack-ndk/DwarfCfa.cpp:515-730 | The operand table lists, for every instruction with its own opcode, the kinds of its operands. |
| `CfaRows.RowUniformity` | library_hawkeye/src/main/cpp/external/libunwindstack-ndk/DwarfCfa.cpp:40-143 | A row returned for [start, end) is what every pc of that range would get, by the same computation, if and only if no executed instruction was issued above the row's start. |
| `CfaRows.UniformUnlessStaleRestore` | library_hawkeye/src/main/cpp/external/libunwindstack-ndk/DwarfCfa.cpp:386-401 | For programs that only move forward, uniformity is lost exactly when the last executed instruction is a restore_state that brings back an earlier row's start. |
| `CfaRows.StaleRestoreBreaksRow` | library_hawkeye/src/main/cpp/external/libunwindstack-ndk/DwarfCfa.cpp:392-401 | A concrete six-byte program whose last row claims a range on part of which another CFA rule holds. |
| `CfaRows.RowCoversPc` | library_hawkeye/src/main/cpp/external/libunwindstack-ndk/DwarfCfa.cpp:40-143 | The returned row contains the pc it was computed for, and so do the starts of the rows left remembered. |
| `CfaRows.RememberRestore` | library_hawkeye/src/main/cpp/external/libunwindstack-ndk/DwarfCfa.cpp:386-401 | At every nesting depth a balanced remember_state ... restore_state segment gives back the whole rule map, the CFA rule included, and the stack of remembered rows. |
| `CfaRows.RememberRestoreInCode` | library_hawkeye/src/main/cpp/external/libunwindstack-ndk/DwarfCfa.cpp:386-401 | The same for encoded programs: from the bytes of a balanced segment the interpreter goes on behind it with the rules and remembered rows from before it. |
| `CfaRows.NestedKeepsStack` | library_hawkeye/src/main/cpp/external/libunwindstack-ndk/DwarfCfa.cpp:386-401 | A segment that closes only what it opens leaves every older remembered row in place and changes the depth by its own balance. |
| `CfaCode.RestoreInCode` | library_hawkeye/src/main/cpp/external/libunwindstack-ndk/DwarfCfa.cpp:92-106 | A restore instruction in an encoded program, packed or not: the run goes on with exactly the CIE's rule for the register, or none, and every other rule as it was. |
| `CfaRows.RunThrough` | library_hawkeye/src/main/cpp/external/libunwindstack-ndk/DwarfCfa.cpp:40-143 | The byte-level run through a decoded segment equals the effect of its instruction list, so the segment laws hold for encoded programs. |
| `DwarfStep.LookupExactly` | library_hawkeye/src/main/cpp/external/libunwindstack-ndk/DwarfSection.cpp:872-895 | On ordered disjoint FDEs the lookup finds the FDE that covers pc unless the previous FDE ends exactly there and is met first by the binary search; then it fails. |
| `DwarfStep.CieCacheTransparent` | library_hawkeye/src/main/cpp/external/libunwindstack-ndk/DwarfSection.cpp:564-585 | With CIE programs that stay still and close what they remember, a cached CIE gives the same row as interpreting it again, and the cache stays right for every FDE and pc. |
| `DwarfStep.CieRulesAgree` | library_hawkeye/src/main/cpp/external/libunwindstack-ndk/DwarfSection.cpp:564-585 | The rules a CIE yields are the same from every FDE that uses it and at every pc. |
| `DwarfStep.StepIsCorrect` | library_hawkeye/src/main/cpp/external/libunwindstack-ndk/DwarfSection.cpp:56-80 | One Step from good caches answers with the rules of a fresh interpretation whenever there is one, never with wrong ones, and leaves good caches (hit, miss and emplace over an existing key). |
| `DwarfStep.HistoryIsCorrect` | library_hawkeye/src/main/cpp/external/libunwindstack-ndk/DwarfSection.cpp:56-80 | The same for every position of every history of Step calls. |
| `DwarfStep.RowCacheTransparency` | library_hawkeye/src/main/cpp/external/libunwindstack-ndk/DwarfSection.cpp:56-80 | All histories get correct answers if and only if every computable row is right on the whole range it claims. |
| `DwarfStep.WellBehavedIsTransparent` | library_hawkeye/src/main/cpp/external/libunwindstack-ndk/DwarfSection.cpp:56-80 | Forward-moving FDE programs that stay in their range and do not end in a stale restore_state make the cache transparent: every history gets the freshly interpreted rules. |
| `DwarfStep.ShadowedStartDependsOnHistory` | library_hawkeye/src/main/cpp/external/libunwindstack-ndk/DwarfSection.cpp:872-895 | At a start address shadowed by the previous FDE's inclusive end a cold Step fails and a warmed one answers. |
| `DwarfStep.ThirdStartIsShadowed` | library_hawkeye/src/main/cpp/external/libunwindstack-ndk/DwarfSection.cpp:872-895 | Three functions in a row: Step at the start of the third fails, and after a Step inside it the same call answers. |
| `DwarfStep.DwarfSection.GetFdeFromPc` | library_hawkeye/src/main/cpp/external/libunwindstack-ndk/DwarfSection.cpp:38-54 | The binary search loop, with the exclusive-end test applied to its result. |
| `DwarfStep.DwarfSection.GetCfaLocationInfo` | library_hawkeye/src/main/cpp/external/libunwindstack-ndk/DwarfSection.cpp:564-585 | Row and CIE cache afterwards, with the remembered states that the CIE program passes on to the FDE program. |
| `DwarfStep.DwarfSection.Step` | library_hawkeye/src/main/cpp/external/libunwindstack-ndk/DwarfSection.cpp:56-80 | Choice of rules and both caches afterwards, as in the histories of the theorems above. |
| `DwarfEval.SnapshotExactly` | library_hawkeye/src/main/cpp/external/libunwindstack-ndk/RegsInfo.h:35-60 | Whatever registers with rules are overwritten, reads through the snapshot give the old values, if and only if no register with a rule shares its bit (number modulo 32) with another register of the machine. |
| `DwarfEval.SmallMachinesSeparate` | library_hawkeye/src/main/cpp/external/libunwindstack-ndk/RegsInfo.h:35-60 | Machines of at most 32 registers always meet that condition. |
| `DwarfEval.Arm64Separate` | library_hawkeye/src/main/cpp/external/libunwindstack-ndk/RegsInfo.h:35-60 | On ARM64, with 33 registers, that condition is exactly that neither x0 nor the pc has a rule. |
| `DwarfEval.SharedBitMisreads` | library_hawkeye/src/main/cpp/external/libunwindstack-ndk/RegsInfo.h:35-60 | Saving a register makes a read of one that shares its bit return an uninitialised slot. |
| `DwarfEval.WritesTracked` | library_hawkeye/src/main/cpp/external/libunwindstack-ndk/RegsInfo.h:35-60 | With separate bits, after any sequence of distinct writes: saved means written, the slot holds the old value, and unwritten registers are unchanged. |
| `DwarfEval.ApplyingAll` | library_hawkeye/src/main/cpp/external/libunwindstack-ndk/DwarfSection.cpp:183-262 | One write per rule, each computed from the old registers, leaves the simultaneous assignment behind. |
| `DwarfRules.RuleOfInstruction` | library_hawkeye/src/main/cpp/external/libunwindstack-ndk/DwarfSection.cpp:126-181 | For each instruction that gives a register a rule: the caller's value is the word stored at its place relative to the CFA, the sum, the other register, the value of the expression's tree or the word at it; there is none exactly if memory is missing, the register is not one of the machine or the tree has a fault. |
| `DwarfRules.CfaOfInstruction` | library_hawkeye/src/main/cpp/external/libunwindstack-ndk/DwarfSection.cpp:206-230 | For each instruction that defines the CFA: it is the named register plus the offset, whichever of the two the instruction changes, or the value of the expression's tree. |
| `DwarfRules.ExpressionMeans` | library_hawkeye/src/main/cpp/external/libunwindstack-ndk/DwarfSection.cpp:82-110 | An expression in a rule, found by its length and end, has the value of its tree, and none if the tree has a fault. |
| `DwarfRules.UndefinedRules` | library_hawkeye/src/main/cpp/external/libunwindstack-ndk/DwarfSection.cpp:172-255 | An undefined return address makes the pc zero; any other undefined register, and one without a rule, keeps its value. |
| `DwarfEval.Registers.EvalRegister` | library_hawkeye/src/main/cpp/external/libunwindstack-ndk/DwarfSection.cpp:126-181 | One rule applied in place succeeds exactly when it has a value under the old registers, which DwarfRules.RuleOfInstruction gives for every kind, and extends the writes by that value. |
| `DwarfEval.Registers.Eval` | library_hawkeye/src/main/cpp/external/libunwindstack-ndk/DwarfSection.cpp:183-262 | For every visiting order of the rule map, from a snapshot it clears itself: success exactly when the simultaneous assignment is defined, and then the register file is that assignment, with pc and sp set from return register and CFA. |
| `DwarfUnwind.Step` | library_hawkeye/src/main/cpp/external/libunwindstack-ndk/DwarfSection.cpp:56-80 | A whole step: whatever earlier steps cached and however the rules are visited, it succeeds exactly if the freshly interpreted rules can be applied, the new registers are what they assign to the old ones, and caches stay good. |
| `EhUnwind.StepOverBytes` | library_hawkeye/src/main/cpp/external/libunwindstack-ndk/DwarfSection.cpp:38-80 | The same from bytes: for a section of CIEs and FDEs as an assembler writes them, with disjoint ranges, well-shaped instruction lists and the index of the indexing pass, and a pc that the lookup finds, the step fails exactly if the row of the written instructions, under the written factors, fails or a rule has no value, and otherwise the registers become what that row assigns under the written return address register. |
| `EhUnwind.UnitParsed` | library_hawkeye/src/main/cpp/external/libunwindstack-ndk/DwarfSection.cpp:436-562 | The FDE that the parser finds at a recorded offset has exactly the factors, return register, range and instruction extents that were written. |
| `EhUnwind.AssembledIsIndexed` | library_hawkeye/src/main/cpp/external/libunwindstack-ndk/DwarfSection.cpp:763-870 | Any order of the functions of an assembled section is an index as the pass makes it. |
| `FrameUnwind.StepToCaller` | library_hawkeye/src/main/cpp/external/libunwindstack-ndk/DwarfSection.cpp:38-262 | A frame theorem over bytes: if the instructions of a function's FDE and CIE describe its prologue (pushes, stack adjustments, a frame register; return address on the stack or in a register), then at every pc of it, in the prologue or behind it, whatever the body did to other registers and memory and whatever was cached, the step succeeds with exactly the caller's stack pointer, the return address as pc, the stored words in the saved registers and the others as they were. |
| `FrameUnwind.UnwindingUndoesPrologue` | library_hawkeye/src/main/cpp/external/libunwindstack-ndk/DwarfSection.cpp:183-262 | Executing the call and any part of the prologue from any memory and then evaluating the row of that pc gives back every register of the caller, with the return address as pc. |
| `FrameUnwind.PrologueShaped` | library_hawkeye/src/main/cpp/external/libunwindstack-ndk/DwarfSection.cpp:56-80 | Lists that describe a prologue have the shape that the step over bytes asks for. |
| `DwarfFrame.RowOfPrologue` | library_hawkeye/src/main/cpp/external/libunwindstack-ndk/DwarfCfa.cpp:40-143 | The row at any pc of such a list has a CFA rule for the current base register and depth, an offset rule for each register pushed so far, and no other. |
| `DwarfFrame.RowOfEntry` | library_hawkeye/src/main/cpp/external/libunwindstack-ndk/DwarfSection.cpp:564-585 | The CIE's instructions describe the frame at the function's first instruction. |
| `DwarfFrame.FrameUnwinds` | library_hawkeye/src/main/cpp/external/libunwindstack-ndk/DwarfSection.cpp:126-262 | Evaluating a row that describes the frame gives exactly the stored words, the caller's stack pointer and the return address, for any registers and memory that keep the frame. |
| `DwarfFrame.StepBuilds` | library_hawkeye/src/main/cpp/external/libunwindstack-ndk/DwarfSection.cpp:126-181 | Each step of a prologue keeps the layout true: saved words stay in their slots below the caller's stack pointer. |
| `EhUnwind.ShapedIsUnwindable` | library_hawkeye/src/main/cpp/external/libunwindstack-ndk/DwarfSection.cpp:56-80 | The shape of the instruction lists alone (CIE lists without moves that close what they remember; FDE lists that advance inside their range and do not end in restore_state; rule registers with bits of their own) makes the row cache transparent and the snapshot faithful at every pc. |
| `CfaShape.AdvancesMoveForward` | library_hawkeye/src/main/cpp/external/libunwindstack-ndk/DwarfCfa.cpp:319-338 | Assembled advances that stay below the end of the range never move backwards at any pc, and the row ends at the range's end at the latest. |
| `CfaShape.NoStaleRestore` | library_hawkeye/src/main/cpp/external/libunwindstack-ndk/DwarfCfa.cpp:392-401 | An assembled list that does not end in restore_state never ends in a stale one, wherever a pc stops it. |
| `CfaShape.RowLeavesOpen` | library_hawkeye/src/main/cpp/external/libunwindstack-ndk/DwarfCfa.cpp:386-401 | Without moves every instruction is executed, and what stays remembered is what the list leaves open. |
| `CfaShape.RowKeys` | library_hawkeye/src/main/cpp/external/libunwindstack-ndk/DwarfCfa.cpp:340-513 | A row has rules only for registers that its instructions, or the CIE's, name. |
| `EhUnwind.LookupsAgree` | library_hawkeye/src/main/cpp/external/libunwindstack-ndk/DwarfSection.cpp:38-54 | Searching the sorted index, parsing the FDE at the offset found and testing its end is looking the pc up among the parsed FDEs. |
| `EhUnwind.FreshRowOfCode` | library_hawkeye/src/main/cpp/external/libunwindstack-ndk/DwarfSection.cpp:564-585 | The fresh row of an FDE is the row that the instructions of its CIE, then its own, stand for. |
| `DwarfOp.StackMachine.Eval` | library_hawkeye/src/main/cpp/external/libunwindstack-ndk/DwarfOp.cpp:38-88 | Evaluation, with its two unrolled first operations, equals the plain loop; it performs at most 1001 decodes; the dex pc marker is reported exactly for expressions that open with it. |
| `DwarfOp.StackMachine.EvalRest` | library_hawkeye/src/main/cpp/external/libunwindstack-ndk/DwarfOp.cpp:73-87 | The loop behind the unrolled operations, with its iteration limit. |
| `DwarfOp.StackMachine.Decode` | library_hawkeye/src/main/cpp/external/libunwindstack-ndk/DwarfOp.cpp:90-123 | One operation read and executed step by step: opcode, table, required depth, operands, handler. The new cursor, stack and register flag, or the error, are those of the operation's specification. |
| `DwarfOp.StackMachine.ReadOperandList` | library_hawkeye/src/main/cpp/external/libunwindstack-ndk/DwarfOp.cpp:112-121 | The operand loop leaves the operands of the table, each cut to the address width, or the error of the first one that cannot be read. |
| `DwarfOp.StackMachine.CallHandler` | library_hawkeye/src/main/cpp/external/libunwindstack-ndk/DwarfOp.cpp:167-490 | The handlers, which pop, push and overwrite the stack in place, have the specified effect on stack, cursor and register flag, for every opcode of the table. |
| `DwarfOp.StackMachine.OnTwo` | library_hawkeye/src/main/cpp/external/libunwindstack-ndk/DwarfOp.cpp:265-427 | The two-operand handlers pop one value and overwrite the next with the combination; division by zero, out-of-range shifts and the least number divided by -1 stop with their own errors. |
| `DwarfOp.BitwiseOperators` | library_hawkeye/src/main/cpp/external/libunwindstack-ndk/DwarfOp.cpp:265-371 | The and, or and xor the handlers compute, bit by bit. |
| `DwarfOp.TruncatesTowardZero` | library_hawkeye/src/main/cpp/external/libunwindstack-ndk/DwarfOp.cpp:272-283 | Signed division leaves a remainder smaller than the divisor with the sign of the dividend. |
| `DwarfOpLaws.DerefLoads` | library_hawkeye/src/main/cpp/external/libunwindstack-ndk/DwarfOp.cpp:168-179 | DW_OP_deref replaces an address by the word whose bytes are stored there; one unreadable byte, or an empty stack, is an error. |
| `DwarfOpLaws.DerefSizeLoads` | library_hawkeye/src/main/cpp/external/libunwindstack-ndk/DwarfOp.cpp:182-198 | DW_OP_deref_size loads as many bytes as its operand says, from one to the size of a word; other sizes are errors. |
| `DwarfOpLaws.DupLaw` | library_hawkeye/src/main/cpp/external/libunwindstack-ndk/DwarfOp.cpp:210-213 | Decoding the byte of dup repeats the top of the stack. |
| `DwarfOpLaws.DropLaw` | library_hawkeye/src/main/cpp/external/libunwindstack-ndk/DwarfOp.cpp:216-219 | drop removes the top. |
| `DwarfOpLaws.OverLaw` | library_hawkeye/src/main/cpp/external/libunwindstack-ndk/DwarfOp.cpp:222-225 | over copies the second element. |
| `DwarfOpLaws.PickLaw` | library_hawkeye/src/main/cpp/external/libunwindstack-ndk/DwarfOp.cpp:228-236 | pick copies the element at its index; at the depth of the stack that is undefined, beyond it an error. |
| `DwarfOpLaws.SwapLaw` | library_hawkeye/src/main/cpp/external/libunwindstack-ndk/DwarfOp.cpp:239-244 | swap exchanges the two topmost elements and keeps the rest. |
| `DwarfOpLaws.RotLaw` | library_hawkeye/src/main/cpp/external/libunwindstack-ndk/DwarfOp.cpp:247-253 | rot moves the top below the next two elements and keeps the rest. |
| `DwarfOpLaws.NotLaw` | library_hawkeye/src/main/cpp/external/libunwindstack-ndk/DwarfOp.cpp:318-321 | The complement inverts exactly the bits of the word. |
| `DwarfOpLaws.SkipLaw` | library_hawkeye/src/main/cpp/external/libunwindstack-ndk/DwarfOp.cpp:430-435 | skip goes on at the signed 16-bit displacement from behind itself. |
| `DwarfOpLaws.BraLaw` | library_hawkeye/src/main/cpp/external/libunwindstack-ndk/DwarfOp.cpp:373-385 | bra pops a value and goes on at the displacement, or, on zero, at its opposite. |
| `DwarfOpLaws.RegLaw` | library_hawkeye/src/main/cpp/external/libunwindstack-ndk/DwarfOp.cpp:444-448 | A register name pushes its number and marks the result as a register. |
| `DwarfOpLaws.RegxLaw` | library_hawkeye/src/main/cpp/external/libunwindstack-ndk/DwarfOp.cpp:451-456 | The same for a register number in an operand. |
| `DwarfOpLaws.NopLaw` | library_hawkeye/src/main/cpp/external/libunwindstack-ndk/DwarfOp.cpp:483-485 | nop only moves the cursor. |
| `DwarfOpLaws.DexPcExactly` | library_hawkeye/src/main/cpp/external/libunwindstack-ndk/DwarfOp.cpp:45-72 | An expression is marked as a dex pc exactly if it begins with the six bytes of const4u DEX1, drop. |
| `DwarfPostfix.PostfixCompilation` | library_hawkeye/src/main/cpp/external/libunwindstack-ndk/DwarfOp.cpp:38-123 | Evaluating the postfix code of any expression tree of at most 1000 operations leaves exactly its value, loads being the little-endian numbers in memory, or fails with exactly its first fault (unreadable memory, illegal value, or an operation C++ leaves undefined); larger trees never succeed. |
| `DwarfPostfix.CodePushes` | library_hawkeye/src/main/cpp/external/libunwindstack-ndk/DwarfOp.cpp:167-370 | In the middle of any evaluation the code of a subtree pushes the subtree's value and leaves everything below it untouched, or ends the evaluation with the subtree's fault. |
| `DwarfPostfix.ConstOperand` | library_hawkeye/src/main/cpp/external/libunwindstack-ndk/DwarfOp.h:193-330 | Every constant opcode reads back the constant encoded behind it, fixed-size, signed or LEB128 (signed from -2^62 up). |
| `DwarfPostfix.BinaryStep` | library_hawkeye/src/main/cpp/external/libunwindstack-ndk/DwarfOp.cpp:265-370 | Each binary operator combines the two topmost values in tree order and keeps the rest of the stack, or stops with its fault. |
| `EhFrame.CieReadersAgree` | library_hawkeye/src/main/cpp/external/libunwindstack-ndk/DwarfSection.cpp:619-733 | Where the indexing pass and the full parser both accept a CIE they agree on its segment size; the pass has the first pointer encoding of the augmentation data, the parser the last. |
| `EhFrame.SameReading` | library_hawkeye/src/main/cpp/external/libunwindstack-ndk/DwarfSection.cpp:459-562 | Both look at the same bytes of an FDE in the same format if and only if the segment size is at most one and the first and last pointer encodings have the same format. |
| `EhFrame.PassRecords` | library_hawkeye/src/main/cpp/external/libunwindstack-ndk/DwarfSection.cpp:763-870 | Every record of the pass comes from an FDE read under the very CIE that the FDE points to. |
| `EhFrame.ParsersAgree` | library_hawkeye/src/main/cpp/external/libunwindstack-ndk/DwarfSection.cpp:735-870 | On every byte content, each FDE that the pass records and the parser accepts under such a CIE has the same pc range in both, as far as an address of this width can hold it. |
| `EhCode.CieReads` | library_hawkeye/src/main/cpp/external/libunwindstack-ndk/DwarfSection.cpp:281-433 | A CIE assembled in either width, in version 1, 3 or 4, with any augmentation string over z, R, L, P and other characters, its data and any bytes behind them, and any instruction bytes, is read back: factors, return register, segment size, the last range and LSDA encodings, and the instructions from their first byte to their last. The parser fails exactly if a personality pointer is relative to a base that is not set. |
| `EhCode.FdeReads` | library_hawkeye/src/main/cpp/external/libunwindstack-ndk/DwarfSection.cpp:459-562 | An FDE assembled under such a CIE is read back: the CIE it points to, the function's start and end, and its instructions from their first byte to their last, behind segment selector, LSDA pointer and further data. The parser fails exactly if a base is missing. |
| `EhCode.WalkReads` | library_hawkeye/src/main/cpp/external/libunwindstack-ndk/DwarfSection.cpp:409-432 | The walk over any augmentation data collects the range encodings in their order and the last LSDA encoding. |
| `EhCode.HeaderReads` | library_hawkeye/src/main/cpp/external/libunwindstack-ndk/DwarfSection.cpp:459-510 | The length field of either width leads to the end of the entry, and the id and the cursor behind it are those written. |
| `EhCode.UsualCie` | library_hawkeye/src/main/cpp/external/libunwindstack-ndk/DwarfSection.cpp:281-433 | The usual zR CIE of x86-64, byte for byte: its instructions are the bytes 17 to 24, its ranges are encoded as 0x1b. |
| `EhLayout.SectionIndexed` | library_hawkeye/src/main/cpp/external/libunwindstack-ndk/DwarfSection.cpp:763-870 | The indexing pass over any assembled section, groups of a CIE and its FDEs, records exactly the functions of nonzero length, each with the offset of its FDE and the range that was written. |
| `EhLayout.CieIndexed` | library_hawkeye/src/main/cpp/external/libunwindstack-ndk/DwarfSection.cpp:619-733 | The pass accepts every assembled CIE that the parser accepts and stops reading inside it. |
| `EhFrame.FdeIndex.CreateSortedFdeList` | library_hawkeye/src/main/cpp/external/libunwindstack-ndk/DwarfSection.cpp:763-870 | The entry loop and the sort: success exactly when the pass succeeds, and then an ordered permutation of its records. |
| `ArmExidx.Unwinder.Decode` | library_hawkeye/src/main/cpp/external/libunwindstack-ndk/ArmExidx.cpp:657-691 | One instruction on the mutable state: new data, vsp and registers, or the status it stops with; every successful one consumes a byte. |
| `ArmExidx.Unwinder.Eval` | library_hawkeye/src/main/cpp/external/libunwindstack-ndk/ArmExidx.cpp:693-697 | The loop terminates and ends in the state, or with the status, that decoding to the first stop gives. |
| `ArmExidx.Unwinder.PopMask` | library_hawkeye/src/main/cpp/external/libunwindstack-ndk/ArmExidx.cpp:182-240 | The loop over a register mask pops the selected registers from consecutive words. |
| `ArmExidx.Unwinder.PopRange` | library_hawkeye/src/main/cpp/external/libunwindstack-ndk/ArmExidx.cpp:267-306 | The loop over r4 up to r[4+nnn], with r14 if asked. |
| `ArmExidx.Unwinder.AddUleb` | library_hawkeye/src/main/cpp/external/libunwindstack-ndk/ArmExidx.cpp:375-398 | The ULEB128 stack adjustment read byte by byte from the data; a number beyond 32 bits needs an undefined shift and is reported as such. |
| `ArmPrologue.ExecuteSaves` | library_hawkeye/src/main/cpp/external/libunwindstack-ndk/ArmExidx.cpp:182-450 | Running a prologue leaves every register it pushes in its stack slot: later steps write only below. |
| `ArmPrologue.StepUndone` | library_hawkeye/src/main/cpp/external/libunwindstack-ndk/ArmExidx.cpp:563-634 | The instruction that describes a prologue step undoes exactly that step, for every kind of step. |
| `ArmPrologue.UnwindThrough` | library_hawkeye/src/main/cpp/external/libunwindstack-ndk/ArmExidx.cpp:657-697 | The instructions of any prologue in reverse order, whatever follows them and whatever the body did to the registers, lead to the original vsp and registers. |
| `ArmPrologue.FrameRegisterFirst` | library_hawkeye/src/main/cpp/external/libunwindstack-ndk/ArmExidx.cpp:242-265 | A description that starts with a frame register takes the vsp from there, whatever it was, so the body may have moved sp freely. |
| `ArmPrologue.MovesFirst` | library_hawkeye/src/main/cpp/external/libunwindstack-ndk/ArmExidx.cpp:657-680 | Moves of the vsp in front of other instructions only change where these start. |
| `ArmPrologue.UnwindUndoesPrologue` | library_hawkeye/src/main/cpp/external/libunwindstack-ndk/ArmExidx.cpp:657-697 | With a finish instruction behind them evaluation finishes with the original vsp, the pushed registers restored and no other touched; without one it stops as truncated. |
| `ArmPrologue.RunAndUnwind` | library_hawkeye/src/main/cpp/external/libunwindstack-ndk/ArmExidx.cpp:657-697 | The same over the memory that running the prologue produces, from any memory and any registers. |
| `ArmPrologue.MaskListsBits` | library_hawkeye/src/main/cpp/external/libunwindstack-ndk/ArmExidx.cpp:182-240 | A mask lists exactly the registers whose bits it has, in ascending order. |
| `ArmPrologue.HighPop` | library_hawkeye/src/main/cpp/external/libunwindstack-ndk/ArmExidx.cpp:182-240 | A pop of r4 to r15, sp and pc included: the listed registers take the stored words, a popped sp becomes the vsp, and a popped pc is remembered as such. |
| `ArmPrologue.EmptyPopRefuses` | library_hawkeye/src/main/cpp/external/libunwindstack-ndk/ArmExidx.cpp:182-198 | An empty mask refuses to unwind. |
| `ArmExtract.ExtractEntryData` | library_hawkeye/src/main/cpp/external/libunwindstack-ndk/ArmExidx.cpp:42-170 | Extraction with its loop over the table words, all rejections included. |
| `ArmExtract.ExtractionRoundTrip` | library_hawkeye/src/main/cpp/external/libunwindstack-ndk/ArmExidx.cpp:42-170 | Every opcode string packed inline, under personality 0, 1 or 2, or in the generic model, at any even offset and across any displacement, as bytes in memory, is extracted exactly, ended by 0xb0; a displacement whose field reads as 1 is rejected as not to be unwound. |
| `ArmExtract.FieldLeads` | library_hawkeye/src/main/cpp/external/libunwindstack-ndk/ArmExidx.cpp:70-110 | A prel31 field in memory leads to the address it was written for, forwards or backwards. |
| `ArmExtract.MarkRejects` | library_hawkeye/src/main/cpp/external/libunwindstack-ndk/ArmExidx.cpp:52-70 | A second word of one is rejected as a function that cannot be unwound. |
| `ArmExtract.OddEntryRejects` | library_hawkeye/src/main/cpp/external/libunwindstack-ndk/ArmExidx.cpp:42-50 | An odd entry offset is refused. |
| `ArmStep.StepExidx` | library_hawkeye/src/main/cpp/external/libunwindstack-ndk/ElfInterfaceArm.cpp:109-168 | A whole step composed of lookup, extraction and evaluation, over the index's memo: its result is that of the memo-free composition. |
| `ArmStep.StepReachesCaller` | library_hawkeye/src/main/cpp/external/libunwindstack-ndk/ElfInterfaceArm.cpp:109-168 | From any pc of a function whose index entry describes its prologue, in any form and padding, with the stack pointer in sp or at any distance from a frame register, a step yields the caller's sp, pushed registers and return address. It fails exactly when the last operand byte equals the finish opcode and nothing pads it, and ends the stack exactly when the table's displacement reads as the mark of the last frame. |
| `ArmStep.MarkedIsLast` | library_hawkeye/src/main/cpp/external/libunwindstack-ndk/ElfInterfaceArm.cpp:109-142 | A step in a function whose entry has the cannot-unwind mark ends the stack with success. |
| `ArmStep.RefusalIsLast` | library_hawkeye/src/main/cpp/external/libunwindstack-ndk/ElfInterfaceArm.cpp:126-142 | So does one whose instructions refuse to unwind. |
| `ArmStep.PoppedPcStays` | library_hawkeye/src/main/cpp/external/libunwindstack-ndk/ElfInterfaceArm.cpp:126-137 | A popped pc is the caller's pc, and the link register is not looked at; a zero pc ends the stack. |
| `ArmStep.UsualFrame` | library_hawkeye/src/main/cpp/external/libunwindstack-ndk/ArmExidx.cpp:242-265 | The usual frame, r11 a fixed distance above the pushes and a description that steps back by it, is one of these bases. |
| `ArmStep.AmbiguousPrologueFails` | library_hawkeye/src/main/cpp/external/libunwindstack-ndk/ElfInterfaceArm.cpp:109-168 | A function that pushes r8, r9 and r11, described by 80 b0 in a one-entry table: the step fails. |
| `ArmStep.EntryOfFunction` | library_hawkeye/src/main/cpp/external/libunwindstack-ndk/ElfInterfaceArm.cpp:29-61 | For every pc between the address that an entry's displacement was written for and the next one's, the search ends at that entry. |
| `ArmStep.Completed` | library_hawkeye/src/main/cpp/external/libunwindstack-ndk/ArmExidx.cpp:161-170 | The finish instruction is appended exactly when the last byte is not one, which is wrong only for an unpadded operand of that value. |
| `IndexLookup.SearchBrackets` | library_hawkeye/src/main/cpp/external/libunwindstack-ndk/ElfInterfaceArm.cpp:29-61 | On any table, sorted or not, a found entry is at or below the pc and its successor above it (or the hit is exact); a miss means the first entry is above; a failure means an unreadable entry. |
| `IndexLookup.SearchIsLinear` | library_hawkeye/src/main/cpp/external/libunwindstack-ndk/DwarfEhFrameWithHdr.cpp:115-149 | On a sorted readable table the search answers exactly when a plain scan does, with the greatest address not above the pc, and with the scan's own entry unless several share the pc as address. |
| `EhFrameHdr.EntriesTile` | library_hawkeye/src/main/cpp/external/libunwindstack-ndk/DwarfEhFrameWithHdr.cpp:92-113 | For every fixed-size non-aligned encoding an entry ends exactly where the next one starts, at stride twice GetEncodedSize. |
| `EhFrameHdr.HdrTable.GetFdeInfoFromIndex` | library_hawkeye/src/main/cpp/external/libunwindstack-ndk/DwarfEhFrameWithHdr.cpp:92-113 | A remembered entry equals a fresh read, and a failed read leaves nothing remembered. |
| `EhFrameHdr.HdrTable.GetFdeOffsetBinary` | library_hawkeye/src/main/cpp/external/libunwindstack-ndk/DwarfEhFrameWithHdr.cpp:115-149 | Whichever entries earlier lookups remembered, the answer is the offset that the search over the undecoded table gives, which EhFrameHdr.LookupOfPairs describes. |
| `EhFrameHdr.LookupIsFloor` | library_hawkeye/src/main/cpp/external/libunwindstack-ndk/DwarfEhFrameWithHdr.cpp:115-149 | On a sorted readable table that is an entry with the greatest pc not above the target, and none exactly if every entry is above it. |
| `EhFrameHdr.PairReads` | library_hawkeye/src/main/cpp/external/libunwindstack-ndk/DwarfEhFrameWithHdr.cpp:92-113 | An entry written as a function address and an FDE offset, in any fixed-size encoding and relative to any base, is read back as that pair, in that order. |
| `EhFrameHdr.LookupOfPairs` | library_hawkeye/src/main/cpp/external/libunwindstack-ndk/DwarfEhFrameWithHdr.cpp:115-149 | On a table assembled from pairs the lookup answers with the offset written beside the greatest address not above the target, and with none exactly if every address is above it. |
| `EhFrameHdr.UsualTable` | library_hawkeye/src/main/cpp/external/libunwindstack-ndk/DwarfEhFrameWithHdr.cpp:92-149 | The usual datarel sdata4 table with one function, byte for byte. |
| `ExidxIndex.Index.AddrOf` | library_hawkeye/src/main/cpp/external/libunwindstack-ndk/ElfInterfaceArm.cpp:39-46 | Reading through the memo, where zero means absent, equals reading the table, also for entries whose address is zero and for unreadable ones. |
| `ExidxIndex.Index.FindEntry` | library_hawkeye/src/main/cpp/external/libunwindstack-ndk/ElfInterfaceArm.cpp:29-61 | From any valid memo the answer is that of the search without a memo. |
| `ExidxIndex.Index.FindAll` | library_hawkeye/src/main/cpp/external/libunwindstack-ndk/ElfInterfaceArm.cpp:29-61 | The same for every history of queries. |
| `ExidxIndex.EntryIsLinear` | library_hawkeye/src/main/cpp/external/libunwindstack-ndk/ElfInterfaceArm.cpp:29-76 | On a sorted readable table it agrees with the plain linear scan over the prel31 addresses. |
| `ExidxIndex.ListedAddress` | library_hawkeye/src/main/cpp/external/libunwindstack-ndk/ElfInterfaceArm.cpp:64-76 | An entry reads back as the address its displacement was written for. |
| `Symbols.ScanFinds` | library_hawkeye/src/main/cpp/external/libunwindstack-ndk/Symbols.cpp:56-109 | On a well-formed table the one function that contains an address is what a scan from the start answers with. |
| `Symbols.ScanSaysExactly` | library_hawkeye/src/main/cpp/external/libunwindstack-ndk/Symbols.cpp:73-100 | On a well-formed readable table the scan answers with a name and a distance if and only if a defined function symbol of that name, at its value plus the load bias (without it if absolute), has the address at that distance below its size; and with none if and only if there is no such symbol. |
| `Symbols.ScanRound` | library_hawkeye/src/main/cpp/external/libunwindstack-ndk/Symbols.cpp:73-100 | One round of the lazy scan: a match is what the scan from the starting entry answers and where it ends; otherwise the scan goes on. |
| `Symbols.CacheIsOrderly` | library_hawkeye/src/main/cpp/external/libunwindstack-ndk/Symbols.cpp:102-106 | A sorted cache of passed functions is sorted, without empty ranges and pairwise equal or disjoint, which the binary search needs. |
| `Symbols.SymbolCache.GetInfoFromCache` | library_hawkeye/src/main/cpp/external/libunwindstack-ndk/Symbols.cpp:38-54 | The binary search loop computes the bisection that the following rows are about. |
| `Symbols.BisectMisses` | library_hawkeye/src/main/cpp/external/libunwindstack-ndk/Symbols.cpp:38-54 | On an orderly cache the bisection misses no function that contains the address. |
| `Symbols.SymbolCache.GetName` | library_hawkeye/src/main/cpp/external/libunwindstack-ndk/Symbols.cpp:56-109 | Any answer comes from a function of the table that contains the address; on a well-formed table it is the full scan's answer, and on a readable one so is a miss, whatever was asked before, and both are exactly what the symbols' fields say; on every readable table answer and progress are those of the lookup as a function. |
| `Symbols.SymbolCache.ScanOn` | library_hawkeye/src/main/cpp/external/libunwindstack-ndk/Symbols.cpp:72-108 | The rest of the scan with its cache fill and sort, which terminates and keeps the cache invariant, also when an unreadable entry stops it. |
| `Symbols.SymbolCache.Answers` | library_hawkeye/src/main/cpp/external/libunwindstack-ndk/Symbols.cpp:56-109 | Every answer of every query history on a well-formed readable table equals the scan of the whole table from its start. |
| `Symbols.HistoriesOfTwo` | library_hawkeye/src/main/cpp/external/libunwindstack-ndk/Symbols.cpp:56-109 | On any readable table whose functions answer differently where they overlap, all histories agree with the scan if and only if all histories of two lookups do. |
| `Symbols.OverlapDependsOnHistory` | library_hawkeye/src/main/cpp/external/libunwindstack-ndk/Symbols.cpp:56-109 | A function nested in another: the first lookup of an address in both finds the outer one, as the scan does, and after another lookup it finds the inner one. |
| `Maps.DrainFirst` | library_hawkeye/src/main/cpp/external/libunwindstack-ndk/Maps.cpp:177-206 | Emptying a buffer of its complete lines and reading on gives what reading the joined text gives. |
| `Maps.MapList.ParseLines` | library_hawkeye/src/main/cpp/external/libunwindstack-ndk/Maps.cpp:185-204 | The in-place inner loop: lines cut with NUL, parsed and pushed in order; then the buffer's front holds the moved remainder, or, after a bad line, as many unmoved bytes from its start as were left. |
| `Maps.MapList.Parse` | library_hawkeye/src/main/cpp/external/libunwindstack-ndk/Maps.cpp:167-209 | The outer loop, for every way the reads split the text or fail: maps and verdict are those of the reading that the following rows are about, including what is read again behind a bad line. |
| `Maps.MapList.ParseBuffer` | library_hawkeye/src/main/cpp/external/libunwindstack-ndk/Maps.cpp:229-250 | The whole-text loop computes the list of all lines, an unterminated last line and the empty text included, up to the first bad one. |
| `Maps.LineByLineExactly` | library_hawkeye/src/main/cpp/external/libunwindstack-ndk/Maps.cpp:167-250 | Reading line by line up to the first bad line agrees with the whole-text reader exactly on regular texts. |
| `MapsChunking.ChunkingExactly` | library_hawkeye/src/main/cpp/external/libunwindstack-ndk/Maps.cpp:167-250 | For every text and line parser, Maps::Parse has the outcome of BufferMaps::Parse, maps and verdict, under every chunking, if and only if every line up to the first bad one fits 2048 bytes with its newline, the text is nonempty and newline-terminated if no line is bad, and no good line can be in the buffer with the bad one so that it, or its beginning joined to a later line, parses again. |
| `MapsChunking.EveryChunkingReads` | library_hawkeye/src/main/cpp/external/libunwindstack-ndk/Maps.cpp:167-209 | On such a text every chunking reads exactly the lines up to the first bad one. |
| `MapsChunking.SomeChunkingRepeats` | library_hawkeye/src/main/cpp/external/libunwindstack-ndk/Maps.cpp:195-205 | On a text without that property there is a chunking that reads more maps than there are lines before the bad one. |
| `MapsChunking.FrontAfterBadLine` | library_hawkeye/src/main/cpp/external/libunwindstack-ndk/Maps.cpp:195-205 | What is read again behind a bad line: the first line of the buffer, if as many bytes were left, and otherwise its beginning with the next bytes of the file behind it. |
| `MapsChunking.QuietReadsNothing` | library_hawkeye/src/main/cpp/external/libunwindstack-ndk/Maps.cpp:177-206 | Once the line at the front of the buffer is bad, it stays there and nothing more is read. |
| `MapsChunking.ReadingRelated` | library_hawkeye/src/main/cpp/external/libunwindstack-ndk/Maps.cpp:167-209 | On every text: success means exactly the maps of all lines, a failing read leaves a beginning of them, and without failing reads the verdict does not depend on the chunking. |
| `MapsChunking.GoodLinesUnrepeatable` | library_hawkeye/src/main/cpp/external/libunwindstack-ndk/Maps.cpp:167-209 | A text without a bad line meets the last condition: for it the readers agree exactly if every line fits and the text is newline-terminated. |
| `MapsChunking.ChunkingMatters` | library_hawkeye/src/main/cpp/external/libunwindstack-ndk/Maps.cpp:195-205 | The lines A, B, A under a parser that accepts only A: read in one piece they give one map, read in four and two bytes two. |
| `MapsChunking.LongLineIsDropped` | library_hawkeye/src/main/cpp/external/libunwindstack-ndk/Maps.cpp:177-186 | A line of 2048 bytes before its newline: every chunking ends with success and no map, the whole-text reader has one. |
| `Maps.LinesOfText` | library_hawkeye/src/main/cpp/external/libunwindstack-ndk/Maps.cpp:229-250 | The lines and the tail that this condition speaks about make up the text. |
| `Maps.Find` | library_hawkeye/src/main/cpp/external/libunwindstack-ndk/Maps.cpp:45-63 | On an ascending list the lookup answers exactly when some map covers the pc, with the only one that does. |
| `PtraceRead.Read` | library_hawkeye/src/main/cpp/external/libunwindstack-ndk/Memory.cpp:117-158 | For every address, length and set of unreadable words the count is that of the longest readable prefix, those bytes are the process's, nothing behind them is written; everything is read exactly when all touched words are readable and the range does not overflow. |
| `PtraceRead.CopyFromWord` | library_hawkeye/src/main/cpp/external/libunwindstack-ndk/Memory.cpp:106-137 | One peek and copy: succeeds exactly for a readable word and writes only the bytes asked for. |
| `ZapBuffer.Conservation` | library_zap/src/main/cpp/zap_buffer.cpp:46-73 | For every run of writes and flushes the handed-off chunks in order, followed by the live bytes, are the messages in order, each cut to the data area. |
| `ZapBuffer.ConservationExactly` | library_zap/src/main/cpp/zap.cpp:89-101 | The stream is exactly the messages if and only if each of them fits the data area. |
| `ZapBuffer.Buffer.constructor` | library_zap/src/main/cpp/zap_buffer.cpp:14-36 | A fresh buffer of any size that holds the header: an empty data area of the requested size and a header that reads back, except that a header which fills the block loses its path; the compression flag falls outside the block exactly if the data area has fewer than eight bytes. |
| `ZapBuffer.Buffer.InitData` | library_zap/src/main/cpp/zap_buffer.cpp:14-36 | The block is cleared, a fresh header written and the pointers placed by what it reads back. |
| `ZapBuffer.Buffer.Append` | library_zap/src/main/cpp/zap_buffer.cpp:46-73 | Appends what fits, keeps the header's log_len equal to the live length and the rest of the header intact. |
| `ZapBuffer.Buffer.Clear` | library_zap/src/main/cpp/zap_buffer.cpp:140-145 | Empties the data area with the header in step. |
| `ZapBuffer.Buffer.CallFileFlush` | library_zap/src/main/cpp/zap_buffer.cpp:110-131 | A nonempty buffer becomes one chunk with exactly its live bytes and is cleared; an empty one is left alone. |
| `ZapBuffer.Buffer.WriteMessage` | library_zap/src/main/cpp/zap.cpp:89-101 | Flush-before-append: the buffer's abstract log moves by exactly the write event of the conservation law. |
| `ZapBuffer.Buffer.InitHeader` | library_zap/src/main/cpp/zap_buffer_header.cpp:11-30 | A block too small for the path is left alone; otherwise the fields land in the block at their offsets, and a field or flag that falls outside the block, where the source writes past it, is reported. |
| `ZapBuffer.HeaderReadsBack` | library_zap/src/main/cpp/zap_buffer_header.cpp:94-116 | Magic, log length, path length and path of a fresh header read back through the getters; the path length exactly if there is a data area or no path. |
| `ZapBuffer.HeaderSurvives` | library_zap/src/main/cpp/zap_buffer_header.cpp:88-92 | Writing the data area and then the log length changes no other header field. |
| `ZapBuffer.LogLenExactly` | library_zap/src/main/cpp/zap_buffer_header.cpp:94-104 | The getter agrees with the live length exactly while the buffer is empty or not completely full; a full one reads as zero. |
| `ZapBuffer.FullBufferReadsEmpty` | library_zap/src/main/cpp/zap_buffer_header.cpp:94-104 | A message of exactly the size of the data area: the stored length is eight and the getter reports zero. |
| `ZapBuffer.BufferFlush.Write` | library_zap/src/main/cpp/zap_buffer_flush.cpp:33-56 | The chunk's contents grow by exactly the bytes written, whether or not the block is reallocated; the stale capacity after a reallocation makes the bookkeeping unsound exactly when the contents exceed it. |
| `ZapFlush.NoStrandedChunk` | library_zap/src/main/cpp/zap_file_flush.cpp:15-45 | In every interleaving each accepted chunk is queued or was flushed, exactly once, and a worker that returned left an empty queue. |
| `ZapFlush.AfterReturn` | library_zap/src/main/cpp/zap_file_flush.cpp:26-45 | Once the worker has returned, nothing is accepted, queued or flushed any more, and all that was accepted has been flushed. |
| `ZapFlush.OrderExactly` | library_zap/src/main/cpp/zap_file_flush.cpp:32-45 | The file keeps hand-off order at every moment if and only if the worker never found two chunks waiting. |
| `ZapFlush.AcceptedDiffer` | library_zap/src/main/cpp/zap_file_flush.cpp:15-24 | In every interleaving the accepted chunks are different objects. |
| `ZapFlush.NewestFirst` | library_zap/src/main/cpp/zap_file_flush.cpp:35-39 | Two waiting chunks are flushed newest first. |
| `ZapFlush.MessagesReachTheFile` | library_zap/src/main/cpp/zap_file_flush.cpp:15-45 | While the worker keeps up, file, queue and live buffer together are the messages in the order written, if and only if the log file is open or nothing was flushed. |
| `ZapFlush.DrainIsFlushOnes` | library_zap/src/main/cpp/zap_file_flush.cpp:35-39 | The drain loop is one flush step of the state machine per queued chunk and reverses the queue. |
| `ZapFlush.FileFlush.AsyncFlush` | library_zap/src/main/cpp/zap_file_flush.cpp:15-24 | The call is the Offer step of the state machine: a chunk is taken exactly when exit is not set, and then goes to the end of the queue. |
| `ZapFlush.FileFlush.Drain` | library_zap/src/main/cpp/zap_file_flush.cpp:32-45 | The loop empties the queue in reverse order, writes it to the file if one is open, and reports whether the worker may return. |
| `ZapFlush.FileFlush.Flush` | library_zap/src/main/cpp/zap_file_flush.cpp:50-63 | A chunk's bytes are appended to the file exactly if there is one. |

## Left out

- JNI glue, Java and Kotlin sources, signal handling, sockets, ptrace attachment and file opening: plumbing without a deeper invariant.
- Unwinder.cpp, JitDebug and DexFiles: not part of this model.
- Log, LogInstruction, GetLogInfo and string formatting: they do not change what is computed.
- zlib compression in Append and the compression flag (written and read at different offsets): only the uncompressed branch is modelled.
- Log rotation and recovery of a dirty buffer file: not part of this model.
- Liveness of StopFlush: exit is set and notified without the mutex; safety only.
- GetFdeOffsetSequential, GetGlobal, MemoryRange::Read, ProcessVmRead and the parser of a single map line: they would only add easy members, or do not match their binary counterpart (the first); the line parser is an arbitrary function in `Maps`.
- Memory: the last byte of the address space is never readable, so no successful read wraps a cursor.
- `1 << reg` for reg of 32 or more in the register snapshot is undefined too, but runs on every ARM64 frame that has such a rule; it is modelled as that hardware does it, with the count modulo 32. A zero LEB128 group is zero however far it is shifted.
- A DWARF block length or entry length that wraps the cursor backwards stops the model (outcome `Backwards`, or no outcome of the pass) where the source would read on at a wrapped offset.
- EhFrame.ParsersAgree: assumes that the first entry of the section is a CIE, because before the first CIE the pass works with uninitialised locals.
- EhFrame.SameReading: agreement of the readings is exact; agreement of the resulting pc ranges is proved in one direction, since different readings may give equal numbers by coincidence.
- DwarfStep.RowCacheTransparency: assumes ordered disjoint FDEs and CIE programs that do not move the location or leave a remembered state; the maps of parsed FDEs and CIEs are not modelled as caches.
- DwarfEval.Registers.Eval: the dex pc value is not modelled; what a failing evaluation leaves in the registers is not specified. Register files have at most 64 registers, as saved_regs has.
- DwarfPostfix.PostfixCompilation: stack shuffling and branches have no tree form; their laws are in `DwarfOpLaws`.
- ArmStep.StepExidx: registers that a failing evaluation has already overwritten are not specified; error codes beyond the distinction of last frame and failure are not modelled.
- ArmPrologue.UnwindThrough: prologues that push sp or pc have no place among the steps; ArmPrologue.HighPop has such pops.
- FrameUnwind.StepToCaller: the prologue has one frame register, set to the stack pointer; registers are saved in whole words by pushes, numbered below 64, in a frame smaller than half the address space; epilogues are not among the steps.
- EhCode.CieReads: an aligned personality pointer has no place among the items; EncodedValues.AlignedRoundTrip has its reading.
- EhFrameHdr.HdrTable.GetFdeOffsetBinary: indexes are unbounded, so the overflow of a midpoint for 2^63 entries or more is not modelled.
- Symbols.SymbolCache.GetName: the address is taken with the load bias already added, and the load bias is the same in all queries; reading a string is a partial map from its offset; functions with equal starts keep their table order in the sorted cache, which std::sort leaves open.
- PtraceRead.Read: addresses are not cut to 32 bits on a 32-bit build.
- ZapBuffer.Buffer.constructor: the block holds at least the header; smaller ones, which the source writes past, are not modelled. A size_t has eight bytes, as on the 64-bit builds.
- The destructor of BufferFlush deletes a pointer into the middle of its block, and FileFlush::Flush ends without a return value when there is no log file: both are undefined. Here a chunk is simply gone after its flush, and a flush without a file writes nothing.
- ZapBuffer.BufferFlush.Write: a second write after a reallocation works with the stale capacity; the contract names when that is sound.
