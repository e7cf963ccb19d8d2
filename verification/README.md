# A verified model of the kunwind DWARF unwinder

kunwind takes user-space backtraces inside the kernel. For every frame it finds the frame
description entry of a pc through the binary search table of `.eh_frame_hdr`, parses that entry
and its common information entry, runs two call frame programs to get a row of register rules,
and restores the registers of the caller. Rows of a common shape are kept in a per-process cache
and restored by a shortcut that handles three registers only.

This project models that core in Dafny for the non-compat x86_64 instance (17 columns, RBP 6,
RSP 7, pc column 16) and proves what the pieces promise each other. `dafny verify dfyconfig.toml`
checks all of it.

The model takes the form of the C code: loops that move a cursor are methods with loops, the
unwind state, the frame, the expression stack and the cache are classes updated in place, and
each method is proved against a specification function. The properties are then proved of those
functions, for all inputs.

| file | what it holds |
|---|---|
| `Words.dfy`, `UserMemory.dfy` | 64-bit words, byte buffers, process memory |
| `Leb128.dfy`, `EncodedPointer.dfy` | the decoders and their encoders |
| `CfiState.dfy`, `CfiInterpreter.dfy` | the call frame interpreter on raw bytes |
| `CfiSemantics.dfy` | an abstract machine for section 6.4.2 of DWARF 4 and the refinement |
| `CfiTable.dfy` | early stop against table look-up |
| `CfiInvariants.dfy` | what every run keeps on every byte string |
| `Expression.dfy`, `ExpressionCompiler.dfy` | the expression evaluator and compilation to it |
| `FdeIndex.dfy`, `IndexRoundTrip.dfy` | the index: its search, and its layout |
| `FrameHeaders.dfy`, `CieRoundTrip.dfy`, `FrameRecords.dfy` | header checks and parsing, and encoders for both records |
| `Restore.dfy` | the full restore, the shortcut, and their agreement |
| `Cache.dfy` | the hash table as a finite map |
| `Steps.dfy` | one step and whole backtraces over any source of look-ups |
| `Unwinder.dfy` | the look-up, and the step and backtrace methods on the objects of a process |
| `LookupCorrect.dfy` | the row both programs leave is the row of the abstract table |
| `EndToEnd.dfy` | a whole look-up, from the bytes of the sections to that row |
| `Backtrace.dfy` | coherence and transparency of the cache over whole runs |
| `AbstractUnwind.dfy` | restoring by table rows, and the backtrace in those terms |
| `SmallObject.dfy` | one object in bytes, looked up end to end, and the cache failing on it |
| `TwoObjects.dfy` | a shared library in the encodings that linkers write, and a run across two objects |
| `SectionWalk.dfy` | measuring `.eh_frame` |

## Main results

- The interpreter refines the abstract machine on every encodable program, and the row left when
  it stops at a pc is the row the machine's table has there. From bytes: when the sections hold an
  index, a CIE and an FDE in any encodings the readers know, search, checks, both parsers and both
  programs together end in that row (`EndToEnd.LookUpEndToEnd`).
- The full restore is a simultaneous assignment in any order of columns, and over whole runs the
  shortcut keeps pc, sp and bp equal to it if and only if it is right on every frame, by a
  condition on the row and three values, and the full restore gets that far
  (`Restore.FastSimulatesSlow`).
- Over any life of the cache every entry is what a fresh look-up gives, and a cached backtrace
  reports the entries of an uncached one if and only if its hits find `call_frame` already set
  (`Backtrace.CacheTransparent`). For the real entry point, over ordinary calls, that is: if and
  only if the first pc is not cached (`Backtrace.CurrentUnwindTransparent`).
- The two meet: over objects laid out by the encoders, entry `k` of a backtrace is the pc that `k`
  restores by the rows of the abstract tables reach, and so are all entries through any reachable
  cache if and only if its hits agree (`AbstractUnwind.CachedBacktraceIsAbstract`). A whole one ends
  at the frame whose row gives up the return address and returns 0 (`AbstractUnwind.CompleteBacktrace`).

## Where the code falls short of the property

Each of these is stated with the exact condition.

- Signed LEB128: the sign extension is done in `int`, so a negative number below -2^27 comes back
  wrong (`Leb128.SlebRoundTrip` is an equivalence).
- Cache: an entry does not hold `call_frame` and a hit does not set it, so a hit agrees with a miss
  exactly when the frame already has the CIE's value; whole runs agree exactly when every hit that
  another entry follows does (`Backtrace.RunTransparent` is an equivalence).
  `do_current_unwind` starts with 0, so the second entry of a backtrace whose first pc is cached is
  one too high (`Backtrace.FirstHitShiftsSecondEntry`, and `SmallObject.TransparencyFails` on bytes).
- Straying: an expression rule whose length prefix is flagged as too long is stored all the same,
  and its length can take the cursor round the address space, where it does not compare as past the
  end; the code then goes on outside the program. That happens exactly at such a rule
  (`CfiInvariants.StraysExactly`, `CfiInvariants.RunStrays`; twelve bytes in
  `CfiInvariants.StrayingProgram`). What is said of accepted runs is said of those that did not stray.
- Division: dividing -2^63 by -1 is not tested for and traps. The meaning of a tree is a fault there,
  and a compiled tree comes to exactly what it means (`ExpressionCompiler.CompiledComputes`,
  `ExpressionCompiler.DivisionFaults`).
- FDE augmentation length: one of its two tests has its operands exchanged and the other wraps, so
  lengths close to 2^64 are accepted and the instructions start before their own record. They start
  inside it if and only if the data ends inside it (`FrameHeaders.FdeStartInside`,
  `FrameHeaders.WrappedLengthAccepted`). A start before the section counts as straying.
- Shortcut: on a standard row it disagrees with the full restore when the CFA offset is not a
  multiple of four or a register rule names a column that does not exist, which only the full
  restore refuses, when the stack pointer is loaded from memory and is not the CFA, and when the
  base pointer is given up and is not zero (`Restore.ShortcutIsRestore` is an equivalence,
  `Restore.ShortcutDisagrees` an input).
- Index: when no entry starts at or before the pc, the code goes on to read a null FDE. On a sorted
  table that happens exactly for pcs before the first entry (`LookupCorrect.LookUpFaults`).
- FDE: after a CIE whose augmentation string has a z but no data, the parser does not skip the
  FDE's augmentation length and executes it (`FrameRecords.FdeRoundTrips` is an equivalence); the
  usual length of zero passes for a nop, which `EndToEnd.LookUpEndToEnd` includes.
- Stored expressions: a register expression whose length prefix runs into the end of the program
  is accepted with a length that is read differently later (`CfiInvariants.StoredHere` is an
  equivalence, `CfiInvariants.UnterminatedExpression` an input).
- CFA edits while the CFA is an expression are dropped without consuming the operand, which is
  then executed (`CfiSemantics.NotAllowedLeavesOperand` is an equivalence).
- Geometry: a CIE whose length is not a multiple of four may overlap its FDE by up to three bytes
  (`FrameHeaders.Geometry`, `FrameHeaders.CieMayOverlapFde`).
- Section walk: an escaped length close to 2^64 brings the pointer round and is accepted
  (`SectionWalk.WalkTiles` is an equivalence).
- Unary expression operators need a free slot although they do not grow the stack, because the
  push macro tests for room before it pops; `ExpressionCompiler.Slots` counts it.

## Independent of the code's own tables

The encoders and meanings that the interpreters are proved against do not share their constants:
opcodes of both instruction sets and the letters of the augmentation string are written in numbers
on the encoders' side, bitwise operators are characterised bit by bit, pointer encodings by their
numbers, and what no encoder produces is stated by number as well (`CfiSemantics.OtherOpcodes`, the
operation lemmas of `Expression`, `EncodedPointer.RelativeEncodings` and its neighbours).

## Modelling decisions

- Buffers are byte sequences with integer cursors. A read outside a buffer yields 0; C would read
  whatever lies there. `CfiInvariants.RunReadsOnlyProgram` shows that no accepted call frame run
  depends on it. Cursors are offsets that do not wrap; where an address can come round and the code
  compares it, the model compares addresses.
- `long` values are two's complement patterns. Shift counts of 64 and more, undefined in C, are
  taken modulo 64, here and in the meaning of trees; payload of the eleventh and later LEB128
  bytes is dropped.
- Process memory is any partial function from addresses to words; overlapping words need not agree,
  so every result covers more memories than exist. Words that indirect pointer encodings go through
  are part of the section and do not change.
- Uninitialised locals of the evaluator and of the full restore are parameters. A read through a
  null FDE, a program that strays and a division that traps are outcomes of their own, which end
  the run.
- Hash values are given by an arbitrary function; allocation in the cache succeeds.

## Model

| member | source | states |
|---|---|---|
| Leb128.ReadUleb128 | src/unwind.c:63-82 | the loop computes the specified value and cursor on every byte string, error cursor included |
| Leb128.UlebReadsGroup | src/unwind.c:69-79 | any complete group of up to ten bytes is read as the base-128 number it denotes, or flagged by a cursor past the end exactly when that number needs more than 64 bits |
| Leb128.UlebRoundTrip | src/unwind.c:63-82 | decoding inverts encoding for every 64-bit number, with exact cursor movement |
| Leb128.UlebFlagsTenthByte | src/unwind.c:70-73 | a tenth byte with more than one bit is flagged, whatever follows |
| Leb128.UlebBoundIrrelevant | src/unwind.c:1093-1097 | re-reading a terminated length with a looser bound gives the same value and cursor |
| Leb128.ReadSleb128 | src/unwind.c:84-106 | the loop computes the specified pattern and cursor on every byte string |
| Leb128.SlebIsUlebFilled | src/unwind.c:84-106 | the signed reader is the unsigned one plus a sign fill at the last byte |
| Leb128.SlebRoundTrip | src/unwind.c:97-101 | on 64-bit numbers decoding inverts encoding if and only if the number is at least -2^27 |
| EncodedPointer.PointerRoundTrip | src/unwind.c:110-207 | reading inverts writing with exact cursor movement, in every form, base and sign the reader knows, direct or indirect; an indirect pointer that cannot be followed is the error |
| EncodedPointer.AbsoluteEncodings | src/unwind.c:119-183 | the fixed-size forms by number: what encodings 0x00, 0x02, 0x03, 0x04, 0x0a, 0x0b and 0x0c read, sign and cursor included |
| EncodedPointer.RelativeEncodings | src/unwind.c:185-203 | 0x13 and 0x1b add the address of the pointer, 0x2b the text and 0x3b the data base |
| EncodedPointer.OtherEncodings | src/unwind.c:169-203 | LEB128 forms 0x01 and 0x09 and the indirect 0x80 |
| EncodedPointer.RefusedEncodings | src/unwind.c:110-203 | an omitted pointer, unknown forms and bases and bytes that do not reach give the error |
| Words.BitwiseMeaning | src/unwind.c:1249-1254 | the bitwise operators, bit by bit for all 64 bits |
| FdeIndex.SearchTable | src/unwind.c:1029-1064 | the loop ends; on a sorted table of valid starts it selects what a linear scan selects |
| FdeIndex.HalveFindsLast | src/unwind.c:1029-1064 | halving from any window that holds the answer is a linear scan for the last entry at or before the pc |
| FdeIndex.FindFdeIsLast | src/unwind.c:970-1064 | with sorted valid starts, the FDE found is that of the last entry at or before the pc; nothing is selected if and only if the pc precedes the first |
| FdeIndex.SearchFde | src/unwind.c:970-1064 | the method computes the specified outcome: a refused table, a finished loop with nothing selected, or an FDE candidate |
| IndexRoundTrip.IndexOpens | src/unwind.c:980-1027 | a header laid out in any known encodings is accepted if and only if its version is 1, it points at the frame section and it counts its entries; its table is then where it was put |
| IndexRoundTrip.IndexFinds | src/unwind.c:970-1064 | searching a laid-out header is a scan of the entries it was made from |
| FrameHeaders.Geometry | src/unwind.c:247-326 | a pair passing both checks: CIE inside the section, FDE after it and inside, CIE end below the FDE's second word, and clear of the FDE exactly when its length allows |
| FrameHeaders.CieMayOverlapFde | src/unwind.c:304-307 | a pair that passes both checks although the records share a byte |
| FrameHeaders.ScanAugmentation | src/unwind.c:387-423 | the loop over the augmentation string computes the specified pointer encoding, call-frame flag and cursor |
| FrameHeaders.ParseFdeCie | src/unwind.c:332-451 | the method computes the specified parse of both records, the two tests of the FDE augmentation length included as the code makes them |
| FrameHeaders.FdeStartInside | src/unwind.c:440-448 | an FDE is accepted when its data ends inside the record or its length wraps and is at most 2^64 less the record; the instructions start inside the body if and only if the data ends there |
| FrameHeaders.WrappedLengthAccepted | src/unwind.c:440-448 | every length 2^64 - k with k at least the size of the record is accepted, with instructions that start at or before the record |
| FrameRecords.FdeRoundTrips | src/unwind.c:432-449 | parsing gives back start, range and end of the FDE; the instructions are found behind the augmentation data if and only if the CIE has data of its own or no z |
| FrameRecords.RecordsPass | src/unwind.c:247-326 | a CIE record and a later FDE record that points back to it pass both checks |
| FrameHeaders.ChecksOnWords | src/unwind.c:247-326 | both checks as equivalences on the length, back pointer, id and version of the records |
| FrameHeaders.LetterRefused | src/unwind.c:390-422 | an unknown letter, a null personality and data used up are refused |
| CieRoundTrip.LoopReads | src/unwind.c:390-427 | the loop reads back every letter and its data and ends at the end of the data |
| CieRoundTrip.CieRoundTrips | src/unwind.c:340-427 | parsing gives back the alignments, return column, pointer encoding and signal flag of any well-formed version 1 or 3 header, personality pointers in every form the reader knows, and the instructions start where the augmentation data ends; a factor of zero, and only that, is refused |
| CfiInterpreter.UnwindState.constructor | src/unwind.c:1662-1667 | a fresh state: all columns keep their value, those beyond the real registers are unrecoverable |
| CfiInterpreter.UnwindState.AdvanceLoc | src/unwind.c:455-460 | the location moves by the factored delta; a zero delta is refused |
| CfiInterpreter.UnwindState.AssignRule | src/unwind.c:462-495 | the current row changes in one existing column and nowhere else |
| CfiInterpreter.UnwindState.ExecRule | src/unwind.c:561-709 | register-rule instructions, against their specification; the cursor is an offset that does not wrap |
| CfiInterpreter.UnwindState.ExecCfa | src/unwind.c:729-805 | CFA instructions, against their specification |
| CfiInterpreter.UnwindState.ExecOther | src/unwind.c:541-560 | location, stack and ignored instructions, against their specification |
| CfiInterpreter.UnwindState.ExecOne | src/unwind.c:535-868 | one instruction of any kind; the cursor, as an offset that does not wrap, strictly advances |
| CfiInterpreter.UnwindState.RunCfiProgram | src/unwind.c:518-877 | on every byte string the loop computes the specified verdict and state, or stops where its cursor strays from the program |
| CfiInvariants.StraysExactly | src/unwind.c:498-512 | after an accepted instruction the cursor is outside the program unnoticed if and only if it was an expression rule for an existing column with a flagged length that takes it round the address space |
| CfiInvariants.RunStrays | src/unwind.c:534-876 | a run strays if and only if it comes to such an instruction |
| CfiInvariants.StrayingProgram | src/unwind.c:507-511 | twelve bytes at a kernel address that stray |
| CfiSemantics.RefinesInstr | src/unwind.c:535-868 | every instruction met at its encoding is executed as the abstract machine performs it, rejections included |
| CfiSemantics.OtherOpcodes | src/unwind.c:541-868 | by number: set_loc, GNU_negative_offset_extended, and the refusal of every unknown opcode |
| CfiSemantics.RunRefines | src/unwind.c:534-876 | running the bytes of a program gives the machine's row, saved rows, location and verdict, and does not stray where the machine rejects |
| CfiSemantics.ProgramRefines | src/unwind.c:518-877 | the same for whole programs under the 512-byte limit, longer ones being refused |
| CfiSemantics.BlockFound | src/unwind.c:498-512 | a stored block is found again, whole, by the unbounded read of its length |
| CfiSemantics.NotAllowedLeavesOperand | src/unwind.c:744-790 | an instruction's encoding is consumed exactly when the machine allows the instruction |
| CfiTable.AdvanceIncreases | src/unwind.c:455-460 | an advance that does not wrap strictly increases the location and leaves the row alone |
| CfiTable.TableIncreases | src/unwind.c:360-363 | the locations of the table are strictly increasing |
| CfiTable.StopIsLookup | src/unwind.c:871-876 | if the whole program is accepted, stopping at the pc is too, and leaves the last row at or before the pc |
| CfiInvariants.StepKeepsLowerRows | src/unwind.c:710-728 | no accepted instruction writes a row below the depth it leaves, or the CIE's rules |
| CfiInvariants.BracketRestores | src/unwind.c:710-728 | remember, any instructions that do not pop below, restore: row, lower rows, depth and CIE rules are as before, and the run goes on from there |
| CfiInvariants.StoredHere | src/unwind.c:498-512 | an expression re-reads inside the program exactly when its length prefix ends before the program does |
| CfiInvariants.RunKeepsGood | src/unwind.c:791-805 | after any accepted run that did not stray every CFA expression lies inside the program and re-reads as checked, and so does every terminated register expression |
| CfiInvariants.UnterminatedExpression | src/unwind.c:507-511 | an accepted program that stores an expression with another length than the one checked |
| CfiInvariants.RunReadsOnlyProgram | src/unwind.c:871-876 | whether a run is accepted, whether it strays, and the state it leaves then depend on no byte outside the program |
| Expression.EvalStack.PushValue | src/unwind.c:1103-1107 | pushes unless eight slots are taken |
| Expression.EvalStack.PopValue | src/unwind.c:1108-1112 | pops unless the stack is empty |
| Expression.EvalStack.RunBinary | src/unwind.c:1235-1282 | two operands replaced by the operator's value; division by zero refused, a division that traps reported as such |
| Expression.EvalStack.RunUnary | src/unwind.c:1284-1289 | the operand replaced, unless the stack is full or empty |
| Expression.EvalStack.RunOther | src/unwind.c:1133-1188 | stack shuffles and forward branches, as the code does them |
| Expression.ShuffleOperations | src/unwind.c:1133-1188 | by number: nop, dup, drop and over on the slots |
| Expression.TopOperations | src/unwind.c:1160-1295 | by number: swap and abs |
| Expression.PickOperation | src/unwind.c:1179-1188 | by number: pick, one slot above the DWARF position |
| Expression.LoadOperations | src/unwind.c:1190-1346 | by number: addr, deref and deref_size |
| Expression.BranchOperations | src/unwind.c:1133-1150 | by number: skip and bra, forward only |
| Expression.RefusedOperands | src/unwind.c:1190-1319 | constants whose bytes do not reach and base registers that do not exist are refused |
| Expression.UnknownOperations | src/unwind.c:1347-1353 | every other number is refused |
| Expression.QuotientTruncates | src/unwind.c:1268-1275 | division leaves a remainder smaller than the divisor that is zero or has the sign of the dividend |
| Expression.ComputeExpr | src/unwind.c:1090-1356 | the evaluator terminates and computes the specified value, error or fault on every byte string, with the stack pointer within eight slots |
| ExpressionCompiler.BinaryMeaning | src/unwind.c:1242-1275 | operators on words mean the operators on the signed numbers they stand for, errors and the trapping division included |
| ExpressionCompiler.CompiledYields | src/unwind.c:1118-1353 | compiled code leaves the tree's value on an untouched stack, or ends in the error or fault that the tree comes to on the slots left |
| ExpressionCompiler.CompiledComputes | src/unwind.c:1097-1356 | evaluating a compiled tree gives its value, error or fault if eight slots suffice; otherwise never a value, and an error unless a division traps |
| ExpressionCompiler.SlotsSuffice | src/unwind.c:1103-1112 | on any number of slots: the value of the tree if they suffice, no value if they do not, a fault only if a division traps |
| ExpressionCompiler.DivisionFaults | src/unwind.c:1268-1275 | the tree that divides -2^63 by -1 ends in a fault |
| ExpressionCompiler.PltComputes | src/unwind.c:1090-1356 | the CFA expression of `.plt` entries, byte by byte, is rsp + 8, and rsp + 16 once the low four bits of the pc reach 11 |
| Restore.FrameInfo.LoadRegister | src/unwind.c:1540-1562 | a register is loaded, or left alone when memory cannot be read |
| Restore.FrameInfo.ApplyState | src/unwind.c:1564-1601 | the shortcut's registers and verdict, partial updates on failure included |
| Restore.FrameInfo.TakeSnapshot | src/unwind.c:1805-1843 | the first loop fetches what register rules name and refuses columns that do not exist |
| Restore.FrameInfo.RestoreOne | src/unwind.c:1846-1922 | one column of the second loop, with the error and the fault an expression can end in |
| Restore.FrameInfo.RestoreRow | src/unwind.c:1777-1922 | CFA and both loops, against the specified registers |
| Restore.RestoreIsSimultaneous | src/unwind.c:1805-1922 | every column without an expression rule ends with what its rule gives in the old frame and sp with the CFA, whatever the order of the second loop; only an expression rule can fail |
| Restore.SlowIsSimultaneous | src/unwind.c:1777-1922 | the code's own restore is that assignment, and without expression rules fails exactly on a bad CFA or a bad register rule |
| Restore.ShortcutIsRestore | src/unwind.c:1481-1601 | on any standard row the shortcut and the full restore agree on pc, sp and bp if and only if the CFA offset is a multiple of four, register rules name existing columns, a loaded sp equals the CFA and a given-up bp is zero |
| Restore.ShortcutDisagrees | src/unwind.c:1785-1788 | a row with CFA rsp + 10 that the shortcut restores and the full restore refuses |
| Restore.FastSimulatesSlow | src/unwind.c:1504-1601 | over whole runs, whatever the rows and the other registers, the shortcut has the same pc, sp and bp at every depth if and only if that holds of every frame and the full restore gets that far, which it does without expression rules |
| Cache.UnwCache.FindEntry | src/modules.c:27-39 | answers as the finite map does |
| Cache.UnwCache.AddEntry | src/modules.c:41-63 | adds a mapping, never replaces one |
| Cache.UnwCache.DeleteEntry | src/modules.c:65-77 | removes exactly the pc's mapping |
| Cache.UnwCache.Clear | src/modules.c:79-91 | leaves the empty map |
| Cache.AddRefines | src/modules.c:41-63 | adding keeps each pc once, in its own bucket, and is map insertion without replacement |
| Cache.DeleteRefines | src/modules.c:65-77 | deleting keeps the invariant and is map removal |
| Cache.CacheIsMap | src/modules.c:27-91 | any history of operations, with any hash function, gets the answers of a finite map |
| Unwinder.RunBoth | src/unwind.c:1725-1742 | both programs on one state, the CIE's rules kept in between |
| Unwinder.FreshLookup | src/unwind.c:1662-1742 | search, checks, parse and programs, every failure, the null FDE, a straying program and the past-the-end case included |
| Unwinder.TakeSlowPath | src/unwind.c:1766-1942 | the full restore with its bottom test and the comparison with the initial registers |
| Unwinder.TakeRow | src/unwind.c:1744-1764 | restoring by a looked-up row: the code, the frame and the entry left in the cache |
| Unwinder.TakeMiss | src/unwind.c:1744-1764 | a miss: the code, the caller's frame and the entry left in the cache |
| Unwinder.UnwindFrame | src/unwind.c:1640-1660 | one step through the cache, hit or miss |
| Unwinder.UnwindFull | src/unwind.c:1990-2021 | the entries written, the value returned (invalid argument, unset, or the last code with 2 made 0) and the cache after the whole backtrace |
| Unwinder.FindModule | src/unwind.c:221-233 | the loop finds the specified object |
| Unwinder.NoneCovers | src/unwind.c:221-233 | none is found if and only if no object covers the pc |
| Unwinder.KnownExactly | src/unwind.c:221-233 | the first covering object is found, and it can be looked up if and only if its frame section is a whole, non-zero number of words |
| LookupCorrect.TableRefines | src/unwind.c:534-876 | the table the interpreter runs through is the abstract machine's table |
| LookupCorrect.LookupIsTableRow | src/unwind.c:1725-1742 | the row both programs leave at the pc is the row the machine's table has there |
| LookupCorrect.LookUpFaults | src/unwind.c:1048-1065 | on a sorted valid table the look-up reads a null FDE if and only if the pc is before the first entry |
| EndToEnd.LookUpEndToEnd | src/unwind.c:1673-1742 | from bytes to the row: with a laid-out index, CIE and FDE, the look-up succeeds with the return column, call-frame flag and table row they encode |
| EndToEnd.LookUpPastEnd | src/unwind.c:1700-1712 | a pc is past the end if and only if it lies beyond the encoded range |
| LookupCorrect.LookupRowStored | src/unwind.c:1093-1097 | on any bytes, unless the program strayed, every CFA expression and every terminated register expression of a looked-up row lies inside the two programs and re-reads as checked |
| LookupCorrect.CfaExpressionComputes | src/unwind.c:1777-1780 | a CFA given by a compiled expression is computed as what the expression comes to on eight slots |
| Backtrace.StepKeepsCoherent | src/unwind.c:1744-1758 | no step, whatever frame and memory it meets, makes the cache incoherent |
| Backtrace.CacheCoherent | src/unwind.c:1673-1764 | after any history each entry is the projection of a fresh look-up's row, and its last flag is clear when the return column is the pc column |
| Backtrace.ProcessCacheCoherent | src/unwind.c:1673-1764 | the same for the loaded objects of a process, in terms of search, parse and both programs |
| Backtrace.HitAgainstMiss | src/unwind.c:1651-1660 | when the reads go through, hit and miss give the same code and registers, and the same frame if and only if call_frame is already the CIE's |
| Backtrace.RunTransparent | src/unwind.c:1990-2021 | from any coherent cache a run reports the entries of the run without a cache if and only if its hits agree; with readable memory the code is then the same too |
| Backtrace.CacheTransparent | src/unwind.c:1990-2021 | the same from any cache that a life of steps, deletions and clearings can produce |
| Backtrace.OrdinaryTransparent | src/unwind.c:1651-1660 | over ordinary calls a run is the one without a cache if and only if call_frame starts at 1, the first pc is not cached, or nothing comes after the first entry |
| Backtrace.CurrentUnwindTransparent | src/modules.c:361-375 | from call_frame 0 and any history of the cache, a backtrace of two or more ordinary calls is right if and only if its first pc is not cached |
| Backtrace.FirstHitShiftsSecondEntry | src/modules.c:371-374 | starting with call_frame 0 and a cached first pc, the second entry is one too high |
| Backtrace.SecondRunDiffers | src/modules.c:361-375 | the same backtrace taken twice from an empty cache disagrees with itself |
| Backtrace.EntriesAreRestoredPcs | src/unwind.c:1990-2021 | where the shortcut is right on every frame and the full restore gets as far, entry k of a run is the pc that k full restores reach |
| Backtrace.CachedEntriesAreRestoredPcs | src/unwind.c:1651-1660 | all entries of the fast, cached run are those pcs if and only if its hits agree |
| AbstractUnwind.RestoreRefines | src/unwind.c:1777-1922 | without expression rules the full restore of a row is the restore by the table row it stands for, refusals included |
| AbstractUnwind.WalksAgree | src/unwind.c:1673-1922 | over encoded objects, full restores walk where restores by the described tables walk |
| AbstractUnwind.BacktraceIsAbstract | src/unwind.c:1990-2021 | entry k of a backtrace over encoded objects is the pc that k restores by the described rows reach |
| AbstractUnwind.CachedBacktraceIsAbstract | src/unwind.c:1990-2021 | after any history of the cache all entries are those pcs if and only if the hits agree |
| AbstractUnwind.StepEnds | src/unwind.c:1744-1775 | a step in described code ends at the bottom if and only if the row gives up the return address |
| AbstractUnwind.StepFinishes | src/unwind.c:1700-1712 | a step finishes the backtrace if and only if the pc lies beyond the encoded range |
| AbstractUnwind.CompleteBacktrace | src/unwind.c:1990-2021 | n ordinary frames and an outermost one: exactly the n + 1 pcs of the abstract walk, and 0 returned |
| SmallObject.ObjectLooksUp | src/unwind.c:1673-1742 | an 80-byte object meets every hypothesis of the whole look-up, at every pc of its code |
| SmallObject.ObjectFaults | src/unwind.c:1048-1065 | at any pc before that code the look-up reads a null FDE |
| SmallObject.TransparencyFails | src/modules.c:371-374 | two backtraces in a row of a process made of that object disagree on the second entry, the second one being wrong |
| SmallObject.RightUnlessCached | src/modules.c:361-375 | the backtrace of that process is right after any history of the cache if and only if its first pc is not cached |
| TwoObjects.LibraryLooksUp | src/unwind.c:1673-1742 | a mapped library with a data-relative table, pc-relative pointers and the usual prologue: the row at every pc of its function, and past the end behind it |
| TwoObjects.AcrossObjects | src/unwind.c:1990-2021 | a process of two objects is unwound from the library into the program |
| SectionWalk.MeasureSection | src/unwind.c:2043-2063 | the walk terminates and computes the specified length, kept to 32 bits |
| SectionWalk.LayoutMeasured | src/unwind.c:2043-2063 | a section of whole records, plain or escaped, and a terminator is measured exactly, if and only if it ends within the bounds |
| SectionWalk.SectionMeasured | src/unwind.c:2043-2063 | so the walk returns the size of what was written |
| SectionWalk.WalkTiles | src/unwind.c:2043-2063 | the records of a measured section tile it exactly, terminator last and only there, if and only if no length came round |
| SectionWalk.ComingRoundIsAccepted | src/unwind.c:2045-2059 | an accepted section that its records do not tile |

## Left out

- Leb128.Uleb: groups of more than ten bytes are read with the payload beyond 64 bits dropped, because the C shift is undefined there.
- Leb128.SignFill: a shift count of 32 or more in the sign extension is taken modulo 32, as the x86 instruction does, because C leaves it undefined.
- CfiSemantics.Encodable: excludes empty CFA expressions, expression rules for columns that do not exist, set_loc and GNU negative_offset_extended; the byte-level results cover them.
- CieRoundTrip.WellFormed: covers versions 1 and 3 and strings that are empty or start with z; version 4 carries two more fields that the parser does not skip.
- CieRoundTrip.PointerBytes: LEB128 groups of more than ten bytes are left out, as everywhere.
- FrameRecords.HoldsRecords: CIE records have id 0, as in `.eh_frame`; the checks also take 0xffffffff.
- ExpressionCompiler.Tree: has no branches, pick, over or loads, whose code differs from the DWARF operations, and no dup, drop, swap or abs, which no tree compiles to; Expression models the code as it is.
- Steps.World: the memory of the process does not change during one backtrace.
- Expression rules in the full restore are modelled as the code does them (the computed address is not used), and no property is claimed of them.
- The compat register mapping, other architectures, debug dumps, module loading, page pinning, RCU timing, allocation failure and the ioctl and /proc interfaces.
