# A verified model of the C stack unwinder

The library collects C call stacks for Go programs. At start-up it compiles the
`.eh_frame` section of every loaded image into a table of unwind records; when the Go
runtime asks, it walks a C stack with those tables, either from a signal context or from
a context saved when C called into Go. This project models that pipeline for x86-64
(8-byte slots, frame pointer 6, stack pointer 7, return address 16) and proves what it
promises:

* exactly where the table means the same as direct interpretation of the image's
  call-frame programs (section 6.4 of DWARF 5), each under its own common information
  entry, and exactly which locations it loses;
* a step under a record restores the registers that the standard's row prescribes;
* the walk of a stack that was built by calls returns those calls;
* the pool of saved contexts hands out distinct slots, all tracebacks of one context
  agree, and they show the calls that were pending when C called into Go.

Files, from bytes to runs:

| file | contents |
|---|---|
| `Words.dfy`, `Leb128.dfy`, `Options.dfy`, `Process.dfy` | machine words, bitwise or, LEB128 numbers, registers and memory |
| `CallFrame.dfy`, `EhFrame.dfy` | instruction format, the parser's register machine, image layout |
| `InstructionFormat.dfy`, `ImageLayout.dfy` | how instructions, operations, headers and entries are written, and that reading gives them back |
| `FrameTable.dfy` | packing, appending, and the meaning of a table |
| `DwarfParser.dfy` | the parser itself: a class that updates its position and table in place |
| `DwarfReference.dfy` | the standard's rows, remember stack, expression machine and unwinding |
| `RuleRefinement.dfy`, `PlainPrograms.dfy` | the parser's machine refines the standard's, instruction by instruction; where it does not |
| `EmittedRules.dfy` | the row emitted for a location, and exactly when it is the standard's |
| `TableCorrectness.dfy` | soundness and exact completeness of lookups |
| `CodeCache.dfy`, `CodeCacheArray.dfy` | symbol and table indexes, library list |
| `StackWalker.dfy`, `Unwinding.dfy` | stepper and walker, and their theorems |
| `CallChain.dfy` | image to walk, end to end; runs of calls, bodies and returns |
| `Loading.dfy` | mappings parsed and published, and a traceback through them |
| `Witnesses.dfy` | a 136-byte image: a run through it, a function it loses and one it misreads |
| `CgoContexts.dfy`, `ContextRuns.dfy` | context pool, cached tracebacks, whole runs |
| `ContextChain.dfy` | what the traceback of a context shows of the stack that acquired it |
| `Publication.dfy` | one writer, many readers of the library list |

Modelling decisions. Integers are unbounded and truncated explicitly (`U32`, `I32`,
`U64`); a bitwise or is defined on bits and proved to be a sum only where the bits are
disjoint. Positions in an image are offsets from its base, and a byte outside the image
reads as zero. Memory is a partial map of words; an unmapped word loads as zero. The four
locals that hold a remembered state are uninitialised before the first remember: their
contents are a parameter (`junk`). `_ptr += getLeb()` is read as "decode, then advance
from the position after the number". Registers at a callback, the contents of memory, and
the order that `qsort` gives equal elements are parameters. Symbol names are bytes, and
`char` is signed, so bytes from 0x80 on are replaced like control characters.

The standard's row for a location (`TableCorrectness.FdeRowAt`) is that of the entry's
program under the entry's own common information entry: its alignment factors, the row
that its initial instructions establish, and its word on augmentation data. The parser
reads all entries under the first entry's factors, from a fixed row, and always skips
augmentation data. What its instructions have *told* it at a location
(`EmittedRules.HeldAt`) follows from the program alone, in exact arithmetic; each of the
two parts, CFA and frame pointer, is known unless the last instruction for it asked for
something that the packed form cannot express. A no-op and a set-location end the program,
and an unknown instruction abandons it at the row of the last advance. Where both are known, a record that is
found says just that, and is the standard's row if and only if that row asks for the same
(`TableCorrectness.LookupSound`), whatever went wrong before.

When this is so after every instruction has an exact answer too. A program is *supported*
up to a location when, along the standard's own run of it up to there, every row is
expressible in the packed form (`RuleRefinement.Expressible`), instructions that the parser
reads past do not change what the row says about the frame pointer and the return address,
each restore takes back a row expressed like the one remembered last, and nothing behind a
no-op changes what the row is expressed by (`RuleRefinement.ProgramExact`).
`PlainPrograms.Plain` is a sufficient condition that can be checked without running the
program.

Compiled code *conforms* when each caller can be unwound from where it will be returned to
and no event overwrites one of the at most two words that unwinding a waiting frame reads
(`Unwinding.Needs`). Any other word, above or below, may be written by anyone.

Where a comment and the code differ, the model follows the code. The comment at
internal/async-profiler/cgotraceback.cpp:104-107 says that a stack is truncated after the
switching routine if that is present; the code leaves the stack alone when the routine is
the last walked frame, and counts the symbol's end address as inside it. The comment at
lines 149-153 of that file speaks of skipping two frames; the code ignores whether the two
steps succeeded.

## Model

| member | source | states |
|---|---|---|
| `DwarfParsing.DwarfParser.GetLeb` | internal/async-profiler/dwarf.h:106-115 | for an encoding of any length, the result is the mathematical value of section 7.6 of DWARF 5 modulo 2^32, and exactly the encoding is consumed |
| `DwarfParsing.DwarfParser.GetSLeb` | internal/async-profiler/dwarf.h:117-129 | the same for signed numbers, with and without the sign fill |
| `DwarfParsing.DwarfParser.SkipLeb` | internal/async-profiler/dwarf.h:131-133 | skipping consumes exactly what reading would |
| `Leb128.UnsignedRoundTrip` | internal/async-profiler/dwarf.h:106-115 | decoding undoes the standard's unsigned encoding of every number and consumes exactly it |
| `Leb128.SignedRoundTrip` | internal/async-profiler/dwarf.h:117-129 | decoding undoes the standard's signed encoding of every number and consumes exactly it |
| `Leb128.StandardExamples` | internal/async-profiler/dwarf.h:106-129 | the encodings are those of the standard's own examples |
| `InstructionFormat.OpDecodes` | internal/async-profiler/dwarf.cpp:294-330 | every operation, written with its code of section 7.7.1 of DWARF 5, is read back with its length |
| `InstructionFormat.BlockReads` | internal/async-profiler/dwarf.cpp:287-335 | a written block is evaluated to its end: to the exact total, truncated, or to zero where any operation is one the parser does not know |
| `InstructionFormat.CodeDecodes` | internal/async-profiler/dwarf.cpp:159-278 | every instruction in each of its forms, written with its opcode of section 7.24 of DWARF 5, is read back with its length |
| `InstructionFormat.OtherUnknown` | internal/async-profiler/dwarf.cpp:261-262 | every other first byte is an unknown instruction |
| `InstructionFormat.ProgramReads` | internal/async-profiler/dwarf.cpp:159-278 | a written program is read back instruction by instruction, up to a set-location |
| `ImageLayout.HeaderReads` | internal/async-profiler/dwarf.cpp:90-106 | wherever a header lies, its entries are found at its own position plus their offsets, of either sign |
| `ImageLayout.OtherHeaderEmpty` | internal/async-profiler/dwarf.cpp:96-101 | another version, encoding or count is no entry at all |
| `ImageLayout.CieReads` | internal/async-profiler/dwarf.cpp:109-121 | a common information entry written with any augmentation and any numbers is read back with its factors |
| `ImageLayout.FdeReads` | internal/async-profiler/dwarf.cpp:123-143 | an entry written anywhere behind its common information entry, with any augmentation data, is read back with its range, factors and instructions |
| `ImageLayout.AugmentedProgram` | internal/async-profiler/dwarf.cpp:139-141 | in any image, where augmentation data are announced and their length fits a word, the parser reads the instructions that are meant |
| `ImageLayout.SkippedLengths` | internal/async-profiler/dwarf.cpp:110-113 | a record is skipped exactly for the lengths 0 and 0xffffffff |
| `ImageLayout.ImageReads` | internal/async-profiler/dwarf.cpp:90-143 | a whole written image is read back: the entries its header points to, in order, compiled under the first one's factors |
| `Words.OrShifted` | internal/async-profiler/dwarf.h:108-110 | or-ing a shifted digit into the result is addition modulo 2^32, also for bits shifted past the word |
| `FrameTable.PackCfaRoundTrip` | internal/async-profiler/dwarf.cpp:338 | for a register below 256 and an offset of 24 bits, the step's unpacking recovers what was packed |
| `FrameTable.PackPcOffsetRoundTrip` | internal/async-profiler/dwarf.cpp:250-253 | a 31-bit pc offset is recovered by the step and is never confused with an even frame-pointer offset or the same-value mark |
| `DwarfParsing.DwarfParser.AddRecord` | internal/async-profiler/dwarf.cpp:337-342 | in place, including the decrement inside the condition and growth, the table becomes the one with the row appended, replaced or dropped; the last-record pointer stays valid |
| `DwarfParsing.DwarfParser.AddRecordRaw` | internal/async-profiler/dwarf.cpp:344-356 | growth keeps the contents; the record is written behind them and the returned pointer is into the current table |
| `DwarfParsing.DwarfParser.ParseExpression` | internal/async-profiler/dwarf.cpp:287-335 | the loop computes the restricted evaluation and stops where it stops |
| `DwarfParsing.DwarfParser.ParseInstructions` | internal/async-profiler/dwarf.cpp:145-282 | the in-place loop appends exactly the rows that the decoded program emits, for every byte string |
| `DwarfParsing.DwarfParser.ParseFde` | internal/async-profiler/dwarf.cpp:123-143 | one entry's effect on table and alignment factors, reading the CIE only while the table is empty |
| `DwarfParsing.DwarfParser.constructor` | internal/async-profiler/dwarf.cpp:76-107 | the constructed parser holds the compilation of the whole image |
| `EhFrame.ImageIsStream` | internal/async-profiler/dwarf.cpp:101-143 | parsing entry by entry equals compressing one stream of all rows under the first entry's alignment factors |
| `EhFrame.FdeGrowth` | internal/async-profiler/dwarf.cpp:123-143 | an entry adds at most one record per advance and two more |
| `FrameTable.CompressionPreservesRules` | internal/async-profiler/dwarf.cpp:337-342 | merging and overwriting leave the rule in force at every location what the uncompressed rows say |
| `FrameTable.LastRecordOwner` | internal/async-profiler/dwarf.cpp:337-342 | after new rows, either all were absorbed by the old last record or the last record carries the new rows' end |
| `DwarfReference.RelativeBlockValue` | internal/async-profiler/dwarf.cpp:287-335 | on every pc-relative block, the standard's stack machine yields the pc plus an offset and the parser yields that offset in 32-bit arithmetic |
| `DwarfReference.PltBlockValue` | internal/async-profiler/dwarf.cpp:218-222 | the special PLT rule computes what the linker's eleven-byte expression means on the standard's stack machine |
| `RuleRefinement.StepRefines` | internal/async-profiler/dwarf.cpp:159-281 | every supported instruction keeps the parser's rules standing for the standard's row, and its single saved slot for the row remembered last |
| `RuleRefinement.StepExact` | internal/async-profiler/dwarf.cpp:159-281 | the support condition is exact for one instruction: the parser's rules stand for the new row if and only if the step is supported; for a restore, if and only if the row it takes back is expressed like the one remembered last |
| `RuleRefinement.ProgramExact` | internal/async-profiler/dwarf.cpp:145-282 | over whole programs, with any nesting of remembered states, the parser's rules stand for the standard's row after every instruction up to a location if and only if the program is supported up to there |
| `EmittedRules.ProgramRefines` | internal/async-profiler/dwarf.cpp:145-282 | for every program and every location at which what it told the parser is known, whatever went wrong before, the emitted row says that, and encodes a row if and only if the row asks for the same |
| `EmittedRules.SupportedHeld` | internal/async-profiler/dwarf.cpp:145-282 | up to a location to which a program is supported, what it told the parser is known and is what the standard's row asks for |
| `PlainPrograms.PlainSupported` | internal/async-profiler/dwarf.cpp:159-281 | every program of ordinary instructions that remembers at most one state at a time is supported |
| `PlainPrograms.UnrecordedExact` | internal/async-profiler/dwarf.cpp:187-195 | an instruction that is read past is harmless if and only if it leaves the row's frame-pointer and return-address rules alone |
| `PlainPrograms.RestoreIgnored` | internal/async-profiler/dwarf.cpp:276-277 | a restore of the frame pointer's rule is lost: the parser and the standard differ on a concrete program |
| `PlainPrograms.NestedRememberLost` | internal/async-profiler/dwarf.cpp:196-207 | two remembered states are one too many: a concrete program on which the second restore is wrong |
| `PlainPrograms.EpilogueRecovers` | internal/async-profiler/dwarf.cpp:196-207 | an error may pass: behind an epilogue inside a function, whose restored rule was read past, the row told is the standard's again, though the program is not supported |
| `PlainPrograms.SameRowRememberedTwice` | internal/async-profiler/dwarf.cpp:196-207 | the same row remembered twice is restored right both times |
| `Witnesses.RestoringDecodes` | internal/async-profiler/dwarf.cpp:269-277 | bytes that decode to the program with the lost restore |
| `Witnesses.NestingDecodes` | internal/async-profiler/dwarf.cpp:196-218 | bytes that decode to the program with two remembered states |
| `TableCorrectness.TableSearchable` | internal/async-profiler/dwarf.cpp:337-356 | the compiled table is strictly sorted and no record ends before it starts |
| `TableCorrectness.LookupSound` | internal/async-profiler/dwarf.cpp:123-282 | a record found for a covered location at which what was told is known says that, and carries the rule of the standard's row there, under the entry's own common information entry, if and only if that row asks for the same; whatever was merged, overwritten or compiled from other entries |
| `TableCorrectness.SupportedAgrees` | internal/async-profiler/dwarf.cpp:109-143 | so it is wherever the program is supported and the entry's own common information entry gives the image's factors, augmentation data, and a row that asks for what the parser starts with |
| `TableCorrectness.LookupMisses` | internal/async-profiler/dwarf.cpp:337-342 | a covered location of any program has no record if and only if its entry's rows so far were swallowed by an earlier entry's record that ends before it |
| `TableCorrectness.LookupMissesAtEnd` | internal/async-profiler/codeCache.cpp:227-235 | the same at the inclusive end of an entry, where the row that ends it counts too |
| `TableCorrectness.LookupMissesAfterGap` | internal/async-profiler/dwarf.cpp:337-342 | for an entry after a gap this holds exactly as long as its own rows all repeat the entry row; in the first entry, exactly before its first row |
| `TableCorrectness.LookupMissesAdjoining` | internal/async-profiler/dwarf.cpp:337-342 | for every entry that adjoins the one before it, past its start, this holds exactly when in addition the previous entry got no record at its own end, or the program emits no row at all |
| `TableCorrectness.LookupOutside` | internal/async-profiler/codeCache.cpp:227-235 | between entries nothing is found, and at the inclusive end of an entry only the entry row |
| `Witnesses.ImageDecodes` | internal/async-profiler/dwarf.cpp:76-143 | a concrete image, byte by byte, decodes to three entries, two with the factors 1 and -8 and one with 1 and -4, all compiled under the first ones |
| `Witnesses.LeafFunctionMissed` | internal/async-profiler/dwarf.cpp:337-342 | in that image a function is covered, the standard gives it a row, and yet it is not found |
| `Witnesses.FarFunctionMisread` | internal/async-profiler/dwarf.cpp:128-133 | in that image the record found for the function with other factors is not the standard's row, although under the image's factors its program is supported: the condition on the own common information entry cannot be dropped |
| `CodeCaching.CodeCache.FindFrameDesc` | internal/async-profiler/codeCache.cpp:211-235 | the loop stays in bounds, terminates, and returns what the search function of the library's table returns |
| `CodeCaching.FindFrameDescIsLookup` | internal/async-profiler/codeCache.cpp:211-235 | on a searchable table the binary search is the linear lookup with the inclusive end, for every target |
| `CodeCaching.CodeCache.Expand` | internal/async-profiler/codeCache.cpp:69-78 | the capacity doubles and the blobs stay |
| `CodeCaching.CodeCache.Add` | internal/async-profiler/codeCache.cpp:80-105 | appends the blob with a printable name, growing if needed, and widens the bounds only when asked |
| `CodeCaching.CodeCache.Sort` | internal/async-profiler/codeCache.cpp:107-114 | the blobs become a sorted permutation, and unset bounds are taken from the first and last |
| `CodeCaching.CodeCache.Find` | internal/async-profiler/codeCache.cpp:125-132 | returns the first blob whose bounds, the end exclusive, hold the address |
| `CodeCaching.CodeCache.BinarySearch` | internal/async-profiler/codeCache.cpp:134-155 | on separated blobs the name found is the linear search's, and otherwise that of a touching or empty predecessor or the library |
| `CodeCaching.NameByBounds` | internal/async-profiler/codeCache.cpp:125-155 | what that is by the blobs' bounds alone: the holder's name, or that of the last ended blob where it touches or is empty, or the library's |
| `CodeCaching.SortedSearchIsFind` | internal/async-profiler/codeCache.cpp:107-155 | after sorting disjoint blobs, the binary search names the blob that the linear search found before sorting |
| `CodeCaching.SortedSearchExact` | internal/async-profiler/codeCache.cpp:107-155 | with empty symbols anywhere, the binary search after sorting names the blob that the linear search found if and only if the first midpoint among it and the empty symbols behind it is its own, and otherwise the last of those |
| `CodeCaching.EmptyBlobHides` | internal/async-profiler/codeCache.cpp:134-155 | an empty symbol at the start of another one hides it: the condition on empty blobs cannot be dropped |
| `LibraryList.CodeCacheArray.FindFrame` | internal/async-profiler/stackWalker.cpp:29-44 | at the first library with minimum <= pc < maximum, the record that its table has for the pc's distance from its text base; the frame-pointer convention where there is none or no such library |
| `LibraryList.FrameAtBounds` | internal/async-profiler/codeCache.h:122-124 | the same of the function that the stepper's theorems speak of |
| `CallChain.HomeIsFirst` | internal/async-profiler/codeCache.h:122-124 | the library a pc belongs to is the first whose bounds hold it |
| `LibraryList.CodeCacheArray.Add` | internal/async-profiler/codeCache.h:183-187 | a library is appended behind the published ones, which do not change |
| `StackWalking.StepStackContext` | internal/async-profiler/stackWalker.cpp:39-83 | the in-place step, including the registers it leaves when it fails halfway |
| `StackWalking.StackWalk` | internal/async-profiler/stackWalker.cpp:98-113 | writes the pcs of the visited frames after the skipped ones, touches no other entry, and returns their number |
| `Unwinding.StepExact` | internal/async-profiler/stackWalker.cpp:45-82 | a step succeeds if and only if the record prescribes a plausible caller, in arithmetic that did not wrap, and then yields it |
| `Unwinding.RecordUnwindsRow` | internal/async-profiler/stackWalker.cpp:48-77 | a record that stands for a row prescribes, for all registers and memory, the caller that the row prescribes |
| `Unwinding.WalkDiscipline` | internal/async-profiler/stackWalker.cpp:98-113 | after k steps the stack pointer has not moved down, has climbed less than k times 0x40000, is aligned, and every later pc is plausible |
| `Unwinding.WalkFollowsChain` | internal/async-profiler/stackWalker.cpp:98-113 | the walk of a chain of any length visits exactly its frames, cut at the depth limit |
| `CallChain.FrameUnwindsTruly` | internal/async-profiler/stackWalker.cpp:39-77 | from image bytes to restored registers: what the stepper's record prescribes is the caller that the standard's row prescribes, at the very end of an entry the caller by the entry row, and the frame-pointer convention exactly where the row was absorbed or none applies |
| `Unwinding.UnwoundReadsNeeds` | internal/async-profiler/stackWalker.cpp:63-77 | what a record prescribes depends on at most two words of memory, and these are they |
| `CallChain.EventKeepsStack` | internal/async-profiler/stackWalker.cpp:39-83 | every call, body and return keeps every waiting frame unwindable, as long as it spares the words that unwinding them reads |
| `CallChain.WritingBelowConforms` | internal/async-profiler/stackWalker.cpp:39-83 | writing only below one's own return address is one way to do so |
| `CallChain.WalkRecoversCalls` | internal/async-profiler/stackWalker.cpp:98-113 | after any run of calls, bodies and returns, the walk yields the current pc and the return addresses of the calls that have not returned |
| `Witnesses.ImageRun` | internal/async-profiler/stackWalker.cpp:98-113 | such runs exist: a run through two activations of a compiled function that moves its frame, one of which writes into the other's, is recovered |
| `Loading.ParseLibrary` | internal/async-profiler/symbols_linux.cpp:247-254 | the library holds the compiled image of its mapping; its bounds are the mapping's and its text base is the image's |
| `Loading.LoadLibraries` | internal/async-profiler/symbols_linux.cpp:517-549 | every mapping is parsed and published in order until the list is full |
| `Loading.Traceback` | internal/async-profiler/cgotraceback.cpp:198-200 | the buffer receives the current pc and the return addresses of the pending calls of any conforming run, and nothing behind the depth is touched |
| `Loading.LoadAndTrace` | internal/async-profiler/cgotraceback.cpp:198-200 | image bytes in, pending calls out: the same through the libraries that were just parsed and published |
| `CgoContexts.Thread.CgoContextGet` | internal/async-profiler/cgotraceback.cpp:89-98 | takes the first free slot and changes no other |
| `CgoContexts.Thread.CgoContextRelease` | internal/async-profiler/cgotraceback.cpp:100-102 | frees the slot and changes nothing else |
| `CgoContexts.Thread.AsyncCgoContext` | internal/async-profiler/cgotraceback.cpp:131-161 | acquires with the registers two frames up, or releases, or does nothing, as one transition of the pool |
| `CgoContexts.Thread.AsyncCgoTraceback` | internal/async-profiler/cgotraceback.cpp:170-207 | fills the cache at most once and copies its front, or writes the signal walk; the rest of the buffer is untouched |
| `CgoContexts.Thread.TruncateAsmcgocall` | internal/async-profiler/cgotraceback.cpp:108-125 | zeroes the entry after the first frame of the switching routine that has a walked successor |
| `CgoContexts.TruncatedBounds` | internal/async-profiler/cgotraceback.cpp:108-125 | in terms of the bounds: the entry after the first one with start <= entry + base <= end that has a walked successor is zeroed, and nothing where there is none |
| `CgoContexts.TruncateOnce` | internal/async-profiler/cgotraceback.cpp:108-125 | truncation changes at most that entry and is idempotent |
| `ContextRuns.TracebacksAgree` | internal/async-profiler/cgotraceback.cpp:182-196 | all tracebacks of a context between acquire and release, in any interleaving, are prefixes of one array: the truncated walk from the registers saved at acquire |
| `ContextRuns.WalkedEntries` | internal/async-profiler/cgotraceback.cpp:189-191 | the walked entries of that array are the fresh walk, truncated; the others are what the slot held before |
| `ContextChain.SavedIsFrame` | internal/async-profiler/cgotraceback.cpp:143-160 | at a callback from code that can be unwound, the registers saved are those of its caller's caller |
| `ContextChain.SlotsStay` | internal/async-profiler/cgotraceback.cpp:149-160 | the words that unwinding a waiting frame reads stand through every conforming run that does not return into it |
| `ContextChain.ContextShowsCalls` | internal/async-profiler/cgotraceback.cpp:131-196 | every traceback of a context returns the calls that were pending when C called into Go, past the callback's caller and truncated; until the first traceback the saved function may go on and conforming code may run above it, as long as it does not return and its slots stand |
| `ContextRuns.LiveContextsDistinct` | internal/async-profiler/cgotraceback.cpp:89-102 | over every legal run, live contexts are pairwise distinct slots, exactly those in use, as many as acquires minus releases and at most 256 |
| `ContextRuns.UseBounded` | internal/async-profiler/cgotraceback.cpp:89-98 | acquisition fails if and only if all 256 slots are in use |
| `ContextRuns.NestedCallbacksUsePrefix` | internal/async-profiler/cgotraceback.cpp:131-161 | under nested callbacks the in-use slots are always the prefix given by the depth, and each callback holds the slot of its depth |
| `ContextRuns.SignalShowsWalk` | internal/async-profiler/cgotraceback.cpp:198-204 | a reader of the signal buffer sees exactly the walk up to its first entry inside the switching routine's bounds; entries past the walk and its terminator are untouched |
| `Publication.ReadersSeePublished` | internal/async-profiler/codeCache.h:179-187 | in every interleaving, with readers that may see old counts, a reader reads below its count only initialised slots that never change, and its counts never decrease |

## Left out

- Symbolisation (`symbolize_default.c`, `symbolize_dwfl.c`): calls into libraries that cannot be seen.
- Reading of ELF and Mach-O files and of `/proc/self/maps`: file and loader I/O. Mappings, with the position of their unwind information and their symbols, are parameters, and a file mapped twice is one mapping.
- Signal handling and `safeAccess.cpp`: replaced by a total load that yields zero for unmapped words.
- Other architectures and 64-bit DWARF lengths: parameters or early returns.
- Name marking, prefix search, the global offset table, lookup of the `asmcgocall` symbol at start-up: easy members beside the indexes that are modelled.
- Failure of `malloc`, `realloc` and `new`, and `int` overflow of table counts beyond 2^31 records.
- Switching tracing off while contexts are live: `enabled` is read, never changed.
- Overlapping unaligned words in memory: words at different addresses are independent.
- DwarfParsing.DwarfParser.GetLeb: shift counts of 32 and more are undefined in C++; the model lets such digits contribute nothing, so values of encodings longer than five bytes are those of that reading.
- EmittedRules.ProgramRefines: where the last instruction for a part asked for something that the packed form cannot express, it does not say what is emitted, and none of a program's rows lies behind an unknown instruction.
- TableCorrectness.LookupSound: pointer encodings other than the 4-byte pc-relative one, return address columns other than 16, and the 8-byte data of the old `eh` augmentation are read as the parser reads them.
- CallChain.FrameUnwindsTruly: a covered pc at which a record is found is included only where what was told is known and is what the standard's row asks for; where it is known and is not, `TableCorrectness.LookupSound` says that the record is wrong.
- Publication.ReadersSeePublished: the count's stores and loads have release and acquire order and slots are plain; other memory orders are not modelled, and there is one writer, as in the program.
