# A verified model of the hard parts of strace

This project models, in Dafny, the parts of strace whose correctness is not evident from
reading them, and proves what they promise.

* **The seccomp filter compiler** (`src/filter_seccomp.c`). strace compiles "which syscalls are
  traced, per personality" into a classic BPF program, with two code generators: interval tests
  and bitmap words. `Bpf.dfy` is the BPF machine. `Section.dfy` gives code with placeholder jumps
  a meaning of its own and proves that back-patching the placeholders into 8-bit offsets keeps
  that meaning wherever the section is placed. `LinearCode.dfy` and `BinaryCode.dfy` give the
  meaning of the generated tests, `FilterProgram.dfy` puts the sections together and proves
  compiler correctness for every table, architecture and number, and `Generators.dfy` proves that
  the array-writing generators emit exactly these programs and stay inside their buffer.
  `SeccompSetup.dfy` covers the choice of the program and the restart operator, and
  `SeccompOrder.dfy` the probe that finds out in which order the kernel reports stops.
* **The intrusive circular list** (`src/list.h`): every operation on the heap of linked nodes
  refines an operation on sequences (`List.dfy`).
* **The ioctl table** (`src/ioctlsort.c`, `src/ioctl.c`): from the unsorted definitions, through
  sorting, duplicate marking and prefix suppression, to lookup and printing, for every choice
  qsort may make (`IoctlSort.dfy`, `IoctlTable.dfy`, `IoctlLookup.dfy`).
* **Call statistics** (`src/count.c`): the table of records, its growable bucket for unknown
  syscalls, the summary and its columns (`Statistics.dfy`, `SummaryColumns.dfy`, `Timespec.dfy`).
* **The filter and injection languages** (`src/basic_filters.c`, `src/filter_qualify.c`): syscall
  set specifications, `when=` ranges and the counting they stand for, injection specifications
  and the tables they fill (`Qualify.dfy`, `InjectWhen.dfy`, `Inject.dfy`, `StringToUint.dfy`),
  number sets (`NumberSets.dfy`), the delay arena and the delay timer (`Delay.dfy`).
* **Walks over records in tracee memory** (`src/dm.c`, `src/lsm.c`): `RecordWalks.dfy`.
* **Bit tricks** (`src/defs.h`): `IntLog.dfy`, and `popcount32` in `NumberSets.dfy`.

`Bits.dfy` holds the facts about binary numbers the others need. Machine words are numbers with
explicit bit operations; truncation and wrap-around are written out where the source has them.
A call that makes strace exit with a message is a method that returns `false`.

## Where the code does less than it seems to

Each of these is a theorem that gives the exact condition, with an input or a run at which the
code fails.

* The two generators disagree on numbers out of range, and in one-personality builds with a flag
  also on numbers below the flag (`FilterProgram.GeneratorsAgree`, `GeneratorsDiffer`).
* `is_complete_set` compares numbers of elements: it calls the inverted full set complete, and
  misses an inverted empty set that has kept its slots (`NumberSets.CompletenessTest`,
  `CompletenessInRange`, `MissedComplete`, `FalselyComplete`).
* `compare_name_info` goes round in a circle exactly when, for one name, a third `info` sorts
  between an `asm-generic/` and an `asm/` one (`IoctlSort.ComparatorConsistent`, `CyclicExample`).
* A definition whose code is 0xffffffff can be lost, because that code marks entries for deletion
  (`IoctlTable.CutOffExactly`, `CutOffExample`, `TiedExample`).
* Suppressing names that continue another one with the same code looks at the immediate
  predecessor only: a redundant entry is left exactly if two names continue a third one but not
  each other (`IoctlSort.RedundantExactly`, `IoctlTable.TableRedundancy`, `SuppressionExample`).
* Slots of the bucket for unknown syscalls that come from growing it hold leftovers besides the
  minima; their records are right exactly when the leftovers are zero, and the totals when the
  leftovers add up to zero (`Statistics.SlotUsable`, `Counters.Summary`, `LeftoverRun`).
* `ts_div` is exact if and only if its dividend fits in 64 bits (`Timespec.TsDiv`,
  `Timespec.TsDivExample`).
* A delay index of 0xffff is valid and at the same time means "none"; two delays in one
  specification need room for a second slot just then (`Inject.ParseExpression` with its predicate
  `Room`, `Inject.LastSlotExample`).
* A delayed tracee can be left waiting for a timer nobody listens to: exactly if the timer runs,
  goes off before the new delay ends, and is not watched (`Delay.Delays.DelayTcb`,
  `Delay.LostDelay`).

## Model

| member | source | states |
|---|---|---|
| FilterProgram.ProgramCorrect | src/filter_seccomp.c:304-569 | Compiler correctness for both generators: if no section is longer than 255 instructions, running the program on any arch and number returns TRACE or ALLOW exactly as the table-level specification says |
| Section.BackPatching | src/filter_seccomp.c:267-284 | Patching placeholders keeps the meaning of a section wherever it is placed: same verdict, or the first instruction behind the section with the same registers |
| Section.PatchedEffect | src/filter_seccomp.c:394-424 | Patching one instruction up to 255 places from the end resolves its placeholder exactly once and truncates nothing |
| Section.PlacedJump | src/filter_seccomp.c:544-562 | Where each jump of a patched section lands in the whole program, a patched offset that equals a placeholder included |
| Section.PlacedStep | src/filter_seccomp.c:544-562 | Instructions other than jumps do the same in the patched program as before patching |
| Section.VerdictsAtEnd | src/filter_seccomp.c:389-392 | The last two instructions of a placed section are the ALLOW and TRACE verdicts that patched jumps aim at |
| Section.PatchedInside | src/filter_seccomp.c:394-424 | After patching, every jump goes forward to inside the section, or to the entry of the next section where leaving is allowed |
| LinearCode.TestMeaning | src/filter_seccomp.c:286-302 | An interval test traces exactly the numbers from lower up to below upper and otherwise falls through |
| LinearCode.ScanMeaning | src/filter_seccomp.c:365-377 | The tests emitted so far trace exactly the traced numbers before the open interval |
| LinearCode.TestsMeaning | src/filter_seccomp.c:365-382 | All interval tests together trace exactly the traced numbers, flag included |
| LinearCode.LinearMeaning | src/filter_seccomp.c:365-392 | Tests and tail trace a number exactly if it is traced or at least the number of syscalls |
| LinearCode.IntervalTestsSize | src/filter_seccomp.c:365-382 | Three times the number of emitted instructions is at most 2 * (n + 1) |
| LinearCode.ScanShape | src/filter_seccomp.c:365-377 | The open interval holds traced numbers only, and the size bound holds at every step of the scan |
| BinaryCode.ScanBits | src/filter_seccomp.c:524-532 | The word under construction holds exactly the traced bits since the last multiple of 32 |
| BinaryCode.FullWordBits | src/filter_seccomp.c:525-531 | A completed word holds exactly the traced bits of its 32 numbers |
| BinaryCode.WordMeaning | src/filter_seccomp.c:434-460 | A word test answers by the bit for its own word, all-zero and all-one words included, and otherwise falls through |
| BinaryCode.ScanMeaning | src/filter_seccomp.c:524-532 | The tests emitted so far answer for exactly the completed words |
| BinaryCode.TestsMeaning | src/filter_seccomp.c:524-542 | All word tests and the tail, the partial last word included, trace exactly the numbers in range that are traced |
| BinaryCode.SplitMeaning | src/filter_seccomp.c:507-522 | The arithmetic before the tests leaves number / 32 in A and 1 << number % 32 in X, the flag taken off |
| BinaryCode.MaskedValue | src/filter_seccomp.c:501-504 | Taking off the flag bit maps numbers in range to their index, and no other number of the section to an index in range |
| BinaryCode.BinaryMeaning | src/filter_seccomp.c:501-542 | A bitmap section traces exactly the numbers in range that are traced |
| BinaryCode.WordTestsSize | src/filter_seccomp.c:524-535 | At most three instructions for every 32 numbers, rounded up |
| Tables.FlagOr | src/filter_seccomp.c:373-382 | OR-ing a number with the flag adds the flag |
| FilterProgram.HeadMeaning | src/filter_seccomp.c:341-363 | The head of a section leaves for the next section, with arch back in A, unless arch and flag match, and otherwise loads the number |
| FilterProgram.SectionMeaning | src/filter_seccomp.c:341-392 | A section entered with A == arch leaves with A == arch or gives its own verdict |
| FilterProgram.SectionShape | src/filter_seccomp.c:341-392 | Every section ends in the two verdicts and contains only jumps that back-patching can resolve |
| FilterProgram.Select | src/filter_seccomp.c:332-341 | The section that handles a call belongs to the highest personality that matches |
| FilterProgram.RunSection | src/filter_seccomp.c:341-424 | Running a patched section inside a program gives its verdict or goes on behind it |
| FilterProgram.SectionsCorrect | src/filter_seccomp.c:341-431 | From any section on, the program judges a call by the highest matching personality, and traces calls nobody claims |
| FilterProgram.ProgramChecked | src/filter_seccomp.c:394-431 | Every jump of a program leads forward to one of its instructions and the last instruction is a return, so execution halts within its length |
| FilterProgram.CheckedReturns | src/filter_seccomp.c:394-431 | What that is for: a program with these properties returns a verdict on every call, from wherever it is entered |
| FilterProgram.GeneratorsAgree | src/filter_seccomp.c:385-392 | The generators give the same verdict if and only if no section is entered or the number is in range there (or, in a one-personality build, below the flag and untraced) |
| FilterProgram.GeneratorsDiffer | src/filter_seccomp.c:537-542 | A table and a call that the linear program stops and the bitmap program lets pass |
| FilterProgram.InRangeVerdict | src/filter_seccomp.c:537-542 | On numbers in range both generators trace exactly the traced syscalls |
| Generators.PatchOne | src/filter_seccomp.c:549-560 | Patching one instruction in place replaces its placeholders and touches no other |
| Generators.PatchSection | src/filter_seccomp.c:394-424 | Patching in place turns the section in the array into its patched form and leaves everything before it alone |
| Generators.EmitIntervalTest | src/filter_seccomp.c:286-302 | The array gains exactly the interval test |
| Generators.EmitHead | src/filter_seccomp.c:345-363 | The array gains exactly the head of the section |
| Generators.EmitIntervalTests | src/filter_seccomp.c:365-383 | The loop over numbers writes exactly the interval tests |
| Generators.EmitLinearSection | src/filter_seccomp.c:341-392 | A whole unpatched linear section is written |
| Generators.LinearSection | src/filter_seccomp.c:341-424 | One round of the loop writes the patched section, or reports overflow exactly if it has more than 255 instructions |
| Generators.LinearRoomSuffices | src/filter_seccomp.c:55-60 | Under a bound on the number of syscalls everything the linear generator writes stays inside its buffer |
| Generators.LinearFilterGenerator | src/filter_seccomp.c:304-432 | The buffer holds the linear program, or overflow is reported, exactly if a section is too long; the only demand is room for what it writes, whose length is returned |
| Generators.EmitWordTest | src/filter_seccomp.c:434-460 | The array gains exactly the word test |
| Generators.EmitWords | src/filter_seccomp.c:524-532 | The bitmap loop writes exactly the tests of the completed words, stopping early only in a program that is already oversized |
| Generators.EmitWordTests | src/filter_seccomp.c:524-535 | So do the loop and the partial last word |
| Generators.EmitSplit | src/filter_seccomp.c:501-522 | The array gains exactly the instructions that split the number |
| Generators.EmitBinarySection | src/filter_seccomp.c:481-542 | A whole unpatched bitmap section is written, inside the buffer whatever the table size |
| Generators.BinarySection | src/filter_seccomp.c:478-562 | One round of the loop writes the patched section or reports overflow exactly if it is too long, unless the program is oversized |
| Generators.BinaryMatchFilterGenerator | src/filter_seccomp.c:462-569 | A program of permitted length without overflow is the bitmap program; no table overflows the buffer |
| SeccompOrder.HandleMeaning | src/filter_seccomp.c:121-219 | At each step the tracer goes on exactly on the expected report, records the order at the second one, and finds the kernel usable only at the sixth |
| SeccompOrder.ReportsOne | src/filter_seccomp.c:109-119 | An interrupted wait is not reported, any other result is |
| SeccompOrder.ReportsConcat | src/filter_seccomp.c:109-119 | Reports come in the order of the results |
| SeccompOrder.Rejected | src/filter_seccomp.c:121-219 | One unexpected report rules out acceptance in either order |
| SeccompOrder.SkipInterrupted | src/filter_seccomp.c:109-119 | Interrupted waits are skipped and count for nothing |
| SeccompOrder.Probe.Tracer | src/filter_seccomp.c:103-223 | Filtering is enabled if and only if the reports are exactly the expected run in one of the two orders, the recorded order is the observed one, and the tracer stops at the first unexpected report or the sixth |
| SeccompSetup.TracedExactly | src/filter_seccomp.c:255-265 | Traced are the trace set, two kinds of syscalls always and one kind for each mode, and nothing else |
| SeccompSetup.SeccompFilter.ChooseProgram | src/filter_seccomp.c:581-599 | The program kept is the shortest that does not overflow, the linear one in a tie, and it is short enough for the kernel if and only if some program is |
| SeccompSetup.SeccompFilter.CheckSeccompFilterProperties | src/filter_seccomp.c:571-603 | Filtering stays enabled if and only if the kernel supports it, some program is installable and the probe accepts; then the program kept is the shortest one, traces exactly the calls in range that traced_by_seccomp selects, and agrees with the restart operator |
| SeccompSetup.EntersOwnSection | src/filter_seccomp.c:332-341 | A syscall in range enters the section of its own personality |
| SeccompSetup.DistinguishableExactly | src/filter_seccomp.c:332-341 | All calls of a personality enter its own section if and only if every higher one with the same arch has a flag above all of its numbers |
| SeccompSetup.InstalledProgram | src/filter_seccomp.c:255-265 | Whichever program is installed, it traces a syscall in range exactly if traced_by_seccomp holds for it |
| SeccompSetup.RestartMatchesProgram | src/filter_seccomp.c:698-705 | The restart operator is PTRACE_SYSCALL if and only if the tracee leaves a syscall that the installed program traces |
| SeccompSetup.RestartElsewhere | src/filter_seccomp.c:698-705 | It is PTRACE_CONT for a tracee that is not leaving a syscall, or one out of range |
| SeccompSetup.InstalledFilters | src/filter_seccomp.c:255-265 | Both, for every personality and call in range |
| List.RingFrom | src/list.h:92-110 | What circular well-formedness means seen from one node |
| List.Rotate | src/list.h:19-24 | A ring has no distinguished start |
| List.ListInit | src/list.h:105-110 | The node becomes a ring of its own |
| List.EmptyExactly | src/list.h:112-124 | Empty are an item linked to itself only and one that is all zero |
| List.EmptyMeansNoItems | src/list.h:112-124 | A list in use is reported empty if and only if it has no items |
| List.ListInsert | src/list.h:171-182 | Prepends to the sequence and keeps the ring |
| List.ListAppend | src/list.h:184-195 | Appends to the sequence and keeps the ring |
| List.ListRemove | src/list.h:197-214 | Deletes the item from its place and makes it a ring of its own; reports false and changes nothing exactly if it was in no list with others |
| List.ListRemoveTail | src/list.h:216-232 | Takes the last item off, or returns null from an empty list |
| List.ListRemoveHead | src/list.h:234-250 | Takes the first item off, or returns null from an empty list |
| List.ListReplace | src/list.h:252-272 | The new item takes the place of the old one, which becomes a ring of its own |
| List.ListForeachSafe | src/list.h:286-298 | Visits the original items once each, in order, while the body removes items it is given; exactly those have left the list |
| List.KeptMembers | src/list.h:286-298 | The items left are the original ones that were not removed |
| IoctlSort.ComparatorConsistent | src/ioctlsort.c:38-65 | compare_name_info is total, and transitive if and only if no third info lies between an asm-generic/ and an asm/ one |
| IoctlSort.BeforeExactly | src/ioctlsort.c:48-50 | The order of strings is the lexicographic one |
| IoctlSort.NameInfoTransitive | src/ioctlsort.c:38-65 | The comparator is transitive on any three entries that are not such a triple |
| IoctlSort.CyclicExample | src/ioctlsort.c:38-65 | Three definitions on which the comparator is cyclic |
| IoctlSort.CodeNameConsistent | src/ioctlsort.c:75-84 | compare_code_name is total and transitive on all entries |
| IoctlSort.CodeIsSum | src/ioctlsort.c:67-73 | For fields of the sizes the kernel gives them, the code is the sum of the three fields in their places |
| IoctlSort.Qsort | src/ioctlsort.c:91 | A rearrangement, without neighbours out of order if the comparator is consistent |
| IoctlSort.MarkAll | src/ioctlsort.c:93-112 | The two marking loops mark exactly the entries whose predecessor has the same name |
| IoctlSort.MarkedCode | src/ioctlsort.c:67-73 | Marked entries get the highest code |
| IoctlSort.UnmarkedAreKept | src/ioctlsort.c:93-101 | The unmarked entry of a name is a least one of it: asm/ before asm-generic/ |
| IoctlSort.KeptInfo | src/ioctlsort.c:52-64 | An asm-generic/ definition is kept only for lack of an asm/ one, otherwise the one whose info comes first |
| IoctlSort.FirstOfName | src/ioctlsort.c:93-101 | In any order of the array, every entry has an unmarked one of its name at or before it |
| IoctlSort.PrintTable | src/ioctlsort.c:117-128 | The printing loop prints all but suppressed entries up to the first marked one |
| IoctlSort.PrintedRepresents | src/ioctlsort.c:117-128 | Suppressing prefixes loses nothing: every entry passed has a printed one with its code and a prefix of its name |
| IoctlSort.PrintedSound | src/ioctlsort.c:117-128 | Every printed entry is an entry passed that does not continue the name of its predecessor with the same code |
| IoctlSort.PrintedExactly | src/ioctlsort.c:117-128 | Entries are printed in order and once each |
| IoctlSort.PrintedPlaces | src/ioctlsort.c:124-127 | An entry is printed if and only if it does not continue the name of its predecessor with the same code |
| IoctlSort.RedundantExactly | src/ioctlsort.c:124-127 | An entry that continues an earlier one with the same code is left if and only if two names continue a third one but not each other |
| IoctlSort.SuppressionExample | src/ioctlsort.c:124-127 | Of A, AB and AC with one code, A and AC are printed |
| IoctlSort.PrintedSorted | src/ioctlsort.c:117-128 | The printed table is sorted by code |
| IoctlSort.NotCutOff | src/ioctlsort.c:117-123 | A marked entry stops the loop only behind every entry that sorts before it |
| IoctlTable.TableSound | src/ioctlsort.c:86-129 | For every input and every outcome of the two sorts the table is sorted and made of surviving definitions that are not shadowed; survivors are the ones to keep if the comparator is consistent |
| IoctlTable.TableExactly | src/ioctlsort.c:86-129 | A surviving definition is in the table if and only if none with its code and a proper prefix of its name comes right before it |
| IoctlTable.TableRedundancy | src/ioctlsort.c:86-129 | The table has a redundant entry if and only if surviving names fork |
| IoctlTable.NameSurvives | src/ioctlsort.c:93-101 | Every name of the input has a surviving definition |
| IoctlTable.SparedIsComplete | src/ioctlsort.c:86-129 | If definitions with the reserved code are spared, every outcome represents every surviving definition |
| IoctlTable.TableComplete | src/ioctlsort.c:86-129 | So it does without the reserved code |
| IoctlTable.MarkedNames | src/ioctlsort.c:93-112 | Only names the input repeats are marked, and all of them once names are in order |
| IoctlTable.Representative | src/ioctlsort.c:117-128 | What represents a definition with the reserved code comes at or before every marked name |
| IoctlTable.CanSurvive | src/ioctlsort.c:91 | The first sort can let any definition survive that may be kept |
| IoctlTable.CanMarkFirst | src/ioctlsort.c:114 | The second sort can put marked entries before others of the same code and name |
| IoctlTable.CutOffExactly | src/ioctlsort.c:103-123 | For every input, no outcome loses a definition if and only if each one with the reserved code has one named by a prefix of it in front of all repeated names |
| IoctlTable.CutOffExample | src/ioctlsort.c:103-123 | Three definitions of which every outcome loses the last |
| IoctlTable.TiedExample | src/ioctlsort.c:103-123 | A repeated definition with the reserved code is not spared |
| IoctlTable.SortIoctls | src/ioctlsort.c:86-129 | The tool's run over the array is such an outcome, for every input: sorted, made of surviving definitions that are not shadowed, complete if they are spared |
| IoctlLookup.Bsearch | src/ioctl.c:39-45 | Finds an entry with the code if and only if there is one |
| IoctlLookup.Lookup | src/ioctl.c:47-62 | Steps back to the first entry with the code |
| IoctlLookup.NextMatch | src/ioctl.c:64-72 | The next entry if it has the code, and otherwise no later one has it |
| IoctlLookup.SymbolsOfOne | src/ioctl.c:548-556 | An entry has its symbol for its own code only |
| IoctlLookup.SymbolsConcat | src/ioctl.c:548-556 | The symbols of a code are the table restricted to it, in order and as often |
| IoctlLookup.PrintSymbols | src/ioctl.c:548-556 | On any sorted table, prints exactly the symbols of the code, once each, in order |
| IoctlLookup.DefinedIoctlIsPrinted | src/ioctl.c:548-556 | An ioctl defined in a spared input is printed with a prefix of its name, end to end |
| Statistics.RunSummarises | src/count.c:305-307 | After any calls a clock that started fresh holds their sum, minimum and maximum |
| Statistics.SamplesOf | src/count.c:292-321 | The time counted is that of the wall clock if asked for and of the CPU otherwise, less the overhead and never negative |
| Statistics.FreshDescribes | src/count.c:269-326 | After any calls a fresh record holds their number, failures and clamped times on both clocks |
| Statistics.RecordConsistent | src/count.c:575-601 | errors <= calls, calls * min <= total <= calls * max, and the average lies between minimum and maximum, on both clocks |
| Statistics.ClockConsistent | src/count.c:575-601 | The same for one clock |
| Statistics.AverageBetween | src/count.c:597 | The rounded average stays between any bounds of the samples |
| Statistics.AverageIsTsDiv | src/count.c:589-597 | The average is what ts_div computes if and only if 64 bits are enough |
| Statistics.RunCarries | src/count.c:253-261 | What a slot held before its first call is carried along for ever |
| Statistics.SlotUsable | src/count.c:160-167 | A slot of uninitialised memory gives right records for all calls if and only if the fields that are not reset are zero |
| Statistics.Counters.constructor | src/count.c:37-38 | The tables start empty |
| Statistics.Counters.GetUnknown | src/count.c:186-197 | Finds the entry of a number if and only if there is one |
| Statistics.Counters.Reserve | src/count.c:251-261 | Room for one more entry: 16 slots at first, then twice as many; all entries are kept |
| Statistics.Counters.UnknownInsert | src/count.c:245-267 | The number gets one entry; keys stay distinct and out of the known range; other entries stay |
| Statistics.Counters.Record | src/count.c:286-326 | The record of the call's syscall, and no other, counts the call |
| Statistics.Counters.CountSyscall | src/count.c:269-326 | One more call in the history, every invariant kept: all records are those of the calls of their syscall |
| Statistics.KnownTotals | src/count.c:269-326 | At any time the record of a known syscall describes its calls |
| Statistics.UnknownTotals | src/count.c:245-326 | At any time the records in the first 16 slots describe the calls of their syscalls |
| Statistics.AddedRecord | src/count.c:575-601 | A record adds to the totals what its slot held at first, and its calls |
| Statistics.Counters.Summary | src/count.c:625-677 | The index lists known and unknown numbers; the totals are those of the whole run plus the leftovers of the slots, hence right if and only if these add up to nothing, as they do for the first 16 |
| Statistics.LeftoverRun | src/count.c:253-261 | A run of seventeen unknown syscalls whose totals count one call too many |
| Statistics.KeysArePartition | src/count.c:652-677 | The numbers of the index are distinct and every call belongs to one |
| Statistics.SumIsWhole | src/count.c:652-677 | Summing any weight over the records of the index counts every call exactly once |
| Statistics.Conservation | src/count.c:575-601 | Totals over the index are right if and only if they equal those of the run |
| Statistics.ReportedOnce | src/count.c:797-805 | However the index is sorted, a counted syscall occurs in it exactly once |
| SummaryColumns.JoinOfPieces | src/count.c:487-523 | The pieces of a list are free of commas and joined by commas are the list |
| SummaryColumns.PiecesOfJoin | src/count.c:487-523 | Pieces free of commas, joined by commas, are split as they were |
| SummaryColumns.WallColumns | src/count.c:74-78 | Four columns are about the wall clock |
| SummaryColumns.Resolve | src/count.c:492-513 | The column of the first alias that fits a name, and none if and only if the name is unknown |
| SummaryColumns.Pigeonhole | src/count.c:484-529 | Distinct columns never fill the array |
| SummaryColumns.SetCountSummaryColumns | src/count.c:478-537 | Accepts a list exactly if all names are known and no column comes twice; then the array holds the columns in order, the name column last if it was not given, and a terminating zero |
| Timespec.TsAdd | src/util.c:109-118 | Adds nanoseconds and stays normalised |
| Timespec.TsSub | src/util.c:120-129 | Subtracts nanoseconds and stays normalised |
| Timespec.TsCmp | src/util.c:91-101 | Compares by nanoseconds |
| Timespec.TsDiv | src/util.c:131-137 | Divides the whole to the nearest nanosecond, although seconds are divided separately, if and only if the 64-bit dividend does not wrap |
| Timespec.TsDivExample | src/util.c:134 | A division that goes wrong |
| StringToUint.DecimalValue | src/string_to_uint.c:18-43 | The digits printed for a number have its value |
| StringToUint.DecimalParses | src/string_to_uint.c:18-43 | What is printed is read back, up to an accepted character |
| StringToUint.DecimalRefused | src/string_to_uint.c:18-43 | A number above the limit, or with something else behind it, is refused |
| StringToUint.FirstCharacter | src/string_to_uint.c:30 | White space in front does not matter, a letter does |
| StringToUint.SignedDecimal | src/string_to_uint.c:30-34 | A plus sign does not matter, a minus sign leaves only zero |
| StringToUint.ReadsPrefix | src/string_to_uint.c:18-43 | The part of a string that is read, read alone, is the same number, and an accepted character follows |
| StringToUint.ReadsExtend | src/string_to_uint.c:18-43 | A number is read the same with an accepted character and anything more behind it |
| InjectWhen.AcceptedIsValid | src/filter_qualify.c:267-330 | Every accepted when= string denotes 1 <= first <= last with a step |
| InjectWhen.ParsesTheGrammar | src/filter_qualify.c:267-330 | A when= string is accepted with a triple if and only if the grammar F, F+, F+S, F..L, F..L+, F..L+S, written as a relation, says so |
| InjectWhen.RoundTrip | src/filter_qualify.c:267-330 | Printing any valid triple and parsing it gives it back |
| InjectWhen.CountersAfter | src/syscall.c:490-500 | The counters after any number of calls |
| InjectWhen.CountingIsSelection | src/syscall.c:478-500 | Counting down tampers with call k if and only if k is in the arithmetic progression the expression denotes |
| NumberSets.DropLowestOne | src/defs.h:1989-1990 | x & (x - 1) drops exactly one set bit |
| NumberSets.Popcount32 | src/defs.h:1975-1995 | The loop returns the number of one bits of the whole vector |
| NumberSets.TotalOnesIsSize | src/number_set.c:53-59 | The number of one bits is the number of members |
| NumberSets.NumberSet.constructor | src/number_set.c:134-138 | A new set is empty |
| NumberSets.NumberSet.IsNumberInSet | src/number_set.c:68-73 | Membership, inversion included |
| NumberSets.NumberSet.AddNumberToSet | src/number_set.c:102-107 | Adds one number to the listed ones and nothing else |
| NumberSets.NumberSet.Clear | src/number_set.c:116-125 | Empties the set and keeps its slots |
| NumberSets.NumberSet.Invert | src/number_set.c:127-132 | Complements the set |
| NumberSets.NumberSet.IsEmpty | src/number_set.c:61-66 | True only of a set without members |
| NumberSets.NumberSet.IsCompleteSet | src/number_set.c:83-88 | What is reported, in terms of the members |
| NumberSets.CompletenessTest | src/number_set.c:83-88 | For every set, when the report is right, in terms of the listed numbers |
| NumberSets.CompletenessInRange | src/number_set.c:83-88 | For sets of numbers below the limit: if and only if the set is not inverted, has no slots, or lists some but not all numbers |
| NumberSets.MissedComplete | src/number_set.c:116-132 | A complete set that is not called complete |
| NumberSets.FalselyComplete | src/number_set.c:83-88 | An incomplete set that is called complete |
| NumberSets.CompleteMembers | src/number_set.c:83-88 | When a set contains every number below the limit |
| Qualify.ScnoByName | src/basic_filters.c:157-170 | The first index from start on that carries the name, or -1 if there is none |
| Qualify.QualifyName | src/basic_filters.c:172-184 | Adds exactly every index that carries the name |
| Qualify.QualifyClass | src/basic_filters.c:110-155 | Adds exactly the named syscalls with all flags of the class |
| Qualify.QualifyRegex | src/basic_filters.c:80-108 | Adds exactly the syscalls whose names match |
| Qualify.QualifyPers | src/basic_filters.c:186-195 | Adds exactly what a token stands for in a personality, and says whether it was found |
| Qualify.Designated | src/basic_filters.c:34-51 | The first personality with the designator, or none |
| Qualify.Strip | src/basic_filters.c:200-204 | Takes off exactly the leading question marks |
| Qualify.ScopeOptional | src/basic_filters.c:200-204 | Leading question marks do not matter to what is matched |
| Qualify.ScopePlain | src/basic_filters.c:211-213 | A token without an at sign is for all personalities |
| Qualify.ScopeDesignated | src/basic_filters.c:206-210 | What follows the last at sign designates the personality, the rest is matched |
| Qualify.NumberToken | src/basic_filters.c:53-68 | A decimal number stands for itself, if there is such a syscall |
| Qualify.OtherToken | src/basic_filters.c:186-195 | What regular expressions, classes and names stand for |
| Qualify.OptionalAccepted | src/basic_filters.c:197-217 | An optional token is accepted if and only if it is well-formed |
| Qualify.RegexAccepted | src/basic_filters.c:80-108 | A regular expression if and only if it is valid and matches some name |
| Qualify.NameAccepted | src/basic_filters.c:186-195 | A name if and only if it is that of a class or of some syscall |
| Qualify.QualifyToken | src/basic_filters.c:197-217 | A token is accepted if and only if it is well-formed and optional or found, and adds exactly its numbers to the personalities in its scope |
| Qualify.Tokens | src/basic_filters.c:264-270 | Tokens are non-empty and free of the separator |
| Qualify.TokensOfJoin | src/basic_filters.c:264-270 | Splitting undoes joining |
| Qualify.Bangs | src/basic_filters.c:233-237 | The number of leading exclamation marks |
| Qualify.SpecifiedLaws | src/basic_filters.c:226-251 | An exclamation mark complements a specification, all is !none, and the empty one is refused |
| Qualify.SpecifiedList | src/basic_filters.c:260-274 | A list joined by commas stands for what some token stands for, and is accepted if and only if all are |
| Qualify.LeadingBangs | src/basic_filters.c:226-236 | All sets are empty, inverted by the parity of the leading exclamation marks |
| Qualify.ListedMembers | src/basic_filters.c:264-270 | A number is listed if and only if some token stands for it |
| Qualify.QualifySyscallTokens | src/basic_filters.c:219-274 | An accepted specification puts x into the set of p if and only if (some token matches) xor (the number of leading ! is odd), with all == !none; accepted if and only if every token is |
| Qualify.QualifyTokens | src/basic_filters.c:279-331 | The same for sets of other numbers |
| Inject.ClassifyExactly | src/filter_qualify.c:259-408 | A token is taken for a kind if and only if it is that kind's keyword and the value; no keyword hides another |
| Inject.TokenKinds | src/filter_qualify.c:259-408 | The tokens of the language as they are written |
| Inject.SpecParts | src/filter_qualify.c:410-429 | A name and tokens joined by colons are taken apart as they were |
| Inject.NamelessSpec | src/filter_qualify.c:416-417 | A specification that is empty or starts with a colon has no name and no tokens |
| Inject.ErrnoValues | src/filter_qualify.c:355-359 | A decimal number up to 4095 stands for itself, a name for its errno, nothing else for an error |
| Inject.Parser.ParseDelay | src/filter_qualify.c:138-157 | A delay token is taken exactly if it is new, readable and has room; the slot of this specification, and no other, gets the delay |
| Inject.Parser.ParseSyscall | src/filter_qualify.c:331-351 | Taken exactly if every personality has a pure syscall of the name; these are recorded |
| Inject.Parser.ParseReturn | src/filter_qualify.c:352-376 | error= and retval= exclude each other and set the value |
| Inject.Parser.ParseValue | src/filter_qualify.c:259-408 | Each other token is taken exactly if it is acceptable, sets its own flag and value and nothing else |
| Inject.Parser.ParseToken | src/filter_qualify.c:259-408 | Acceptance, effect, delays and replacement syscalls of any token, with the restriction of fault= |
| Inject.DenotedNext | src/filter_qualify.c:410-429 | One more token extends what the tokens denote |
| Inject.ParseTokens | src/filter_qualify.c:410-429 | The token loop accepts exactly if each token is acceptable after those before it and the arena has room; the options are then what the tokens denote |
| Inject.EachTokenCounts | src/filter_qualify.c:331-408 | No token of an accepted specification overrides another, apart from when=: each value is in force wherever its token stands |
| Inject.ParseExpression | src/filter_qualify.c:534-571 | Acceptance of the whole expression, the ENOSYS default of fault=, and delays that leave earlier slots alone |
| Inject.LastSlotExample | src/filter_qualify.c:149-152 | Two delays that are refused together in the last slot, though either is accepted |
| Inject.FaultTokens | src/filter_qualify.c:605-615 | fault= can only inject an error, possibly with a replacement syscall |
| Inject.EffectiveIsGood | src/filter_qualify.c:534-603 | Every entry in force has an action, not both error and return value, 1 <= first <= last, and a delay index inside the arena |
| Inject.EffectiveNext | src/filter_qualify.c:590-599 | A further specification replaces the entries of its own calls only |
| Inject.Merge | src/filter_qualify.c:590-599 | The inner loop keeps set and vector equal to the last-writer-wins map |
| Inject.StillGood | src/filter_qualify.c:534-603 | Later specifications do not disturb the delays of earlier ones |
| Inject.Injector.constructor | src/filter_qualify.c:581-588 | Nothing is injected at first |
| Inject.Injector.MergeAll | src/filter_qualify.c:573-600 | All personalities are merged |
| Inject.Injector.QualifyInjectCommon | src/filter_qualify.c:534-603 | A call is accepted if and only if name and tokens are; then the tables are the last-writer-wins map of all specifications so far, and the new one is for exactly the calls its name specifies |
| Delay.Arena.Alloc | src/delay.c:23-47 | A new zeroed slot at the end, or an error exactly at 65536 slots; the capacity grows as xgrowarray says |
| Delay.Arena.Fill | src/delay.c:49-62 | Sets one side of one slot; rejects indices out of range |
| Delay.Delays.constructor | src/delay.c:20-21 | Nobody waits, nothing is armed |
| Delay.Delays.Arm | src/delay.c:82-98 | The timer is watched and set to the expiration, or goes off at once |
| Delay.Delays.DelayTcb | src/delay.c:100-135 | The tracee waits until now plus the delay; the timer is set again exactly if it would go off too late; the tracee is covered if and only if that is so or the timer is watched |
| Delay.Delays.Pass | src/strace.c:3844-3881 | Time passing keeps every waiting tracee covered, and makes a timer go off whose time has come |
| Delay.Delays.Drop | src/strace.c:1133-1193 | The death of a tracee keeps every other covered |
| Delay.Delays.RestartDelayed | src/strace.c:4330-4360 | Delays that are over end, none ends early, and the next one to end is found, unless a restart fails |
| Delay.Delays.Handle | src/strace.c:4362-4381 | Everyone still waiting is covered again, unless a restart fails; the timer stays watched if and only if it was not set meanwhile or someone's delay is not over |
| Delay.LostDelay | src/delay.c:117-134 | A run in which a tracee waits and is not covered |
| RecordWalks.DmWalk | src/dm.c:164-234 | On arbitrary memory and with 32-bit wrap-around the walk ends, follows the chain of next fields, visits headers that fit and increase, and says rightly why it stopped |
| RecordWalks.WalkNameList | src/dm.c:316-379 | A list laid out by the kernel is walked to its end, record by record |
| RecordWalks.Extend | src/dm.c:296-386 | One more record keeps the headers in order |
| RecordWalks.NextOffsetMeans | src/dm.c:223-226 | Without wrap-around the next field is the distance from the record or from the start of the data; with it the offset gets smaller |
| RecordWalks.HeadersDisjoint | src/dm.c:388-446 | Visited headers do not overlap |
| RecordWalks.Payload | src/lsm.c:49-80 | The payload starts behind the header, is as long as the record says unless the record or the buffer ends before, and lies inside both |
| RecordWalks.RecordsInside | src/lsm.c:82-125 | addr + len is conserved between records, and every payload lies inside the original buffer |
| RecordWalks.NextLsmCtx | src/lsm.c:97-106 | The 64-bit wrapping step finds the next record exactly if there is one |
| RecordWalks.LsmWalk | src/lsm.c:82-125 | The 64-bit wrapping walk visits exactly the chain of records that fit and says rightly why it stopped |
| RecordWalks.LaidOutIsWalked | src/lsm.c:97-121 | Records laid out one behind the other are followed one by one, to the last |
| RecordWalks.WalkLaidOut | src/lsm.c:82-125 | All of them are printed |
| IntLog.Iter | src/defs.h:2102-2109 | One step shifts by a power of two and keeps the value between its bounds |
| IntLog.Ilog2_64 | src/defs.h:2111-2131 | 2^r <= v < 2^(r+1) for v > 0, and 0 for 0 |
| IntLog.Ilog2_32 | src/defs.h:2133-2152 | The same for 32 bits |
| IntLog.LogUnique | src/defs.h:2102-2152 | The contract determines the result |

## Left out

- Syscall, ioctl, bpf and io_uring argument printers, and what the dm and lsm walks print: field-by-field output.
- Real `prctl`, `fork`, `ptrace`, `waitpid` and timers: their answers are inputs. `check_seccomp_order_do_child`, `init_seccomp_filter` and `dump_seccomp_bpf` are not modelled.
- BPF opcodes other than the ones the generators emit.
- Flags below 32: a personality's flag is 0 or a single bit of at least 32 above its syscall numbers (0x40000000 and 1024 are the flags in use), since the bitmap code of one-personality builds relies on it.
- Generators.LinearFilterGenerator: requires room in the buffer for what it writes, because the linear generator does not look at the length while it writes; about 11000 syscalls with three personalities are sure to fit.
- `shuffle_scno` is the identity.
- The regular expression library, the table of class names, errno and signal names, `strtoull` and `parse_ts` are parameters.
- Poke payloads: only their acceptance is a parameter; the poke index is not modelled, and `retval_new` is the value itself instead of an index.
- IoctlTable.SortIoctls: for a cyclic comparator qsort is taken to return some rearrangement, which is more than the C standard promises.
- Statistics.Counters.Summary: column widths, percentages, sorting order and output formatting are not modelled.
- Timespec.TsDiv: negative seconds do not occur where it is called; 64-bit overflow of sums of times and of numbers of calls is not modelled.
- `inject_set` and `inject_vec` are allocated at the start instead of on demand; arrays that are reallocated (`number_set.vec`, the delay arena, the bucket for unknown syscalls) are sequence fields of their objects, so addresses and aliasing of their elements are not modelled.
- Delay.Delays.Handle: `clock_gettime` and `timer_gettime` happen at one instant, and a signal that is pending survives the setting of the timer; what strace does after a failed restart is not modelled.
- RecordWalks.DmWalk: one walk stands for the three loops, with the differences (where next fields count from, whether the count is known, whether 0 ends the list) as parameters; what is printed instead of an abbreviated or an empty list is not modelled.
- The event loop, the trie, the unwinders, colour and hyperlink output.
