# Verified models of cFS tools and test support

This project models parts of a core Flight System (cFS) source tree in Dafny and proves what those parts are for. To
check it, run `dafny verify dfyconfig.toml` here.

**The unit-test executive of UT Assert.** Tests are registered in a list with one ring of nodes per group. A run
merges the rings into one, walks it while the tests it calls may still register more, and then destroys the list.
`UtList` has the rings and the operations on their links, with ownership of memory as a ghost field of every node;
`UtCircles` and `UtListHead` have a whole list as a partition of its nodes into rings; `UtRun` says what a run does,
as a function of what user code does when it has control; `UtRunProperties`, `UtNestedTests` and `UtCalls` prove what
follows from that for every run; `UtPlaces` and `UtTest` prove that the program on the heap does exactly this.
`UtAssert` has the counters, from a single check to the exit code. `UtCompare` has the string comparison, `UtNames`
the shortening of names.

**The table CRC tool.** `CrcPolynomial` has long division of polynomials over GF(2) and the shift register that
performs it, `CrcTool` the table-driven program and the proof that it computes the remainder, `CrcDetection` and
`CrcDistance` what errors it detects.

**The ELF to cFE table converter.** `ElfBytes` and `ElfLayout` have numbers in two byte orders, the records of the
format of chapter 4 of the System V ABI, and the swaps in place. `ElfImage` and `ElfConversion` say, without any host,
what the converter takes a file to say; `Elf2CfeTbl` is the program, on a host of either byte order, with its globals
and its position in the source file. `TableFile` has the file that is written and how it reads back, `ElfProperties`
the rules by which tables, symbols and sizes are chosen, `ElfFailures` when the conversion fails, `ElfWellFormed` the
proof that files written as the ABI says are read back, `ElfBuild` a writer of such files, and `ElfTools` runs the
converter on both hosts and the CRC tool on its output.

**The object IDs of the OSAL stubs.** `StubIds` has the encoding of IDs, the bitmaps and counters, and whole runs of
requests.

## How to read it

A class with methods follows the C code and is proved against a function of its old state; what that function is for
is then proved in lemmas about all inputs or all runs. `hide` statements only keep definitions from the verifier where
they are not needed.

The lengths that a mission configures (descriptions, full table names, file names) are parameters, and any numbers.
The headers of the tree ask for multiples of 4, and the sizes of structures are modelled with the alignment that makes
this matter: the converter does not depend on it, the CRC tool does (`SizesAreWritten`, `CrcOfTableFile`). The sample
configurations in the tree do not agree on the table name (40 and 56), so no number is built in; the 116 bytes in a
comment of the CRC tool are those of the first. The names of tests are cut to the default configuration of OSAL.

The converter reads memory that it has not written when a symbol has an empty name: it compares what is left in a
buffer on the stack. What that is, is a parameter (`Setup.stack`).

`Defined` in `ElfConversion` lists the inputs on which the C program has no undefined behaviour: texts fit its 60 byte
buffers and end inside the file, entry sizes of symbol tables are not zero, section indices are in range, sizes and
counts fit the signed loop counters and offsets. That a program which meets none of these obstacles is defined, and
that every one of them is an obstacle, is a reading of the C code and not a theorem; unsigned arithmetic that only
wraps is modelled and not excluded.

Where code and documentation disagree, the model has the code:

- `uttest.h` says that a test added from within a test is never executed. That is so for every test registered at start-up
  (`StartupTestIgnoresNested`), and for none that was registered, in time, during the run (`AddedTestRunsNested`).
- The converter accepts any extra character behind an object name, not only a non-printable one (`MatchesExactly`).
- A comment in the header of the stub helpers speaks of 16 bytes and 128 objects; the constant is 32, for indices up to 255.

## Model

| member | source | states |
|---|---|---|
| `UtList.InsertBefore` | `work/cfs/osal/ut_assert/src/utlist.c:109-115` | A live node outside the ring is linked in right before an existing one; the ring is otherwise unchanged, and every link of it, in both directions, is right again. |
| `UtList.InsertAfter` | `work/cfs/osal/ut_assert/src/utlist.c:101-107` | The same right behind an existing node. |
| `UtList.Extract` | `work/cfs/osal/ut_assert/src/utlist.c:117-123` | The node is left alone on its own ring and the others form a ring in the old order; the last node of a ring stays linked to itself. |
| `UtList.Merge` | `work/cfs/osal/ut_assert/src/utlist.c:90-99` | Two disjoint rings become one, the second one behind the first; one ring with two heads in it comes apart into their two arcs; a head merged with itself keeps its ring. |
| `UtList.MergeTwice` | `work/cfs/osal/ut_assert/src/utlist.c:90-99` | Merging the same two heads twice restores every link of every node of both rings. |
| `UtList.InverseLinks` | `work/cfs/osal/ut_assert/src/utlist.c:90-123` | On every node of a ring, next and prev are each other's inverse. |
| `UtList.DeleteNode` | `work/cfs/osal/ut_assert/src/utlist.c:161-170` | The node leaves its ring, which stays whole, and is freed exactly if it holds data; it and all nodes of its ring have to be allocated before, so that nothing is freed twice. |
| `UtList.Reset` | `work/cfs/osal/ut_assert/src/utlist.c:82-88` | All other nodes of the ring, other heads included, are taken out; data nodes are freed once, heads are linked to themselves and not freed; the loop ends. |
| `UtListHead.ListHead.Create` | `work/cfs/osal/ut_assert/src/utlist.c:40-69` | One head for every tag, each alone on its own ring. |
| `UtListHead.ListHead.Add` | `work/cfs/osal/ut_assert/src/utlist.c:147-159` | The new data node goes right before the head of its tag, wherever that head is linked; all other circles stay; a tag out of range changes nothing. |
| `UtListHead.ListHead.MergeTags` | `work/cfs/osal/ut_assert/src/utlist.c:90-99` | For any two heads, wherever earlier merges have put them: heads of different circles get one circle, each read from its head on; heads of one circle divide it; a head merged with itself changes nothing. All other circles stay, and the nodes are still partitioned into rings with heads. |
| `UtListHead.ListHead.LinksAreInverse` | `work/cfs/osal/ut_assert/src/utlist.c:90-170` | What every list operation keeps: all nodes of the list are allocated, and next and prev undo each other on them. |
| `UtListHead.ListHead.Destroy` | `work/cfs/osal/ut_assert/src/utlist.c:71-88` | For every partition of the nodes into rings, however the heads were merged: each node, data or head, is in the end freed, exactly once, and linked to itself. |
| `UtListHead.PerformOp` | `work/cfs/osal/ut_assert/src/utlist.c:90-159` | One addition or merge of any two heads keeps the list whole; an addition that finds its tag brings in one node with its data, and nothing else changes which nodes there are. |
| `UtListHead.UseList` | `work/cfs/osal/ut_assert/src/utlist.c:40-159` | The whole life of a list: after every sequence of additions and merges of heads, in any order, destroying the list has freed the heads and the one node of every addition that found its tag, and there were no other nodes. |
| `UtTest.Runner.EarlyInit` | `work/cfs/osal/ut_assert/src/uttest.c:194-201` | An empty database and the initial state of a run. |
| `UtTest.Runner.AddCommon` | `work/cfs/osal/ut_assert/src/uttest.c:51-68` | A registration, with its name cut to what its field holds, links one node in where the run has its item inserted: at the end of its group while the groups are apart, before the group's head in the merged list afterwards. Nodes are only added, and the node under the walk's cursor stays. |
| `UtTest.Runner.Add` | `work/cfs/osal/ut_assert/src/uttest.c:70-73` | The same in the test group with all three functions. |
| `UtTest.Runner.AddSetup` | `work/cfs/osal/ut_assert/src/uttest.c:75-78` | In the setup group, with a setup function only. |
| `UtTest.Runner.AddTeardown` | `work/cfs/osal/ut_assert/src/uttest.c:80-83` | In the teardown group, with a teardown function only. |
| `UtTest.Runner.AddSubTest` | `work/cfs/osal/ut_assert/src/uttest.c:85-129` | In the test group, under the name made of the names of group and test, which is cut twice: to its buffer and to the field of the database. |
| `UtRun.StoredName` | `work/cfs/osal/ut_assert/src/uttest.c:59-62` | Of a name the database keeps the longest prefix that leaves room for a NUL, and of a null pointer the empty name. |
| `UtTest.Runner.PerformAll` | `work/cfs/osal/ut_assert/src/uttest.c:157-185` | Whatever user code registers and checks while it has control, database and counters follow the run as a function of those actions. |
| `UtTest.Runner.Execute` | `work/cfs/osal/ut_assert/src/uttest.c:164-183` | One entry, inside a segment: each of its functions that is not NULL is called, once and in order, in its own context, and does what it is due to do in that call; entries with a test function are counted. |
| `UtTest.Runner.MergeGroups` | `work/cfs/osal/ut_assert/src/uttest.c:147-150` | Three merges of four rings make one ring: default, setup, test and teardown entries in order, with the three later heads still in it. |
| `UtTest.Runner.Run` | `work/cfs/osal/ut_assert/src/uttest.c:131-192` | The walk over the merged ring, while callbacks add to it, ends and is the walk of the run; afterwards every node that was ever in the database is freed; the exit code comes from the global counters. |
| `UtTest.RunApplication` | `work/cfs/osal/ut_assert/src/utbsp.c:230-254` | From start-up to exit code: the heap program does what the run as a function of the user's actions says; the functions called are those of the entries executed; the exit code is that of the checks which the user's set-up function and these calls make, wrap-around included, and below 2^32 checks it is success exactly if none of them failed; the nodes of the database are exactly the items of the run and all freed. |
| `UtPlaces.AddingIsInserting` | `work/cfs/osal/ut_assert/src/utlist.c:147-159` | Linking a node into the ring at the gap of its group is inserting its item into the group, or into the merged list before or behind the cursor. |
| `UtPlaces.NextOfCursor` | `work/cfs/osal/ut_assert/src/uttest.c:157-158` | The node under the cursor is allocated and its next link leads to the first item ahead, or to the main head when there is none. |
| `UtRun.VisitDecreases` | `work/cfs/osal/ut_assert/src/uttest.c:157-185` | The walk ends when callbacks have only finitely many actions left: each step uses up an item or an action that could still add one. A run is given a finite list of calls. |
| `UtNestedTests.AddedTestsGoOn` | `work/cfs/osal/ut_assert/src/uttest.c:157-185` | Nothing else bounds the walk: after a single entry registered at start-up it executes as many tests as its callbacks go on to register, so with callbacks that never stop the loop of the code would not end. |
| `UtRunProperties.RegistrationsRun` | `work/cfs/osal/ut_assert/src/uttest.c:131-192` | In every run, what is executed is, as a multiset and in list order, what was registered while its place was ahead of the cursor, each once; what was registered behind the cursor is never executed but is in the list, so that it is freed. |
| `UtNestedTests.PassedGroupIsClosed` | `work/cfs/osal/ut_assert/src/uttest.c:157-185` | Once the cursor has passed the head of a group, every registration in that group for the rest of the run is behind the cursor. |
| `UtNestedTests.EntryDecides` | `work/cfs/osal/ut_assert/src/uttest.c:157-185` | In every state of the walk, all that an entry registers in a group while it is executed is late if the head of that group is behind the cursor, and all of it is on time otherwise. |
| `UtNestedTests.StartupTestIgnoresNested` | `work/cfs/osal/ut_assert/inc/uttest.h:46-49` | What the header promises holds of every test registered at start-up, in every run: the walk comes to it with the test head behind the cursor and the teardown head ahead, so that each test it registers is late, and never run, and each teardown is on time, and run. |
| `UtNestedTests.AddedTestRunsNested` | `work/cfs/osal/ut_assert/inc/uttest.h:46-49` | It fails of every other test that is run: one registered during the walk, in time, is executed with the test head still ahead, so that each test it registers is on time, and run. |
| `UtRunProperties.GroupsRunInOrder` | `work/cfs/osal/ut_assert/src/uttest.c:131-185` | If callbacks register nothing, the run executes default, setup, test and teardown entries, in registration order within each group. |
| `UtNestedTests.TestAddedByTestIsNotRun` | `work/cfs/osal/ut_assert/inc/uttest.h:46-49` | The smallest run of the first kind: a test that registers a test and a teardown; the first is not executed, the second is. |
| `UtNestedTests.TestAddedByEarlyTestIsRun` | `work/cfs/osal/ut_assert/inc/uttest.h:46-49` | The smallest run of the second kind, an input for which the header's note fails: a test registered from inside a setup entry registers a test, which is executed. |
| `UtRunProperties.EntryChecks` | `work/cfs/osal/ut_assert/src/uttest.c:164-183` | In any state, an entry is one segment: the checks of its setup, counted as TSF unless they name a type, then those of its test as FAILURE and of its teardown as TTF. |
| `UtRunProperties.ApplicationIsAccounted` | `work/cfs/osal/ut_assert/src/uttest.c:164-183` | In every run, the global counters are those of the ended segments, and the number of executed tests is, up to wrap-around, the number of visited entries with a test function. |
| `UtCalls.CallIsNext` | `work/cfs/osal/ut_assert/src/uttest.c:164-181` | In its n-th call a function does what it does in its n-th call, whatever else was called in between. |
| `UtCalls.FunctionsAreCalled` | `work/cfs/osal/ut_assert/src/uttest.c:164-183` | In every run, the calls made are those of (setup, TSF), (test, FAILURE) and (teardown, TTF) of each entry executed that are not NULL, in order, once each; the first segment is the checks of the user's set-up function as FAILURE and the others are those of the functions called, by entry; and what is registered is what these actions ask for, in that order. |
| `UtCalls.CountersAreTheUsers` | `work/cfs/osal/ut_assert/src/utbsp.c:230-254` | In every run the global counters are those of the checks that the user's functions make. |
| `UtCalls.VerdictOfTheRun` | `work/cfs/osal/ut_assert/src/utbsp.c:213-221` | With fewer than 2^32 checks, the process exits with success exactly if no check that the user's functions make fails as FAILURE, TSF or TTF. |
| `UtCalls.FailedStartupIsReported` | `work/cfs/osal/ut_assert/src/utassert.c:42-42` | One failing check in the user's set-up function, and nothing else, makes the process fail: such checks count as FAILURE. |
| `UtAssert.Counters.BeginTest` | `work/cfs/osal/ut_assert/src/utassert.c:109-123` | The counters of the segment start at zero; global counters and context stay. |
| `UtAssert.Counters.EndTest` | `work/cfs/osal/ut_assert/src/utassert.c:130-170` | A segment with checks is added to the global counters, type by type, modulo 2^32; one without is not counted. |
| `UtAssert.Counters.AssertEx` | `work/cfs/osal/ut_assert/src/utassert.c:187-221` | A check counts once in the total and once under its type, a passing one as PASS whatever its type, one of unknown type under none. |
| `UtAssert.SegmentCounts` | `work/cfs/osal/ut_assert/src/utassert.c:197-207` | For every list of checks, total and counts of a segment are their numbers modulo 2^32. |
| `UtAssert.GlobalCounts` | `work/cfs/osal/ut_assert/src/utassert.c:139-148` | For every list of segments, modulo 2^32, the global counters are the number of counted segments, the number of checks in them, and for each type the number of those of that type. A segment is counted if its number of checks is not a multiple of 2^32. |
| `UtAssert.CountsAddUp` | `work/cfs/osal/ut_assert/src/utassert.c:197-207` | The counts by type add up to the total when all types are in range. |
| `UtAssert.ExitCodeExactly` | `work/cfs/osal/ut_assert/src/utbsp.c:213-221` | The exit code for every run, wrap-around included: success exactly if the numbers of FAILURE, TSF and TTF checks in the counted segments, those whose number of checks is not a multiple of 2^32, are multiples of 2^32. |
| `UtAssert.ExitCodeIsTheVerdict` | `work/cfs/osal/ut_assert/src/utbsp.c:213-221` | Below 2^32 checks the exit code is success exactly if nothing failed. |
| `UtAssert.WrapHidesFailures` | `work/cfs/osal/ut_assert/src/utassert.c:139-140` | One segment of 2^32 failing checks is taken for an empty one, and the exit code is success. |
| `UtCompare.StringBufCompare` | `work/cfs/osal/ut_assert/src/utassert.c:459-560` | The decision on the strings in two buffers, cut at the first NUL or the maximum size. |
| `UtCompare.OrderDecides` | `work/cfs/osal/ut_assert/src/utassert.c:508-560` | Under the lexicographic order the six types of comparison mean equal, different, before, after, and their unions; before is being a proper beginning or having the smaller byte at the first difference. No other type holds. |
| `UtCompare.DecidesByOrder` | `work/cfs/osal/ut_assert/src/utassert.c:508-535` | All six types mean exactly that of the cut strings if and only if neither string begins with the other or the difference of their lengths keeps its sign as an int. |
| `UtCompare.ShortStringsAreOrdered` | `work/cfs/osal/ut_assert/src/utassert.c:508-560` | For strings below 2^31 bytes every type of comparison means what its name says. |
| `UtCompare.LongStringsAreNot` | `work/cfs/osal/ut_assert/src/utassert.c:525-534` | A string, and the same string with 2^32 more bytes behind it, are reported equal. |
| `UtCompare.OrderIsIdentity` | `work/cfs/osal/ut_assert/src/utassert.c:539-544` | Equal means identical. |
| `UtCompare.OrderIsAntisymmetric` | `work/cfs/osal/ut_assert/src/utassert.c:545-550` | Less one way round is greater the other. |
| `UtCompare.OrderIsTransitive` | `work/cfs/osal/ut_assert/src/utassert.c:551-556` | The relations form a total order. |
| `UtNames.CompleteTestName` | `work/cfs/osal/ut_assert/src/uttest.c:85-126` | The name that is handed on for registration: the group's name without Test_, a dot, and the test's name without the part it shares with the group's name up to its last underscore; at most 127 characters. (The database keeps less of it: StoredName.) |
| `UtNames.SubTestNameParts` | `work/cfs/osal/ut_assert/src/uttest.c:94-126` | That name is what follows Test_ in the group's name, or all of it, a dot, and the test's name from the cut on; whole if that is at most 127 characters, and otherwise the first 127. |
| `UtNames.CutIsUnique` | `work/cfs/osal/ut_assert/src/uttest.c:100-118` | There is exactly one such place to cut the test's name. |
| `UtNames.CutIsShared` | `work/cfs/osal/ut_assert/src/uttest.c:100-118` | What is cut off is the start of the group's name, or that and one underscore. |
| `CrcPolynomial.RegisterIsRemainder` | `work/cfs/tools/tblCRCTool/cfe_ts_crc.c:92-101` | A bit-at-a-time register fed with bits holds the remainder of their long division by x^16 + x^15 + x^2 + 1. |
| `CrcPolynomial.RegisterIsLinear` | `work/cfs/tools/tblCRCTool/cfe_ts_crc.c:92-101` | The register is linear over GF(2). |
| `CrcTool.TableEntry` | `work/cfs/tools/tblCRCTool/cfe_ts_crc.c:70-90` | Each of the 256 table entries is eight shift steps on its index. |
| `CrcTool.TableStepIsRegister` | `work/cfs/tools/tblCRCTool/cfe_ts_crc.c:98-99` | One step of the loop, on an int16 and with its arithmetic right shift, feeds the eight bits of a byte, lowest first. |
| `CrcTool.CalculateCRC` | `work/cfs/tools/tblCRCTool/cfe_ts_crc.c:92-101` | For every message and starting value, the low 16 bits of the result are the reflected remainder of the message, times x^16, from the low 16 bits of the starting value, and bits 15 to 31 are all equal. |
| `CrcTool.CrcOfOneByte` | `work/cfs/tools/tblCRCTool/cfe_ts_crc.c:92-101` | The byte 1 from 0 gives 0xFFFFC0C1: the result is a negative number. |
| `CrcTool.CrcIsPolynomialRemainder` | `work/cfs/tools/tblCRCTool/cfe_ts_crc.c:63-102` | The CRC of a message is the remainder of the message as a polynomial, times x^16, divided by the generator. |
| `CrcTool.CrcContinues` | `work/cfs/tools/tblCRCTool/cfe_ts_crc.c:92-92` | Feeding a sign-extended result back as the next starting value continues the CRC. |
| `CrcTool.ReportCrc` | `work/cfs/tools/tblCRCTool/cfe_ts_crc.c:121-158` | However the reads split the file, the tool reports length and CRC, in both halves, of everything behind the headers, and fails only if a read fails. |
| `CrcDetection.CrcSeesOnlyDifference` | `work/cfs/tools/tblCRCTool/cfe_ts_crc.c:92-101` | Whether two messages of the same length have the same CRC depends only on their difference. |
| `CrcDetection.OddErrorsAreDetected` | `work/cfs/tools/tblCRCTool/cfe_ts_crc.c:92-101` | Any odd number of flipped bits changes the CRC of a message of any length. |
| `CrcDetection.BurstsAreDetected` | `work/cfs/tools/tblCRCTool/cfe_ts_crc.c:92-101` | Any nonzero error within 16 consecutive bits changes the CRC of a message of any length. |
| `CrcDistance.OrderOfX` | `work/cfs/tools/tblCRCTool/cfe_ts_crc.c:70-101` | The powers of x modulo the generator have period exactly 32767. |
| `CrcDistance.TwoBitErrors` | `work/cfs/tools/tblCRCTool/cfe_ts_crc.c:92-101` | Two flipped bits go unseen if and only if their distance is a multiple of 32767. |
| `CrcDistance.FewErrorsAreDetected` | `work/cfs/tools/tblCRCTool/cfe_ts_crc.c:92-101` | Up to three flipped bits change the CRC of every message of at most 4095 bytes. |
| `ElfBytes.BytesThenValue` | `work/cfs/tools/elf2cfetbl/elf2cfetbl.c:2175-2218` | Writing a number in either byte order and reading it back gives the number. |
| `ElfBytes.ReversedValue` | `work/cfs/tools/elf2cfetbl/elf2cfetbl.c:2175-2218` | Reversing the bytes of a number takes it from one order to the other. |
| `ElfBytes.SwapUInt16` | `work/cfs/tools/elf2cfetbl/elf2cfetbl.c:2175-2181` | Two bytes are exchanged in place; all others stay. |
| `ElfBytes.SwapUInt32` | `work/cfs/tools/elf2cfetbl/elf2cfetbl.c:2187-2196` | Four bytes are reversed in place; all others stay. |
| `ElfBytes.SwapUInt64` | `work/cfs/tools/elf2cfetbl/elf2cfetbl.c:2198-2218` | Eight bytes are reversed in place; all others stay. |
| `ElfBytes.SwappedOnce` | `work/cfs/tools/elf2cfetbl/elf2cfetbl.c:2079-2169` | Swapping fields that share no byte, in any order, reverses each of them once. |
| `ElfBytes.SwapsElsewhere` | `work/cfs/tools/elf2cfetbl/elf2cfetbl.c:2079-2169` | Fields that share no byte with the swapped ones stay. |
| `ElfLayout.SwapElfHeader` | `work/cfs/tools/elf2cfetbl/elf2cfetbl.c:2079-2113` | In place, the thirteen fields behind e_ident, in either class. |
| `ElfLayout.SwapSectionHeader` | `work/cfs/tools/elf2cfetbl/elf2cfetbl.c:2119-2147` | In place, all ten fields of a section header, in either class. |
| `ElfLayout.SwapSymbol` | `work/cfs/tools/elf2cfetbl/elf2cfetbl.c:2153-2169` | In place, the four fields of a symbol that are not single bytes, in either class. |
| `ElfLayout.LayoutIsContiguous` | `work/cfs/tools/elf2cfetbl/ELF_Structures.h:43-448` | The fields of each record follow each other without padding and fill the record. |
| `ElfLayout.SwapsCoverLayout` | `work/cfs/tools/elf2cfetbl/elf2cfetbl.c:2079-2169` | Every field of every record is swapped as a whole, once, or is a single byte that no swap touches. |
| `ElfLayout.HostReadsTarget` | `work/cfs/tools/elf2cfetbl/elf2cfetbl.c:1622-1625` | For either class, host and target, and any bytes: what the host reads after the conditional swaps is what the file says in its own order. |
| `ElfLayout.RecordRoundTrip` | `work/cfs/tools/elf2cfetbl/elf2cfetbl.c:2079-2169` | For every record, class, host and target: writing it in the order of the target and reading it with the conditional swaps gives the record. |
| `ElfLayout.BytesRoundTrip` | `work/cfs/tools/elf2cfetbl/ELF_Structures.h:43-448` | The other way round, for any bytes of the size of a record: reading the fields and writing them again gives the bytes, so a record has nothing but its fields. |
| `Elf2CfeTbl.Converter.GetElfHeader` | `work/cfs/tools/elf2cfetbl/elf2cfetbl.c:1473-1654` | On either host, the header is accepted exactly if magic, class, encoding, versions, type and machine are good, and then says in memory what the file says. |
| `Elf2CfeTbl.Converter.GetStringFromMap` | `work/cfs/tools/elf2cfetbl/elf2cfetbl.c:2224-2247` | The search finds exactly the keys of the map. |
| `Elf2CfeTbl.Converter.GetSectionHeader` | `work/cfs/tools/elf2cfetbl/elf2cfetbl.c:1685-1871` | Reads one section header and, once the names are known, its name; takes note of symbol and string tables as the scan does; leaves the tables alone before the names are known. |
| `Elf2CfeTbl.Converter.GetSymbol` | `work/cfs/tools/elf2cfetbl/elf2cfetbl.c:1877-1959` | Reads one symbol and its name behind the int32 check of its offset, and remembers it if it is taken for the definition. |
| `Elf2CfeTbl.Converter.GetTblDefInfo` | `work/cfs/tools/elf2cfetbl/elf2cfetbl.c:2253-2318` | The definition, with its strings closed by a NUL and its number in host order, is what the file says; fails exactly if its size is wrong, its offset exceeds 32 bits or the file ends in it. |
| `Elf2CfeTbl.Converter.LocateAndReadUserObject` | `work/cfs/tools/elf2cfetbl/elf2cfetbl.c:2324-2480` | Picks the first matching symbol, settles its size and leaves the file at its data, or finds it in .bss; fails exactly if there is none or its offset exceeds 32 bits. |
| `Elf2CfeTbl.Converter.MakeFileHeader` | `work/cfs/tools/elf2cfetbl/elf2cfetbl.c:2493-2547` | On either host, the eight words in memory are big-endian and the description is padded with NULs. |
| `Elf2CfeTbl.Converter.OutputDataToTargetFile` | `work/cfs/tools/elf2cfetbl/elf2cfetbl.c:2486-2623` | On either host, writes exactly the two headers and the payload: zeros, or the characters from the file position on. |
| `Elf2CfeTbl.Converter.ReadAllSections` | `work/cfs/tools/elf2cfetbl/elf2cfetbl.c:634-667` | The header of the section names is read first and without a name; then every section header, with its name. |
| `Elf2CfeTbl.Converter.ReadAllSymbols` | `work/cfs/tools/elf2cfetbl/elf2cfetbl.c:682-691` | Reads as many symbols as the symbol table has, from the one behind the first; the definition is the last one that carries its name. |
| `Elf2CfeTbl.Converter.Run` | `work/cfs/tools/elf2cfetbl/elf2cfetbl.c:609-726` | On either host, the tool succeeds exactly if the conversion as a function of the file does (when it does not is said by HeaderIsAccepted, FileIsRead and ConversionFails), writes exactly its bytes, and writes nothing if it fails. |
| `ElfFailures.MachinesAreKnown` | `work/cfs/tools/elf2cfetbl/elf2cfetbl.c:174-357` | The machines that are accepted, as ranges of numbers; all others are rejected. |
| `ElfFailures.HeaderIsAccepted` | `work/cfs/tools/elf2cfetbl/elf2cfetbl.c:1473-1654` | A file is accepted if and only if it has a whole header with the magic number, a class and encoding of 1 or 2, version 1 twice, a type up to 4 and a known machine; the fields of an accepted header are the numbers at their places, in the order of the file. |
| `ElfFailures.FileIsRead` | `work/cfs/tools/elf2cfetbl/elf2cfetbl.c:609-691` | An accepted file is read if and only if all section headers, and that of the section names, lie in it, there is at least one, a string table and a symbol are found, and all symbols lie in it and below 2^31. |
| `ElfFailures.ConversionFails` | `work/cfs/tools/elf2cfetbl/elf2cfetbl.c:693-726` | A file that is read fails to convert if and only if no symbol is taken for the definition, or the last such symbol has a size that is neither 0 nor that of the structure, or the definition lies past 32 bits or the end of the file, or no symbol is called as the table in it, or the first that is has its table past 32 bits and not in .bss. |
| `ElfFailures.ConversionFinds` | `work/cfs/tools/elf2cfetbl/elf2cfetbl.c:693-726` | Otherwise the definition is read at the place of the last such symbol, and the table is that of the first symbol with its name. |
| `ElfImage.ObjectIsFirstMatch` | `work/cfs/tools/elf2cfetbl/elf2cfetbl.c:2336-2375` | The user object is the first symbol whose name matches. |
| `ElfImage.DefinitionIsLast` | `work/cfs/tools/elf2cfetbl/elf2cfetbl.c:1935-1941` | The definition is the last symbol that is taken for it; there is none exactly if no symbol is. |
| `ElfProperties.StrtabIsUsed` | `work/cfs/tools/elf2cfetbl/elf2cfetbl.c:1781-1796` | Symbol names come from the last named string-table section that is called .strtab, if its offset is not 0. |
| `ElfProperties.FirstOtherIsUsed` | `work/cfs/tools/elf2cfetbl/elf2cfetbl.c:1781-1796` | Without one, from the first named string table that is not the one for section names, if its offset is not 0. |
| `ElfProperties.NoStringTable` | `work/cfs/tools/elf2cfetbl/elf2cfetbl.c:668-672` | Without either, the tool finds none and fails. |
| `ElfProperties.SymbolTableRule` | `work/cfs/tools/elf2cfetbl/elf2cfetbl.c:1767-1779` | Symbols come from the last named section with a symbol table. |
| `ElfProperties.SymbolLoopReadsTable` | `work/cfs/tools/elf2cfetbl/elf2cfetbl.c:1879-1907` | Symbol i is read at entry i + 1 if and only if entries have the size of the record, and then inside the section. |
| `ElfProperties.EveryEntryIsRead` | `work/cfs/tools/elf2cfetbl/elf2cfetbl.c:1767-1777` | Every entry of the symbol table but entry 0 is read, as the symbol one before. |
| `ElfProperties.MatchesExactly` | `work/cfs/tools/elf2cfetbl/elf2cfetbl.c:2344-2364` | A name matches if and only if it is the object's name or that and any one character; the comment asks for a non-printable one, but what is tested is the NUL behind it. |
| `ElfProperties.DefinitionByName` | `work/cfs/tools/elf2cfetbl/elf2cfetbl.c:1935-1941` | The definition is the last symbol called CFE_TBL_FileDef, or that behind one character, and there is none if no symbol is, if and only if no symbol with an empty name behind it finds that name left in the buffer. |
| `ElfProperties.StaleNameIsTaken` | `work/cfs/tools/elf2cfetbl/elf2cfetbl.c:1927-1941` | An input for which the condition fails: with the buffer as the symbol before left it, a nameless symbol behind _CFE_TBL_FileDef is taken for the definition. |
| `ElfProperties.ConvertedPayload` | `work/cfs/tools/elf2cfetbl/elf2cfetbl.c:2398-2444` | The payload is the source from section offset plus st_value, modulo 2^64, on, of length ObjectSize if st_size is 0 and otherwise the smaller of both; in .bss st_size zeros; past the end of the source 0xFF. |
| `ElfProperties.ConvertedHeaders` | `work/cfs/tools/elf2cfetbl/elf2cfetbl.c:2492-2604` | Parsing the headers of a converted file gives each of the IDs, time, description and table name that was chosen on the command line, 0 or the definition's text for each that was not, and as NumBytes the number of bytes that follow. |
| `TableFile.HeadersParseBack` | `work/cfs/tools/elf2cfetbl/elf2cfetbl.c:2492-2604` | The same for any definition and payload, for all description and name lengths; and the file starts with the letters cFE1 on every host. |
| `TableFile.SizesAreWritten` | `work/cfs/cfe/modules/core_api/fsw/inc/cfe_fs_extern_typedefs.h:43-48` | With the alignment to 4 bytes that the structures have, the size of each header is the number of bytes that the converter writes for it if and only if its string length is a multiple of 4. |
| `TableFile.SeenOfTableFile` | `work/cfs/tools/tblCRCTool/cfe_ts_crc.c:121-122` | The CRC tool skips the sizes of the two structures; what it sees of a table file is the payload without as many bytes as the structures have of padding. |
| `TableFile.CrcOfTableFile` | `work/cfs/tools/tblCRCTool/cfe_ts_crc.c:121-122` | It sees exactly the payload if and only if both lengths are multiples of 4 or the payload is empty. |
| `ElfWellFormed.RecordFields` | `work/cfs/tools/elf2cfetbl/ELF_Structures.h:43-448` | Every field of a record written as the System V ABI says reads back. |
| `ElfWellFormed.WellFormedIsRead` | `work/cfs/tools/elf2cfetbl/elf2cfetbl.c:609-691` | From every well-formed file, of either class and byte order and of any size that can be seeked in, the converter reads its header, all its sections and names, and all its symbols but entry 0; its behaviour there is defined. The tool's int32 arithmetic limits only the places of section headers and symbols. |
| `ElfWellFormed.WellFormedIsConverted` | `work/cfs/tools/elf2cfetbl/elf2cfetbl.c:609-726` | End to end: a well-formed file with a definition and its table converts to the table file with exactly that table. |
| `ElfBuild.BuiltIsWellFormed` | `work/cfs/tools/elf2cfetbl/ELF_Structures.h:43-448` | A writer of ELF files, for either class and byte order, writes well-formed files: the two results above are about files that exist. |
| `ElfBuild.BuiltIsConverted` | `work/cfs/tools/elf2cfetbl/elf2cfetbl.c:609-726` | The whole round trip: for every table and definition, class and byte order there is a file from which the converter, whatever its buffer holds, makes the table file with exactly that table. |
| `ElfTools.ConvertOnBothHosts` | `work/cfs/tools/elf2cfetbl/elf2cfetbl.c:1479-1489` | Hosts of both byte orders fail on the same files and write the same bytes from all others. |
| `ElfTools.ConvertAndCheck` | `work/cfs/tools/tblCRCTool/cfe_ts_crc.c:104-169` | Running the CRC tool on any file that the converter writes reports the size and CRC of exactly the payload when both lengths are multiples of 4, and of what is left of it behind the padding otherwise. |
| `StubIds.ComposeThenDecompose` | `work/cfs/osal/src/ut-stubs/utstub-helpers.c:172-184` | Index and type survive composing and decomposing if and only if both fit 16 bits and the type lacks the marking bit. |
| `StubIds.DecomposeThenCompose` | `work/cfs/osal/src/ut-stubs/utstub-helpers.c:172-184` | An ID survives decomposing and composing if and only if it has the marking bit. |
| `StubIds.StubObjects.ClearAll` | `work/cfs/osal/src/ut-stubs/utstub-helpers.c:54-60` | All counters and bitmaps are zero. |
| `StubIds.StubObjects.Alloc` | `work/cfs/osal/src/ut-stubs/utstub-helpers.c:65-111` | Issues the next number of a type, or the last one again; reports a failure if its bit is set; sets that bit and no other; a type out of range aborts. |
| `StubIds.StubObjects.Delete` | `work/cfs/osal/src/ut-stubs/utstub-helpers.c:116-170` | Clears the bit of the ID's index in the type that was asked for and no other; reports a failure for a wrong type, one for an index above 255, and one for a bit that was not set. |
| `StubIds.IssuedDecomposes` | `work/cfs/osal/src/ut-stubs/utstub-helpers.c:172-184` | An issued ID says its index and its type. |
| `StubIds.CounterIsCount` | `work/cfs/osal/src/ut-stubs/utstub-helpers.c:84-89` | In every run the counter is the number of IDs issued since the last clear, but at most 255. |
| `StubIds.BitmapsAreInUse` | `work/cfs/osal/src/ut-stubs/utstub-helpers.c:99-103` | In every run the bitmap of a type holds exactly the indices issued and neither deleted nor cleared since. |
| `StubIds.FailuresInARun` | `work/cfs/osal/src/ut-stubs/utstub-helpers.c:65-170` | In every run the failures reported are one for each allocation that issues 255 again while it is in use, one for each deletion with an ID of another type, and one for each deletion of an index that is not in use. |
| `StubIds.AllocationInARun` | `work/cfs/osal/src/ut-stubs/utstub-helpers.c:84-103` | At the end of every run the n-th allocation since the last clear issues n up to 255 and 255 from then on, never 0, and reports an overlap exactly if 255 is issued again while in use. |

## Left out

- UtTest.Runner.PerformAll: user functions can register entries and make checks; they cannot call the executive itself, end a segment or set the context.
- UtTest.Runner.Run: what a function does in its n-th call is given by the scripts of a run, and nothing in calls beyond them; every finite run has scripts that are long enough, and endless ones are not expressed.
- UtTest.Runner.AddCommon: a name is a string without NULs in it or a null pointer; what is behind a NUL is never looked at.
- UtNestedTests.AddedTestsGoOn: states that there is no bound, for every number of tests; the endless walk itself is not a run of the model.
- Elf2CfeTbl.Converter.ReadAllSections: section headers and symbols are kept as values once they are read; two names for one heap object are not modelled.
- Elf2CfeTbl.Converter.Run: the destination is a sequence of bytes; its name, its opening and its permissions are not modelled, nor are the messages, verbose output and allocation failures.
- CrcTool.CalculateCRC: blocks of 2^31 bytes and more, for which the loop counter of the code overflows, are excluded; the tool's are of at most 100.
- StubIds.StubObjects.Delete: for an index above 255 the code reports a failure and then reads outside the bitmap; the model has the report and stops before that read.
- StubIds.StubObjects.Alloc: the first call, and the first after a reset of the stubs, clears the state; the table of stubs that remembers this is reduced to a flag and never full.
- UtCompare.StringBufCompare: null buffers, and the copies of 256 bytes made for the report, are not modelled.
- The command line of the converter, its handling of time and dates and its help text: C library and system behaviour. The options it produces are inputs.
- All printing, in every tool, and the console and locks of the test support: each locked region is one step.
- The generated stubs of OSAL and PSP, the stub engine behind them and the helpers in `uttools.c`: forwarding, and simple loops over files and buffers.
- The comparisons of numbers in `utassert.c`: single case distinctions on their operands.
- The ground system in Python and the configuration headers: user interface, network and constants.
