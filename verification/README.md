# Maplesyrup: a verified model of the decode pipeline and the read engines

Maplesyrup reads ARM system registers, in kernel mode through a driver or in user mode directly,
and shows them cut into named bitfields. This project models that path in Dafny and proves what it
computes.

The decode pipeline (`lib/src/parse_breakout.c`) expands several decode tables into one table, packs
a uid for every row, searches the table for a query, decides for every register whether kernel or
user mode reads it, puts the raw words of a read together, cuts the value into bitfields, and joins
the pieces with the query again by uid. Its stages are loops over singly linked lists that find rows
again through uids. The read engines (`module/cmd_handler.c`, `module/undef_hook.c`, `module/gic.c`,
`lib/src/cmd_handler.c`, `lib/src/raw_results.c`) reuse one result record for all registers of a
query and learn of a trapping read through a global flag.

The main results are

- the pipeline equals one nested comprehension over raw results and requests
  (`JoinSpec.PipelineIsComprehension`), and unparsed output is the first-occurrence deduplication of
  the same pairs (`JoinSpec.UnparsedPipelineExact`);
- in every run, with arbitrary register contents, traps, CPU failures and lost requests, every raw
  result has the status that its own read deserves on its own slot, and a success carries the value
  read there and then, although the record is zeroed to "success" once and then reused
  (`KernelSafety.EveryResultFaithful`, `KernelSafety.TrapsAttributed`); and exactly when a result
  names the right CPU (`KernelSafety.CpuAttributed`);
- both together give whole queries (`Query.LiveQueryExact`, `Query.LiveUnparsedQueryExact`), exactly
  when they are defined (`Query.UndefinedExactly`), exactly which values they show of a row
  (`ShownRows.ValuesShown`, and from the tables on `Find.DocumentedQueryExact`), and for a value supplied by the user, that its
  bits are shown without loss (`Query.SuppliedValueExact`, `Query.SuppliedValueRecovered`);
- the expansion fits its allocation and writes every row once, and the exact condition on the tables
  under which its uids are distinct, which is when looking a uid up inverts the expansion
  (`Tables.ExpansionFits`, `Tables.UidsAreDistinct`, `Lookup.LookupInverts`).

## How the model is laid out

| file | what it holds |
|---|---|
| `Bits.dfy` | machine integers; shifts, and, or, defined bit by bit |
| `Parse.dfy` | packed codes and the records that stages exchange |
| `Support.dfy` | the linked list |
| `Decode.dfy` | powers, masks, joining of words, losslessness |
| `Tables.dfy` | expansion of the tables and uniqueness of uids |
| `Lookup.dfy` | uid lookup, listings of names, table search |
| `Routing.dfy` | kernel or user mode |
| `Join.dfy`, `JoinSpec.dfy` | decoding and joining as loops, and what they compute |
| `FuncTable.dfy` | the reader table and the transport of values |
| `KernelEngine.dfy`, `KernelRun.dfy`, `KernelSafety.dfy` | the driver's engine, its requests, and its runs |
| `UserEngine.dfy` | the user-mode engine |
| `Query.dfy` | whole queries |
| `ShownRows.dfy`, `DeviceQuery.dfy` | which values a query shows of a row, and of a device row |
| `QueryInFields.dfy` | queries in the fields of table rows, raw results and the question asked |
| `Find.dfy` | a search from the tables to the array of results |
| `Results.dfy` | the list of results as an array |

Code that updates structures in place is a class or a method with loops; each is proved against a
specification function, and the properties are lemmas about those functions. Integers of C are
subset types with their wrap-around written out. Everything that hardware decides (register values,
traps, which CPUs come up, whether a request reaches the driver) is an argument, so every lemma is
about all of its values. Table contents are arbitrary too.

Specifications are built from named functions, such as which part a MIDR admits or which word a
reader's shape stores. The lemmas whose names end in `InFields`, and `Join.GateExactly`,
`FuncTable.JoinedWordsByShape` and `Tables.ExpandedRow`, say what these come to in plain numbers and
fields, so that every result above can be read without their definitions.

## Where the code falls short, exactly

- The part number of a packed code is or-ed with the bits of the register that do not fit the
  instruction field. The part decodes to itself exactly when those bits are already set in it
  (`Parse.CodeRoundTrip`); the offset decodes exactly whatever the register is
  (`Parse.FieldDecodes`). So GICC_DIR is read at its offset from the virtual interface control block
  and not from the CPU interface (`KernelSafety.DeviceReadAddress`,
  `KernelSafety.GiccDirReadsElsewhere`).
- For the same reason registers of one table can share their packed bits, as GICD_CTLR, numbered by
  the table, and GICD_ITARGETSR, numbered by its place in the expanded table, do. Uids are distinct
  exactly when rows that share packed bits have different numbers and no number from a table is the
  place of such a row (`Tables.UidsAreDistinct`). A table of these two rows alone has colliding uids
  exactly when the number of the first is between 1 and 64 (`Tables.SharedPackedRegister`).
- A live query without any raw result releases two list heads that were never initialised, which C
  leaves undefined. That happens exactly when no kernel read is delivered and no register that goes
  to user mode has a reader (`Query.NothingRead`), and so for every live query that matches no row
  (`Query.NoMatchIsUndefined`).
- A CPU number equal to the number of slots passes the check of the number, and a status is then
  written behind the last slot, exactly when some delivered read of the query has a reader
  (`KernelEngine.Driver.OnEachCpuKick`, `Query.UndefinedExactly`).
- The trap hook does not look at who trapped. A result reports a trap exactly when its own CPU's
  access trapped or other code trapped since the flag was last cleared (`KernelSafety.TrapsAttributed`);
  a read without a trap of its own is then charged with one (`KernelSafety.ForeignTrapIsCharged`). No
  CPU is ever charged with the trap of another CPU's read.
- A result names the CPU of its slot only if this is CPU 0 or some reader has run on it in the same
  query; otherwise it names CPU 0 (`KernelSafety.CpuAttributed`). So in a query for all CPUs every CPU
  that cannot be brought up reports its failure as CPU 0 (`KernelSafety.FailureNamesCpu0`), and
  unparsed output, which shows a register, CPU and status once, shows one row for all of them.
  Successes and reported traps always name their own CPU.
- A device read leaves the MIDR of its slot alone, and the join admits device rows only when that MIDR
  is 0. A live query shows a value of a matched device row, as a kernel success on some CPU, exactly
  when a delivered read of its register succeeded on that CPU with this value and found no MIDR there
  of an earlier coprocessor read of the same query (`DeviceQuery.DeviceRowShown`). Queries for device
  registers only show every value read (`DeviceQuery.DeviceQueryShown`). A query for a group that
  spans a coprocessor and a device table reads the device register with success and shows none of it,
  whichever CPU is asked (`DeviceQuery.MixedQueryLosesDeviceValue`); if one CPU is asked, only "no
  result" rows of the others are listed (`DeviceQuery.MixedQueryListsOthers`), and if all are, none
  (`DeviceQuery.MixedQueryLosesDeviceRow`). The shipped tables have no such group.
- The documentation gives "no result" for CPUs that do not exist or were not asked. The code also
  leaves it for registers without a reader and for devices without a base address
  (`KernelSafety.SlotAfterRead`). The model follows the code.

A 64-bit reader with two outputs is joined correctly exactly when its second word is 0, or happens to
spell the same value (`FuncTable.TransportRoundTrip`). The shipped readers of this kind
(`common/impl_def.c:69-90`) leave it 0, so this is a condition on readers to come.

## Model

| member | source | states |
|---|---|---|
| `Parse.FieldDecodes` | common/parse.h:44-65 | The field of a packed code decodes to the field modulo 2^16 for every part, instruction and field, and so exactly if and only if it fits |
| `Parse.PartDecodes` | common/parse.h:44-65 | For all operands the part decodes to the part or-ed with the excess bits of instruction and field, and the instruction to its low 11 bits or-ed with the excess bits of the field |
| `Parse.CodeRoundTrip` | common/parse.h:44-65 | Packing round trip for fields that fit: field always, part if and only if it is in width and the instruction's excess bits are already set in it, instruction if and only if it has none |
| `Parse.PartOverflowExamples` | common/parse.h:416-434 | GICC_DIR decodes as another part, GICD_ITARGETSR as its own |
| `Parse.CodesEqual` | lib/src/parse_breakout.c:40-53 | Two codes are equal if and only if their part-and-instruction bits and their fields are |
| `Parse.DeviceCodesApart` | lib/src/parse_breakout.c:55-65 | Codes of device parts are never bare system-register codes and decode to device parts, whatever instruction and field are |
| `Decode.PowerIsExp` | lib/src/parse_breakout.c:199-214 | Fast exponentiation in wrapping 64-bit arithmetic is exponentiation modulo 2^64 |
| `Decode.MaskValue` | lib/src/parse_breakout.c:216-228 | The mask of b bits is 2^b - 1 for every b from 0 to 64, through signed overflow at 63 and 64, and 0 above |
| `Decode.FieldValue` | lib/src/parse_breakout.c:230-237 | A masked field is the value divided by 2^shift, modulo 2^width |
| `Decode.LosslessDecode` | lib/src/parse_breakout.c:230-237 | Fields that tile the low W bits, put back at their weights, are the value modulo 2^W, and the value itself for W = 64 |
| `Decode.FieldsIndependent` | lib/src/parse_breakout.c:230-237 | Changing bits inside one field changes no field that does not overlap it |
| `Decode.ConcatWords` | lib/src/parse_breakout.c:975-993 | Two words join to high times 2^32 plus low |
| `Decode.LongWordRecovered` | lib/src/parse_breakout.c:975-993 | When a 64-bit word survives being joined with the two 32-bit words beside it, both directions |
| `Support.ListHead.Add` | lib/src/support.c:18-47 | Appends to the abstract sequence and keeps chain, tail and size consistent |
| `Support.ListHead.Free` | lib/src/support.c:49-76 | Terminates, releases every node exactly once without reading a released one, leaves the empty list |
| `Results.FlattenResults` | lib/src/maplesyrup.c:12-101 | The array is the list element for element in order; only an empty list fails, and the size mismatch exit is never taken |
| `Results.FlattenedInFields` | lib/src/maplesyrup.c:12-101 | Each element has the numbers and names of its list row, the part names by MIDR and uid, and the bit positions of its table row |
| `Tables.SizeWithRanges` | lib/src/bitfields/bitfield_gicv2.c:126-138 | The reported size of a device table is the sum of its ranges |
| `Tables.SitesComplete` | lib/src/parse_breakout.c:94-167 | Every copy of every applicable row is written, and nothing else |
| `Tables.SitesDistinct` | lib/src/parse_breakout.c:94-167 | No copy of a row is written twice |
| `Tables.ExpansionFits` | lib/src/parse_breakout.c:80-86 | The rows written never exceed the summed table sizes, and equal them when devices are included |
| `Tables.BitfieldHeap.ReadTablesToMemory` | lib/src/parse_breakout.c:67-173 | The loops write the expansion, row by row at increasing indices inside the allocation |
| `Tables.ExpandedRow` | lib/src/parse_breakout.c:100-163 | Copy k of a row stands in the expanded table with the type, range, level, shift, mask and texts of its row; a system row with its register and name; a ranged copy with the decimal number k after its name |
| `Tables.SiteAtPlace` | lib/src/parse_breakout.c:88-167 | Copy k of a row is written k places after its first, whose place is the number of copies before it |
| `Tables.UidsAreDistinct` | lib/src/parse_breakout.c:107-163 | All expanded uids differ if and only if rows with the same packed register are numbered apart: different numbers from the table, none of them the place of a copy of a row that is numbered by place |
| `Tables.DocumentedTablesHaveDistinctUids` | common/parse.h:37-47 | Documented tables have distinct uids: system codes in width, parts distinct, fields distinct in a register; device tables of any width, with ranged rows numbered by place |
| `Tables.SharedPackedRegister` | lib/src/bitfields/bitfield_gicv2.c:12-57 | GICD_CTLR beside GICD_ITARGETSR: the uids collide if and only if the number of the first is a place of the second |
| `Tables.DeviceRegisterCode` | lib/src/parse_breakout.c:142-162 | The register code of copy k carries the offset of the register plus 4k, modulo 2^16, and is a device code |
| `Join.ExpansionShiftsInWord` | lib/src/parse_breakout.c:114-136 | Tables whose shifts stay in the word expand to a table whose shifts do |
| `Lookup.GetIndex` | lib/src/parse_breakout.c:249-271 | Finds the first row with the uid, and fails if and only if there is none |
| `Lookup.LookupInverts` | lib/src/parse_breakout.c:249-271 | Looking up the uid of row i gives i for every i if and only if uids are distinct |
| `Lookup.AddBitfieldResult` | lib/src/parse_breakout.c:732-784 | Appends one row with the names of the first table row with the uid |
| `Lookup.GetFind` | lib/src/parse_breakout.c:786-828 | Whether a name is in the list |
| `Lookup.GetNames` | lib/src/parse_breakout.c:829-884 | The listing loops of groups and registers compute the listing, on top of what the list holds |
| `Lookup.ListingIsFirsts` | lib/src/parse_breakout.c:829-884 | A listing is exactly the first occurrences, in order, each under its own name although names are looked up again |
| `Lookup.NamesExact` | lib/src/parse_breakout.c:829-884 | Listed names are pairwise distinct and are exactly the names in the table |
| `Lookup.NamesInFields` | lib/src/parse_breakout.c:829-884 | The listed groups are the functional groups of the table, the listed registers its register names, none twice |
| `Lookup.ListingInFields` | lib/src/parse_breakout.c:732-784 | A listed row has the uid and texts of the first table row with its name, and no value |
| `Lookup.SearchTable` | lib/src/parse_breakout.c:1663-1756 | Returns a request for each named row of an admitted table, in table order |
| `Lookup.MatchesExact` | lib/src/parse_breakout.c:1679-1750 | A row is returned at most once, and if and only if it is named and admitted |
| `Lookup.SearchInFields` | lib/src/parse_breakout.c:1678-1750 | A search returns, ascending, the rows with the asked uid, group or name that are of a device, of the asked architecture, or of an implementation of it, if all or this one are asked for |
| `Lookup.RequestsInFields` | lib/src/parse_breakout.c:1696-1705 | A request carries register, uid, level and part of its row, and level, CPU, mode and value of the query |
| `Lookup.SearchEachCount` | lib/src/parse_breakout.c:1679-1750 | How often searching a list of groups returns a row, for any list |
| `Lookup.GroupsPartitionTable` | frontend/entrypoint.c:446-462 | Searching once for each listed group returns every admitted row exactly once and nothing else, rows named by uid or register excepted, which come back each time |
| `Routing.LevelsAreBits` | lib/src/parse_breakout.c:1595-1633 | Bit 5 selects the preferred level, bits 1 and 0 of the effective level select kernel and user mode |
| `Routing.RouteOne` | lib/src/parse_breakout.c:1556-1643 | One turn reads a register only if it is on neither list, at its effective levels, and leaves the flag reset |
| `Routing.RouteRequests` | lib/src/parse_breakout.c:1534-1643 | The loop keeps the first routable request for each register and lists its reads in order |
| `Routing.RoutedSoFar` | lib/src/parse_breakout.c:1556-1643 | After n requests a register is on a list if and only if one of them could be routed |
| `Routing.RoutingExact` | lib/src/parse_breakout.c:1534-1643 | Each list reads a register once; a read is on the kernel (user) list if and only if it is that of the first routable request whose effective level has kernel (user) mode; every routable register is read |
| `Join.ConstructBitfieldList` | lib/src/parse_breakout.c:941-973 | Appends the indices of a register's rows in order |
| `Join.ApplyMasksToList` | lib/src/parse_breakout.c:995-1058 | Appends the value decoded at every index, in order |
| `Join.AddNoparse` | lib/src/parse_breakout.c:1067-1118 | In unparsed mode appends the whole value unless register, CPU and status are listed already |
| `Join.FilterResults` | lib/src/parse_breakout.c:1120-1185 | Joins requests, then decoded rows, by uid and part gate |
| `Join.GateExactly` | lib/src/parse_breakout.c:1152-1158 | The gate in numbers: MIDR 0 admits every part, a known primary part number its implementation and its architecture, an unknown one part -1 only |
| `Join.ParseResults` | lib/src/parse_breakout.c:1327-1407 | Runs collect, decode and join for every raw result in order; undefined if and only if there is none |
| `JoinSpec.JoinOneExact` | lib/src/parse_breakout.c:1142-1180 | Of all decoded rows of a register a request joins with the one that it names, if the gate is open, and with no other |
| `JoinSpec.PipelineIsComprehension` | lib/src/parse_breakout.c:941-1185 | Parsed mode: for each raw result and each request in order exactly one row if the request's row has that register and the gate is open, none otherwise, its value given by division |
| `JoinSpec.DedupKeepsFirsts` | lib/src/parse_breakout.c:1081-1108 | Deduplication keeps for every key the first row with it, and no key twice |
| `JoinSpec.UnparsedPipelineExact` | lib/src/parse_breakout.c:1067-1180 | Unparsed mode over all results: keys distinct, every answered pair's key present, every row the first whole value with its key |
| `FuncTable.FindFunctionIndex` | module/cmd_handler.c:106-138 | Finds the first reader for a code, and fails if and only if there is none |
| `FuncTable.TransportRoundTrip` | module/cmd_handler.c:182-257 | Storing a reader's words in a zeroed slot and joining them recovers the register value if and only if a 64-bit two-output reader leaves nothing in its second word (or spells the same value) |
| `FuncTable.JoinedWordsByShape` | module/cmd_handler.c:192-253 | What the stored words join to for each of the shapes, on 32-bit and 64-bit builds |
| `FuncTable.SupportedShapes` | module/cmd_handler.c:192-257 | Exactly five shapes of prototype and size are known |
| `KernelEngine.Wrapper.Unpack` | module/cmd_handler.c:29-61 | All slots, CPU and code go into the working copy |
| `KernelEngine.Wrapper.Repack` | module/cmd_handler.c:73-103 | All slots go back; code, CPU and part of the caller's record stay |
| `KernelEngine.Driver.SetUndefFlag` | module/undef_hook.c:20-42 | Writes trap or success from the flag and consumes it |
| `KernelEngine.Driver.CallFuncPtr` | module/cmd_handler.c:151-264 | One CPU's turn writes its slot only, with its own words and MIDR and the traps charged to it, and leaves the flag clear |
| `KernelEngine.Driver.GicBarRead` | module/gic.c:18-71 | A device read writes its slot only, from base plus decoded offset, and nothing at all without a base |
| `KernelEngine.Driver.CpuOnlineWrapper` | module/cmd_handler.c:266-321 | Brings the CPU up and calls it, or leaves the error that fits in its slot; writes behind the slots if and only if the CPU has none |
| `KernelEngine.Driver.OnEachCpuKick` | module/cmd_handler.c:323-365 | All CPUs in order, or one; too large a number reaches none; every slot access is in bounds if and only if the number is not that of the slot after the last |
| `KernelRun.CallFuncReturnResults` | module/cmd_handler.c:377-428 | Without a reader or on failure the caller's slots stay as they were; in bounds if and only if the CPU number is, or there is no reader |
| `KernelRun.GicReturnResults` | module/gic.c:74-133 | Chooses the base by part; unknown parts change nothing |
| `KernelRun.CallCmd` | module/cmd_handler.c:438-485 | Clears the flag, works on a copy, keeps code, CPU and part of the record |
| `KernelRun.DriverResults` | lib/src/raw_results.c:20-55 | Resets every status before the request, and fails if and only if it was not delivered; a request not delivered is in bounds |
| `KernelRun.BreakoutCallDriver` | lib/src/parse_breakout.c:1411-1484 | One record zeroed once serves all reads; every delivered read saves all slots; in bounds if and only if every delivered read is |
| `KernelSafety.KickSlot` | module/cmd_handler.c:266-365 | What a request makes of a slot is decided by that slot, the turn that wrote it last (on a uniprocessor the last turn of all) and the trap flag this turn began with |
| `KernelSafety.FlagIsForeign` | module/undef_hook.c:20-42 | With a working reader the trap flag is set before a turn if and only if other code trapped and no CPU has run the callback since: no read leaves a trap behind |
| `KernelSafety.SlotsIsolated` | module/cmd_handler.c:323-365 | A request leaves slots that it does not address alone; environments that agree on a slot's deciding turn agree on the slot, if the flag agrees or no other code traps |
| `KernelSafety.SlotAfterRead` | lib/src/raw_results.c:40-46 | Whatever the record held, after a delivered read each status says what happened to that slot in this read, and a success holds the words just read |
| `KernelSafety.EveryResultFaithful` | lib/src/parse_breakout.c:1426-1478 | No stale success: in every run each result has the status its own read deserves on its slot, and a success names its CPU and carries the value read then and there |
| `KernelSafety.ReaderInFields` | module/gic.c:93-112 | The reader of a read: the base for part 8, 9, 10 or 11 and the low 16 bits of the code, or the first table entry with the code, or none |
| `KernelSafety.RunInFields` | module/cmd_handler.c:266-365 | On which slots a read runs, by CPU asked, online state and call, and in whose turn |
| `KernelSafety.StatusInFields` | module/cmd_handler.c:266-321 | The status of every result of a run, case by case, in the fields of its read and its CPU's event |
| `KernelSafety.ValueInFields` | module/cmd_handler.c:182-257 | The value of every success of a run: memory at base plus offset, or the words of the reader by shape, with the MIDR read beside them |
| `KernelSafety.JoinedIsRegister` | lib/src/parse_breakout.c:975-993 | The words of a reading join to the register value if and only if they can be transported |
| `KernelSafety.CpuInSlot` | module/cmd_handler.c:183-190 | A slot names its own CPU if some reader ran on it in the run so far, and CPU 0 otherwise |
| `KernelSafety.CpuAttributed` | module/cmd_handler.c:266-321 | A result names the CPU of its slot if and only if this is CPU 0 or a reader has run on it, this read included; otherwise CPU 0 |
| `KernelSafety.FailureNamesCpu0` | module/cmd_handler.c:290-303 | In a query for all CPUs, one that cannot be brought up reports its failure as CPU 0 |
| `KernelSafety.TrapsAttributed` | module/undef_hook.c:20-94 | In every run a result reports a trap if and only if its own read ran on that CPU and one of that CPU's accesses trapped or other code trapped since the flag was last cleared; without foreign traps, for own traps only; and it names that CPU |
| `KernelSafety.ForeignTrapIsCharged` | module/undef_hook.c:80-108 | A read that does not trap is reported as a trap when other code trapped |
| `KernelSafety.MidrInSlot` | module/cmd_handler.c:187-190 | A slot's MIDR is that of the last coprocessor read that ran on it, or 0 |
| `KernelSafety.DeviceGate` | lib/src/parse_breakout.c:1152-1158 | For a device part the gate is open if and only if the MIDR is 0 |
| `KernelSafety.DeviceResultAdmitted` | lib/src/parse_breakout.c:1152-1158 | A device result passes the gate if and only if no earlier coprocessor read of the query left a MIDR in the slot |
| `KernelSafety.DeviceOnlyRunsAdmitted` | module/gic.c:49-63 | A query that reads devices only always has its results admitted |
| `KernelSafety.DeviceReadPart` | lib/src/parse_breakout.c:1678-1750 | The part a device row is read with is the one its uid decodes to: that of its table if and only if the register's excess bits are set in it |
| `KernelSafety.DeviceReadReader` | module/gic.c:57-112 | The read for copy k is 4k past the register, modulo 2^16, from the base of the read's part |
| `KernelSafety.DeviceReadAddress` | module/gic.c:57-112 | Both together: the offset is exact, the base is that of the row's table if and only if the register's excess bits are set in the part |
| `KernelSafety.GiccDirReadsElsewhere` | common/parse.h:416 | GICC_DIR is read at its offset from the virtual interface control base |
| `UserEngine.UserSide.SetStatusFlag` | lib/src/cmd_handler.c:180-203 | Writes fault or success from the flag and consumes it |
| `UserEngine.UserSide.CallFuncPtr` | lib/src/cmd_handler.c:205-318 | The record holds this read's words and fault, whatever it held before, and the flag is clear again |
| `UserEngine.UserSide.UsermodeResults` | lib/src/cmd_handler.c:328-358 | Fails if and only if the register has no reader |
| `UserEngine.BreakoutCallUsermode` | lib/src/parse_breakout.c:1486-1532 | One result for each register with a reader, in order, with CPU and MIDR 0 |
| `UserEngine.UserResultFaithful` | lib/src/parse_breakout.c:1486-1532 | In every run result m reports a fault if and only if its own read faulted, success if and only if its own working reader ran without one, and carries the value of this read, under the transport condition |
| `UserEngine.UserResultInFields` | lib/src/cmd_handler.c:205-318 | Every result of a run has level 0, CPU 0, no MIDR, the status that shape and fault give, and the words read by shape |
| `UserEngine.UserResultsExact` | lib/src/parse_breakout.c:1504-1526 | Every result is that of a read of the run and every read with a reader has its result |
| `Query.SortIoctls` | lib/src/parse_breakout.c:1534-1661 | Routing followed by the kernel's results and then user mode's |
| `Query.ValueValidate` | lib/src/parse_breakout.c:1187-1237 | Succeeds if and only if there are requests and all name one register and one value |
| `Query.ParseResultsValue` | lib/src/parse_breakout.c:1246-1315 | Decodes the supplied value for that register, or fails and appends nothing |
| `Query.FindBitfields` | lib/src/parse_breakout.c:1766-1833 | The whole query computes search, route, read, decode and join, or decodes the supplied value, and is undefined exactly where the specification is |
| `Query.SuppliedValueExact` | lib/src/parse_breakout.c:1187-1315 | A supplied value fails unless the matches name exactly one register; otherwise each matched row appears once, in table order, with its bits of the value |
| `QueryInFields.SuppliedInFields` | lib/src/parse_breakout.c:1246-1315 | In fields: one row for each matched row, in order, a success on CPU 0 without level or MIDR, with the row's names and bits of the supplied value; or failure |
| `Query.SuppliedValueRecovered` | lib/src/parse_breakout.c:1246-1315 | When the matched rows tile the register, the shown values put together are the supplied value modulo the width covered |
| `Query.NothingRead` | lib/src/parse_breakout.c:1426-1526 | There are no raw results if and only if no kernel read is delivered and no register for user mode has a reader |
| `Query.UndefinedExactly` | lib/src/parse_breakout.c:1350-1404 | A live query is undefined if and only if it has no raw results, or asks for the CPU number one too large and some delivered read has a reader |
| `Query.NoMatchIsUndefined` | lib/src/parse_breakout.c:1797-1812 | A live query that matches no row is undefined |
| `Query.RawResultsFaithful` | lib/src/parse_breakout.c:1645-1653 | Every raw result of a query is a faithful account of one of its reads |
| `Query.LiveQueryExact` | lib/src/parse_breakout.c:1797-1812 | A live parsed query is undefined without raw results or out of bounds; otherwise it appends the comprehension, and every row is a table row decoded from a faithful account of one read of this query |
| `Query.LiveUnparsedQueryExact` | lib/src/parse_breakout.c:1797-1812 | The same for unparsed queries: every answered register, CPU and status is shown once, with the whole value of a faithful account of one read |
| `QueryInFields.UnparsedInFields` | lib/src/parse_breakout.c:1081-1108 | Two unparsed rows differ in register, CPU or status, and every answered register, CPU and status is shown |
| `QueryInFields.UnparsedRowInFields` | lib/src/parse_breakout.c:1081-1108 | Every unparsed row is the whole value of the first raw result that answers with its register, CPU and status |
| `ShownRows.MatchedRowAnswered` | lib/src/parse_breakout.c:1142-1180 | A result shows a matched row if and only if it is of its register and its MIDR opens the gate, as the row decoded from it |
| `ShownRows.ComprehensionSource` | lib/src/parse_breakout.c:1120-1185 | Every row of the comprehension is that of a matched table row and a result that answers it |
| `ShownRows.ShownInFields` | lib/src/parse_breakout.c:732-784 | Such a row has uid, register and names of its table row, level, CPU, MIDR and status of its result, and the value shifted and cut, or whole |
| `ShownRows.ValuesShown` | lib/src/parse_breakout.c:1327-1407 | A live query shows a matched row with a value as a kernel (user-mode) success on a CPU if and only if an admitted read of its register succeeded there with this value |
| `QueryInFields.CpuRowShown` | lib/src/parse_breakout.c:1152-1180 | A successful read on a known CPU shows the rows of its architecture and of its implementation, with the bits of the words read |
| `QueryInFields.LiveRowInFields` | lib/src/parse_breakout.c:1327-1407 | Every row that a live parsed query adds, in the fields of a matched table row and of a raw result |
| `QueryInFields.ReadsInFields` | lib/src/parse_breakout.c:1554-1643 | The kernel (user mode) reads, for the CPU asked for, the registers whose first matched row with any level has bit 1 (bit 0) of its level set |
| `QueryInFields.PreferredLevelDecides` | lib/src/parse_breakout.c:1595-1614 | At preferred levels that agree within a register, bit 1 of its rows' level decides on the kernel and bit 0 on user mode |
| `DeviceQuery.DeviceRowShown` | lib/src/parse_breakout.c:1120-1185 | A value of a matched device row is shown as a success on a CPU if and only if a delivered read of its register succeeded there with this value and found no MIDR of an earlier coprocessor read; in user mode if and only if a user-mode read did |
| `DeviceQuery.DeviceRowListed` | lib/src/parse_breakout.c:1120-1185 | A matched device row is listed, with any status, if and only if a delivered read of its register finds some slot without a MIDR, or it has a user-mode reader |
| `DeviceQuery.DeviceQueryShown` | module/gic.c:49-63 | A query that reads devices only shows a value of a matched device row if and only if a read of its register returned it |
| `DeviceQuery.MixedQueryLosesDeviceValue` | module/gic.c:49-63 | Two tables and a query for a group that spans both: the device register is read with success on the asked CPU and no value of it is shown |
| `DeviceQuery.MixedQueryListsOthers` | module/gic.c:49-63 | When one CPU is asked the device row is listed with the "no result" of CPUs that nobody asked, and with nothing else |
| `DeviceQuery.MixedQueryLosesDeviceRow` | module/gic.c:49-63 | When all CPUs are asked the device row is not listed at all |
| `Find.FindAndFlatten` | lib/src/maplesyrup.c:307-362 | Expands documented tables, runs the query and hands the results over as an array, element for element; an empty list fails |
| `Find.SearchOfTables` | lib/src/parse_breakout.c:1663-1756 | Over documented tables a copy is returned if and only if it has the asked uid, group or name and its table is of a device, the asked architecture, or an asked implementation of it |
| `Find.DocumentedQueryExact` | lib/src/parse_breakout.c:1766-1833 | Over tables in the documented form a live query is the comprehension, and shows of every matched row the values of its admitted successful reads |

## Left out

- KernelEngine.Driver.OnEachCpuKick: once a status has been written behind the last slot, nothing more is promised; what lies there is not modelled.
- Join.ParseResults: once uninitialised list heads are released, nothing more is promised; what they hold is not modelled.
- Lookup.AddBitfieldResult: requires that the uid has a row, as it has in every call, because the code copies from a null name otherwise; its four lookups of the same uid are one here.
- Decode.ApplyMask: requires a shift below 64, because a larger one is undefined in C.
- Tables.BitfieldHeap.ReadTablesToMemory: sizes are unbounded integers and allocation succeeds; a row is written as one value and not field by field; system tables report their number of rows.
- Tables.UidsAreDistinct: asks for at most 65536 rows and numbers below 65536, because both share the 16-bit field.
- Query.FindBitfields: reads the expanded table as a sequence taken at the start, since no stage changes it.
- KernelRun.CallCmd: copying the record across the user boundary always succeeds; a copy that fails midway is not modelled.
- KernelEngine.Driver.CallFuncPtr: rows of the reader table with a known shape have a reader; the spin lock is left out since turns do not overlap, and the callback sees the CPU number it was sent to.
- Names are texts shorter than their buffers, so comparison up to a limit is equality; truncation and termination are not modelled. Text formatting of stamps is not either.
- The inline assembly readers, the return path from a trap, signal and jump mechanics, device open and close, and address mapping: their outcomes are arguments.
- Failing allocation, null arguments, list sizes beyond 32 bits, `set_match_info`, the accessors and the command line.
- The rows of the shipped decode tables and of the reader table: tables are arbitrary.
- `get_bitfields`, which lists every row, and debug output.
- Several callers of the device at once: one request at a time.
