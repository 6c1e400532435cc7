# Verified models of five stateful components

This project models, in Dafny, the parts of the emulator repository where a simple abstract
object is implemented by tables, loops, buffers or threads, and proves that the implementation
keeps to the abstract object for every input, every run or every interleaving.

`dafny verify dfyconfig.toml` checks everything.

| component | files | abstract object |
|---|---|---|
| Unicorn memory map | `MemoryTable`, `MemoryEngine`, `MemoryRuns` | a partial map from 64-bit addresses to (byte, permissions) |
| Unicorn hooks | `HookList`, `HookRegistry` | sequences of hooks per event, a reference count per hook |
| getopt | `ArgvExchange`, `GetoptSpec`, `Getopt`, `GetoptPrinter` | a function from an argument list to events, consumed elements and left-overs |
| HTTP library | `ThreadPool`, `HttpText`, `Chunked`, `ChunkedFormat`, `Base64`, `Url`, `UrlFormat`, `Query` | a step system; the meaning of a byte stream; the encodings of the standards |
| microprofile | `ProfileLog`, `ReplaySpec`, `ProfileReplay`, `ProfileSession` | the nested reading of a log |
| audio core | `MixGraph`, `MixContext`, `AudioStream`, `Adpcm` | chains in a graph; a first-in first-out history; a filter over frames |

The pattern is the same throughout. A specification on values (`MemoryTable.View`,
`GetoptSpec.Scan`, `ReplaySpec.Replay`, `Chunked.Decode`, `MixGraph.Distance`, ...) says what the
component means. Classes and methods with the fields, arrays and loops of the source are proved
against it. Theorems about the specification then say what a user of the component relies on. Where
the input is a text or a format, a printer says how it is written from its parts
(`GetoptPrinter.PrintAll`, `Adpcm.PrintAll`, `UrlFormat.PrintAll`, `ChunkedFormat.Grammatical`,
`HookRegistry.MaskOf`), and a law says that the component reads those parts back.

## What the proofs show about the code

Several laws that one would expect do not hold for all inputs. For each there is a lemma with a
concrete input on which it fails, and the exact condition under which it holds.

- Unmapping or protecting mapped pages touches only those pages. A block that ends at 2^64
  records the end 0; a range that ends inside it takes the rest of it along, and one that starts
  inside it fails. `UnmapExactlyWhen`, `ProtectExactlyWhen`; `TopCounterexample`,
  `TopProtectCounterexample`.
- Calling getopt until it returns -1 ends, with `optind` inside the list. With `W;` in the option
  string and no table of long options it can go round for ever, and with a table in which a name
  is ambiguous it can step over the end of the list. `DoneExactlyWhen`; `LoopCounterexample`,
  `OverrunCounterexample`.
- When getopt returns -1 the options are at their end. A long option may have the value -1, and the
  option character 0xFF has it as a signed character. `NotEndsExactlyWhen`;
  `LastByteCounterexample`.
- When `shutdown` of the thread pool returns, every job pushed before its flag was set is done.
  Without workers such jobs stay in the queue. `DrainsExactlyWhen`; `ForgottenJob`.
- When `shutdown` returns, every job ever pushed is done. `enqueue` does not look at the flag, so a
  job may come after the last worker has exited, and those are exactly the jobs that stay.
  `AllDoneExactlyWhen`, `LeftInQueue`; `BelatedJob`.
- What the chunked writer sends, the chunked reader gives back. A chunk of 2^31 bytes or more makes
  the reader throw. `Chunked.RoundTripExactlyWhen`; `LongChunkThrows`.
- When the chunked reader returns true, the body was complete. It also returns true when the data of
  a chunk is followed by another line than the empty one, and when a size is negative.
  `CompleteExactlyWhen`, `TrueExactlyWhen`; `CutAccepted`, `NegativeAccepted`.
- The chunked writer returns the number of bytes sent. It counts only the last write of each call of
  the provider. `CountExactlyWhen`; `CountCounterexample`.
- The chunked writer returns a negative number when a write fails. It looks only at the last write of
  each call. `NoticedExactlyWhen`; `UnnoticedCounterexample`.
- Decoding undoes URL encoding, and the server sees the query parameters of the client. `encode_url`
  stops at a NUL and does not escape `%`, and the query builder escapes neither `&` nor `=`.
  `Url.RoundTripExactlyWhen`, `MultimapExactlyWhen`; `PercentCounterexample`,
  `AmpersandCounterexample`, `EqualsCounterexample`.
- The tick difference is the true one. It is exactly when the end lies from 2^47 ticks before the
  start up to, but not including, 2^47 ticks after it. `DifferenceExactlyWhen`;
  `HalfwayCounterexample`.
- The profiler's assertion keeps the replay inside its arrays. It asserts that the stack position is
  below 32 before it enters a scope and then clears the child time one place higher, so a nesting of
  exactly 32 passes and leaves the array. `FitsExactlyWhen`, `AssertedExactlyWhen`;
  `DeepestNesting`.
- The distance of a mix is its number of hops, and a mix is sorted before its destination. When the
  walk meets a stored distance, that distance replaces the hops already made.
  `AllExactWhenDirect`, `OrderedExactlyWhen`; `SkippedMemo`.
- The ADPCM filter computes the weighted sum of its inputs. The 32-bit sum wraps for some inputs
  exactly when one of two extreme values of the coefficient pair leaves 32 bits, and then the sample
  comes out at the wrong limit. `Adpcm.FitsExactlyWhen`, `IdealExactlyWhen`;
  `OverflowCounterexample`. A bound of 49152 on the sum of the magnitudes is enough
  (`SmallCoefficientsFit`).

## Model

| member | source | states |
|---|---|---|
| MemoryTable.AlignedIsMod | externals/unicorn/uc.c:705-710 | Alignment as used in all contracts is a remainder of zero, for every page size |
| MemoryTable.MaskIsRemainder | externals/unicorn/uc.c:705-710 | Masking with a power of two less one, as the source tests alignment, gives the remainder |
| MemoryTable.PermissionBits | externals/unicorn/uc.c:921-924 | Of the eight permissions, writing is the bit 2 and execution the bit 4 |
| MemoryTable.CoveringBlockIsUnique | externals/unicorn/uc.c:989-1016 | In a table of disjoint blocks the block that covers an address is unique and determines its byte and permissions |
| MemoryTable.ScanFindsOwner | externals/unicorn/uc.c:1006-1012 | The linear scan finds that block, and finds one exactly when the address is mapped |
| MemoryTable.OverlapIsIntersection | externals/unicorn/uc.c:648-669 | The three comparisons on wrapped 64-bit ends hold exactly when range and block share an address, also for a block that ends at 2^64 |
| MemoryTable.EndWraps | externals/unicorn/uc.c:404 | What the recorded end of a block says modulo 2^64: its last address and the bytes left from any address are right even when the end is 0 |
| MemoryTable.RemoveAtView | externals/unicorn/uc.c:978-980 | Dropping a block removes exactly its addresses from the memory |
| MemoryTable.AppendView | externals/unicorn/uc.c:672-692 | Adding a block over unmapped addresses adds exactly its cells |
| MemoryTable.PokedView | externals/unicorn/uc.c:462-483 | A write changes exactly the bytes of its range, over any number of blocks |
| MemoryTable.SplitView | externals/unicorn/uc.c:848-867 | Cutting a block into pieces changes nothing in the memory except the removal asked for |
| MemoryTable.SplitIsolates | externals/unicorn/uc.c:916-919 | After a split that keeps the middle, the block found at the start of the range is exactly the range |
| MemoryTable.SetPermsView | externals/unicorn/uc.c:923-924 | Changing the permissions of a block changes exactly the permissions of its addresses and no byte |
| MemoryTable.CopyThrough | externals/unicorn/uc.c:465-476 | Lifting the write protection, copying and protecting again leaves everything but the copied bytes as it was |
| MemoryTable.PermsThenReadonly | externals/unicorn/uc.c:923-924 | Storing permissions and then the protection flag leaves the two in step |
| MemoryTable.TopCovers | externals/unicorn/uc.c:989-1016 | The block that covers an address is the one ending at 2^64 exactly when the address is not below that block |
| MemoryEngine.Engine.CheckAligned | externals/unicorn/uc.c:951-956 | The two tests with the page mask accept exactly aligned addresses and sizes |
| MemoryEngine.Engine.MemoryMapping | externals/unicorn/uc.c:989-1016 | The cached lookup agrees with the plain scan for every value of the cache index, stale or not, and finds a block exactly when the address is mapped |
| MemoryEngine.Engine.CheckMemArea | externals/unicorn/uc.c:397-412 | True exactly when every address of the range is mapped, also for a range that goes on at address 0 behind 2^64 |
| MemoryEngine.Engine.MemRead | externals/unicorn/uc.c:416-446 | Succeeds exactly when the range is mapped, and then returns its bytes, around 2^64 too |
| MemoryEngine.Engine.MemWrite | externals/unicorn/uc.c:449-489 | Succeeds exactly when the range is mapped, around 2^64 too; changes exactly those bytes, keeps permissions and puts every write protection back; otherwise changes nothing |
| MemoryEngine.Engine.WriteChunk | externals/unicorn/uc.c:463-480 | One round of the write loop fills the part of the range in one block and keeps the table well formed |
| MemoryEngine.Engine.MemoryOverlap | externals/unicorn/uc.c:648-669 | True exactly when some address of the range is mapped |
| MemoryEngine.Engine.MemMap | externals/unicorn/uc.c:672-738 | Error exactly as the checks in order say; a success adds exactly the range, zero-filled, and there is room for the table entry |
| MemoryEngine.Engine.SplitRegion | externals/unicorn/uc.c:790-875 | Below 2^64 the split succeeds through its recursion with unmap, leaves the memory as it was except for the removal asked for, and isolates the range; for a block ending at 2^64 it changes nothing and succeeds only from its start |
| MemoryEngine.Engine.CopyRegion | externals/unicorn/uc.c:761-773 | The backup holds the data of the block |
| MemoryEngine.Engine.Rebuild | externals/unicorn/uc.c:834-867 | Mapping the pieces again and copying the backup into them completes the split |
| MemoryEngine.Engine.MemUnmap | externals/unicorn/uc.c:940-986 | For every 64-bit range: terminates through its recursion with the split; error exactly as specified; a success removes exactly the range, on both sides of 2^64, and up to 2^64 when it ends inside the top block; everything else unchanged |
| MemoryEngine.Engine.UnmapStep | externals/unicorn/uc.c:971-982 | One round of the unmap loop removes exactly its chunk, or all of the top block, or fails inside the top block |
| MemoryEngine.Engine.MemProtect | externals/unicorn/uc.c:877-937 | For every 64-bit range: a success is a pointwise update of the permissions and changes no byte although blocks are unmapped, mapped and copied; quit is requested exactly when the new permissions lack the bit 4 and some address of the range had it |
| MemoryEngine.Engine.ProtectStep | externals/unicorn/uc.c:914-927 | One round of the protect loop changes exactly its chunk and reports whether execution is lost |
| MemoryEngine.UnmapLoopNext | externals/unicorn/uc.c:968-983 | Rounds of the unmap loop add up to one removal |
| MemoryEngine.ProtectLoopNext | externals/unicorn/uc.c:911-928 | Rounds of the protect loop add up to one update |
| MemoryEngine.TableHasRoom | externals/unicorn/uc.c:679-689 | Growing by 32 when the count is a multiple of 32 always leaves room for the next block |
| MemoryRuns.Execute | externals/unicorn/uc.c:397-986 | Each call with any 64-bit arguments gives the reply and the memory of a one-line interpreter and keeps blocks non-empty, aligned, non-wrapping and disjoint |
| MemoryRuns.Run | externals/unicorn/uc.c:397-986 | Every session of map, unmap, protect, write and read, with any ranges and with a block up to 2^64 or without, has the replies and the final memory of the interpreter |
| MemoryRuns.MapExactlyWhen | externals/unicorn/uc.c:694-738 | A map answers ARG for an empty, unaligned or overflowing range or permissions above 7, MAP when an address of the range is mapped, and OK in all other cases |
| MemoryRuns.UnmapProtectExactlyWhen | externals/unicorn/uc.c:877-986 | An unmap answers OK for the empty range and for whole mapped pages, ARG for parts of pages and NOMEM when an address is not mapped; a protect answers the same except ARG for permissions above 7 |
| MemoryRuns.MapThenRead | externals/unicorn/uc.c:672-738 | Mapped pages read as zeros and have the permissions asked for; nothing else changes |
| MemoryRuns.UnmapRemoves | externals/unicorn/uc.c:940-986 | After an unmap an address is mapped exactly when it was and is not in the range, with its cell as before |
| MemoryRuns.ProtectSets | externals/unicorn/uc.c:877-937 | After a protect the addresses of the range have the permissions asked for, the others theirs, and all their bytes |
| MemoryRuns.NoTop | externals/unicorn/uc.c:672-986 | After any session that maps nothing up to 2^64, an unmap and a protect of mapped pages succeed and change exactly the range |
| MemoryRuns.WriteThenRead | externals/unicorn/uc.c:416-489 | Reading after a write returns the written bytes, around 2^64 too; nothing else and no permission changes |
| MemoryRuns.ProtectKeepsBytes | externals/unicorn/uc.c:877-937 | Reads of any range give the same before and after a protect |
| MemoryRuns.LastProtectDecides | externals/unicorn/uc.c:877-937 | Of two protects of the same range the last one decides |
| MemoryRuns.UnmapExactlyWhen | externals/unicorn/uc.c:790-875 | An unmap of mapped pages succeeds and removes exactly the range if and only if it does not cut the block ending at 2^64 |
| MemoryRuns.ProtectExactlyWhen | externals/unicorn/uc.c:790-937 | A protect succeeds and changes exactly the range if and only if it does not cut that block, or ends inside it with permissions it already has |
| MemoryRuns.TopCounterexample | externals/unicorn/uc.c:802-803 | Two pages at the top of the address space: unmapping the first one takes both |
| MemoryRuns.TopProtectCounterexample | externals/unicorn/uc.c:802-803 | The same two pages: protecting the first one changes both |
| HookList.List.Insert | externals/unicorn/list.c:27-44 | The new item comes first, with head, tail and links in order |
| HookList.List.Append | externals/unicorn/list.c:48-63 | The new item comes last, with head, tail and links in order |
| HookList.List.Remove | externals/unicorn/list.c:66-92 | Removes the first item with that content, if there is one, and says so; the tail stays right |
| HookList.List.Clear | externals/unicorn/list.c:13-23 | Leaves an empty list |
| HookList.RemoveFirstAt | externals/unicorn/list.c:74-90 | Stopping at the first hit of the walk removes the first occurrence |
| HookRegistry.Registry.AddBits | externals/unicorn/uc.c:1069-1092 | One list per set bit of the mask, and as many references; `BitIs` says what a set bit is |
| HookRegistry.Registry.HookAdd | externals/unicorn/uc.c:1019-1101 | The hook is in exactly the lists of its kind, in front or behind as asked (`PlacedInSet`), its count is their number, and it is freed at once when there is none or the instruction is rejected |
| HookRegistry.BitIs | externals/unicorn/uc.c:1069-1070 | Shifting right by i divides by 2^i, so bit i is set exactly when that quotient is odd |
| HookRegistry.MaskBits | externals/unicorn/include/unicorn/unicorn.h:210-239 | The sum of the powers of two of a set of events has exactly the bits of that set |
| HookRegistry.PlacedInSet | externals/unicorn/uc.c:1037-1092 | A hook added for a set of events goes to the front or the back of exactly their lists, in order with what was there, and is counted once for each; the instruction event keeps it to its own list |
| HookRegistry.InvalidAccesses | externals/unicorn/include/unicorn/unicorn.h:242-252 | The mask of all invalid accesses stands for the lists 4 to 9 |
| HookRegistry.Registry.HookDel | externals/unicorn/uc.c:1104-1122 | A live hook leaves every list and is freed once, although the loop stops early; any other handle changes nothing |
| HookRegistry.Registry.Unref | externals/unicorn/uc.c:1115-1118 | Drops one reference and frees the hook with the last one |
| HookRegistry.Registry.ReleaseList | externals/unicorn/uc.c:336-346 | Walking one list drops one reference of each hook in it and keeps counts and lists in step |
| HookRegistry.Registry.Close | externals/unicorn/uc.c:334-347 | Every hook still live is freed, and no hook ever allocated is freed more or less than once |
| HookRegistry.PlacedCounted | externals/unicorn/uc.c:1069-1098 | Adding keeps every count equal to the number of lists holding the hook |
| HookRegistry.RemovedCounted | externals/unicorn/uc.c:1113-1120 | Deleting keeps the counts of all other hooks |
| HookRegistry.RemovedEarly | externals/unicorn/uc.c:1115-1118 | Once the count is zero the remaining lists never held the hook, so stopping early misses nothing |
| HookRegistry.UnrefCounted | externals/unicorn/uc.c:339-345 | Each item walked at close drops exactly one reference |
| HookRegistry.NothingLive | externals/unicorn/uc.c:334-347 | With all lists empty no hook is live and each was freed once |
| HookRegistry.Session | externals/unicorn/uc.c:334-347 | Any calls followed by close free every hook ever allocated exactly once |
| ArgvExchange.Exchange | externals/getopt/getopt.c:72-107 | The blocks change places, each keeping its order, and nothing else moves |
| ArgvExchange.ExchangeRound | externals/getopt/getopt.c:78-104 | One round puts the shorter block in its final place and leaves a smaller exchange with the same outcome |
| ArgvExchange.SwapStretches | externals/getopt/getopt.c:84-89 | Two equally long stretches change places element by element |
| ArgvExchange.ExchangeInvolution | externals/getopt/getopt.c:72-107 | The exchange undoes itself and is a permutation |
| GetoptSpec.LookupSelects | externals/getopt/getopt.c:203-226 | The option found is the first exact one, else the first abbreviated one unless an abbreviated one acts differently |
| GetoptSpec.AmbiguousExactlyWhen | externals/getopt/getopt.c:208-226 | A name is ambiguous if and only if it is no entry and abbreviates two entries that act differently |
| GetoptSpec.DoneExactlyWhen | externals/getopt/getopt.c:331-437 | Every list is scanned to the end of its options, with `optind` inside the list, if and only if the option string has no `W;` or there is a table in which no name is ambiguous |
| GetoptSpec.LoopCounterexample | externals/getopt/getopt.c:340-341 | With `W;` and no table the element -Wx is never left |
| GetoptSpec.OverrunCounterexample | externals/getopt/getopt.c:381-390 | With the entries ab and ac, -W a takes `optind` behind the list |
| GetoptSpec.EventsAreNotEnds | externals/getopt/getopt.c:129-475 | No option is reported as -1 if no option character and no selectable long option without flag has that number |
| GetoptSpec.NotEndsExactlyWhen | externals/getopt/getopt.c:129-475 | And only then: otherwise some list has an option reported as -1 |
| GetoptSpec.LastByteCounterexample | externals/getopt/getopt.c:318-475 | With the option character 0xFF, the list with that option is reported as ended |
| GetoptSpec.ScanIsStablePartition | externals/getopt/getopt.c:129-475 | Consumed elements and left-overs keep their order and together are the list |
| Getopt.ExchangeKeeps | externals/getopt/getopt.c:154-155 | The exchange keeps the meaning of the list |
| Getopt.SkipKeeps | externals/getopt/getopt.c:158-160 | Skipping a non-option keeps the meaning of the list |
| Getopt.StepReports | externals/getopt/getopt.c:187-475 | A step inside an element reports the next event and leaves the other events to come, or a list that never ends, or `optind` behind the list, as the meaning says |
| Getopt.InOrderReports | externals/getopt/getopt.c:182-183 | In RETURN_IN_ORDER a non-option is reported as it comes |
| Getopt.EndOfListEnds | externals/getopt/getopt.c:172-177 | At the end of the list the options come first and optind is at the boundary |
| Getopt.RequireOrderEnds | externals/getopt/getopt.c:180-181 | In REQUIRE_ORDER the first non-option ends the options |
| Getopt.TerminatorEnds | externals/getopt/getopt.c:162-177 | The terminator after skipped elements joins the options and everything after it is left over |
| Getopt.Scanner.SkipNonOptions | externals/getopt/getopt.c:152-161 | The permuting step keeps the meaning and stops at an option or at the end |
| Getopt.Scanner.AtEnd | externals/getopt/getopt.c:162-177 | Ends exactly at the end of the list or at the terminator, with everything in its final place |
| Getopt.Scanner.FindLong | externals/getopt/getopt.c:203-225 | The scan of the option table is the specified lookup |
| Getopt.Scanner.LongElement | externals/getopt/getopt.c:187-315 | A long option reports, consumes and sets what the specification says, errors included |
| Getopt.Scanner.NamedElement | externals/getopt/getopt.c:365-433 | A long option named behind -W reports, consumes and sets what the specification says; an ambiguous name consumes one element too many |
| Getopt.Scanner.ElementByW | externals/getopt/getopt.c:331-437 | The name behind -W is the rest of the element or else the next one; without a table the element is left only when it is finished |
| Getopt.Scanner.ShortElement | externals/getopt/getopt.c:317-475 | One character of a cluster, the `W;` spelling of long options included, reports, consumes and sets what the specification says, errors included |
| Getopt.Scanner.Initialize | externals/getopt/getopt.c:108-128 | The ordering comes from the first character of the option string, else from the environment's request |
| Getopt.Scanner.Call | externals/getopt/getopt.c:129-475 | Every call, for every option string and table, reports the next event of the list's meaning, or ends the scan with options first and left-overs after |
| Getopt.Run | externals/getopt/getopt.c:129-475 | Calling until -1 reports exactly the events of the list up to an option with the value -1, if there is one; otherwise it leaves the program name, all consumed elements and all left-overs in original order with optind between them. This for every list with which the run ends, which is every list when the option string is safe in the sense of `DoneExactlyWhen` |
| GetoptPrinter.PrintedIsScanned | externals/getopt/getopt.c:129-475 | A list printed from options, arguments and operands scans back to them, for every option string built from declarations, every table and ordering: clusters, attached, separate and optional arguments, long options bare, with = and with the next element, abbreviations, the spelling behind -W, unknown and ambiguous names, unwanted and missing arguments, and the terminator; each with its value, its argument and the consumed and left-over elements |
| GetoptPrinter.RunPrinted | externals/getopt/getopt.c:129-475 | So calling getopt until -1 on such a list returns exactly the printed options with their arguments, and leaves options first and operands after |
| GetoptPrinter.ConfigureIs | externals/getopt/getopt.c:108-128 | A leading minus, a leading plus, the environment and nothing select the ordering |
| GetoptPrinter.ValueIs | externals/getopt/getopt.c:318-475 | The value of an option character is that of a signed byte |
| Getopt.CallMany | externals/getopt/getopt.c:331-437 | With a list that loops no number of calls returns -1 |
| ThreadPool.ExclusiveNext | externals/httplib/httplib.h:382-425 | Every step keeps the lock with at most one thread |
| ThreadPool.AccountedNext | externals/httplib/httplib.h:382-425 | Every step keeps: jobs are taken once and in queue order, and a taken job is finished or held by one worker |
| ThreadPool.NoneForgottenNext | externals/httplib/httplib.h:382-425 | Every step keeps: no wake-up is lost |
| ThreadPool.FlaggedNext | externals/httplib/httplib.h:388-425 | Every step keeps what the shutdown flag implies for workers and queue |
| ThreadPool.InvAlways | externals/httplib/httplib.h:370-438 | All of this holds in every state of every run, for any number of workers and clients and with spurious wake-ups |
| ThreadPool.ShutdownDrains | externals/httplib/httplib.h:388-401 | Once shutdown has returned, every job pushed before the flag was taken once in queue order, every job taken has finished and every worker has exited; if nothing was pushed after the flag the queue is empty |
| ThreadPool.CutIsFixed | externals/httplib/httplib.h:390-393 | The jobs that count are those pushed before the flag, and later steps do not change them |
| ThreadPool.ForgottenJob | externals/httplib/httplib.h:372-401 | A run without workers in which a job stays in the queue |
| ThreadPool.DrainsExactlyWhen | externals/httplib/httplib.h:370-438 | Shutdown never forgets a job pushed before the flag if and only if there is at least one worker |
| ThreadPool.LeftInQueue | externals/httplib/httplib.h:382-425 | Once shutdown has returned, in every run of every pool, the jobs left in the queue are exactly those pushed after the last worker had exited, and all others have finished |
| ThreadPool.AllDoneExactlyWhen | externals/httplib/httplib.h:382-425 | All jobs ever pushed have finished when shutdown returns if and only if none was pushed after the last worker had exited |
| ThreadPool.BelatedJob | externals/httplib/httplib.h:382-401 | A run with one worker in which a job pushed after the flag stays in the queue |
| ThreadPool.HolderMoves | externals/httplib/httplib.h:382-425 | Whoever holds the lock can move |
| ThreadPool.NeverStuck | externals/httplib/httplib.h:388-425 | After the flag some thread of the pool can move until shutdown has returned |
| ThreadPool.JobsAreServed | externals/httplib/httplib.h:382-425 | Before the flag, with jobs in the queue, some thread of the pool can move: no wake-up is lost |
| ThreadPool.WorkIsBounded | externals/httplib/httplib.h:382-425 | Before the flag, under every schedule, the pool makes a bounded number of steps of its own, nine more for each step from outside |
| ThreadPool.RestMeansDone | externals/httplib/httplib.h:382-425 | Where it cannot go on by itself, every job ever pushed has been taken in queue order and has finished, and every worker waits |
| ThreadPool.ShutdownIsBounded | externals/httplib/httplib.h:388-425 | Under every schedule shutdown takes a bounded number of steps, seven more for each later request |
| ThreadPool.MaximalRunReturns | externals/httplib/httplib.h:388-425 | A run that cannot go on by itself after the flag has returned from shutdown with all counted jobs done |
| HttpText.FromIToHex | externals/httplib/httplib.h:941-949 | The loop gives the digits of the number, most significant first |
| HttpText.Hex | externals/httplib/httplib.h:941-949 | Those digits are hexadecimal, at least one, and begin with a zero only for the number 0 |
| HttpText.HexRoundTrip | externals/httplib/httplib.h:941-949 | Those digits denote the number |
| HttpText.DigitIs | externals/httplib/httplib.h:910-922 | A character is the digit d exactly when it stands at place d of the lower or the upper case digits |
| HttpText.StoiOfHex | externals/httplib/httplib.h:1833 | A line that starts with the digits of a number converts back to it exactly when it is below 2^31 |
| HttpText.StoiOfNumeral | externals/httplib/httplib.h:1833 | A numeral with blanks, a sign and a prefix in front and any text behind converts to its signed value exactly when that fits 32 bits |
| HttpText.LineOf | externals/httplib/httplib.h:1120-1144 | The first line of a text that has a line feed ends with it |
| Chunked.LineReader.Append | externals/httplib/httplib.h:1147-1158 | One more character, whichever buffer holds the line |
| Chunked.LineReader.GetLine | externals/httplib/httplib.h:1120-1144 | Delivers the line up to and including the line feed, independent of the fixed buffer's size; fails exactly at the end of the stream, or when the connection breaks before the line feed |
| Chunked.ReadContentWithLength | externals/httplib/httplib.h:1777-1797 | Delivers exactly the bytes asked for under every fragmentation, or everything and failure when the stream ends or breaks before; stops with failure where the receiver refuses or the progress callback cancels; the progress told is the number of bytes delivered |
| Chunked.ReadContentChunked | externals/httplib/httplib.h:1825-1856 | On every stream, broken or not, and for every fragmentation the reader ends, delivers and stops where the meaning of the stream says, exceptions included; where the receiver refuses it has delivered a prefix and returns false |
| Chunked.WriteContentChunked | externals/httplib/httplib.h:1957-1988 | The writer sends what the acts of the provider stand for, as far as their writes go through, until no data is available, the server shuts down or the last write of a call fails; the result is negative exactly after such a failure, and otherwise the sum of the lengths of the last writes |
| Chunked.AllKept | externals/httplib/httplib.h:1957-1988 | When every write goes through, everything is sent and counted |
| Chunked.NoticedExactlyWhen | externals/httplib/httplib.h:1964-1987 | The result is negative after every failed write if and only if no call of the provider writes more than once |
| Chunked.UnnoticedCounterexample | externals/httplib/httplib.h:1964-1987 | A chunk that fails before its terminator goes through is not noticed |
| Chunked.CountExactlyWhen | externals/httplib/httplib.h:1964-1987 | The result is the number of bytes sent if and only if no call of the provider writes more than once, and is smaller otherwise |
| Chunked.CountCounterexample | externals/httplib/httplib.h:1964-1987 | A call that writes one byte and is done is counted too short |
| Chunked.WrittenIsEmitted | externals/httplib/httplib.h:1964-1986 | How the provider spreads its writes over calls does not change the output |
| Chunked.IdleCallsDropped | externals/httplib/httplib.h:1961-1987 | Calls of the provider that do nothing add nothing to the output and to the count |
| Chunked.DecodeOfChunk | externals/httplib/httplib.h:1835-1847 | A framed chunk in front of a stream is delivered and reading goes on behind it, or the size conversion throws |
| Chunked.DecodeOfTerminator | externals/httplib/httplib.h:1849-1853 | The terminator ends the body and reading stops right after it |
| Chunked.RoundTripExactlyWhen | externals/httplib/httplib.h:1825-1856 | For every provider of non-empty chunks and whatever follows, reading what was written returns true, delivers the concatenation and stops right after the terminator, if and only if every chunk is below 2^31 |
| Chunked.SendAndReceive | externals/httplib/httplib.h:1825-1988 | Writer and reader together through the methods: the same, unless a write fails or the receiver refuses |
| Chunked.LongChunkThrows | externals/httplib/httplib.h:1833 | A single chunk of 2^31 bytes makes the reader throw |
| ChunkedFormat.TrueMeans | externals/httplib/httplib.h:1825-1856 | A stream for which the reader returns true holds exactly one of three things: a complete body, data followed by another line than the empty one, a negative size |
| ChunkedFormat.CompleteExactlyWhen | externals/httplib/httplib.h:1825-1856 | When the reader returns true the body is complete if and only if no data is followed by another line and no size is negative, both read off the text |
| ChunkedFormat.TrueExactlyWhen | externals/httplib/httplib.h:1825-1856 | On a stream without error the reader returns true exactly for these three kinds of text |
| ChunkedFormat.BodyIsDelivered | externals/httplib/httplib.h:1835-1853 | A complete body is delivered in full and reading stops right behind it |
| ChunkedFormat.CutIsDelivered | externals/httplib/httplib.h:1842 | Data followed by another line is delivered, with all before it, as if the body ended there |
| ChunkedFormat.NegativeIsDelivered | externals/httplib/httplib.h:1835 | The chunks before a negative size are delivered as if the body ended there |
| ChunkedFormat.CutAccepted | externals/httplib/httplib.h:1842 | One byte of data and a line X: true without a terminator |
| ChunkedFormat.NegativeAccepted | externals/httplib/httplib.h:1833-1835 | The line -1 alone: true without a terminator |
| ChunkedFormat.WrittenIsGrammatical | externals/httplib/httplib.h:1964-1986 | What the writer sends for a list of chunks is a body by the grammar of section 4.1 of RFC 7230: size in digits, line end, data, line end, and the last chunk of size zero |
| Base64.LookupIsLetter | externals/httplib/httplib.h:986-987 | The table is the alphabet of section 4 of RFC 4648 |
| Base64.Accumulates | externals/httplib/httplib.h:996 | What the 32-bit accumulator discards is never read |
| Base64.ShiftShows | externals/httplib/httplib.h:997-1001 | Each shift of the accumulator shows the sextet of the standard |
| Base64.StreamIsStandard | externals/httplib/httplib.h:985-1011 | The streamed symbols with their ending are the encoding by blocks of three bytes |
| Base64.Emit | externals/httplib/httplib.h:998-1001 | The inner loop pushes the letters that a byte completes |
| Base64.Finish | externals/httplib/httplib.h:1004-1008 | The letter for left-over bits and the padding complete the encoding |
| Base64.Base64Encode | externals/httplib/httplib.h:985-1011 | The streaming encoder gives the encoding of section 4 of RFC 4648, of length 4 times the number of begun blocks, for every byte string |
| Base64.RoundTrip | externals/httplib/httplib.h:985-1011 | A standard decoder gives every byte string back |
| Url.EncodeUrl | externals/httplib/httplib.h:2004-2033 | Percent-encodes, per section 2.1 of RFC 3986, eight kinds of characters up to the first NUL |
| Url.FromHexToI | externals/httplib/httplib.h:924-939 | The number in the digits at a place, or failure when a character there is no digit or the text ends |
| Url.DecodeUrl | externals/httplib/httplib.h:2035-2069 | Replaces escapes of two digits, escapes of four digits and plus signs, from left to right |
| Url.EscapeKept | externals/httplib/httplib.h:2039-2060 | A percent sign reads as an escape after encoding exactly when it did before |
| Url.RoundTripExactlyWhen | externals/httplib/httplib.h:2004-2069 | Decoding undoes encoding if and only if the value has no NUL and no percent sign that already reads as an escape |
| Url.PercentCounterexample | externals/httplib/httplib.h:2017-2027 | The value %41 comes back as A |
| UrlFormat.WrittenIsDecoded | externals/httplib/httplib.h:2035-2069 | A text written from literal characters, plus signs, escapes of two and of four digits and stray percent signs decodes to the characters meant; a plus sign means a blank |
| UrlFormat.Utf8Is | externals/httplib/httplib.h:951-981 | The bytes for a code point are its UTF-8 form by section 3 of RFC 3629, and none for a surrogate |
| UrlFormat.EscapedIs | externals/httplib/httplib.h:2004-2033 | An escaped character is a percent sign and its two upper case digits, and exactly the characters listed and those from 128 up are escaped |
| Query.SplitText | externals/httplib/httplib.h:1076-1089 | The pieces between separators, none for an empty text |
| Query.PiecesJoin | externals/httplib/httplib.h:1076-1089 | Joining two texts with a separator joins their pieces |
| Query.ParseOne | externals/httplib/httplib.h:2073-2082 | The first non-empty segment is the key and the last later one the value, decoded |
| Query.Produced | externals/httplib/httplib.h:2073-2082 | A parsed key holds no separator, and without a key there is no value |
| Query.PairExactlyWhen | externals/httplib/httplib.h:2073-2082 | A printed pair is parsed back to itself if and only if nothing in it is cut or changed by decoding |
| Query.RoundTripExactlyWhenClean | externals/httplib/httplib.h:2071-2084 | The list of pairs comes back in order if and only if every pair is clean |
| Query.EmplaceAllKeeps | externals/httplib/httplib.h:2082 | Inserting into the multimap neither loses nor adds an entry |
| Query.LessIs | externals/httplib/httplib.h:2082 | Keys are ordered by their first difference, and a prefix comes first |
| Query.MultimapIs | externals/httplib/httplib.h:2082 | The keys stay in order, and the values of each key are the old ones and then the new ones as they came |
| Query.MultimapExactlyWhen | externals/httplib/httplib.h:2071-2084 | The parsed multimap equals the printed one if and only if every parameter is clean |
| Query.BuildQuery | externals/httplib/httplib.h:4111-4122 | The loop prints the pairs joined by ampersands |
| Query.ParseQueryText | externals/httplib/httplib.h:2071-2084 | Adds every pair of the text to the multimap, in order |
| Query.ClientToServer | externals/httplib/httplib.h:4111-4122 | Builder and parser together: the same multimap if and only if every parameter is clean |
| Query.AmpersandCounterexample | externals/httplib/httplib.h:4111-4122 | The value a&b arrives as the value a and a second parameter b |
| Query.EqualsCounterexample | externals/httplib/httplib.h:2073-2082 | Of the value a=b only b arrives |
| ProfileLog.PackRoundTrip | externals/microprofile/microprofile.h:807-835 | Packing and reading gives the type, the 14-bit timer and the tick modulo 2^48 |
| ProfileLog.EntryLayout | externals/microprofile/microprofile.h:807-835 | The word of an entry is its type times 2^62, its timer times 2^48 and its tick |
| ProfileLog.SetTickKeeps | externals/microprofile/microprofile.h:845-853 | Setting the tick keeps type and timer |
| ProfileLog.DifferenceIsTrue | externals/microprofile/microprofile.h:837-843 | The difference is the true one across wraparound when the end lies from 2^47 before the start up to, but not including, 2^47 after it |
| ProfileLog.DifferenceExactlyWhen | externals/microprofile/microprofile.h:837-843 | And only then |
| ProfileLog.HalfwayCounterexample | externals/microprofile/microprofile.h:837-843 | An end exactly 2^47 ticks after the start gives a negative difference |
| ProfileLog.CyclicPut | externals/microprofile/microprofile.h:1366-1376 | Writing extends what is pending by one entry unless one slot is left |
| ProfileLog.ThreadLog.Put | externals/microprofile/microprofile.h:1362-1377 | Appends the packed entry, or drops it and flags the overflow exactly when the ring is full |
| ProfileLog.ThreadLog.Flip | externals/microprofile/microprofile.h:1585-1589 | A flip notes where the writer is and leaves nothing pending |
| ProfileLog.ThreadLog.GetRange | externals/microprofile/microprofile.h:1456-1473 | The two stretches hold exactly what is pending, in order |
| ReplaySpec.StepConserves | externals/microprofile/microprofile.h:1668-1723 | One entry credits as much exclusive time as the child times on the stack grow by |
| ReplaySpec.ReplayConserves | externals/microprofile/microprofile.h:1662-1725 | So does every log, balanced or not |
| ReplaySpec.ExclusiveIsRootTime | externals/microprofile/microprofile.h:1662-1725 | With an empty stack before and after, all exclusive time is the time of the outermost scopes |
| ReplaySpec.ReplayForest | externals/microprofile/microprofile.h:1662-1725 | A log with a nested reading credits each scope its time and its time less that of the scopes directly inside it, each group the time of its outermost scopes and each counter the innermost scope, and leaves stack and groups as they were |
| ReplaySpec.BalancedIsForest | externals/microprofile/microprofile.h:1662-1725 | Every log that leaves only scopes it entered, in matching groups, and ends with none open has a nested reading |
| ReplaySpec.ForestIsBalanced | externals/microprofile/microprofile.h:1662-1725 | And every nested reading is such a log, wherever it stands |
| ProfileReplay.ReplayBalanced | externals/microprofile/microprofile.h:1662-1725 | So the replay of every balanced log is that of its nested reading |
| ReplaySpec.ForestConserves | externals/microprofile/microprofile.h:1662-1725 | Over a balanced log all exclusive time is the time of the outermost scopes of the nesting |
| ProfileReplay.FitsExactlyWhen | externals/microprofile/microprofile.h:1671-1680 | Every place of the stack and of the child times that the replay reads or writes lies inside the arrays if and only if nesting stays below 32 |
| ProfileReplay.InBoundsWhen | externals/microprofile/microprofile.h:1671-1680 | The places that one entry touches lie inside the arrays if and only if the stack stays below 32 after it |
| ProfileReplay.AssertedExactlyWhen | externals/microprofile/microprofile.h:1675 | The assertion lets through a nesting up to and including 32 |
| ProfileReplay.DeepestNesting | externals/microprofile/microprofile.h:1675-1679 | Entering 32 scopes passes every assertion, and the last one clears place 32 of the child times |
| ProfileReplay.DepthIsStack | externals/microprofile/microprofile.h:1660-1703 | The stack is as high as the scopes entered and not left |
| ProfileReplay.ExclusiveTotals | externals/microprofile/microprofile.h:1708 | The exclusive times of all timers add up to the time credited |
| ProfileReplay.ForestTotals | externals/microprofile/microprofile.h:1662-1725 | The totals after replaying a balanced log: per timer how often it was left, its time and its time less that of the scopes directly inside; per group the time of its outermost scopes; per counter what was counted while the timer was innermost |
| ProfileReplay.Replayer.Enter | externals/microprofile/microprofile.h:1671-1681 | Entering pushes a scope and counts its group, and touches only the places named |
| ProfileReplay.Replayer.Meta | externals/microprofile/microprofile.h:1682-1692 | A counter entry goes to the innermost open scope, if there is one |
| ProfileReplay.Replayer.Leave | externals/microprofile/microprofile.h:1693-1723 | Leaving credits timer, group and enclosing scope as specified, and does nothing with an empty stack |
| ProfileReplay.Replayer.ReplayRange | externals/microprofile/microprofile.h:1666-1724 | One stretch of the buffer is replayed as specified |
| ProfileReplay.Replayer.ClearFrame | externals/microprofile/microprofile.h:1597-1610 | All totals start from zero, and open scopes stay open |
| ProfileReplay.Replayer.ReplayFrame | externals/microprofile/microprofile.h:1633-1731 | Everything between two flips is replayed, around the end of the buffer, whatever the entries of older open scopes have become; the exclusive totals grow by the growth of the live child times |
| ProfileSession.Profiler.Flip | externals/microprofile/microprofile.h:1560-1745 | A flip replays the frame that ended three flips ago from what the ring holds now, if all its entries can be replayed; the exclusive time of the frame is the growth of the time that open scopes hold, and is added to that of the frames before |
| ProfileSession.Profiler.Accumulate | externals/microprofile/microprofile.h:1735-1743 | The exclusive time of each timer in the frame is added to its time over all frames |
| ProfileSession.Run | externals/microprofile/microprofile.h:1533-1745 | Over any number of frames with any entries written between them, and whatever the ring has lost, the exclusive time accumulated is the growth of the time that open scopes hold |
| MixGraph.ChainReaches | src/audio_core/mix_context.cpp:49-70 | A mix on a chain reaches the final mix exactly when the start does, so many hops later |
| MixGraph.NoRepeat | src/audio_core/mix_context.cpp:49-70 | A chain that arrives visits no mix twice |
| MixGraph.LengthBound | src/audio_core/mix_context.cpp:72-75 | A chain arrives in fewer hops than there are mixes, or never, so the cut-off loses nothing |
| MixGraph.Distance | src/audio_core/mix_context.cpp:36-78 | The stored distance is other than NO_FINAL_MIX exactly for a mix in use whose chain arrives, and never exceeds the chain's length |
| MixGraph.OrderedExactlyWhen | src/audio_core/mix_context.cpp:64-68 | A mix is farther away than its destination if and only if no stored distance was met beyond the first hop |
| MixGraph.ExactWhenDirect | src/audio_core/mix_context.cpp:64-68 | The distance is the number of hops exactly when nothing stored was skipped to, here and in the distance it builds on |
| MixGraph.AllExactWhenDirect | src/audio_core/mix_context.cpp:36-78 | All distances are exact if and only if every mix is direct |
| MixGraph.SkippedMemo | src/audio_core/mix_context.cpp:64-68 | A graph of four mixes in which a mix gets the distance of its own destination |
| MixContext.MixContext.FollowChain | src/audio_core/mix_context.cpp:46-75 | The walk ends on every graph, cyclic or not, with the distance of the specification |
| MixContext.MixContext.UpdateDistancesFromFinalMix | src/audio_core/mix_context.cpp:30-79 | All distances are stored, and the order is reset to the index order |
| MixContext.MixContext.CalcMixBufferOffset | src/audio_core/mix_context.cpp:81-92 | The first mix in use in sorted order starts at 0 and each next one where the one before it ends; mixes not in use keep their offset |
| MixContext.MixContext.SortInfo | src/audio_core/mix_context.cpp:94-107 | Distances, a descending order of all mixes and the layout for that order, end to end from 0 |
| MixContext.SortDescending | src/audio_core/mix_context.cpp:98-103 | Every place once, in descending order of the keys |
| MixContext.DirectBeforeDestination | src/audio_core/mix_context.cpp:98-103 | In every descending order a direct mix is rendered before its destination |
| MixContext.IndirectNotBefore | src/audio_core/mix_context.cpp:98-103 | A mix that is not direct comes before its destination only on a tie |
| MixContext.LayoutDisjoint | src/audio_core/mix_context.cpp:81-92 | Buffers of different mixes do not overlap |
| MixContext.LayoutTiles | src/audio_core/mix_context.cpp:81-92 | Every buffer below the total of the mixes in use belongs to exactly one of them, and no other buffer to any |
| MixContext.LayoutIsTotals | src/audio_core/mix_context.cpp:81-92 | In such a layout the offset of a mix is the total of the mixes in use before it |
| AudioStream.Stream.Play | src/audio_core/stream.cpp:44-47 | Starts playing, and an idle stream with queued buffers gets an active one |
| AudioStream.Stream.PlayNextBuffer | src/audio_core/stream.cpp:81-107 | Restores what holds of a playing stream without touching an active buffer |
| AudioStream.Stream.ReleaseActiveBuffer | src/audio_core/stream.cpp:109-114 | There is an active buffer whenever a release event fires; it is released behind all earlier ones and the next one starts |
| AudioStream.Stream.QueueBuffer | src/audio_core/stream.cpp:116-123 | Accepts exactly while fewer than 32 buffers are queued; buffers keep their order |
| AudioStream.Stream.GetTagsAndReleaseBuffers | src/audio_core/stream.cpp:130-137 | Hands back the oldest released buffers, in order, at most the number asked for |
| AudioStream.RoundRobin | src/audio_core/audio_renderer.cpp:258-268 | The i-th buffer queued has tag i modulo 4, for ever |
| AudioStream.EachTagOnce | src/audio_core/audio_renderer.cpp:41-46 | Each of the four tags is in exactly one place |
| AudioStream.Renderer.QueueMixedBuffer | src/audio_core/audio_renderer.cpp:258-260 | The stream never rejects a mixed buffer, and every one is counted |
| AudioStream.Renderer.ReleaseAndQueueBuffers | src/audio_core/audio_renderer.cpp:263-268 | One update queues again exactly the buffers it took back, in order |
| AudioStream.Run | src/audio_core/audio_renderer.cpp:258-268 | In every interleaving of updates, queueing and release events: each tag once, release order is queueing order, one event pending exactly when a buffer is active, and a queued buffer implies an active one |
| AudioStream.NeverIdle | src/audio_core/audio_renderer.cpp:258-268 | There is always a buffer to queue, an event pending or a buffer to take back |
| Adpcm.DecodeADPCM | src/audio_core/codec.cpp:11-75 | For every list of packets (filter index, shift and fourteen nibbles) whose printed bytes the data starts with, output and carried history are the answers of the filters named, and of the filter over real numbers when every coefficient pair is in range; the array is exactly filled |
| Adpcm.DecodeFrame | src/audio_core/codec.cpp:31-69 | One frame gives fourteen samples in place and touches no other; `FrameMeans` says which |
| Adpcm.FilterIsIdeal | src/audio_core/codec.cpp:41-54 | With coefficients in range a sample is the real-number sum of scaled nibble and weighted history, rounded to the nearest and clamped |
| Adpcm.IdealExactlyWhen | src/audio_core/codec.cpp:41-54 | This holds for every nibble, scale and history if and only if the coefficients are in range |
| Adpcm.DecodeIsIdeal | src/audio_core/codec.cpp:11-75 | With all eight pairs in range the whole decoder answers each packet with the real-number filter that its index and shift name |
| Adpcm.FrameMeans | src/audio_core/codec.cpp:31-69 | A frame printed from its index, shift and nibbles, high half of a byte first, is answered by the filter with that pair of coefficients and that power of two |
| Adpcm.DecodePackets | src/audio_core/codec.cpp:11-75 | A stream of printed packets is answered packet by packet, with the history carried over |
| Adpcm.DataIsPackets | src/audio_core/codec.cpp:29-33 | All data of whole frames is such a stream |
| Adpcm.IdealIsNearest | src/audio_core/codec.cpp:47-49 | The real-number filter rounds to the nearest integer, halves up, and clamps to 16 bits |
| Adpcm.SplitDecode | src/audio_core/codec.cpp:11-75 | Two calls split at a frame boundary, with the history carried over, decode what one call does |
| Adpcm.TameSumsFit | src/audio_core/codec.cpp:47 | With coefficients in range no sum leaves 32 bits and the filter is exact |
| Adpcm.FitsExactlyWhen | src/audio_core/codec.cpp:47 | No sum leaves 32 bits for any nibble, scale and history if and only if the two extremes do not |
| Adpcm.OverflowCounterexample | src/audio_core/codec.cpp:47 | Two coefficients of 32767 and a history of 32767: the sample is -32768 where the sum calls for 32767 |
| Adpcm.SmallCoefficientsFit | src/audio_core/codec.cpp:47 | Coefficients whose magnitudes add up to at most 49152 are in range |

## Left out

- Emulator internals behind `memory_map`, `memory_unmap`, `read_mem`, `write_mem` and `readonly_mem`: the model gives them contracts (one block, its bytes, its flag).
- `mem_redirect`, `uc_mem_map_ptr` and failing allocations: not modelled, so `NOMEM` is returned only for unmapped ranges and for the top block.
- HookRegistry.Registry.HookAdd: the allocator never hands out the address of a freed hook again, so a stale handle cannot name a new hook; failing allocations are not modelled.
- Getopt.Run: requires a list with which the run ends; what happens with the others is in `Scanner.Call`, `CallMany` and `DoneExactlyWhen`.
- Getopt.Scanner.Call: not stated for a scanner whose `optind` is already behind the list, where the source would read past its arguments.
- getopt's `long_only` variant, its error messages and its wide-character copy: not modelled. The environment lookup is a parameter.
- GetoptSpec.NotEndsExactlyWhen: plain characters are signed bytes, as compilers for x86-64 have them; where they are unsigned the character 0xFF is no exception.
- ThreadPool.ShutdownDrains: jobs that do not return or that throw are not modelled; one thread calls `shutdown`.
- Chunked.LineReader.GetLine: a fixed buffer of one byte, which the library never uses, is excluded.
- Query.ClientToServer: the multimap is its sequence of entries in iteration order; keys are printed as they are, as in the source.
- Sockets, SSL, zlib, multipart forms, routing and file serving of the HTTP library: input and output, or code of other libraries.
- ProfileReplay.Replayer.Enter: requires a place for the child time of the new scope, which the source's own assertion does not ensure; `FitsExactlyWhen` says when there always is one.
- ProfileReplay.Replayer.ReplayFrame: requires what the replay asserts of its entries, with that bound on the nesting, and that every slot names a registered timer.
- ProfileSession.Run: one thread with its log; all counters are cleared with the frame, as the source does for those on display; switching the profiler off and on, which empties the stack, is not modelled. A session ends at the first frame that the source's assertions refuse.
- ProfileSession.Profiler.Flip: the same holds of a single flip.
- Replacing GPU ticks, the periodic copy of the accumulated times, their maxima, the dump and the user interface of the profiler: not modelled. Totals are unbounded numbers.
- MixContext.SortDescending: stands for `std::sort`; what is proved of the sorted order holds of every arrangement of equal distances.
- Mix ids are taken to be indices and destinations to be indices or `NO_MIX`. The topological sort with splitters is not modelled.
- AudioStream.Stream.Play: sink, volume, sample data and event times are not modelled; each method is one step.
- AudioStream.Stream.Stop: only the state change is modelled.
- Wave buffer decoding, resampling, volume ramps and mixing in floating point: not modelled.
- `LUrlParser`, memory pools, behaviour, effect and sink contexts: field copies and single scans that would only add easy members.
