# univdreams: a verified model

univdreams takes binaries apart and puts them back byte for byte, and emulates Linux and
Windows guests around that promise. This project models the parts of it whose correctness is
not visible from any one function, and proves what they promise for every input, every run
or every reachable state. `dafny verify dfyconfig.toml` checks everything.

## What is modelled

**Containers.** `Bytes` has little-endian fields and a small theory of writing patches into a
zeroed buffer. `Regions` has the sort, the adjacent-overlap check and the gap sweep.
`ElfHeaders`, `Elf`, `ElfRoundTrip` and `ElfProgram` model the ELF reader and writer for both
classes: an accepted file is written back unchanged, consistent parts are read back unchanged,
and the accepted byte strings are exactly the written ones. `MachoCommands`, `Macho`,
`MachoRoundTrip` and `MachoProgram` model 64-bit Mach-O, where pieces may overlap. There every
write of an accepted file restores original bytes and together they cover it, so the order of
the writes does not matter either; parts of the right shape are read back exactly when their
overlapping pieces agree; and the accepted byte strings are exactly what such parts write. The
load-command bodies have their own round trips.

**The amd64 scheduler.** `Scheduler` is the run loop as a state machine: one guest step is an
event carrying whatever the CPU or the kernel beneath it chose to do; what the loop does with
it is a function. A forked child is a tree of such events. `SchedulerSafety`, `SchedulerRuns`
and `SchedulerTheorems` prove the invariant and the theorems over runs, `SchedulerChildren`
ties forks and `wait4` to what the guest sees, `SchedulerExits` and `SchedulerWaits` say exactly
what leaving does and who waits, and `SchedulerProgram` is the loop as an object updated in place. `GuestMemory` has the byte-wise word access.

**DLL dependencies.** `Preload` is the depth-first dependency walk over normalised lookups;
`PreloadSafety` has its invariant, `PreloadReach` which names it visits, when it fails and when
a file is loaded twice, and `PreloadProgram` the recursive loader.

**Base58.** `Base58` is the playground decoder: the carry loop in its fixed buffer, the
inequality between powers that makes the buffer large enough, and an encoder it inverts.

**The `.ud` printer.** `CallText` is the quoting of call arguments and a reader that recovers
the list, for any lexer.

**The in-memory filesystem.** `Paths`, `Directories`, `VirtualFs` and `VirtualFsProgram`:
normal forms of paths, directories synthesised from flat keys, and handles that refine
zero-filled byte functions with one position per open.

**Function map and metadata.** `FunctionMap` has merging, size filling and lookup; `Cbor` and
`EvmMetadata` have the CBOR parser (section 3 of RFC 8949) and the trailer scan.

Where code and documentation differ the model follows the code:

- `exit_group` from a thread other than 1 ends that thread only, although the loop's comment
  says it ends the process (src/emulator/runtime.rs:836-837, 919-935). `ExitEndsRun` says
  exactly when `exit` or `exit_group` ends the run, and `SiblingExitGroup` is a run in which a
  sibling's does not.
- The comment also says that thread exit honours the clear-child-tid word. Leaving by `execve`
  or by a halt does not (src/emulator/runtime.rs:911-914, 1022-1036): `JoinersReleasedExactly`
  says that joiners are released exactly when the thread leaves by the exit system call.
- A DLL file can be loaded twice: under two spellings of its name in one walk, or again under
  a second spelling when it is in the module table already. `OncePerFileExactly` says exactly
  when neither happens; `OneFileTwice` and `LoadedFileAgain` are such import tables.
- The comment on `has_child` speaks of live children and unreaped zombies
  (src/emulator/runtime.rs:130-131). The test looks for process entries, and only thread 1 is
  one: `MainNeverWaits` and `ParksExactly` say who parks in `wait4`.
- The dylinker decoder stops on a slice out of range for stored offsets 8 to 11
  (`DylinkerPanics` says exactly when).
- The merged size does depend on the order of discovery unless the PLT gives one or nobody
  disagrees (`OrderIndependent` and `OrderMatters`).
- `containing` never answers for address 2^64 - 1, and size filling never fills a function
  there. Size filling blanks the name of a record without sources.
- An `i32` or `i64` that overflows wraps, as in a release build.

## Model

| member | source | states |
|---|---|---|
| Bytes.FieldsRestore | src/format/elf.rs:975-998 | contiguous fields that were read from a slice write back that slice |
| Bytes.RestoreAll | src/format/macho.rs:505-549 | writes that each restore the target and together cover it produce it, overlaps and order notwithstanding |
| Bytes.OrderIrrelevant | src/format/elf.rs:812-850 | disjoint writes give the same buffer in every order |
| Bytes.CopyInto | src/format/elf.rs:812-850 | `copy_from_slice` into a buffer changes exactly the patch |
| Bytes.WriteFields | src/format/elf.rs:987-998 | writing fields in place is one patch of their bytes |
| Bytes.WritePatches | src/format/elf.rs:844-847 | the padding loop applies every patch in order |
| Regions.NeighboursApart | src/format/elf.rs:918-933 | for sorted nonempty regions the adjacent check passes exactly when all pairs are disjoint |
| Regions.OverlapCheckExact | src/format/elf.rs:860-936 | sorting then checking neighbours rejects exactly the overlapping sets |
| Regions.GapsIncreasing | src/format/elf.rs:938-956 | gaps are nonempty, ordered and inside the file, also under overlaps |
| Regions.GapsCover | src/format/elf.rs:938-956 | every byte outside all regions lies in a gap |
| Regions.GapsApart | src/format/macho.rs:1250-1268 | no gap meets a region, even when regions overlap |
| Regions.ComputePadding | src/format/elf.rs:938-956 | the cursor sweep cuts exactly the gaps |
| ElfHeaders.EhdrWriteOfRead | src/format/elf.rs:251-398 | a header read from bytes writes those bytes, for both classes |
| ElfHeaders.EhdrReadOfWrite | src/format/elf.rs:251-398 | a header whose fields fit its class is read back from what it writes |
| ElfHeaders.EntryWriteOfRead | src/format/elf.rs:415-574 | program and section headers write back the bytes they were read from, permuted 32-bit program header included |
| ElfHeaders.EntryReadOfWrite | src/format/elf.rs:415-574 | a table entry that fits its class is read back from what it writes |
| ElfHeaders.WriteEhdr | src/format/elf.rs:357-398 | the in-place header writer is one patch of the header bytes |
| ElfHeaders.WriteEntry | src/format/elf.rs:453-574 | the in-place entry writers are one patch of the entry bytes |
| ElfRoundTrip.ParsedConsistent | src/format/elf.rs:634-713 | an accepted file is consistent: fields fit, counts match, regions are disjoint, padding is the gaps |
| ElfRoundTrip.PiecesTile | src/format/elf.rs:812-956 | header, tables, sections and padding of a consistent file put every byte in exactly one piece, so any write order gives the same bytes |
| ElfRoundTrip.WriteOfParse | src/format/elf.rs:634-713 | writing an accepted file returns exactly its bytes |
| ElfRoundTrip.ParseOfWrite | src/format/elf.rs:723-850 | parsing what consistent parts write returns the same class, headers, sections and padding |
| ElfRoundTrip.AcceptedExactly | src/format/elf.rs:634-652 | a byte string is accepted exactly when consistent parts write it |
| ElfRoundTrip.BareHeaderConsistent | src/format/elf.rs:1042-1050 | a header without tables followed by anything is consistent |
| ElfProgram.ParseEntries | src/format/elf.rs:654-675 | the table loop reads every entry or reports the truncation |
| ElfProgram.ParseSections | src/format/elf.rs:677-713 | the section loop collects contents in order and stops at the first truncated one |
| ElfProgram.CheckNeighbours | src/format/elf.rs:920-933 | the adjacent loop reports the first overlapping pair |
| ElfProgram.BuildFileRegions | src/format/elf.rs:860-936 | the region builder reports the first overflow, then the first overlap, or the sorted regions |
| ElfProgram.ParseFile | src/format/elf.rs:634-652 | the imperative reader computes `Parse` |
| ElfProgram.WriteTable | src/format/elf.rs:819-835 | the table loop writes the table bytes at its offset and nothing else |
| ElfProgram.WriteSections | src/format/elf.rs:837-842 | the section loop writes the file-occupying sections |
| ElfProgram.WriteToVec | src/format/elf.rs:812-850 | the writer fills a zeroed buffer with all blocks |
| ElfProgram.RoundTrip | src/format/elf.rs:634-850 | reading then writing returns the input, for every accepted input |
| MachoCommands.SegmentWriteOfRead | src/format/macho.rs:553-653 | a parsed segment writes back the first 64 + 80 * nsects bytes of its body |
| MachoCommands.SegmentReadOfWrite | src/format/macho.rs:553-653 | a segment that fits is read back from its body, whatever follows |
| MachoCommands.DylinkerPanics | src/format/macho.rs:805-833 | decoding stops on a bad slice exactly for stored offsets 8 to 11 |
| MachoCommands.DylinkerEncodeOfDecode | src/format/macho.rs:803-844 | an accepted dylinker body is encoded back unchanged |
| MachoCommands.DylinkerDecodeOfEncode | src/format/macho.rs:803-844 | a well-formed dylinker is decoded back from its body |
| MachoCommands.DylibEncodeOfDecode | src/format/macho.rs:859-900 | an accepted dylib body is encoded back unchanged |
| MachoCommands.DylibDecodeOfEncode | src/format/macho.rs:859-900 | a well-formed dylib is decoded back from its body |
| MachoCommands.BuildVersionEncodeOfDecode | src/format/macho.rs:919-962 | an accepted build-version body is encoded back unchanged |
| MachoCommands.BuildVersionDecodeOfEncode | src/format/macho.rs:919-962 | a build version that fits is decoded back |
| MachoCommands.SymtabEncodeOfDecode | src/format/macho.rs:672-700 | an accepted symtab body is encoded back unchanged |
| MachoCommands.SymtabDecodeOfEncode | src/format/macho.rs:672-700 | a symtab record whose fields fit is decoded back, field by field |
| MachoCommands.DysymtabEncodeOfDecode | src/format/macho.rs:728-786 | an accepted dysymtab body is encoded back unchanged |
| MachoCommands.DysymtabDecodeOfEncode | src/format/macho.rs:728-786 | a dysymtab record whose 18 fields fit is decoded back, field by field |
| MachoCommands.LinkeditDataEncodeOfDecode | src/format/macho.rs:1001-1020 | an accepted linkedit-data body is encoded back unchanged |
| MachoCommands.LinkeditDataDecodeOfEncode | src/format/macho.rs:1001-1020 | a linkedit-data record whose fields fit is decoded back |
| Macho.CommandsRestore | src/format/macho.rs:1113-1155 | every load command writes back its own bytes |
| Macho.CommandsCover | src/format/macho.rs:1113-1155 | the commands cover the whole command table |
| Macho.SegmentsRestore | src/format/macho.rs:1157-1187 | every segment's data is the file's bytes at its offset |
| Macho.SegmentsCover | src/format/macho.rs:1157-1248 | every byte of a segment region is written by some segment |
| Macho.BlocksRestore | src/format/macho.rs:505-549 | every write of an accepted file restores original bytes |
| Macho.BlocksCover | src/format/macho.rs:505-549 | the writes of an accepted file cover it |
| Macho.WriteOfParse | src/format/macho.rs:376-419 | writing an accepted file returns exactly its bytes, in any write order, overlaps included |
| MachoRoundTrip.ReadsBackExactly | src/format/macho.rs:424-549 | parts of the right shape are read back whole from what they write exactly when their overlapping pieces agree |
| MachoRoundTrip.ParseOfWrite | src/format/macho.rs:424-549 | consistent parts are read back whole |
| MachoRoundTrip.ParsedShaped | src/format/macho.rs:376-419 | an accepted file has that shape: fields fit, counts and lengths match, padding is the gaps |
| MachoRoundTrip.AcceptedExactly | src/format/macho.rs:376-419 | a byte string is accepted exactly when consistent parts write it |
| MachoProgram.WalkTable | src/format/macho.rs:1113-1155 | the command loop reads the table or reports its first fault |
| MachoProgram.CollectData | src/format/macho.rs:1157-1187 | the segment loop collects data and command indices |
| MachoProgram.ParseFile | src/format/macho.rs:376-419 | the imperative reader computes `Parse` |
| MachoProgram.WriteSegments | src/format/macho.rs:514-527 | the segment loop applies the segment patches |
| MachoProgram.WriteCommands | src/format/macho.rs:532-539 | the command loop applies the command patches behind the header |
| MachoProgram.WriteToVec | src/format/macho.rs:505-549 | the writer fills a zeroed buffer with all blocks in its order |
| MachoProgram.RoundTrip | src/format/macho.rs:376-549 | reading then writing returns the input, for every accepted input |
| Base58.BufferHolds | site/playground/app.js:87-91 | 58^n <= 256^(floor(733n/1000)+1) for every n |
| Base58.BuildIndex | site/playground/app.js:68-76 | the index table holds each character's digit and -1 elsewhere |
| Base58.MultiplyAdd | site/playground/app.js:98-104 | the carry loop multiplies by 58 and adds the digit, and the carry is gone at the end |
| Base58.Strip | site/playground/app.js:107-113 | what is left after the leading zeros is the minimal big-endian form |
| Base58.DecodeString | site/playground/app.js:78-114 | the loops compute leading zero bytes followed by the minimal value, or the first invalid character |
| Base58.DecodeAccepts | site/playground/app.js:78-97 | accepted exactly the nonempty strings over the alphabet |
| Base58.DecodeOfEncode | site/playground/app.js:78-114 | every nonempty byte string is decoded back from its encoding |
| Base58.EncodeOfDecode | site/playground/app.js:78-114 | every valid string is the encoding of what it decodes to |
| Base58.DecodeInjective | site/playground/app.js:78-114 | two strings that decode alike are the same string |
| GuestMemory.StoreThenLoad | src/emulator/emulator/mmu.rs:538-596 | after a successful `store32` the word reads as stored or not at all |
| SchedulerSafety.WakeRemainder | src/emulator/runtime.rs:111-123 | in every prefix exactly min(max(n, 0), waiters) are woken and the rest stay parked |
| SchedulerSafety.WakeAll | src/emulator/runtime.rs:111-123 | waking with a count of at least the threads leaves no one parked |
| SchedulerSafety.ReapOneReaps | src/emulator/runtime.rs:142-164 | a reap hands one matching zombie to the parked thread, with its id in rax and its status stored, or none matches |
| SchedulerSafety.SweepSettles | src/emulator/runtime.rs:168-184 | after one sweep no parked `wait4` matches a zombie |
| SchedulerSafety.ReapWaitersSettles | src/emulator/runtime.rs:168-184 | `reap_waiters` ends in that fixpoint, conserving zombies and serving only matching waiters |
| SchedulerSafety.SweepTwice | src/emulator/runtime.rs:168-184 | the second sweep never reaps |
| SchedulerSafety.ChildIds | src/emulator/runtime.rs:1183-1207 | a forked child, nested forks included, is given exactly consecutive ids |
| SchedulerSafety.ChildConserves | src/emulator/runtime.rs:1141-1225 | inside a forked child every process it forks is a zombie or was handed to a `wait4` that asked for it, exactly as often as it ended |
| SchedulerRuns.FutexKeeps | src/emulator/runtime.rs:1060-1081 | the futex arm keeps the invariant |
| SchedulerRuns.ExitKeeps | src/emulator/runtime.rs:919-940 | the exit arm keeps the invariant |
| SchedulerRuns.ExecveKeeps | src/emulator/runtime.rs:1009-1040 | the execve arm keeps the invariant |
| SchedulerRuns.Wait4Keeps | src/emulator/runtime.rs:1041-1059 | the wait4 arm keeps the invariant, parking included |
| SchedulerRuns.SpawnKeeps | src/emulator/runtime.rs:941-984 | spawning a thread keeps the invariant and the new id is new |
| SchedulerRuns.ForkKeeps | src/emulator/runtime.rs:985-1007 | forking a child process keeps the invariant |
| SchedulerTheorems.StepKeeps | src/emulator/runtime.rs:873-1123 | every step of the loop keeps the invariant |
| SchedulerTheorems.NeverParkedTwice | src/emulator/runtime.rs:882-1059 | in every state of every run no thread is futex-blocked and in `wait4` at once, no parked `wait4` matches a zombie, only tid 1 is a process entry, and what runs is runnable |
| SchedulerTheorems.IdsFresh | src/emulator/runtime.rs:868-871 | ids count up from 2 with `i32` wrap-around; below 2^32 - 1 of them all are distinct and none is 1 |
| SchedulerTheorems.CloneAnswersFresh | src/emulator/runtime.rs:941-963 | what clone, fork and vfork return is an id no thread, ended child or earlier call had |
| SchedulerTheorems.ChildrenConserved | src/emulator/runtime.rs:125-164 | in every state, ended children = zombies + deliveries as multisets with status (code & 0xff) << 8, each delivery matching what its `wait4` asked for |
| SchedulerTheorems.ChildInOnePlace | src/emulator/runtime.rs:985-1006 | each ended child is a zombie or delivered, exactly once |
| SchedulerChildren.ForkRecorded | src/emulator/runtime.rs:985-1006 | a fork adds exactly one ended child, under the id it answers, with its exit code; nothing else adds any |
| SchedulerChildren.EndedIsForkHistory | src/emulator/runtime.rs:985-1006 | over a run, the ended children are exactly the forks, in order |
| SchedulerChildren.DeliveriesSeen | src/emulator/runtime.rs:142-164 | every delivery answers a `wait4` that asked for that child: id in rax, no longer waiting, status words in memory |
| SchedulerTheorems.DriveIsTrace | src/emulator/runtime.rs:873-1123 | driving the loop by events visits exactly the states of the trace |
| SchedulerTheorems.ParkedOnlyByWait | src/emulator/runtime.rs:1060-1078 | a thread comes to be parked on a word only by its own FUTEX_WAIT while the word holds the expected value |
| SchedulerTheorems.ExitReleases | src/emulator/runtime.rs:919-926 | leaving by exit releases everyone parked on the clear-child-tid word, which then reads zero or not at all if the store succeeded |
| SchedulerTheorems.JoinProtocol | src/emulator/runtime.rs:919-926 | after that, while the word stays zero, no one parks on it but by a wait expecting zero |
| SchedulerTheorems.JoinInRuns | src/emulator/runtime.rs:919-1078 | the same from any exit of any run |
| SchedulerExits.ExitEndsRun | src/emulator/runtime.rs:919-940 | exit and exit_group end the run exactly when thread 1 leaves or everyone else has left |
| SchedulerExits.SiblingExitGroup | src/emulator/runtime.rs:919-935 | a run in which a sibling's exit_group leaves thread 1 runnable and the run going |
| SchedulerExits.ExecveLeavesJoiners | src/emulator/runtime.rs:1022-1036 | leaving by execve clears no word and wakes no one |
| SchedulerExits.JoinersReleasedExactly | src/emulator/runtime.rs:911-926 | joiners are released exactly when the thread leaves by the exit system call |
| SchedulerWaits.ParksExactly | src/emulator/runtime.rs:1041-1059 | a `wait4` parks exactly when no zombie matches, WNOHANG is clear, the caller is not thread 1 and thread 1 is still there |
| SchedulerWaits.WaitsOnlyByWait4 | src/emulator/runtime.rs:873-1123 | a thread comes to wait only by its own `wait4` |
| SchedulerWaits.MainNeverWaits | src/emulator/runtime.rs:130-137 | in no state of any run is thread 1 parked in `wait4` |
| SchedulerTheorems.PickExact | src/emulator/runtime.rs:882-899 | the scan picks the nearest runnable thread in cyclic order and fails only when none is runnable |
| SchedulerTheorems.BoundedWaiting | src/emulator/runtime.rs:882-900 | while nothing is spawned, fewer than n choices pass by a thread that stays runnable |
| SchedulerTheorems.RoundRobin | src/emulator/runtime.rs:882-900 | in any stretch of any run, a thread that stays runnable is chosen within n choices |
| SchedulerProgram.RunLoop.WakeFutex | src/emulator/runtime.rs:111-123 | the loop wakes exactly the first n waiters and counts them |
| SchedulerProgram.RunLoop.ReapOne | src/emulator/runtime.rs:142-164 | first match removed, status stored, rax and `waiting` of that thread set, nothing else |
| SchedulerProgram.RunLoop.ReapWaiters | src/emulator/runtime.rs:168-184 | the sweeping loop ends, with no parked `wait4` matching a zombie |
| SchedulerProgram.RunLoop.PickNext | src/emulator/runtime.rs:882-893 | the scanning loop computes `Pick` |
| SchedulerProgram.RunLoop.ServeExit | src/emulator/runtime.rs:919-940 | the exit arm's whole new state |
| SchedulerProgram.RunLoop.ServeClone | src/emulator/runtime.rs:941-1007 | the clone arm's whole new state, child run included |
| SchedulerProgram.RunLoop.ServeExecve | src/emulator/runtime.rs:1009-1040 | the execve arm's whole new state |
| SchedulerProgram.RunLoop.ServeWait4 | src/emulator/runtime.rs:1041-1059 | the wait4 arm's whole new state |
| SchedulerProgram.RunLoop.ServeFutex | src/emulator/runtime.rs:1060-1081 | the futex arm's whole new state |
| SchedulerProgram.RunLoop.RunLinuxAmd64 | src/emulator/runtime.rs:838-1132 | the loop driven by any events reaches the state the functions give |
| SchedulerProgram.RunAmd64Child | src/emulator/runtime.rs:1141-1235 | the child loop with its recursion computes `RunChild` |
| Preload.KeyFrom | src/emulator/runtime.rs:1473-1484 | a hit is the normalised path under some search path, and a miss means none is stored |
| Preload.Shrinks | src/emulator/runtime.rs:1486-1488 | each level of the recursion leaves fewer of the imported names off the load stack, whatever they resolve to |
| PreloadSafety.DepsSound | src/emulator/runtime.rs:1445-1562 | the walk only adds names not loaded and not on the stack, each once, and keeps every import accounted for |
| PreloadSafety.PreloadDone | src/emulator/runtime.rs:1445-1562 | on success: stack restored, each name loaded once, imports loaded, stubbed, absent, failed or on the stack when it was loaded, and none left over at the end |
| PreloadSafety.DepsAfter | src/emulator/runtime.rs:1390-1398 | earlier walks change nothing but the front of the log |
| PreloadReach.TriedExactly | src/emulator/runtime.rs:1445-1562 | a successful walk tries exactly the names reachable through stored imports, whatever loads succeed |
| PreloadReach.SucceedsExactly | src/emulator/runtime.rs:1487-1496 | the walk succeeds exactly when it can reach no stored file that is not a PE |
| PreloadReach.OncePerFileExactly | src/emulator/runtime.rs:1455-1466 | no stored file is loaded twice, and none whose name is in the module table or on the stack is loaded again, whatever loads succeed, exactly when no reachable name shares its file with another reachable name or with one of those |
| PreloadReach.OneFileTwice | src/emulator/runtime.rs:1455-1466 | importing `x.dll` and `c:/windows/x.dll` loads that file twice |
| PreloadReach.LoadedFileAgain | src/emulator/runtime.rs:1464-1466 | with `x.dll` in the table, importing `c:/windows/x.dll` loads its file again |
| PreloadReach.SpellingsAlias | src/emulator/context.rs:158-160 | a name and its folded spelling resolve to one file |
| PreloadProgram.LookUp | src/emulator/runtime.rs:1473-1480 | the search-path loop, normalising each path, computes `Find` |
| PreloadProgram.Loader.LoadOne | src/emulator/runtime.rs:1513-1559 | a load adds the module or records the failure, and leaves the stack |
| PreloadProgram.Loader.PreloadDeps | src/emulator/runtime.rs:1445-1562 | the recursive loop terminates on every import graph and computes `Deps` |
| PreloadProgram.Loader.LoadDeps | src/emulator/runtime.rs:1390-1398 | on a loader in any state: a new stack with the primary on it, the walk's result, and the older log kept in front |
| CallText.QuoteString | src/ast/emit.rs:1163-1183 | the character loop computes `Quoted` |
| CallText.ArgIsUnquotedSafe | src/ast/emit.rs:703-778 | the character loop computes `IsBare`, for any lexer |
| CallText.EmitArgs | src/ast/emit.rs:400-410 | the argument loop appends the separated arguments and the bracket |
| CallText.BareIsClean | src/ast/emit.rs:703-778 | the bare check runs the scanner's machine, so a bare argument has no top-level comma or bracket |
| CallText.OnlyString | src/ast/emit.rs:708-715 | a text that is one string shows no non-string character, so it is never bare |
| CallText.UnescapeOne | src/ast/emit.rs:1166-1179 | the escapes are a prefix code, character by character |
| CallText.UnescapeQuoted | src/ast/emit.rs:1163-1183 | a quoted string reads back |
| CallText.ReadArg | src/ast/emit.rs:404-408 | a printed argument, bare or quoted, reads back |
| CallText.ReadOfEmit | src/ast/emit.rs:400-410 | scanning to the bracket and splitting at top-level commas recovers every list, for any lexer and any following text |
| CallText.EmitInjective | src/ast/emit.rs:400-410 | equal texts come from equal lists, even under two lexers |
| Paths.NormalizePath | src/emulator/context.rs:386-414 | the loops compute `Normalize` |
| Paths.ShortenHive | src/emulator/context.rs:399-412 | the hive loop shortens the first long name that applies |
| Paths.NormalizeIdempotent | src/emulator/context.rs:386-414 | normalising twice is normalising once |
| Paths.NormalizeJoin | src/emulator/context.rs:386-414 | normalising a joined path normalises the directory part and folds the component |
| Directories.Readdir | src/emulator/context.rs:330-364 | whatever order the keys come in: `None` exactly for a stored file, else the listing |
| Directories.ListingUnique | src/emulator/context.rs:344-363 | a listing is determined by the keys, so order does not matter |
| Directories.ReaddirMatchesStat | src/emulator/context.rs:311-364 | for every path but the root's, in any spelling, the nonempty single-component names listed are exactly the folded ones for which `stat_node` of the joined path succeeds, with the same answer |
| Directories.RootMatchesStat | src/emulator/context.rs:336-351 | at the root, exactly those it finds behind some number of slashes |
| Directories.RootFiles | src/emulator/context.rs:353-361 | a root entry is a file exactly when it is stored behind some slashes |
| VirtualFs.OverwrittenAt | src/emulator/context.rs:242-255 | written bytes where written, old bytes elsewhere, zero in the gap |
| VirtualFs.HandlesCollide | src/emulator/context.rs:197-198 | two opens give one handle exactly when 2^32 apart |
| VirtualFs.StepRefines | src/emulator/context.rs:188-295 | each call answers as the byte-function model and stays in step with it |
| VirtualFs.RunRefines | src/emulator/context.rs:188-376 | so does any interleaving of calls over any handles, up to 2^32 opens |
| VirtualFs.FreshRuns | src/emulator/context.rs:144-147 | the same from the empty filesystem |
| VirtualFs.HandleFrame | src/emulator/context.rs:213-295 | a call through a handle touches only that handle and its own file, and honours the access bits |
| VirtualFs.RunKeepsNormal | src/emulator/context.rs:151-211 | after any run every stored key is in normal form |
| VirtualFs.SeekExact | src/emulator/context.rs:276-287 | a relative seek lands on max(0, base + off) exactly when the sum is below 2^63 |
| VirtualFs.ReadBack | src/emulator/context.rs:222-262 | what was written is read back, and a gap reads as zeros |
| VirtualFsProgram.VirtualDisk.Open | src/emulator/context.rs:188-208 | creation, refusal and the new handle, whole state |
| VirtualFsProgram.VirtualDisk.ReadHandle | src/emulator/context.rs:222-236 | bytes returned and position moved, whole state |
| VirtualFsProgram.VirtualDisk.WriteHandle | src/emulator/context.rs:242-255 | resize, copy and position, whole state |
| VirtualFsProgram.VirtualDisk.SeekHandle | src/emulator/context.rs:276-287 | the three origins and the clamp, whole state |
| VirtualFsProgram.VirtualDisk.Truncate | src/emulator/context.rs:368-376 | zero-extending or dropping the tail, whole state |
| VirtualFsProgram.VirtualDisk.Perform | src/emulator/context.rs:151-376 | every call is the step the theorems are about |
| VirtualFsProgram.VirtualDisk.PerformAll | src/emulator/context.rs:151-376 | a list of calls on the object answers and ends as the byte-function model does, up to 2^32 opens |
| FunctionMap.MergeAllMerges | src/analysis/function_map.rs:67-101 | merged single-source records have the sorted sources, the best name, the PLT size or else the first known |
| FunctionMap.OrderIndependent | src/analysis/function_map.rs:67-130 | two orders of the same records agree on name and sources, and on the size when the PLT gives one or nobody disagrees |
| FunctionMap.OrderMatters | src/analysis/function_map.rs:79-83 | otherwise two orders give two sizes |
| FunctionMap.SizeNeverLost | src/analysis/function_map.rs:79-83 | a merged size is zero exactly when both were |
| FunctionMap.AddressesApart | src/analysis/function_map.rs:121-130 | each address holds its own records merged in order, whatever is inserted elsewhere |
| FunctionMap.ContainingExact | src/analysis/function_map.rs:156-164 | with no start inside another range the lookup is range membership, except that the last address finds nothing |
| FunctionMap.ContainingNeedsApart | src/analysis/function_map.rs:156-164 | at a start inside another range the outer function is not found |
| FunctionMap.FillPass | src/analysis/mod.rs:123-159 | afterwards every function in an executable section has a size; addresses and known sizes are unchanged, and so are names of records with a source and sorted sources |
| FunctionMap.ExecSections | src/analysis/mod.rs:128-132 | exactly the ranges of the executable nonempty sections, ends saturated |
| FunctionMap.CollectExecSections | src/analysis/mod.rs:128-132 | the filter computes `ExecSections` |
| FunctionMap.ExecutableSized | src/analysis/mod.rs:123-159 | whatever starts in an executable section has a size after the pass |
| FunctionMap.FilledExactly | src/analysis/mod.rs:140-158 | what filling does to any record: nothing, or size known, sources sorted, name lost exactly without sources |
| FunctionMap.LastAddressUnfilled | src/analysis/mod.rs:128-144 | a function at address 2^64 - 1 is never filled |
| FunctionMap.MergeAscends | src/analysis/function_map.rs:95-100 | merged sources are always sorted |
| FunctionMap.TableSourced | src/analysis/function_map.rs:121-130 | tables built from records with sorted sources hold such records |
| FunctionMap.FilledRange | src/analysis/mod.rs:140-151 | a filled range stays in its section and contains no other start |
| FunctionMap.FillKeepsApart | src/analysis/mod.rs:123-159 | the pass puts no start inside another range |
| FunctionMap.SourcelessNameLost | src/analysis/mod.rs:152-157 | a record without sources loses its name |
| FunctionMap.PushSources | src/analysis/function_map.rs:95-99 | the loop adds each missing source once |
| FunctionMap.FunctionTable.Add | src/analysis/function_map.rs:67-130 | insert, merging where the address is taken |
| FunctionMap.FunctionTable.Containing | src/analysis/function_map.rs:156-164 | the answer comes from the last start at or before the address |
| FunctionMap.FunctionTable.FillInSizes | src/analysis/mod.rs:123-159 | the loop computes the pass |
| Cbor.Parse | src/format/evm.rs:156-209 | an accepted item advances the position and never passes the end |
| Cbor.ParseLocal | src/format/evm.rs:156-209 | the item depends only on the bytes it consumes, wherever they stand |
| Cbor.PrefixFree | src/format/evm.rs:156-209 | no accepted item is a proper prefix of another |
| Cbor.ParsedValid | src/format/evm.rs:156-209 | what is parsed is within the width, depth, count and text limits |
| Cbor.ParseOfEncode | src/format/evm.rs:156-209 | every value within the limits is parsed back from its definite-length encoding |
| Cbor.ParseOfEncodeAnywhere | src/format/evm.rs:156-209 | also inside any surrounding bytes |
| Cbor.ParseCbor | src/format/evm.rs:156-209 | the recursive parser with its moving position computes `Parse` |
| Cbor.ParseItems | src/format/evm.rs:186-191 | the array loop |
| Cbor.ParseEntries | src/format/evm.rs:192-200 | the map loop, key before value |
| EvmMetadata.FindKeyExact | src/format/evm.rs:97-106 | a key is found exactly when some nested map has it |
| EvmMetadata.TrailerExact | src/format/evm.rs:222-249 | a trailer is reported exactly when the code ends with one map or array and a length equal to its size, or size plus two for Vyper |
| EvmMetadata.NoSelfOverlap | src/format/evm.rs:258-264 | the scanned key cannot overlap itself |
| EvmMetadata.CandidateExact | src/format/evm.rs:266-275 | the item read in place is the one its trailer names |
| EvmMetadata.LastKey | src/format/evm.rs:262-263 | the last occurrence of the key before `from` |
| EvmMetadata.FindMetadata | src/format/evm.rs:257-278 | the trailer at the end, else the last candidate before it, else none exists; every span is one item plus its length |

## Left out

- Machines with a `usize` other than 64 bits, running out of memory, and error message texts.
- Mach-O: `LcMain`, `LcSourceVersion` and `LcUuid` bodies, which are one fixed record each; 32-bit, big-endian and fat files, which `parse` rejects; the overflow error of `build_regions`, which no accepted segment reaches.
- Base58.DecodeString: requires a string shorter than 2^31, the range in which the bitwise truncation of the buffer size is exact; engines do not allow longer strings.
- The CPU, the kernel calls the scheduler passes on, `exec_nested`, registers other than rax, the `%fs` base of a new thread, captured output and instruction counts: events carry whatever they do. Running out of budget and the end of a quantum are events too.
- Termination of nested forks: a child run is given as a finite tree of steps, since the same budget is passed down at each level.
- The memory of a forked child, which is a copy the parent never sees.
- The i386 and aarch64 run loops, which have no scheduler.
- Preload: image bases, export registration and DllMain, which is taken to leave the module table alone; whether a load succeeds is an oracle; a file is its import table or not a PE.
- CallText: the `.ud` lexer and parser. The reader here follows the parser's splitting of an argument list, without comments; `lexes` is an arbitrary predicate. Bracket depth is unbounded.
- Paths.NormalizePath: folds ASCII letters only; other characters are taken to be their own lower case, since the Unicode case tables are not part of this model.
- Paths.NormalizeIdempotent: states it for that folding.
- VirtualFs: `list`, `owns`, `tell` and `contains`, which are single lookups.
- Cbor: UTF-8 validity is an arbitrary predicate on bytes; rendering and entry listing are not modelled.
- Discovery of functions from symbols, `.eh_frame`, signatures and call sites: only how their records are merged.
- The rest of the repository: PE and NE loading, instruction sets, Win32 stubs, the command line, the network and the playground's user interface.
