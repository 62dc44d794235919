# crashomon: verified model of the crash-dump path

crashomon's watcher daemon receives crash dumps from Crashpad and takes each one through the
same path: an inotify event names the file, the event loop queues it, the worker thread patches
missing build IDs into it, reads it, logs it unless the same crash was logged a moment ago, and
prunes the database. This project models that path in Dafny and proves what each stage promises.
`dafny verify dfyconfig.toml` checks everything.

The C++ sources compute offsets in `uint32_t`. The model keeps that: `Add32`, `Mul32` and `Pad`
wrap modulo 2^32, sizes wrap modulo 2^64, a read that does not fit yields 0, a write that does not
fit is dropped. An access that C++ leaves undefined (an unchecked index or `memcpy` outside the
buffer) is an explicit `Crash`/`Fault` outcome, and the in-place method demands only that the run
has none. The Python twins use unbounded integers and raise where `struct` raises.

## How the files fit together

- `Bytes`, `LittleEndianWords`: 32-bit little-endian words, stores into a buffer, files as words.
- `MinidumpPatcher`: the patcher, in place on an `array`, proved against `PatchBuffer`.
  `PatcherFrame`: what it can change, for any buffer, records overlapping or not.
  `WellFormedDump`: the loop that rereads what it writes equals the loop over the original;
  completeness, idempotence, preservation of well-formedness.
  `PythonPatcher`: the second implementation and exactly when the two agree.
  `DumpLayout`: the test builder's dumps, for any name and record, through all of the above.
- `StreamDirectory`, `ModuleListLayout`: dumps with any directory and any list of modules, written
  in plain numbers; patching the bytes is patching the list, for both implementations.
- `BuildIdNote`, `TextHash`, `ElfBuildId`: where the IDs come from, in both implementations.
- `Annotations`, `PythonAnnotations`, `AnnotationLayout`: the two annotation readers, the layout
  for any list of annotations, the round trip. `PatchThenRead`: patching does not disturb reading.
  `SampleDump`: a dump on which both happen, and one on which the patcher leaves the buffer.
- `InotifyEvents`: the event decoder and its inverse, the layout of event records.
- `WorkerQueue`: mutex, condition variable and stop flag as a state machine of atomic steps.
- `RateLimiter`, `CrashKey`: the greedy limiter, its optimality, and what a key tells apart.
- `DiskManager` (specification) and `Directories` (the methods): pruning.
- `Worker`: the shared state with its critical sections, the producer, and the processing of one
  dump. `DaemonRun`: whole runs, with files arriving at any time.

The disk lookup of an ELF file is a function parameter `lookup` from path to build ID, with the
empty ID for "none"; `ElfBuildId` says what it computes from a file's bytes and section table.
Module paths are sequences of UTF-16 code units; clocks, listings, removal failures and the result
of reading a dump are inputs.

Comments and code differ in two places; the model follows the code. The comment at
`daemon/watcher.cpp:329` says that final minidumps are enqueued before the stop, but the only
inotify reader has returned by then; `ShutdownDrains` therefore speaks of enqueued paths, not of
files on disk. The comments of the two pruning functions promise both limits, but the size is
counted in 64 bits; `PruneIsLeastExactly` and `TotalCanMislead` say when that matters.

## Model

| member | source | states |
|---|---|---|
| MinidumpPatcher.PatchMissingBuildIds | daemon/minidump_patcher.cpp:256-344 | in place, on any bytes whose run leaves the buffer nowhere: number of patches and all resulting bytes are those of PatchBuffer; a file of less than 32 bytes or without "MDMP" is an error and stays as it is |
| ModuleListLayout.PatchesList | daemon/minidump_patcher.cpp:273-344 | any dump with up to 4096 modules, laid out in numbers behind any other streams: patching it gives, byte for byte, the dump of the patched modules, each unsigned record of at least 20 bytes that fits its ID now reading "BpEL" in little-endian order, the ID, its old tail; a longer list is left alone |
| ModuleListLayout.PyPatchesList | tools/crashomon_tools/patchdmp/__init__.py:246-291 | the same of the tool, without the 20 bytes and with names of any UTF-16 units |
| ModuleListLayout.BuiltTable | daemon/minidump_patcher.cpp:273-294 | both find the first module list wherever it stands in the directory, other lists behind it or not |
| MinidumpPatcher.PatchModules | daemon/minidump_patcher.cpp:298-340 | the loop over module records equals Run, in which every module is read from the buffer as already patched |
| MinidumpPatcher.PatchModule | daemon/minidump_patcher.cpp:299-339 | one iteration writes signature, ID and DataSize exactly when all seven tests pass and otherwise changes no byte |
| MinidumpPatcher.ReadModuleName | daemon/minidump_patcher.cpp:64-83 | the ASCII characters of the UTF-16 name, empty for a missing, odd or overlong one |
| MinidumpPatcher.WritePatch | daemon/minidump_patcher.cpp:334-336 | the three stores in their order, as one function of the old buffer |
| MinidumpPatcher.FindTable | daemon/minidump_patcher.cpp:273-294 | the directory scan and its early exits find ModuleTable |
| PatcherFrame.PatchFrame | daemon/minidump_patcher.cpp:299-344 | any buffer, overlaps allowed: length unchanged, every patch in range, patched modules distinct, a changed byte lies in the first 4+id bytes of a patched record or in a patched DataSize, nothing patched means nothing changed |
| PatcherFrame.RunNeverFaults | daemon/minidump_patcher.cpp:304-336 | no access leaves the buffer if the two guarded 32-bit sums do not wrap for any module as it is when reached |
| PatcherFrame.CrashesExactly | daemon/minidump_patcher.cpp:304-336 | the loop body leaves the buffer if and only if all guards pass and either the name's range wraps past 2^32 - 1 in a file below 4 GiB, or the ID fits DataSize but not the file |
| PatcherFrame.RunFaultsExactly | daemon/minidump_patcher.cpp:298-340 | a run leaves the buffer if and only if some module it reaches does so on the buffer as patched so far |
| SampleDump.RecordCanLeave | daemon/minidump_patcher.cpp:311-335 | a 268-byte dump on which it does: the record at 2^32 - 16 of 32 bytes passes the wrapped test |
| PatcherFrame.ApplyReadsBack | daemon/minidump_patcher.cpp:334-336 | a patch reads back: DataSize always, signature and ID when record and DataSize are apart |
| WellFormedDump.InPlaceRefinesSnapshot | daemon/minidump_patcher.cpp:298-340 | on a well-formed dump the loop rereading its own output never faults and gives the bytes and patches of a loop that decides on the original |
| WellFormedDump.DecisionKept | daemon/minidump_patcher.cpp:304-332 | after any number of patches a later module is judged as on the untouched dump |
| WellFormedDump.QualifyingModulesArePatched | daemon/minidump_patcher.cpp:304-339 | a module with a non-BpEL record of at least 20 bytes, a name and a fitting ID ends with signature, DataSize 4+id and the ID's bytes; any other keeps record and DataSize; the patch count is the number that qualify |
| WellFormedDump.PatchingIsComplete | daemon/minidump_patcher.cpp:298-340 | besides, the rest of a patched record and every byte outside records and DataSize fields stay as they were |
| WellFormedDump.PatchingIsIdempotent | daemon/minidump_patcher.cpp:314-344 | a second run with the same lookup patches no module and changes no byte |
| WellFormedDump.PatchingKeepsWellFormed | daemon/minidump_patcher.cpp:273-344 | the output is well-formed with the same table, names and RVAs, and no larger DataSize |
| PythonPatcher.PatchMinidump | tools/crashomon_tools/patchdmp/__init__.py:246-291 | decisions on the copy taken before the first write, writes into the growing bytearray, struct.error where a store does not fit |
| PythonPatcher.ImplementationsAgree | tools/crashomon_tools/patchdmp/__init__.py:266-291 | on well-formed dumps with ASCII names daemon and tool produce the same bytes if and only if no module with a name, an ID and a non-BpEL record has 4+id <= DataSize < 20 |
| PythonPatcher.DecisionsAgree | tools/crashomon_tools/patchdmp/__init__.py:212-283 | module by module, the two differ on such short records only |
| PythonPatcher.NamesAgree | tools/crashomon_tools/patchdmp/__init__.py:234-240 | the two name decoders agree on ASCII names |
| PythonPatcher.PyNameIs | tools/crashomon_tools/patchdmp/__init__.py:234-240 | the tool's name in numbers: all UTF-16 units of a name that lies in the file, an odd last byte replaced |
| DumpLayout.BuiltIsWellFormed | daemon/test/test_minidump_patcher.cpp:53-103 | the test builder's dump is well-formed for every ASCII path and every record |
| DumpLayout.BuiltIsPatched | daemon/test/test_minidump_patcher.cpp:153-182 | both implementations sign its record, which then holds signature, ID and its old tail |
| DumpLayout.BuiltShortDiffers | tools/crashomon_tools/patchdmp/__init__.py:212-283 | a short record that its ID fits makes the two differ, for every such name, record and ID |
| BuildIdNote.ParseBuildIdNote | daemon/minidump_patcher.cpp:88-109 | in range and terminating on arbitrary bytes; equals the parse with 32-bit padding |
| BuildIdNote.PyParseBuildIdNote | tools/crashomon_tools/patchdmp/__init__.py:131-145 | working at absolute file positions equals parsing the section by itself |
| BuildIdNote.ParseInvertsLayout | daemon/minidump_patcher.cpp:88-109 | for any list of notes in the gABI layout both parsers return the desc of the first type-3 note with a non-empty desc, else nothing |
| BuildIdNote.ParsersAgree | tools/crashomon_tools/patchdmp/__init__.py:135-145 | on arbitrary bytes the two agree if no note they meet has a size within 3 of 2^32 |
| BuildIdNote.ParsersAgreeExactly | tools/crashomon_tools/patchdmp/__init__.py:135-145 | in sections of at most 4 GiB they agree if and only if that holds or the walk with wrapped sizes comes to no type-3 note with a non-empty desc in range |
| BuildIdNote.ParsersCanDiffer | daemon/minidump_patcher.cpp:98-104 | a 13-byte section in which the daemon finds an ID and the tool none |
| TextHash.XorTextHash | daemon/minidump_patcher.cpp:239-246 | byte k is the XOR of all mapped bytes i with i mod 16 = k below min(size,4096) rounded up to 16 |
| TextHash.PyXorTextHash | tools/crashomon_tools/patchdmp/__init__.py:148-170 | slicing first and padding then gives the same lanes |
| TextHash.HashIsParity | daemon/minidump_patcher.cpp:239-246 | each bit of hash byte k is the parity of that bit over the positions i with i mod 16 = k below min(size,4096) rounded up to 16 |
| TextHash.LanePastEnd | tools/crashomon_tools/patchdmp/__init__.py:155-165 | positions past the end of the file do not matter, so zero fill is the same as leaving them out |
| ElfBuildId.ComputeElfBuildId | daemon/minidump_patcher.cpp:205-249 | the section loop with its sentinel offset 0 equals Scan |
| ElfBuildId.PyComputeElfBuildId | tools/crashomon_tools/patchdmp/__init__.py:74-99 | the same for the twin, which remembers the first .text |
| ElfBuildId.ElfIdsAgree | tools/crashomon_tools/patchdmp/__init__.py:77-99 | a note's ID always wins; the two find the same ID if and only if a note has one, or there is no .text, or the first .text has a non-zero offset and is empty or lies in the file, or it has offset 0 and what the daemon takes instead gives the same |
| ElfBuildId.ElfIdsCanDiffer | daemon/minidump_patcher.cpp:226-236 | a one-byte file whose .text is at offset 0: the tool finds a hash, the daemon no ID |
| ElfBuildId.NoteGivesId | daemon/minidump_patcher.cpp:213-223 | of any notes laid out in the first note section named .note.gnu.build-id, both return the first ID |
| ElfBuildId.TextGivesId | daemon/minidump_patcher.cpp:224-248 | without one both hash the first section named .text, if it lies in the file past its start, and find no ID if there is none |
| Annotations.ExtractCrashpadAnnotations | daemon/tombstone/minidump_reader.cpp:199-283 | total on arbitrary bytes: each field is the value bound last to its key among the entries read |
| PythonAnnotations.ReadMinidumpAnnotations | tools/crashomon_tools/analyze/symbolizer.py:253-305 | the dictionary of all bindings in order, empty on any struct.error |
| PythonAnnotations.ReadersAgree | tools/crashomon_tools/analyze/symbolizer.py:268-303 | if no sum that the daemon computes wraps, its fields are dict.get(key, "") on the same bytes when a dictionary, if any, lies in the file as recorded, and stay empty when it does not |
| PythonAnnotations.ReadersAgreeExactly | tools/crashomon_tools/analyze/symbolizer.py:290-303 | the two fields therefore agree if and only if it lies in the file or the entries at its place give neither key a non-empty last value |
| AnnotationLayout.RoundTrip | daemon/tombstone/test/test_minidump_reader.cpp:290-372 | any list of annotations laid out in numbers below 4 GiB, behind any other streams, is read back completely and in order by both readers, the fields holding the values bound last to "abort_message" and "terminate_type" |
| AnnotationLayout.DeclaredSize | daemon/tombstone/minidump_reader.cpp:260-267 | for any recorded dictionary size: below 4 neither reads anything; otherwise Python reads all entries, and the daemon all or none, depending on whether the 32-bit end of the recorded dictionary lies in the file |
| AnnotationLayout.FieldsAgreeExactly | daemon/tombstone/minidump_reader.cpp:260-267 | the same in terms of the annotations laid out and the size recorded for them |
| AnnotationLayout.FieldsCanDiffer | daemon/tombstone/minidump_reader.cpp:265-267 | an abort message whose dictionary is recorded as 1000 bytes long: found by Python, not by the daemon |
| PatchThenRead.PatchKeepsAnnotations | daemon/worker.cpp:86-93 | any dump, with or without stream, dictionary and strings: if the reader looks at no byte that a patch wrote, patching leaves both annotations as they were |
| PatchThenRead.PatchThenReadWellFormed | daemon/worker.cpp:86-93 | on well-formed dumps it is enough that what the reader looks at lies apart from records and DataSize fields |
| SampleDump.PatchedAndRead | daemon/worker.cpp:86-93 | a dump with a module and an annotation that meets this: its record is signed, its annotations are read as before |
| SampleDump.PatchedWithoutAnnotations | daemon/test/test_minidump_patcher.cpp:53-103 | every dump of the patcher's test builder meets it too, without a CrashpadInfo stream |
| PatchThenRead.ReaderFrame | daemon/tombstone/minidump_reader.cpp:199-283 | what is read depends on nothing but header, directory entries up to the stream's, CrashpadInfo, dictionary and strings, each only if the reader gets there |
| InotifyEvents.DecodeInvertsLayout | daemon/watcher.cpp:58-91 | of records laid end to end exactly the moved-to ones whose name ends in .dmp contribute dir/name, in order, and the offset loop ends at the buffer's end |
| Worker.WorkerState.EnqueueInotifyEvents | daemon/watcher.cpp:58-91 | appends exactly the decoded paths to the queue |
| Worker.WorkerState.Push | daemon/watcher.cpp:85-88 | the locked push is the protocol's Push step on the shared fields |
| Worker.WorkerState.SetStop | daemon/watcher.cpp:331-334 | the locked store is the protocol's SetStop step |
| Worker.WorkerState.TakeNext | daemon/worker.cpp:133-137 | once the wait is over, return or pop the oldest path, as the protocol's Leave step |
| WorkerQueue.ThreadsRunIndependently | daemon/worker.cpp:131-141 | processing runs unlocked: the event loop can push or stop while the worker processes, waits or is about to lock, and the worker can lock while the event loop polls, notifies or joins |
| WorkerQueue.QueueConservation | daemon/worker.cpp:128-141 | every interleaving, spurious wake-ups included: enqueued = processed, in flight, pending, in this order; an exited worker has processed everything enqueued |
| WorkerQueue.NoLostWakeup | daemon/watcher.cpp:85-89 | a worker blocked although there is work or stop is always about to be notified, and the notification wakes it |
| WorkerQueue.MutualExclusion | daemon/worker.cpp:131-138 | never two lock holders; the worker leaves the wait only with work or stop, so it never pops an empty queue |
| WorkerQueue.NeverStuck | daemon/worker.cpp:128-141 | an unfinished program can step, and with work or stop it can without luck or new input |
| WorkerQueue.EnqueuedIsProcessed | daemon/worker.cpp:128-141 | at any time, stop or not, under every schedule: without new pushes, a stop or spurious wake-ups the program rests after a bounded number of steps, each of those adds a fixed number, and at rest every path ever enqueued is processed |
| WorkerQueue.ShutdownDrains | daemon/watcher.cpp:331-338 | after stop every schedule ends within a bound given by queue length and program counters, with everything enqueued processed and the worker joined |
| RateLimiter.RateLimiterIsOptimal | daemon/worker.cpp:108-118 | per key: logged crashes pairwise 30 s apart in nanoseconds, each crash less than 30 s after a logged one, and no 30 s-separated subsequence longer than the log |
| RateLimiter.LogPerKey | daemon/worker.cpp:109-118 | keys do not interfere through the shared map |
| RateLimiter.LogRateIsBounded | daemon/worker.cpp:22-23 | the log entries of a key within an interval of length T number at most T/30 s + 1 |
| Worker.WorkerState.Admit | daemon/worker.cpp:109-118 | log decision and new map are those of the rate limiter's specification |
| CrashKey.KeyIsInjective | daemon/worker.cpp:102-106 | keys are equal if and only if process name, signal text and address are, even with ':' in names |
| CrashKey.KeyText | daemon/worker.cpp:102-106 | the key in plain text: name, signal text with the names and codes written out, hexadecimal address |
| CrashKey.DigitsHaveValue | daemon/worker.cpp:104-105 | the numerals read back as the number, lower-case, without leading zeros |
| CrashKey.SignalInfoDistinguishes | daemon/tombstone/minidump_reader.cpp:58-81 | the signal text tells all signals apart and, of the codes, the two named SIGSEGV ones |
| CrashKey.SignalInfoHasNoColon | daemon/tombstone/minidump_reader.cpp:58-81 | no signal text contains the separator |
| CrashKey.FaultAddrFits | daemon/worker.cpp:102-105 | every 64-bit address fits the 16-character buffer |
| DiskManager.PruneIsLeastExactly | daemon/disk_manager.cpp:143-175 | a pass removes exactly the shortest oldest-first prefix whose remaining files meet both limits, or the part of it before the first removal that fails, if and only if no remainder before that file breaks the size limit while its sum modulo 2^64 does not |
| DiskManager.PruneIsLeast | daemon/disk_manager.cpp:143-175 | in particular for all files of less than 2^64 bytes together |
| DiskManager.NotMisled | daemon/disk_manager.cpp:156-162 | sums below 2^64, or no size limit, never mislead the counter |
| DiskManager.TotalCanMislead | daemon/disk_manager.cpp:156-162 | three files of 2^64 bytes together are kept under a limit of one byte |
| DiskManager.CutIsShortest | daemon/disk_manager.cpp:140-142 | a suffix meets both limits if and only if it starts at or after the cut |
| DiskManager.TighterRemovesMore | daemon/disk_manager.cpp:162-167 | tightening a limit or letting time pass only enlarges the removed prefix |
| DiskManager.CounterIsExact | daemon/disk_manager.cpp:124-138 | at every iteration the counter is the size of the files not removed, modulo 2^64; when the sizes add up to less it is that size and the subtraction never underflows |
| DiskManager.ReachedIsLoop | daemon/disk_manager.cpp:161-172 | the iterations are the loop's own: from each on, counter and rest of the listing give the rest of the pass |
| DiskManager.PruneTwice | daemon/disk_manager.cpp:156-174 | after a successful pass a second one at the same time removes nothing, whatever the sizes add up to and however the rest is listed |
| Directories.Directory.List | daemon/disk_manager.cpp:43-81 | a permutation of the files sorted oldest first, or the error |
| Directories.Directory.Remove | daemon/disk_manager.cpp:124-138 | removes that file alone and its sidecar if possible; a failure changes nothing; a counter that is right for the directory stays right |
| Directories.Directory.Prune | daemon/disk_manager.cpp:143-175 | the directory loses exactly the files and sidecars of the pass; no effect without limits or listing |
| Directories.GetTotalMinidumpSize | daemon/disk_manager.cpp:223-237 | the sum of the sizes modulo 2^64, 0 when the directory cannot be listed |
| Directories.PruneMinidumps | daemon/disk_manager.cpp:239-254 | a missing pending/ is no error, any other error there leaves the export directory alone, whose own error is reported |
| Worker.WorkerState.ProcessNewMinidump | daemon/worker.cpp:83-124 | patch, read, rate limit, and a prune on the unreadable, suppressed and logged paths alike; as a whole the Process step of DaemonRun |
| DaemonRun.DiskIsBounded | daemon/worker.cpp:93-123 | every run, with prunes that fail to list or to remove: from the first successful one on, at most max_bytes plus what arrived after the last successful one's listing |
| DaemonRun.LogOfRun | daemon/worker.cpp:108-118 | the log of a run is the limiter's choice among the readable dumps; unreadable ones and prunes leave no trace |
| DaemonRun.RunLogIsOptimal | daemon/worker.cpp:108-118 | the limiter's guarantees hold of the log of every run with a steady clock |

## Left out

- Sockets, descriptor passing, poll, inotify set-up, systemd, signals, Crashpad and Breakpad: foreign calls; they appear as steps or inputs.
- File reading, writing and mapping: buffers, listings and removal failures are inputs; the rewrite of a patched file is the new buffer.
- ELF and section headers: the section table is given, with names resolved; malformed headers, where the two implementations differ, are not modelled, nor are section ends beyond 2^64.
- XorTextHash: the mapping is zero-filled past the end of the file; the last page boundary, which an unaligned `.text` at the very end could cross, is not modelled.
- Build IDs of 2^32 - 4 bytes or more: excluded by the type of the lookup.
- PatchMissingBuildIds: a run that would leave the buffer is excluded by the precondition, because C++ leaves it undefined; RunFaultsExactly says which runs those are. Failures to open, read or write the file are not modelled.
- PatchMinidump: overrides and sysroot, which only the tool has, are not modelled.
- ImplementationsAgree: assumes ASCII names and neither overrides nor sysroot, which the daemon does not have.
- ParsersAgreeExactly: sections of more than 4 GiB have only the one direction of ParsersAgree.
- ElfIdsAgree: assumes that no note met has a size within 3 of 2^32; ParsersAgreeExactly says what such a size does.
- ReadersAgree: assumes that no sum which the daemon computes wraps; it compares bytes.
- ReadMinidumpAnnotations: keys and values stay bytes; Python's decoding of them is not modelled.
- DiskIsBounded: assumes that no listing misleads the 64-bit counter; NotMisled says when that is so.
- List: a file whose `stat` fails is skipped by the source; here every file of a Directory can be examined.
- Directory.Prune: one method stands for PrunePendingDir and PruneExportDir, which differ in the sidecars only; entries of other extensions are not part of a Directory, and files that arrive during a pass are added in DaemonRun.
- RunWorker: its loop is the state machine WorkerQueue; the critical sections are methods of WorkerState.
- Push: the method is what happens between lock and unlock; the lock itself is a step of WorkerQueue.
- SetStop: the same; locking and notifying are steps of WorkerQueue.
- EnqueueInotifyEvents: the notification after each push is a step of WorkerQueue.
- ProcessNewMinidump: the copy of a logged dump to the export directory is not modelled, nor is the text of the log.
- ExportMinidump, FormatTombstone, FormatProbableCause, register extraction, ParseSize, ParseAge: settled by reading single branches.
- DoInit in lib/crashomon.cpp: a bounded retry loop, easier than the members above.
- Symbol store pruning in web/symbol_store.py: an easier form of the pruning above.
- Flask routes, authentication, SQLite, CLI parsing, build and shell scripts: plumbing.
