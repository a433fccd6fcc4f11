# gfal2: a verified model of its protocols, copies, maps and parsers

gfal2 is a multi-protocol file access and copy library. Most of it forwards calls to plugins.
This project models the parts that carry real state and proves what they guarantee.

| file | what it models |
|---|---|
| `Cancellation.dfy` | the cancellation protocol, as interleaved steps of any number of threads |
| `GridFtpFile.dfy` | a GridFTP descriptor, as a refinement of a plain file with a cursor |
| `RecursiveMkdir.dfy` | recursive mkdir, with a string trimmed in place and a tree that others change |
| `BulkCopy.dfy` | GridFTP bulk copy over its parallel arrays |
| `HttpCopy.dfy` | HTTP copy with its pull, push, stream fallback, cleanup and checksums |
| `CredentialMap.dfy` | the ordered credential list as a map with longest-prefix search |
| `TokenLookup.dfy` | the bearer-token scan and store built on the credential list |
| `MlstParser.dfy` | the in-place MLST line parser |
| `ClientInfo.dfy` | the client-info array, its printed string and the percent encoder |
| `LocalChecksum.dfy` | chunked Adler-32 of a local file |
| `TransferParams.dfy` | the checksum parameters of a transfer |
| `LocalCopy.dfy` | the streamed copy through the local host |
| `TapePolling.dfy` | Tape REST API polling |
| `Checksums.dfy` | comparison of checksum strings |
| `CStrings.dfy`, `Wrappers.dfy` | C strings, splitting and optional values, shared by the others |

Code that changes state in place is a class or a method on arrays, proved equal to a function of
the old state; the laws are then proved about those functions, over whole runs where the source
has runs. Remote services are environments: parameters that say what each request answers. A
claim that reads "for every environment" therefore covers every outcome of every request.

`dafny verify dfyconfig.toml` checks the whole project.

## Where the code departs from its evident intent

The model follows the code. Each of these is a lemma or a clause, with the exact condition.

- A cancel call's wait drains as long as nobody clears the flag (`WaitDrains`). The flag protects the
  wait exactly when the call is the only one, or an entangled thread, one that called cancel inside
  a scope of its own, keeps all of them waiting (`FlagProtectedExactly`); otherwise a second
  canceller past the unlocked test clears it (`SecondCancellerUnprotected` is such a run from the
  start). Some continuation ends the wait exactly when no thread is entangled
  (`WaitCanEndExactly`).
- A failed or late stream callback that says eof makes later reads report end of file too early, and
  nothing else does (`FalseEndOfFileExactly`). A failure on the main request lasts: after a read that
  carried bytes and failed, reads go by partial GET until the cursor has caught up with the stream,
  and then fail again in the middle of the file (`ReadAfterFailedRead`, `FailuresLast`,
  `CaughtUpReadFails`). The callbacks of a partial GET share one buffer, which is right for every file
  content exactly when one callback carries all bytes (`SharedBufferExactly`).
- Recursive mkdir works on a copy of the URL cut at 2047 characters. Success then means that the
  target exists exactly when only slashes were lost or the target has at most one level
  (`TruncationHarmlessExactly`, `LongUrlMissesTarget`).
- `errn` and `file_errors` of bulk copy disagree exactly when a request fails with code 0
  (`AgreementExactly`). Converted Globus errors never have that code, since the conversion falls back
  to ECOMM. It can come from setting the credentials of a session
  (src/plugins/gridftp/gridftpwrapper.cpp:325-371): a failed import whose status maps to no Globus
  error is converted to 0, and a certificate that cannot be opened carries whatever errno holds.
- Strict HTTP copy does not look at the destination, and its cleanup removes a file that was there
  before (`StrictCopyRemovesDestination`). It keeps the file in every world whose attempts touch
  nothing exactly when cleanup is off or only a disabled stream is left
  (`StrictCopyKeepsDestinationExactly`). The destination checksum is compared with nothing exactly
  when neither the source nor the user gives a value (`TargetUncheckedExactly`).
- Copying a credential list onto itself empties it (`CredentialMap.Store.CopyFrom`). The header
  `gfal_cred_mapping.h` speaks of a default empty prefix; with one stored, the lookup reads `url[-1]`.
- The host fallback of the token lookup ignores read-only access, exactly as
  `ReadOnlyTokenForWriteExactly` says; `HostFallbackLeaksReadOnlyToken` gets there by a store and a
  set.
- Bytes from 0x80 on are all encoded as `%FF`, so the round trip holds exactly for bytes below
  0x80 and for 0xFF (`EncodingRoundTripExactly`).
- The seek of the local checksum goes through an `int`, so it works exactly when the low 32 bits of
  the offset are below 2^31 (`LocalChecksum.Compute`).
- The local copy ignores short writes: after a success its destination equals the source exactly
  when no write that was reached stored less than was read (`StoredIsSourceExactly`,
  `ShortWriteGoesUnnoticed`). It opens without truncation, so after a strict copy
  with full writes the destination equals the source exactly when the old file was at most as long
  (`LocalCopy.Destination.PerformLocalCopy`).
- Archive polling reports EAGAIN both for a pending file and for a failed one whose locality is
  UNAVAILABLE (`EagainMeansPendingExactly`).

## Model

| member | source | states |
|---|---|---|
| Cancellation.StepKeepsInv | src/core/common/gfal_cancel.c:34-123 | every step of every thread keeps the invariant: counter equals open scopes, each scope is open once or has ended, one lock holder, and what each cancel call has observed stays true |
| Cancellation.RunningOpsCountsOpenScopes | src/core/common/gfal_cancel.c:60-79 | in every interleaving of any number of threads with nested scopes, running_ops is the number of open scopes, and no scope is counted twice |
| Cancellation.LeavingTheWaitMeansNoScope | src/core/common/gfal_cancel.c:46-48 | when a cancel call leaves its wait, no scope is open |
| Cancellation.CancelDrains | src/core/common/gfal_cancel.c:41-50 | when a cancel call returns, as many distinct scopes as it returns, and all scopes open when the flag went up, have ended |
| Cancellation.CancelInvokesEveryHook | src/core/common/gfal_cancel.c:41-45 | at the unlock every registered hook was invoked once, in order |
| Cancellation.HooksFrozenUnderLock | src/core/common/gfal_cancel.c:96-123 | no step changes the hook list between a cancel call's lock and unlock |
| Cancellation.HookRemoved | src/core/common/gfal_cancel.c:114-123 | removing a hook takes it out and leaves the others in order |
| Cancellation.WeightStep | src/core/common/gfal_cancel.c:62-79 | twice the threads between test and increment plus the open scopes drops by one on enter and leave, grows by two exactly on a flag test that sees the flag down, and is otherwise unchanged |
| Cancellation.WaitDrains | src/core/common/gfal_cancel.c:46-79 | while the flag stays up, with any number of cancellers, at most that many enter and leave steps happen in any run, and then the next poll of every waiting canceller ends its wait |
| Cancellation.SoleCancellerDrains | src/core/common/gfal_cancel.c:46-79 | a sole canceller stays the only one and the flag stays up until its own clear, so its wait drains |
| Cancellation.WaitIsNeverStuck | src/core/common/gfal_cancel.c:46-79 | while a sole canceller outside any scope waits, some other thread can enter or leave |
| Cancellation.ReturnRun | src/core/common/gfal_cancel.c:34-79 | from every state of the invariant without an entangled thread, a finite run of the call's own steps and of enters and leaves brings any cancel call that can proceed to its return |
| Cancellation.WaitCanEndExactly | src/core/common/gfal_cancel.c:46-79 | some continuation ends a wait if and only if no thread inside gfal2_cancel holds a scope of its own |
| Cancellation.FlagProtectedExactly | src/core/common/gfal_cancel.c:38-50 | no continuation without the call's own clear takes the flag down if and only if it is the sole canceller, or an entangled thread blocks all and none has drained |
| Cancellation.DeadlockLasts | src/core/common/gfal_cancel.c:34-51 | an entangled thread stays so in every run, every waiting canceller keeps waiting, and nobody new drains |
| Cancellation.CancelInsideOwnScopeNeverReturns | src/core/common/gfal_cancel.c:34-51 | a waiting canceller with an open scope of its own stays in its wait in every run |
| Cancellation.SecondCancellerUnprotected | src/core/common/gfal_cancel.c:38-49 | a reachable state where one canceller waits with the flag down and a thread is admitted |
| GridFtpFile.FileDesc.constructor | src/plugins/gridftp/gridftp_io.cpp:167-217 | a fresh descriptor has cursor 0 and a fresh stream exactly when the flags ask for reading or writing |
| GridFtpFile.FileDesc.ReadStream | src/plugins/gridftp/gridftpwrapper.cpp:825-918 | the new stream state, the buffer and the result for every callback, refusal, timeout and eof |
| GridFtpFile.FileDesc.InternalPread | src/plugins/gridftp/gridftp_io.cpp:114-137 | the buffer after all callbacks of a partial GET and the byte count, or failure when any part fails |
| GridFtpFile.FileDesc.Read | src/plugins/gridftp/gridftp_io.cpp:220-243 | the new descriptor, buffer and result are those of the read step that the refinement is proved of |
| GridFtpFile.FileDesc.Seek | src/plugins/gridftp/gridftp_io.cpp:290-345 | the new descriptor and result are those of the seek step that the refinement is proved of |
| GridFtpFile.ReadRefines | src/plugins/gridftp/gridftp_io.cpp:220-243 | every read, by stream or partial GET and whatever earlier callbacks, failed and late ones included, have delivered, either fails without moving or delivers the file's bytes at the cursor and moves by as many |
| GridFtpFile.ReadFailsExactly | src/plugins/gridftp/gridftp_io.cpp:220-243 | from the history alone: a read goes to the main request if and only if no seek has left it and the cursor is at the bytes delivered there, and fails there if and only if it or any earlier read was refused, timed out or was told of an error, unless eof was said; a partial GET fails if and only if some part of it does |
| GridFtpFile.ErrorSticks | src/plugins/gridftp/gridftpwrapper.cpp:763-798 | after any read that timed out or was told of an error, a read on the main request fails or reports end of file, and the request stays broken |
| GridFtpFile.StreamFollows | src/plugins/gridftp/gridftpwrapper.cpp:825-875 | whatever event arrives, the stream offset is the number of bytes delivered over all callbacks, its eof the last one's, and its error is set once any read timed out or failed |
| GridFtpFile.ReadTracks | src/plugins/gridftp/gridftp_io.cpp:220-243 | every read, also a failed or timed-out one, keeps the descriptor in step with what Globus has delivered |
| GridFtpFile.ReadAfterFailedRead | src/plugins/gridftp/gridftp_io.cpp:220-243 | the read after a failed one that carried bytes goes by partial GET and fails if and only if that does |
| GridFtpFile.FailedReadBreaks | src/plugins/gridftp/gridftpwrapper.cpp:780-798 | a failed read that was not refused outright leaves the main request broken |
| GridFtpFile.FailuresLast | src/plugins/gridftp/gridftpwrapper.cpp:763-798 | after every further run of reads and seeks, a read that goes to a broken main request fails or reports end of file |
| GridFtpFile.CaughtUpReadFails | src/plugins/gridftp/gridftp_io.cpp:69-72 | a run of three reads in which a late byte, a partial GET and a catch-up make a read fail in the middle of the file |
| GridFtpFile.SeekRefines | src/plugins/gridftp/gridftp_io.cpp:290-345 | every seek is a plain seek; one that moves leaves the main request for good, or fails and leaves it aborted |
| GridFtpFile.RunRefinesPlainFile | src/plugins/gridftp/gridftp_io.cpp:69-345 | every run of reads and seeks on an opened descriptor is a run of a plain cursor file, and ends with the stream state that the callbacks of the run give |
| GridFtpFile.FalseEndOfFileExactly | src/plugins/gridftp/gridftpwrapper.cpp:826-918 | a read before the end returns 0 if and only if it goes to the main request and the last callback there said eof, which needs an earlier failure |
| GridFtpFile.FalseEndOfFileHappens | src/plugins/gridftp/gridftpwrapper.cpp:826-905 | a concrete run in which a failed read with eof makes the next read of a non-empty file return 0 |
| GridFtpFile.ZeroMeansEnd | src/plugins/gridftp/gridftpwrapper.cpp:826-918 | in every run whose callbacks say eof only at the end, a 0 into a non-empty buffer means end of file |
| GridFtpFile.OneCarrierIsExact | src/plugins/gridftp/gridftpwrapper.cpp:845-875 | when one callback carries all bytes the shared buffer holds exactly what was sent |
| GridFtpFile.TwoCarriersCorrupt | src/plugins/gridftp/gridftpwrapper.cpp:845-875 | for every length pattern with two carrying callbacks, contents whose first byte comes back wrong |
| GridFtpFile.SharedBufferExactly | src/plugins/gridftp/gridftpwrapper.cpp:845-875 | for given callback lengths the shared buffer is right for all contents if and only if at most one is positive |
| RecursiveMkdir.Strlcpy | src/core/file/gfal2_standard_file_operations.c:154-155 | the buffer holds the URL, or its first 2047 characters |
| RecursiveMkdir.TrimSlashes | src/core/file/gfal2_standard_file_operations.c:160-164 | exactly the trailing slashes are cut off in place |
| RecursiveMkdir.Climb | src/core/file/gfal2_standard_file_operations.c:160-171 | trimming in place gives a strictly shorter string that denotes exactly the parent, or leaves at most one level |
| RecursiveMkdir.CutDenotesParent | src/core/file/gfal2_standard_file_operations.c:161-171 | cutting at the last inner slash denotes the parent, whatever slashes are repeated or trail |
| RecursiveMkdir.TopDenotesOne | src/core/file/gfal2_standard_file_operations.c:164-168 | when no inner slash is left the string denotes at most one level |
| RecursiveMkdir.ClimbOnce | src/core/file/gfal2_standard_file_operations.c:156-177 | one round makes the parent; ENOENT leaves a shorter string for the parent, success means that the parent exists |
| RecursiveMkdir.Plugin.Mkdir | src/core/common/gfal_plugin.c:573-591 | mkdir on a tree that others extend: what is created, and what OK, EEXIST and ENOENT say about target and parent |
| RecursiveMkdir.Plugin.MkdirAll | src/core/common/gfal_plugin.c:573-591 | the recursive flag: EEXIST becomes success, only levels of the path are created, and ENOENT means that target and parent are missing |
| RecursiveMkdir.ClimbToExisting | src/core/file/gfal2_standard_file_operations.c:153-184 | the climb ends, its stack is a chain of parents up to the target, on success the parent of its top exists, it climbs no higher than it must, and stops at the first fault |
| RecursiveMkdir.MakeLevel | src/core/file/gfal2_standard_file_operations.c:189-199 | one level below an existing directory exists after success, EEXIST included |
| RecursiveMkdir.Descend | src/core/file/gfal2_standard_file_operations.c:186-202 | the descent creates only levels of the target; success means that the target exists; without faults it succeeds |
| RecursiveMkdir.MkdirRec | src/core/file/gfal2_standard_file_operations.c:134-211 | only the target and its ancestors are created, success means that the target exists, and the call succeeds unless a request meets a fault, at which it stops and reports it, whatever others create meanwhile |
| RecursiveMkdir.TruncationHarmlessExactly | src/core/file/gfal2_standard_file_operations.c:154-155 | the truncated URL denotes the target if and only if only slashes were lost |
| RecursiveMkdir.LongUrlMissesTarget | src/core/file/gfal2_standard_file_operations.c:134-211 | on an empty tree every call reports success, and the target exists if and only if the URL fits the buffer or has at most one level |
| BulkCopy.BulkData.constructor | src/plugins/gridftp/gridftp_bulk.cpp:36-50 | all pairs start without error, size 0, the user's checksum and not started |
| BulkCopy.BulkData.CheckSources | src/plugins/gridftp/gridftp_bulk.cpp:393-457 | every pair gets its source phase, and the result is the number of set file errors |
| BulkCopy.BulkData.PrepareDestinations | src/plugins/gridftp/gridftp_bulk.cpp:460-509 | every pair gets its destination phase with the parents created before it; every new file error is counted, and nothing else when the arrays agreed |
| BulkCopy.BulkData.CloseAll | src/plugins/gridftp/gridftp_bulk.cpp:528-601 | every pair gets its close phase; every new file error is counted, and nothing else when the arrays agreed |
| BulkCopy.BulkData.SkipFailed | src/plugins/gridftp/gridftp_bulk.cpp:265-270 | index moves to the first pair not marked failed, passing over no viable one |
| BulkCopy.BulkData.NextPair | src/plugins/gridftp/gridftp_bulk.cpp:115-145 | the callback hands out the next viable pair and marks exactly it started, or hands out nothing when none is left |
| BulkCopy.BulkData.Pipeline | src/plugins/gridftp/gridftp_bulk.cpp:252-336 | however often Globus asks, initial pair and answers are the viable indices and then nothing, and exactly those handed out are started |
| BulkCopy.AnswersAreTheViable | src/plugins/gridftp/gridftp_bulk.cpp:115-145 | the answers are increasing, each index once, all and only those not marked failed, then none for ever |
| BulkCopy.ViableSpec | src/plugins/gridftp/gridftp_bulk.cpp:265-272 | viable indices are strictly increasing and unfailed |
| BulkCopy.ViableIsComplete | src/plugins/gridftp/gridftp_bulk.cpp:265-272 | every unfailed index is among them |
| BulkCopy.PhasesKeepAgreement | src/plugins/gridftp/gridftp_bulk.cpp:403-456 | every phase keeps errn non-zero exactly when the file error is set, and later phases leave a failed pair alone |
| BulkCopy.AgreementExactly | src/plugins/gridftp/gridftp_bulk.cpp:403-456 | the agreement survives each phase if and only if no deciding request fails with code 0 |
| BulkCopy.SurvivesExactly | src/plugins/gridftp/gridftp_bulk.cpp:393-601 | for every environment, a pair ends without an error if and only if sizes and the checksums asked for match, no phase is canceled, the deletion works and the parent is known or can be created |
| BulkCopy.ErrorIsFirstFailure | src/plugins/gridftp/gridftp_bulk.cpp:393-601 | with non-zero codes, every pair ends with the first failure in the order in which the nine tests of the phases come |
| BulkCopy.FinalIsFirstFailure | src/plugins/gridftp/gridftp_bulk.cpp:604-663 | the same for the whole call, over the phases that were reached |
| BulkCopy.SurvivorHasParent | src/plugins/gridftp/gridftp_bulk.cpp:477-494 | a pair that passes the destination phase has its parent among the created ones |
| BulkCopy.CreatedExactly | src/plugins/gridftp/gridftp_bulk.cpp:464-494 | a parent is known before a pair if and only if an earlier pair could make it |
| BulkCopy.ParentNameSpec | src/plugins/gridftp/gridftp_bulk.cpp:477-480 | the parent is what precedes the last slash |
| BulkCopy.ParentsCreatedOnce | src/plugins/gridftp/gridftp_bulk.cpp:486-494 | no parent is created twice |
| BulkCopy.Prepare | src/plugins/gridftp/gridftp_bulk.cpp:512-525 | both preparation phases together, each failed pair counted once |
| BulkCopy.TransferAll | src/plugins/gridftp/gridftp_bulk.cpp:632-651 | the result over cancellation, empty work and the second attempt without UDT; no failed pair is started |
| BulkCopy.ClearExactly | src/plugins/gridftp/gridftp_bulk.cpp:604-663 | the call comes out clean if and only if every pair passes and the transfer worked, at once or without UDT |
| BulkCopy.Finish | src/plugins/gridftp/gridftp_bulk.cpp:655-657 | the close phase of all prepared pairs, with its count and the agreement of the arrays |
| BulkCopy.Copy | src/plugins/gridftp/gridftp_bulk.cpp:604-663 | for every environment: 0 if and only if every pair passes and the transfer worked; the final state of every pair; no failed pair is started; a failed transfer counts all pairs; with non-zero codes the arrays agree and the negated result is the number of set file errors |
| Checksums.CompareChecksums | src/utils/checksums/checksums.c:36-42 | the comparison of two C strings gives 0 if and only if they agree up to case behind their leading zeros, over at most n characters |
| Checksums.SkipZeros | src/utils/checksums/checksums.c:25-31 | the pointer loop stops behind the leading zeros |
| Checksums.NoZerosSpec | src/utils/checksums/checksums.c:25-31 | exactly the leading zeros are dropped |
| Checksums.StrncasecmpIsZero | src/utils/checksums/checksums.c:41-41 | character-wise comparison up to a terminator or n gives 0 if and only if the cut strings are equal in lower case |
| HttpCopy.HttpCopyMode.Advance | src/plugins/http/gfal_http_copy.cpp:72-80 | the successor of the mode; the streaming flags never change |
| HttpCopy.HttpCopyMode.constructor | src/plugins/http/gfal_http_plugin_copy.h:68-74 | the fields as given |
| HttpCopy.ConstructCopyMode | src/plugins/http/gfal_http_copy.cpp:133-177 | mode and rewritten configuration for every combination of scheme, per-storage, query and global options |
| HttpCopy.ConstructedByName | src/plugins/http/gfal_http_copy.cpp:133-234 | by option name: a stream only without an HTTP source or with remote copies off, else the first mode set in the order query, storage, global, pull; when streaming and fallback hold; what a query mode switches off |
| HttpCopy.ConstructedIsSound | src/plugins/http/gfal_http_copy.cpp:133-177 | the stream case that would leave ret untouched is unreachable |
| HttpCopy.CopyLoop | src/plugins/http/gfal_http_copy.cpp:854-896 | the loop with its carried-over result computes the recursive loop that the laws are about |
| HttpCopy.TriesAreContiguous | src/plugins/http/gfal_http_copy.cpp:854-896 | tries form a contiguous run of pull, push, stream, at most three; the result is 0 if and only if a last try ran and succeeded |
| HttpCopy.TriesGoByName | src/plugins/http/gfal_http_copy.cpp:72-247 | by mode name: push follows pull and an enabled stream follows push; a try is the last if and only if it succeeded, fallback is off, its code is one of four, or no mode is left |
| HttpCopy.QueryModeTriesOnce | src/plugins/http/gfal_http_copy.cpp:146-155 | a mode from the query gives exactly one try unless a per-storage fallback option is set |
| HttpCopy.AttemptsStartClean | src/plugins/http/gfal_http_copy.cpp:402-422 | with cleanup and working unlink every later try finds no destination unless the one before failed with EEXIST |
| HttpCopy.DestinationAfterLoop | src/plugins/http/gfal_http_copy.cpp:879-893 | what is at the destination after the loop: what the last try left, or nothing after an effective unlink |
| HttpCopy.LoopIsOrderly | src/plugins/http/gfal_http_copy.cpp:854-896 | all of these together for every loop |
| HttpCopy.IdleLoop | src/plugins/http/gfal_http_copy.cpp:879-893 | when tries fail without touching the destination, only a removal after some try changes it |
| HttpCopy.IdleLoopKeepsDestinationExactly | src/plugins/http/gfal_http_copy.cpp:879-893 | a loop keeps the destination in every world whose attempts touch nothing if and only if cleanup is off, there is no file, or only a disabled stream is left |
| HttpCopy.StrictCopyKeepsDestinationExactly | src/plugins/http/gfal_http_copy.cpp:833-893 | the same for a strict call and an existing file, over its options and cleanup flag alone |
| HttpCopy.StrictCopyRemovesDestination | src/plugins/http/gfal_http_copy.cpp:833-889 | for all options that make an attempt, a strict call that is denied without touching the destination removes it |
| HttpCopy.Destination.Overwrite | src/plugins/http/gfal_http_copy.cpp:270-304 | an existing destination is removed only under replace, and every failure leaves it |
| HttpCopy.Destination.TryModes | src/plugins/http/gfal_http_copy.cpp:845-896 | the loop on the real destination, orderly for every environment |
| HttpCopy.Destination.Prepare | src/plugins/http/gfal_http_copy.cpp:783-841 | the loop is reached if and only if nothing in the preparation fails, and what is then, or otherwise, at the destination |
| HttpCopy.Destination.CheckSource | src/plugins/http/gfal_http_copy.cpp:796-828 | passes if and only if not asked for, not supported, or obtained and equal to the user's value if there is one |
| HttpCopy.Destination.CheckTarget | src/plugins/http/gfal_http_copy.cpp:936-973 | passes if and only if not asked for, or obtained and equal to the source's value, else to the user's if there is one |
| HttpCopy.Destination.Copy | src/plugins/http/gfal_http_copy.cpp:761-992 | 0 if and only if preparation, loop and checksums pass, with the comparisons made; tries in order by name, none ended early, each starting clean; without strict mode an existing destination is untouched unless replace is set |
| HttpCopy.TargetUncheckedExactly | src/plugins/http/gfal_http_copy.cpp:936-973 | every destination checksum passes if and only if neither source nor user gives a value |
| CredentialMap.Store.Set | src/core/common/gfal_cred_mapping.c:87-110 | the list stays ordered and its map is updated at the key |
| CredentialMap.Store.InsertSorted | src/core/common/gfal_cred_mapping.c:108-108 | the search loop inserts where the order says |
| CredentialMap.Store.Del | src/core/common/gfal_cred_mapping.c:149-164 | the key leaves the map; 0 if and only if it was there |
| CredentialMap.Store.Clean | src/core/common/gfal_cred_mapping.c:166-171 | the list is empty |
| CredentialMap.Store.CopyFrom | src/core/common/gfal_cred_mapping.c:174-181 | the same list, or the empty one when a context is copied onto itself |
| CredentialMap.Store.Get | src/core/common/gfal_cred_mapping.c:113-146 | prefix and value of the longest stored prefix of the type that matches at a directory boundary, or else the configured value |
| CredentialMap.RunsRefineMaps | src/core/common/gfal_cred_mapping.c:87-181 | after every run of set, del, clean and copy on two contexts the lists are strictly ordered with unique keys and stand for the maps of the same run |
| CredentialMap.ModelPut | src/core/common/gfal_cred_mapping.c:87-110 | replace and ordered insert is map update |
| CredentialMap.ModelDrop | src/core/common/gfal_cred_mapping.c:149-164 | removal is map removal |
| CredentialMap.CopyIsIdentity | src/core/common/gfal_cred_mapping.c:42-47 | setting all nodes one by one into an empty list gives the same list |
| CredentialMap.SortedIsCanonical | src/core/common/gfal_cred_mapping.c:29-39 | two ordered lists with the same nodes are equal |
| CredentialMap.BeforeTransitive | src/core/common/gfal_cred_mapping.c:29-39 | node_compare is transitive |
| CredentialMap.BeforeTotal | src/core/common/gfal_cred_mapping.c:29-39 | node_compare separates all different keys |
| CredentialMap.PrefixIsLess | src/core/common/gfal_cred_mapping.c:29-39 | a proper prefix sorts after its extensions |
| CredentialMap.LessByFirstDifference | src/core/common/gfal_cred_mapping.c:34-34 | the order is that of the first differing character, a proper prefix coming first |
| CredentialMap.MatchesExactly | src/core/common/gfal_cred_mapping.c:118-124 | a prefix matches if and only if it is the URL, is followed by a slash, or ends with one |
| CredentialMap.MatchesGetShorter | src/core/common/gfal_cred_mapping.c:115-124 | along the list, prefixes that match one URL never get longer |
| CredentialMap.ScanIsLongestPrefix | src/core/common/gfal_cred_mapping.c:113-131 | the front-to-back scan equals a brute-force maximum over the map, and finds nothing if and only if nothing matches |
| CredentialMap.LongestIsUnique | src/core/common/gfal_cred_mapping.c:113-131 | that maximum is one prefix |
| CredentialMap.LookupAfterRun | src/core/common/gfal_cred_mapping.c:87-181 | after every run of set, del, clean and copy on two fresh contexts with non-empty prefixes, the scan equals the brute-force maximum over the map of the same run |
| TokenLookup.TokenCache.FindSeToken | src/plugins/http/gfal_http_plugin.cpp:223-289 | by operation name: a token that fits if and only if there is one, else the credential of the host |
| TokenLookup.TokenCache.StoreSeToken | src/plugins/http/gfal_http_plugin.cpp:337-349 | the token enters the credential list under the URI and the access map with its access |
| TokenLookup.TokenCache.PrepareMkdir | src/plugins/http/gfal_http_plugin_metadata.cpp:81-98 | after it a MKCOL lookup finds a token if and only if one was found before or one was issued, and an issued one is stored with write access for the reserved name |
| TokenLookup.ContainmentAgrees | src/plugins/http/gfal_http_plugin.cpp:258-269 | the containment test equals the credential map's for all non-empty prefixes |
| TokenLookup.FirstUsableSpec | src/plugins/http/gfal_http_plugin.cpp:274-281 | the scan finds the first usable token, and nothing if and only if there is none |
| TokenLookup.FindsExactly | src/plugins/http/gfal_http_plugin.cpp:179-281 | reading operations find every containing token whatever its access, writing ones none recorded without write access, and heads and directory creations also tokens below the URI |
| TokenLookup.ScanPicksLongestAllowed | src/plugins/http/gfal_http_plugin.cpp:223-281 | for other than extended searches the scan picks the longest containing prefix among the tokens allowed for the operation |
| TokenLookup.StoredTokenIsFound | src/plugins/http/gfal_http_plugin.cpp:179-349 | after a store for a URI, the operation it was stored for, every reading one, and after a writing one every operation finds a token there |
| TokenLookup.ReservedIsContained | src/plugins/http/gfal_http_plugin_metadata.cpp:86-93 | the directory contains its reserved name, with or without a trailing slash |
| TokenLookup.MkcolFindsReservedToken | src/plugins/http/gfal_http_plugin_metadata.cpp:83-98 | after a token is stored for the reserved name, a MKCOL lookup of the directory finds one with sufficient access |
| TokenLookup.ReadOnlyTokenForWriteExactly | src/plugins/http/gfal_http_plugin.cpp:274-288 | a write gets a read-only token if and only if no stored token is usable and the host credential is read-only |
| TokenLookup.HostFallbackLeaksReadOnlyToken | src/plugins/http/gfal_http_plugin.cpp:283-288 | a store for a read and a set for the host after which a write gets the read-only token |
| MlstParser.CopyName | src/plugins/gridftp/gridftp_parsing.cpp:155-162 | the name buffer holds the name without trailing white space |
| MlstParser.TrimRightSpec | src/plugins/gridftp/gridftp_parsing.cpp:155-162 | exactly the trailing white space is cut off |
| MlstParser.LowerInPlace | src/plugins/gridftp/gridftp_parsing.cpp:198-200 | exactly the fact name is lower-cased |
| MlstParser.CutFact | src/plugins/gridftp/gridftp_parsing.cpp:165-200 | the buffer after cutting one fact, with or without its semicolon; fails only when there is no equals sign |
| MlstParser.CutStands | src/plugins/gridftp/gridftp_parsing.cpp:165-200 | after the cut, name and value stand as C strings and all else is unchanged |
| MlstParser.ParseFact | src/plugins/gridftp/gridftp_parsing.cpp:164-239 | one round advances strictly, never past the space, leaves the rest untouched and keeps all earlier pointers valid |
| MlstParser.ReadIsEntries | src/plugins/gridftp/gridftp_parsing.cpp:202-236 | the kept pointers read as the last value of each known fact |
| MlstParser.ParseFactList | src/plugins/gridftp/gridftp_parsing.cpp:164-239 | succeeds if and only if every fact has an equals sign, with the last value of each known name |
| MlstParser.ParseByPieces | src/plugins/gridftp/gridftp_parsing.cpp:164-239 | for every text, parsing fails if and only if some piece between semicolons has no equals sign, and otherwise gives the fact of each piece in order |
| MlstParser.LastValueSpec | src/plugins/gridftp/gridftp_parsing.cpp:202-236 | the last fact of a name counts |
| MlstParser.ParseMlstLine | src/plugins/gridftp/gridftp_parsing.cpp:123-239 | the whole line: error cases both ways, facts, and the name after the first space |
| MlstParser.FactsRoundTrip | src/plugins/gridftp/gridftp_parsing.cpp:164-239 | parsing every printed well-formed fact list, with or without the last semicolon, gives its facts back |
| MlstParser.LineRoundTrip | src/plugins/gridftp/gridftp_parsing.cpp:141-239 | the same for a whole line and any name |
| ClientInfo.Context.GetValue | src/core/common/gfal_config.c:418-431 | the value in the map, or -1 if and only if the key is absent |
| ClientInfo.Context.Remove | src/core/common/gfal_config.c:371-384 | swap-removal is map removal; 0 if and only if the key was there |
| ClientInfo.Context.Add | src/core/common/gfal_config.c:358-368 | add is map update and keeps keys unique |
| ClientInfo.Context.Clear | src/core/common/gfal_config.c:387-393 | the array is empty |
| ClientInfo.Context.ToString | src/core/common/gfal_config.c:456-477 | the printed string of the pairs in order, nothing when there are none |
| ClientInfo.EncodeInto | src/core/common/gfal_config.c:442-449 | one byte's encoding and terminator at the output pointer, nothing else |
| ClientInfo.UrlEncode | src/core/common/gfal_config.c:434-453 | the encoding, terminated, inside a buffer of 3n+1 bytes |
| ClientInfo.RemovedRefines | src/core/common/gfal_config.c:371-384 | swap-removal keeps unique keys and removes one key of the map |
| ClientInfo.RemovedMoves | src/core/common/gfal_config.c:371-384 | the last pair takes the place of the removed one and all others stay |
| ClientInfo.AddedRefines | src/core/common/gfal_config.c:358-368 | replace and append keeps unique keys and updates the map |
| ClientInfo.RunsRefineMap | src/core/common/gfal_config.c:358-393 | every run of add, remove and clear refines the run on a map |
| ClientInfo.DecodeEncode | src/core/common/gfal_config.c:434-453 | decoding by section 2.1 of RFC 3986 gives every byte below 0x80 back and 0xFF for all others |
| ClientInfo.EncodingRoundTripExactly | src/core/common/gfal_config.c:434-453 | the round trip holds if and only if all bytes are below 0x80 or 0xFF |
| ClientInfo.EncodeBound | src/core/common/gfal_config.c:436-437 | at most three bytes per byte, all unreserved or percent signs |
| ClientInfo.EncodedText | src/core/common/gfal_config.c:442-449 | the characters that each byte is written as |
| ClientInfo.InfoReadsBack | src/core/common/gfal_config.c:456-477 | splitting and decoding the printed string gives the pairs in order, up to the bytes the encoder loses |
| ClientInfo.InfoRoundTripExactly | src/core/common/gfal_config.c:456-477 | it gives exactly the stored pairs if and only if all text is faithful |
| LocalChecksum.UpdateIsSums | src/plugins/file/gfal_file_plugin_main.c:402-414 | running reduction modulo 65521 equals the unreduced sums |
| LocalChecksum.UpdateIsAdler32 | src/plugins/file/gfal_file_plugin_main.c:402-422 | the accumulated value is the checksum of sections 2.2 and 8.2 of RFC 1950 |
| LocalChecksum.UpdateConcat | src/plugins/file/gfal_file_plugin_main.c:409-414 | how bytes are split over updates does not matter |
| LocalChecksum.OpenFile.Seek | src/plugins/file/gfal_file_plugin_main.c:305-312 | the cursor moves and the result is the offset squeezed through an int |
| LocalChecksum.OpenFile.Read | src/plugins/file/gfal_file_plugin_main.c:281-289 | short reads: bytes at the cursor, 0 only at the end or for an empty request |
| LocalChecksum.Digest | src/plugins/file/gfal_file_plugin_main.c:483-512 | for every algorithm that does not mind splits, the loop ends and digests exactly the requested range clipped to the file |
| LocalChecksum.AdlerSplits | src/plugins/file/gfal_file_plugin_main.c:409-414 | Adler-32 is such an algorithm |
| LocalChecksum.HexRoundTrip | src/plugins/file/gfal_file_plugin_main.c:416-422 | hexadecimal printing with enough digits reads back as the number |
| LocalChecksum.Compute | src/plugins/file/gfal_file_plugin_main.c:476-527 | the printed text is the Adler-32 of the range in eight hexadecimal digits, cut to the buffer, and reads back as it when the buffer takes nine characters; with working reads there is a result if and only if the low 32 bits of the offset are below 2^31 |
| TransferParams.Params.constructor | src/core/transfer/gfal_transfer_params.c:29-48 | fresh parameters |
| TransferParams.Params.CopyOf | src/core/transfer/gfal_transfer_params.c:66-82 | the same field values |
| TransferParams.Params.SetChecksum | src/core/transfer/gfal_transfer_params.c:508-527 | refuses a one-sided mode without a value and then changes nothing; otherwise sets mode and value and keeps an absent type |
| TransferParams.Params.SetChecksumCheck | src/core/transfer/gfal_transfer_params.c:476-483 | on: both sides with the stored value; off: no mode, no value, same type |
| TransferParams.Params.SetUserDefinedChecksum | src/core/transfer/gfal_transfer_params.c:492-496 | always succeeds with both sides |
| TransferParams.OneSidedModeHasValue | src/core/transfer/gfal_transfer_params.c:476-527 | across every run of setters and copies over any number of records, a one-sided mode has a non-empty value |
| LocalCopy.Destination.Open | src/core/transfer/gfal_transfer_localcopy.c:196-208 | creates a missing file, truncates nothing |
| LocalCopy.Destination.Write | src/core/transfer/gfal_transfer_localcopy.c:228-228 | overwrites at the offset |
| LocalCopy.Destination.UnlinkIfExists | src/core/transfer/gfal_transfer_localcopy.c:89-128 | clears the way if and only if stat works and a regular file may be and is unlinked; special files stay |
| LocalCopy.Destination.StreamedCopy | src/core/transfer/gfal_transfer_localcopy.c:154-267 | success if and only if opens, all reached rounds and closes go well; the destination is overwritten by exactly what the reached rounds store, also on failure |
| LocalCopy.StoredIsSourceExactly | src/core/transfer/gfal_transfer_localcopy.c:225-232 | a transfer that reached the end has stored the source if and only if no reached write fell short |
| LocalCopy.CompletesExactly | src/core/transfer/gfal_transfer_localcopy.c:225-257 | a transfer completes if and only if rounds without an error or a stop lead to the end of the source and the last read goes well |
| LocalCopy.TransferredIsSourceExactly | src/core/transfer/gfal_transfer_localcopy.c:206-232 | a missing destination then equals the source if and only if no write fell short; an existing one keeps its tail, and equals the source if and only if it was at most as long |
| LocalCopy.CheckSource | src/core/transfer/gfal_transfer_localcopy.c:297-317 | passes if and only if not asked for, or obtained and equal to the user's value when both are non-empty |
| LocalCopy.CheckTarget | src/core/transfer/gfal_transfer_localcopy.c:342-364 | passes if and only if not asked for, or obtained and equal to the user's value, else the source's |
| LocalCopy.TargetIsAlwaysCompared | src/core/transfer/gfal_transfer_localcopy.c:342-364 | with the target bit some destination checksum is always refused |
| LocalCopy.Destination.PerformLocalCopy | src/core/transfer/gfal_transfer_localcopy.c:270-369 | 0 if and only if preparation, transfer and the comparisons pass, stated over the values compared; the new destination in every case; after success it equals the source if and only if no reached write fell short; an existing file is untouched without replace |
| LocalCopy.ShortWriteGoesUnnoticed | src/core/transfer/gfal_transfer_localcopy.c:228-228 | a copy of two bytes that reports success and stores one |
| TapePolling.CollapseSlashes | src/utils/uri/gfal2_parsing.c:74-101 | the stack in the buffer collapses each run of slashes |
| TapePolling.CollapseTwice | src/utils/uri/gfal2_parsing.c:74-101 | collapsing is idempotent and keeps the first character |
| TapePolling.CollapseIsSingle | src/utils/uri/gfal2_parsing.c:74-101 | no double slash is left, and a path without one stays |
| TapePolling.CollapseMerges | src/utils/uri/gfal2_parsing.c:74-101 | a double slash anywhere counts as one |
| TapePolling.FindSpec | src/plugins/http/gfal_http_plugin_tape.cpp:115-137 | the first item that names the path, or nothing if and only if none does |
| TapePolling.FindIgnoresOrder | src/plugins/http/gfal_http_plugin_tape.cpp:115-137 | reordering a response with distinct collapsed paths finds the same item |
| TapePolling.StageClassByName | src/plugins/http/gfal_http_plugin_tape.cpp:618-691 | by the fields of the item: online, pending with EAGAIN, or failed with ENOMSG, ECANCELED or ENOENT, each if and only if |
| TapePolling.CountersGiveVerdict | src/plugins/http/gfal_http_plugin_tape.cpp:696-712 | the counters' result 1, -1, 2 or 0 is determined by the classes of the files |
| TapePolling.StagePoll | src/plugins/http/gfal_http_plugin_tape.cpp:614-712 | over the fields of each named item: the error of every file, and 1, 0, -1 or 2 if and only if all are online, some is pending, all failed, or some are online and the rest failed |
| TapePolling.PollIgnoresOrder | src/plugins/http/gfal_http_plugin_tape.cpp:614-712 | reordering such a response changes neither errors nor result |
| TapePolling.UnknownIsNeverReported | src/plugins/http/gfal_http_plugin_tape.cpp:194-253 | no error if and only if on disk or on tape, so UNKNOWN is never reported |
| TapePolling.LocalityByName | src/plugins/http/gfal_http_plugin_tape.cpp:194-253 | where a file is, its error and its status, by the locality text |
| TapePolling.ArchivePoll | src/plugins/http/gfal_http_plugin_tape.cpp:802-845 | over the locality text of each named item: the error of every file, and the result as in stage polling |
| TapePolling.ArchivePollIgnoresOrder | src/plugins/http/gfal_http_plugin_tape.cpp:802-845 | reordering a response with distinct collapsed paths changes neither errors nor result |
| TapePolling.EagainMeansPendingExactly | src/plugins/http/gfal_http_plugin_tape.cpp:806-824 | EAGAIN means pending in stage polling; in archive polling it marks a failed file if and only if its locality is UNAVAILABLE |

## Left out

- GridFtpFile.ReadRefines: a partial-GET callback that does not say eof is taken to have filled the buffer, as the source's comment relies on, a negative offset is refused by the server, and a request that was aborted gives no successful callback; SharedBufferExactly says what happens otherwise.
- BulkCopy.Copy: the exact count is stated for non-zero error codes; with code 0 it is a lower bound, since such a pair can be counted again by a later phase.
- CredentialMap.Store.Get: stored prefixes are non-empty, because the source reads before the URL for an empty one.
- CredentialMap.Store.Set: no credential is passed only for a prefix that is not stored, because the comparator dereferences it otherwise.
- TokenLookup.TokenCache.FindSeToken: prefixes and URI are non-empty, for the same reason.
- MlstParser.ParseMlstLine: the file name fits its buffer; otherwise the source writes its terminator beyond it. The values of the facts are modelled; the entry type, numbers, dates and mode bits made from them are not.
- LocalChecksum.Compute: the length is below 2^63, since it is stored in a signed type; CRC-32 and MD5 are covered only as algorithms that Digest accepts.
- TapePolling.StagePoll: a field that is present with the JSON value null, from which the source builds a string out of a null pointer, is not modelled.
- HttpCopy.Destination.Copy: scheme test and query parsing enter as their results; a query names pull, push or nothing; eviction after a successful copy is not modelled.
- Globus, Davix, zlib, GLib and json-c are environments with stated promises; their internals are not modelled.
- Memory ordering of the non-atomic cancel flag, overflow of the 32-bit counter, and Globus callbacks that arrive after the second timed wait.
- The GridFTP write path, the session cache and the passive-mode plugin.
- In recursive mkdir, names that exist as files instead of directories, and directories that others delete.
- Exceptions other than transfer exceptions in the preparation of bulk copy, which escape the call there.
- Token, QoS and tape requests over HTTP, transfer events, performance counters and logging.
- Plugin loading, configuration files and credential discovery, which are I/O.
- The POSIX layer and plugin dispatch, whose facts are one branch each.
- Lifetime and aliasing of C strings: values stand for pointers.
