# A verified model of the branchDAM agent

The branchDAM agent copies media from camera cards to an archive and a local edit disk, registers
the files with a server and carries unfinished work across restarts. This project models, in
Dafny, the parts of it whose job is never to lose, overwrite or mis-register a file, and proves
what they promise on every input, every run and every interleaving. Nothing here executes the
agent. `dafny verify dfyconfig.toml` checks the whole project.

| file | models |
|---|---|
| `KeyProtocol.dfy`, `KeyRotation.dfy`, `KeyRuns.dfy`, `KeyClient.dfy` | adoption of a rotated API key: the critical sections, any interleaving of requests and crashes, exactly which servers and runs keep the promises, and the client object one request at a time |
| `FastHash.dfy` | the sampled fingerprint, read at random and in one forward pass |
| `Destination.dfy` | choosing a destination name within a hashing budget |
| `Storage.dfy`, `ArchiveCopy.dfy` | a file system that fails, lies and stops; the archive copy |
| `Queue.dfy`, `Drain.dfy` | queue.db and the three phases of a drain pass |
| `OfflineIngest.dfy` | offline ingest of a card, its claims on names and its resume |
| `Registration.dfy` | online (dual-write) ingest and what counts as registered |
| `Uploads.dfy`, `UploadRace.dfy`, `UploadSweep.dfy`, `Sidecars.dfy` | a drained upload against a card re-insert; which other file the re-insert can move; sidecars after their masters |
| `YamlTree.dfy`, `ConfigPatch.dfy` | the edit of a YAML tree, on values and on heap nodes, and the rewrite of the file |
| `Stripping.dfy`, `FilenameStem.dfy` | stripping name markers to a normal form |
| `Wrappers.dfy` | Option and Result |

How faults are modelled. Every operation on `Storage.Disk` may fail, may be the last thing the
process does (before or after its effect), and every read-back may observe other bytes than the
file's. The history set `lies` records such an observation, as the path and the hash falsely
observed there; what the code can then still promise is stated about every other path and hash.
The history counters `faults` (disk, directory, upload queue, engine), `mishaps` (queue.db) and
`persistFailures` (key store) count what failed, was stopped or lied without a reason in the
data. A call that leaves them as they were must have done what it is for: "if nothing fails" below
means exactly that. What one read of the card delivers is an input of the call, and so are the
server's replies, the state of a copy and the answers of a comparison or a search misled by a fault.
Clock readings and failures are arbitrary. Protocols with several parties are state machines whose
runs are arbitrary sequences of steps; sequential code is methods with loops, and methods such as
`AnyRun` execute any number of operations in any order, so that their postconditions speak about
every history. BLAKE3 and xxHash64 are uninterpreted functions: only the bytes fed to them matter.

Properties that turned out false of the code as first stated:

* The stored key is not accepted by every server that revokes a key only when a newer one is used:
  if the server may also withdraw a key it has offered, a restart can leave the client with nothing
  but a withdrawn key (`KeyRuns.CrashStrandsClient`), and a request thought lost can even revoke the
  key just written back (`KeyRuns.LateRequestRevokesStoredKey`), both with one request at a time.
  `KeyRuns.StoredKeyAcceptedIff`: the promise holds if and only if the server withdraws no key.
* Store and memory can then also disagree for good, with no request in flight and nothing left to
  repair it: a write-back outside the lock can overtake a later rotation
  (`KeyRuns.WriteBackCanOvertakeRotation`). `KeyRuns.StoreAgreesIff`: they agree if and only if
  the server withdraws no key or requests do not overlap.
* A drain pass does not send every pending creation: one whose archive copy has failed is left out
  until a reset. `Queue.CreationListedIff` is exact.
* The destination search does not always return the least free suffix: a budget too small for the
  first full comparison but large enough for a small one skips the free unsuffixed name.
  `Destination.LeastFreeIff` says exactly for which budgets the promise holds.
* A card re-insert can move a file other than the one the drain uploads, when its sweep gets to
  another name that holds the very same bytes. `UploadSweep.OthersUntouchedIff` says exactly when
  none is moved, in terms of the files, the names in order and the hash budget.
* The drain does not always name a sidecar as an undeferred pass would: not when the master's server
  path ends in a "." element. `Sidecars.DrainedNameIff` is exact.
* Appending a marker does not always leave a filename's stem: not after a name that ends in a
  space, and " copy" alone is a name. `FilenameStem.StemIgnoresMarkersIff` is exact.
* Equal sampled fingerprints do not mean equal files beyond three sample sizes
  (`FastHash.LongFilesCollide`); up to there they do (`SampledStreamInjective`), and the border is
  exact (`WindowsCoverIff`).

## Model

| member | source | states |
|---|---|---|
| `KeyRotation.EveryRunIsSafe` | internal/branchdam/keyrotation.go:147-278 | after any interleaving of requests, uploads, handshakes, persists and crashes, against any server: every key ever sent was the start-up key or persisted before; an open adoption's new key is the in-memory key and not refused; a thread about to switch still finds the key it started from |
| `KeyRotation.RefusedIdNeverReadopted` | internal/branchdam/keyrotation.go:155-191 | once a rotated key id was refused, no later state of the process has it adopted, or is persisting or switching to it |
| `KeyRotation.StoredKeyIsAlwaysAccepted` | internal/branchdam/keyrotation.go:147-278 | for every interleaving and crash, against a server that revokes a key only when a newer one is used, the stored key and the in-memory key are both still accepted |
| `KeyRotation.StaleRequestIsRetried` | internal/branchdam/client.go:268-299 | in the same runs, a replayable request refused because its key was revoked meanwhile is sent once more, with an accepted key |
| `KeyRotation.StepKeepsInv` | internal/branchdam/keyrotation.go:155-262 | every single step of every party keeps the invariant from which the safety of all runs follows |
| `KeyRotation.StepKeepsFaithful` | internal/branchdam/keyrotation.go:155-262 | every step keeps: memory never behind the server's floor, the store never behind memory, and every thread's key accepted or due for a retry |
| `KeyRuns.StoredKeyAcceptedIff` | internal/branchdam/keyrotation.go:147-278 | for every set of keys the server may withdraw, whether requests overlap or not: in every reachable state the stored key is one the server cannot refuse (not revoked, not withdrawable above its floor), if and only if no key above the start-up key may be withdrawn |
| `KeyRuns.CrashStrandsClient` | internal/branchdam/keyrotation.go:240-262 | for every withdrawable key, a run with one request at a time after which a restarted client holds that key alone |
| `KeyRuns.LateRequestRevokesStoredKey` | internal/branchdam/keyrotation.go:166-206 | for every withdrawable key, a run with one request at a time that ends with a revoked key in the store |
| `KeyRuns.StoreAgreesIff` | internal/branchdam/keyrotation.go:157-204 | in every reachable state without a request in flight store and memory agree (same key, or the stored one refused and the other due to be written back or refused too), if and only if the server withdraws no key or requests do not overlap |
| `KeyRuns.WriteBackCanOvertakeRotation` | internal/branchdam/keyrotation.go:193-204 | for every withdrawable key, a run with overlapping requests that ends with store and memory different, no request in flight and nothing pending |
| `KeyRuns.StepKeepsSerial` | internal/branchdam/keyrotation.go:147-278 | any step that leaves at most one request in flight keeps agreement, whatever the server answers and wherever the request is |
| `KeyClient.Client.constructor` | internal/branchdam/client.go:108-127 | a new client holds the stored key and nothing pending |
| `KeyClient.Client.ObserveLocked` | internal/branchdam/keyrotation.go:152-192 | the first critical section computes exactly the protocol's observation: confirm, fall back, write back or retry |
| `KeyClient.Client.ObserveAuth` | internal/branchdam/keyrotation.go:147-206 | for any key used: fields, store and retry are exactly the protocol's, with a failed write-back armed again; for a request made with the in-memory key, agreement is kept and a retry is asked for only after a 401, with the key now in memory and due to be written back |
| `KeyClient.Client.Do` | internal/branchdam/client.go:268-299 | two requests are sent exactly when the first reply asks for another key, else one; success is that of the last reply, made with the in-memory key, with its offer; an open adoption is settled by the first reply: accepted, it is closed with the new key in memory and store; refused, its id is barred and the previous key is back; agreement is kept |
| `KeyClient.Client.Upload` | internal/branchdam/upload.go:108-260 | exactly one request is sent, and its reply settles an open adoption in the same way; agreement is kept |
| `KeyClient.Client.AdoptRotation` | internal/branchdam/keyrotation.go:213-278 | adopts whenever it can: an offer that opens to another key, under an id not refused, with the handshake's key still in memory and no adoption open, is persisted, switched to and answered for by a confirming request, unless the key store failed; in every other case nothing changes |
| `KeyClient.Client.Handshake` | internal/branchdam/handshake.go:27-39 | an offer of another key that opens is adopted, unless its id was refused or the key store failed; after an adoption the offered key is in memory and store, or its id is refused; agreement is kept |
| `KeyClient.Client.AnyRun` | internal/branchdam/keyrotation.go:157-204 | between any two of any number of requests and restarts, with any answers and persist failures: stored and in-memory key are equal, or the stored key was refused and the in-memory one is due to be written back or was refused too |
| `FastHash.Regions` | internal/hashing/hashing.go:119-139 | the three windows lie within the file, none is longer than the sample size, the first starts the file and the last ends it |
| `FastHash.WindowsPlaced` | internal/hashing/hashing.go:119-139 | from one sample up, every window is a sample long and the middle one leaves the same on both sides, or one byte more before it (even size, odd sample) or after it (odd size, even sample); a shorter file is read whole three times |
| `FastHash.BigEndianDigit` | internal/hashing/hashing.go:94-95 | each of the size bytes is that digit of the size in base 256, the most significant first |
| `FastHash.FastHashWithSampleSize` | internal/hashing/hashing.go:73-101 | without a read error, the digest of exactly the three windows and the 8-byte big-endian size, for every size and sample size |
| `FastHash.StreamingFastHasher.constructor` | internal/hashing/hashing.go:180-191 | nothing captured, nothing written; each buffer has its window's length |
| `FastHash.StreamingFastHasher.Write` | internal/hashing/hashing.go:198-214 | any write, beyond the announced size too, stays inside every buffer and captures exactly the overlap of all bytes so far with the windows |
| `FastHash.StreamingFastHasher.Sum` | internal/hashing/hashing.go:222-231 | after exactly the announced bytes, the fingerprint of what was written |
| `FastHash.HashInChunks` | internal/hashing/hashing.go:180-231 | however the content is split into writes, the streaming digest is the random-access fingerprint |
| `FastHash.WindowsCoverIff` | internal/hashing/hashing.go:119-139 | the three windows read every byte if and only if the file is at most three samples long |
| `FastHash.SampledStreamInjective` | internal/hashing/hashing.go:80-98 | up to three samples, equal byte streams fed to the hash mean equal files |
| `FastHash.LongFilesCollide` | internal/hashing/hashing.go:80-98 | at every larger size, two different files with the same stream |
| `Destination.FilesMatch` | internal/ingest/naming.go:234-289 | true exactly for two readable files of the same size and sampled hash; samples at most six windows |
| `Destination.SuffixKeepsExtension` | internal/ingest/naming.go:57-66 | a suffixed name has the suffix at the end of its stem and the same extension |
| `Destination.DecimalReadsBack` | internal/ingest/naming.go:387-466 | the counter in a suffix is written in decimal: it reads back, has no leading zero and no dot, so that the suffix is never part of an extension |
| `Destination.CheckRoots` | internal/ingest/naming.go:298-339 | both answers true exactly when some root is set and every set root holds the source file; bytes sampled bounded per root |
| `Destination.FindNextFreeSuffix` | internal/ingest/naming.go:477-505 | the least free counter, or the unsuffixed name when all 10000 are taken |
| `Destination.Sweep` | internal/ingest/naming.go:387-466 | the first affordable counter that is free or identical, or else the least free one; the budget counter never exceeds the budget |
| `Destination.ResolveDestination` | internal/ingest/naming.go:355-505 | the answer is a name every set root holds this file under, or one free in every root, unless all candidates are taken; bytes sampled are at most roots times (budget spent plus one full comparison) |
| `Destination.LeastFreeSuffix` | internal/ingest/naming.go:385-505 | with a budget for the first full comparison, a non-matching answer is the least free suffix even when the budget runs out mid-sweep |
| `Destination.AmpleBudget` | internal/ingest/naming.go:385-466 | with an ample budget the sweep is the simple search for the first free or identical name |
| `Destination.LeastFreeIff` | internal/ingest/naming.go:410-428 | the least free suffix is promised for every disk if and only if the budget covers the first full comparison or no comparison at all |
| `Storage.Disk.RenameNoClobber` | internal/ingest/offline_write.go:160-174 | succeeds only onto a free name, moving the file whole; otherwise nothing changes |
| `ArchiveCopy.CheckExisting` | internal/ingest/offline_write.go:217-243 | a file already at the archive name is never touched; accepted only on a read-back equal to the queued hash, refused only if it is not that file or this path was misread; if nothing fails, the exact answer of `Expected` |
| `ArchiveCopy.StageCopy` | internal/ingest/offline_write.go:248-294 | touches the temporary name only; on success it holds bytes of the queued hash; if nothing fails, a complete local copy is staged, any other is refused as a mismatch and nothing is left at the temporary name |
| `ArchiveCopy.CopyToArchive` | internal/ingest/offline_write.go:216-319 | under any faults, wrong reads and a stop anywhere: no file but its own is changed or removed, the archive name never holds a partial file, success only after a read-back of the queued hash, with the bytes there unless the read-back of a file it found lied, and a repeat after success changes nothing; if nothing fails or lies, the copy is made: a free name gets the bytes of a complete local copy, and each other case has its own answer (already there, local copy changed, same-sized file of another hash, conflict), with no temporary file left |
| `ArchiveCopy.AnyAttempts` | internal/ingest/offline_write.go:216-319 | the same for any number of attempts |
| `Drain.BackoffFor` | internal/ingest/drain.go:49-61 | base times a power of two, capped, for every attempt count |
| `Drain.Store.InsertPending` | internal/queue/store.go:347-401 | one new row with the statuses its kind and origin call for, or no change |
| `Queue.NewRowSteps` | internal/queue/store.go:347-372 | which steps of a new row are pending: the creation of media that is not an upload, the archive copy of anything offline (sidecars too), the rebase of offline media, the upload of uploads; the copy of an online row is done; a row with nothing pending is the one Drain has no work with |
| `Queue.CreationListedIff` | internal/queue/store.go:452-482 | Drain lists a row with a creation to send, if and only if it is an online one or its archive copy has not failed; a reset brings it back |
| `Drain.Store.MarkNodeCreatedSubmitted` | internal/queue/store.go:571-579 | for any stamp, only the row's creation step and stamp change |
| `Drain.Store.ResetFailed` | internal/queue/store.go:787-853 | failed steps of the chosen rows become pending, everything else stays |
| `Drain.ResetMakesDue` | internal/queue/store.go:787-853 | a reset step is due at once, with no attempts counted; every other step is as it was |
| `Queue.ByLocalPath` | internal/queue/store.go:434-444 | the newest row with a local path, or none exactly when there is none |
| `Drain.SubmitCreations` | internal/ingest/drain.go:134-169 | phase 1, run to its end, has sent the creation of every listed row that is due, with the row's UUIDs; it sends no rebase and takes no copy or rebase step |
| `Drain.CopyToArchives` | internal/ingest/drain.go:171-214 | phase 2, run to its end, has tried the archive copy of exactly the listed rows that are due; the rows counted as copied are exactly those CopyToArchive succeeded for |
| `Drain.RecordCopy` | internal/ingest/drain.go:185-214 | if the store takes the write: success makes the row done; a conflict, a changed local copy or a repeated read-back mismatch makes it failed; anything else leaves it pending with one more attempt and the backoff's next time; if not, nothing changes; no other row ever does |
| `Drain.SendRebases` | internal/ingest/drain.go:216-271 | phase 3, run to its end, has sent the rebase of every listed row that is due, relying on a finished copy and a submission of an earlier pass, at least the dwell before the pass clock |
| `Drain.RebaseOne` | internal/ingest/drain.go:230-271 | a rebase is sent exactly when the row is media with a pending, due rebase, a finished copy, a submitted creation and the dwell behind it |
| `Drain.RecordRebase` | internal/ingest/drain.go:247-270 | if the store takes the write: accepted makes the rebase done, a fatal answer failed, anything else leaves it pending with one more attempt and the backoff's next time; no other row changes |
| `Drain.Drain` | internal/ingest/drain.go:113-271 | one pass, stopped anywhere, with resets, new rows and inline submissions during it, keeps the history invariant and never takes back a finished step; run to its end, it has sent every creation that was due and not given up with a failed archive copy, tried every archive copy that was due, relisted every row ready to rebase and sent every rebase that was then due; it stops only on a failure, and unless the store failed every success is in its row |
| `Drain.AnyRun` | internal/ingest/drain.go:113-271 | over all runs: every rebase ever sent followed a successful archive copy and an accepted creation recorded before its pass began (or the wall clock was set back during the pass), with the pass clock at least 4 s past the recorded second; every creation POST carried its row's UUIDs; every accepted creation, finished copy and accepted rebase is in its row unless that write was lost; failed steps reopen only by a reset and finished ones never; every archived row has its bytes in the archive unless a read-back of that path claimed that very hash of other bytes, or the path is the temporary name next to another row's archive name |
| `OfflineIngest.OfflineSlotUsable` | internal/ingest/offline.go:700-737 | when an already-present name is trusted (claimed, or the same sample held by the reachable archive) and when not; when a free one is (claimed by no row and, unless the stat failed, nothing else at the archive name) and when not |
| `OfflineIngest.ResolveOfflineDestination` | internal/ingest/offline.go:646-682 | the name chosen is claimed by no row and has nothing else at its archive name; or, unless the search was misled, it already holds the same sample under the local root and is claimed or held by the archive; if nothing fails and some candidate is open, one is chosen |
| `OfflineIngest.CompleteResumedLocalCopy` | internal/ingest/offline.go:750-789 | a resume without error of a missing local copy leaves bytes of the recorded hash at the claimed name, unless the read-back of its own temporary copy claimed that hash of other bytes; a copy in place is not touched; if nothing fails and the copy is there, a finished temporary copy is, or the card still delivers the recorded bytes, it succeeds |
| `OfflineIngest.QueueAndPlace` | internal/ingest/offline.go:474-564 | the row is written before the rename, and records this file, both names, size and hash; without error the claimed name holds the recorded bytes and the creation of a media file was sent; if nothing fails and the name is free, there is no error |
| `OfflineIngest.IngestFileOffline` | internal/ingest/offline.go:263-567 | whatever fails and wherever it stops: nothing but temporary names changes among the files there were, every new file is placed for a row with its recorded bytes, no offline row takes a local name another row has or the archive name of another offline row, no second row for a file of an unchanged card; a queued file's recorded hash is that of the bytes read; a skipped media file is claimed by a row, held by the archive or known to the server; if nothing fails and a name is to be had, the file ends up queued, or skipped for one of those reasons |
| `OfflineIngest.AnyRuns` | internal/ingest/offline.go:263-567 | the same over any number of interrupted runs from any queue that keeps the invariant, with archive copies, rows of other origins and other queue steps in between, and all creation POSTs of one file of the card carry the same UUIDs |
| `OfflineIngest.OnePostPerSource` | internal/ingest/drain.go:154-168 | one row per file and UUIDs fixed in the row make all creation POSTs of a file agree |
| `Registration.DedupState.NoteError` | internal/ingest/ingest.go:867-878 | latches exactly on a transport error, 404, 501, 401, 403 and 429 |
| `Registration.Engine.DualWrite` | internal/ingest/writer.go:59-167 | nothing that was on disk changes; on success both names were free and hold the bytes this call read from the card, and the hash is theirs; if nothing fails, it succeeds whenever both names are free and the card delivers the whole file, and leaves nothing behind otherwise |
| `Registration.Engine.ServerHasLiveContent` | internal/ingest/ingest.go:784-817 | found exactly when the last reply to the full-hash lookup names a live node, in the older form if the server needs it; exactly the listed failures end the asking for the pass, and then nothing is asked |
| `Registration.Engine.CheckContentDedup` | internal/ingest/ingest.go:957-1012 | a duplicate exactly when the full-hash reply names a live node at another path than the file's own and the pre-screen does not rule it out; the pre-screen alone never makes one; exactly the listed failures end the asking for the pass |
| `Registration.Engine.RegisterNode` | internal/ingest/ingest.go:539-658 | recorded before the POST; without error there is a new row with this file's names, size and hash or, without a queue, an accepted POST, and the result names its node; registers only copies whose read-backs agree; if nothing fails, it succeeds, queued when the POST does not |
| `Registration.Engine.ConfirmRegistered` | internal/ingest/ingest.go:687-768 | copies already on disk are skipped exactly on a row that speaks for them (the newest with the local path, same archive path and size, not failed) or a live answer for the hash read from the local copy, and the result names that node; otherwise, if nothing fails and the copies agree, they are registered, and only after both are verified; a queue that cannot be read is an error; the disk does not change |
| `Registration.Engine.IngestFresh` | internal/ingest/ingest.go:420-524 | if nothing fails and nothing stands in the way: skipped exactly when the server has the content at another path, with the disk as it was, and otherwise copied, verified and registered; every error leaves the disk as it was |
| `Registration.Engine.IngestFile` | internal/ingest/ingest.go:363-524 | no file that was there is changed or removed; a media file returned without error is backed by such a row, an accepted POST or a definitive live answer, and the result names its node; the hash is that of the bytes read from the card or, for copies found on disk, of the local copy unless its read-back lied; if nothing fails or stands in the way, it is registered or skipped, not an error |
| `Registration.Engine.AnyHistory` | internal/ingest/ingest.go:363-524 | over any history of passes, a drain's archive copies and other queue steps, and operator resets: every media file ever returned without error still rests on its row (an online one has not failed), POST or answer, about the hash of the bytes read or of the copy still on disk, and nothing unverified is ever recorded for registration |
| `UploadRace.UploadedBytesNeverLost` | internal/ingest/upload_queue.go:337-375 | for every interleaving of a drained upload and a card re-insert, stopped anywhere: the uploaded bytes are at the old path or a path the server gave, and no file with other bytes is altered or overwritten |
| `UploadSweep.OthersUntouchedIff` | internal/ingest/upload.go:561-635 | every run leaves all other files alone if and only if no other file with the uploaded bytes is movable: its own name's sweep can get to it past misses (eight in a row end it), files of other sizes and affordable comparisons, with the target free and the drain's move at any point |
| `UploadSweep.SomeRunMovesTwin` | internal/ingest/upload.go:561-635 | every movable file is moved by some run, built step by step |
| `UploadSweep.NearAndHiddenTwins` | internal/ingest/upload.go:583-603 | at the unsuffixed name and the first eight suffixes such a file is movable whenever the target is free, whatever the budget; behind eight empty names in a row it never is |
| `UploadSweep.PassesCheaper` | internal/ingest/upload.go:603-608 | bytes hashed on earlier names only narrow what a name's sweep can get to |
| `UploadRace.RecordedBeforeMoved` | internal/ingest/upload_queue.go:337-375 | the upload is recorded at most once, and a row whose copy the drain has moved is done, never pending |
| `UploadRace.RowNamesCopy` | internal/ingest/upload_queue.go:337-375 | for every interleaving, stopped anywhere: a done row names a path that holds the uploaded bytes, except between the drain's record and its move (it then names the target) or, after the drain recorded the upload, when it could not correct that record or the re-insert moved the copy away from that very path; one the re-insert recorded always does; a row not done names the deferred copy's path |
| `UploadRace.NoTempLeft` | internal/ingest/upload.go:503-635 | a re-insert whose own steps succeed leaves no temporary file, whatever the drain does |
| `UploadSweep.DrainMovesCopy` | internal/ingest/upload_queue.go:337-375 | undisturbed, with its target free, the drain ends with the copy at the target and the done row naming it |
| `UploadSweep.DrainStaysPut` | internal/ingest/upload_queue.go:377-401 | with the target taken, the drain ends with the files as they were and the done row naming the deferred path |
| `UploadSweep.DrainGivesUp` | internal/ingest/upload_queue.go:277-318 | a copy that is gone or has other bytes ends with a failed row and the files as they were |
| `UploadSweep.InsertPlacesCopy` | internal/ingest/upload.go:503-635 | with the target free and no earlier copy found, the re-insert ends with its own copy there, no temporary file and the row done |
| `UploadRace.InsertKeepsInv` | internal/ingest/upload.go:503-635 | every step of the re-insert keeps the race's invariant |
| `UploadRace.DrainKeepsInv` | internal/ingest/upload_queue.go:248-375 | every step of the drain keeps it |
| `Sidecars.UploadPass.Record` | internal/ingest/upload.go:137-146 | the table stays what the walk calls for: first master of a stem, last master of a full name |
| `Sidecars.UploadPass.MasterLink` | internal/ingest/upload.go:172-180 | the link found is the master the sidecar belongs to; none only if no master has its stem or name |
| `Sidecars.BelongsUnique` | internal/ingest/upload.go:137-180 | a sidecar belongs to at most one master |
| `Sidecars.DrainedNameIff` | internal/ingest/upload_queue.go:424-434 | for every server path that names a file, trailing slashes included: the drain gives a master's sidecar the name an undeferred pass gives it from the local copy at the cleaned path, if and only if the path does not end in a "." element (or the name's stem is "." anyway) |
| `Sidecars.UnrenamedMasterKeepsSidecar` | internal/ingest/upload.go:150-164 | a sidecar of a master that keeps its name keeps its own |
| `Sidecars.UploadQueue.NameToSend` | internal/ingest/upload_queue.go:256-274 | unless the queue fails, a name exactly when there is no master or the master is done, namely the one its server path gives; a pending master leaves the sidecar's row alone; a failed one fails it when the queue takes the write |
| `Sidecars.UploadQueue.MarkDone` | internal/queue/store.go:698-711 | a compare-and-set: exactly an unfinished upload is recorded done, unless the write fails |
| `Sidecars.UploadQueue.RecordVerdict` | internal/ingest/upload_queue.go:315-375 | unless the queue fails, a pending row becomes: after a stored upload done, with the server's path and the local path the copy ends up at; after a refusal failed; after anything else pending with one more attempt and the backoff's next time; a row closed meanwhile, or an interrupted upload, changes nothing |
| `Sidecars.UploadQueue.DrainUploadOne` | internal/ingest/upload_queue.go:248-335 | sends nothing but its own row, and a linked sidecar only after its master is done, with resets, new uploads and re-inserts at any point of it; unless the queue fails, an intact copy that may go is sent under its name and is done once stored, and a spoilt or refused one does not stay pending |
| `Sidecars.UploadQueue.DrainUploads` | internal/ingest/upload_queue.go:225-246 | a pass that goes through without a failure of the queue has sent every due row with an intact copy, sidecars of masters stored earlier in the same pass included, and every stored one is done |
| `Sidecars.UploadQueue.AnyRun` | internal/ingest/upload_queue.go:225-335 | over any passes, resets, new uploads and re-inserts, every linked sidecar ever sent went after its master was done, under the name the master's server path gives, and finished uploads never change but for the local path, which is corrected when a move fails |
| `YamlTree.SetSucceedsIff` | internal/config/patch.go:158-190 | setPath succeeds if and only if the value encodes and no existing value on the way is something other than a mapping |
| `YamlTree.LookupAfterSet` | internal/config/patch.go:158-190 | after a success the key and everything below it reads back the new value with the old comments, and every path beside it the whole subtree that was there |
| `YamlTree.CommentsStay` | internal/config/patch.go:162-171 | a value set anew is the value asked for with the head, line and foot comments of the one it replaces |
| `YamlTree.PeekAfterSet` | internal/config/patch.go:158-190 | what any reader finds at any path after a set: new value, untouched node, or a new mapping on the way |
| `YamlTree.NothingElseMoves` | internal/config/patch.go:158-190 | by position, on success and on error: no key, value, comment or placeholder but the one replaced changes or moves, duplicates and unreachable entries included |
| `YamlTree.SetsCommute` | internal/config/patch.go:128-142 | sets of prefix-independent keys commute for every reader |
| `YamlTree.AllSucceedIff` | internal/config/patch.go:138-142 | a set of independent changes succeeds if and only if each would alone |
| `YamlTree.LookupAfterAll` | internal/config/patch.go:128-142 | after a change set each key reads back its value with the old comments, and whatever is independent of all keys is what it was |
| `YamlTree.OrderIsIrrelevant` | internal/config/patch.go:128-142 | the order of the keys affects neither success nor any reader |
| `ConfigPatch.Node.FindKey` | internal/config/patch.go:192-199 | the first matching key, or -1 |
| `ConfigPatch.SetNode` | internal/config/patch.go:158-190 | the in-place edit of heap nodes refines the edit of values: the nodes stay a tree, stand for the edited value, and only nodes of this tree change |
| `ConfigPatch.Directory.WriteFileAtomic` | internal/config/patch.go:253-304 | the file is the old one or the new one whole, wherever it stops; an error leaves it as it was; if nothing fails, it is the new one |
| `ConfigPatch.Directory.Patch` | internal/config/patch.go:83-153 | if nothing fails, it saves if and only if the root is a mapping (or there is nothing yet), the check of the document passes and every change can be made; saved means exactly the change set applied to the document that was there; a failing change set, a failed check or an unpatchable file writes nothing at all |
| `ConfigPatch.SplitJoined` | internal/config/patch.go:139 | splitting a dotted key loses nothing, so distinct keys are distinct paths |
| `Stripping.ReducesUnique` | internal/naming/naming.go:53-69 | for any unambiguous markers, the stem and the markers stripped do not depend on the order of stripping |
| `FilenameStem.OneMarker` | internal/naming/naming.go:36-39 | no string ends in two different markers, and no marker is of both kinds |
| `FilenameStem.Analyze` | internal/naming/naming.go:46-70 | terminates at a stem no rule applies to, the prepared name is that stem and the markers stripped, and the kind is Index exactly when an index marker was stripped, None exactly when none was |
| `FilenameStem.CameraNumbersStay` | internal/naming/naming.go:31-36 | a name that ends in a hyphen and three or more digits is its own stem |
| `FilenameStem.StemIgnoresMarkersIff` | internal/naming/naming.go:46-78 | appending any markers in any case to any name leaves its stem if and only if the name does not end in a space, and for a blank name the first marker is not " copy" |
| `FilenameStem.DerivativesShareStem` | internal/naming/naming.go:46-78 | every derivative of a non-empty trimmed name, with any markers and any extension, is analyzed to the stem of that name |

## Left out

Assumptions:

- One agent process; no other process writes at the names the agent claims; queue rows are kept (no garbage collection or prune).
- Drain: passes do not overlap; its fourth phase, the queued uploads, is `Sidecars.UploadQueue` and `UploadRace`.
- Keys do not expire by time; a client without a key persister, which never adopts, is not modelled.
- YAML trees are alias-free and every mapping key has a value, as the parser guarantees.

Modelled more coarsely than the code:

- IngestFile (in Registration): the answer of the destination search is arbitrary here, which covers every answer `Destination.ResolveDestination` can give.
- Complete (in Storage): a file's content is what was handed to the operating system to write; a read-back that observes other bytes is a lie, whether the read or the medium is at fault, and bytes that go bad on the medium later are not modelled.
- AnyRuns: rows of other origins that arrive in between are of files not on the card: for a file on it, an online ingest would legitimately write a second row.
- AnyHistory: a local copy whose own name is one of the agent's temporary names is not followed on disk.
- UploadRace: files are regular (anything else at a candidate name counts as a file of another size); the refusal of an unsafe relative path (the move is then not attempted) and a cancelled sweep are not modelled; the comparison of a candidate with the uploaded file is on bytes, by an honest read.
- Sidecars.UploadQueue: the rename of an uploaded copy is in `UploadRace`; here, where the copy is to go and how its move ends are inputs.
- Registration: which hashes accompany a check-content request, and the lifecycle states that count as live, are one flag each; the row found for a copy is matched by path and size, as in the code, not by hash.
- ConfigPatch.Directory.Patch: takes the keys in any order instead of sorting them; text is abstracted to blank, a document, or anything else; symlink resolution, permissions and directory creation are not modelled.
- Analyze: lower-casing is any per-character function (the lemmas ask only what `unicode.ToLower` does to ASCII and to spaces); ill-formed UTF-8 is not modelled.
- Destination: candidate names may coincide (the template and path sanitising are an arbitrary function), so nothing is claimed about their distinctness.

Parts of the agent with no model here:

- Cryptography (AES-GCM, HMAC, BLAKE3, xxHash, perceptual hashes), HTTP, timeouts and JSON.
- Classification of error documents into fatal and transient; drain statistics and progress reports.
- EXIF and GPS extraction, modification times, the operating systems' ways of a cache-defeating read.
- Deferring an upload on a metered link and queueing it; walking a card; the tray, settings, self-update and command line.
