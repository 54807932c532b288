# Signet Drive: a verified model of the transfer engine, the transparency log checks and the delegation channel

This project models the parts of Signet Drive where correctness depends on many steps together: a
file's way from disk to storage and back through concurrent workers, interruptions and resumes; the
checks a client makes against a public transparency log and remembers between commands; a
request/response protocol over a folder anyone may write to; and the hand-written HTTP/1.1 reader and
connection pool under the transfers. Everything outside (scheduler, storage, server, clock, folder,
network) is nondeterministic. Cryptography is ideal: a hash is a free term, and an envelope or a
frame opens only under the key and the associated data it was sealed with.

| module | what it models |
|---|---|
| `Hashing`, `Encoding` | ideal SHA-256 with its domain prefixes; big-endian and length-prefixed encodings |
| `Merkle` | the log's tree (section 2.1 of RFC 6962), its proofs, and the two verifiers |
| `Translog`, `Watch`, `TransparencyVerify` | log entries and their hashes; binding served entries, the owner's watch, `transparency verify` |
| `Anchors`, `AnchorMemory` | the published anchor files, the epoch judgement, the cache, and what a client remembers |
| `ChannelAuth`, `ChannelTransport` | associated data and replay guard; the file-drop protocol as a state machine and a server class |
| `Layout`, `FileIo` | chunk arithmetic, envelopes, byte ranges; short reads and short writes |
| `UploadPipeline`, `Download`, `DownloadEndings`, `RoundTrip` | the upload fan-out, the download generations and how they end, and the two joined across resumed runs |
| `ResumeRecord`, `BusyClocks` | the local record of an interrupted upload; the busy clock |
| `BucketTransport`, `ConnectionPool` | the response reader over a byte stream split at will; the keep-alive pool and the fetches with their retries that share it |

Concurrent code is a step relation over its threads' atomic steps (`Enabled`, `Step`, `IsRun`), with
invariants proved for every interleaving; sequential loops over mutable state are methods and classes
proved against functions of their inputs.

Where the code and its documentation disagree, the model follows the code:

- Sealed envelopes in memory are documented to be at most `concurrency + prepare_ahead`. In the fan-out
  some run exceeds that exactly when `prepare_ahead` is 0 and there are more parts than workers
  (`UploadPipeline.DocumentedBoundFails`); at one worker the code takes the serial loop then, so an upload
  exceeds it exactly with two workers or more besides (`UploadPipeline.UploadBoundFails`).
- `multipart_plaintext_len` is documented never to fabricate a length. It does for exactly the stored
  lengths that leave over at most one chunk's overhead and still have something left once every
  overhead is taken off (`Layout.FabricatesExactly`), such as 1044 bytes in chunks of 1000
  (`Layout.FabricatesOne`).
- An unchanged source is documented to resume. The anchor is over chunks of the current run's size, so
  the record of an unchanged readable file is dropped exactly when the recorded and the current chunk
  size span different stretches of it; that of a file that cannot be read always is
  (`ResumeRecord.UnchangedIsDropped`, with ten bytes in chunks of four and then five in
  `ResumeRecord.ChunkSizeForgets`).
- The resume anchor is documented to close the window for resuming against other content; it does
  exactly for files of at most two chunks (`ResumeRecord.AnchorDecides`).
- Keeping the measured rate across a stall is documented never to cost the upload. The record is
  rewritten in place for it, so a stall can lose the record exactly when the upload has an estimate of
  its rate (`ResumeRecord.StallLosesExactly`, with a run in `ResumeRecord.TornStallForgets`).
- A download is documented to put only a complete file under the requested name. Another than the one
  sealed can be committed exactly when the server reports no chunks of a file that has bytes, or a stride
  that is not the chunk size of a file of several chunks (`Download.WrongFileExactly`).
- A log that extends the published one is documented as no alarm. Against a published log of size 0 every
  longer log is one (`Watch.EmptyLogAlarms`).
- A server below an epoch once anchored is documented to be refused. The remembered epoch is loaded at the
  start of a command and saved over at its end without a lock, so it falls exactly when a command that
  loaded before the save ends lower after it (`AnchorMemory.RatchetFallsExactly`, with a run in
  `AnchorMemory.OverlapForgets`).
- The anchor cache keeps each epoch's last root line, documented as its latest root; the two agree
  exactly when the last line is a largest one (`Anchors.CacheLatestRoot`, `Anchors.CacheLosesLargest`).
- The length-prefixed framing of the channel's associated data is documented to be unambiguous; it is
  exactly for fields below 2^32 bytes, where the length cast wraps (`ChannelAuth.BindsExactlyBelow`).
- Headers that end within the header limit may still be refused: some split of the bytes over reads is
  refused exactly when they end within one read of the limit and the stream runs past it
  (`BucketTransport.SplitsDecide`).

## Model

| member | source | states |
|---|---|---|
| Hashing.LeafHashInjective | crypto/src/merkle.rs:47-52 | Leaf hashes are equal only for equal entry hashes. |
| Hashing.NodeParts | crypto/src/merkle.rs:56-62 | An internal node is the hash of its own two children and of no other pair. |
| Merkle.SplitIsLargest | crypto/src/merkle.rs:66-73 | The split is the one power of two below `n` whose double reaches `n`. |
| Merkle.SplitPoint | crypto/src/merkle.rs:66-73 | The doubling loop computes that split for every `n >= 2`. |
| Merkle.RootOpens | crypto/src/merkle.rs:77-123 | Read top-down, the root of a log opens at every position to that entry's leaf with exactly the RFC 6962 audit path as siblings. |
| Merkle.RootDeterminesLog | crypto/src/merkle.rs:77-96 | Logs with equal roots are equal, whatever their lengths. |
| Merkle.OpenByPairs | crypto/src/merkle.rs:85-96 | Opening a root as `n` nodes is opening it as the pairs of them and then one pair: the recursive top-down tree is the verifier's bottom-up one. |
| Merkle.ClimbIsOpen | crypto/src/merkle.rs:125-163 | The bottom-up walk from a leaf reaches a root exactly when that root opens at the position to that leaf by that path, for any root. |
| Merkle.VerifyInclusion | crypto/src/merkle.rs:125-163 | The loop accepts exactly when the root opens there to that leaf by that proof; against a real log, exactly that log's entry at that index with exactly its audit path. |
| Merkle.OlderClimbs | crypto/src/merkle.rs:198-250 | What the two-root walk reaches commits both trees to the same leaves below the walked position. |
| Merkle.ExtendsExactly | crypto/src/merkle.rs:198-250 | The verifier's run accepts exactly when both roots commit to the same first leaves and the path is the one read off the newer root. |
| Merkle.SubproofOfRoot | crypto/src/merkle.rs:166-196 | The proof generated from the entries is the one read off the root alone. |
| Merkle.ProofIsExpectedPath | crypto/src/merkle.rs:166-196 | The generator's recursive proof is the path the verifier's bottom-up loop expects, its head left out exactly for powers of two. |
| Merkle.VerifyConsistency | crypto/src/merkle.rs:198-250 | Accepting binds the newer root to every leaf of the older, whatever the roots; against real logs it accepts exactly a prefix with exactly its RFC 6962 proof. |
| Translog.CanonicalBytesDetermine | crypto/src/translog.rs:122-207 | The canonical bytes determine every field of an entry, the account up to zero bytes. |
| Translog.EntryHashIsExact | crypto/src/translog.rs:122-207 | Two entries hash alike exactly when they are equal up to an absent account being written as zeros. |
| Translog.ZeroIndexCollides | crypto/src/translog.rs:180-207 | An account-less entry and one under the all-zero index do hash alike. |
| Watch.BoundLeafIsTheEntry | cli/src/anchors.rs:917-1032 | A served entry bound to a logged hash is that entry, with its key's own fingerprint and what was asked for. |
| Watch.ServedEntryBinds | cli/src/anchors.rs:917-1032 | Every stored entry served as stored is bound to its own leaf. |
| Watch.IgnoringCaseMeans | cli/src/anchors.rs:1017-1023 | Fingerprints compare equal exactly when they agree letter for letter up to ASCII case. |
| Watch.BindMeans | cli/src/anchors.rs:917-1032 | Exactly when a served entry is bound, when it cannot be read, and by elimination when it is a violation. |
| Watch.ReportMeans | cli/src/anchors.rs:834-877 | The report lists each entry with whether its pair is held, in order the fingerprints of exactly the listed entries not held and of exactly the held pairs not listed, and its verdict is told by the two sets of pairs: equal, not contained, properly contained. |
| Watch.WatchOwner | cli/src/anchors.rs:793-877 | Accepts exactly a scan of the right size, numbered, bound, under the published root; refuses as unreadable exactly when the first position not accepted is the right entry with an unreadable leaf, and otherwise as a violation; an accepted scan is the published log entry for entry, and the report is of exactly the entries the log has under the index. |
| Watch.ZeroIndexIsAmbiguous | cli/src/anchors.rs:793-877 | For every log and all held keys, two accepted scans report differently exactly when the index is all zeros and some entry has no account. |
| Watch.JudgePublishedRoot | cli/src/commands.rs:2102-2146 | A pass keeps every published entry in place whatever the proof's root; against a real current log it is exactly the same log, or a proper extension of a non-empty one by its own proof. |
| Watch.VerifyEntry | cli/src/commands.rs:1914-2077 | Each way out exactly: unreadable, not included in its tree, unanchored, no consistency proof to be had, valid, alarm. A valid answer is the published entry at its position under its own fingerprint; against real logs the alarm is raised exactly when the current log is not an extension by its own proof. |
| Watch.HonestIsValid | cli/src/commands.rs:1914-2077 | Every honestly proved entry of a log that extends a non-empty published one is valid. |
| Watch.EmptyLogAlarms | cli/src/commands.rs:2068-2075 | Against an empty published log every entry of a longer one raises the alarm. |
| TransparencyVerify.VerifyOnce | cli/src/commands.rs:1822-2077 | Refuses ahead of the proof exactly on an epoch violation or a proof at a retired epoch's final size under another root; reports a retired epoch as such, matching only if the proof's log is the epoch's final one; otherwise ends in exactly one of the ways out of `VerifyEntry`, against the committed root. |
| TransparencyVerify.CommittedIsLargest | cli/src/commands.rs:1940-1976 | A proof is held to the root given; with none given there is one exactly when the served epoch is anchored by files with a root of it, and it is a largest one. |
| Anchors.MaxEpochIsHighest | cli/src/anchors.rs:216-227 | `max_epoch` is the highest epoch any line gives evidence of, or 1, and fits 16 bits for parsed files, an end line of the last epoch included. |
| Anchors.EpochEndMeans | cli/src/anchors.rs:202-204 | An end line is found exactly when one exists, and is one. |
| Anchors.LatestMeans | cli/src/anchors.rs:207-212 | `latest_root` is a largest published root of the epoch, and the last of the largest. |
| Anchors.V3Means | cli/src/anchors.rs:301-387 | Epoch 2 or later is anchored exactly when it is not below the ratchet, the files hold one key line for it that names the served key, the epoch before has an end line, and nothing later is in evidence. |
| Anchors.JudgementMeans | cli/src/anchors.rs:301-387 | Exactly when the epoch-1 rule applies, when the client waits, and that a rollback or a disagreement past the bound is a violation. |
| Anchors.CacheJudgesTheSame | cli/src/anchors.rs:624-659 | The pruned files give the same verdict as the whole files for every server, ratchet and age. |
| Anchors.CacheLatestRoot | cli/src/anchors.rs:624-659 | For every file and epoch, the pruned files' latest root is the whole files' exactly when the epoch's last root line, if any, is a largest. |
| Anchors.CacheLosesLargest | cli/src/anchors.rs:624-659 | Two lines for which it is not. |
| AnchorMemory.GenesisBinds | cli/src/anchors.rs:392-454 | Whoever passes the genesis check under one pinned hash agrees on the epoch, its key and the end of the epoch before. |
| AnchorMemory.GenesisPassesExactly | cli/src/anchors.rs:392-454 | What passes is exactly the epoch's first entry, over the end the files give the epoch before, whose hash is the pinned one. |
| AnchorMemory.Memory.UpdateState | cli/src/anchors.rs:552-567 | The new state: ratchet raised and sightings cleared, first sighting kept, or nothing. |
| AnchorMemory.Memory.AnchorServed | cli/src/anchors.rs:1101-1193 | Answers by the cache exactly when one of this repository, under a day old, anchors the epoch as epoch 1 or under a checked key; otherwise by the first of four reads that does not leave it waiting, the key checked against its genesis; and leaves the state the run theorems are about. |
| AnchorMemory.WaitsOnlyAfterFour | cli/src/anchors.rs:1143-1155 | With a repository and no cache, a command is left waiting only if all four reads leave it so, and otherwise answers by the first that does not. |
| AnchorMemory.AnchoredIsServed | cli/src/anchors.rs:1101-1193 | An anchored answer is for the served epoch, not below any anchored before, and leaves no sighting up to it. |
| AnchorMemory.AnchoredNeverFallsBack | cli/src/anchors.rs:301-387 | Over every run of commands, overlapping or not, after a saved anchoring no command that loads later anchors a lower epoch, from the cache or fresh, unless one already under way has saved over it. |
| AnchorMemory.RatchetFallsExactly | cli/src/anchors.rs:1101-1193 | Over every run, the ratchet is later below what a command saved exactly if a command that loaded before that save has since saved less. |
| AnchorMemory.OverlapForgets | cli/src/anchors.rs:1101-1193 | Two overlapping commands after which an epoch below one anchored is anchored again. |
| AnchorMemory.CachesAreEarned | cli/src/anchors.rs:1101-1193 | Over every run, a cache marked as checked was cut from files against which an earlier saved command passed the genesis check. |
| AnchorMemory.EveryKeyWasChecked | cli/src/anchors.rs:669-695 | Over every run, every key a command binds to passed the genesis check in it or in an earlier one of the same repository less than a day before. |
| AnchorMemory.SightingStays | cli/src/anchors.rs:552-567 | A first sighting keeps its time until its epoch or a later one is anchored, or a command already under way saves over it. |
| AnchorMemory.SightingsStayAbove | cli/src/anchors.rs:552-567 | Over every run, every recorded sighting is of an epoch not below the highest anchored. |
| AnchorMemory.DisagreementIsBounded | cli/src/anchors.rs:301-387 | Over every run, after a first wait, readable files still in disagreement are a wait within 900 seconds and a violation from then on, as long as the epoch was not anchored and the sighting not saved over. |
| ChannelAuth.RequestAadBinds | channel/src/auth.rs:207-219 | The request's associated data determines channel and request id, for fields under 2^32 bytes. |
| ChannelAuth.ResponseAadBinds | channel/src/auth.rs:221-229 | The response's determines channel, request id and request nonce. |
| ChannelAuth.DirectionsAreApart | channel/src/auth.rs:207-229 | No request's associated data is a response's. |
| ChannelAuth.LongFieldsCollide | channel/src/auth.rs:207-219 | At 2^32 bytes the length prefix wraps and two requests share theirs, and two responses. |
| ChannelAuth.BindsExactlyBelow | channel/src/auth.rs:207-231 | Requests and responses determine all fields of at most so many bytes exactly below 2^32. |
| ChannelAuth.AcceptKeepsSpacing | channel/src/auth.rs:263-276 | Accepting a nonce outside the window keeps equal accepted nonces at least `capacity` apart. |
| ChannelAuth.WindowIsDistinct | channel/src/auth.rs:240-276 | The remembered window never holds a nonce twice. |
| ChannelAuth.ReplayGuard.CheckAndRecord | channel/src/auth.rs:263-276 | Accepts exactly the nonces not among the last `capacity` accepted, and its set and queue stay those last ones. |
| ChannelTransport.OpenedWasSent | channel/src/transport.rs:202-224 | A request frame that opens was sealed by the client for this channel and that request id, whether or not the file is still there. |
| ChannelTransport.OpenedWasAnswered | channel/src/transport.rs:93-123 | A response file that opens for a pending request is a handler's answer to its own op. |
| ChannelTransport.StepKeeps | channel/src/transport.rs:81-224 | Every step keeps the invariant: the client's, each of the server's reading, processing, writing and removing, and every file others put or delete between them. |
| ChannelTransport.ChannelIsSafe | channel/src/transport.rs:81-224 | In every run the handler runs only on ops the client sealed for that channel and id, and every returned response answers its own op. |
| ChannelTransport.RepeatsAreFarApart | channel/src/transport.rs:202-224 | Two handler runs on one nonce have at least `capacity` others between them. |
| ChannelTransport.UndisturbedRequestIsAnswered | channel/src/transport.rs:81-224 | Left alone, a request sent at any reachable point with the server free is answered, returned and cleaned up by eight steps. |
| ChannelTransport.PassKeeps | channel/src/transport.rs:167-200 | A whole undisturbed poll pass over any listing is a sequence of such steps. |
| ChannelTransport.ChannelServer.PollOnce | channel/src/transport.rs:167-200 | For a listing without repeats: each new run is of a listed file, in order, on the op it opens to, with the handler's answer in its response file; a file is answered exactly when it opens under a nonce outside the window as it then stands; the listed requests are gone and every other file is as it was. |
| ChannelTransport.FreshIsAnswered | channel/src/transport.rs:167-224 | A listed request that opens under a nonce neither in the window nor in a file listed before it is answered. |
| ChannelTransport.ChannelServer.ProcessFile | channel/src/transport.rs:202-224 | Answers exactly an authentic frame with a nonce outside the window, with the sealed handler's answer, and records the nonce only then. |
| Layout.PlanIsExact | cli/src/commands.rs:3937-3950 | A plan is refused exactly above 10,000 chunks; otherwise it declares the stored size, which fits an `i64` for every accepted chunk size. |
| Layout.StoredSizeInverts | crypto/src/envelope.rs:116-124 | The displayed length of every stored size is the file's length. |
| Layout.PlaintextLenIsExact | crypto/src/envelope.rs:116-124 | The display is right exactly on the stored lengths some file has, told by the remainder of the last chunk. |
| Layout.FabricatesExactly | crypto/src/envelope.rs:104-124 | Exactly when a length is returned whose file is stored in another length, and that on every other length no file has there is no answer. |
| Layout.FabricatesOne | crypto/src/envelope.rs:104-124 | One such stored length, which no file has. |
| Layout.ChunkLength | cli/src/commands.rs:4203-4221 | Seeking to index times chunk size, every chunk but the last is full and the last holds the rest. |
| Layout.OpensExactlyWhatWasSealed | crypto/src/envelope.rs:143-226 | Bytes open to a plaintext exactly when they are its sealed chunk for that key, file, index and last-chunk bit. |
| Layout.RangesFetchChunks | cli/src/commands.rs:5047-5061 | The ranges tile the stored object, and each fetches one sealed chunk that opens to that chunk's bytes. |
| FileIo.FillChunk | cli/src/commands.rs:4446-4458 | However short the reads, the buffer gets all the file has there up to its size; an error exactly if a read failed. |
| FileIo.ReadChunk | cli/src/commands.rs:4213-4216 | Seek and fill read exactly the chunk of that index; an error exactly if a read failed. |
| FileIo.WritePlaintextAt | cli/src/commands.rs:5023-5041 | However short the writes, success is one whole positioned write and failure has written a prefix and nothing else; it fails exactly if a write failed or took nothing. |
| UploadPipeline.StepDecreases | cli/src/commands.rs:4242-4346 | Every step of every interleaving lowers one measure. |
| UploadPipeline.SomeoneCanMove | cli/src/commands.rs:4242-4346 | Until every thread has ended some thread can move, a producer parked in `send` included. |
| UploadPipeline.EveryRunEnds | cli/src/commands.rs:4242-4346 | Every run, with any failures, ends joined within a bound linear in the plan and the workers. |
| UploadPipeline.RunsAccount | cli/src/commands.rs:4242-4346 | At every point each planned part is accounted for at most once, exactly once until something fails, and something is amiss exactly when a failure happened. |
| UploadPipeline.FirstErrorWins | cli/src/commands.rs:4249-4258 | A recorded error is never replaced. |
| UploadPipeline.FailureRaises | cli/src/commands.rs:4252-4258 | Over every run, the flag that stops the others is up exactly once a worker has raised it, and an upload that ends with an error has raised it. |
| UploadPipeline.WindsDown | cli/src/commands.rs:4260-4346 | Once the flag is up, any run can be carried on until every thread has joined, with no part sealed and no send begun any more. |
| UploadPipeline.FailureStopsSealing | cli/src/commands.rs:4274-4311 | In every run nothing is sealed after the first failure to open or seal. |
| UploadPipeline.SortSorts | cli/src/commands.rs:4377-4380 | The list given to `complete` is ascending and a permutation of what was delivered. |
| UploadPipeline.FanOutRefinesSerial | cli/src/commands.rs:4242-4380 | `Ok` exactly when nothing failed; then the parts are the serial loop's and every planned part is stored; an error is the first one recorded and names an open, a seal or a send that failed; the shortfall branch is never taken. |
| UploadPipeline.UploadSerial | cli/src/commands.rs:4203-4221 | The serial loop succeeds exactly when no seal and no send fails; it stops at the first position that fails, and storage gains exactly the parts sent, in plan order. |
| UploadPipeline.EnvelopesAreBounded | cli/src/commands.rs:4246-4248 | At most `concurrency + max(prepare_ahead, 1)` envelopes are alive at any point of any run. |
| UploadPipeline.DocumentedBoundFails | cli/src/commands.rs:4242-4265 | Some run of the fan-out has more than `concurrency + prepare_ahead` envelopes alive exactly when `prepare_ahead` is 0 and there are more parts than workers. |
| UploadPipeline.UploadBoundFails | cli/src/commands.rs:4202-4265 | For the upload, serial loop included, that takes two workers or more besides. |
| UploadPipeline.AliveWasSealed | cli/src/commands.rs:4242-4346 | At every point of every run no more envelopes are alive than parts were sealed. |
| Download.StepKeeps | cli/src/commands.rs:4712-4869 | Every step of every interleaving keeps: at most `concurrency` workers and no more than pending chunks, no slot in two hands, a completed flag means the bytes are in place, tallies off only by workers between landing and adding, an error names an unlanded chunk. |
| Download.CleanGenerationFinishes | cli/src/commands.rs:4716-4818 | At a join, no recorded error exactly when every chunk has landed, and `done` counts them. |
| Download.EveryRunEnds | cli/src/commands.rs:4712-4907 | Every run is bounded, never stuck, and asks for fewer than three fresh addresses a chunk, whatever storage answers. |
| Download.RunsAreSafe | cli/src/commands.rs:4712-4907 | The invariant holds at every point of every run; the completeness error is unreachable. |
| Download.ClaimedOnce | cli/src/commands.rs:4716-4752 | In every run, two claims of one generation are of different chunks. |
| Download.FirstErrorWins | cli/src/commands.rs:4797-4815 | In every run, the error a generation ends with is the first one recorded in it. |
| Download.GivesUpAfterThree | cli/src/commands.rs:4943-4950 | Giving up on the address comes only after three rejected generations in a row, none of which landed a chunk. |
| DownloadEndings.JoinDecides | cli/src/commands.rs:4818-4869 | Over every run, exactly where a joined generation leads, by the first failure recorded in it, whether a chunk landed in it, how many rejected generations in a row landed nothing, and the server's answer: nothing recorded means all landed; another failure ends the download with it; a rejection granted and not refused gets a fresh address and a next generation over exactly the chunks left. |
| DownloadEndings.EndsOnlyBy | cli/src/commands.rs:4712-4907 | Over every run, every end has its cause: refused only where the server refuses an address the budget grants, given up on the address only without the budget, otherwise the first failure of the last generation, a rename that failed, or the commit. |
| DownloadEndings.StorageFailureHappened | cli/src/commands.rs:4795-4815 | The failure a download gives up with is one a worker of its last generation met. |
| DownloadEndings.FailureStops | cli/src/commands.rs:4736-4815 | Over every run, a worker that has failed claims no more in its generation; the flag that stops the others is up exactly once raised; a generation joined with a failure has raised it. |
| DownloadEndings.GenerationWindsDown | cli/src/commands.rs:4736-4818 | Once the flag is up, any run can be carried on to the end of its generation with no chunk claimed any more. |
| DownloadEndings.CarriedPastRejections | cli/src/commands.rs:4712-4907 | When every chunk opens, a run whose only failures are rejections the budget grants can be carried on to a commit. |
| Download.StorageCannotForge | crypto/src/envelope.rs:208-226 | Whatever bytes storage answers with, a chunk opens to the sealed plaintext of its index under an agreeing count, or not at all. |
| Download.CommitMeans | cli/src/commands.rs:4617-4907 | A committed download has a true count or none, counts every byte, and is the sealed file exactly when the reported stride is true too (or unused), whatever was reported and answered. |
| Download.CarriedThrough | cli/src/commands.rs:4712-4907 | When every chunk can be opened, any run in a state with nothing failed but granted rejections can be carried on to a commit. |
| Download.WrongFileExactly | cli/src/commands.rs:4617-4907 | Some run commits another file than the sealed one exactly when the server reports no chunks of a file that has bytes, or a wrong stride for several chunks. |
| Download.QuietDownloadDelivers | cli/src/commands.rs:4617-4907 | Told the truth and with nothing failing, a download moves on until it has committed the sealed bytes. |
| RoundTrip.StoreIsSealed | cli/src/commands.rs:3759-3860 | After any number of runs of either loop cut off anywhere, storage holds sealed parts of the file and nothing else. |
| RoundTrip.FinishedStore | cli/src/commands.rs:3759-3930 | When an upload finishes, at once or after resumes, storage holds every part as sealed. |
| RoundTrip.CompleteNamesEveryPart | cli/src/commands.rs:3877-3890 | The list given to `complete`, stored parts and then new ones, names every part exactly once with the tag of its bytes. |
| RoundTrip.UploadThenDownload | cli/src/commands.rs:3759-5061 | End to end: the object such an upload leaves downloads, under any interleaving and failures on the way, to the original bytes or not at all, and does when nothing fails. |
| ResumeRecord.AnchorSees | cli/src/upload_state.rs:154-176 | Anchors agree exactly when size, first and last span agree, across chunk sizes. |
| ResumeRecord.AnchorDecides | cli/src/upload_state.rs:154-176 | An anchor determines the content exactly for files of at most two chunks. |
| ResumeRecord.FindMatch | cli/src/upload_state.rs:196-239 | Finds the first record of this destination and source, and drops exactly the stale ones before it. |
| ResumeRecord.OnlyStaleIsDropped | cli/src/upload_state.rs:196-239 | A search drops exactly the readable records of its destination whose source it does not recognise and that no match comes before. |
| ResumeRecord.RecognisedExactly | cli/src/upload_state.rs:196-239 | A record is recognised exactly when both commands could read the file and found the same path, time, size and ends, each in chunks of its own size. |
| ResumeRecord.SearchFinds | cli/src/upload_state.rs:196-239 | A search finds a record exactly when one on the disk is of its destination and source; otherwise a fresh upload is next. |
| ResumeRecord.ResumeGoesOn | cli/src/commands.rs:3759-3850 | A resume goes on with the record and geometry it found exactly when the server has the upload and agrees; without a usable answer the command ends, otherwise a fresh upload is next. |
| ResumeRecord.UnchangedIsStale | cli/src/commands.rs:3454-3463 | The record of an unchanged file is not recognised exactly if the file was or is unreadable or the two chunk sizes span different stretches of it. |
| ResumeRecord.UnchangedIsDropped | cli/src/commands.rs:3445-3474 | The search for an unchanged file drops its record exactly then, if no match comes first; always if it cannot be read; and otherwise finds a record to resume. |
| ResumeRecord.ChunkSizeForgets | cli/src/commands.rs:3445-3474 | A run in which an unchanged file, uploaded again in other chunks, loses the record of a live upload. |
| ResumeRecord.LosesExactly | cli/src/commands.rs:3445-3932 | One step loses a record exactly if it is a search that does not recognise the source, a resume the server does not know or disagrees with, a confirmed abort, a finalize confirmed or not found, or a stall with a rate to keep whose write is cut short. |
| ResumeRecord.LostOnlyWhen | cli/src/commands.rs:3445-3932 | Over every run, a record once there is gone exactly if some step since has lost it so, and stays gone. |
| ResumeRecord.LiveUploadsStayResumable | cli/src/commands.rs:3445-3932 | Over every run, a recorded upload still live on the server is without its record exactly if a search has not recognised its source, a resume has disagreed with the server, or a stall's write was cut short. |
| ResumeRecord.CommandMoves | cli/src/commands.rs:3633-3728 | A fresh upload is of the job the search left and recorded exactly if its record was written whole; after a failure or a finalize the upload is live exactly unless the abort or the finalize reached the server. |
| ResumeRecord.StallLosesExactly | cli/src/commands.rs:4057-4071 | A stall can lose the record it finds exactly when the upload has an estimate of its rate. |
| ResumeRecord.EstimateMoves | cli/src/transfer_governor.rs:175-246 | A part counts exactly at a credible rate; the estimate then moves two fifths of the way to it; a stall halves it, and drops it exactly when half is not credible. |
| ResumeRecord.RatesAreMeasured | cli/src/transfer_governor.rs:175-246 | Over every run, an estimate in hand or in a record goes back to a part measured at a credible rate, so no stall loses a record before one. |
| ResumeRecord.CutShort | cli/src/upload_state.rs:94-113 | A record cut short at any byte is no record, and a whole one reads back as written. |
| ResumeRecord.TornStallForgets | cli/src/commands.rs:4057-4071 | For every file, a run in which a stall, its estimate halved, loses the record of a live upload. |
| BusyClocks.BusyClock.Begin | cli/src/commands.rs:4115-4121 | Keeps total and open stretch equal to the union of the in-flight intervals so far. |
| BusyClocks.BusyClock.End | cli/src/commands.rs:4122-4130 | When the last send ends, the total is exactly the measure of that union. |
| BusyClocks.NeverMoreThanWall | cli/src/commands.rs:4370-4376 | The union is never longer than the wall clock, so the busy fraction never exceeds 1. |
| BucketTransport.HeadersEndMeans | cli/src/bucket_transport.rs:927-929 | The headers end exactly just past the first CR LF CR LF. |
| BucketTransport.PrefixEnd | cli/src/bucket_transport.rs:927-929 | A prefix of the stream shows the end of the headers exactly when it lies in the prefix, and at the same place. |
| BucketTransport.ReadHead | cli/src/bucket_transport.rs:740-767 | From wherever the connection stands, the header phase is one function of the bytes to come and of how the reads split them. |
| BucketTransport.SplitsDecide | cli/src/bucket_transport.rs:740-767 | Some split of a stream is refused exactly when its headers do not end, or end within a read of the limit with the stream running past it; some split is taken exactly when they end within the limit. |
| BucketTransport.ReadResponse | cli/src/bucket_transport.rs:740-925 | From wherever the connection stands and however the bytes are split: data is exactly the declared bytes of the response to come; a diagnostic body on a sound wire is all that was sent up to the declared length or the cap; reuse is offered exactly when nothing past it was read and the server keeps the connection; each failure says what the bytes to come lack, and only a faulty wire times out. |
| ConnectionPool.FramingIsTheServers | cli/src/bucket_transport.rs:740-925 | Against a server that sends what it declares, the boundaries the pool goes by are the server's own message starts and the bodies are its own. |
| ConnectionPool.DownloadPool.Take | cli/src/bucket_transport.rs:1073-1077 | Hands out one idle connection of the authority if there is one and keeps all the others. |
| ConnectionPool.PoolIsSafe | cli/src/bucket_transport.rs:1062-1196 | Over every interleaving of fetches and their retries: no more connections to a host than workers; each opened one is in use by one request, idle once or shut down once; each idle or used one is at its own authority with exactly the responses read on it consumed; the k-th data body read on a connection is its k-th response's own. |
| ConnectionPool.NeverShared | cli/src/bucket_transport.rs:1062-1196 | No two requests share a connection, and none in use is idle or shut down. |
| ConnectionPool.CallExchangesTwice | cli/src/bucket_transport.rs:1121-1196 | Over every run, one transport call has at most two exchanges on a first attempt and one on a later, and after the first it is never on a pooled connection. |
| ConnectionPool.BreakSurfacesOnFresh | cli/src/bucket_transport.rs:1121-1196 | Over every run, an exchange that breaks ends the call only on a connection opened in that very call. |
| ConnectionPool.FetchExchangesBounded | cli/src/http.rs:856-928 | Over every run, a fetch with all its retries has at most one exchange more than attempts. |
| ConnectionPool.RetriesBypassThePool | cli/src/http.rs:856-928 | A later attempt leaves the pool alone: its connection is its own and is shut down afterwards. |
| ConnectionPool.FetchEndsExactly | cli/src/http.rs:856-928 | Over every run, a fetch ends exactly with an answer that is no server error and no redirect, or with a failed third attempt, and comes to the bytes on 200 or 206, a rejected address on 403, and an error otherwise; a failed first or second attempt earns another. |
| ConnectionPool.EveryFetchEnds | cli/src/http.rs:856-928 | Over every run, a fetch takes at most eleven steps, and until it has ended it can take one. |
| ConnectionPool.FetchMovesOn | cli/src/bucket_transport.rs:1121-1196 | A first attempt is on a pooled connection exactly when there is one of its authority, and otherwise on a new one. |

## Left out

- The cryptographic primitives, the VRF, JSON, base64 and hex codecs: ideal or exact here; a response or op that fails to decode is not modelled.
- The server, its database and the storage service: their answers are nondeterministic; that `complete` assembles parts by number is how `RoundTrip` reads it.
- The resumed upload's source is taken to be unchanged; `ResumeRecord` says when the anchor guarantees it.
- `UploadPipeline.Job.seal` and `UploadPipeline.Job.tag` are functions, so sealing a part twice gives the same envelope, as the deterministic chunk nonces do.
- Anchors.V3Means: messages carried by verdicts and errors are not modelled, only which verdict it is.
- AnchorMemory.RatchetFallsExactly: one server's state; a save also writes back the other servers' states as it read them a moment before, and is not modelled.
- AnchorMemory.Memory.AnchorServed: a state file that cannot be read starts over as empty in the source, and is not modelled.
- ResumeRecord.CutShort: a byte of a record's text says which text it is of and where it stands, because of the JSON syntax only that no text is the start of another matters.
- ChannelTransport.ChannelServer.PollOnce: the pass runs undisturbed and its writes and removals succeed; what others do between its steps is in the state machine.
- ResumeRecord.FindMatch: a stale record that cannot be removed from disk is taken as removed.
- TransparencyVerify.VerifyOnce: the anchoring it is given is a parameter here, and a proof document whose size or root cannot be read is not modelled.
- Download.StepKeeps: the server-supplied concurrency is any number, and its clamp to 1..8 is not modelled; a panicking worker is one that fails.
- BucketTransport.ReadResponse: the parsing of the status line and headers is a function parameter, and deadlines and timeouts are reads that may fail on a faulty wire.
- The request-writing half of the transport, its write gap, rate-derived ceilings and backstops: durations and socket options.
- The transfer governor's ceilings and its generation stamps; its rate estimate is over real numbers.
- The channel server's restart with an empty replay window, and its idle backoff: the window starts empty once.
- Name resolution, sharing, enrolment, the broker, configuration and output: straight-line requests or single checks.
- The web client and the WebAssembly wrapper of the cryptography.
