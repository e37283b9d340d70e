# Verified models of onpar

Dafny models of the parts of onpar whose correctness depends on more than one function at a time,
with proofs of what they keep, over all inputs, all runs or all interleavings. `dafny verify dfyconfig.toml`
checks everything. The modules, by component:

- **Event streams** (`Framing`, `SsePayload`, `SseLines`, `Utf8`, `SseDecoder`, `SseResync`,
  `SseRoundTrip`): the gateway's bounded incremental
  decoder, compared with an unbounded framing of the whole byte stream, for every stream and every chunking.
- **Metering and the tee** (`Metering`, `Tee`): what a stream of events says about its cost, and the streamed
  response that forwards bytes, meters them and writes one record.
- **Migration control** (`Routing`, `Control`, `Startup`): the routing table, the two-step control handler in
  any interleaving with others, the audit log, and the tables a command line can start from.
- **Atomic updates** (`FileSystem`, `AtomicIo`, `AtomicUpdates`, `UpdateJson`): any number of processes running
  `update_json` over a file system with volatile and durable state, with failing calls, killed processes,
  a failing lock and power loss at any step.
- **Arrival of a box** (`Pack`, `VllmPlanner`): when a plan may be used unchanged, the ladder of smaller workloads
  over an arbitrary planner, and the vLLM planner, which meets the ladder's hypothesis.
- **Cache eviction** (`Sorting`, `Eviction`): the least-recently-used plan with pins, and the guarded deletion.
- **Sizing** (`Catalog`, `FitSolver`, `Placement`, `SizingAgreement`): memory and throughput of one model on one machine, the two inverse
  bounds, the choice of quantisation, both rankings, and the agreement of the two sizing solvers.
- **References** (`Text`, `ModelReference`): parsing and printing model references, and the cache key's preimage.
- **The guard** (`TrafficMix`, `Guard`): the distance between traffic mixes and the findings a check reports.

`Wrappers` and `Arithmetic` hold options, 64-bit words and powers of two.

Code that changes state in steps is modelled by classes and methods with loops, each proved against a
specification function or predicate; the lemmas are about those specifications. `Sorting.Sort` stands for the
library's stable sort: `StableOrderIsUnique` shows that any ordered and stable arrangement is the same one.

## Where the code and its own documentation differ

The models follow the code. Each point has a lemma with a concrete case or an exact condition.

- A ledger of small requests can come to less than one big one (`onpar-gateway/src/meter.rs:33-36`), exactly
  when leftover parts of a micro-dollar make a whole one: `Metering.CostsAddUpInRange`,
  `Metering.SmallRequestsCanReadAsFree`; with counts that leave 64 bits it can come to more:
  `Metering.CostsAddUpExactly`.
- The dropped-frames counter counts discards, so one growing frame can be counted more than once
  (`onpar-gateway/src/sse.rs:58`); the count is right exactly when no push discards while the decoder is
  resynchronising without completing a frame: `SseResync.CounterIsExactly`, `SseResync.OneFrameCanCountTwice`.
- The cap is off by one for a frame and its terminator: a frame is safe under every chunking exactly up to
  `MAX_FRAME_BYTES + 1` bytes on the wire: `SseResync.SafeUnderEveryChunking`.
- A request on the incumbent has a fallback if both backends go by one name (`onpar-gateway/src/router.rs:122-124`):
  `Routing.IncumbentHasNoFallbackExactly`.
- With overlapping handlers the audit log is not in the order changes were applied
  (`onpar-gateway/src/proxy.rs:202`), and it can go wrong exactly when two different changes wait to be
  recorded: `Control.LogStaysInOrderExactly`, `Control.OverlapCanReorderTheLog`.
- Two threads that share one path object pick the same scratch name (`src/onpar/atomicio.py:36-41`). Without the
  lock that can publish a torn file, and nothing else can: `AtomicUpdates.AtomicExactlyWhenPathsAreNotShared`,
  `AtomicUpdates.SharedScratchTears`.
- `update_json` can answer false although the document was published, exactly when closing the directory
  handle fails (`src/onpar/atomicio.py:163`): `AtomicUpdates.AnswerMeansPublished`.
- An I/O error while reading an existing document replaces it by what the call makes of its default, lock or
  no lock, and the call still answers true (`src/onpar/atomicio.py:166-168`). No update is skipped in any run
  exactly when neither locking nor reading can fail: `AtomicUpdates.UnreadUpdateIsLost`,
  `AtomicUpdates.UpdatesKeptExactly`.
- Asked for less than 2048 tokens, the ladder can hand back more context than was asked for
  (`onpar-core/src/pack.rs:295`): `Pack.NeverMoreThanAskedExactly`.
- An overflowed requirement does not refuse on a machine that reports the largest 64-bit memory size
  (`onpar-core/src/runtime/vllm.rs:33-34`): `VllmPlanner.FitsTruthfullyExactly`.
- The deletion guard accepts a directory called just `models` (`src/onpar/cache.py:28-31`):
  `Eviction.RepoNameExactly`, `Eviction.BareKindPasses`.
- A spread goes undisclosed exactly for a batch of a model with at least 95 and less than 100 percent of its
  parameters active (`src/onpar/fit.py:113-117`): `FitSolver.SpreadIsHiddenExactly`, `FitSolver.HiddenSpread`;
  `FitSolver.DisclosureIsTheSpread` bounds what that hides.
- References with a NUL in a field can share a key (`onpar-core/src/model_ref.rs:86-87`); keys are apart for
  all references over a set of characters exactly when NUL is not among them: `ModelReference.KeysApartExactly`,
  `ModelReference.NulConfusesKeys`.
- A receipt that scored no volume never reports that traffic moved (`src/onpar/guard.py:200-211`):
  `Guard.BothFindingsExactly`, `Guard.ScoredAtNothingNeverMoves`.

## Model

| member | source | states |
|---|---|---|
| Framing.FindFrameEnd | onpar-gateway/src/sse.rs:118-139 | the scan returns the first terminator, two or three bytes long, and nothing exactly when none is complete |
| Framing.FirstEndStable | onpar-gateway/src/sse.rs:118-139 | the end of the first frame does not move when bytes are appended |
| Framing.SplitAppend | onpar-gateway/src/sse.rs:75-91 | framing a stream in two parts, with the remainder carried over, is framing it at once |
| Framing.FramesLossless | onpar-gateway/src/sse.rs:79-91 | the frames and the remainder are, byte for byte, the stream, and no terminator is left in the remainder |
| Framing.FramesWellCut | onpar-gateway/src/sse.rs:118-139 | each frame is cut at its own first terminator |
| Framing.FramesUnique | onpar-gateway/src/sse.rs:118-139 | and that is the only way to cut the stream so |
| Framing.TerminatorsExactly | onpar-gateway/src/sse.rs:118-139 | a frame ends in two line feeds or in line feed, carriage return, line feed, and both do end one |
| Framing.TailFramesAgree | onpar-gateway/src/sse.rs:43-45 | two bytes kept across a discard are enough: every later frame comes out as it would have |
| Framing.OneTailByteIsNotEnough | onpar-gateway/src/sse.rs:43-45 | with one byte kept, a terminator is missed |
| SsePayload.ParseFrame | onpar-gateway/src/sse.rs:141-164 | the line loop yields the data values joined by line feeds, less leading empty ones; none for text that is not UTF-8 or empty |
| SseLines.LineMeans | onpar-gateway/src/sse.rs:145-155 | a data line has its value with or without the space and a carriage return; no other line has one |
| SseLines.LinesAmountTo | onpar-gateway/src/sse.rs:141-159 | for data lines and other lines in any order the payload is the data values joined by line feeds, less the leading empty ones |
| SseLines.BodyAsLines | onpar-gateway/src/sse.rs:144-144 | every body is such lines |
| SseLines.JoinedFallApart | onpar-gateway/src/sse.rs:149-155 | joined values come apart into the same values |
| SseLines.SpaceIsOptional | onpar-gateway/src/sse.rs:150-154 | the space after the field name may be left out |
| Utf8.ValidExactly | onpar-gateway/src/sse.rs:142-142 | bytes are accepted exactly when they are the encoding of some text |
| Utf8.SpaceExactly | onpar-gateway/src/sse.rs:160-160 | white space in bytes is white space in text |
| Utf8.DoneExactly | onpar-gateway/src/sse.rs:160-162 | a payload is the end mark exactly when it reads so, white space around it aside |
| Utf8.AnnouncesExactly | onpar-gateway/src/sse.rs:141-164 | a frame that is not text or has no payload announces nothing, the mark the end, and anything else its payload |
| SsePayload.EncodedEvent | onpar-gateway/src/sse.rs:170-175 | the body written for an event is read back as that event |
| SsePayload.RoundTripExactly | onpar-gateway/src/sse.rs:170-175 | a payload survives encoding and decoding exactly when it is non-empty, holds no line feed, does not end in CR and is not the end mark |
| SsePayload.LineFeedNeverSurvives | onpar-gateway/src/sse.rs:170-175 | whatever is read back from the encoding of a payload with a line feed, that payload is not among it |
| SseDecoder.Decoder.Push | onpar-gateway/src/sse.rs:75-108 | from any state, the new state and the events are those of framing everything held and received, less the frame being resynchronised on, then capped |
| SseDecoder.Decoder.EnforceCap | onpar-gateway/src/sse.rs:93-106 | a partial frame past the cap is cut to its last two bytes, counted and marked, otherwise nothing changes |
| SseDecoder.Decoder.TakeFrame | onpar-gateway/src/sse.rs:80-90 | one frame leaves the buffer; it is swallowed exactly while resynchronising |
| SseDecoder.Decoder.Pending | onpar-gateway/src/sse.rs:53-56 | the number of bytes held |
| SseResync.ResyncIsExact | onpar-gateway/src/sse.rs:75-108 | for any stream and chunking, the frames let through are those of the unbounded framing, in order, less those outgrown at a chunk boundary |
| SseResync.EventsAreExact | onpar-gateway/src/sse.rs:75-108 | the events returned over a run are those frames' events |
| SseResync.LostExactly | onpar-gateway/src/sse.rs:93-100 | a frame is lost exactly when at some boundary it is in progress and longer than the cap |
| SseResync.DiscardsAccounted | onpar-gateway/src/sse.rs:96-100 | over any run the discards are one for each lost frame and one for each repeat on a frame already lost |
| SseResync.CounterIsLossesAndRepeats | onpar-gateway/src/sse.rs:58-64 | the counter is the lost frames plus the repeats, saturated |
| SseResync.CounterIsExactly | onpar-gateway/src/sse.rs:58-64 | until it saturates the counter is never too low, and right exactly when no push discards while resynchronising without completing a frame |
| SseResync.OneFrameCanCountTwice | onpar-gateway/src/sse.rs:58-64 | one frame that outgrows the cap again after a discard is counted again |
| SseResync.PendingWithinCap | onpar-gateway/src/sse.rs:34-41 | after any pushes at most the cap is held |
| SseResync.DiscardKeepsTwo | onpar-gateway/src/sse.rs:96-99 | a discard keeps the last two bytes and starts resynchronising |
| SseResync.FittingFrameSurvives | onpar-gateway/src/sse.rs:75-108 | a frame that fits is never lost, even right after an oversized one |
| SseResync.SafeUnderEveryChunking | onpar-gateway/src/sse.rs:96-100 | a frame is safe under every chunking if and only if its bytes number at most the cap plus one |
| SseResync.PushInTwo | onpar-gateway/src/sse.rs:75-108 | from any state, pushing a then b is pushing a and b together, state and frames, unless the first push discards |
| SseResync.ChunkIndependence | onpar-gateway/src/sse.rs:75-108 | and the same events come out |
| SseResync.DeliverAndDecode | onpar-gateway/src/sse.rs:75-175 | any list of encodable events that fit, delivered in any chunking, is read back exactly, with nothing pending or lost |
| SseRoundTrip.ListRoundTripsExactly | onpar-gateway/src/sse.rs:75-175 | a list of events, written out, is read back as it was exactly when each payload would be by itself |
| SseRoundTrip.ReadLinesAreShorter | onpar-gateway/src/sse.rs:141-175 | every payload with a line feed that is read back comes from a longer one that was written |
| Metering.Meter.Observe | onpar-gateway/src/meter.rs:95-110 | the fields stay what the events seen so far amount to |
| Metering.Meter.Snapshot | onpar-gateway/src/meter.rs:125-132 | the last complete usage if there is one, otherwise the number of content deltas |
| Metering.UsageExactly | onpar-gateway/src/meter.rs:144-155 | a usage is found exactly where the payload holds both counts as unsigned numbers, each under its own name |
| Metering.DeltaExactly | onpar-gateway/src/meter.rs:158-168 | an event is a content delta exactly where some choice carries a non-empty text |
| Metering.DeltasAreCounted | onpar-gateway/src/meter.rs:107-109 | each such event counts once |
| Metering.VerdictUnique | onpar-gateway/src/meter.rs:121-132 | a stream has only one verdict |
| Metering.CostsAddUpExactly | onpar-gateway/src/meter.rs:37-47 | for any list of requests, the ledger and the cost of one request with all the tokens differ by exactly the whole micro-dollars carried among the remainders of each kind and those cut off by the 64-bit cap |
| Metering.CostsAddUpInRange | onpar-gateway/src/meter.rs:37-47 | in the 64-bit range the ledger is never above that request and equals it exactly when neither kind's remainders make a whole micro-dollar |
| Metering.SmallRequestsCanReadAsFree | onpar-gateway/src/meter.rs:33-47 | two one-token requests can cost nothing where one of two tokens costs something |
| Tee.AppState.Write | onpar-gateway/src/proxy.rs:152-167 | the records kept are the newest of all ever written, up to the cap |
| Tee.StreamedResponse.Next | onpar-gateway/src/proxy.rs:591-623 | a chunk reaches the client unchanged and the decoder and meter see it; an error is passed on |
| Tee.ForwardedVerbatim | onpar-gateway/src/proxy.rs:591-623 | the client's bytes are the upstream's, unaltered and in order, with a failure exactly where the upstream failed |
| Tee.StreamedResponse.Finish | onpar-gateway/src/proxy.rs:673-680 | the record is written once, with the verdict on everything polled |
| Tee.StreamedResponse.Stream | onpar-gateway/src/proxy.rs:625-642 | however early the client leaves, it got exactly what was polled and one record was written |
| Tee.MeteringIgnoresChunking | onpar-gateway/src/proxy.rs:591-623 | the same bytes are metered alike wherever the chunks were cut, when every frame fits |
| Routing.WithPhase | onpar-gateway/src/router.rs:157-171 | a change reaches its target and the clusters inheriting it, and nothing else |
| Routing.Router.SetPhase | onpar-gateway/src/router.rs:162-171 | the table becomes that one, and the phase replaced is returned |
| Routing.Router.WithCluster | onpar-gateway/src/router.rs:152-155 | only that cluster's route changes |
| Routing.ComputeBucket | onpar-gateway/src/router.rs:277-286 | the loop computes FNV-1a with wrapping 64-bit multiplication, folded, below 100 |
| Routing.KnownHashes | onpar-gateway/src/router.rs:277-282 | the published FNV-1a values for no input, "a" and "b" |
| Routing.HalvesCountAlike | onpar-gateway/src/router.rs:283-285 | exchanging the halves of the hash changes no bucket, and each half counts |
| Routing.XorUndoes | onpar-gateway/src/router.rs:280-284 | exclusive or undoes itself |
| Routing.FnvIsAWord | onpar-gateway/src/router.rs:277-282 | the hash fits in 64 bits at every step |
| Routing.RoutingIsOneThreshold | onpar-gateway/src/router.rs:201-269 | in every phase the candidate serves exactly below the share; only the incumbent's requests are mirrored; any fallback is the incumbent |
| Routing.PhasesServe | onpar-gateway/src/router.rs:204-242 | who serves and who is mirrored in each phase; a split sends a cluster to the side it names |
| Routing.RolloutLosesNoComparison | onpar-gateway/src/router.rs:206-240 | in shadow and canary a request is served by the candidate or mirrored to it |
| Routing.RaisingKeepsKeys | onpar-gateway/src/router.rs:227-241 | a higher share takes no key off the candidate |
| Routing.IncumbentHasNoFallbackExactly | onpar-gateway/src/router.rs:257-261 | a request on the incumbent has no fallback exactly unless failover is on and the names coincide |
| Routing.SameNameFallsBackToItself | onpar-gateway/src/router.rs:257-261 | such a fallback, concretely |
| Control.Gateway.ApplyLocked | onpar-gateway/src/control.rs:187-215 | the locked part answers from the table it finds and leaves the table its answer says |
| Control.Gateway.SetPhase | onpar-gateway/src/control.rs:182-242 | and, undisturbed, appends exactly the applied change |
| Control.UnconfirmedNeverRaises | onpar-gateway/src/control.rs:194-214 | no unconfirmed change raises any cluster's share, inherited or overridden |
| Control.AcceptedExactly | onpar-gateway/src/control.rs:187-212 | a change is accepted exactly when authorised, given a reason, and confirmed or raising no cluster's share |
| Control.RefusedExactly | onpar-gateway/src/control.rs:187-212 | which refusal is given, and the shares it names |
| Control.EnteredAsAsked | onpar-gateway/src/control.rs:214-229 | an accepted change is entered as asked for, with the phase it found, and is in force |
| Control.EveryRaiseWasConfirmed | onpar-gateway/src/control.rs:194-214 | in every interleaving a share above its start was granted by a confirmed escalation to it |
| Control.BackendsNeverChange | onpar-gateway/src/control.rs:214-214 | no run changes a cluster's backends or failover |
| Control.NothingMovesUnconfirmed | onpar-gateway/src/control.rs:194-214 | from a quiet start without confirmed changes every request is served by the incumbent with no fallback |
| Control.AuditConserved | onpar-gateway/src/control.rs:196-240 | recorded plus pending changes are the applied ones; replaying them gives the table; each names the phase it replaced and escalates only if confirmed |
| Control.LoggedEscalationsConfirmed | onpar-gateway/src/control.rs:200-240 | every logged escalation was confirmed |
| Control.LogStaysInOrderExactly | onpar-gateway/src/control.rs:214-240 | while the log has followed the lock order, every next record keeps it so exactly if no two different changes are pending |
| Control.LogInLockOrderWhileAlike | onpar-gateway/src/control.rs:214-240 | a run in which no two different changes ever waited has its log in lock order |
| Control.SerialLogInLockOrder | onpar-gateway/src/control.rs:214-240 | when handlers do not overlap the log is the lock order |
| Control.OverlapCanReorderTheLog | onpar-gateway/src/control.rs:214-240 | when they do, the last entry can contradict the table in force |
| Startup.ParseFrom | onpar-gateway/src/main.rs:69-131 | the outcome is the one the command line means |
| Startup.OutcomeExactly | onpar-gateway/src/main.rs:69-131 | a process starts exactly with each setting the last value given for its flag; it is refused exactly for an unknown flag, a missing or out-of-range value, no upstream or a percentage |
| Startup.NumbersRead | onpar-gateway/src/main.rs:95-104 | a number is read as itself up to the limit and refused above it, with or without a plus sign or zeros ahead |
| Startup.OnlyDigitsRead | onpar-gateway/src/main.rs:95-104 | nothing but digits after an optional plus sign reads as a number |
| Startup.PhaseServesThePercent | onpar-gateway/src/main.rs:138-145 | the phase for a percentage serves that percentage |
| Startup.PhaseComparesExactly | onpar-gateway/src/main.rs:138-145 | with a candidate its bucket share is served and the rest is compared; without one neither |
| Startup.CandidateIsMirroredFromTheStart | onpar-gateway/src/main.rs:166-184 | every request of a started process is mirrored to the candidate named, as named, and to nobody if none was |
| Startup.StartupIsQuiet | onpar-gateway/src/main.rs:108-130 | no command line starts a process that serves anything from the candidate |
| Startup.UpstreamAnswersUntilConfirmed | onpar-gateway/src/main.rs:166-184 | from any command line, until a confirmed change is applied, the named upstream answers every request |
| FileSystem.ReplacePublishes | src/onpar/atomicio.py:143-143 | renaming a synced scratch file shows its content to readers and leaves what a crash recovers |
| FileSystem.CrashRecovers | src/onpar/atomicio.py:124-128 | after power loss readers find what was durable, whatever the device had of unsynced files |
| FileSystem.UnsyncedIsAnything | src/onpar/atomicio.py:124-128 | a crash may leave anything of a file that was not synced |
| FileSystem.RenameBeforeSyncTears | src/onpar/atomicio.py:124-128 | without the sync before the rename a crash can publish a torn file |
| AtomicIo.PrivateRun | src/onpar/atomicio.py:35-42 | at no point do two writers share a scratch file if names are unique, or if the lock never fails |
| AtomicIo.AllLockedRun | src/onpar/atomicio.py:45-94 | while the lock never fails at most one call is under way |
| AtomicIo.LockIsGivenBack | src/onpar/atomicio.py:89-94 | in every run the lock is held by nobody but a call under way that took it |
| AtomicIo.AtomicRun | src/onpar/atomicio.py:118-147 | the disk invariant holds at every step of every run in which no two calls were writing to one scratch name at once |
| AtomicIo.ReadersAndRecoveryFindWholeDocuments | src/onpar/atomicio.py:118-147 | locked or not, at every step of such a run readers find the earlier content or one whole published document, and so does recovery from a crash; calls that follow one another may reuse a name |
| AtomicUpdates.NoUpdateIsLost | src/onpar/atomicio.py:155-183 | with the lock, the target is the surviving mutations folded in commit order, starting over at each call that could not read, through failures, kills and crashes |
| AtomicUpdates.EveryRenameSurvives | src/onpar/atomicio.py:155-183 | short of a crash or a failing read every rename is in that fold, in order |
| AtomicUpdates.AnswerMeansPublished | src/onpar/atomicio.py:163-183 | true means published once; false means not, except exactly when closing the directory handle failed after the rename; an exception means not, except exactly when an interrupt came after the rename |
| AtomicUpdates.FlushedCallsSurviveCrashes | src/onpar/atomicio.py:97-115 | once the directory is flushed a commit survives every later crash |
| AtomicUpdates.UnlockedUpdateIsLost | src/onpar/atomicio.py:58-66 | without the lock an update is lost although both calls published |
| AtomicUpdates.UnreadUpdateIsLost | src/onpar/atomicio.py:174-181 | a locked call that cannot read the document replaces it by the mutation of its default, and publishes that |
| AtomicUpdates.UpdatesKeptExactly | src/onpar/atomicio.py:155-183 | for calls that do not all absorb one another, no run skips an update if and only if neither taking the lock nor reading the document can fail |
| AtomicUpdates.SharedScratchTears | src/onpar/atomicio.py:6-8 | with one scratch name for two calls a torn file is published |
| AtomicUpdates.AtomicExactlyWhenScratchIsPrivate | src/onpar/atomicio.py:35-42 | readers are safe in every run if and only if scratch names are unique |
| AtomicUpdates.AtomicExactlyWhenPathsAreNotShared | src/onpar/atomicio.py:36-42 | with names made of process and path object, they are safe if and only if no two calls of one process share a path object |
| UpdateJson.AtomicWrite | src/onpar/atomicio.py:118-147 | the target is replaced or left as it was, whichever call fails; the scratch file goes; other names stay |
| UpdateJson.Update | src/onpar/atomicio.py:174-183 | the target becomes the mutation of what was there, or of the default, and the answer says whether |
| UpdateJson.AloneItWritesTheSame | src/onpar/atomicio.py:155-183 | a call that runs alone in the many-process machine does to the disk what the statement-by-statement write does and gives its answer, whatever fails |
| Pack.Diff | onpar-core/src/pack.rs:75-94 | the list names exactly the true differences, each once |
| Pack.AcceptsExactly | onpar-core/src/pack.rs:63-72 | a host is accepted exactly when the only possible difference is more memory |
| Pack.ChangesRebuildTheHost | onpar-core/src/pack.rs:74-94 | the changes listed turn the packed class into the one here, and told from here they are the way back |
| Pack.PlanDiff | onpar-core/src/pack.rs:414-449 | the list names exactly the differences between two plans |
| Pack.SilentExactly | onpar-core/src/pack.rs:414-449 | nothing is named exactly when the plans agree on all but the speculation settings |
| Pack.PlanChangesTellTheWay | onpar-core/src/pack.rs:413-449 | each change is true of the new plan and not of the old, and reversed the other way around |
| Pack.ResolveHere | onpar-core/src/pack.rs:300-362 | the two loops return the plan and concessions of the first acceptable rung of the whole ladder, or nothing if all are refused |
| Pack.LowerContext | onpar-core/src/pack.rs:312-332 | the first loop serves the first rung of context accepted, or has tried them all |
| Pack.LowerConcurrency | onpar-core/src/pack.rs:335-361 | the second loop serves the first rung of concurrency accepted at the floor context, or all were refused |
| Pack.RungsHalve | onpar-core/src/pack.rs:313-318 | each rung is lower than the one above it and at least half of it, never below the floor |
| Pack.RungsReachFloor | onpar-core/src/pack.rs:313-318 | the last rung is the floor exactly |
| Pack.CallsAreLogarithmic | onpar-core/src/pack.rs:306-360 | planner calls are one plus logarithmically many in context over 2048 and in concurrency |
| Pack.NearOptimal | onpar-core/src/pack.rs:310-360 | for a downward-closed planner the context kept is at least half of every feasible one; else none is feasible at full concurrency and the concurrency kept is at least half of every feasible one |
| Pack.RefusedExactlyAtTheFloor | onpar-core/src/pack.rs:289-361 | the ladder gives up exactly when 2048 tokens for one user cannot be served |
| Pack.GivenUpIsAdmitted | onpar-core/src/pack.rs:296-357 | a concession is listed exactly when it was made, save a context one that is also listed when the floor was asked for and concurrency given up |
| Pack.NeverMoreThanAskedExactly | onpar-core/src/pack.rs:334-345 | more context than asked comes back exactly when less than the floor was asked, refused, for several users, and the floor fits one |
| Pack.OnArrival | onpar-core/src/pack.rs:367-411 | as packed exactly when accepted; otherwise the first supporting runtime whose ladder succeeds, all earlier refusals accounted for, or every refusal |
| Pack.ResolvedNamesADifference | onpar-core/src/pack.rs:259-260 | a re-solve always names a difference other than more memory |
| Pack.UnsupportedExactly | onpar-core/src/pack.rs:379-410 | all refuse exactly when no supporting runtime can serve the floor |
| VllmPlanner.ChooseQuant | onpar-core/src/runtime/vllm.rs:106-113 | the loop finds the first quantisation of the list that fits |
| VllmPlanner.HighestPrecisionThatFits | onpar-core/src/runtime/vllm.rs:106-113 | it fits, none of higher precision does, and nothing is chosen only if nothing fits |
| VllmPlanner.RequiredIsSaturatedTruth | onpar-core/src/runtime/vllm.rs:31-46 | the step-by-step saturating sum is the exact requirement, saturated once |
| VllmPlanner.FitsTruthfullyExactly | onpar-core/src/runtime/vllm.rs:33-46 | saturation never makes an oversized model fit, exactly on machines below the largest 64-bit size |
| VllmPlanner.PlansExactly | onpar-core/src/runtime/vllm.rs:84-122 | a plan exists exactly when the machine is not Apple and the smallest quantisation fits |
| VllmPlanner.EngineIsDownward | onpar-core/src/runtime/vllm.rs:84-122 | whoever can be served can be served less |
| VllmPlanner.TurnedAwayExactly | onpar-core/src/runtime/vllm.rs:54-122 | a box is turned away exactly when the floor does not truly fit at 4 bits or there is no backend |
| VllmPlanner.PlanShape | onpar-core/src/runtime/vllm.rs:164-175 | label and bits belong together, the length is the request's or the model's, whichever is less, users and devices are the ones given, at least one |
| VllmPlanner.DraftsShrinkWithUsers | onpar-core/src/runtime/mod.rs:78-95 | speculation is on up to 32 users, with shorter drafts above four |
| VllmPlanner.TurnedAwayBeforeSizing | onpar-core/src/runtime/vllm.rs:54-82 | a machine is turned away before sizing exactly without a backend or when not even the smallest weights fit an accelerator |
| VllmPlanner.SilenceMeansSamePlan | onpar-core/src/pack.rs:414-449 | between two plans of this engine nothing is reported exactly when they are the same |
| Sorting.SortPermutes | src/onpar/cache.py:330-330 | sorting keeps the contents |
| Sorting.SortIsStable | src/onpar/fit.py:290-290 | elements of equal rank keep their order |
| Sorting.StableOrderIsUnique | src/onpar/fit.py:343-343 | ordered and stable is one arrangement only |
| Eviction.PlanEviction | src/onpar/cache.py:308-337 | victims are the shortest prefix of the unpinned, oldest first, that reaches the budget; with any victim fewer the cache is over it; a negative budget is refused |
| Eviction.PinnedExactly | src/onpar/cache.py:324-325 | an entry is pinned exactly when its name is a pin, up to case folding |
| Eviction.VictimsAreOldestUnpinned | src/onpar/cache.py:330-334 | no victim is pinned and no unpinned survivor was used before a victim |
| Eviction.BytesConserved | src/onpar/cache.py:263-269 | freed and remaining bytes add up, and what remains is the pins and the untaken candidates |
| Eviction.ShortExactly | src/onpar/cache.py:271-278 | the plan is short exactly when the pins exceed the budget, by exactly that, and then takes everything unpinned |
| Eviction.SmallerBudgetExtends | src/onpar/cache.py:330-334 | a smaller budget extends the victims |
| Eviction.ReplanningIsIdle | src/onpar/cache.py:308-337 | planning again over the survivors, however listed, evicts nothing |
| Eviction.RepoNameExactly | src/onpar/cache.py:126-135 | a name passes exactly when it is a kind and "--" and anything, or a bare kind |
| Eviction.BareKindPasses | src/onpar/cache.py:367-368 | "models" alone passes |
| Eviction.GuardedExactly | src/onpar/cache.py:357-368 | a target passes exactly when it leads one step below where the root leads, to a passing name |
| Eviction.CheckAll | src/onpar/cache.py:393-394 | passes exactly when every target does, else names the first refusal and why |
| Eviction.RemoveAll | src/onpar/cache.py:396-407 | a victim goes exactly if it is no link, its tree is there and the file system agrees; each is reported once, in order; the removed are summed; no other tree is touched |
| Eviction.ApplyEviction | src/onpar/cache.py:371-407 | deletes nothing unless confirmed and every target passed the guard first |
| Eviction.FreedPlusFailed | src/onpar/cache.py:399-407 | planned bytes are the freed ones and those of the failures |
| Eviction.OnlyRepositoriesTouched | src/onpar/cache.py:357-368 | whatever changed on disk was a repository directory directly under the root |
| Eviction.PinnedIsNeverTouched | src/onpar/cache.py:315-317 | planning and then applying leaves every pinned tree as it was |
| Catalog.WeightsGrowWithBits | src/onpar/catalog.py:49-51 | more bits never make a model smaller |
| Catalog.KvIsPositive | src/onpar/catalog.py:53-64 | what loading the catalogue checks is enough for a positive cache size, so no bound divides by zero |
| Catalog.KvPerHeadDimensionAndLayer | src/onpar/catalog.py:53-64 | the cache holds keys and values, two bytes each, per head, dimension and layer |
| Catalog.LatentIsSmallerByItsRank | src/onpar/catalog.py:53-64 | a latent cache is to the full one as the rank to all heads' keys and values |
| Catalog.BytesPerBillion | src/onpar/catalog.py:14-51 | what a billion parameters weigh at each precision |
| FitSolver.ContextBoundIsExact | src/onpar/fit.py:258-269 | a context is within the bound exactly when the model allows it and it is feasible |
| FitSolver.ConcurrencyBoundIsExact | src/onpar/fit.py:272-278 | a batch is within the bound exactly when it is feasible |
| FitSolver.BoundsAreAdjoint | src/onpar/fit.py:258-278 | the two bounds form a Galois connection |
| FitSolver.BoundsAreTight | src/onpar/fit.py:258-278 | each bound fits and one more does not |
| FitSolver.FittingIsDownward | src/onpar/fit.py:208-232 | what fits also fits with fewer bits, less context, fewer users |
| FitSolver.LimitsClamp | src/onpar/fit.py:264-278 | below one, a batch or context counts as one in both bounds |
| FitSolver.SizingRefusesExactly | src/onpar/fit.py:227-230 | which values sizing refuses, the batch first |
| FitSolver.StreamUsesItsBandwidth | src/onpar/fit.py:249-252 | a stream's rate times what it reads per token is 72 percent of peak bandwidth |
| SizingAgreement.WeightsAgree | onpar-core/src/spec.rs:136-147 | both solvers weigh a model alike, up to the 64-bit cap |
| SizingAgreement.TotalsAgree | onpar-core/src/runtime/vllm.rs:31-46 | both come to the same total, overhead included |
| SizingAgreement.FeasibilityAgrees | onpar-core/src/runtime/vllm.rs:106-113 | both find the same workloads feasible at every precision on every machine below the largest 64-bit size |
| FitSolver.AggregateIsTheRate | src/onpar/fit.py:64-108 | the aggregate and single-stream figures are one rate, at the batch and at one |
| FitSolver.ThroughputShape | src/onpar/fit.py:79-84 | at batch one the aggregate is the single-stream figure; it strictly grows, below bandwidth over one cache |
| FitSolver.TrueRateBand | src/onpar/fit.py:90-100 | however many experts a batch touches, the true rate is between the aggregate over the spread and the aggregate |
| FitSolver.SpreadIsHiddenExactly | src/onpar/fit.py:123-128 | a spread above one goes undisclosed exactly for a batch of a model with at least 95 percent but not all of its parameters active |
| FitSolver.HiddenSpread | src/onpar/fit.py:110-128 | such a fit, concretely |
| FitSolver.DisclosureIsTheSpread | src/onpar/fit.py:110-128 | what is disclosed is that spread, and when nothing is, it is at most 1/0.95 |
| Placement.BestQuant | src/onpar/fit.py:293-299 | the loop returns the first feasible quant in order of preference, or nothing if none is, or the solver's refusal |
| Placement.HighestThatFits | src/onpar/fit.py:281-299 | it has the most bits of those that fit, at most 8 unless nothing at 8 or below is published |
| Placement.NoneExactly | src/onpar/fit.py:293-319 | nothing is chosen exactly when the smallest quant does not fit |
| Placement.ShortfallIsReal | src/onpar/fit.py:318-340 | a rejection rests on a positive shortfall of weights alone or of everything |
| Placement.Judge | src/onpar/fit.py:313-341 | one model on one machine gets its best fit, or a real shortfall exactly when its smallest quant does not fit |
| Placement.Rank | src/onpar/fit.py:302-344 | every model of the catalogue is in one list once, with its best fit or a real shortfall; fits are ordered by size, equal sizes and rejections as in the catalogue |
| Placement.NoModelInBoth | src/onpar/fit.py:302-344 | no model is both ranked and rejected |
| Placement.Where | src/onpar/fit.py:432-472 | every machine is listed with the best fit or a real shortfall, in the stable order of the three keys |
| Placement.CapableAndCheapestFirst | src/onpar/fit.py:464-471 | machines that can serve come first, then by known price, then the faster |
| ModelReference.ParsedIsWellFormed | onpar-core/src/model_ref.rs:123-179 | what parsing can produce: separators, blanks, slashes and labels all in order |
| ModelReference.ParsesExactly | onpar-core/src/model_ref.rs:123-179 | a text is cut at its first '#' and '@' and judged by its parts and the source it names; every refusal is told apart |
| ModelReference.EveryTextIsCut | onpar-core/src/model_ref.rs:132-153 | every text has such parts |
| ModelReference.SourceExactly | onpar-core/src/model_ref.rs:155-163 | which source a text names, by its scheme or as it stands |
| ModelReference.BareIsHuggingFace | onpar-core/src/model_ref.rs:119-163 | a text without one of the four schemes means what it means with `hf:` ahead, refusals included |
| ModelReference.CanonIsCanonical | onpar-core/src/model_ref.rs:108-112 | a canonical label is its own, without upper case, hyphens or outer blanks |
| Text.TrimExactly | onpar-core/src/model_ref.rs:124-124 | trimming takes off exactly the white space around a text |
| ModelReference.RoundTrip | onpar-core/src/model_ref.rs:182-194 | for every text that parses, printing and parsing again gives the same reference |
| ModelReference.RoundTripExactly | onpar-core/src/model_ref.rs:114-194 | a reference survives the round trip exactly when some text denotes it |
| ModelReference.PrintedApart | onpar-core/src/model_ref.rs:182-194 | different references print differently |
| ModelReference.CanonIdentifiesExactly | onpar-core/src/model_ref.rs:108-112 | labels are one exactly when they differ only in ASCII case, hyphen or underscore, and outer blanks |
| ModelReference.PreimageIsInjective | onpar-core/src/model_ref.rs:86-97 | a NUL-free reference shares its key's preimage with no other reference |
| ModelReference.PreimagesSpelledOut | onpar-core/src/model_ref.rs:88-97 | scheme, locator, label and revision in this order |
| ModelReference.KeysApartExactly | onpar-core/src/model_ref.rs:86-97 | all references over a set of characters have different preimages exactly when NUL is not in the set |
| ModelReference.NulConfusesKeys | onpar-core/src/model_ref.rs:86-97 | with a NUL two references share one |
| TrafficMix.TrafficDistance | src/onpar/guard.py:197-212 | half the summed differences of normalised shares, zero if either side has no volume |
| TrafficMix.DistanceIsAShare | src/onpar/guard.py:198-198 | between zero and one |
| TrafficMix.DistanceIsSymmetric | src/onpar/guard.py:197-212 | symmetric |
| TrafficMix.TriangleInequality | src/onpar/guard.py:197-212 | the triangle inequality |
| TrafficMix.ZeroExactly | src/onpar/guard.py:197-212 | zero exactly when every share agrees |
| TrafficMix.ScaleInvariant | src/onpar/guard.py:204-206 | the sizes of the samples do not matter |
| TrafficMix.NoGroupGainedMore | src/onpar/guard.py:200-202 | no group of task shapes gained more than the distance |
| TrafficMix.SomeGroupGainedIt | src/onpar/guard.py:200-202 | some group gained exactly that |
| Guard.Check | src/onpar/guard.py:215-336 | the findings reported are exactly those that are due, each once, kinds in their order, candidates by name |
| Guard.CheckTraffic | src/onpar/guard.py:276-308 | the traffic findings due, uncovered before moved |
| Guard.HoldsExactly | src/onpar/guard.py:145-148 | a receipt holds exactly when no compared model changed and traffic is within both limits |
| Guard.ScoredIsTheLastEntry | src/onpar/guard.py:277-277 | what was scored for a cluster is its last entry |
| Guard.UncoveredIsTheRest | src/onpar/guard.py:281-283 | the uncovered share is what the scored clusters leave of the whole |
| Guard.NamesByCodePoint | src/onpar/guard.py:326-326 | candidates are sorted by code point |
| Guard.UncoveredIsMoved | src/onpar/guard.py:279-298 | the distance is at least the uncovered share |
| Guard.BothFindingsExactly | src/onpar/guard.py:276-308 | an uncovered share above the drift limit fires both findings exactly when the receipt scored some volume |
| Guard.ScoredAtNothingNeverMoves | src/onpar/guard.py:208-211 | a receipt that scored no volume is never contradicted by traffic in its own clusters |

## Left out

- HTTP, sockets, token comparison, clocks and logging: whether a caller is authorised, elapsed time and the time of a change are parameters.
- JSON text: a document is an abstract value, its text whole or torn; parsing a payload is a parameter of the meter.
- The transcript and capture written beside the request record, and the per-chunk metering of mirrored responses.
- SHA-256 of the cache key: only the hashed text is modelled.
- Floating-point rounding: byte counts are exact integers, rates and shares are reals; the bounds of the fit solver divide exactly.
- Human-readable reasons: the structured fact is kept (which dimension changed, who refused, the shortfall in bytes).
- Licences, engine flag tables, hardware profiles, catalogue files, command-line tools, rendering: lookups and formatting.
- The unlocked pin and budget state of the cache: an unlocked read-modify-write, to which the no-lost-update theorem does not apply.
- Measuring and listing the cache directory, and other programs changing it between the guard and the deletion: entries, link resolution and the outcome of each removal are parameters.
- AtomicIo.AtomicRun: rename is one directory operation that reaches the device whole; a directory is flushed in one step; the read of the target is one step.
- UpdateJson.Update: one call without interrupts after its rename; the many-process machine has them.
- Tee.AppState.Write: the cap on retained records must not be zero, as removing the oldest of none is a fault in the code.
- Control.AuditConserved: routed requests read the table and change nothing, so they are not steps of their own; any state of a run may be routed on.
- Pack.NearOptimal: stated for requests of at least 2048 tokens; below that `Pack.NeverMoreThanAskedExactly` says what happens instead.
- VllmPlanner.EngineIsDownward: machines that report less than the largest 64-bit memory size; the cache bytes per token are a given number. The SGLang and llm-d planners size with this one and differ in which machines they support.
- Placement.Rank: the catalogue is a list of models that passed the loading checks.
- Guard.Check: changed models are reported in the map's iteration order, which is left open; the age in days is a parameter.
- TrafficMix.DistanceIsAShare: mixes without negative volume and with some volume; a mix with none is at distance zero from everything, as in the code.
