# rustX protocol kernels in Dafny

rustX is a durable agent runtime with a native App Server and thin clients. This project models the parts
of it whose correctness is a protocol or an exact computation, and proves what they promise:

- **Client log replication.** A client installs a checkpoint, subscribes, buffers records until its receipt
  arrives, applies only the next cursor and recovers on any gap. The server log, the transport and the client
  are one state machine; the transport may lose, duplicate and reorder. The batched child variant is beside it.
- **Session archive.** Barriers across live databases give one consistent cut, later read back while writers
  continue; the ZIP bytes travel through a bounded channel that tells completion from loss.
- **Goal authority.** A revisioned state machine written by concurrent owners under one publication lock,
  with its durable store.
- **Exact numbers.** The decimal reader, the exactness test and the 16-digit wire form of IEEE 754 binary64.
- **Bounded observation state.** The content cache and the identities it is keyed by, live content
  advancement, the 32-row head, tool slots, and repair observations.
- **Interval schedules.** Constant-time catch-up against the stepping loop, and runs of admissions.
- **Two checkers.** The strict reader of authored JSON parameters, and the CI lane checker.

One module models one component. Objects that the source updates in place are classes whose methods are
proved equal to a function on their state; the protocol theorems are about those functions, over every run.
`DraftMeaning`, `JsonMeaning` and `LaneRules` say what drafts, JSON texts and workflows mean without the
modelled code, and prove that the code answers accordingly. Loops of the source are loops here. Integers are unbounded, so widths appear explicitly where they matter.

Collaborators enter as parameters with a stated contract: `BigInt(text)` and the projection fold, the
interleaving of other threads and database writers, `fetch`, `atob`, JavaScript `Number(text)` (trusted for
its range and for integers binary64 holds), the JSON parser's own limits, serde's number and shortest float
printing, and libtest discovery. "Honest" predicates say what the server is trusted for: that records carry
its own log, chunks their own source, and reads a snapshot taken after they were received.

## Where a property fails, and exactly when it holds

- Buffered delivery is not always the same as late delivery. `acceptReceipt` replays its buffer in a loop, so
  a cursor that is not a number abandons the rest of the buffer, while the same records delivered one by one
  would not. `ObservationChain.BufferingIsTransparent` gives the exact condition and
  `ObservationChain.MalformedCursorLosesTheBuffer` an instance.
- A committed result and an execution settlement both write a tool slot's result metadata reference, although
  the two are described as independent. `ToolSlots.ResultMetadataInterference` says when they meet and
  `ToolSlots.SettlementReplacesCommittedMetadata` shows them meeting; `ToolSlots.LifecycleWritesMetadata` is the
  guard of the branch that writes.
- A loaded head is not always faithful to a placement at position 32 or beyond.
  `BoundedHead.PlaceIsFaithful` says exactly when it is, `BoundedHead.BeyondHeadIsLost` is an instance, and
  `BoundedHead.RunRefinesFull` carries the condition over runs.
- An archive frontier of zero stands for an empty table, so a later row keyed zero would be read as captured.
  `ArchiveCut.ReadsExactlyTheCut` says exactly when a read returns the cut and
  `ArchiveCut.ZeroKeyReadsAsCaptured` is an instance; the stores only use positive keys.
- The stream reads as end of file after an error too. Only the first verdict means success
  (`ArchiveStream.EndMeansWholeArchive`, `ArchiveStream.OneVerdict`; `ArchiveStream.EndFollowsError` is an instance).
- Cancelling does not always end the producer. A cancelled write answers `Interrupted`, which `write_all` retries,
  so a producer with bytes still to offer retries for ever (`ArchiveStream.CancelledWriteSpins`;
  `ArchiveStream.CancelledProducerIsTrapped` is an instance). `ArchiveStream.CancelledProducerExits` is the exact
  condition over every run and every later schedule, and `ArchiveStream.QuietProducerExits` bounds the exit.

## Model

| member | source | states |
|---|---|---|
| `ServerLog.PublishedStateIsFold` | protocol/app-server/observation.ts:43-102 | the published state at every position is the fold of the events before it, wherever the fold goes through |
| `ServerLog.FoldGoesThrough` | protocol/app-server/observation.ts:43-102 | and it goes through whenever each published event folds from the published state before it |
| `ObservationChain.ObservationChain.constructor` | protocol/app-server/observation.ts:43-48 | a new chain loads a checkpoint and holds nothing |
| `ObservationChain.ObservationChain.InstallCheckpoint` | protocol/app-server/observation.ts:50-58 | the whole new chain state as a function of the old; a checkpoint before the applied cursor or with a cursor that is no number is refused and changes nothing |
| `ObservationChain.ObservationChain.BeginCheckpointLoading` | protocol/app-server/observation.ts:59-64 | the whole new chain state |
| `ObservationChain.ObservationChain.BeginSubscription` | protocol/app-server/observation.ts:65-71 | the whole new chain state; refused unless it starts at the applied cursor |
| `ObservationChain.ObservationChain.AcceptReceiptOf` | protocol/app-server/observation.ts:72-80 | the receipt is taken only while pending at the requested and applied cursor, and then replays the buffer through delivery, stopping where a cursor throws |
| `ObservationChain.ObservationChain.DeliverRecord` | protocol/app-server/observation.ts:81-98 | buffering, ignoring, applying, recovery, unavailability and a thrown cursor, with the new chain state of each |
| `ObservationChain.ObservationChain.MarkUnavailable` | protocol/app-server/observation.ts:99 | the new chain state |
| `ObservationChain.ObservationChain.RequireRecovery` | protocol/app-server/observation.ts:100 | the new chain state |
| `ObservationChain.ObservationChain.Retire` | protocol/app-server/observation.ts:101 | the new chain state |
| `ObservationChain.DeliverKeepsInv` | protocol/app-server/observation.ts:81-98 | any record, lost, duplicated, reordered or of another registration, keeps the view equal to the authority at the applied cursor, which never decreases |
| `ObservationChain.ReplayKeepsInv` | protocol/app-server/observation.ts:76-79 | so does replaying a whole buffer |
| `ObservationChain.AppendKeepsInv` | protocol/app-server/observation.ts:43-102 | so does the server appending to its log |
| `ObservationChain.StepKeepsInv` | protocol/app-server/observation.ts:43-102 | so does every client and server step |
| `ObservationChain.ClientFollowsAuthority` | protocol/app-server/observation.ts:43-102 | over every run the client state is the authority's state at the applied cursor and that cursor never decreases |
| `ObservationChain.FreshChainIsSafe` | protocol/app-server/observation.ts:43-48 | a new chain beside a new log is a valid starting point |
| `ObservationChain.ViewIsFold` | protocol/app-server/observation.ts:43-102 | from a new chain beside a new log, after every honest run the view is the fold of the published events through the applied cursor, wherever that fold goes through |
| `ObservationChain.InOrderDeliveryCatchesUp` | protocol/app-server/observation.ts:87-97 | delivering the next records in order brings the client to exactly the last of them |
| `ObservationChain.InstallExactly` | protocol/app-server/observation.ts:50-58 | a checkpoint is installed if and only if its cursor is a number not before the applied one; the chain is then attached at it, holding its state, with an empty buffer |
| `ObservationChain.HandshakeFollows` | protocol/app-server/observation.ts:50-80 | whatever happened to the chain before, a checkpoint, a subscription at its cursor and the matching receipt leave it following; any other cursor is refused by both |
| `ObservationChain.ReplayThrowsExactly` | protocol/app-server/observation.ts:76-79 | replaying a buffer throws exactly when some position of it holds a malformed cursor of the registration, reached while still following |
| `ObservationChain.ReceiptExactly` | protocol/app-server/observation.ts:72-80 | so a receipt throws exactly then, and otherwise answers whether the chain still follows |
| `ObservationChain.RecordLeadsTo` | protocol/app-server/observation.ts:87-98 | while following, each kind of record of the registration leads to its own phase: applied, ignored, recovery or unavailable |
| `ObservationChain.CatchUpReachesTheEnd` | protocol/app-server/observation.ts:43-102 | from every safe state, a checkpoint at revision n, a subscription, up to 32 records before the receipt, the receipt and the remaining records in order leave the client following at any published revision m, holding its state, provided the fold goes through |
| `ObservationChain.BufferingIsTransparent` | protocol/app-server/observation.ts:72-98 | buffering before the receipt ends in the same chain as delivering after it if and only if no record that still matters stands behind one whose cursor is not a number, stated by positions of the buffer |
| `ObservationChain.BufferSafeByIndex` | protocol/app-server/observation.ts:72-98 | that condition is one about positions: every malformed cursor reached while following has only records behind it that delivery would ignore |
| `ObservationChain.NumericCursorsAreSafe` | protocol/app-server/observation.ts:72-98 | that condition holds whenever every buffered cursor is a number |
| `ObservationChain.MalformedCursorLosesTheBuffer` | protocol/app-server/observation.ts:76-79 | a concrete buffer for which the two orders differ |
| `ObservationChain.OverflowRecovers` | protocol/app-server/observation.ts:82-86 | the thirty-third buffered record forces recovery without touching cursor or view |
| `ObservationCut.CursorIsCanonicalU64` | protocol/app-server/observation.ts:32-37 | a native cursor is the canonical decimal of a u64 and nothing else |
| `ObservationCut.CutExactly` | protocol/app-server/observation.ts:11-30 | a read cut is valid if and only if it is of that conversation and activation, its cursors are canonical decimals of u64 values, its revision is the record's cursor and its source repeats the cut's own evidence |
| `ObservationCut.CheckpointExactly` | protocol/app-server/observation.ts:11-30 | a checkpoint is valid if and only if it is of that conversation, at the record's own cursor, with such a cut |
| `ObservationCut.RootEventExactly` | protocol/app-server/observation.ts:11-30 | the recursive event check holds exactly when every carrier nested in the event is in scope at the record's cursor |
| `ObservationCut.ChildRuleIsRootRule` | protocol/app-server/child-observation.ts:21-32 | the child's identity test is the root's, plus that the outermost event is a carrier |
| `ChildObservation.ChildObservation.constructor` | protocol/app-server/child-observation.ts:5-14 | a new child holds nothing |
| `ChildObservation.ChildObservation.ApplyObservation` | protocol/app-server/child-observation.ts:33-65 | the whole new child state and whether the call throws, including a batch that fails partway |
| `ChildObservation.RecordKeepsInv` | protocol/app-server/child-observation.ts:37-48 | one record keeps snapshot and cursor together |
| `ChildObservation.BatchKeepsInv` | protocol/app-server/child-observation.ts:37-50 | however far a batch gets before failing, the snapshot is the authority's state at the cursor it reached; a complete batch advances by its length |
| `ChildObservation.BaselineKeepsInv` | protocol/app-server/child-observation.ts:52-64 | a checkpoint observation keeps it |
| `ChildObservation.EventsKeepInv` | protocol/app-server/child-observation.ts:34-51 | an events observation keeps it |
| `ChildObservation.StepKeepsInv` | protocol/app-server/child-observation.ts:33-65 | every observation and every server append keeps it and never moves the applied cursor back |
| `ChildObservation.ChildFollowsAuthority` | protocol/app-server/child-observation.ts:33-65 | over every run, wherever a cursor is present the snapshot is the authority's state there |
| `ChildObservation.BaselineExactly` | protocol/app-server/child-observation.ts:52-64 | a baseline is accepted if and only if it is this activation's, with valid evidence, and has a cursor, its own at the checkpoint and not before the applied one, exactly when it is live; what it then leaves, and that a refused one changes nothing |
| `ChildObservation.RecordExactly` | protocol/app-server/child-observation.ts:37-48 | one record is applied if and only if it is the next cursor, its event is in scope there and it folds within the conversation; what it then leaves, that a refused one loses continuity and a malformed one changes nothing |
| `ChildObservation.CatchUpReachesTheEnd` | protocol/app-server/child-observation.ts:33-65 | whatever the child held before, a live baseline at revision n and one batch of the at most 32 events up to m leave it following at m with the authority's state |
| `ChildObservation.RecordsCompose` | protocol/app-server/child-observation.ts:37-48 | applying a list of records is applying its first part and then, if that succeeded, the rest |
| `ChildObservation.BatchesCompose` | protocol/app-server/child-observation.ts:34-51 | where a batch is cut does not matter |
| `ArchiveCut.FrontiersOf` | src/durable/sqlite/archive.rs:72-104 | each frontier is zero or the key of the last row, and no row of an ordered table lies beyond it |
| `ArchiveCut.InterfereEffect` | src/durable/sqlite/archive.rs:52-70 | whatever writers attempt, a barriered database does not change, keys stay ordered and the global log only grows |
| `ArchiveCut.CaptureOne` | src/session_archive.rs:160-171 | barrier, then frontiers: every cut taken so far still equals its database |
| `ArchiveCut.TakeCuts` | src/session_archive.rs:160-172 | after the last capture all cuts equal their databases at one moment; it fails only when a step fails |
| `ArchiveCut.Prepare` | src/session_archive.rs:154-179 | on success there is one instant of the global log at which every captured frontier is its whole database, against every writer schedule and every fault |
| `ArchiveCut.CapturedExactlyBefore` | src/session_archive.rs:160-179 | a write lies within the captured frontiers if and only if it precedes that instant |
| `ArchiveCut.CutIsClosed` | src/session_archive.rs:160-179 | nothing captured was written after something missed, across databases |
| `ArchiveCut.Select` | src/durable/sqlite/archive.rs:138-223 | the row a bounded fetch returns is in the table and within its bounds |
| `ArchiveCut.SelectIsNext` | src/durable/sqlite/archive.rs:138-223 | it is the next row: nothing lies between |
| `ArchiveCut.Each` | src/session_archive.rs:451-473 | with writers active between fetches, the visited rows are always a prefix of the rows in range, and all of them on success; it fails exactly when the round it stopped at fails, and no earlier one did |
| `ArchiveCut.ReadsExactlyTheCut` | src/session_archive.rs:451-473 | reading through a captured frontier returns exactly the captured rows of however large a later table, if and only if no captured key is negative and an empty capture is not followed by a row keyed zero |
| `ArchiveCut.ZeroKeyReadsAsCaptured` | src/session_archive.rs:451-473 | an instance: a row keyed zero written after an empty capture is read as captured |
| `ArchiveCut.ReadBack` | src/session_archive.rs:451-473 | with positive keys every read loop visits what the instant held, once and in order, whatever is appended meanwhile |
| `ArchiveCut.Walk` | src/session_archive.rs:451-473 | with positive keys, one walk of one captured authority, starting after any number of earlier fetches, visits its table as the instant held it |
| `ArchiveCut.Export` | src/session_archive.rs:154-179 | capture and every walk of every captured database composed: with positive keys, whatever writers do before and after the barriers, what is exported is every table of every database at one instant within the capture; nothing is exported only when a capture or a read failed |
| `ArchiveStream.Channel.constructor` | src/session_archive.rs:259-279 | a new stream is empty |
| `ArchiveStream.Channel.Write` | src/session_archive.rs:613-623 | cancellation is checked first and refuses without effect, then closure; otherwise at most one chunk of 65536 bytes is accepted, and the count returned is the bytes accepted |
| `ArchiveStream.Channel.Recv` | src/session_archive.rs:645-664 | what is received and the new state: bytes, end of file, an error, or end of file for ever after a verdict |
| `ArchiveStream.Channel.CancelAndClose` | src/session_archive.rs:638-644 | later and blocked writes are refused |
| `ArchiveStream.SendKeepsInv` | src/session_archive.rs:613-623 | sending keeps every byte, the capacity and the chunk bounds |
| `ArchiveStream.RecvKeepsInv` | src/session_archive.rs:645-664 | receiving keeps them |
| `ArchiveStream.StepKeepsInv` | src/session_archive.rs:259-279 | so does every producer, consumer and cancellation step |
| `ArchiveStream.ExecuteKeepsInv` | src/session_archive.rs:259-279 | and therefore every schedule of them |
| `ArchiveStream.BytesAreConserved` | src/session_archive.rs:608-670 | in every schedule, bytes received plus bytes queued are exactly the bytes accepted, in order, with at most two chunks queued |
| `ArchiveStream.EndMeansWholeArchive` | src/session_archive.rs:259-279 | if the first verdict is end of file then the ZIP writer returned success and every byte it wrote was received |
| `ArchiveStream.FailedExactly` | src/session_archive.rs:613-635 | in every schedule a write was refused exactly when some step gave up an interrupted write, sent into a closed channel or flushed when cancelled |
| `ArchiveStream.FirstVerdictExactly` | src/session_archive.rs:259-279 | in every schedule the first verdict is end of file if and only if at one step the ZIP layer returned success, nothing having been refused before it, and at a later step the producer queued its completion in an open channel; it is an error if and only if not |
| `ArchiveStream.FailureIsNotEnd` | src/session_archive.rs:259-279 | so wherever the ZIP layer returned an error the first verdict is an error |
| `ArchiveStream.ReturnsOnce` | src/session_archive.rs:259-279 | the ZIP layer returns at most once |
| `ArchiveStream.OneVerdict` | src/session_archive.rs:645-664 | no bytes follow a verdict |
| `ArchiveStream.EndFollowsError` | src/session_archive.rs:645-664 | an instance: after an error the stream reads as end of file although nothing finished |
| `ArchiveStream.NeverDeadlocks` | src/session_archive.rs:259-279 | until the stream settles, or the producer is cancelled with bytes still to offer, some step that moves bytes, an error or the verdict along is enabled, other than giving up an interrupted write |
| `ArchiveStream.ProgressIsBounded` | src/session_archive.rs:259-279 | every such step uses up some of a finite amount of work, and only a new request from the ZIP layer adds any |
| `ArchiveStream.CancelledWriteSpins` | src/session_archive.rs:613-623 | a producer that retries interrupted writes and is cancelled with bytes still to offer stays where it is, whatever the schedule |
| `ArchiveStream.CancelledProducerExits` | src/session_archive.rs:613-644 | in every run, whatever such a producer does after `cancel`, it can still exit if and only if it was not offering bytes when `cancel` took effect and its ZIP layer has asked for none since |
| `ArchiveStream.QuietProducerExits` | src/session_archive.rs:636-644 | from such a moment every schedule in which nothing more is asked for makes a bounded number of productive steps, and one is enabled until the producer has gone |
| `ArchiveStream.CancelledProducerIsTrapped` | src/session_archive.rs:613-644 | an instance: one byte asked for, then `cancel`, and no schedule lets the producer exit |
| `ArchiveStream.AcceptedProducerIsFree` | src/session_archive.rs:380-382 | an instance of the other side: the byte accepted before `cancel`, the producer exits and may still report success |
| `ArchiveStream.DrainDelivers` | src/session_archive.rs:645-664 | a consumer that keeps receiving after the producer is gone gets every queued byte and then end of file exactly when completion was queued |
| `Goal.MutationExactly` | src/goal.rs:192-247 | a mutation succeeds if and only if its reference is current, it is legal in the phase and a revision is left; what it changes and keeps, and otherwise the first obstacle is the reason given |
| `Goal.CreateExactly` | src/goal.rs:156-191 | creation succeeds if and only if there is no unfinished Goal, text and budget are in bounds and a revision is left; the created Goal, and otherwise the first obstacle is the reason given |
| `Goal.TextBounds` | src/goal.rs:150-152 | text is in bounds if and only if some character is not white space and its UTF-8 form has at most 8192 bytes, and a budget if and only if it is 1 to 100 |
| `Goal.WriteKeepsHistory` | src/durable/sqlite/inbox.rs:40-87 | a durable write extends a valid history exactly when it succeeds |
| `Goal.RoundKeepsHistory` | src/durable/sqlite/inbox.rs:88-157 | an accepted round extends a valid history exactly when it is admitted |
| `Goal.AdmissionExactly` | src/durable/sqlite/inbox.rs:88-157 | a round is admitted if and only if the Goal authorizes it at that reference, nothing is pending, the draft names it and acceptance succeeds; otherwise nothing changes |
| `Goal.GoalDomain.constructor` | src/goal.rs:420-434 | a domain starts with its store and no observations |
| `Goal.GoalDomain.CommitWrite` | src/goal.rs:560-569 | the durable write and then exactly its receipt observed |
| `Goal.GoalDomain.WriteIfAllowed` | src/goal.rs:505-531 | one atomic guarded write |
| `Goal.GoalDomain.PauseIfCurrentRef` | src/goal.rs:532-559 | one atomic pause of an active Goal at that reference |
| `Goal.GoalDomain.ReserveAndAccept` | src/goal.rs:581-609 | one atomic reservation and acceptance of a round |
| `Goal.CommitKeepsHistory` | src/goal.rs:505-609 | committing any operation after its read keeps the history valid |
| `Goal.CommitStepKeepsInv` | src/goal.rs:505-609 | a commit under the lock keeps the invariant and adds at most one state |
| `Goal.EntryKeepsInv` | src/goal.rs:505-609 | entering and reading keep mutual exclusion and freshness of what was read |
| `Goal.ExitKeepsInv` | src/goal.rs:560-580 | publishing and faults keep observations in commit order |
| `Goal.StepKeepsInv` | src/goal.rs:505-609 | every step of every owner keeps the invariant |
| `Goal.RunKeepsInv` | src/goal.rs:505-609 | over every interleaving revisions advance by one per commit, observers see commits in order and the history only grows |
| `Goal.EveryRunIsValid` | src/goal.rs:505-609 | every state any interleaving reaches from an empty store meets the invariant |
| `Goal.ReferencesAreUnique` | src/goal.rs:155-247 | in no run from nothing does one reference name two states, even across completion and re-creation |
| `Goal.StaleReferenceNeverCommits` | src/goal.rs:192-204 | in every run a superseded reference neither writes nor admits a round, and changes nothing |
| `Goal.CommitIsAtomic` | src/goal.rs:505-609 | in every run, read then commit is one indivisible action on the store, with its reply |
| `Goal.OperationExactly` | src/goal.rs:505-609 | what each operation promises of one atomic action: a disallowed write is cancelled with the Goal it read and changes nothing, an allowed one is recorded exactly when the state machine accepts it, and likewise the pause and the reservation |
| `Goal.EveryReplyIsDecided` | src/goal.rs:505-609 | in every run from an empty store, an owner that has its reply got it at one step: a storage fault that changed nothing, or one atomic action on the Goal of that moment that kept its operation's promise |
| `Goal.CancelledNeverWrites` | src/goal.rs:505-523 | in every run from an empty store, a cancelled command that has its reply was told so with the Goal it read, or met a storage fault, and none of its steps extended the history |
| `Goal.AllowedIsAnswered` | src/goal.rs:505-531 | in every run from an empty store, a permitted command that met no fault was answered by the state machine on the Goal of that moment, and committed exactly when that answer was success |
| `Goal.CommitsAreAllowed` | src/goal.rs:505-609 | in every run from an empty store, whatever extends the history is the commit of an owner that was permitted and had not committed before |
| `Goal.PauseRefusedOnlyByExhaustion` | src/goal.rs:532-559 | in every run the interrupt pause is refused if and only if the revision counter is exhausted |
| `Goal.CompleteIsLeftOnlyByCreate` | src/goal.rs:156-204 | in every run a completed Goal is followed only by a created one with a fresh identity and no rounds consumed |
| `Goal.ConsumedIsRoundsAdmitted` | src/goal.rs:581-609 | in every run consumption is exactly the rounds admitted since creation, within a budget of 1 to 100, and a blocked reason exists exactly in Blocked |
| `Binary64.SameValueIsSamePattern` | protocol/app-server/number.ts:117-118 | finite numbers are equal exactly when their patterns are, up to the sign of zero |
| `Binary64.BitsRoundTrip` | protocol/app-server/number.ts:118-119 | the 64-bit pattern determines the number |
| `Binary64.PaddedIsFixed` | protocol/app-server/number.ts:119 | padded hexadecimal is the fixed-width spelling |
| `Binary64.WireRoundTrip` | protocol/app-server/number.ts:111-153 | decoding an encoding returns the same value, negative zero becoming zero |
| `Binary64.WireCanonical` | protocol/app-server/number.ts:133-153 | every accepted spelling re-encodes to itself |
| `Binary64.WireInjective` | protocol/app-server/number.ts:111-120 | values are equal exactly when their spellings are |
| `Binary64.ExponentIsPower` | protocol/app-server/number.ts:111-120 | with no fraction, exponent field 1023 + k is two to the power k |
| `Binary64.FractionIsLinear` | protocol/app-server/number.ts:111-120 | the fraction counts fifty-second parts of that power, and plain units below the normal numbers |
| `Binary64.WireIsPattern` | protocol/app-server/number.ts:111-120 | character i of the encoding is the hexadecimal digit of the i-th four bits of sign, exponent and fraction, most significant first |
| `Binary64.WireAcceptance` | protocol/app-server/number.ts:133-153 | the decoder accepts exactly what the encoder produces |
| `Binary64.WireRefusal` | protocol/app-server/number.ts:133-153 | each refusal exactly when: the shape is not sixteen lower-case hexadecimal digits, the text is that of negative zero, or it begins with 7ff or fff |
| `Binary64.DataView.constructor` | protocol/app-server/number.ts:91 | an eight-byte buffer |
| `Binary64.DataView.SetBigUint64` | protocol/app-server/number.ts:145 | the buffer holds the integer big-endian |
| `Binary64.DataView.GetBigUint64` | protocol/app-server/number.ts:119 | the integer the buffer holds |
| `Binary64.DataView.FiniteNumberToWire` | protocol/app-server/number.ts:111-120 | through the shared buffer, the encoding function |
| `Binary64.DataView.FiniteNumberFromWire` | protocol/app-server/number.ts:133-153 | through the shared buffer, the decoding function with its three refusals |
| `NumberDraft.Trim` | protocol/app-server/number.ts:229 | what remains has no white space at its ends and only white space was removed |
| `NumberDraft.MatchIsInverse` | protocol/app-server/number.ts:188 | the draft pattern accepts exactly the spellings and recovers their parts |
| `NumberDraft.WholeValueExact` | protocol/app-server/number.ts:263-279 | the answer is v if and only if the spelled decimal equals the integer v |
| `NumberDraft.CancelIsShort` | protocol/app-server/number.ts:273-277 | the cancel loop runs fewer times than the significand has digits, whatever the exponent |
| `NumberDraft.FinalScaleIsBounded` | protocol/app-server/number.ts:259-261 | a nonzero decimal below 2^1024 leaves the loop at scale at most 308 |
| `NumberDraft.DecimalWholeValue` | protocol/app-server/number.ts:263-279 | the loop computes that answer within as many steps as there are digits |
| `NumberDraft.IsExactBinary64Whole` | protocol/app-server/number.ts:290-295 | the halving loop decides whether the odd part has 53 bits |
| `NumberDraft.ExactWholeIsFiftyThreeBits` | protocol/app-server/number.ts:281-295 | it accepts exactly the integers m * 2^k with m below 2^53 |
| `NumberDraft.ExactnessTest` | protocol/app-server/number.ts:281-295 | below 2^1024 it accepts exactly the integers some finite binary64 equals |
| `NumberDraft.DraftClassification` | protocol/app-server/number.ts:228-244 | malformed, out of range, inexact and value, each by the rational number spelled; a whole value is exact |
| `DraftMeaning.DenotesByDigits` | protocol/app-server/number.ts:213-222 | a spelling denotes v if and only if the number its digits spell, moved by the digits of its exponent up unless the sign text is a minus, and down by the length of its fraction, is the magnitude of v, and the signs agree |
| `DraftMeaning.InRangeByDigits` | protocol/app-server/number.ts:213-244 | and is in range if and only if that magnitude is below the overflow threshold |
| `DraftMeaning.InexactByDigits` | protocol/app-server/number.ts:228-244 | a draft is refused as inexact if and only if the whole number its digits spell so is in range and equal to no binary64 |
| `DraftMeaning.RefusedPlain` | protocol/app-server/number.ts:228-244 | an instance: 9007199254740993 is refused |
| `DraftMeaning.RefusedWithFraction` | protocol/app-server/number.ts:228-244 | so is 9007199254740993.0 |
| `DraftMeaning.RefusedScaledUp` | protocol/app-server/number.ts:228-244 | so are 9.007199254740993e15 and e+15 |
| `DraftMeaning.RefusedScaledDown` | protocol/app-server/number.ts:228-244 | so is 90071992547409930e-1 |
| `NumberDraft.MalformedExactly` | protocol/app-server/number.ts:228-234 | malformed if and only if no spelling with a digit has that text |
| `DraftMeaning.NoDigitsIsMalformed` | protocol/app-server/number.ts:228-234 | a draft without a digit, however signed or scaled, is malformed |
| `DraftMeaning.SpaceIsWhiteSpace` | protocol/app-server/number.ts:229 | what is trimmed is Unicode white space, except that U+0085 is kept and U+FEFF removed |
| `NumberDraft.RespellingIsIrrelevant` | protocol/app-server/number.ts:213-222 | every respelling of one rational number equals the same integers, has the same whole value and is in range alike |
| `NumberDraft.RespelledDraftsReadAlike` | protocol/app-server/number.ts:213-244 | so two drafts spelling one rational number are both out of range, both inexact or both values |
| `NumberDraft.RepresentableIsBelow` | protocol/app-server/number.ts:228-244 | every integer some finite binary64 equals lies below the overflow threshold of the conversion |
| `NumberDraft.ConversionContractIsMet` | protocol/app-server/number.ts:228-244 | some conversion of text meets the contract trusted of JavaScript |
| `NumberDraft.DisplayReadsBack` | protocol/app-server/number.ts:171-173 | every finite whole value displayed reads back as the same value |
| `NumberDraft.CanonicalIntegerText` | protocol/app-server/number.ts:316-319 | the integer pattern accepts exactly the canonical decimal of each integer |
| `NumberDraft.IntegerDraftExact` | protocol/app-server/number.ts:316-322 | an integer draft is accepted with a value exactly when it is an i64 and the trimmed draft is its canonical text |
| `JsonText.EscapeIsPrefixFree` | protocol/app-server/content-identity.ts:33-41 | no quoted character begins another |
| `JsonText.ValueIsUnique` | protocol/app-server/content-identity.ts:33-41 | a delimited text begins with the JSON text of at most one array, string, counter or null |
| `JsonText.StringifyInjective` | protocol/app-server/content-identity.ts:33-41 | equal JSON texts come from equal values |
| `ContentIdentity.LocatorKeyExact` | protocol/app-server/content-identity.ts:4-8 | locator keys are equal exactly when locators are |
| `ContentIdentity.LocatorText` | protocol/app-server/content-identity.ts:4-8 | a locator key is the JSON text of its tag and its identity |
| `ContentIdentity.SourceIdentityExact` | protocol/app-server/content-identity.ts:18-30 | source identities are equal exactly when sources are |
| `ContentIdentity.SourceKeyExact` | protocol/app-server/content-identity.ts:33-36 | source keys are equal exactly when the references differ at most in revision and byte frontier |
| `ContentIdentity.SameContentRefExact` | protocol/app-server/content-identity.ts:39-45 | the comparison is equality of references, through two layers of JSON text |
| `ContentIdentity.RangeKeyExact` | protocol/app-server/content-cache.ts:17 | a cache key names exactly one reference and one offset |
| `ReadCutIdentity.AscendingIsUnique` | protocol/app-server/content-identity.ts:62-63 | sorted property names depend only on the set of names |
| `ReadCutIdentity.ObjectValueExact` | protocol/app-server/content-identity.ts:62-66 | the rendered property list is equal exactly when the objects are equal as maps, whatever their property order |
| `ReadCutIdentity.ObservationCutKeyExact` | protocol/app-server/content-identity.ts:48-53 | observation cut keys are equal exactly when the cuts are |
| `ReadCutIdentity.CheckpointCutKeyExact` | protocol/app-server/content-identity.ts:56-67 | checkpoint cut keys are equal exactly when the cuts are, up to property order |
| `ContentCache.ContentCache.constructor` | protocol/app-server/content-cache.ts:5-12 | an empty cache |
| `ContentCache.ContentCache.BeginRead` | protocol/app-server/content-cache.ts:13-24 | refusal, hit with its touch, capacity refusal or a started fetch, with the new state |
| `ContentCache.ContentCache.CompleteRead` | protocol/app-server/content-cache.ts:26-44 | every check on the fetched chunk, the stored range and the new state |
| `ContentCache.ContentCache.Store` | protocol/app-server/content-cache.ts:35-42 | replacement and the eviction loop compute the eviction function |
| `ContentCache.ContentCache.Clear` | protocol/app-server/content-cache.ts:46 | the ranges and their byte count are gone; reads in flight remain |
| `ContentCache.EvictIsLongestSuffix` | protocol/app-server/content-cache.ts:39-42 | eviction keeps the longest most recently touched run within both bounds |
| `ContentCache.AcceptedIsSlice` | protocol/app-server/content-cache.ts:27-33 | a chunk that passes every check is the requested slice of its source |
| `ContentCache.AcceptsExactly` | protocol/app-server/content-cache.ts:27-33 | a chunk in proper base64 is accepted if and only if it is that of the requested reference, of 1 to 65536 bytes at the offset that do not pass the end, or of none at the end |
| `ContentCache.BeginExactly` | protocol/app-server/content-cache.ts:13-24 | a read is refused, answered from the cache with its range touched, turned away or started, each exactly when, with the new cache |
| `ContentCache.CompleteExactly` | protocol/app-server/content-cache.ts:26-44 | it ends loaded if and only if it is still current and the chunk is acceptable; the slot is free again either way |
| `ContentCache.StoredIsFound` | protocol/app-server/content-cache.ts:35-42 | what was just stored, if it fits at all, is found again under its own key |
| `ContentCache.SliceIsTrueRange` | protocol/app-server/content-cache.ts:17-36 | a stored range is true of every request that can ever name it |
| `ContentCache.HitKeepsInv` | protocol/app-server/content-cache.ts:18-22 | a hit keeps the invariant below |
| `ContentCache.StepKeepsInv` | protocol/app-server/content-cache.ts:13-46 | every begin, completion, failure and clear keeps counters, bounds, recency order and truth |
| `ContentCache.RunKeepsInv` | protocol/app-server/content-cache.ts:13-46 | and so does every sequence of them whose chunks are honest |
| `ContentCache.EveryRunIsSafe` | protocol/app-server/content-cache.ts:13-46 | from empty, after every sequence of steps with honest chunks: the byte counter is the sum, both bounds hold, at most two reads are in flight, what is held is the most recently touched, and every range is the true slice |
| `ContentCache.HitIsTruthful` | protocol/app-server/content-cache.ts:17-22 | in every such state a hit answers its own slice and continues exactly while some remains |
| `ContentCache.CompletionIsTruthful` | protocol/app-server/content-cache.ts:26-43 | so does a completed fetch |
| `ContentCache.ReadOnce` | protocol/app-server/content-cache.ts:13-44 | one read amid other readers ends with the invariant kept and an outcome that is a refusal or the requested slice; a read that is served ends loaded and leaves other readers in flight |
| `ContentCache.Settle` | protocol/app-server/content-cache.ts:26-44 | so does its second half, when the fetch returns or fails |
| `ContentCache.ReadContent` | web-console/src/client/content-text.ts:4-14 | following next from 0 through the shared cache, with any honest steps of other readers before each begin and each completion, takes at most one round per byte and one more; a result is given exactly when no read is refused, and is the source content |
| `ContentAdvance.InlineShown` | protocol/app-server/projection.ts:133-144 | the new text is the exact source prefix of at most 16384 bytes and not deferred, or empty and deferred |
| `ContentAdvance.AcceptedExactly` | protocol/app-server/projection.ts:113-132 | an advancement is accepted if and only if it carries this attempt's live reference of its own block, starts at the frontier it extends, ends within a safe integer and meets a tool block for arguments |
| `ContentAdvance.LoadedExactly` | protocol/app-server/projection.ts:133-136 | the prefix it builds on is loaded if and only if it is empty, or shown and not deferred |
| `ContentAdvance.ShownExactly` | protocol/app-server/projection.ts:133-144 | afterwards the source is displayed through the new frontier if and only if its prefix was loaded, the delta came inline and the whole is at most 16384 bytes; otherwise nothing is displayed |
| `ContentAdvance.AdvanceExactly` | protocol/app-server/projection.ts:133-148 | the block in the head, the tool's arguments and the one new binding that an accepted advancement leaves, and that nothing else changes |
| `ContentAdvance.AdvanceKeepsInv` | protocol/app-server/projection.ts:113-148 | every accepted honest advancement keeps that for every loaded block and foreground tool |
| `ContentAdvance.AdvanceIsForward` | protocol/app-server/projection.ts:126-144 | frontiers never move back, revisions strictly increase and deferral is permanent |
| `ContentAdvance.ToolStartKeepsInv` | protocol/app-server/projection.ts:204-208 | starting a tool call keeps it |
| `ContentAdvance.AssemblyIsNoNews` | protocol/app-server/projection.ts:209-214 | an assembled tool call replaces its arguments by exactly the text already shown |
| `ContentAdvance.ToolStartExactly` | protocol/app-server/projection.ts:204-208 | starting a tool call within the head shows an empty call, and within the foreground an empty slot |
| `ContentAdvance.AssemblyExactly` | protocol/app-server/projection.ts:209-214 | assembly writes the carried text into the block and slot of its own call and no other |
| `ContentAdvance.AssembledIsComplete` | src/runtime_client/projection/fold.rs:1103-1146 | once the frontier has reached the end of its source, the assembled text is empty and deferred, or the complete source |
| `ContentAdvance.StepKeepsInv` | protocol/app-server/projection.ts:113-214 | so does every message start, tool call start, tool call assembly and advancement |
| `ContentAdvance.RunIsFaithful` | protocol/app-server/projection.ts:113-214 | and every run of them |
| `ContentAdvance.DisplayedTextIsExact` | protocol/app-server/projection.ts:113-148 | from a fresh attempt, what is displayed for a bound block is its source through the frontier, or nothing and deferred |
| `BoundedHead.PlaceMembers` | protocol/app-server/projection.ts:178-184 | placement introduces only its value and leaves no other row under its key |
| `BoundedHead.PlaceRefinesInside` | protocol/app-server/projection.ts:178-184 | placing below 32 in the truncated head is truncating the placement in the full duplicate-free list |
| `BoundedHead.PlaceIsFaithful` | protocol/app-server/projection.ts:178-184 | at any position that equality holds if and only if the position is below 32, or the head is full and lacks the key, or the row already sits last in a list of at most 32 |
| `BoundedHead.PlaceKeepsDistinct` | protocol/app-server/projection.ts:178-184 | placement keeps the full list duplicate-free |
| `BoundedHead.RunRefinesFull` | protocol/app-server/projection.ts:178-184 | over any run whose every placement meets that condition against the full list so far, the bounded list is the head of the unbounded one |
| `BoundedHead.InsideIsVisible` | protocol/app-server/projection.ts:178-184 | every run of placements below 32 meets it |
| `BoundedHead.BeyondHeadIsLost` | protocol/app-server/projection.ts:178-184 | a placement that does not: a first row announced at 32 is in the full list and never loaded |
| `ToolSlots.FoldIsSlotwise` | protocol/app-server/projection.ts:48-69 | a run over a list is the run over each of its slots |
| `ToolSlots.TargetExactly` | protocol/app-server/projection.ts:30-34 | which slot a fact is of: the occurrence it names, for a rebound the one it leaves, and none for progress of a background execution |
| `ToolSlots.RunningExactly` | protocol/app-server/projection.ts:36-42 | a slot runs after a run of facts exactly when one started it and none has settled it, and is settled exactly when it is no longer open |
| `ToolSlots.ResultIsFirstSettlement` | protocol/app-server/projection.ts:39-41 | the result shown is that of the first settlement of the slot, with the arguments it always had |
| `ToolSlots.ProgressIsLast` | protocol/app-server/projection.ts:36-38 | a running slot shows the last progress since it last started |
| `ToolSlots.CommittedIsLast` | protocol/app-server/projection.ts:36-42 | the committed result is that of the last commit of the slot |
| `ToolSlots.MetadataRefIsLast` | protocol/app-server/projection.ts:36-42 | the metadata reference is that of the last fact that carried one while it mattered |
| `ToolSlots.LifecycleIsMonotone` | protocol/app-server/projection.ts:39-41 | from any point of a run to any later one the lifecycle never moves back and a settlement never changes |
| `ToolSlots.CommitsDoNotTouchLifecycle` | protocol/app-server/projection.ts:36-42 | lifecycle fields are what they would be had no result been committed |
| `ToolSlots.LifecycleDoesNotTouchCommits` | protocol/app-server/projection.ts:36-42 | committed fields are what they would be had nothing been executed |
| `ToolSlots.LifecycleWritesMetadata` | protocol/app-server/projection.ts:38-41 | one execution fact changes the shared metadata reference if and only if it is the first settlement of that slot and carries a different reference |
| `ToolSlots.SettledExactly` | protocol/app-server/projection.ts:39-41 | a slot is settled after a run exactly when it was before or some fact of the run settled its occurrence |
| `ToolSlots.ErasedIsLastCommitted` | protocol/app-server/projection.ts:36-42 | with execution facts left out, the metadata reference is that of the last commit of the slot |
| `ToolSlots.MetadataIsLastWritten` | protocol/app-server/projection.ts:38-41 | after a run it is the reference of the first settlement if that carries one and no commit of the slot follows, and otherwise the last committed one |
| `ToolSlots.ResultMetadataInterference` | protocol/app-server/projection.ts:38-41 | execution facts change what commits left there if and only if some position of the run holds the slot's first settlement, no commit of the slot follows it and it carries another reference than the last commit |
| `ToolSlots.SettlementReplacesCommittedMetadata` | protocol/app-server/projection.ts:38-41 | two facts for which they do not |
| `SourceRepair.KeyExact` | protocol/app-server/source-repair.ts:21-23 | source keys are equal exactly when sources are |
| `SourceRepair.DecideExactly` | protocol/app-server/source-repair.ts:69-86 | an observation is applied, recovered or ignored, each exactly when, by the sequence held, the bound on what was forgotten and whether it is a notice |
| `SourceRepair.RetainSourceRepair` | protocol/app-server/source-repair.ts:98-111 | the copy, count and splice loops compute the retention function |
| `SourceRepair.RetainIsMostRecent` | protocol/app-server/source-repair.ts:98-111 | retention leaves exactly the 64 most recently observed Workspaces and never drops the User |
| `RepairObserver.RecordKeepsInv` | web-console/src/client/source-repairs.ts:81-95 | one observation never takes a source below a sequence it already held, and every bound covers what was forgotten |
| `RepairObserver.AnswerKeepsInv` | web-console/src/client/source-repairs.ts:102-120 | nor does a read's answer compared with its own bound |
| `RepairObserver.StepKeepsInv` | web-console/src/client/source-repairs.ts:71-120 | nor does any notice, read start, answer or failure |
| `RepairObserver.ObserveExactly` | web-console/src/client/source-repairs.ts:81-95 | an applied observation is what is held, unless retention drops it at once, and raises the frontier and the bound of exactly the reads of what was dropped; otherwise nothing changes |
| `RepairObserver.RunKeepsInv` | web-console/src/client/source-repairs.ts:71-120 | over every interleaving with eviction, newest sequences only move forward |
| `RepairObserver.HeldNeverGoesBack` | protocol/app-server/source-repair.ts:69-86 | a source held at two moments of a run holds nothing older at the later one |
| `RepairObserver.RetentionIsExact` | protocol/app-server/source-repair.ts:88-111 | in every run the retained Workspaces are exactly the 64 most recently applied, and the User once seen is kept |
| `RepairObserver.Latest` | protocol/app-server/source-repair.ts:36-48 | the highest-sequence observation of a source |
| `RepairObserver.DeliverConverges` | protocol/app-server/source-repair.ts:69-86 | without eviction, delivery ends holding the highest-sequence observation of every source |
| `RepairObserver.DeliveryOrderIsIrrelevant` | protocol/app-server/source-repair.ts:69-86 | so any order and any duplication of the same observations end the same |
| `RepairObserver.SourceRepairObserver.constructor` | web-console/src/client/source-repairs.ts:54-59 | nothing held or forgotten |
| `RepairObserver.SourceRepairObserver.ObserveLevel` | web-console/src/client/source-repairs.ts:81-89 | the decision and the whole new state |
| `RepairObserver.SourceRepairObserver.Forget` | web-console/src/client/source-repairs.ts:91-95 | the loop raises the frontier and the bound of every read of that source |
| `Scheduler.SteppedIsLast` | src/scheduler.rs:129-165 | the stepping loop stops at the last instant of the grid not after now |
| `Scheduler.CatchUpIsStepped` | src/scheduler.rs:144-156 | the constant-time formula, sub-second clocks included, adds exactly what the stepping loop adds |
| `Scheduler.OccurrenceRefinesStepping` | src/scheduler.rs:130-164 | the occurrence is what the loop selects; not due, exhausted and the next due instant, each exactly when |
| `Scheduler.NeverExhaustedInTime` | src/scheduler.rs:130-164 | within year 9999 a due interval always yields an occurrence |
| `Scheduler.ResolveExactly` | src/scheduler.rs:70-119 | a timing resolves exactly when its first instant is future and within year 9999, and what it resolves to |
| `Scheduler.AdmitKeepsInv` | src/durable/sqlite/schedule.rs:574-695 | one admission selects the last aligned instant not after the clock, later than all before it |
| `Scheduler.AdmitExactly` | src/durable/sqlite/schedule.rs:574-695 | an obstacle changes nothing; otherwise the due occurrence is admitted, the revision advances and the schedule is due again or completed, and one that cannot be computed disables it |
| `Scheduler.RunStaysAligned` | src/durable/sqlite/schedule.rs:574-695 | over any run occurrences strictly increase and stay congruent to the anchor modulo the period, and nothing disables the schedule while the clock is within year 9999 |
| `Scheduler.CreatedIntervalRuns` | src/scheduler.rs:85-94 | from creation every occurrence is a whole number of periods after that moment |
| `Scheduler.OneShotRuns` | src/durable/sqlite/schedule.rs:574-695 | over any run of attempts a one-shot schedule occurs at most once, at its own instant, and is then completed |
| `JsonSyntax.SkipString` | src/toml_authoring.rs:372-378 | the string scan stays in bounds and ends just past the closing quote, escapes included |
| `JsonSyntax.SkipNumber` | src/toml_authoring.rs:379-387 | the number scan takes the whole literal and no more |
| `JsonSyntax.NumberLiterals` | src/toml_authoring.rs:366-393 | on valid JSON text every index is in bounds and the spans are exactly the number tokens, in order |
| `JsonSyntax.SpansCoverLiterals` | src/toml_authoring.rs:365-393 | each span covers exactly its literal |
| `JsonSyntax.SpansAscend` | src/toml_authoring.rs:365-393 | spans ascend without overlap |
| `StrictJson.PaddedSeparated` | src/toml_authoring.rs:366-393 | in every JSON document no number literal touches a byte that could extend it |
| `StrictJson.LiteralsOfPadded` | src/toml_authoring.rs:366-393 | the number tokens are the document's numbers in order, none from strings, keys or words |
| `JsonReading.TokensAreUnique` | src/toml_authoring.rs:366-393 | separated tokens are determined by their bytes |
| `JsonReading.NumberIsUnique` | src/toml_authoring.rs:366-393 | a number literal is determined by its bytes |
| `JsonReading.PiecesAreUnique` | src/toml_authoring.rs:366-393 | the body of a string literal is split into characters and escapes in one way |
| `JsonReading.DocumentIsUnique` | src/toml_authoring.rs:333-345 | a text spells at most one JSON document, so what is accepted is a fact about the text |
| `JsonMeaning.ArrayText` | src/toml_authoring.rs:333-345 | the bytes of an array: its elements between brackets, separated by commas |
| `JsonMeaning.ObjectText` | src/toml_authoring.rs:333-345 | the bytes of an object: quoted key, colon and value between braces, separated by commas |
| `JsonMeaning.StringText` | src/toml_authoring.rs:333-345 | the bytes of a string: its pieces between quotes, a character, a backslash with its letter or a backslash, u and four digits |
| `JsonMeaning.WordText` | src/toml_authoring.rs:333-345 | the three words, and what white space is |
| `JsonMeaning.NumberLiteral` | src/toml_authoring.rs:333-345 | the bytes of a number: sign, digits, point and digits, exponent mark, sign and digits |
| `JsonMeaning.NumberPartsAre` | src/toml_authoring.rs:333-345 | which numbers are literals: canonical digits, then any digits after a point, then a mark, a sign and any digits |
| `DecimalValue.SignificantDigits` | src/model/invocation.rs:263-282 | the trimmed digits are empty exactly for zero and otherwise the canonical text of a number ten does not divide |
| `DecimalValue.ValueDecidesEquality` | src/model/invocation.rs:263-282 | two literals whose exponents fit 64 bits have equal normal forms if and only if they are one rational number |
| `DecimalValue.ExactMeansOneValue` | src/model/invocation.rs:244-259 | a literal is exact if and only if it, what is emitted for it and what binary64 prints are one rational number and all have a normal form |
| `RequestParams.Visit` | src/toml_authoring.rs:397-460 | a value is read if and only if no object at any depth repeats a key, and then as what it means |
| `JsonMeaning.Utf8IsShortest` | src/toml_authoring.rs:333-345 | the bytes of a character are the shortest UTF-8 sequence of its scalar value |
| `JsonMeaning.PlainIsUtf16` | src/toml_authoring.rs:397-460 | a plain character means its UTF-16 form: one unit, or a surrogate pair of that scalar value |
| `JsonMeaning.UnicodeIsHex` | src/toml_authoring.rs:397-460 | a four-digit escape means the number its hexadecimal digits spell, in either case |
| `JsonMeaning.ShortIsUnicode` | src/toml_authoring.rs:397-460 | each short escape means what the four-digit escape of its character means |
| `JsonMeaning.ShortsAreAll` | src/toml_authoring.rs:397-460 | there are no other short escapes |
| `JsonMeaning.PlainIsUnescaped` | src/toml_authoring.rs:333-345 | a character stands for itself in a string exactly when JSON text does not have to escape it |
| `JsonMeaning.RespellingKeepsMeaning` | src/toml_authoring.rs:397-460 | writing every character of a string as four-digit escapes keeps what it means |
| `JsonMeaning.RespelledKeyIsDuplicate` | src/toml_authoring.rs:446-459 | so two keys that differ only in spelling are one key, and an object with both is refused |
| `JsonMeaning.NewlineKeysCollide` | src/toml_authoring.rs:446-459 | an instance: the escape n against u000a and u000A |
| `JsonMeaning.MeaningsAre` | src/toml_authoring.rs:437-445 | an array means its elements in order |
| `JsonMeaning.FieldsAre` | src/toml_authoring.rs:446-459 | an object means, under what each key means, the last member of that key |
| `RequestParams.VisitSeq` | src/toml_authoring.rs:437-445 | the same for arrays |
| `RequestParams.VisitMembers` | src/toml_authoring.rs:446-459 | the members are inserted if and only if none repeats a key and none repeats inside; a repeated key sets the shared flag |
| `RequestParams.VisitMap` | src/toml_authoring.rs:446-459 | the same for objects |
| `RequestParams.LocationIdentifies` | src/toml_authoring.rs:352-361 | a reported line and column point at one byte |
| `JsonMeaning.LocationOnLine` | src/toml_authoring.rs:352-361 | the line is one more than the newlines before it, the column one more than the bytes since the last |
| `RequestParams.FindInexact` | src/toml_authoring.rs:346-361 | nothing is found exactly when every number is exact, and what is found is the first inexact literal at its line and column |
| `RequestParams.ParseRequestParams` | src/toml_authoring.rs:333-363 | accepted if and only if the text spells a document that is one object with no repeated key at any depth and every number exact; each error exactly when, and the inexact number reported is the first |
| `TestLanes.Runnable` | examples/check_test_lanes.rs:648-660 | what runs is listed and not ignored, with the number ignored; it fails exactly when a listing fails |
| `TestLanes.CheckTargets` | examples/check_test_lanes.rs:762-773 | no finding exactly when every target has an executing FULL Linux step |
| `TestLanes.CheckRequirements` | examples/check_test_lanes.rs:774-796 | no finding exactly when every required suite names a target some step of its platform and profile selects |
| `TestLanes.CheckJobs` | examples/check_test_lanes.rs:797-808 | no finding exactly when every job exists and is native |
| `TestLanes.Collect` | examples/check_test_lanes.rs:829-860 | the coverage and findings of the selecting steps |
| `TestLanes.CoverExactly` | examples/check_test_lanes.rs:829-860 | coverage holds exactly what some step of that feature set runs, unconditional coverage what some unconditional one runs |
| `TestLanes.CheckFeatures` | examples/check_test_lanes.rs:861-912 | no finding exactly when the universe is covered and every applicable suite exists and is covered unconditionally |
| `TestLanes.CheckTarget` | examples/check_test_lanes.rs:821-913 | no finding exactly when the target is clean in that profile |
| `TestLanes.Sum` | examples/check_test_lanes.rs:972-984 | totals over the step's targets, or the first discovery error |
| `TestLanes.TotalsExactly` | examples/check_test_lanes.rs:972-984 | each total, of runnable and of ignored tests, is positive exactly when some target has such a test |
| `TestLanes.CheckFilter` | examples/check_test_lanes.rs:916-936 | no finding exactly when the filter still selects a test that runs |
| `TestLanes.CheckSkip` | examples/check_test_lanes.rs:937-964 | no finding exactly when the skip still excludes a test |
| `TestLanes.ExcludedExactly` | examples/check_test_lanes.rs:937-964 | live exactly when every listing succeeds and some test is excluded by that skip alone |
| `TestLanes.Check` | examples/check_test_lanes.rs:748-969 | the report is empty if and only if the workflow is clean |
| `LaneRules.AssignmentExactly` | examples/check_test_lanes.rs:758-808 | targets, suites and jobs are clean if and only if three rules written over the steps alone hold |
| `LaneRules.CoverageExactly` | examples/check_test_lanes.rs:809-913 | coverage is clean if and only if, for every target of a focused step and every step of its platform and profile that runs it, that step selects something, each test of the FULL Linux universe is run by a step of that feature set and each suite by an unconditional one |
| `LaneRules.SelectorsExactly` | examples/check_test_lanes.rs:914-965 | selectors are clean if and only if every filter of a focused step selects a test that runs and every skip excludes one the other selectors would list |
| `LaneRules.CleanExactly` | examples/check_test_lanes.rs:748-969 | a workflow is clean if and only if it meets those rules |
| `LaneRules.Report` | examples/check_test_lanes.rs:748-969 | so the checker reports nothing if and only if every rule holds |
| `TestLanes.EverythingIsSelected` | examples/check_test_lanes.rs:758-796 | a clean workflow has an executing FULL Linux step for every target and a step of its own profile and platform for every suite |
| `TestLanes.EveryTestRuns` | examples/check_test_lanes.rs:861-877 | on Linux every runnable test, under each feature set FULL uses for its target, is run by a FULL step of that feature set |
| `TestLanes.EverySuiteRuns` | examples/check_test_lanes.rs:878-912 | every required suite of the host exists and is run entirely by unconditional steps of its own profile |
| `TestLanes.NoStaleSelector` | examples/check_test_lanes.rs:915-965 | in a clean workflow every filter selects a test that runs, and every skip excludes a test listed without it |
| `TestLanes.CheckEverything` | examples/check_test_lanes.rs:748-969 | an empty report of the whole check means: every target has an executing FULL Linux step, every required suite of the host is executed, and on Linux every runnable test is executed |

## Left out

- The projection fold of the other runtime events, binding retirement and transition metadata: many small independent branches.
- ContentAdvance.RunIsFaithful: runs are message starts, tool call starts, tool call assemblies and content advancements; an assembly is trusted to carry what the authority's own copy shows at that cursor; whether a started message is already among the loaded messages is part of the step; binding retirement is not a step, and the display path stored in a binding is not modelled.
- ContentCache.ReadContent: the reads of one loop are its own; other readers act between them as steps of the cache. Incremental UTF-8 decoding of the bytes is not modelled.
- ContentCache.ContentCache.CompleteRead: base64 decoding is given with the chunk; only the length checks on the encoded text are modelled.
- JsonText.StringifyInjective: strings are Unicode scalar values, so lone surrogates, which `JSON.stringify` escapes, do not occur; numbers are the non-negative counters these keys hold.
- ArchiveCut.Prepare: inherited tables, artifact lengths and digests, lineage discovery and preflight are not modelled; a failed capture releases its barriers by dropping its transactions, which is not a step here.
- ArchiveStream.StepKeepsInv: ZIP encoding is not modelled; the ZIP layer may request any bytes and may finish at any time, but cannot report success after a write refused by closure. Which of its calls retry an interrupted write and which give up is not modelled either: retrying is the standard library's contract for `write_all`, and giving up is a separate step.
- Goal.RunKeepsInv: the journal's payload, tool commit gates and context contribution are not modelled; the store's transactions are atomic steps.
- NumberDraft.DisplayReadsBack: fractional values are displayed by JavaScript's shortest round-trip printing, which is not modelled; rounding of `Number(text)` is not modelled beyond its range and its exactness on integers binary64 holds.
- RepairObserver.RunKeepsInv: sequences are natural numbers rather than decimal text; notices before the authority is known and the queue of recovery reads are not modelled.
- Scheduler.ResolveExactly: calendar expressions are not modelled, nor time zones and leap seconds.
- RequestParams.ParseRequestParams: which spelled documents are beyond the JSON parser's limits (nesting depth, lone surrogates) is a parameter, and so is the exactness of one literal, whose meaning is `DecimalValue.ExactMeansOneValue`; a text that repeats a key and is malformed after it is a syntax error here and a duplicate key in the source, and line and column of syntax and duplicate errors are not modelled.
- DecimalValue.ExactMeansOneValue: what is emitted for a literal and what binary64 prints are given as spellings; their computation is not modelled.
- TestLanes.Check: libtest arguments are a structured selection rather than a flat list, and findings are values rather than sorted text; the summary lines are not modelled.
- Workflow, YAML and command-line parsing around the lane checker: string handling, not coverage.
- The other chunked readers, configuration records, credentials, extensions, workflow files, the TUI and the web console: they repeat a range loop covered here or are presentation and plumbing.
