# DCS copilot: verified models

Dafny models of the deterministic core of the DCS copilot, a desktop client that reads a flight simulator's
cockpit and a cloud backend that reasons about it, with proofs of what that core promises.

**The cockpit telemetry pipeline.** `BiosProtocol`, `BiosState`, `BiosRegistry` and `BiosClient` model the path from
DCS-BIOS bytes to reported control values: an incremental parser that holds back sync bytes, the 64 KiB address space,
the range index, and the cache of decoded values. `Publisher` turns reports into catalog, snapshot and delta messages,
`Connection` is the bounded queue that may refuse or drop them, `Ingress` accepts them on the backend, and `RawStore`
mirrors the result. `Pipeline` composes them into a state machine whose steps are a byte, a timeout, a flush, a foreign
frame, a writer turn, an arrival, a drop and a connect, in any order; `PipelineSafety` proves its invariant step by step
(with `Delivery` and `Mirror`), `PipelineRuns` carries it over runs, `Draining` proves progress, and `PipelineTheorems`
states the main results, each for every run; those about time rest on `PipelineClocks`, a clock kept as history beside
the pipeline. `Coalescing` says exactly what coalescing loses, `Conservation` counts what becomes of each value, and
`Acceptance` decides, for every run, what the ingress accepts.

**Rules, events and habits.** `Rules` gives one rule's debounced lifecycle twice, incrementally as the engine keeps it
and as a definition over the whole history, and proves them equal; `RuleEngine` lifts that to many rules. `Events`,
`Habits` and `StateStore` add the event manager, the flight statistics and the order in which the store drives them;
`StoreTheorems` states the results for every run of updates, and `AircraftStateStore` holds the mutable objects. Rule verdicts and
the normalized state are arbitrary inputs.

**Checklists.** `Stages` models the depth-first stage walk and the constructor's validation, `Checklists` the evaluation
and guided session, `GuidedChecklist` the mutable engine.

**Smaller cores.** `Indications` reassembles datagrams, `History` keeps the bounded transition log, `Conditions`
evaluates declarative conditions.

In each module the operations are functions on values, with the properties proved about them; the classes carry the
source's mutable fields and loops, and their methods are proved equal to those functions. Times are reals supplied as
inputs, epochs and identifiers are counters. `Wire` holds the protocol's types and bounds, `InsertionDict` Python's
ordered dictionary.

Hypotheses of the pipeline results (`Pipeline.SoundEnv`): unique control identities located inside the address space,
at most 4096 controls for an aircraft, strings of at most 256 characters, an aircraft name of at most 64, declared
maxima that cover their masks, queue bounds and a store of at least 4096 controls. They also assume that a reset's
update of the aircraft state does not raise, that is, no flight with a rule above a hundred activations: a raise ends
the session, and the raw store is not reset (`RawStore.ApplyTelemetryBatch` models it).

Where a promise is not met, the exact condition is proved, with inputs that reach its failing side:

- a frame body is parsed back if and only if it is clean of sync bytes (`BiosProtocol.ParserInvertsEncoder`), which two
  legal writes are not (`BiosProtocol.SyncBytesBreakFrames`);
- the ingress can reject what the publisher delivers if and only if a declared maximum is below its mask
  (`PipelineTheorems.RangesDecideRejection`), and some run from power-on gets there (`RangeRejections.RejectionIsReachable`);
- a switch loses a transition if and only if a differing value overwrites one in a full queue
  (`Coalescing.SwitchTransitionsSurvive`), as one flip above the limit does (`Coalescing.FullSwitchQueueLoses`);
- a flight's summary is refused if and only if a covered rule was activated more than a hundred times
  (`Habits.RefusedExactlyAboveHundred`); every later change of aircraft or disconnect then fails
  (`StoreTheorems.RefusalSticks`), and a run gets there (`RefusedFlights.RefusalIsReachable`);
- a guided checklist ends if and only if no open item has a blank identifier (`Checklists.GuidedChecklistTerminates`),
  and a definition with one is accepted and gets stuck (`Checklists.BlankItemIsStuck`);
- a threshold is kept if and only if it is positive (`History.ThresholdsAreKept`);
- a condition that has lasted held throughout if it looks at the present alone (`Conditions.LastingHeldThroughout`),
  but a duration around another one is not waited for at all (`Conditions.OuterDurationIsIgnored`).

## Model

| member | source | states |
|---|---|---|
| `PipelineTheorems.MirrorAgreement` | client/dcs_copilot/telemetry/publisher.py:96-236 | in every state of every run, while an epoch is live, delivering the undelivered messages and overlaying the queued values gives for each published control exactly the value the client last snapshotted or reported |
| `PipelineTheorems.NothingIsRejected` | cloud/dcs_copilot_cloud/telemetry.py:62-195 | in every interleaving of bytes, flushes, refused sends, aircraft changes, timeouts, drops and reconnects the ingress rejects no message the publisher delivers |
| `PipelineTheorems.QueueStaysBounded` | client/dcs_copilot/network/connection.py:316-341 | in every run at most `queue_size` stream frames wait, and a ready queue refuses a control frame only while sixteen non-stream frames wait |
| `PipelineTheorems.CachedValuesAreFresh` | client/dcs_copilot/dcs/bios_client.py:260-295 | in every run, when a frame completes nothing is pending and every cached decoded value equals a fresh decode of the address space |
| `PipelineTheorems.FrameReachesBackend` | client/dcs_copilot/dcs/bios_client.py:166-176 | in every run, when a frame completes, what the backend will hold for each published control is a fresh decode of the client's address space |
| `PipelineTheorems.DrainedMeansEqual` | cloud/dcs_copilot_cloud/app.py:831-868 | in every run, once nothing is queued or under way the ingress is ready and the raw store equals the client's reported values |
| `PipelineTheorems.NoEarlierData` | client/dcs_copilot/dcs/bios_client.py:205-225 | in every run each control decodes as on a blank address space to which only the writes since the aircraft-change frame were applied |
| `PipelineTheorems.AircraftChangeShowsOnlyItsFrame` | client/dcs_copilot/dcs/bios_client.py:195-225 | in every run an aircraft change leaves the buffer contents as they were and makes visible exactly the bytes the completed frame wrote |
| `PipelineTheorems.AircraftIsNamed` | client/dcs_copilot/dcs/bios_client.py:195-225 | in every run, when a frame completes the client's aircraft is the text that the control naming it shows in the address space, and none if that is nothing, empty or NONE |
| `PipelineTheorems.RefreshesExactlyWhenDue` | client/dcs_copilot/telemetry/publisher.py:96-206 | in every run, a flush that has sent the whole opening while the client hears the simulator leaves the present value of every decodable published control last among those sent in its delta or queued, if the refresh interval has passed since the epoch began or was last refreshed; otherwise what is sent and queued is what was queued before |
| `PipelineTheorems.EpochIsLiveExactly` | client/dcs_copilot/telemetry/publisher.py:81-187 | in every run an epoch is live if and only if the connection is ready and the client has an aircraft |
| `PipelineTheorems.TimesOutExactly` | client/dcs_copilot/dcs/bios_client.py:178-193 | in every run a timeout check hides every byte, forgets aircraft and values and ends the epoch if no frame was completed for longer than the timeout, and otherwise changes nothing |
| `PipelineTheorems.ArrivalsAreStamped` | cloud/dcs_copilot_cloud/app.py:831-868 | in every run, a snapshot or delta that arrives leaves each control it mentions with its newest value and the time of arrival, or absent if that value is unavailable, and every other control as it was |
| `PipelineRuns.AircraftChangeKeepsContents` | client/dcs_copilot/dcs/bios_client.py:205-219 | clearing availability and replaying a frame that the buffer reflects changes no content, empties the cache and shows the last write at each address |
| `PipelineRuns.RunReflects` | client/dcs_copilot/dcs/bios_protocol.py:77-134 | in every run the buffer holds the bytes of the writes of the frame under way, through timeouts, flushes and aircraft changes |
| `PipelineTheorems.MetadataConditionIsExact` | cloud/dcs_copilot_cloud/telemetry.py:158-181 | a control's values fit its catalog entry in every address space if and only if its declared maximum reaches the top of its mask |
| `PipelineTheorems.RangesDecideRejection` | cloud/dcs_copilot_cloud/telemetry.py:158-181 | the publisher's messages are accepted in every run of every otherwise sound environment with controls of one kind if and only if the kind's declared maximum reaches the top of its mask |
| `RangeRejections.RejectionIsReachable` | cloud/dcs_copilot_cloud/telemetry.py:95-181 | for every control whose maximum is below its mask a run from power-on ends with the rejection of a message the publisher delivered |
| `ByteRuns.BytesAreOneChunk` | client/dcs_copilot/dcs/bios_protocol.py:61-75 | bytes fed one step at a time do to client and publisher what handling the whole chunk's events in order does |
| `Draining.FlushLowersBacklog` | client/dcs_copilot/telemetry/publisher.py:96-132 | with no refresh due, a flush lowers `pending_count` by at least the messages it queues, and lowers it if and only if something is pending, the queue is ready with room and the sequence limit is not reached |
| `PipelineTheorems.DrainingTerminates` | client/dcs_copilot/telemetry/publisher.py:75-132 | from any state a run can reach, with a live epoch, a ready connection, no refresh due and sequence numbers left, `pending_count` + 1 rounds of flush, write and receive leave nothing pending and both sides equal |
| `PipelineSafety.StepKeepsInv` | client/dcs_copilot/telemetry/publisher.py:81-252 | every step of the pipeline keeps the agreement of publisher, queue, transport, ingress and store, and the queue's bound |
| `PipelineSafety.RunKeepsInv` | client/dcs_copilot/telemetry/publisher.py:81-252 | every run of steps, of any length and order, keeps that agreement and the queue's bound |
| `PipelineSafety.StepKeepsSane` | client/dcs_copilot/telemetry/publisher.py:81-252 | every step is defined after every other, also where the metadata is not sound |
| `PipelineSafety.ReceiveDelivers` | cloud/dcs_copilot_cloud/app.py:831-868 | a received message is accepted, its batch applies without failure, and the store changes as a plain map would |
| `PipelineSafety.BeginIsLive` | client/dcs_copilot/telemetry/publisher.py:142-187 | an epoch's opening, queued behind anything still undelivered, makes the backend ready for the first delta and equal to the snapshot |
| `PipelineSafety.SendInitialMoves` | client/dcs_copilot/telemetry/publisher.py:99-102 | however many opening messages a flush gets through, none is lost, repeated or reordered |
| `Mirror.QueueKeepsLive` | client/dcs_copilot/telemetry/publisher.py:208-236 | queueing a newly reported value, coalesced or not, keeps the agreement and never drops the value |
| `Mirror.ReportKeepsLive` | client/dcs_copilot/telemetry/publisher.py:189-196 | reporting a frame's changes through the callback keeps the agreement, also for controls that are not published |
| `Mirror.RefreshKeepsLive` | client/dcs_copilot/telemetry/publisher.py:198-206 | queueing a refresh snapshot keeps the agreement |
| `Mirror.DeltaKeepsLive` | client/dcs_copilot/telemetry/publisher.py:104-132 | an accepted delta of the queues' heads is legal, is accepted, and leaves the agreement as it was |
| `Mirror.PopHeadsAt` | client/dcs_copilot/telemetry/publisher.py:128-132 | after a delta each chosen control has lost exactly its oldest value and controls without values are gone |
| `Coalescing.SwitchTransitionsSurvive` | client/dcs_copilot/telemetry/publisher.py:208-236 | over any run, the values sent for a switch followed by those queued equal the observed values after removing adjacent repeats from both, if and only if no differing value overwrote a transition in a full queue |
| `Coalescing.FullSwitchQueueLoses` | client/dcs_copilot/telemetry/publisher.py:229-236 | whatever the limit, flipping a switch once more than it, without a flush, loses a transition |
| `Coalescing.OthersQueueTheNewest` | client/dcs_copilot/telemetry/publisher.py:229-236 | any other control queues at most one value, always the newest observed |
| `Conservation.EveryValueIsCounted` | client/dcs_copilot/telemetry/publisher.py:104-132 | over any run of observations and flushes, also without room for every control, every value observed was sent, is queued, or is counted as coalesced or dropped, and exactly the values of controls that found no room were dropped |
| `Conservation.DeltaIsOldestFirst` | client/dcs_copilot/telemetry/publisher.py:104-132 | a delta carries the oldest value of each of the first 1024 controls in the order in which they were queued; there is none only when nothing is queued or the sequence numbers are used up |
| `Publisher.MillisAreNearest` | client/dcs_copilot/telemetry/publisher.py:272-278 | a time is sent as the nearest millisecond, halfway the even one, and as zero before zero |
| `Publisher.EntriesTellControls` | client/dcs_copilot/telemetry/publisher.py:253-269 | a catalog entry tells controls apart by module, name, index and kind, and gives their range |
| `Delivery.DeliverOpening` | client/dcs_copilot/telemetry/publisher.py:142-187 | delivering a catalog and snapshot of up to 4096 controls to any backend of another epoch is never rejected and leaves it ready, with the snapshot's readings |
| `Delivery.OpeningAcceptedExactly` | cloud/dcs_copilot_cloud/telemetry.py:95-130 | any backend of another epoch takes an opening if and only if every snapshot value passes the check against the catalog sent before it |
| `Delivery.ChunksPartition` | client/dcs_copilot/telemetry/publisher.py:281-282 | chunking loses, repeats and reorders nothing and keeps every chunk within its size |
| `Delivery.DeliverDelta` | cloud/dcs_copilot_cloud/telemetry.py:132-149 | a ready ingress accepts the next delta of checked values and passes exactly them on |
| `Publisher.TelemetryPublisher.FlushTo` | client/dcs_copilot/telemetry/publisher.py:96-132 | the loops of a flush send the opening until refused, refresh when due, then send one delta; the new state is the specified one |
| `Publisher.TelemetryPublisher.CollectHeads` | client/dcs_copilot/telemetry/publisher.py:106-114 | up to 1024 controls with queued values in insertion order, with their oldest values |
| `Publisher.TelemetryPublisher.StartEpoch` | client/dcs_copilot/telemetry/publisher.py:142-187 | a reset and, with an aircraft, every catalog and snapshot chunk numbered from zero |
| `Publisher.TelemetryPublisher.QueueNew` | client/dcs_copilot/telemetry/publisher.py:208-236 | one value joins its control's queue, replaces the newest, or is counted as dropped |
| `Publisher.TelemetryPublisher.RefreshUnchangedValues` | client/dcs_copilot/telemetry/publisher.py:198-206 | a due refresh queues the whole snapshot; a timeout noticed there resets the publisher |
| `Publisher.TelemetryPublisher.OnControlChanged` | client/dcs_copilot/telemetry/publisher.py:189-196 | changes outside a live epoch or its modules are ignored |
| `Publisher.TelemetryPublisher.SetSessionActive` | client/dcs_copilot/telemetry/publisher.py:81-86 | ending a session discards everything, starting one begins an epoch |
| `Connection.RunKeepsBound` | client/dcs_copilot/network/connection.py:316-341 | every run of queue operations keeps at most the limit of stream frames, and limit plus sixteen frames |
| `Connection.ControlRefusal` | client/dcs_copilot/network/connection.py:181-193 | a ready queue refuses a control frame if and only if it is full, and then sixteen control frames wait |
| `Connection.StreamRefusal` | client/dcs_copilot/network/connection.py:316-327 | a stream frame is queued if and only if the connection is ready and fewer than the limit wait, and only refused audio is counted |
| `Connection.FramesLeaveInOrder` | client/dcs_copilot/network/connection.py:249-259 | while a connection lasts the writer takes exactly the frames that were queued, in order |
| `Connection.RefusedAudioIsCounted` | client/dcs_copilot/network/connection.py:316-327 | over any run the counter of dropped audio has grown by the audio frames refused by a ready, full queue |
| `Connection.CloudSessionConnection.SendMessage` | client/dcs_copilot/network/connection.py:181-193 | what a send does to the queue, and its answer |
| `Connection.CloudSessionConnection.EnqueueFrame` | client/dcs_copilot/network/connection.py:316-327 | stream frames are refused at the limit, others at limit plus the reserve; refused audio is counted |
| `Connection.CloudSessionConnection.Write` | client/dcs_copilot/network/connection.py:249-259 | the writer takes the oldest frame |
| `Connection.CloudSessionConnection.SetDisconnected` | client/dcs_copilot/network/connection.py:329-341 | a disconnect empties the queue |
| `Ingress.AcceptKeepsStream` | cloud/dcs_copilot_cloud/telemetry.py:50-195 | whatever message arrives, the accepted messages stay numbered 0, 1, 2, ..., read as catalog chunks, snapshot chunks and deltas, and at most 4096 checked controls are held |
| `Ingress.Run` | cloud/dcs_copilot_cloud/telemetry.py:50-212 | the same for every run of arbitrary messages and disconnects |
| `Ingress.EmittedValuesWereChecked` | cloud/dcs_copilot_cloud/telemetry.py:112-149 | every value of an emitted batch was checked against an entry of the epoch's catalog |
| `Ingress.OneSnapshotPerEpoch` | cloud/dcs_copilot_cloud/telemetry.py:119-149 | a snapshot batch is emitted exactly at the step that makes the stream ready, deltas only after it, and only a new epoch ends readiness |
| `Ingress.RejectionKeepsPlace` | cloud/dcs_copilot_cloud/telemetry.py:83-88 | a rejected delta changes nothing; a rejected chunk keeps sequence, chunk counters and readiness |
| `Ingress.CatalogGrows` | cloud/dcs_copilot_cloud/telemetry.py:62-93 | only the start of an epoch drops catalog entries, and it emits a reset batch |
| `Ingress.FirstChunkInserts` | cloud/dcs_copilot_cloud/telemetry.py:83-88 | the first chunk of an epoch can never fault |
| `Acceptance.LegalExactly` | shared/dcs_copilot_protocol/telemetry.py:201-401 | a message is legal if and only if its numbers, its aircraft's name, its chunk and its distinct, well typed contents are within the protocol's bounds |
| `Acceptance.CatalogAcceptedExactly` | cloud/dcs_copilot_cloud/telemetry.py:62-93 | in every run a catalog chunk is accepted if and only if it is the first of another epoch, or the next of the catalog under way with only new controls and room for them; it adds its entries in order and announces exactly a new epoch |
| `Acceptance.SnapshotAcceptedExactly` | cloud/dcs_copilot_cloud/telemetry.py:95-130 | in every run a snapshot chunk is accepted if and only if it is the next after a whole catalog, of as many chunks as announced, with only new values that the catalog allows; the last one emits the whole catalog and all values in order |
| `Acceptance.DeltaAcceptedExactly` | cloud/dcs_copilot_cloud/telemetry.py:132-149 | in every run a delta is accepted if and only if it is the next message after a whole snapshot, in one chunk, and the catalog allows each value; it is emitted as it is |
| `Acceptance.InsertsPrefix` | cloud/dcs_copilot_cloud/telemetry.py:83-88 | entries are kept up to the first one that is known already or finds the session full |
| `Acceptance.ValuesPrefix` | cloud/dcs_copilot_cloud/telemetry.py:112-118 | values are kept up to the first one that the catalog does not allow or that is held already; a snapshot never finds the session full |
| `Ingress.TelemetryIngress.AcceptMessage` | cloud/dcs_copilot_cloud/telemetry.py:50-57 | the handler's outcome and new state for any message |
| `Ingress.TelemetryIngress.TakeCatalog` | cloud/dcs_copilot_cloud/telemetry.py:62-93 | the branches of a catalog chunk, keeping the entries inserted before a fault |
| `Ingress.TelemetryIngress.TakeSnapshot` | cloud/dcs_copilot_cloud/telemetry.py:95-130 | the branches of a snapshot chunk, keeping the values inserted before a fault |
| `Ingress.TelemetryIngress.TakeDelta` | cloud/dcs_copilot_cloud/telemetry.py:132-149 | a delta is accepted only in sequence, whole and fully checked |
| `RawStore.BatchNeverEvicts` | cloud/dcs_copilot_cloud/aircraft/raw.py:58-87 | whatever message arrives, applying its batch to a store of 4096 controls never fails and never evicts |
| `RawStore.AppliedAllKeepsReadings` | cloud/dcs_copilot_cloud/aircraft/raw.py:77-87 | while keys come from a set within the capacity, a batch of updates and removals changes the store as a plain map |
| `RawStore.BatchEntries` | cloud/dcs_copilot_cloud/app.py:831-868 | after a batch within the capacity the entry of a control is its last value with the batch's time, or absent if that value is unavailable, or the old entry if the batch does not mention it |
| `RawStore.UpdatedKeepsNewest` | cloud/dcs_copilot_cloud/aircraft/raw.py:77-84 | whatever the capacity, an update puts the control last and keeps the newest that fit, in the order of their updates |
| `RawStore.CatalogMaxima` | cloud/dcs_copilot_cloud/aircraft/raw.py:58-68 | a catalog that fits holds the old and the new controls, each with the newest maximum it was given |
| `RawStore.FullCatalogStops` | cloud/dcs_copilot_cloud/aircraft/raw.py:58-68 | registration stops exactly at the first new control that finds the catalog full |
| `RawStore.ApplyTelemetryBatch` | cloud/dcs_copilot_cloud/app.py:831-868 | a reset empties the store unless its state update raises, a snapshot registers its catalog then stores its values, a delta stores or removes values; a full catalog stops before any value and keeps what was registered |
| `RawStore.RawTelemetryStore.Update` | cloud/dcs_copilot_cloud/aircraft/raw.py:77-84 | a known control moves to the end, a new one evicts the oldest of a full store |
| `RawStore.RawTelemetryStore.CatalogRegister` | cloud/dcs_copilot_cloud/aircraft/raw.py:58-68 | a new control is refused by a full catalog; a known one keeps or updates its maximum |
| `RawStore.RawTelemetryStore.MarkUnavailable` | cloud/dcs_copilot_cloud/aircraft/raw.py:86-87 | the control is removed if present |
| `BiosProtocol.ParserInvertsEncoder` | client/dcs_copilot/dcs/bios_protocol.py:61-133 | from any state without held-back bytes, sync + encoded writes + sync completes a frame with exactly those writes if and only if the body has no run of four 0x55 and does not end in 0x55; then the events are exactly those writes and that frame |
| `BiosProtocol.SyncBytesBreakFrames` | client/dcs_copilot/dcs/bios_protocol.py:64-74 | a legal write of four 0x55, and one that ends in 0x55, encode to bodies that are not clean, and no frame with them is completed |
| `BiosProtocol.ScanInvertsEncode` | client/dcs_copilot/dcs/bios_protocol.py:95-133 | reading the frame grammar of an encoding gives the writes back |
| `BiosProtocol.FeedConcat` | client/dcs_copilot/dcs/bios_protocol.py:61-75 | feeding a then b is feeding a + b |
| `BiosProtocol.ChunksDoNotMatter` | client/dcs_copilot/dcs/bios_protocol.py:61-140 | however a stream is cut and whenever the pieces arrive, state and callbacks agree but for arrival times |
| `BiosProtocol.StreamWrites` | client/dcs_copilot/dcs/bios_protocol.py:61-140 | after a marker the writes applied are exactly the complete valid writes of each frame body, for any bytes |
| `BiosProtocol.PowerOnWrites` | client/dcs_copilot/dcs/bios_protocol.py:61-140 | from power-on everything before the first marker is noise, and nothing of a truncated or malformed write is applied |
| `BiosProtocol.ReplayedIsFold` | client/dcs_copilot/dcs/bios_state.py:29-43 | the address space after any events is the fold of `apply_write` over their writes |
| `BiosProtocol.FeedKeepsValid` | client/dcs_copilot/dcs/bios_protocol.py:61-140 | every state keeps the parser's bounds on run, header, payload and frame writes |
| `BiosProtocol.UncleanFramesAreShorter` | client/dcs_copilot/dcs/bios_protocol.py:61-133 | a body that is not clean cannot complete a frame that accounts for all its bytes |
| `BiosProtocol.CountersAreExact` | client/dcs_copilot/dcs/bios_protocol.py:77-133 | over any stream the error counter grows by exactly the frames lost, to a malformed header or a marker inside a write, and the completed frames are numbered 1, 2, 3, ... up to the frame counter |
| `BiosProtocol.HeaderDecides` | client/dcs_copilot/dcs/bios_protocol.py:95-123 | a write's header is followed by data if and only if its little-endian address is not a marker's and its count is positive, even and within the address space; else the frame is lost and counted as an error |
| `BiosProtocol.DcsBiosProtocolParser.FeedBytes` | client/dcs_copilot/dcs/bios_protocol.py:61-75 | the byte loop reaches the specified state, returns the frames completed in it, and changes the address space by exactly the new writes |
| `BiosProtocol.DcsBiosProtocolParser.HandleSyncMarker` | client/dcs_copilot/dcs/bios_protocol.py:77-93 | a marker ends, drops or begins a frame |
| `BiosProtocol.DcsBiosProtocolParser.ConsumeByte` | client/dcs_copilot/dcs/bios_protocol.py:95-133 | one data byte moves the state machine, applying a write when its payload is complete |
| `BiosState.ReplayShowsExactlyTheWrites` | client/dcs_copilot/dcs/bios_state.py:29-54 | after clearing and replaying, a byte is visible if and only if a replayed write covers it, with the last such value |
| `BiosState.ReplayKeepsContents` | client/dcs_copilot/dcs/bios_state.py:29-54 | clearing availability and replaying writes already applied leaves the buffer contents unchanged |
| `BiosState.UnchangingWriteIsInvisible` | client/dcs_copilot/dcs/bios_state.py:36-43 | a write reported as unchanged alters nothing a reader can see |
| `BiosState.CellsAreLastWritten` | client/dcs_copilot/dcs/bios_state.py:29-43 | after any writes a cell holds the byte and the time of the last write that covers it, and is as before if none does |
| `BiosState.OldestIsLeast` | client/dcs_copilot/dcs/bios_state.py:56-63 | the time of a range is the least of its bytes' times |
| `BiosState.DcsBiosState.ApplyWrite` | client/dcs_copilot/dcs/bios_state.py:29-43 | three slices are overwritten; `changed` is exactly whether a byte changed or became available; out of range nothing happens |
| `BiosState.DcsBiosState.Read` | client/dcs_copilot/dcs/bios_state.py:45-51 | an error outside the space; else present, with the contents, if and only if wholly available |
| `BiosState.DcsBiosState.UpdatedAtRange` | client/dcs_copilot/dcs/bios_state.py:56-63 | an error outside the space; else the oldest write time of a wholly available, nonempty range |
| `BiosState.DcsBiosState.ClearAvailability` | client/dcs_copilot/dcs/bios_state.py:53-54 | everything is hidden, contents and times stay |
| `BiosRegistry.DcsBiosControlRegistry.Load` | client/dcs_copilot/dcs/bios_registry.py:125-152 | the index holds at each address exactly the definitions that read it |
| `BiosRegistry.DcsBiosControlRegistry.DefinitionsForRange` | client/dcs_copilot/dcs/bios_registry.py:271-277 | the indexed search equals the brute-force set of definitions overlapping the range |
| `BiosRegistry.DeclaredRangeIsExact` | client/dcs_copilot/dcs/bios_registry.py:289-299 | every bit pattern decodes into the declared range if and only if the declared maximum reaches the top of mask and shift |
| `BiosRegistry.DefaultMaximumCovers` | client/dcs_copilot/dcs/bios_registry.py:200-246 | a maximum defaulted to mask shifted right always covers the decoded range |
| `BiosRegistry.DecodeDependsOnVisible` | client/dcs_copilot/dcs/bios_registry.py:289-299 | decoding depends only on the visible bytes of the control's own range |
| `BiosRegistry.IntegerBits` | client/dcs_copilot/dcs/bios_registry.py:289-299 | bit i of a decoded number is bit i + shift of the mask and of the little-endian word, that is of byte (i + shift) / 8, and zero beyond it; `BitsDecide` shows that the bits determine the number |
| `BiosRegistry.TextIsPrefix` | client/dcs_copilot/dcs/bios_registry.py:289-299 | a decoded text is the longest prefix of the bytes before any NUL that does not end in white space |
| `BiosRegistry.ActiveExactly` | client/dcs_copilot/dcs/bios_registry.py:279-281 | the published controls are those of the aircraft's own modules, its aliases if it has any, and of the common data |
| `BiosRegistry.AircraftNameIsFirst` | client/dcs_copilot/dcs/bios_client.py:195-202 | the aircraft is named by the first string control `_ACFT_NAME` of `MetadataStart` |
| `BiosRegistry.DecodeFrom` | client/dcs_copilot/dcs/bios_registry.py:289-299 | decoding from the live arrays is decoding the abstract space |
| `BiosClient.OnWriteKeepsTracks` | client/dcs_copilot/dcs/bios_client.py:160-164 | after any write a cached value is current or its definition is pending |
| `BiosClient.MarkedExactly` | client/dcs_copilot/dcs/bios_client.py:160-164 | a write that shows a reader something new marks exactly the controls that read a byte of it, any other marks none |
| `BiosClient.EmitSettles` | client/dcs_copilot/dcs/bios_client.py:260-295 | after a frame's changes are emitted nothing is pending and every cached value is a fresh decode |
| `BiosClient.ChangesAreReported` | client/dcs_copilot/dcs/bios_client.py:260-295 | a completed frame reports, in listing order, exactly the pending controls of watched modules that decode to something else than was last reported, each with its present value and the time of its oldest byte |
| `BiosClient.DecodedSnapshotTracks` | client/dcs_copilot/dcs/bios_client.py:247-258 | a snapshot brings every active control up to date and touches nothing else |
| `BiosClient.ReportIsFresh` | client/dcs_copilot/dcs/bios_client.py:264-294 | a report settles exactly the definitions it visits |
| `BiosClient.UpdateAircraftTracks` | client/dcs_copilot/dcs/bios_client.py:195-225 | following the aircraft keeps the cache consistent and does nothing when the aircraft is the same |
| `BiosClient.DcsBiosClient.TakeWrite` | client/dcs_copilot/dcs/bios_client.py:160-164 | a changing write makes the controls it overlaps pending |
| `BiosClient.DcsBiosClient.EmitChanges` | client/dcs_copilot/dcs/bios_client.py:260-295 | the sorted loop reports watched controls whose decoded value differs and clears the pending set |
| `BiosClient.DcsBiosClient.TakeSnapshot` | client/dcs_copilot/dcs/bios_client.py:247-258 | the loop over active definitions reports every decodable one and caches its value |
| `BiosClient.DcsBiosClient.FollowAircraft` | client/dcs_copilot/dcs/bios_client.py:195-225 | an aircraft change hides everything, replays the frame and empties the cache |
| `BiosClient.DcsBiosClient.ExpireIfStale` | client/dcs_copilot/dcs/bios_client.py:178-189 | a timeout hides and forgets everything, otherwise nothing changes |
| `Rules.LifecycleFollowsHistory` | cloud/dcs_copilot_cloud/rules/engine.py:143-313 | the incremental runtime and its transitions are those of a definition over the whole history of evaluations and resets |
| `Rules.RaisedExactlyAfterDebounce` | cloud/dcs_copilot_cloud/rules/engine.py:208-256 | an issue is raised exactly when the rule, inactive, was applicable and violated throughout a longest streak that began at least the debounce time ago |
| `Rules.RaisedMeansViolatedThroughout` | cloud/dcs_copilot_cloud/rules/engine.py:208-256 | every evaluation of that streak found the rule applicable and violated |
| `Rules.ResolvedExactlyAfterDebounce` | cloud/dcs_copilot_cloud/rules/engine.py:208-256 | a resolution comes exactly when the rule, active, was clear throughout a streak of at least the release time |
| `Rules.ResolvedMeansClearThroughout` | cloud/dcs_copilot_cloud/rules/engine.py:208-256 | every evaluation of that streak found the rule applicable and clear |
| `Rules.EligibleExactlyAfterCooldown` | cloud/dcs_copilot_cloud/rules/engine.py:281-292 | an activation is eligible exactly when none was since the last reset or the last was a cooldown ago |
| `Rules.CooldownSeparates` | cloud/dcs_copilot_cloud/rules/engine.py:281-292 | between resets any two eligible activations of a rule are at least its cooldown apart |
| `Rules.IssueFollowsHistory` | cloud/dcs_copilot_cloud/rules/engine.py:208-313 | the active issue and every transition's issue are given by the history of inputs: raised with the rule's severity and metadata and the aircraft and phase seen then, refreshed by each later violation, closed as last seen |
| `RuleEngine.EachRuleRunsAlone` | cloud/dcs_copilot_cloud/rules/engine.py:143-186 | in every run of the engine each rule has the runtime and transitions it would have alone |
| `RuleEngine.TransitionsAlternate` | cloud/dcs_copilot_cloud/rules/engine.py:143-186 | each rule's transitions alternate between ACTIVATED and RESOLVED or DISABLED, and it is active exactly after an odd number |
| `AircraftStateStore.Engine.Operate` | cloud/dcs_copilot_cloud/rules/engine.py:143-186 | the loop over rules steps each and passes every transition to the event manager and then the statistics |
| `AircraftStateStore.Engine.AdvanceRule` | cloud/dcs_copilot_cloud/rules/engine.py:208-256 | the candidate, debounce and refresh branches of one evaluation |
| `AircraftStateStore.Engine.ActivateRule` | cloud/dcs_copilot_cloud/rules/engine.py:259-293 | the issue, its merged data and the eligibility of an activation |
| `AircraftStateStore.Engine.DeactivateRule` | cloud/dcs_copilot_cloud/rules/engine.py:295-313 | the closing transition, if an issue was active |
| `AircraftStateStore.Engine.StepRule` | cloud/dcs_copilot_cloud/rules/engine.py:150-166 | a rule that is not applicable is disabled, any other is advanced; a reset also forgets the last notification |
| `Events.HandleKeepsPairing` | cloud/dcs_copilot_cloud/events/manager.py:48-85 | a transition that fits what is open keeps raises and closes paired and never needs the fallback identifier |
| `Events.SameIdentifierMeansClosed` | cloud/dcs_copilot_cloud/events/manager.py:48-85 | in a paired log a second event with an identifier closes the first, of the same rule, published alike, with no event of that rule between |
| `Events.ClosedAtMostOnce` | cloud/dcs_copilot_cloud/events/manager.py:48-85 | each identifier is closed at most once |
| `Events.EventManager.HandleTransition` | cloud/dcs_copilot_cloud/events/manager.py:48-85 | the manager's new maps, sets, bounded history and event |
| `Events.EventManager.Reset` | cloud/dcs_copilot_cloud/events/manager.py:42-46 | open and published identifiers are forgotten, the history on request |
| `StoreTheorems.EventsArePaired` | cloud/dcs_copilot_cloud/state/store.py:110-150 | in every run of the store the event log is paired and the open identifiers match the active issues one for one |
| `StoreTheorems.RulesFollowTheirHistory` | cloud/dcs_copilot_cloud/state/store.py:110-150 | in every run of the store a rule is active, and has an open event, exactly when its history says so |
| `StoreTheorems.HabitCountsAreConserved` | cloud/dcs_copilot_cloud/habits/manager.py:39-81 | after any run, an update that ends a flight reports exactly the rules evaluable at some update of it with the number of activations the engine emitted in it, or is refused because that summary is illegal; other updates report nothing |
| `StoreTheorems.RefusalSticks` | cloud/dcs_copilot_cloud/habits/manager.py:49-66 | a refused summary leaves the statistics, so every later update of another aircraft is refused, too |
| `StoreTheorems.EventsTellTransitions` | cloud/dcs_copilot_cloud/events/manager.py:48-86 | in every run the emitted events are the engine's transitions one for one, in order, with their rule, severity, aircraft, phase, message, data and time; a raise is published and spoken if and only if the policy in force allowed it |
| `StoreTheorems.UpdatesAreInputs` | cloud/dcs_copilot_cloud/state/store.py:110-150 | after any run an update resets the engine if and only if it changes the aircraft or disconnects, then evaluates the rules if it is connected, and stops where the summary of the flight it ends is refused |
| `StoreTheorems.IssuesAreHome` | cloud/dcs_copilot_cloud/state/store.py:110-150 | in every run an active issue's aircraft is the store's current aircraft, and the store is connected |
| `StoreTheorems.LeavingClosesOpenEvents` | cloud/dcs_copilot_cloud/state/store.py:110-150 | after any run an update that changes the aircraft or disconnects first logs a DISABLED event at its time for exactly the events open before it, under their identifiers, and the history starts anew after them; any other update adds its events to it, and the newest `historySize` are kept |
| `StoreTheorems.PendingIsNewest` | cloud/dcs_copilot_cloud/habits/manager.py:49-66 | in every run the pending summaries are the newest finished flights up to the limit, in order |
| `RefusedFlights.RefusedAfterHundred` | cloud/dcs_copilot_cloud/habits/manager.py:49-66 | a flight in which one habit rule was violated and cleared n times is summarised with the count n, or refused if and only if n is above a hundred |
| `RefusedFlights.RefusalIsReachable` | cloud/dcs_copilot_cloud/habits/manager.py:49-66 | a run of the store reaches a refusal after which every change of aircraft is refused |
| `StateStore.RunKeepsInv` | cloud/dcs_copilot_cloud/state/store.py:110-150 | in every run of updates the engine, the event log and the statistics stay consistent with the history of inputs |
| `StateStore.ApplyKeepsInv` | cloud/dcs_copilot_cloud/state/store.py:110-150 | every update keeps all of this, in the order the store drives engine, events and statistics |
| `Habits.FinishReportsFlight` | cloud/dcs_copilot_cloud/habits/manager.py:49-66 | a finished flight's summary is its coverage and counts, refused exactly when that is illegal |
| `Habits.RefusedExactlyAboveHundred` | cloud/dcs_copilot_cloud/habits/models.py:44-59 | with allowlisted rules and a proper aircraft name a summary is refused exactly when a covered rule was activated more than a hundred times |
| `Habits.OnTransitionsCounts` | cloud/dcs_copilot_cloud/habits/manager.py:75-81 | counting adds exactly the activations of covered rules |
| `Habits.FlightStatsManager.FinishFlight` | cloud/dcs_copilot_cloud/habits/manager.py:49-66 | a refused summary changes nothing; otherwise the flight is cleared and the bounded queue extended |
| `Habits.FlightStatsManager.ObserveState` | cloud/dcs_copilot_cloud/habits/manager.py:39-47 | a change of aircraft finishes the flight; evaluable rules become covered |
| `Habits.FlightStatsManager.CountTransition` | cloud/dcs_copilot_cloud/habits/manager.py:75-81 | an activation of a covered rule in flight is counted |
| `Habits.FlightStatsManager.Acknowledge` | cloud/dcs_copilot_cloud/habits/manager.py:68-73 | the first pending summary with the identifier is removed |
| `AircraftStateStore.AircraftStore.UpdateState` | cloud/dcs_copilot_cloud/state/store.py:110-150 | disconnected: statistics, then state, then reset; connected: reset on a change of aircraft, state, statistics, then evaluation; a refused summary stops it there |
| `AircraftStateStore.AircraftStore.ResetCockpitContext` | cloud/dcs_copilot_cloud/state/store.py:211-216 | the engine's reset emits before the event manager is cleared |
| `Stages.StageChainIsOrdered` | cloud/dcs_copilot_cloud/checklists/engine.py:300-324 | the walk fails exactly when a cycle is reachable; otherwise it returns each stage reachable from the target exactly once, after its dependencies, the target last |
| `Stages.AllChainsSucceed` | cloud/dcs_copilot_cloud/checklists/engine.py:67-68 | walking from every stage succeeds if and only if there is no cycle |
| `Stages.VisitKeeps` | cloud/dcs_copilot_cloud/checklists/engine.py:310-321 | one visit adds only reachable stages in dependency order or has found a cycle |
| `Stages.ValidateDefinition` | cloud/dcs_copilot_cloud/checklists/engine.py:40-68 | a definition is accepted if and only if stage and item identifiers are unique, dependencies and default stage exist and the dependencies are acyclic |
| `Stages.IdentifiersAreUnique` | cloud/dcs_copilot_cloud/checklists/engine.py:41-55 | the nested loops find exactly the repeated stage and item identifiers |
| `Stages.StageWalk.VisitStage` | cloud/dcs_copilot_cloud/checklists/engine.py:310-321 | the recursive visit updates selected, visited and visiting as specified |
| `Stages.StageWalk.VisitDependencies` | cloud/dcs_copilot_cloud/checklists/engine.py:316-318 | the loop over dependencies |
| `Checklists.ConfirmRemovesExactlyTheCurrent` | cloud/dcs_copilot_cloud/checklists/engine.py:206-227 | confirming the current item removes exactly it from the unresolved items and changes no other result |
| `Checklists.BlankItemBlocks` | cloud/dcs_copilot_cloud/checklists/engine.py:216-217 | a current item with a blank identifier can never be confirmed |
| `Checklists.GuidedChecklistTerminates` | cloud/dcs_copilot_cloud/checklists/engine.py:206-249 | repeated next and confirm ends after exactly as many confirmations as there were unresolved items, if and only if none has a blank identifier |
| `Checklists.BlankItemIsStuck` | cloud/dcs_copilot_cloud/checklists/engine.py:40-68 | a definition with a blank item identifier is accepted and can be started, but its guide cannot get past the item |
| `Checklists.PartitionIsExact` | cloud/dcs_copilot_cloud/checklists/engine.py:102-124 | an evaluation reports every result exactly once, under its status, and is complete if and only if nothing is incomplete or unconfirmed |
| `Checklists.EvaluationSays` | cloud/dcs_copilot_cloud/checklists/engine.py:80-124 | an evaluation is of the checklist and stage asked for, guided or default, reports for every item of the stages needed exactly the pilot's word, else what was latched, else that it does not apply, else what was found, and is complete if and only if every such item is settled that way |
| `Checklists.ResultsSay` | cloud/dcs_copilot_cloud/checklists/engine.py:93-101 | the result of each item, in order, and when it leaves nothing to do |
| `Checklists.FirstForIsFirst` | cloud/dcs_copilot_cloud/checklists/engine.py:273-286 | without a request or a guide, the first checklist of the aircraft is meant |
| `Checklists.HavingKeepsOrder` | cloud/dcs_copilot_cloud/checklists/engine.py:102-124 | the lists of an evaluation keep the order of the items |
| `Checklists.ConfirmationIsStamped` | cloud/dcs_copilot_cloud/checklists/engine.py:206-227 | a confirmation remembers its time, says whether it went against telemetry, and changes nothing else |
| `Checklists.LatchedExactly` | cloud/dcs_copilot_cloud/checklists/engine.py:163-182 | what is latched anew is an item to be latched of a checklist of the aircraft, applicable and found complete, with what was found; and every such item is latched |
| `Checklists.RestartKeepsConfirmations` | cloud/dcs_copilot_cloud/checklists/models.py:105-118 | confirmations outlive a stop and last until another checklist is started |
| `Checklists.GuidedEvaluation` | cloud/dcs_copilot_cloud/checklists/engine.py:232-249 | the items a guide works through are the unresolved ones of the evaluation of the guided checklist and stage |
| `Checklists.StartOpensGuide` | cloud/dcs_copilot_cloud/checklists/engine.py:145-154 | starting a stage of a validated checklist opens a session whose items are distinct |
| `Checklists.ObservedStaysComplete` | cloud/dcs_copilot_cloud/checklists/engine.py:163-182 | an explicitly latched item observed complete stays complete whatever telemetry says later |
| `Checklists.LatchDefinitionsKeeps` | cloud/dcs_copilot_cloud/checklists/engine.py:163-182 | observing keeps every latched result and adds only complete ones |
| `GuidedChecklist.ChecklistEngine.Load` | cloud/dcs_copilot_cloud/checklists/engine.py:34-38 | the constructor accepts exactly the definition sets whose kept definitions are all acceptable |
| `GuidedChecklist.ChecklistEngine.StartGuide` | cloud/dcs_copilot_cloud/checklists/engine.py:145-154 | the selected stage becomes the session's; unknown checklists and stages are refused |
| `GuidedChecklist.ChecklistEngine.Observe` | cloud/dcs_copilot_cloud/checklists/engine.py:163-182 | the loops latch completed items of the current aircraft's checklists |
| `GuidedChecklist.ChecklistEngine.EvaluateItems` | cloud/dcs_copilot_cloud/checklists/engine.py:93-101 | the results of a chain's items: the pilot's word, then latched, then evaluated |
| `GuidedChecklist.ChecklistEngine.EvaluateChecklist` | cloud/dcs_copilot_cloud/checklists/engine.py:80-124 | the checklist asked for, guided or first for the aircraft, its stage and chain are found or the call fails; the results are split by status |
| `GuidedChecklist.ChecklistEngine.Next` | cloud/dcs_copilot_cloud/checklists/engine.py:232-249 | the first incomplete, else the first unconfirmed item |
| `GuidedChecklist.ChecklistEngine.ConfirmCurrentItem` | cloud/dcs_copilot_cloud/checklists/engine.py:206-227 | only the current item can be confirmed; refusals change nothing |
| `GuidedChecklist.ChecklistEngine.ConfirmManualItem` | cloud/dcs_copilot_cloud/checklists/engine.py:184-204 | exactly the manual items of the guided checklist can be confirmed this way |
| `GuidedChecklist.ChecklistSession.Begin` | cloud/dcs_copilot_cloud/checklists/models.py:105-110 | starting another checklist clears the confirmations |
| `Indications.ReassemblyIsOrderIndependent` | client/dcs_copilot/dcs/indications.py:112-153 | however a message's chunks are permuted, repeated and interleaved within five seconds and the size limit, the state appears exactly with the last missing chunk and holds the chunks in index order |
| `Indications.FeedKeepsSound` | client/dcs_copilot/dcs/indications.py:112-158 | every pending packet's size equals the sum of its stored chunks, within the limits, and it still lacks a chunk |
| `Indications.FeedExactly` | client/dcs_copilot/dcs/indications.py:54-158 | a chunk out of bounds changes nothing; any other is refused if and only if it contradicts its packet or takes it beyond the size limit, which drops that packet alone; while a chunk is awaited exactly the packets older than five seconds go |
| `Indications.IndicationPacketAssembler.FeedDatagram` | client/dcs_copilot/dcs/indications.py:54-153 | any datagram's outcome and the new pending packets |
| `Indications.IndicationPacketAssembler.TakeChunk` | client/dcs_copilot/dcs/indications.py:112-153 | inconsistent or oversize packets are dropped, incomplete ones kept, complete ones joined |
| `Indications.IndicationPacketAssembler.DiscardStale` | client/dcs_copilot/dcs/indications.py:155-158 | exactly the packets older than five seconds are removed |
| `History.HistoryIsBoundedLog` | cloud/dcs_copilot_cloud/state/history.py:44-71 | with timestamps that never go back the retained transitions are exactly those of everything noted since the cutoff, in order, and chain per field into the recorded value |
| `History.RecordingKeepsChains` | cloud/dcs_copilot_cloud/state/history.py:44-66 | each field's retained transitions chain and end in the recorded value |
| `History.PruningIsFiltering` | cloud/dcs_copilot_cloud/state/history.py:68-71 | with ordered timestamps pruning from the front is filtering by the cutoff |
| `History.ThresholdsAreKept` | cloud/dcs_copilot_cloud/state/history.py:118-128 | after a record every field is within its threshold of the recorded value, whatever the fields, if and only if every threshold is positive |
| `History.StateHistory.Record` | cloud/dcs_copilot_cloud/state/history.py:44-66 | the loop over fields, first sightings appended last, then pruning; returned are the added transitions in field order |
| `History.ReportsAreNoted` | cloud/dcs_copilot_cloud/state/history.py:44-66 | the transitions a record returns are exactly those it notes, as changes or first sightings |
| `History.ReportsExactly` | cloud/dcs_copilot_cloud/state/history.py:44-66 | what a record reports is, in field order, exactly one transition for each field at its first usable value or no longer near the value recorded last |
| `History.SelectedExactly` | cloud/dcs_copilot_cloud/state/history.py:73-81 | a query answers exactly the transitions of the field that are not before the time, in order |
| `History.StateHistory.Prune` | cloud/dcs_copilot_cloud/state/history.py:68-71 | old transitions leave from the front |
| `History.StateHistory.Query` | cloud/dcs_copilot_cloud/state/history.py:73-81 | the transitions of a field since a time, in order |
| `Conditions.LosingTelemetryNeverHelps` | cloud/dcs_copilot_cloud/rules/declarative.py:79-143 | a condition without `not` that holds still holds where more fields are usable with the same values |
| `Conditions.PolarityDecides` | cloud/dcs_copilot_cloud/rules/declarative.py:79-143 | with negations, a condition keeps its truth in the direction its polarity gives |
| `Conditions.NegationBreaksIt` | cloud/dcs_copilot_cloud/rules/declarative.py:84-85 | one negation over telemetry is enough to break that |
| `Conditions.FieldsDecide` | cloud/dcs_copilot_cloud/rules/declarative.py:162-182 | without durations the fields a condition names decide it |
| `Conditions.LastingHeldThroughout` | cloud/dcs_copilot_cloud/rules/declarative.py:113-120 | a condition on the present that has lasted held at every moment of its duration |
| `Conditions.OuterDurationIsIgnored` | cloud/dcs_copilot_cloud/rules/declarative.py:162-182 | a duration around a duration adds nothing, whatever its length |
| `Conditions.ChangesAreQueried` | cloud/dcs_copilot_cloud/rules/declarative.py:93-112 | a field has changed to or from a value if and only if a query of its recent transitions finds one that did |
| `Conditions.TestsDecide` | cloud/dcs_copilot_cloud/rules/declarative.py:121-136 | a comparison passes if and only if every clause does: equal as Python compares, above, below |
| `Conditions.CollectFields` | cloud/dcs_copilot_cloud/rules/declarative.py:162-182 | the recursive accumulation collects exactly the condition's fields |

## Left out

- Sockets, WebSockets, asyncio scheduling, clocks and threads: the transport is a FIFO, time an input of each step, and one chunk's bytes are separate steps, so a callback sees the address space as of its own byte.
- A disconnect leaves messages already taken by the transport deliverable until the next connection; the client's and the backend's view of a dropped connection are not synchronised by the model.
- JSON, UUID syntax, the 256 KiB envelope and text length checks of identities and descriptions: messages are typed values under the bounds in `Wire`.
- Publisher.TelemetryPublisher.FlushTo: a sequence number above 2^53 - 1 makes the message constructor raise; the model's flush then sends nothing.
- BiosRegistry.DcsBiosControlRegistry.Load: starts from the parsed definitions in sorted order; reading the JSON files, their errors and the indexes by key and identifier are not modelled.
- BiosProtocol.DcsBiosProtocolParser.FeedBytes: frame writes are compared without the `changed` flag that the source also stores.
- BiosClient.DcsBiosClient.FollowAircraft: callbacks other than the publisher's are not modelled.
- Ingress.TelemetryIngress.AcceptMessage: the error messages of a rejection are one outcome.
- Rule conditions, aircraft adapters, phase detection and the derived context fields: their results are arbitrary inputs of each update.
- AircraftStateStore.AircraftStore.UpdateState: adapters, history, phase detection and checklist observation are inputs or left out, the speech policy in force is an argument of each update, and the events already emitted are returned even when a refused summary raises.
- RawStore.ApplyTelemetryBatch: the session effects around it (coach stream, persistence, speech policy, assistant) are not modelled; whether the state update of a reset raises is an argument.
- Habits.FlightStatsManager.FinishFlight: summary callbacks are not modelled and identifiers come from a counter.
- AircraftStateStore.AircraftStore.ResetCockpitContext: the resets of history, phase detector and checklists are not driven; they share no state with engine, events and statistics.
- Events.EventManager.HandleTransition: callbacks and JSON conversion of the data are not modelled; the policy that allows speech is an arbitrary predicate; identifiers come from a counter instead of random UUIDs.
- RuleEngine diagnostics, the sorted list of active issues and severity ranks: one-branch queries.
- Checklists.ConfirmRemovesExactlyTheCurrent: what state, derived and action items find is an arbitrary function of the item, fixed while the session is guided, so the long case lists of `_evaluate_state` and `_evaluate_action` are not modelled.
- GuidedChecklist.ChecklistEngine.EvaluateChecklist: results are a sequence; the source's dictionary by item identifier is the same because validated identifiers are unique.
- Indications.IndicationPacketAssembler.FeedDatagram: header text, token comparison and UTF-8 decoding are inputs or left as bytes.
- The history query `rate`: derived from the proved log.
- Conditions.LosingTelemetryNeverHelps: a condition's dictionary is modelled by its first recognised key, and expected values are already coerced.
- Coach geometry, flight-phase hysteresis, realtime sessions, media packets, tools, readiness, knowledge cards, authentication, storage, voice and the user interface.
