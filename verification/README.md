# SPEEDYBEE field navigation: a Dafny model of the portable core

A swarm of nodes ranges to each other over a radio, exchanges GNSS positions, and lets a node without usable GNSS
compute its own position from three ranged peers. This project models the decision-making parts of that software and
proves what they promise:

* the **navigation core**: events update a peer table, local GNSS, local altitude and an input-change counter; ticks run
  a gated pipeline (cadence, anchor selection, altitude, geometry, unchanged-input cache, solver, residual gate);
* the **TDMA scheduler and its runtime**: every node derives from time alone who transmits, who ranges whom and who
  listens; followers learn the time from the authority's heartbeat;
* the **byte and text layers**: the radio frame and telemetry payloads, the streaming NMEA 0183 reader, the truncating
  JSON writers and the key scanner that reads JSON lines back;
* the **least-squares solver**: its damping loop, linear algebra and bookkeeping, over an abstract distance function.

`dafny verify dfyconfig.toml` checks everything.

## How it is laid out

Code that changes state in place is modelled as classes and array-updating methods (`NavCore.NavSystem`,
`PeerTable.Table`, `AnchorSelection.Buffer`, `Tdma.Scheduler`, `TdmaRuntime.RuntimeState`, `Nmea.Parser`, the encoders,
the JSON writers, the solver loop). Each method is proved equal to a function on values, and the laws are proved about
those functions over whole histories: `NavState.Run` is the state of the core after any list of events, `NavState.Step`
one event, `TdmaProtocol.Run` the state of a radio runtime after any list of resets, heard frames and slot services,
`Nmea.Reports` everything the NMEA reader says about any list of bytes.

Beside each operation stand laws that fix what it computes without naming it: its exact conditions, its inverse, its units
and its byte or text layout (`AnchorScore`, `SolvePublication`, `SnapshotContents`, `PeerNotes`, `SolveLiveness`,
`TdmaService`, `WireLayout`, `NmeaRoundTrip`, `SerialValues`, `TrilaterationDescent`, `TrilaterationMeaning`).

Times are 32-bit words that wrap (`Words.Since`, `Words.Wrap32`); where a theorem needs a clock that has not wrapped, it
takes true time as a natural number and says so in its requirements. Node count and selection capacity are parameters
of the scheduler and of anchor selection; the core uses four nodes and three anchors. Numbers the program holds as
floating point are reals. The triangle area, the solver as seen by the core, the geodetic formulas and the C library's
number readers are arbitrary functions, so nothing proved depends on them.

Where documentation and code differ, the model follows the code: the anchor rejection diagram of `docs/data_flow.md`
tests range freshness and validity before peer GNSS, while `core/src/nav_quality.c:13-69` tests telemetry age, range
age, GNSS, and only then range validity.

## Results that turned out conditional

* **Cache.** A tick reporting unchanged inputs would have repeated the last solver call's anchors in every
  configuration. Its target altitude is that call's if and only if altitude is ignored, or the local altitude is as
  fresh or as stale as it was at the call, or the local and GNSS altitudes agree:
  `CacheCoherence.SkippedSolveIsRedundant`. It covers both failing families, the local altitude that aged out and the
  one that was refreshed without counting as a change. `CacheCounterexample.SkippedSolveDiffers` is a history of nine
  events from a new core after which a tick skips although its target altitude is not the last call's.
* **Republished answer.** A skipped tick republishes the answer shown before it. That is the last solver call's if and
  only if the snapshot does not show a verdict reached without the solver, a local fix or a refusal for too few anchors,
  missing altitude or bad geometry: `RepublishedAnswer.SkipRepublishes`. Two histories from a new core fail it. In
  `RepublishCounterexample.RefusalOutlivesReason` the altitude goes missing and returns unchanged, and the refusal stays;
  in `RepublishCounterexample.FixOutlivesReceiver` a local fix comes and goes between two ticks, and stays published.
* **Denial in mid-run.** After denial is switched on, the snapshot is a GNSS solution if and only if one was showing
  when the command came and no tick has passed the cadence gate since: `Denial.DenialTakesHold`, in every configuration.
  `Denial.FixOutlivesCommand` is the case in which one still shows.
* **Follower silence.** A follower has timing if and only if its last validated heartbeat looks at most 15 s old on the
  wrapping clock: `TdmaProtocol.TimingIsRecentSync`. For 2^32 ms that is its true age; then, as
  `TdmaProtocol.TimingRevives` shows, a follower that heard nothing more has timing again.
* **Log lines.** The scanner returns the text of a written log record exactly when the level is not the word `text` and
  does not end in a quote followed by it, or the tag reads the same: `SerialScan.LogTextComesBack`. Level and tag always
  come back. `SerialScan.LevelHidesText` exhibits the failure.
* **Staleness marking** shows in a score if and only if the peer looks fresh at scoring time although its telemetry,
  or a range that would still count, had expired at marking time: `Quality.MarkedScoresAlike`, for all peers and times.
  A clock that has not wrapped rules that out (`Quality.MarkingNeverChangesScore`);
  `Quality.MarkingVisibleAfterWrap` is a peer for which it happens.
* **Skew.** The ranging window fits a node's slot if and only if that node is between 180 ms behind and 69 ms ahead.
* **Latitude** read from NMEA is bounded by 91 degrees, not 90, because the minutes are checked apart from the degrees:
  an accepted latitude stays within 90 degrees if and only if its degrees are below 90 or its minutes below 0.000003
  (`Nmea.LatitudeWithinNinety`), and `Nmea.LatitudePastThePole` reads 90.5 degrees north.
* **Determinant guard.** Past its up-front check the solver cannot report poor geometry before the eighth pass.

## Model

| member | source | states |
|---|---|---|
| NavCore.NavSystem.HandleEvent | core/src/nav_core.c:682-821 | every event takes the object to the state the step function prescribes and makes exactly that step's solver call |
| NavCore.NavSystem.Tick | core/src/nav_core.c:823-851 | a tick marks stale peers, then refreshes the snapshot with solving allowed |
| NavCore.NavSystem.UpdateSnapshot | core/src/nav_core.c:621-654 | the refreshed snapshot is the settled verdict: local fix, kept snapshot, or judged selection |
| NavCore.NavSystem.AttemptSolution | core/src/nav_core.c:427-452 | the cadence gate in front of anchor selection |
| NavCore.NavSystem.JudgeSelection | core/src/nav_core.c:454-473 | the anchor-count and altitude gates and what a refusal publishes |
| NavCore.NavSystem.JudgeGeometry | core/src/nav_core.c:475-501 | the geometry gate, and the unchanged-input cache behind it |
| NavCore.NavSystem.RunSolver | core/src/nav_core.c:503-563 | the solver is called once, on the selected anchors and resolved altitude, and its answer is placed |
| NavCore.NavSystem.GateResiduals | core/src/nav_core.c:565-591 | the residual gate and the choice between full and degraded solutions |
| NavCore.NavSystem.ReusePrevious | core/src/nav_core.c:412-425 | a reused snapshot keeps its solution and renews only time, node id and GNSS evidence |
| NavCore.NavSystem.StoreEvent | core/src/nav_core.c:690-818 | what each event stores and whether it counts as an input change |
| NavCore.NavSystem.constructor | core/src/nav_core.c:656-671 | a new core is in the initial state |
| SolvePublication.CallIsPublished | core/src/nav_core.c:503-591 | the refresh that calls the solver publishes the altitude solved for, the anchors solved from and the answer given, and grades it by the residual limits, the required quality and the comfortable area |
| SolvePublication.ScoreIsShare | core/src/nav_core.c:242-251 | the geometry score is the triangle's share of the comfortable area, at most 1 |
| SnapshotContents.InputsAreLast | core/src/nav_core.c:682-821 | in every reachable state the stored sample, altitude, denial and tick time are the last ones received |
| SnapshotContents.EvidenceIsCurrent | core/src/nav_core.c:87-129 | after every event the snapshot is stamped with it and shows the receiver and the cadence as they are then |
| SnapshotContents.CadenceSkipTells | core/src/nav_core.c:427-452 | a skip for cadence tells the time since the last pass, which is less than the interval |
| SnapshotContents.FixIsPublished | core/src/nav_core.c:633-645 | while the local fix is usable and permitted, every refresh publishes it as it was received |
| SnapshotContents.AltitudeChosen | core/src/nav_core.c:187-214 | a solve uses the local altitude where it can be used, else GNSS altitude where that can, else none |
| SnapshotContents.CallUsesServingAltitude | core/src/nav_core.c:466-535 | every solver call solves for, and names, an altitude that could be used at that time |
| SnapshotContents.RulingLists | core/src/nav_core.c:253-264 | a snapshot that decides anew lists the anchors kept and the nodes turned down with their reasons |
| SnapshotContents.RefusalNamesGate | core/src/nav_core.c:454-489 | a refusal names the first gate that fails, and the altitude and area if it got that far |
| PeerNotes.PassLeavesNotes | core/src/nav_core.c:347-370 | every pass leaves its notes on the peers: quality on those kept, the reason on those turned down, nothing on the local slot, a fix's residuals on its anchors |
| NavInvariants.EverConsistent | core/src/nav_core.c:399-671 | in every reachable state mode, status, source and reject reason form one of the legal tuples, the system mode is the snapshot's, any radio solution has three distinct other nodes as anchors and passed every gate, and GNSS shows as used only when usable, permitted and the solution |
| NavInvariants.StepConsistent | core/src/nav_core.c:621-851 | every single event keeps that consistency |
| NonInterference.GnssCannotInterfere | core/src/nav_core.c:139-214 | two histories of a core denied GNSS that differ only in what the receiver said leave equal states up to displayed evidence, make equal solver calls and never publish a GNSS solution |
| NonInterference.MaskedStep | core/src/nav_core.c:682-851 | one event shows a GNSS sample nowhere outside the evidence fields |
| Denial.DenialTakesHold | core/src/nav_core.c:628-650 | once denial is switched on in mid-run and not lifted, the snapshot is a GNSS solution if and only if one was showing when the command came and no tick has passed the cadence gate since |
| Denial.FixOutlivesCommand | core/src/nav_core.c:646-650 | for any configuration not yet denied and any usable sample, the sample followed by the command leaves a denied core showing that fix |
| CacheCoherence.SkippedSolveIsRedundant | core/src/nav_core.c:491-535 | in any history with fewer than 2^32 - 1 changes since the last solver call, a tick that skips for unchanged inputs would have called the solver on exactly that call's anchors, and on its target altitude if and only if altitude is ignored, the local altitude is as fresh as it was then, or local and GNSS altitude agree |
| CacheCoherence.EverCoherent | core/src/nav_core.c:131-137 | in every reachable state the counter tells how many input changes followed the last solver call, and with none the stored anchors are that call's and its target altitude is the stored local or GNSS altitude it was taken from |
| CacheCounterexample.SkippedSolveDiffers | core/src/nav_core.c:187-214 | after a concrete history of a new core, a tick skips for unchanged inputs although the call it skips differs from the last one made |
| RepublishedAnswer.AnswerStands | core/src/nav_core.c:412-591 | in every reachable state the published answer is the last solver call's if and only if no verdict reached without the solver shows in its place, and that call's snapshot shows what the solver answered |
| RepublishedAnswer.SkipRepublishes | core/src/nav_core.c:491-500 | a tick that skips for unchanged inputs republishes what was shown, which is the last call's answer if and only if it was not superseded |
| RepublishedAnswer.SkipShowsCurrentAnswer | core/src/nav_core.c:491-535 | where it was not, and the target altitude is the last call's, the skip publishes just what the solver would answer now |
| RepublishCounterexample.RefusalOutlivesReason | core/src/nav_core.c:466-473 | a history of a new core after which a skip republishes a refusal for a missing altitude with a fresh altitude at hand |
| RepublishCounterexample.FixOutlivesReceiver | core/src/nav_core.c:621-654 | a history of a new core, denial off, after which a skip republishes a local fix that is no longer usable in place of the radio solution |
| CacheCoherence.AdvanceCycles | core/src/nav_core.c:131-137 | the change counter cycles through 2^32 - 1 values and skips zero |
| CacheCoherence.CountedExactly | core/src/nav_core.c:694-818 | exactly which events count as changes of the solver's inputs |
| SolveCadence.SolverCallsBounded | core/src/nav_core.c:427-452 | any stretch of history of true length T makes at most 1 + T / interval solver calls, though the clock wraps |
| SolveCadence.PassesSpaced | core/src/nav_core.c:646-650 | consecutive passes through anchor selection are at least the interval apart |
| SolveLiveness.TickPassesExactly | core/src/nav_core.c:427-452 | a tick restarts the cadence and reports an attempt if and only if no local fix is usable and permitted, and there was no earlier pass, no interval, or the interval has elapsed |
| SolveLiveness.PassesKeepComing | core/src/nav_core.c:427-452 | while no local fix is usable and ticks come at most P apart, a stretch of time T shorter than a clock round makes at least T / (interval + P) passes |
| PeerHistory.RangePairing | core/src/nav_peer_table.c:48-151 | after any history the ranged coordinate is the one heard last before the latest range update, and is valid exactly when that update was valid, the peer was GNSS-valid then and the range has not been expired since |
| PeerHistory.SlotRepeatsLast | core/src/nav_peer_table.c:48-121 | after any history a slot repeats its node's last beacon, its last range's request and spread, and the signal levels of whichever came later |
| PeerHistory.LastRejectFollows | core/src/nav_peer_table.c:48-151 | what each table operation leaves as the reason a peer was last turned down |
| SolveProvenance.EverySolveIsPaired | docs/data_flow.md:78-84 | every anchor of every solver call in every run carries its node's last range and the position that node reported last before it |
| SolveProvenance.TableFollowsHistory | core/src/nav_core.c:682-851 | diagnostics aside, the peer table of a running core is its history of table operations applied to the empty table |
| PeerTable.Table.UpdateTelemetry | core/src/nav_peer_table.c:48-75 | telemetry overwrites its own slot and no other |
| PeerTable.Table.UpdateBeacon | core/src/nav_peer_table.c:77-92 | a beacon stores its telemetry and link quality |
| PeerTable.Table.UpdateRange | core/src/nav_peer_table.c:94-121 | a range update locks the coordinate known at that moment |
| PeerTable.Table.MarkStale | core/src/nav_peer_table.c:123-151 | the staleness pass marks every slot and nothing else |
| Quality.MarkingNeverChangesScore | core/src/nav_quality.c:13-69 | however often peers were marked stale, scores and reject reasons are those of the unmarked peer |
| Quality.MarkingIdempotent | core/src/nav_peer_table.c:123-151 | marking twice at one time is marking once |
| Quality.MarkedScoresAlike | core/src/nav_quality.c:13-69 | for every peer, marking time and scoring time, the exact condition under which marking leaves score and reject reason alone |
| Quality.MarkingVisibleAfterWrap | core/src/nav_quality.c:13-69 | a peer whose marking shows once the clock has wrapped, as that condition says |
| AnchorScore.ScoreMeans | core/src/nav_quality.c:13-69 | a peer scores if and only if it is sound and in time, and its score is the product of what is left of its two times to live |
| AnchorScore.ScoreBounds | core/src/nav_quality.c:5-11 | a passing score is in [0, 1], 1 exactly for a peer heard and ranged just now, 0 exactly when a time to live has just run out |
| AnchorScore.ScoreFallsWithAge | core/src/nav_quality.c:5-69 | a score never grows with either age, and falls strictly with each that has a time to live while some of the other is left |
| AnchorScore.GateMeans | core/src/nav_core.c:296-345 | a peer can be an anchor if and only if it is sound, in time and placed, and scores the required minimum |
| AnchorScore.ReasonIsFirstFault | core/src/nav_core.c:296-345 | a peer that cannot be an anchor is turned down for the first thing wrong with it, in the order the code looks |
| AnchorScore.SelectionKeepsFreshest | core/src/nav_core.c:296-345 | every selected anchor is a peer that can be one, and no passing peer that was dropped is fresher than one kept |
| AnchorSelection.SelectIsTop | core/src/nav_core.c:145-185 | streaming selection with eviction is a top-K selection: kept anchors pass the gates, no dropped passing peer is better than a kept one, and every other node is on exactly one list, once |
| AnchorSelection.Buffer.Add | core/src/nav_core.c:155-185 | one candidate is appended, replaces the worst, or is turned down |
| AnchorSelection.Buffer.SelectRadioAnchors | core/src/nav_core.c:296-345 | the selection loop fills its arrays with the top-K selection and reports whether it is full |
| Tdma.Scheduler.SetMembers | core/src/nav_tdma.c:15-38 | the members are the ids sorted in place; too many ids change nothing |
| Tdma.SortSorts | core/src/nav_tdma.c:26-36 | the insertion sort orders its input and keeps its elements |
| Tdma.SortAgrees | core/src/nav_tdma.c:15-38 | the order a node was told its members in does not matter |
| Tdma.Scheduler.RangingPair | core/src/nav_tdma.c:91-106 | the nested counter loops reach the pair of the given ordinal |
| Tdma.PairsBijective | core/src/nav_tdma.c:46-57 | ranging ordinals and unordered member pairs correspond one to one, for any member count |
| Tdma.Scheduler.Act | core/src/nav_tdma.c:108-153 | the action filled in field by field is the schedule's action |
| TdmaAgreement.NodesAgree | core/src/nav_tdma.c:108-153 | any two nodes agree at any time on slot, sender and addressee, however their member lists were ordered |
| TdmaAgreement.BeaconSlot | core/src/nav_tdma.c:131-139 | a beacon slot has exactly one transmitter and no addressee |
| TdmaAgreement.RangingSlot | core/src/nav_tdma.c:140-152 | a ranging slot has exactly one initiator and one addressed listener, which name each other |
| TdmaAgreement.OneTransmitter | core/src/nav_tdma.c:131-139 | nodes told the same distinct ids, each in its own order, all name the same one transmitter of a beacon slot |
| TdmaAgreement.OnePair | core/src/nav_tdma.c:140-152 | and the same one initiator and one addressed listener of a ranging slot |
| TdmaAgreement.PairOwnsOneSlot | core/src/nav_tdma.c:46-57 | every unordered pair owns exactly one ranging slot of a frame |
| TdmaAgreement.MemberOwnsOneSlot | core/src/nav_tdma.c:131-139 | every member owns exactly one beacon slot of a frame |
| TdmaTiming.WindowIsFair | core/src/nav_tdma.c:51-66 | every window as long as a frame holds exactly one slot length of instants of every slot |
| TdmaTiming.NextBeacon | core/src/nav_tdma.c:119-139 | a member's next beacon slot begins within one frame |
| TdmaTiming.NextRanging | core/src/nav_tdma.c:119-152 | a pair's next ranging slot begins within one frame, for both of them |
| TdmaTiming.RemainingInSlot | core/src/nav_tdma.c:119-130 | the remaining time is between one millisecond and the slot length, even where the slot end wraps |
| TdmaTiming.FrameDurationFits | core/src/nav_tdma.c:59-66 | the reported frame duration is the true one, or zero exactly when that does not fit 32 bits |
| TdmaTiming.GuardLeavesRoom | core/src/nav_tdma.c:155-169 | a range that passes the start guard was decided at most 50 ms into its slot |
| TdmaTiming.SkewTolerance | src/RadioHealth.cpp:33-54 | the ranging window lies in one slot of another node's clock if and only if that clock is at most 180 ms behind and 69 ms ahead |
| TdmaTiming.ExchangeIsPrivate | src/RadioHealth.cpp:1261-1284 | within that skew nobody but the master is scheduled to transmit during the exchange, and only the addressed slave to answer |
| TdmaRuntime.RuntimeState.Reset | src/RadioHealth.cpp:114-126 | a reset installs the field plan and forgets all timing |
| TdmaRuntime.RuntimeState.HandleHeartbeat | src/RadioHealth.cpp:572-611 | a valid authority heartbeat realigns a follower; anything else changes nothing |
| TdmaRuntime.RuntimeState.ServiceSlot | src/RadioHealth.cpp:1226-1299 | the decision for the current slot, taken once per slot |
| TdmaRuntime.RuntimeState.BroadcastHeartbeat | src/RadioHealth.cpp:764-797 | the authority's broadcast bytes are the frame of the heartbeat for this slot; any other node is refused and nothing changes |
| TdmaRuntime.AbsoluteSlotOfAction | src/RadioHealth.cpp:109-112 | the absolute slot is recovered from frame and slot number |
| TdmaProtocol.HeartbeatCarriesTime | src/RadioHealth.cpp:572-611 | built, encoded, framed, decoded and validated, the authority's heartbeat always arrives and stands for its uptime, capped at the slot's end, plus 100 ms |
| TdmaProtocol.FollowerClockError | src/RadioHealth.cpp:135-145 | a follower's aligned clock is the authority's plus 100 ms minus the delivery delay, at every later moment and for any clock offsets |
| TdmaProtocol.FollowersStaySilent | src/RadioHealth.cpp:128-133 | in every run a follower starts radio work of its own only while a validated heartbeat heard since its last reset looks at most 15 s old, which it is unless 2^32 ms have passed |
| TdmaProtocol.TimingIsRecentSync | core/src/nav_tdma.c:194-197 | a follower has timing if and only if its last validated heartbeat looks that recent on the wrapping clock |
| TdmaProtocol.TimingRevives | core/src/nav_tdma.c:194-197 | a follower that took one heartbeat has no timing one millisecond short of 2^32 ms later, and has it again then |
| TdmaProtocol.SyncTracked | src/RadioHealth.cpp:572-611 | a follower's synchronisation state is exactly its last validated heartbeat |
| TdmaProtocol.AuthorityServicesSlotsOnce | src/RadioHealth.cpp:1246-1255 | in every run the authority services strictly increasing absolute slots, each at most once |
| TdmaExchange.SynchronisedClock | src/RadioHealth.cpp:135-145 | whatever a follower's run, after an authority heartbeat as its last validated one its aligned clock is the authority's plus 100 ms minus the delivery delay |
| TdmaExchange.ExchangeUndisturbed | src/RadioHealth.cpp:1261-1284 | over runs, a node whose clock error is within 180 ms below and 69 ms above the master's starts nothing during the exchange but the answer it was asked for |
| TdmaExchange.BoundedDelaysKeepExchangesPrivate | src/RadioHealth.cpp:572-611 | in a network whose heartbeats took between d and d + 69 ms to arrive, d between 31 and 100, every exchange is private |
| TdmaService.SlotIsServed | src/RadioHealth.cpp:1226-1299 | a slot that is due is served with exactly the part its node has in it: its beacon up to 400 ms into the slot, ranging up to 50 ms, answering or listening at any time; a slot that is not due is left alone |
| TdmaService.BeaconIsSent | core/src/nav_tdma.c:131-139 | a member due at the start of its own beacon slot sends its beacon |
| TdmaService.PairRanges | core/src/nav_tdma.c:140-152 | in a pair's slot the lower member, due within 50 ms, ranges the other, which answers whenever it is due |
| TdmaService.AskedPeerAnswers | src/RadioHealth.cpp:1283-1291 | over runs, within the tolerated clock errors, the asked peer whose slot is due answers the master in the master's slot |
| TdmaService.BeatTakenExactly | core/src/nav_tdma.c:171-192 | a node takes a heartbeat frame if and only if it is the authority's, for one of the ten slots, and sent within that slot |
| TdmaService.HeartbeatSays | src/RadioHealth.cpp:764-797 | the authority's heartbeat says who sends it, its uptime, its slot, and how far into it it was sent |
| TdmaService.LocalStartIsAligned | src/RadioHealth.cpp:135-145 | the local time a slot starts at is the one whose aligned time is the slot's start |
| RadioFrame.DecodeInvertsEncode | core/src/nav_radio_protocol.c:7-46 | decoding inverts encoding |
| RadioFrame.DecoderAcceptsExactlyImages | core/src/nav_radio_protocol.c:7-25 | the decoder accepts a byte string if and only if some frame encodes to it |
| RadioFrame.EncodeFrame | core/src/nav_radio_protocol.c:27-46 | the encoder writes the frame's bytes, or refuses and writes nothing |
| WireLayout.FrameLaid | core/src/nav_radio_protocol.c:27-46 | the envelope's bytes, one by one |
| Telemetry.HeartbeatRoundTrip | core/src/nav_telemetry.c:303-328 | a heartbeat decodes to itself |
| Telemetry.EncodeHeartbeat | core/src/nav_telemetry.c:206-234 | the cursor-driven encoder writes the heartbeat frame |
| WireLayout.HeartbeatLaid | core/include/nav/nav_radio_protocol.h:92-100 | type and payload of a heartbeat, byte by byte, least significant first |
| Telemetry.DebugRoundTrip | core/src/nav_telemetry.c:284-301 | a debug request decodes to itself |
| Telemetry.EncodeDebug | core/src/nav_telemetry.c:181-204 | the encoder writes the debug frame |
| WireLayout.DebugLaid | core/include/nav/nav_radio_protocol.h:112-115 | type and payload of a debug request, byte by byte |
| Telemetry.BeaconRoundTrip | core/src/nav_telemetry.c:389-440 | a beacon decodes to its telemetry in every field the wire carries, negative coordinates included |
| Telemetry.EncodeBeacon | core/src/nav_telemetry.c:109-147 | the encoder writes the beacon frame |
| WireLayout.BeaconLaid | core/include/nav/nav_radio_protocol.h:41-59 | type and payload of a beacon, byte by byte, negative numbers in two's complement |
| WireLayout.BeaconArrives | core/src/nav_telemetry.c:389-440 | any payload laid out as a beacon arrives as its telemetry, any non-zero byte marking the fix valid |
| Telemetry.RangeRoundTrip | core/src/nav_telemetry.c:442-471 | a range result decodes to itself, negative signal levels included |
| Telemetry.EncodeRange | core/src/nav_telemetry.c:149-179 | the encoder writes the range frame |
| WireLayout.RangeLaid | core/include/nav/nav_radio_protocol.h:61-71 | type and payload of a range result, byte by byte |
| WireLayout.RangeArrives | core/src/nav_telemetry.c:442-471 | any payload laid out as a range result arrives as it, valid only with a zero status byte |
| WireLayout.FailureArrives | core/src/nav_telemetry.c:473-501 | a failed exchange laid out as the protocol says arrives as that failure |
| Telemetry.QuantisedOnce | core/src/nav_telemetry.c:81-95 | a score quantised to a byte loses at most 1/510 and loses nothing when quantised again |
| Telemetry.ReportRoundTrip | core/src/nav_telemetry.c:330-387 | a quality report arrives with scores within 1/510 of the clamped ones and saturated residuals, and encodes to the same bytes again |
| Telemetry.EncodeReport | core/src/nav_telemetry.c:236-280 | the encoder writes the report frame |
| WireLayout.ReportLaid | core/include/nav/nav_radio_protocol.h:117-137 | the figures of a quality report, byte by byte, saturated residuals included |
| WireLayout.ReportHeadLaid | core/include/nav/nav_radio_protocol.h:117-137 | the identity, anchors and scores of a quality report, byte by byte |
| Telemetry.ReadEvent | core/src/nav_telemetry.c:503-532 | the cursor-driven event decoder yields the event the frame stands for, or its error |
| WireLayout.OthersRefused | core/src/nav_telemetry.c:503-532 | exactly which frames are no events |
| Nmea.Parser.Push | core/src/nav_nmea.c:344-381 | one byte takes the parser to the prescribed state and result |
| Nmea.Parser.ReadSentence | core/src/nav_nmea.c:315-342 | a finished sentence is terminated, its checksum verified and its payload read |
| Nmea.SplitFields | core/src/nav_nmea.c:192-203 | cutting the payload in place leaves exactly its comma-separated fields, the last one taking what is left |
| Nmea.FieldsRejoin | core/src/nav_nmea.c:192-203 | the fields joined with commas give the payload back, and only a last field at the limit can hold a comma |
| Nmea.StreamingIsParsing | core/src/nav_nmea.c:344-381 | from any state a sentence fed byte by byte reports nothing until its line end and then exactly what the sentence means |
| Nmea.StreamReportsAll | core/src/nav_nmea.c:344-381 | a stream of sentences is reported one for one and in order |
| Nmea.AlteredByteIsCaught | core/src/nav_nmea.c:331-338 | one altered payload byte is always reported as a checksum error |
| Nmea.ChecksumOfChange | core/src/nav_nmea.c:331-334 | changing a byte changes the checksum by exactly that byte's bits |
| Nmea.RoomIsKept | core/src/nav_nmea.c:371-376 | the collected sentence never exceeds 95 bytes |
| Nmea.CoordinateMeaning | core/src/nav_nmea.c:126-165 | a coordinate field is degrees and minutes, accepted exactly when the hemisphere letter fits and the degrees are in range |
| Nmea.CoordinateBounded | core/src/nav_nmea.c:126-165 | accepted coordinates are at most 91 and 181 degrees and have their hemisphere's sign |
| Nmea.LatitudeWithinNinety | core/src/nav_nmea.c:126-165 | the exact condition under which an accepted latitude is at most 90 degrees |
| Nmea.LatitudePastThePole | core/src/nav_nmea.c:126-165 | a latitude field of 90 degrees and 30 minutes is accepted |
| Nmea.SamplesAreSane | core/src/nav_nmea.c:205-313 | every sample read is bounded, is valid exactly when it is usable for navigation, and came from one of four sentence types |
| NmeaRoundTrip.FieldsOfJoin | core/src/nav_nmea.c:192-203 | cutting joined fields gives the fields back |
| NmeaRoundTrip.GgaRoundTrip | core/src/nav_nmea.c:205-258 | a fix written as a GGA sentence with its checksum and sent byte by byte comes out as exactly that fix's sample, from any state |
| NmeaRoundTrip.RmcRoundTrip | core/src/nav_nmea.c:260-296 | and so does one written as an RMC sentence |
| NmeaRoundTrip.OnlyChecksummedLinesAreRead | core/src/nav_nmea.c:315-342 | a line without a checksum, or with anything after it, is reported as malformed |
| NmeaRoundTrip.OtherSentencesReported | core/src/nav_nmea.c:283-313 | a checksummed sentence of another kind is reported as unsupported if its name has five letters, else as malformed |
| NmeaRoundTrip.LineFeedEnds | core/src/nav_nmea.c:344-381 | a line feed ends a line as a carriage return does |
| NmeaRoundTrip.EmptyLineIsSilent | core/src/nav_nmea.c:344-381 | an empty line is reported as nothing |
| NmeaRoundTrip.OverlongReportedOnce | core/src/nav_nmea.c:344-381 | a line that is too long is reported as overflowing once, and ignored up to the next dollar sign |
| SerialJson.Append | core/src/nav_serial_json.c:13-33 | the accumulating writer keeps the first bytes of the ideal string that fit, terminated, and always returns the full length |
| SerialJson.HoldsAppended | core/src/nav_serial_json.c:13-33 | formatting at the running offset extends the truncated prefix of the ideal string, and touches nothing outside the buffer |
| SerialJson.AppendEscaped | core/src/nav_serial_json.c:35-49 | a string is appended quoted and escaped, character by character |
| SerialRecords.AppendSnapshot | core/src/nav_serial_json.c:138-155 | a snapshot written into what is left of the buffer appends the whole snapshot text |
| SerialRecords.WriteSnapshot | core/src/nav_serial_json.c:157-284 | the snapshot object computed from node info, snapshot and peer table, with an object for every present peer, truncated to the buffer and with its full length returned |
| SerialRecords.WriteSnapshotRecord | core/src/nav_serial_json.c:286-304 | the snapshot inside its envelope, truncated to the buffer |
| SerialRecords.ShownAsSolved | core/src/nav_serial_json.c:69-96 | in every reachable state of the core the position is shown as valid exactly when there is a solution, as degraded exactly in degraded mode, and GNSS as the solution only beside a valid GNSS position |
| SerialRecords.PeerShownValid | core/src/nav_serial_json.c:116-136 | exactly which reported source and status show a peer's position as valid |
| SerialRecords.WriteQualityRecord | core/src/nav_serial_json.c:306-356 | the node-quality record with at most three anchor ids, truncated to the buffer |
| SerialRecords.WriteRangeRecord | core/src/nav_serial_json.c:358-389 | the range record, with the range or the reason there is none, truncated to the buffer |
| SerialValues.SnapshotShows | core/src/nav_serial_json.c:157-284 | a snapshot's text shows its time, verdict, place, receiver, cadence and every present peer, each number as digits that read back as it |
| SerialValues.RangeShows | core/src/nav_serial_json.c:358-389 | a range record's text shows who ranged whom and the range measured, or why there is none |
| SerialValues.QualityShows | core/src/nav_serial_json.c:306-356 | a node-quality record's text shows the node, its age and, in its data, the receiver's figures |
| SerialValues.SignedReads | core/src/nav_serial_json.c:157-284 | the digits written for a number read back as that number |
| SerialValues.EscapedReads | core/src/nav_serial_json.c:35-49 | a JSON reader makes the very text of its escape, whatever it holds |
| SerialValues.WordsAre | core/src/nav_quality.c:71-180 | the words written for every mode, status, source, fix type, reason and outcome |
| SerialValues.UsageMeans | core/src/nav_serial_json.c:201-222 | the receiver's use is told by the solution first, then by whether it is switched on |
| SerialValues.DefaultsAre | core/src/nav_serial_json.c:164-389 | what stands for a name, an origin or a source that is not given |
| SerialJson.WriteLogRecord | core/src/nav_serial_json.c:391-409 | the log record is its ideal text, truncated to the buffer |
| SerialScan.LocateValue | core/src/nav_serial_json.c:416-436 | the pointer-walking scanner finds the value the search functions define |
| SerialScan.ExtractString | core/src/nav_serial_json.c:438-454 | the extractor copies the unescaped value, cut to the caller's buffer and terminated |
| SerialScan.ExtractIsLookup | core/src/nav_serial_json.c:416-454 | extracting any key from any written flat record yields the text a simple lookup finds: the key's own value, or the one after the first text that shadows the key |
| SerialScan.ShadowsMeans | core/src/nav_serial_json.c:416-426 | a text shadows a key exactly when it is the key or ends in a quote followed by it |
| SerialScan.ShadowsEscaped | core/src/nav_serial_json.c:35-49 | escaping does not change whether a text shadows a key |
| SerialScan.LogReadsBack | core/src/nav_serial_json.c:391-454 | a log record gives back level and tag whatever they are, and its text unless the level shadows the key |
| SerialScan.LogTextComesBack | core/src/nav_serial_json.c:391-454 | the exact condition under which a control-free text comes back |
| SerialScan.LevelHidesText | core/src/nav_serial_json.c:391-454 | a level that spells the key makes the scanner return the tag |
| SerialRecords.RangeReadsBack | core/src/nav_serial_json.c:358-454 | the scanner reads a range record's type, its source whatever it is, and a fail reason exactly when the ranging failed |
| Trilateration.SolveAnchors | core/src/nav_trilateration.c:306-444 | the imperative solver computes the solver function, error cases included |
| Trilateration.RunSearch | core/src/nav_trilateration.c:347-430 | the damping loop, with residuals overwritten in place |
| Trilateration.ComputeResiduals | core/src/nav_trilateration.c:261-284 | the residual, distance, RMS and maximum bookkeeping |
| Trilateration.MaxAbsIsMax | core/src/nav_trilateration.c:274-283 | the running maximum bounds every residual and is attained |
| Trilateration.SolverReturnsItsFit | core/src/nav_trilateration.c:347-443 | what the solver returns is the fit at the point it returns, no worse than at the initial guess, within 30 passes; it succeeds exactly when a candidate was taken, else it returns the guess |
| Trilateration.GeometryFailsEarlyOrLate | core/src/nav_trilateration.c:391-393 | a geometry failure is found before the loop or not before the eighth pass |
| Trilateration.Solve2x2Solves | core/src/nav_trilateration.c:144-153 | the solution satisfies both equations, and is refused exactly when the determinant is below the guard |
| Trilateration.DampedDeterminant | core/src/nav_trilateration.c:374-387 | the damped normal matrix has determinant at least lambda squared |
| Trilateration.TriedStepDescends | core/src/nav_trilateration.c:389-400 | no step tried, limited or not, goes uphill, and every one goes strictly downhill unless the descent direction is zero |
| TrilaterationDescent.SlopesAreDerivatives | core/src/nav_trilateration.c:352-372 | where the residuals around a point are quadratic, the solver's slopes are exactly their derivatives there |
| TrilaterationDescent.CandidateImproves | core/src/nav_trilateration.c:352-410 | where the residuals are planar, the candidate a pass tries, limited or not, has a strictly smaller sum of squares unless there is nowhere to descend to |
| TrilaterationDescent.PlanarPassTakes | core/src/nav_trilateration.c:350-430 | so every such pass takes its candidate |
| TrilaterationDescent.PlanarNeverGivesUp | core/src/nav_trilateration.c:347-443 | and from any guess the solver never ends without a solution for want of a candidate |
| TrilaterationDescent.StepIsShort | core/src/nav_trilateration.c:395-400 | no step tried is longer than the limit |
| TrilaterationDescent.ShortStepStays | core/src/nav_trilateration.c:395-400 | a step within the limit is tried as it is |
| TrilaterationDescent.DampingFollows | core/src/nav_trilateration.c:408-429 | the damping rises tenfold, capped, if the candidate fits worse, tenfold if it is off the globe, and falls to a tenth, down to its floor, if it is taken |
| TrilaterationDescent.ConvergesExactly | core/src/nav_trilateration.c:413-426 | a pass ends the search exactly if it takes a candidate a tiny step away or with a tiny residual |
| TrilaterationMeaning.FitMeans | core/src/nav_trilateration.c:261-284 | each residual is the distance to its anchor less the measured one, and the reported figure is their root mean square |
| TrilaterationMeaning.InputsChecked | core/src/nav_trilateration.c:306-345 | which anchors and geometries are refused before the search |
| TrilaterationMeaning.GivingUpReturnsGuess | core/src/nav_trilateration.c:432-443 | a solver that takes no candidate answers with the guess it started from |
| TrilaterationMeaning.FitOnGlobe | core/src/nav_trilateration.c:286-304 | a point has a fit exactly if its latitude is on the globe, at its longitude turned round |
| Trilateration.NormalizedLon | core/src/nav_trilateration.c:35-42 | longitudes are turned by whole turns into [-180, 180) |
| Trilateration.CoreReceivesTheFit | core/src/nav_core.c:528-559 | a fix handed to the core carries its own anchors' residuals at the point it names |

## Left out

- Floating point: scores, areas, residuals, coordinates and altitudes in metres are reals; rounding, overflow, infinities and NaN are not modelled.
- WGS84 geometry: distances, the geometry condition and the initial guess are arbitrary functions; that the iteration converges to the true position is not claimed.
- Logging and event hooks: they add no decisions.
- PeerTable.Table: holds as many slots as it is built with; nothing is said about ids outside it beyond the refusal.
- NavCore.NavSystem.HandleEvent: null arguments and unknown event codes vanish in the typed model.
- NonInterference.GnssCannotInterfere: assumes denial from the start; `Denial.DenialTakesHold` says what holds when it is switched on later.
- Tdma.Scheduler.SetMembers: keeps duplicate ids as the code does; the agreement and ownership theorems assume distinct ids.
- TdmaProtocol.AuthorityServicesSlotsOnce: assumes the authority's clock has not wrapped.
- TdmaRuntime.RuntimeState.ServiceSlot: decides a slot in one step; listening, ranging and beacon transmission themselves, and the frames heard while waiting, are later operations of the run.
- TdmaTiming.ExchangeIsPrivate: speaks of what nodes are scheduled to do, with the radio taken as instantaneous.
- TdmaExchange.BoundedDelaysKeepExchangesPrivate: assumes that the aligned clocks do not wrap around the exchange and that the authority sent its heartbeats within the slots they announce.
- Nmea.ParseCoordinate: the whole degrees are an unbounded integer, where the code's conversion of a huge field is undefined.
- Nmea.ParseLong: reads a field through an arbitrary number reader; the C library's exotic number formats, locale and error codes are inside it.
- SerialRecords.WriteSnapshot: how a floating-point number is formatted is a parameter.
- SerialJson.Append: formatting failures and totals beyond the integer range are not modelled.
- SerialScan.ExtractIsLookup: covers flat records with lower-case keys and underscores, which is what the writers and commands use.
- Trilateration.Solve: inputs are finite reals, so the finiteness tests of the code are always passed.
- Command parsing beyond string extraction, the replay and mock sources, the flight-controller port, the desktop tools and both user interfaces.
- FreeRTOS tasks, mutexes, storage, UART, the radio driver and its interrupt lines.
