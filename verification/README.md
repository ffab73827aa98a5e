# FlowWeave, verified core

FlowWeave carries IP packets and proxied streams over several network paths at once. This project models the
parts of it where correctness depends on state kept over time or on arithmetic at its limits, and proves what
every run of them keeps. It is written in Dafny 4.11; `dafny verify dfyconfig.toml` checks everything.

The model follows the program's own structure:

- **IP packets and fragments** (`IpPacket`, `FragmentCodec`, `Pieces`): inspection, the fragment encoder and
  decoder, the overlap scan.
- **Reassembly** (`Reassembly`, `Reassembler`, `ReassemblyAnswers`, `AnyOrderDelivery`, `PromptDelivery`,
  `Predictors`): the table of partial packets as a specification on values and as the class that updates it in
  place, proved equal; every refusal and every counter in terms of what is stored and what arrives; delivery in any
  order, and in terms of the clock; the two predictors against the ingest they foretell. Where the program picks a
  victim by iterating over a hash map, the model leaves the choice among equally old packets open.
- **Data path and budget** (`DataPath`, `GlobalBudget`, `RateLimiter`, `Rates`): one identity's two reassemblers
  under shared limits, its books against the global budget, the budget under every interleaving, the token
  buckets.
- **Sessions** (`Registry`, `Coordinator`, `CoordinatorInvariants`, `CoordinatorRuns`, `CoordinatorCloses`,
  `CoordinatorReports`, `ManagedHandshake`, `VpnSessionCoordinator`): the identity registry, the session coordinator as a state machine
  over its lock-protected steps, the managed handshakes on top of it, and the class that implements it.
  Connections, data-path handles and limiters are numbers, so that identity can be spoken of; a close is recorded
  under the lock and performed in a later step of its own, as in the program.
- **Control protocol** (`ControlCodec`, `TunnelAddress`, `Negotiation`).
- **Record streams** (`Digest`, `SustainedRecords`).
- **Proxy log** (`JsonlScanner`, `Observation`, `ObservationCounts`, `ObservationOrder`, `ObservationHealth`). A line
  is taken already classified; the scanner takes the classification as a parameter.
- **Public soak** (`SoakPacer`, `SoakPacing`, `SoakProtocol`, `SoakInvariants`, `SoakHistory`): the pacer, and worker
  tasks and supervisor as a state machine with one step per atomic operation, interleaved in any order; its report
  against the history of the run.
- **Realtime batches** (`RealtimeCodec`, `RealtimeBatch`, `RealtimeLedger`, `RealtimeReceipts`).
- `Bytes`, `Sums` and `Wrappers` hold what the others share.

Clocks, network answers, the grants of the shared budget and the callers' choices are parameters, so every
statement holds for all of them. Integers are unbounded; every width, saturation and checked operation that
matters is written out.

## Findings

- Three errors of the data path cannot occur: the accounting failure it guards against throughout, and the two
  identity-limit rejections, because room can always be made (`DataPath.VpnDataPath.IngestDatagram`).
- The encoder's fragment-count and offset errors, the bounds errors of reassembly
  (`Reassembly.IngestNeverOutOfBounds`), and the server's final validation of its own answer
  (`Negotiation.NegotiationExact`) cannot occur either. Nor can the failure that a commit rules out when it creates
  a data path (`ManagedHandshake.CommitsFitDataPaths`).
- The registry itself guarantees what the coordinator relies on: an authorized identity is enabled and is the one
  found under its client id (`Registry.AuthorizedIsEnabledClient`).
- Three promises hold only up to a limit, given exactly. The pacer keeps its rate if and only if the spacings fit
  64 bits and the end of the clock (`SoakPacing.PacedExactlyWithRoom`); a validated soak is far inside
  (`SoakPacing.ValidatedSoakIsPaced`). The realtime encoder checks only the first sequence number, so a batch comes
  back as sent exactly when its numbers are consecutive, and batch 858993459 encodes but never decodes
  (`RealtimeCodec.RoundTripExactly`, `RealtimeCodec.LastBatchIsLost`). The realtime ledger balances exactly while its
  four totals fit 64 bits (`RealtimeLedger.RunConservesExactly`) and fails on long enough runs of empty datagrams
  (`RealtimeLedger.LawFailsPastTheLimit`).
- The health verdict does not test forced shutdowns, timeouts and upstream errors of a role without a metrics
  snapshot, even where the events alone exceed a limit; it reports the missing snapshot instead
  (`ObservationHealth.ReportedExactlyWithSnapshot`, `ObservationHealth.MissingSnapshotHidesTimeouts`). A healthy
  verdict is not affected (`ObservationHealth.HealthyMeansWithinLimits`).
- The coordinator relies on a new connection for every commit: one that is committed again is closed while current
  (`CoordinatorCloses.ReusedConnectionIsClosed`).
- The soak report's ten-part pass condition comes down to three parts: a normal stop, at least one flow, no failed
  flow (`SoakInvariants.ReportIsTruthful`).

## Model

| member | source | states |
|---|---|---|
| `IpPacket.InspectExact` | src/vpn.rs:80-138 | inspection accepts exactly the packets that are well formed by an independent definition (version, header length, announced length equal to the real one), IPv4 and IPv6 |
| `IpPacket.InspectRefusesExactly` | src/vpn.rs:80-138 | each refusal of the inspection with its condition on length and first bytes, in the order of the tests |
| `IpPacket.Ipv4Addresses` | src/vpn.rs:95-116 | an accepted IPv4 packet names its source in bytes 12 to 15 and its destination in bytes 16 to 19 |
| `IpPacket.Ipv6Addresses` | src/vpn.rs:118-138 | an accepted IPv6 packet names its source in bytes 8 to 23 and its destination in bytes 24 to 39 |
| `IpPacket.AcceptedPacketsArePrefixFree` | src/vpn.rs:95-138 | no accepted packet is a proper prefix of another accepted one |
| `FragmentCodec.DecodeOfDatagram` | src/vpn.rs:173-197 | every fragment in bounds decodes from its datagram to itself |
| `FragmentCodec.DatagramOfDecode` | src/vpn.rs:173-197 | every accepted datagram re-encodes to the same bytes, and what it decodes to is in bounds |
| `FragmentCodec.DatagramLayout` | src/vpn.rs:140-171 | the datagram byte by byte: four letters, packet id, total length and offset, most significant byte first, and the payload |
| `FragmentCodec.DecodeExact` | src/vpn.rs:173-197 | a byte string is accepted exactly if it is the datagram of some fragment in bounds; each refusal has its condition |
| `FragmentCodec.CountAtMostMax` | src/vpn.rs:140-171 | at or above the minimum capacity no packet needs more than 64 fragments |
| `FragmentCodec.Encode` | src/vpn.rs:140-171 | the loop emits exactly the even cut of the packet, in order; it fails exactly on a bad packet or a capacity below the minimum, so its fragment-count and offset errors cannot occur |
| `Pieces.ScanExact` | src/vpn.rs:425-449 | the overlap scan says, for disjoint stored pieces, exactly whether the new piece is a repeat, an overlap or neither |
| `Pieces.DisjointFits` | src/vpn.rs:425-466 | disjoint pieces in an interval hold no more bytes than the interval |
| `Pieces.FullPiecesTile` | src/vpn.rs:453-466 | disjoint pieces that hold as many bytes as the interval tile it without a gap, and assembly succeeds |
| `Pieces.InsertKeepsDisjoint` | src/vpn.rs:425-449 | inserting a piece that overlaps nothing keeps the pieces ordered and disjoint |
| `Reassembly.RemoveExact` | src/vpn.rs:501-506 | removing a packet takes exactly its bytes off the counter: the saturating subtraction never clips |
| `Reassembly.ExpireExact` | src/vpn.rs:358-376 | in instants: what stays is exactly what got its last new piece less than a timeout ago, unchanged; the rest is gone with exactly its bytes, and counted |
| `Reassembly.AdmitExact` | src/vpn.rs:402-472 | an ingest takes its packet out, and what it may put back is a valid partial packet: non-empty disjoint pieces inside the total, at most 64, their sum below the total |
| `Reassembly.FullPacketAssembles` | src/vpn.rs:453-466 | a packet whose disjoint pieces hold all its bytes assembles without a gap and is refused only for its IP header |
| `Reassembly.IngestNeverOutOfBounds` | src/vpn.rs:402-466 | on every reachable table no ingest of a decodable datagram answers with a bounds error |
| `Reassembly.EvictionsMakeRoom` | src/vpn.rs:474-499 | after the evictions there is room for the incoming packet and the books are exact |
| `Reassembly.EvictionsTakeVictims` | src/vpn.rs:474-499 | the victims are gone and no other packet changed |
| `Reassembly.VictimsAreOldest` | src/vpn.rs:487-499 | every victim was stored and is no newer than any packet that stays |
| `Reassembly.RoomCanBeMade` | src/vpn.rs:474-485 | for every packet of legal size some sequence of evictions of oldest packets ends with room |
| `Reassembly.IngestKeepsInvariant` | src/vpn.rs:378-472 | one ingest keeps the invariant: exact byte counter, both caps, every stored packet valid |
| `Reassembly.IngestLeavesOthers` | src/vpn.rs:378-472 | an ingest leaves every packet of another id unchanged unless it is past its deadline or evicted |
| `Reassembly.EveryRunKeepsInvariant` | src/vpn.rs:255-506 | over every run of ingest, expire, evict, reject and clear the byte counter equals the sum over the table, both caps hold and every stored packet is valid |
| `Reassembly.ReachableTables` | src/vpn.rs:255-506 | the same from a fresh reassembler, spelled out per stored packet |
| `Reassembler.ScanPieces` | src/vpn.rs:425-440 | the scan loop refines the specification scan |
| `Reassembler.AssemblePieces` | src/vpn.rs:453-466 | the assembly loop and final inspection refine the specification |
| `Reassembler.VpnReassembler.Create` | src/vpn.rs:255-268 | the fallible constructor: exactly the three zero or undersized limits are refused; otherwise an empty, valid table |
| `Reassembler.VpnReassembler.RemovePacket` | src/vpn.rs:501-506 | the specified removal: the packet and exactly its bytes |
| `Reassembler.VpnReassembler.EvictPacket` | src/vpn.rs:338-345 | refines the eviction step and says whether the packet was there |
| `Reassembler.VpnReassembler.Clear` | src/vpn.rs:347-350 | leaves no packet and no byte |
| `Reassembler.VpnReassembler.RejectDecodedFragment` | src/vpn.rs:352-356 | drops the packet and counts one rejection |
| `Reassembler.VpnReassembler.EvictOldest` | src/vpn.rs:487-499 | evicts a packet with the least update time, ties left open, or answers that there is none |
| `Reassembler.VpnReassembler.MakeRoom` | src/vpn.rs:474-485 | terminates with room, by a legal sequence of evictions of oldest packets, each made only while there was no room |
| `Reassembler.VpnReassembler.Expire` | src/vpn.rs:358-376 | a packet is stored afterwards exactly if it was and now is before its last update plus the timeout; the number returned is that of the packets gone |
| `Reassembler.VpnReassembler.MatchFragment` | src/vpn.rs:402-449 | takes the packet out and matches the fragment as the specification admits it |
| `Reassembler.VpnReassembler.IngestInner` | src/vpn.rs:402-472 | the in-place code equals the specification: same answer, same table |
| `Reassembler.VpnReassembler.Ingest` | src/vpn.rs:378-400 | the whole call equals one specification step, statistics included |
| `Reassembler.VpnReassembler.AdditionalBufferedBytes` | src/vpn.rs:286-315 | the loop gives the specified prediction, rejection included |
| `Reassembler.VpnReassembler.OldestPacketUpdatedAt` | src/vpn.rs:327-336 | returns an oldest stored packet other than the excluded one, if there is any |
| `AnyOrderDelivery.EncodedShipment` | src/vpn.rs:140-171 | what the encoder emits is a tiling of the packet, one part per fragment |
| `AnyOrderDelivery.SameElementsSamePieces` | src/vpn.rs:425-449 | disjoint ordered pieces are determined by their set, so arrival order leaves no trace |
| `AnyOrderDelivery.AllPartsAssemble` | src/vpn.rs:453-466 | with all parts held the packet is complete and assembles to the original |
| `AnyOrderDelivery.MissingPartIncomplete` | src/vpn.rs:453-470 | with a part missing the packet is not complete |
| `AnyOrderDelivery.FragmentArrives` | src/vpn.rs:378-472 | one genuine fragment, new or repeated: nothing is returned, unless it is the last missing one and then the original packet |
| `AnyOrderDelivery.OtherTraffic` | src/vpn.rs:338-472 | any other operation leaves the held parts as they were |
| `AnyOrderDelivery.HeldThroughout` | src/vpn.rs:338-472 | over every run with parts still missing the table holds exactly the parts delivered |
| `AnyOrderDelivery.PacketArrivesExactly` | src/vpn.rs:378-472 | after any run, fragments in any order with repeats and other traffic in between, the next fragment returns the original packet if it is the last missing part and nothing otherwise |
| `AnyOrderDelivery.EncodedPacketArrives` | src/vpn.rs:140-472 | the same for the datagrams of the encoder, at every valid packet, id and capacity |
| `PromptDelivery.PartSetsInstant` | src/vpn.rs:402-472 | a new fragment sets the instant from which its packet’s age counts; a repeat does not |
| `PromptDelivery.QuietExactlyIfPrompt` | src/vpn.rs:358-472 | where nothing is evicted, the stored part of a packet outlives a run if and only if every operation from its first fragment on comes less than a timeout after its last new fragment |
| `PromptDelivery.PromptPacketArrives` | src/vpn.rs:358-472 | so fragments less than a timeout apart are never lost to expiry: the packet is returned at its last missing fragment and nothing before |
| `PromptDelivery.WindowIsPrompt` | src/vpn.rs:358-376 | in particular when all clock readings lie in one window of the length of the timeout |
| `ReassemblyAnswers.RefusedExactly` | src/vpn.rs:378-466 | each refusal of a decoded fragment with its condition on the packet stored in time: another total, a byte already covered, 64 pieces; otherwise it is held, or the whole packet is delivered or refused for its header |
| `ReassemblyAnswers.CountersCount` | src/vpn.rs:338-506 | over every run each counter is the number of datagrams, refusals, repeats, deliveries, delivered bytes, packets past their deadline or evictions, up to the largest 64-bit number |
| `Predictors.PredictedOutcome` | src/vpn.rs:286-325 | on one table: the predictor gives the same rejection as the ingest, zero exactly on an exact repeat, otherwise the exact growth; completion is foretold exactly |
| `Predictors.PredictionSurvivesExpiry` | src/vpn.rs:286-376 | expiry at ingest time does not change a prediction for a packet that survives it |
| `Predictors.RepeatChangesNothing` | src/vpn.rs:402-449 | an exact repeat evicts nothing and leaves packets, deadline and byte counter as they were |
| `Predictors.PredictorsAgree` | src/vpn.rs:286-472 | both predictors, asked before an ingest, against that ingest: rejection if and only if, same error, exact growth, completion if and only if |
| `DataPath.IngestShrinks` | src/vpn_data_path.rs:228-312 | an ingest that the predictors call refused, repeated or completing never makes the table larger |
| `DataPath.IngestGrows` | src/vpn_data_path.rs:290-304 | a stored fragment grows the table by exactly the predicted bytes and packets, evicting nothing when there was room |
| `DataPath.PredictedGrowthFits` | src/vpn_data_path.rs:262-278 | a packet with its predicted growth never exceeds the largest packet |
| `DataPath.DeliveredPacket` | src/vpn_data_path.rs:290-322 | a delivered packet passes inspection and has the announced length |
| `DataPath.GrowthIsReserved` | src/vpn_data_path.rs:290-305 | whichever the predictors promise, an ingest keeps the table valid and grows it by no more than was reserved |
| `DataPath.VpnDataPath.Create` | src/vpn_data_path.rs:119-160 | refuses sizes out of range; otherwise an inactive, empty data path that owns nothing of the global budget |
| `DataPath.VpnDataPath.ReconcileShrink` | src/vpn_data_path.rs:435-447 | succeeds exactly when the books cover the use, and then the books are exact and the difference is given back; otherwise nothing changes |
| `DataPath.VpnDataPath.TryReserve` | src/vpn_quota.rs:361-391 | two bounded additions; the first refusal is of bytes, the second of packets and undoes the first, so a refusal owns nothing |
| `DataPath.VpnDataPath.EvictOldest` | src/vpn_data_path.rs:557-582 | evicts a packet of either direction no newer than any other, sparing the one being added to; none exactly if there is no other |
| `DataPath.VpnDataPath.MakeIdentityRoom` | src/vpn_data_path.rs:397-433 | always ends with room, by dropping an oldest other packet while there is none and not once more; so the two identity-limit rejections cannot occur |
| `DataPath.DropsOnlyForWant` | src/vpn_data_path.rs:405-420 | nothing is dropped exactly if both directions together leave room, limits included |
| `DataPath.DropsAreOldest` | src/vpn_data_path.rs:557-582 | every packet dropped was stored, is not the one being added to, and is no newer than any other that stays |
| `DataPath.NeededIsEnough` | src/vpn_data_path.rs:397-433 | the drops end with room, keep the packet being added to, and change nothing that stays |
| `DataPath.VpnDataPath.IngestShrinking` | src/vpn_data_path.rs:228-312 | the answer is the reassembler’s, and the books are exact afterwards |
| `DataPath.VpnDataPath.IngestReserved` | src/vpn_data_path.rs:290-305 | under a reservation: the answer is the reassembler’s, the reservation is settled exactly |
| `DataPath.VpnDataPath.MakeRoomFor` | src/vpn_data_path.rs:262-282 | drops exactly what is needed, nothing for a completing fragment, keeps the prediction, and settles the books |
| `DataPath.VpnDataPath.IngestGrowing` | src/vpn_data_path.rs:262-305 | room, reservation, ingest and settlement: each of the two refusals exactly with the grant refused; otherwise the reassembler’s answer on the table left by the drops |
| `DataPath.VpnDataPath.ExpireBoth` | src/vpn_data_path.rs:223-226 | both directions lose exactly the packets past their deadline and the difference is given back |
| `DataPath.VpnDataPath.IngestDatagram` | src/vpn_data_path.rs:207-343 | for every datagram, clock, rate-limit answer and budget answer: both directions stay in the limits, the books are exact, the accounting failure and both identity-limit rejections never occur; every answer has its exact condition: stale, over the rate, over the negotiated size, each global refusal with the grant refused, and in all other cases the reassembler’s own answer, on the table that expiry and exactly the needed drops leave; a stale or rate-limited call changes nothing |
| `DataPath.VpnDataPath.IngestAdmitted` | src/vpn_data_path.rs:228-322 | the same for a datagram within the rate when nothing is past its deadline |
| `DataPath.VpnDataPath.RejectTooLarge` | src/vpn_data_path.rs:238-246 | drops the packet as the reassembler’s rejection does and gives its bytes back |
| `DataPath.VpnDataPath.Activate` | src/vpn_data_path.rs:375-377 | makes the data path active and changes nothing else |
| `DataPath.VpnDataPath.Deactivate` | src/vpn_data_path.rs:379-384 | drops every packet of both directions and gives everything back to the budget |
| `GlobalBudget.CounterIsTheSum` | src/vpn_quota.rs:361-467 | under every interleaving of all data paths, a global counter is the sum of what they own |
| `GlobalBudget.CountersStayInRange` | src/vpn_quota.rs:449-467 | the counters stay between zero and their limits |
| `GlobalBudget.SubtractionNeverUnderflows` | src/vpn_quota.rs:458-467 | the subtraction that would abort the program never underflows |
| `GlobalBudget.IdleBudgetIsEmpty` | src/vpn_quota.rs:393-401 | when every data path has given everything back the counters are zero |
| `RateLimiter.VpnIdentityRateLimiter.constructor` | src/vpn_quota.rs:286-294 | starts with full buckets |
| `RateLimiter.VpnIdentityRateLimiter.Refill` | src/vpn_quota.rs:296-314 | refines the refill step; a clock that went backwards refills nothing |
| `RateLimiter.VpnIdentityRateLimiter.Reconfigure` | src/vpn_quota.rs:316-321 | refines the reconfiguration: tokens are kept and clipped to the new capacity, never refilled by it |
| `RateLimiter.VpnIdentityRateLimiter.AdmitDatagrams` | src/vpn_quota.rs:232-276 | admits a group exactly when its sizes are valid and both buckets afford it, and then takes exactly its cost; otherwise says why and takes nothing |
| `RateLimiter.ToppedExact` | src/vpn_quota.rs:296-314 | the saturating 128-bit steps of a refill never show |
| `RateLimiter.CostsExact` | src/vpn_quota.rs:258-261 | neither cost saturates for a group that is considered at all |
| `RateLimiter.CapacitiesExact` | src/vpn_quota.rs:324-333 | the capacities in numbers: one second of packets; one second of bytes or one largest datagram |
| `RateLimiter.RefillExact` | src/vpn_quota.rs:296-314 | a refill in numbers: what the rate earned since the last one, up to the capacity; nothing if the clock went back |
| `RateLimiter.ReconfigureExact` | src/vpn_quota.rs:316-321 | a reconfiguration refills at the old rate and cuts to the new capacities; it hands out no token and with unchanged limits is a refill |
| `RateLimiter.AdmitExact` | src/vpn_quota.rs:232-276 | a group is admitted exactly if every size is in range and the refilled tokens cover number and bytes; it costs exactly that, and a refusal costs nothing |
| `RateLimiter.StepEarns` | src/vpn_quota.rs:232-321 | what one operation admits and leaves is covered by what was there and what was earned |
| `RateLimiter.AdmittedWithinRate` | src/vpn_quota.rs:208-321 | over every run of admissions and reconfigurations, at any clock readings, what is admitted is covered by the tokens at the start and what the highest limits in force earn in the time passed |
| `RateLimiter.RefillTwice` | src/vpn_quota.rs:296-314 | refilling on the way to an instant comes to the same as refilling at it |
| `RateLimiter.AdmittedFromRefill` | src/vpn_quota.rs:232-314 | what a run admits from an instant on is what it admits after a refill at that instant |
| `RateLimiter.BurstPlusRate` | src/vpn_quota.rs:208-333 | in every window between two instants: packets and bytes admitted are at most one burst plus the rate times the window, however long the limiter was idle before it and wherever its clock stood |
| `RateLimiter.EveryWindow` | src/vpn_quota.rs:208-333 | the same for a window anywhere in the life of a limiter, in plain numbers |
| `RateLimiter.StepKeepsValid` | src/vpn_quota.rs:232-333 | no operation leaves more tokens than the capacity in force |
| `RateLimiter.IdleLimiterAdmits` | src/vpn_quota.rs:324-333 | a limiter left alone until full admits any one datagram, up to the largest |
| `Registry.IndexFingerprints` | src/vpn_identity.rs:556-563 | enters all certificates of an identity, or stops exactly when one is already entered |
| `Registry.AddIdentity` | src/vpn_identity.rs:532-573 | one round: exactly the fault, if any, that the identity has by itself or against those before it, in the order of the tests |
| `Registry.NoEntryFault` | src/vpn_identity.rs:532-573 | there is no fault exactly when the identity is fit and clashes with none before it |
| `Registry.NewRegistry` | src/vpn_identity.rs:511-582 | a registry is built exactly when the addresses are valid and no identity is unfit or clashes with another; it is then fully indexed, and otherwise the error is that of the first fault |
| `Registry.AuthorizedIsEnabledClient` | src/vpn_identity.rs:600-619 | an authorized identity carries the certificate, is enabled, and is the one found under its client id |
| `Registry.FingerprintIdentifies` | src/vpn_identity.rs:606-619 | a certificate authorizes exactly the one identity that lists it, or reports it disabled |
| `Registry.AuthorizeExact` | src/vpn_identity.rs:606-619 | each answer in terms of the list alone: authorized, disabled or unknown |
| `Registry.FitExactly` | src/vpn_identity.rs:436-470 | an identity by itself is fit exactly if its name, its one or two certificates and its four limits are in range |
| `Coordinator.ReconcileAllExact` | src/vpn_active_session.rs:348-377 | after the reload rounds exactly the listed sessions that the registry does not keep are gone; limiters and generations are untouched |
| `Coordinator.CloseEachExact` | src/vpn_active_session.rs:401-425 | the shutdown rounds drop exactly the listed sessions |
| `Coordinator.DecideExact` | src/vpn_active_session.rs:330-346 | the three decisions in terms of the registry’s list: kept exactly if it has an enabled identity of the client with the certificate and the same policy, changed if with another policy, revoked if it has none |
| `CoordinatorReports.CommitExact` | src/vpn_active_session.rs:435-533 | each answer of a commit with its condition on the registry’s list; a commit that succeeds reports the generation it replaced and changes its own client’s session only |
| `CoordinatorReports.ReportExact` | src/vpn_active_session.rs:348-377 | the report of a reload counts exactly the sessions kept, revoked and changed |
| `CoordinatorReports.ReloadExact` | src/vpn_active_session.rs:318-389 | a reload keeps exactly the sessions that the new registry admits unchanged, and the two metrics move by the numbers revoked and changed |
| `CoordinatorReports.MetricsExact` | src/vpn_active_session.rs:279-533 | over every run five metrics are the numbers of closes asked for with their codes, the commits counted are those admitted, and with the active sessions they leave the releases |
| `CoordinatorInvariants.CommitNeverOverlaps` | src/vpn_active_session.rs:470-504 | after every single write inside a commit at most one handle per client is active |
| `CoordinatorInvariants.StepKeepsInvariant` | src/vpn_active_session.rs:243-533 | every step keeps: sessions authorized by the current registry, active handles exactly those in the map, limiters the stored ones with the limits in force, counters conserved |
| `CoordinatorInvariants.InstallKeepsLimitsInForce` | src/vpn_active_session.rs:470-503 | a commit gives the client’s limiter, old or new, the limits that the registry in force has for the client |
| `CoordinatorInvariants.RequotedInForce` | src/vpn_active_session.rs:378-389 | a reload keeps the limiters of enabled clients only and gives each the limits of the new registry |
| `CoordinatorInvariants.RefusedCommitIsInert` | src/vpn_active_session.rs:435-468 | a refused commit changes the rejection count and asks for the newcomer to be closed, and nothing else |
| `CoordinatorInvariants.ReportAddsUp` | src/vpn_active_session.rs:348-400 | kept, revoked and changed add up to the sessions looked at |
| `CoordinatorInvariants.ListingSize` | src/vpn_active_session.rs:330-348 | and those are all the active ones |
| `CoordinatorRuns.ReachableStates` | src/vpn_active_session.rs:185-533 | in every reachable state: each active session is authorized by the registry in force for its own client with the same policy, whatever registry it was negotiated against; one active handle per client, exactly those of the map; the stored limiter, which carries the limits that the registry in force gives its client; committed equals active plus the five ways out |
| `CoordinatorRuns.LimiterSurvivesRun` | src/vpn_active_session.rs:378-389 | a stored limiter survives every run without shutdown or a reload that drops the client |
| `CoordinatorRuns.ReconnectKeepsLimiter` | src/vpn_active_session.rs:470-503 | two commits of one client with no such step in between share one limiter: reconnecting never yields a fresh rate bucket |
| `CoordinatorCloses.RunClosesOnce` | src/vpn_active_session.rs:279-533 | with a new connection per commit, no connection is closed twice and none while current, in every run |
| `CoordinatorCloses.LeavesExactly` | src/vpn_active_session.rs:279-533 | a step takes a session out of the active map, or replaces it, exactly when it releases it or has a reason with a close code |
| `CoordinatorCloses.StepClosesExactly` | src/vpn_active_session.rs:318-533 | a step asks for exactly the closes of the sessions that it makes leave other than by release, with 0x100 if replaced, 0x101 if the registry no longer has an enabled identity of the client with the certificate, 0x102 if it has one with another policy, 0x104 at shutdown; and with 0x103 of the newcomer it refuses |
| `CoordinatorCloses.RunClosesExactly` | src/vpn_active_session.rs:279-533 | over every run the closes asked for are exactly those of the sessions that left other than by release, with the codes of the reasons they left, and of the refused newcomers |
| `CoordinatorCloses.OneCodePerConnection` | src/vpn_active_session.rs:279-533 | with a new connection per commit a connection is never closed for two reasons |
| `CoordinatorCloses.ReusedConnectionIsClosed` | src/vpn_active_session.rs:491-526 | a connection that its own client commits again is closed as the replaced one while it is current |
| `CoordinatorRuns.GenerationsIncrease` | src/vpn_active_session.rs:243-251 | allocated generations are non-zero and strictly increasing over every run; after the largest, allocation is refused forever |
| `CoordinatorRuns.NotCurrentUntilCommitted` | src/vpn_active_session.rs:272-296 | a generation becomes current only by its own commit |
| `CoordinatorRuns.StaysStale` | src/vpn_active_session.rs:272-296 | a generation that is not current stays so without a new commit of it, and releasing it changes nothing |
| `CoordinatorRuns.CurrentWasCommitted` | src/vpn_active_session.rs:279-296 | a current generation was committed by the run |
| `CoordinatorRuns.DisplacedNeverReturns` | src/vpn_active_session.rs:272-296 | a displaced generation never becomes current again and a release naming it leaves the whole state unchanged, whatever runs in between |
| `ManagedHandshake.NextKeepsSound` | src/vpn_active_session.rs:590-618 | whatever handshakes, reloads, releases and shutdowns do in between, pending handshakes have generations and connections of their own, and snapshots that were once in force |
| `ManagedHandshake.StartIsSound` | src/vpn_active_session.rs:185-237 | a server that starts with a built registry satisfies what the theorems about its handshakes ask |
| `ManagedHandshake.OutcomeExact` | src/vpn_active_session.rs:590-618 | what a handshake commits: its own generation, the certificate presented, the identity that the snapshot authorizes for it, the lesser packet size |
| `ManagedHandshake.RunsTheCoordinator` | src/vpn_active_session.rs:590-618 | every interleaving of managed handshakes with the rest is a run of the coordinator |
| `ManagedHandshake.HandshakesCommitOnce` | src/vpn_active_session.rs:590-618 | however handshakes interleave, each generation is committed at most once |
| `ManagedHandshake.CommitsPending` | src/vpn_active_session.rs:590-618 | a step commits only the generation of a handshake that is pending, and it can never be committed again |
| `ManagedHandshake.DisplacedNeverReturns` | src/vpn_active_session.rs:590-618 | on a server whose sessions come from managed handshakes a displaced generation never returns and releasing it changes nothing, with no assumption about the commits |
| `ManagedHandshake.HandshakesBringNewConnections` | src/vpn_active_session.rs:590-618 | where each connection has one handshake, none is committed twice |
| `ManagedHandshake.ClosesOnce` | src/vpn_active_session.rs:590-618 | where each connection has one handshake, no connection is closed twice or while it is current |
| `ManagedHandshake.CommitsFitDataPaths` | src/vpn_active_session.rs:481-490 | every session that a handshake commits has sizes that a data path takes, so creating the data path in the commit cannot fail |
| `VpnSessionCoordinator.SessionCoordinator.Create` | src/vpn_active_session.rs:208-237 | refuses a zero first generation and a budget out of range, each with its error, and otherwise starts with no session |
| `VpnSessionCoordinator.SessionCoordinator.AllocateGeneration` | src/vpn_active_session.rs:243-251 | hands out the next generation exactly as specified, or none once the largest is used |
| `VpnSessionCoordinator.SessionCoordinator.CommitSession` | src/vpn_active_session.rs:435-533 | the in-place commit gives the specified answer and whole state; revoked, changed or committed exactly by what the registry’s list says of the certificate |
| `VpnSessionCoordinator.SessionCoordinator.InstallSession` | src/vpn_active_session.rs:470-526 | the writes of a successful commit come to the specified state |
| `VpnSessionCoordinator.SessionCoordinator.StoredLimiter` | src/vpn_active_session.rs:470-482 | the client’s limiter, a new one only if there is none, given the session’s limits |
| `VpnSessionCoordinator.SessionCoordinator.SwitchHandles` | src/vpn_active_session.rs:483-504 | the old handle is off before the new one is on |
| `VpnSessionCoordinator.SessionCoordinator.ReleaseIfCurrent` | src/vpn_active_session.rs:279-296 | removes the session exactly when that generation is current, with the specified state; otherwise changes nothing |
| `VpnSessionCoordinator.SessionCoordinator.ReplaceRegistry` | src/vpn_active_session.rs:318-399 | for some order of the active clients, the specified reload; report and metrics count exactly the sessions kept, revoked and changed, and exactly the kept ones stay |
| `VpnSessionCoordinator.SessionCoordinator.CloseAllSessions` | src/vpn_active_session.rs:401-425 | for some order, the specified shutdown: no session is left, and the count is of those that were active |
| `VpnSessionCoordinator.SessionCoordinator.PerformClose` | src/vpn_active_session.rs:391-423 | a close recorded under the lock reaches its connection in a step of its own, once |
| `ControlCodec.DecodeOfEncode` | src/vpn_control.rs:193-324 | every valid hello, accept and reject decodes from its encoding to itself |
| `ControlCodec.EncodeOfDecode` | src/vpn_control.rs:193-324 | every accepted byte string re-encodes to the same bytes, reserved and absent-address bytes included |
| `ControlCodec.HelloReencodes` | src/vpn_control.rs:264-277 | an accepted hello body is the encoding of what it decodes to |
| `ControlCodec.AcceptReencodes` | src/vpn_control.rs:279-314 | an accepted accept body is the encoding of what it decodes to |
| `ControlCodec.RejectReencodes` | src/vpn_control.rs:316-324 | an accepted reject body is the encoding of what it decodes to |
| `ControlCodec.CapabilitiesExactly` | src/vpn_control.rs:326-336 | of all capability sets exactly 13, 14 and 15 are valid |
| `ControlCodec.HelloValidExactly` | src/vpn_control.rs:78-86 | a hello is valid exactly if its versions are in order from one on, its capabilities are one of the three sets, and its sizes reach 1280 and 1036 |
| `ControlCodec.AcceptValidExactly` | src/vpn_control.rs:102-135 | an accept is valid exactly if its numbers are and each family it offers, and no other, has two different usable addresses |
| `ControlCodec.FrameRefusals` | src/vpn_control.rs:238-262 | the refusals of a frame, in the order of the tests; with none of them the body decides |
| `ControlCodec.BodyRefusals` | src/vpn_control.rs:264-324 | the refusals of a body: the wrong length, a byte set that must be zero, an unknown reason, or what validation says |
| `ControlCodec.FrameLayout` | src/vpn_control.rs:193-236 | the frame byte by byte: letters, format, kind, body length, body |
| `ControlCodec.HelloLayout` | src/vpn_control.rs:193-236 | a hello’s body byte by byte |
| `ControlCodec.AcceptLayout` | src/vpn_control.rs:193-236 | an accept’s body byte by byte, client addresses before the server’s |
| `ControlCodec.RejectLayout` | src/vpn_control.rs:193-236 | a reject’s body: the number of its reason, one to seven, and the seconds to wait |
| `TunnelAddress.Ipv4Exactly` | src/vpn_control.rs:348-354 | an IPv4 tunnel address is usable exactly if it is not the lowest, the highest, or in 127/8, 169.254/16 or 224/4 |
| `TunnelAddress.Ipv6Exactly` | src/vpn_control.rs:356-361 | an IPv6 tunnel address is usable exactly if it is not unspecified, loopback, fe80::/10 or ff00::/8 |
| `Negotiation.SelectsGreatestCommon` | src/vpn_control.rs:179-191 | for all four bounds: the greatest version in both ranges, none exactly when they do not meet or one starts at zero |
| `Negotiation.OfferIsValid` | src/vpn_session.rs:222-264 | an offer made from sound data passes the server’s own validation and the client’s |
| `Negotiation.ClientAcceptsExactly` | src/vpn_session.rs:387-400 | the client accepts exactly a valid answer within the versions, the families and the sizes that it offered |
| `Negotiation.NegotiationExact` | src/vpn_session.rs:194-265 | for every hello, certificate and configuration: each of the five refusals exactly with its condition, and acceptance otherwise, for the authorized identity and the given generation, at the greatest common version; per family the client gets the identity’s own address and the server is named by the registry’s, exactly when the hello offers the family and the identity has an address in it; each size is the lesser of the two ends; the client accepts it and the final validation never fails |
| `Negotiation.HandshakeOnTheWire` | src/vpn_session.rs:194-400 | for every registry that can be built, the exchange through the codec: the hello arrives as sent, the accept arrives as granted with the identity’s own addresses, and the client accepts it |
| `Digest.ComputeDigest` | src/lib.rs:4256-4260 | the fold computes the specified digest |
| `Digest.MixTells` | src/lib.rs:4256-4260 | one step of the digest tells the byte, given the hash, and the hash, given the byte |
| `Digest.OneByteChangesDigest` | src/lib.rs:4256-4260 | changing one byte of any data changes its digest |
| `Digest.KnownDigests` | src/lib.rs:4256-4260 | two published values of the 64-bit FNV-1 hash |
| `SustainedRecords.FillPayload` | src/lib.rs:3921-3928 | fills the reused buffer with exactly the payload of that seed and sequence |
| `SustainedRecords.PayloadIsValid` | src/lib.rs:3930-3938 | true exactly for that payload |
| `SustainedRecords.PayloadExact` | src/lib.rs:3921-3928 | each byte is seed plus record number plus 31 times its index, modulo 256 |
| `SustainedRecords.WriteRecords` | src/lib.rs:3797-3837 | the writer sends the specified stream and its counts, or fails exactly on counter overflow |
| `SustainedRecords.ReceiveRecords` | src/lib.rs:3839-3919 | the receive loop equals the specification parser |
| `SustainedRecords.WrittenIsAccepted` | src/lib.rs:3839-3919 | every stream a writer can send is accepted with its counts |
| `SustainedRecords.AcceptedIsWritten` | src/lib.rs:3839-3919 | whatever is accepted is a writer’s stream |
| `SustainedRecords.ReceiverExact` | src/lib.rs:3797-3919 | a byte stream is accepted with k records exactly when it is the writer’s stream of k records |
| `SustainedRecords.CorruptionRejected` | src/lib.rs:3839-3919 | any other stream of the same length is rejected |
| `SustainedRecords.PrefixRejected` | src/lib.rs:3839-3919 | a stream that breaks off anywhere is refused as truncated, so no accepted stream is a proper prefix of another |
| `SustainedRecords.MoreIsTrailing` | src/lib.rs:3830-3919 | anything after the end mark is refused as trailing data |
| `JsonlScanner.LinesKeepTheBytes` | src/proxy_observe.rs:276-320 | the reference splitting loses nothing: its lines, terminated, are the file, and no line holds a newline |
| `JsonlScanner.LinesOfTerminated` | src/proxy_observe.rs:276-320 | every list of newline-free lines is what its file splits into |
| `JsonlScanner.Analyze` | src/proxy_observe.rs:276-320 | however the reader cuts the input, the observation is that of the reference splitting, a line being oversized exactly when longer than the limit; the scan terminates |
| `JsonlScanner.OversizedExactly` | src/proxy_observe.rs:276-335 | a line counts as oversized exactly from 65537 bytes on |
| `JsonlScanner.IngestBufferedLine` | src/proxy_observe.rs:322-335 | an oversized line is only counted, any other is ingested |
| `Observation.Ledger.AdjustBalance` | src/proxy_observe.rs:625-634 | adds to one balance of one role and forgets it at zero; everything else stays |
| `Observation.Ledger.IngestLine` | src/proxy_observe.rs:89-149 | the in-place ledger equals the specification ingest of the line |
| `ObservationCounts.CounterExact` | src/proxy_observe.rs:337-490 | for every log each of a role’s 24 counters is the number of the role’s events that it stands for, by event and by reason |
| `ObservationCounts.LogCounterExact` | src/proxy_observe.rs:89-149 | for every log each number about the whole log is the number of lines of its kind |
| `ObservationCounts.LatestMetricsExact` | src/proxy_observe.rs:337-490 | the metrics kept for a role are those of its last snapshot |
| `ObservationOrder.RoleEventsCommute` | src/proxy_observe.rs:337-490 | two events of one role commute unless both are metrics snapshots |
| `ObservationOrder.LinesCommute` | src/proxy_observe.rs:89-149 | two lines commute unless they are metrics snapshots of one role |
| `ObservationOrder.OrderDoesNotMatter` | src/proxy_observe.rs:89-490 | reordering a log leaves the whole observation unchanged if each role’s metrics snapshots keep their order |
| `ObservationHealth.EvaluateRole` | src/proxy_observe.rs:493-595 | the pushed list holds exactly the violations due, once each and in a fixed order; without a metrics snapshot the tests against it are not made |
| `ObservationHealth.Evaluate` | src/proxy_observe.rs:151-189 | the verdict lists exactly the violations due for the log and its roles, is healthy exactly when there are none, and then every event count of every observed role is within its limit |
| `ObservationHealth.ReportedExactlyWithSnapshot` | src/proxy_observe.rs:540-594 | an event count of forced shutdowns, timeouts or upstream errors over its limit is reported if and only if the role has a metrics snapshot; otherwise the missing snapshot is |
| `ObservationHealth.MissingSnapshotHidesTimeouts` | src/proxy_observe.rs:541-547 | a role that timed out once, under a policy that allows none, is reported for its missing snapshot and not for the timeout |
| `ObservationHealth.HealthyMeansWithinLimits` | src/proxy_observe.rs:151-189 | a healthy log has a snapshot for every observed role and all its event counts within the limits |
| `ObservationHealth.TotalsExact` | src/proxy_observe.rs:493-640 | the totals of failures, timeouts and rejections in plain numbers, up to the largest 64-bit number |
| `ObservationHealth.HealthyMeansClosed` | src/proxy_observe.rs:493-595 | where the policy asks for it, a healthy log has as many shutdowns begun and ended as runtimes started for every observed role, and a last snapshot with nothing active |
| `ObservationCounts.HealthyLogIsClosed` | src/proxy_observe.rs:151-189 | the same in numbers of events and in the last snapshot of the log |
| `ObservationCounts.HealthyLog` | src/proxy_observe.rs:151-189 | a log with a healthy verdict has no bad line, and for every role in it the numbers of failure, rejection, timeout, upstream-error and forced-shutdown events are within the limits |
| `ObservationHealth.BalanceExact` | src/proxy_observe.rs:337-634 | after every log a balance is starts minus finishes, no zero is stored, and the balances add up to the difference of the counters |
| `ObservationHealth.OpenLifecycleExact` | src/proxy_observe.rs:337-531 | for every log an open-lifecycle violation is raised for a role exactly when it is asked for and some connection id has unequal numbers of started and finished events, for connections and for streams |
| `SoakPacer.DurationExact` | src/proxy_soak.rs:955-960 | the duration is the exact ceiling, clipped to 64 bits: the 128-bit steps never saturate |
| `SoakPacer.PublicRatePacer.WaitForBytes` | src/proxy_soak.rs:318-331 | schedules at the later of the clock and the pacer, and moves the pacer by the spacing unless the clock overflows |
| `SoakPacer.GapIsLongEnoughExactly` | src/proxy_soak.rs:318-331 | the gap after a send covers it at the rate if and only if nothing was sent, or the spacing fits 64 bits and the clock |
| `SoakPacer.StartsNeverGoBack` | src/proxy_soak.rs:318-331 | scheduled times never decrease, with no condition on the run |
| `SoakPacer.EveryWindowIsPaced` | src/proxy_soak.rs:318-331 | for every run of calls whose scheduled spacings fit and every i and j: the bits of calls i to j-1 are at most the rate times the scheduled distance |
| `SoakPacer.BusyRunIsTight` | src/proxy_soak.rs:318-331 | while busy the pacer loses at most one nanosecond a send against the exact rate |
| `SoakPacing.PacedExactlyWithRoom` | src/proxy_soak.rs:318-331 | for given sizes and any clock readings up to an instant: every window is paced if and only if each spacing fits 64 bits and all of them fit between that instant and the end of the clock |
| `SoakPacing.LawFailsAtTheLastInstant` | src/proxy_soak.rs:318-331 | at the end of any clock, two sends of any size share an instant and break the rate |
| `SoakPacing.ValidatedSoakIsPaced` | src/proxy_soak.rs:111-160 | a validated soak is paced over every window, whatever its chunks and clock readings, as long as the clock can count one pacing window for each chunk |
| `SoakPacing.ValidExactly` | src/proxy_soak.rs:111-160 | validation of the soak’s numbers, in which the pacing test comes to: ten seconds at the rate carry the payloads of all workers |
| `SoakPacing.ChunkWithinWindow` | src/proxy_soak.rs:151-155 | no chunk of a validated soak needs more than the ten-second pacing window |
| `SoakInvariants.WorkerStepKeepsInvariant` | src/proxy_soak.rs:563-621 | one atomic step of a worker, whatever the other tasks do, keeps the invariant |
| `SoakInvariants.SupervisorStepKeepsInvariant` | src/proxy_soak.rs:623-708 | one step of the supervisor keeps it |
| `SoakInvariants.RunKeepsInvariant` | src/proxy_soak.rs:563-805 | so does every interleaving: reserved bytes are the successful reservations times a flow, counters match the workers |
| `SoakInvariants.BudgetIsNeverExceeded` | src/proxy_soak.rs:731-792 | in every state of every run, bytes sent and echoed are at most the bytes reserved, and those at most the budget |
| `SoakInvariants.ReportIsTruthful` | src/proxy_soak.rs:691-708 | what the report means: attempted is completed plus failed; without failures sent, echoed and reserved are exactly the completed flows; the stage passes if and only if the stop was normal, some flow ran and none failed |
| `SoakInvariants.EveryReportIsTruthful` | src/proxy_soak.rs:563-728 | in every run the supervisor finds a legal stop code, and the report, once out, is truthful and names the code written |
| `SoakInvariants.StopCodeIsWrittenOnce` | src/proxy_soak.rs:794-805 | once written the stop code outlives every further step |
| `SoakHistory.RunCaused` | src/proxy_soak.rs:563-805 | over every interleaving the stop code is that of the first request made, and every reason on its way has its cause among the steps |
| `SoakHistory.RunCounts` | src/proxy_soak.rs:563-792 | and every counter is behind the steps that it counts by the workers that have yet to count |
| `SoakHistory.ReportTellsHistory` | src/proxy_soak.rs:563-728 | the report of every run: its reason is that of the first request and has its cause in the run, the deadline, the interrupt, an exchange without room or a broken flow; its six counts are those of the steps; a stage passes only after the deadline or an exhausted budget and with no broken flow |
| `SoakHistory.InterruptedNeverElapsed` | src/proxy_soak.rs:640-668 | a run has a deadline or an interrupt, not both, so an interrupted one never reports that the duration elapsed |
| `SoakHistory.WorkersEndForAStop` | src/proxy_soak.rs:569-621 | a worker ends only when it saw the stop flag or asked for the stop |
| `SoakHistory.StopIsHeeded` | src/proxy_soak.rs:569-590 | once the flag is up no more flows are started than workers had passed their check of it |
| `SoakHistory.WriteEnabledExactly` | src/proxy_soak.rs:739-753 | a write may take any number of the bytes left that all lie in one chunk of 16 KiB |
| `SoakHistory.NeverStuck` | src/proxy_soak.rs:563-708 | before its report no run gets stuck: some task can always take a step |
| `RealtimeCodec.UnwireOfWire` | src/realtime.rs:516-558 | reading the fields of a frame’s bytes gives the frame |
| `RealtimeCodec.WireOfUnwire` | src/realtime.rs:516-558 | writing the fields read from bytes with a legal header gives the bytes |
| `RealtimeCodec.WireLayout` | src/realtime.rs:474-514 | the batch byte by byte: letters, version, count, batch number, first sequence, base time, four gaps, five digests, five payloads |
| `RealtimeCodec.GapsExact` | src/realtime.rs:494-504 | the timestamp gaps are encodable exactly when neighbours are that many quanta apart |
| `RealtimeCodec.EncodeThenDecode` | src/realtime.rs:474-558 | decoding any encodable batch gives its timestamps, digests and payloads with the sequences renumbered from the first, or nothing when the last number would not fit 32 bits |
| `RealtimeCodec.RoundTripExactly` | src/realtime.rs:474-558 | an encodable batch comes back as sent if and only if its five sequences are consecutive |
| `RealtimeCodec.LastBatchIsLost` | src/realtime.rs:474-558 | one batch number encodes and never decodes |
| `RealtimeCodec.LastBatchEncodes` | src/realtime.rs:474-515 | and it does encode, for any payload |
| `RealtimeCodec.ReencodesExactly` | src/realtime.rs:474-558 | whatever decodes re-encodes to the same bytes if and only if its first sequence fits its batch number and its digests are right |
| `RealtimeBatch.EncodeBatch` | src/realtime.rs:474-515 | the buffer-filling encoder equals the specification, errors included |
| `RealtimeBatch.DecodeBatch` | src/realtime.rs:516-558 | the decoder’s loops equal the specification |
| `RealtimeLedger.ReceiveAccounting.RecordMessage` | src/realtime.rs:258-292 | one message moves exactly the counter, mark and latency that its verdict names |
| `RealtimeLedger.ReceiveAccounting.RecordEvent` | src/realtime.rs:227-295 | the in-place ledger equals the specification step, and fails exactly on an untimely arrival |
| `RealtimeLedger.SaturatedRun` | src/realtime.rs:227-295 | after every run the saturating counters are the true counters cut off, and marks and latencies do not depend on them |
| `RealtimeLedger.RunConservesExactly` | src/realtime.rs:217-295 | after every run of successful calls five times the datagrams is valid plus late plus duplicate plus error messages, if and only if those four true totals fit 64 bits |
| `RealtimeLedger.RunConserves` | src/realtime.rs:217-295 | in particular for every run whose message count fits 64 bits |
| `RealtimeLedger.LawHoldsExactlyUpToTheLimit` | src/realtime.rs:217-246 | for runs of malformed datagrams the law holds if and only if five times their number fits 64 bits |
| `RealtimeLedger.LawFailsPastTheLimit` | src/realtime.rs:217-246 | it fails for every run of empty datagrams that is longer |
| `RealtimeLedger.RunMarks` | src/realtime.rs:281-292 | after every run valid plus late is the number of sequences marked, with one latency each |
| `RealtimeLedger.CleanRunMarks` | src/realtime.rs:227-295 | copies of sent batches in any order and number raise no error, and a sequence is received exactly when some copy of its batch arrived |
| `RealtimeLedger.NothingLostExactly` | src/realtime.rs:227-400 | nothing is reported lost exactly when every batch arrived at least once |
| `RealtimeReceipts.JudgeExact` | src/realtime.rs:258-280 | each verdict with its condition; a message is correct exactly if number, time, payload and digest are those it was sent with |
| `RealtimeReceipts.LedgerTells` | src/realtime.rs:227-295 | after every run a message is marked exactly if an intact copy of it arrived in some datagram, and the latencies are those of the first arrivals, in order |
| `RealtimeReceipts.CountersExact` | src/realtime.rs:227-295 | after every run each error counter is the number of messages with its verdict, of malformed datagrams or of messages in wrong batches, up to the largest 64-bit number |

## Left out

- Sockets, TLS, the QUIC endpoints, task spawning and process code (`src/proxy.rs`, `src/mptcp.rs`,
  `src/hysteria.rs`, `src/b_ingress.rs`, `src/main.rs`, most of `src/lib.rs`): input and output around the core.
- JSON, UTF-8, certificate and address text parsing: a log line arrives classified, a fingerprint is a value.
- Weak memory orderings: the soak's atomics and the budget's counters are sequentially consistent steps.
- Poisoned locks: a lock is held to the end of its step.
- Read errors of the log scanner and the record receiver's transport: a stream is a finite byte string.
- The packet policy (source and destination address checks) that follows reassembly in `ingest_datagram`, and the
  traffic metrics: single comparisons and counters.
- The liveness of the soak under fair scheduling: the proofs are about safety, and that no run gets stuck.
- Throughput, CPU and memory gates, report text, CSV files and thresholds: floating point or one-branch checks.
- `src/realtime_controller.rs`: a simpler copy of the realtime ledger.
- `src/realtime_v3.rs`, `src/scheduler.rs`, `src/vpn_client_data_path.rs` and the tunnel, network-setup and product
  runtime files: not part of this model.
- Peak gauges and rejection metrics of the quota module: they do not influence any decision.
- Observation.Ledger.IngestLine: the counters are unbounded, because a log of 2^64 lines does not occur.
- RealtimeLedger.CleanRunMarks: holds for any payload generator; the generator itself is a parameter.
- CoordinatorCloses.RunClosesOnce: assumes a new connection for every commit; `ManagedHandshake.ClosesOnce` derives it
  from one handshake per connection.
- The close with which a handshake itself ends a connection that it rejected: it is not the coordinator's.
- SoakPacer.PublicRatePacer.WaitForBytes: the sleep until the scheduled instant is the caller's.
- CoordinatorCloses.OneCodePerConnection: the same assumption.
- ManagedHandshake.ClosesOnce: one handshake per connection, as the server runs one on each that it accepts.
- ManagedHandshake.HandshakesBringNewConnections: likewise.
- SoakPacer.EveryWindowIsPaced: its condition is on the schedule; `SoakPacing.PacedExactlyWithRoom` has the exact one
  on the inputs.
- RealtimeLedger.RunConserves: a special case; `RealtimeLedger.RunConservesExactly` covers every run.
- PromptDelivery.PromptPacketArrives: about age alone; a packet that is evicted or rejected meanwhile is not covered.
- GlobalBudget.CountersStayInRange: assumes of a granted addition that it fits, and nothing of a refused one.
