# Verified model of the server-manager backend

This project models the long-lived protocols of the backend in Dafny and proves what they keep over
every run: delta streaming to browsers, the one-time migration of `data.json` into Mongo, the game
connector with its sessions and credentials, replay protection and tokens of the sign-in, and the
algorithms that have to agree with a simple description of their result.

A protocol is a state machine whose step is the code between two `await`s; what arrives from the
network, the clock and the database driver is part of the event. Where the source keeps state in
objects and maps, a class with those fields performs the same steps, each method proved equal to its
transition (`State() == Next(old(State()), ...)`). What the source promises is then proved for all
runs of the state machine. Pure code is modelled by functions and lemmas about them. The `...History`
modules and their like tell what a state holds from the events alone, without the step function: which
message a subscriber's servers come from, which 401s a back-off counts, which socket holds a session.

| component | files |
|---|---|
| live map | `MapLiveDelta`, `MapLiveSnapshot`, `MapLiveFeed`, `MapLiveFeedHistory`, `MapLiveService` |
| live server status | `StatusLive`, `StatusHub`, `StatusHubHistory` |
| migration | `LegacyMigration`, `LegacyMigrationRuns`, `LegacyMigrationChecks` |
| game connector | `RateWindow`, `ConnectorSessions`, `ConnectorDelivery`, `ConnectorService` |
| credentials | `ManagerStore`, `CredentialRegister`, `KeyRotation`, `InMemoryServers` |
| native plugin requests | `NativeRequests`, `NativeRequestHistory`, `NativeRequestService` |
| sign-in | `OpenIdNonces`, `Base64Url`, `AuthToken` |
| algorithms | `NewlineRepair`, `KnownPlayers`, `KnownPlayersHistory`, `ServerStatistics`, `StatisticsStore`, `MasterList`, `MasterListPruning`, `MasterListRows`, `MasterListRepeat`, `MasterListService`, `WorkerPool` |

`Prelude` holds value types and string helpers that several modules share.

## Where the code falls short of the plain statement

Each of these is a lemma or method below, with the exact condition where there is one.

- A list delta of the live map replicates if and only if no differing item hides behind an unchanged
  last item with its id (`MapLiveDelta.DeltaReplicatesExactly`); from every previous list exactly when
  equal ids mean equal items. A list with two different claims under one id leaves some client wrong.
- A status delta carries a changed field exactly when it has its declared type.
- A client of the live status shows what was published last if and only if it was published again after
  its message took effect, or no differing publish fell between the read of the stored status and that
  moment (`StatusHub.ShowsPublishedExactly`, `CurrentReadShowsPublishedExactly`, `MissedPublish`).
- A message that takes effect after its socket closed leaves a subscriber behind for good, in the live
  status (`StatusHub.SubscribedExactly`, `LateInstallLingers`) as in the live map, where it keeps the refresh
  loop running (`MapLiveFeed.LateJoinLingers`). A connector authentication that ends after its socket closed
  takes the session from a connected one and keeps it (`ConnectorSessions.LateAuthenticationTakesOver`).
- The migration inserts by id, but other unique indexes are in force. It completes if and only if the ids are
  valid, no source record that Mongo lacks clashes on such an index with a record of Mongo or with another such
  record, and, once the marker is set, the buckets in Mongo aggregate like the source's
  (`LegacyMigrationRuns.NextStartCompletesExactly`). Otherwise every later start fails (`ClashIsPermanent`,
  `DisagreementIsPermanent`): after the marker all statistics of the source are verified again, not only
  those that were written.
- Without Mongo the stores hand out live objects. A 401 resets what the request's object says when the answer
  arrives: the stored credential, unless the server was saved since. A pairing made in between survives if and
  only if a save of the server came before a write that changed the credential
  (`InMemoryServers.PairingSurvivesExactly`), against the comment at `src/db/manager-store.ts:206-209`. On Mongo
  a 401 never erases another record (`CredentialRegister.CredentialSurvives`).
- A call made while a request that ends in a 401 is in flight is held back in every continuation if and only if
  that request is the one registered for its server (`NativeRequests.HeldBackExactlyWhenRegistered`). A 401 for
  another credential of the server ends a back-off (`OtherCredentialEndsBackOff`).
- A nonce can succeed twice if and only if it is stamped at or after the start of its first success
  (`OpenIdNonces.ReplayExactlyWhenStampedAhead`).
- The newline repair does not reset its escape flag at a raw line break. Input and output scan in lock
  step if and only if no raw break in a string follows an unpaired backslash
  (`NewlineRepair.LockStepExactly`, `EscapedBreakDiverges`).
- A master list row is refused if and only if its derived id stands on a record at another endpoint
  that no earlier row has moved. The pins have been rewritten by then and name that other server
  (`MasterList.GoesThroughExactlyWhenClear`, `RefusedRowMisdirectsPins`). A catalog in which derived
  ids stand only at their own endpoints never gets there (`RefreshesStayAligned`); no caller of `updateServer`
  changes an address or port, so such a record can only come from imported or hand-edited data.

## Model

| member | source | states |
|---|---|---|
| MapLiveDelta.DeltaReplicatesExactly | src/service/map-live-service.ts:319-340 | applying `entityDelta` to the previous list keyed by id gives the next list keyed by id, if and only if no differing item hides behind an unchanged last one |
| MapLiveDelta.ReplicatesFromAnywhereExactlyWhenConsistent | src/service/map-live-service.ts:319-332 | a list replicates from every previous list if and only if equal ids in it mean equal items |
| MapLiveDelta.EmptyDeltaMeansEqual | src/service/map-live-service.ts:334-336 | no entity change is reported exactly when the keyed contents are equal |
| MapLiveDelta.ChangedItemsContents | src/service/map-live-service.ts:327 | `upserted` holds exactly the items that differ from the known one with their id |
| MapLiveDelta.AbsentIdsContents | src/service/map-live-service.ts:328-330 | `removedIds` holds exactly the ids that occurred before and do not any more |
| MapLiveDelta.LastChangeIsSent | src/service/map-live-service.ts:324-327 | when the last item with an id changed, the delta's last item with that id is that item |
| MapLiveSnapshot.ChangesReplicateExactly | src/service/map-live-service.ts:283-317 | one message takes a client of the previous snapshot to the next one, exactly when all its lists settle |
| MapLiveSnapshot.OffersReplicateExactly | src/service/map-live-service.ts:299-315 | the same for the offers of all areas, a missing area counting as empty |
| MapLiveSnapshot.AreasApplyIndependently | src/service/map-live-service.ts:303-314 | area deltas touch each listed area once and no other |
| MapLiveSnapshot.NoLayersMeansNoNews | src/service/map-live-service.ts:256-257 | without layers nothing is sent, and the client already holds the new snapshot |
| MapLiveSnapshot.HeldByOwnIds | src/service/map-live-service.ts:288-305 | a client that holds a consistent snapshot finds each claim, player, marker and offer under its own id, and nothing else |
| MapLiveFeedHistory.AreasSentExactly | src/service/map-live-service.ts:299-316 | exactly the areas with a positive safe id whose offers changed are sent, and never an empty list of areas |
| MapLiveFeed.ReplicationOverRuns | src/service/map-live-service.ts:243-281 | over every interleaving of joins, leaves and refreshes each connected client holds its subscriber's snapshot and has seen strictly increasing sequence numbers |
| MapLiveFeed.StepKeepsReplication | src/service/map-live-service.ts:243-281 | every single step keeps that |
| MapLiveFeed.InconsistentClaimsDiverge | src/service/map-live-service.ts:288-289 | consistency is needed: two different claims under one id make some client wrong |
| MapLiveFeed.SubscribedExactly | src/service/map-live-service.ts:107 | a subscriber exists after a run exactly when it has not left since some join |
| MapLiveFeed.LateJoinLingers | src/service/map-live-service.ts:98-125 | a join after its socket's only close stays through every later run |
| MapLiveFeedHistory.NewsExactly | src/service/map-live-service.ts:250-257 | a refresh has news for a subscriber exactly when a client of its last snapshot does not hold the new one |
| MapLiveFeedHistory.SentExactly | src/service/map-live-service.ts:243-272 | after every run a client that holds what a refresh shows is left alone; any other gets the changes under the next number and holds it then, or is lost when its socket is gone |
| MapLiveFeedHistory.SequenceCounts | src/service/map-live-service.ts:259-262 | the sequence number counts the refreshes that were news to some subscriber |
| MapLiveFeedHistory.ShownExactly | src/service/map-live-service.ts:106-114 | after every run a subscriber is that of the last join of its socket: it holds what that user may see of the entry published last since, or nothing yet |
| MapLiveService.MapLiveService.SubscriptionFor | src/service/map-live-service.ts:342-351 | finds the stored subscription or stores a new idle one, all other subscriptions staying served |
| MapLiveService.MapLiveService.Subscribe | src/service/map-live-service.ts:106-114 | the feed takes the join, a loop is started only where none is running or timed, and the loop invariant holds |
| MapLiveService.MapLiveService.CompleteRefresh | src/service/map-live-service.ts:194-219 | publishes, then arms the timer exactly if somebody is subscribed and forgets the subscription otherwise |
| MapLiveService.MapLiveService.FireTimer | src/service/map-live-service.ts:212-215 | the timer's handle goes and the next refresh runs |
| MapLiveService.MapLiveService.RemoveSubscriber | src/service/map-live-service.ts:353-365 | the feed takes the leave; the last one out cancels the timer unless a refresh is running |
| MapLiveService.MapLiveService.OneLoopPerServer | src/service/map-live-service.ts:187-222 | a running or timed loop is the one stored under its server id, and never both; so there is no second loop |
| MapLiveService.ServerSubscription.CollectMessages | src/service/map-live-service.ts:250-258 | every subscriber's snapshot is replaced and exactly the changed ones get a message |
| MapLiveService.ServerSubscription.PublishChanges | src/service/map-live-service.ts:243-272 | is the publish step of the feed |
| StatusLive.ServerLiveStatusChanges | src/service/server-status-live-service.ts:177-194 | the loop computes the delta whose meaning `DeltaOverDescribes` gives |
| StatusLive.DeltaOverDescribes | src/service/server-status-live-service.ts:185-191 | field by field: removed exactly if gone, sent exactly if different, present and of its declared type |
| StatusLive.DeltaReplicatesExactly | src/service/server-status-live-service.ts:177-194 | a client agreeing up to `lastChecked` agrees after the delta, exactly when every changed field has its declared type |
| StatusLive.EmptyDeltaMeansAgreement | src/service/server-status-live-service.ts:107-108 | nothing is sent exactly when the responses agree, and what is sent carries the new time |
| StatusLive.TimeFollowsExactly | src/service/server-status-live-service.ts:192 | the time a client shows follows exactly when there is a change the delta can carry |
| StatusHub.ReplicationOverRuns | src/service/server-status-live-service.ts:53-119 | over every interleaving of single reads, installs, failures, publishes and closes: snapshots exist for exactly the chosen servers, clients agree with them, and saw the numbers 1, 2, 3, ... across replacements |
| StatusHub.ShowsPublishedExactly | src/service/server-status-live-service.ts:57-64 | a client shows the status published last if and only if it was published after the install, or what was read agrees with the last publish before the install |
| StatusHub.CurrentReadShowsPublishedExactly | src/service/server-status-live-service.ts:57-64 | for a read that was current: exactly when no differing publish fell last between the read and the install, or a later one arrived |
| StatusHub.MissedPublish | src/service/server-status-live-service.ts:57-64 | such a missed publish, from the empty hub |
| StatusHub.StepKeepsReplication | src/service/server-status-live-service.ts:101-119 | every single step keeps that |
| StatusHub.SubscribedExactly | src/service/server-status-live-service.ts:53-95 | a subscriber exists after a run if and only if some message of its socket took effect and the socket was not closed after that |
| StatusHub.LateInstallLingers | src/service/server-status-live-service.ts:92-95 | a message that takes effect after the close leaves a subscriber that nothing removes |
| StatusHubHistory.ChosenByLastMessage | src/service/server-status-live-service.ts:57-65 | after every run a subscriber has chosen and has snapshots of exactly the servers of the last message of its socket that took effect: such a message replaces all before it |
| StatusHubHistory.OtherServersAreSilent | src/service/server-status-live-service.ts:102-103 | a publish of a server that is not chosen leaves the subscriber, its number and its client as they were |
| StatusHubHistory.SentExactly | src/service/server-status-live-service.ts:104-118 | after every run a publish of a chosen server becomes its snapshot, and the client gets the next number if and only if the status differs from the snapshot before; a client that is gone is lost then |
| StatusHubHistory.NumberingGoesOn | src/service/server-status-live-service.ts:58-62 | the numbers a connected client has seen only get longer, whatever messages take effect |
| StatusHub.StatusService.InstallSnapshots | src/service/server-status-live-service.ts:58-65 | replaces the set and the snapshots together and keeps the sequence number |
| StatusHub.StatusService.PublishUpdate | src/service/server-status-live-service.ts:101-119 | the listener's loop is the publish step for every subscriber |
| LegacyMigration.CountsProvePresence | src/db/mongodb.ts:212-261 | equal record and id counts prove that every source id is in the collection |
| LegacyMigration.PresenceGivesCounts | src/db/mongodb.ts:212-261 | the converse, for a source with unique ids |
| LegacyMigration.BulkInsertAppendsMissing | src/db/mongodb.ts:155-161 | a bulk insert that no index refuses appends exactly the records whose ids were missing |
| LegacyMigration.AcceptedExactlyWhenClashFree | src/db/mongodb.ts:301-317 | no unique index refuses a record if and only if no missing source record clashes with an original or another missing one |
| LegacyMigration.ServersClashExactly | src/db/mongodb.ts:301-311 | two server records clash exactly on an equal address text and an equal port number together, both present |
| LegacyMigration.UsersClashExactly | src/db/mongodb.ts:312-315 | two user records clash exactly on an equal user name, an equal email, each also when both miss it, or a Steam id that both have |
| LegacyMigration.StatisticsClashExactly | src/db/mongodb.ts:316-317 | two statistics records clash exactly on an equal server and an equal hour together |
| LegacyMigration.AcceptedAgain | src/db/mongodb.ts:155-161 | a write after an interrupted one is refused at the same record, or nowhere |
| LegacyMigration.AllPresentWereAccepted | src/db/mongodb.ts:155-161 | a refused record never gets into the collection |
| LegacyMigration.PrefixesAbsorb | src/db/mongodb.ts:155-161 | an interrupted insert repeated to any point is the longer of the two |
| LegacyMigrationRuns.NothingIsLost | src/db/mongodb.ts:83-122 | for every schedule of interruptions: the source is in the file or fully in Mongo, no earlier record changes, and the file is archived only when the collections are the overlay |
| LegacyMigrationRuns.BootStaysReachable | src/db/mongodb.ts:83-122 | one start, cut off anywhere, keeps the host in the set of reachable hosts |
| LegacyMigrationRuns.OverlayContents | src/db/mongodb.ts:155-161 | the overlay is the original records plus the source records whose id Mongo did not have |
| LegacyMigrationRuns.FreshStart | src/db/mongodb.ts:89-109 | a start without marker writes all, passes its own verification, marks and archives, unless a unique index refuses a record; then it throws with what had been written |
| LegacyMigrationRuns.GoesThroughExactly | src/db/mongodb.ts:301-317 | the three bulk writes go through if and only if nothing clashes |
| LegacyMigrationRuns.OwnWritesVerify | src/db/mongodb.ts:212-231 | statistics this start inserted always pass the aggregate check |
| LegacyMigrationRuns.NextStartCompletesExactly | src/db/mongodb.ts:83-122 | an uninterrupted start completes if and only if it already had, or the ids are valid, no missing source record clashes on a unique index and, once the marker is set, the aggregates agree |
| LegacyMigrationRuns.ClashIsPermanent | src/db/mongodb.ts:83-109 | with a clash no schedule of starts ever completes or sets the marker |
| LegacyMigrationRuns.SameNameBlocks | src/db/mongodb.ts:313 | such a host: Mongo has the user name under another id |
| LegacyMigrationRuns.MarkedHostVerifiesExactly | src/db/mongodb.ts:93-95 | with the marker set the verification passes exactly when Mongo's buckets aggregate like the source's |
| LegacyMigrationRuns.DisagreementIsPermanent | src/db/mongodb.ts:93-95 | otherwise no later start changes anything |
| LegacyMigrationRuns.StuckAfterMarker | src/db/mongodb.ts:83-109 | such a host: one bucket counted further, and a stop between marker and rename |
| LegacyMigrationChecks.OneBucketDiffers | src/db/mongodb.ts:237-268 | when one bucket counts differently in one summed field the check notices exactly if the amounts differ, anything but a number being zero; for `maxPlayers` exactly if the maximum differs; other fields go unnoticed |
| LegacyMigrationChecks.MaximumIsLargest | src/db/mongodb.ts:244 | the compared maximum is the largest amount of any bucket, with zero as its floor |
| LegacyMigrationChecks.StartsCompose | src/db/mongodb.ts:83-122 | later starts begin where the earlier ones, cut off or not, left the host |
| LegacyMigrationRuns.ExistingBackupStays | src/db/mongodb.ts:112-122 | with a backup present neither file is ever touched |
| LegacyMigrationRuns.Collection.BulkInsertMissing | src/db/mongodb.ts:155-161 | the upserts, cut off after any number of records or by the first refusal, which is reported |
| LegacyMigrationRuns.Migrator.WriteLegacyRecords | src/db/mongodb.ts:145-153 | the three bulk writes, and whether one was refused |
| LegacyMigrationRuns.Migrator.MigrateLegacyJson | src/db/mongodb.ts:83-109 | is one start of the model |
| LegacyMigrationRuns.Migrator.BackupLegacyJson | src/db/mongodb.ts:112-122 | renames only when no backup exists |
| RateWindow.AtMostTwoAllowances | src/service/game-connector-websocket-service.ts:207-215 | any half-open minute lets at most 240 frames of one session pass |
| RateWindow.TwoAllowancesAreReached | src/service/game-connector-websocket-service.ts:207-215 | and 240 is reached |
| RateWindow.OneWindow | src/service/game-connector-websocket-service.ts:207-215 | from a window opened in the minute at most its remaining allowance passes in it |
| ConnectorSessions.OrderOverRuns | src/service/game-connector-websocket-service.ts:86-113 | over every run accepted events of a socket have increasing positive numbers and negotiated names, and a socket has a session for at most one server |
| ConnectorSessions.StepKeepsOrder | src/service/game-connector-websocket-service.ts:182-201 | every single step keeps that |
| ConnectorSessions.ReplacedStaysOut | src/service/game-connector-websocket-service.ts:96-112 | a socket that lost its session has nothing accepted any more and its close leaves every session in place |
| ConnectorSessions.SessionStays | src/service/game-connector-websocket-service.ts:96-112 | only its own close, another authentication or a prune takes a session from its socket |
| ConnectorSessions.LateAuthenticationTakesOver | src/service/game-connector-websocket-service.ts:89-113 | an authentication that ends after its socket closed replaces a connected session and keeps it |
| ConnectorSessions.RateOverRuns | src/service/game-connector-websocket-service.ts:182-215 | over every run with a clock that never goes back a session passes at most 240 frames in any minute |
| ConnectorSessions.LetThroughIsPassed | src/service/game-connector-websocket-service.ts:187 | the frames a session lets through are those its rate window passes |
| ConnectorDelivery.DeliveredExactly | src/service/game-connector-websocket-service.ts:194-199 | after every run an event within the allowance on the current session is delivered if and only if its name is in the list the socket negotiated last and its number is a positive safe integer above every number delivered for the socket |
| ConnectorDelivery.NegotiatedExactly | src/service/game-connector-websocket-service.ts:188-192 | within the allowance a feature list is negotiated if and only if it has at most 64 names, all well formed, and then replaces the list before |
| ConnectorDelivery.EventNames | src/service/game-connector-websocket-service.ts:189-194 | a name is well formed exactly with 1 to 64 letters and digits, a small letter first |
| ConnectorDelivery.HeldExactly | src/service/game-connector-websocket-service.ts:96-112 | after every run a socket holds the session of a server if and only if its first authentication was for it, and since then it was not closed, the server not pruned and no other socket authenticated for it |
| ConnectorDelivery.LetThroughUnlessBusy | src/service/game-connector-websocket-service.ts:98-215 | a frame is refused for its rate only when the socket had 120 others in the last minute, counted from its authentication |
| ConnectorService.SessionObject.ConsumeMessageAllowance | src/service/game-connector-websocket-service.ts:207-215 | ticks the window and answers whether the allowance is left |
| ConnectorService.SessionObject.Accept | src/service/game-connector-websocket-service.ts:187-201 | allowance first, then features, then events, each with its own state change |
| ConnectorService.ConnectorService.Authenticated | src/service/game-connector-websocket-service.ts:96-98 | the new session takes the server over |
| ConnectorService.ConnectorService.HandleAuthenticatedMessage | src/service/game-connector-websocket-service.ts:182-205 | is the receive step: shape, current session, allowance, content |
| ConnectorService.ConnectorService.SocketClosed | src/service/game-connector-websocket-service.ts:110-112 | removes exactly the sessions of the closed socket |
| ConnectorService.ConnectorService.CloseSession | src/service/game-connector-websocket-service.ts:62-67 | removes the pruned server's session |
| ManagerStore.PairingFindsTheEndpoint | src/service/game-connector-websocket-service.ts:142-151 | with the unique index pairing is never ambiguous and finds exactly the server at the peer's address and port |
| ManagerStore.PairingExactly | src/service/game-connector-websocket-service.ts:147-151 | in any collection pairing finds the one server at the endpoint, is ambiguous exactly with several and fails exactly with none |
| CredentialRegister.CredentialSurvives | src/db/manager-store.ts:148-266 | over any run of stale saves, claims, resets, re-encryptions and removals of others a credential changes only by a replace or a compare-and-set naming exactly it |
| CredentialRegister.WriteActsOnRegister | src/db/manager-store.ts:148-266 | each write acts on a staying server's credential as a register: claim from empty, replace, compare-and-set, or nothing |
| CredentialRegister.UpsertSparesCredentials | src/db/manager-store.ts:148-188 | a save never alters a stored credential |
| CredentialRegister.SaveStoresTheRest | src/db/manager-store.ts:148-161 | a save stores every field the object has and keeps the others, always keeps the stored credential, and leaves the other servers alone |
| CredentialRegister.RemovalShrinks | src/db/manager-store.ts:280-284 | a removal takes out exactly the named server |
| CredentialRegister.CredentialWriteHitsOneServer | src/db/manager-store.ts:190-266 | a credential write changes one server and nothing else of it |
| CredentialRegister.WriteKeepsKeys | src/db/mongodb.ts:301-311 | every write keeps ids and endpoints unique |
| CredentialRegister.SecondClaimLoses | src/db/manager-store.ts:190-204 | of two pairings that found the register empty only the first wins |
| KeyRotation.DecryptWithKeyRing | src/service/game-connector-credential-service.ts:39-48 | the loop finds the first key that opens the record, or that none does |
| KeyRotation.SlotFollowsTheStore | src/db/manager-store.ts:190-266 | the one-server view used below is the whole store seen at that server |
| KeyRotation.AuthenticatedUnderCurrentKey | src/service/game-connector-websocket-service.ts:163-180 | after an authentication the record opens under the current key alone to the same credential, unless a pairing or reset came in between |
| KeyRotation.RotationNeverLocksOut | src/service/game-connector-websocket-service.ts:163-180 | any number of rotations locks out no connector that authenticates in each period |
| KeyRotation.RingOpensKnownKey | src/service/game-connector-credential-service.ts:39-48 | a ring holding the record's key opens it to its credential |
| KeyRotation.OpenedExactly | src/service/game-connector-credential-service.ts:39-48 | a ring opens exactly the non-empty records sealed under one of its keys, and tells the first place of that key |
| KeyRotation.RewrittenExactly | src/service/game-connector-websocket-service.ts:171-176 | an authentication rewrites the record exactly when it is still the one read and only an older key opens it |
| KeyRotation.GenerationCounts | src/db/manager-store.ts:190-266 | what "a pairing or reset came in between" means: the claims, replaces and resets that took effect |
| InMemoryServers.InMemoryStore.ClaimCredential | src/db/manager-store.ts:199-203 | claims only from empty, other servers unchanged |
| InMemoryServers.InMemoryStore.ResetCredential | src/db/manager-store.ts:219-223 | resets only the named credential |
| InMemoryServers.InMemoryStore.ReplaceCredential | src/db/manager-store.ts:236-241 | replaces whatever is stored |
| InMemoryServers.InMemoryStore.ReplaceCredentialIfCurrent | src/db/manager-store.ts:261-265 | replaces only the named credential |
| InMemoryServers.InMemoryStore.SaveExisting | src/db/manager-store.ts:155-159 | stores a new object that keeps the stored credential |
| InMemoryServers.PairingSurvivesExactly | src/service/native-plugin-request-service.ts:48-50 | over any run of claims, replaces, resets, compare-and-sets and saves before a 401, what is stored survives it if and only if a save came before a write that changed it |
| InMemoryServers.RejectedAfter | src/service/native-plugin-request-service.ts:39-50 | on objects the 401 does what the run predicts, for every such run |
| InMemoryServers.InMemoryStore.OnUnauthorized | src/service/native-plugin-request-service.ts:49-50 | with a header sent and a connector told, erases the stored credential exactly when it equals what the request's object says on arrival |
| InMemoryServers.DelayedRejectionErasesNewPairing | src/service/native-plugin-request-service.ts:48-50 | without Mongo a 401 for the record before it erases a newer pairing |
| InMemoryServers.SaveInBetweenKeepsNewPairing | src/db/manager-store.ts:155-159 | a save before the pairing protects it |
| InMemoryServers.RejectionWithoutWrites | src/service/native-plugin-request-service.ts:48-50 | without writes in between the 401 erases the record it was sent with, and nothing when no connector is told |
| NativeRequests.FailuresStayBounded | src/service/native-plugin-request-service.ts:54-55 | over every run at most 5000 failures are kept |
| NativeRequests.DelaysGrow | src/service/native-plugin-request-service.ts:53 | delays never shrink and lie between 5 and 30 minutes |
| NativeRequests.NoRequestWhileBackingOff | src/service/native-plugin-request-service.ts:29-34 | over every run from the start: between a 401 and its end no request with that credential starts unless a success, a reset, an eviction or another credential's 401 ended the back-off |
| NativeRequests.OtherCredentialEndsBackOff | src/service/native-plugin-request-service.ts:51-55 | a 401 for another credential of the server ends a back-off |
| NativeRequests.SoundOverRuns | src/service/native-plugin-request-service.ts:39-61 | what these results assume of a state holds after every run |
| NativeRequests.BackOffPersists | src/service/native-plugin-request-service.ts:51-55 | otherwise the entry stays and its end never moves forward |
| NativeRequests.HeldBackExactlyWhenRegistered | src/service/native-plugin-request-service.ts:25-37 | in every reachable state with a request in flight: a call with its credential sends nothing in every continuation in which the request ends in a standing 401, if and only if the request is the registered one |
| NativeRequests.RegisteredHoldsBack | src/service/native-plugin-request-service.ts:26-32 | the registered request holds the call back through every such continuation |
| NativeRequests.OthersHoldNobody | src/service/native-plugin-request-service.ts:33-36 | any other request does not: the registered one fails first, or none is registered, and the call sends its own |
| NativeRequests.CallsAllWait | src/service/native-plugin-request-service.ts:26-28 | any number of calls made while a request is registered send nothing and all wait for it |
| NativeRequests.WaitsForTheAnswer | src/service/native-plugin-request-service.ts:27-28 | a waiting call keeps waiting until the answer |
| NativeRequests.EarlierRejectionHoldsNobody | src/service/native-plugin-request-service.ts:33-36 | a state with an unregistered request in flight is reachable, and a call there is not held back by its 401 |
| NativeRequests.RepeatedRejectionWaitsLonger | src/service/native-plugin-request-service.ts:51-55 | over every run in which nothing ends the back-off, a later rejection of the credential waits at least as long as an earlier one |
| NativeRequestService.NativePluginRequests.FetchNativePluginJson | src/service/native-plugin-request-service.ts:25-34 | waits for the registered request, or starts one unless backing off |
| NativeRequestService.NativePluginRequests.ResumeCall | src/service/native-plugin-request-service.ts:28-34 | goes on after the wait under the failures of that moment |
| NativeRequestService.NativePluginRequests.RecordFailure | src/service/native-plugin-request-service.ts:51-55 | counts on, makes room and stores, as the model's recording does, keeping the map bounded |
| NativeRequestService.NativePluginRequests.FetchRouteAnswered | src/service/native-plugin-request-service.ts:39-61 | records, clears or keeps the failure and keeps the map well formed and bounded |
| NativeRequestService.NativePluginRequests.SettleRequest | src/service/native-plugin-request-service.ts:36 | unregisters only the registered request |
| NativeRequests.ResetForgets | src/service/native-plugin-request-service.ts:21-23 | a reset ends the back-off of its server for every credential and of no other server |
| NativeRequestHistory.FailuresTellTheStreak | src/service/native-plugin-request-service.ts:51-66 | after every run a failure counts exactly the 401s of its server and credential since the last success, reset, eviction or 401 of another credential, and ends 5, 10, 20 and then 30 minutes after the last |
| NativeRequestHistory.SuccessForgets | src/service/native-plugin-request-service.ts:66 | right after a success the server has no failure and no call backs off, whatever its credential |
| NativeRequestHistory.WaitAfterRejection | src/service/native-plugin-request-service.ts:51-55 | at each recorded 401 the attempts are the length of that streak and the wait is its delay |
| NativeRequestHistory.BackingOffExactly | src/service/native-plugin-request-service.ts:29-31 | a call backs off if and only if the streak of its credential is not empty and its delay has not passed |
| NativeRequestHistory.SentExactly | src/service/native-plugin-request-service.ts:25-34 | after every run a call sends a request exactly when it finds none registered, or has waited for it, and does not back off |
| NativeRequestHistory.InFlightExactly | src/service/native-plugin-request-service.ts:33-36 | what is in flight is exactly what was started and not answered since |
| NativeRequestHistory.RegisteredExactly | src/service/native-plugin-request-service.ts:34-36 | the registered request is exactly the last one started for the server, until it has settled |
| NativeRequestHistory.OrderIsChronological | src/service/native-plugin-request-service.ts:54 | the failure that makes room for another is the one that has stood longest |
| OpenIdNonces.NoncesAreSpaced | src/service/steam-openid-service.ts:42-78 | over every interleaving no nonce is checked twice at once and two successes of one start ten minutes apart |
| OpenIdNonces.ReplayExactlyWhenStampedAhead | src/service/steam-openid-service.ts:46-72 | a nonce can succeed again exactly when stamped at or after the start of its first success |
| OpenIdNonces.AtMostTwice | src/service/steam-openid-service.ts:46-72 | no nonce succeeds three times |
| OpenIdNonces.AdmittedExactly | src/service/steam-openid-service.ts:46-55 | after every run a verification goes to Steam if and only if its nonce is stamped at most ten minutes ago and at most one ahead, no other verification is checking it and none accepted it that started less than ten minutes ago |
| OpenIdNonces.EndedExactly | src/service/steam-openid-service.ts:69-78 | an admitted verification is recorded with its start and ends accepted exactly when Steam says so |
| OpenIdNonces.ForgottenExactly | src/service/steam-openid-service.ts:51-53 | a verification in time, admitted or not, forgets exactly the nonces whose ten minutes are over |
| OpenIdNonces.SteamOpenId.BeginVerification | src/service/steam-openid-service.ts:46-55 | time check, purge, lookup and reservation in one step |
| OpenIdNonces.SteamOpenId.PurgeExpired | src/service/steam-openid-service.ts:51-53 | the loop drops exactly the expired nonces |
| OpenIdNonces.SteamOpenId.EndVerification | src/service/steam-openid-service.ts:69-78 | remembers a success for ten minutes from its start and always ends the reservation |
| Base64Url.Base64UrlRoundTrip | src/service/auth-token-service.ts:21-33 | for all byte strings the parser undoes the printer, which writes the 64 URL-safe characters of section 5 of RFC 4648 only |
| Base64Url.PaddingIsRestored | src/service/auth-token-service.ts:29-33 | the padding put back is the one that was stripped |
| Base64Url.SpellsTheBytes | src/service/auth-token-service.ts:21-27 | the text is the spelling, in the alphabet of section 5 of RFC 4648, of values that make up the bytes group by group |
| Base64Url.PaddedToGroups | src/service/auth-token-service.ts:21-33 | the platform text fills whole groups of four, and the stripped one has one character for each six bits begun |
| Base64Url.SextetsRoundTrip | src/service/auth-token-service.ts:21-33 | regrouping bytes into sextets and back loses nothing |
| AuthToken.TokenParts | src/service/auth-token-service.ts:63-76 | every token splits back into its three parts and has URL-safe characters only |
| AuthToken.TokenClaims | src/service/auth-token-service.ts:63-75 | a token's parts read back as HS256 and JWT, the user, the time of issue and that time plus 604800 seconds, and the keyed hash of the first two parts |
| AuthToken.TokenSpeaksForSevenDays | src/service/auth-token-service.ts:91-112 | a token speaks for its non-empty user id exactly until its seven days are over |
| AuthToken.TokenAcceptedExactlyForSevenDays | src/service/auth-token-service.ts:84-119 | under the same secret a bearer token is accepted for its user exactly while the clock is below issue time plus 604800 seconds and the user exists |
| AuthToken.AcceptedExactly | src/service/auth-token-service.ts:84-119 | for every codec, hash, secret, clock and user map, a bearer token of any three parts is accepted if and only if its signature is the keyed hash of the first two, they name HS256 and JWT, a non-empty `sub` and an `exp` after now, and that user exists |
| AuthToken.ForgedIsRefused | src/service/auth-token-service.ts:94-102 | any other signature is refused |
| AuthToken.BadClaimsAreRefused | src/service/auth-token-service.ts:105-112 | another `alg` or `typ`, a missing or empty `sub`, and an `exp` at or before now are refused, whoever signed |
| AuthToken.BearerTokenExactly | src/service/auth-token-service.ts:88-89 | the header pattern captures what follows as much white space as it can match, on one line |
| AuthToken.BearerCarriesToken | src/service/auth-token-service.ts:88-91 | the bearer header yields the token it carries |
| NewlineRepair.EscapeLiteralStringNewlines | src/service/native-plugin-list.ts:77-98 | the scanner loop is the unit-wise repair used below |
| NewlineRepair.UnchangedExactlyWhenClean | src/service/native-plugin-list.ts:77-98 | the input comes back unchanged if and only if no raw line break lies in a string |
| NewlineRepair.RepairIsFaithful | src/service/native-plugin-list.ts:77-98 | without escaped raw breaks the output scans to the same state, has no raw break in a string, and a second pass changes nothing |
| NewlineRepair.LockStepExactly | src/service/native-plugin-list.ts:77-98 | input and output scan in lock step if and only if no raw break in a string follows an unpaired backslash |
| NewlineRepair.RepairPieces | src/service/native-plugin-list.ts:83-88 | the input splits into pieces: in a string each CR LF, other CR and other LF becomes exactly one escape, and every other character stays |
| NewlineRepair.RepairTouchesBreaksOnly | src/service/native-plugin-list.ts:83-88 | seen by the scanner, the characters outside strings are the same in input and output |
| NewlineRepair.EscapedBreakDiverges | src/service/native-plugin-list.ts:83-95 | an input for which they do not |
| KnownPlayers.Merge | src/service/observed-player-service.ts:41-65 | the two loops compute the merge the laws below are about |
| KnownPlayers.BatchesCompose | src/service/observed-player-service.ts:41-65 | merging two batches is merging their concatenation |
| KnownPlayers.RepetitionChangesNothing | src/service/observed-player-service.ts:41-65 | merging a batch twice is merging it once |
| KnownPlayers.RunsAreOneMerge | src/service/observed-player-service.ts:41-65 | any number of merges is one merge of everything observed |
| KnownPlayers.MergeOverRuns | src/service/observed-player-service.ts:41-65 | over any run no uid disappears or repeats, `firstseen` stays, `lastseen` and `playtime` are the largest seen |
| KnownPlayers.LatestOfIsLargest | src/service/observed-player-service.ts:58-61 | the folded value is at least every value seen and is one of them, or the floor 0 |
| KnownPlayersHistory.NewestStatementWins | src/service/observed-player-service.ts:51-57 | over any run of merges a player is listed if and only if they were before or were observed; the name and every field the merge does not know have the value observed last, or the one before |
| KnownPlayersHistory.ListInOrder | src/service/observed-player-service.ts:47-64 | known players keep their places and new ones follow in the order of their first observation |
| ServerStatistics.UpdatesAgree | src/db/server-statistics-store.ts:62-110 | finalizing the Mongo update is the in-memory update of the finalized bucket |
| ServerStatistics.ImplementationsAgree | src/db/server-statistics-store.ts:62-119 | after every sequence of samples the two stores agree |
| ServerStatistics.BucketsAggregate | src/db/server-statistics-store.ts:98-110 | a bucket exists for exactly the sampled hours and is the declarative aggregate of its samples |
| ServerStatistics.DocumentsAggregate | src/db/server-statistics-store.ts:70-91 | the same for the Mongo document |
| ServerStatistics.AddToSetIsDistinct | src/db/server-statistics-store.ts:86-88 | adding to a set is listing both and removing repetitions |
| ServerStatistics.DerivedFieldsAreInRange | src/db/server-statistics-store.ts:34-47 | the average is at most the maximum and the availability lies in 0 to 100 |
| ServerStatistics.DerivedFieldsAreShares | src/db/server-statistics-store.ts:34-47 | the average is the players per sample and the availability the share of online samples in percent |
| ServerStatistics.UpdatedByLastSample | src/db/server-statistics-store.ts:66-109 | a bucket carries the time of the last sample of its hour |
| ServerStatistics.UidsInOrder | src/db/server-statistics-store.ts:86-108 | a bucket lists the reported uids once each in the order of their first report, and the document has a list only once a uid was reported |
| ServerStatistics.HourOfSample | src/db/server-statistics-store.ts:8-12 | a sample belongs to the full hour it lies in |
| ServerStatistics.WholePlayers | src/db/server-statistics-store.ts:18-22 | players count in whole numbers, and a count that is no number, infinite or negative is none |
| ServerStatistics.EverySampleIsCountedOnce | src/db/server-statistics-store.ts:62-119 | the sample counts of all buckets add up to the number of samples |
| ServerStatistics.OrderDoesNotMatter | src/db/server-statistics-store.ts:62-119 | rearranged samples give the same buckets up to `updatedAt` and uid order |
| StatisticsStore.JsonBuckets.RecordSample | src/db/server-statistics-store.ts:98-118 | the list updated in place holds what the map of the model holds |
| StatisticsStore.ListingIsExact | src/db/server-statistics-store.ts:147-154 | a listing is exactly the buckets in range, ascending by hour |
| StatisticsStore.RangesAdjoin | src/db/server-statistics-store.ts:147-154 | two adjoining ranges list their union, nothing lost or repeated at the seam |
| MasterList.RefreshReconciles | src/service/master-server-list-service.ts:202-276 | after a successful fetch each listed endpoint has one record with the derived id, `lastSeen` now and everything kept that must be (credential, owner, explicit query URL); each other keeps its record unless stale |
| MasterList.RecordFollowsItsRows | src/service/master-server-list-service.ts:223-256 | the record at an endpoint is exactly what the rows for that endpoint make of it, whatever the other rows are |
| MasterList.FoldedRecord | src/service/master-server-list-service.ts:178-198 | those rows settle the record and keep what they must |
| MasterList.EntryContents | src/db/manager-store.ts:166-174 | one row is stored if and only if no other endpoint's record holds its id, and keeps ids and endpoints unique |
| MasterList.GoesThroughExactlyWhenClear | src/service/master-server-list-service.ts:223-256 | the whole list goes through if and only if no row meets such a record, up to records moved by earlier rows |
| MasterList.RefreshesStayAligned | src/service/master-server-list-service.ts:202-276 | once derived ids stand only at their endpoints, that stays so over every run and no list is refused |
| MasterList.PruneExactly | src/db/manager-store.ts:295-324 | exactly the public unowned endpoint records last seen before the cutoff go, and exactly the pins to them |
| MasterListPruning.RefreshRemovesExactly | src/db/manager-store.ts:295-324 | an unlisted record is gone after a successful refresh if and only if it is public, has no owner, has an endpoint and was last seen, or else created, more than 2592000000 ms ago |
| MasterListPruning.RefreshRemovesPinsExactly | src/db/manager-store.ts:318-322 | its pins go exactly then, and stay otherwise |
| MasterListPruning.OwnedIsNeverRemoved | src/db/manager-store.ts:297 | over every run of refreshes, complete or refused, a record that is owned, private or without endpoint stays, with its owner, visibility, endpoint and credential |
| MasterListPruning.ListedIsKept | src/service/master-server-list-service.ts:223-260 | a listed record stays whatever its age |
| MasterListPruning.UsersStay | src/db/manager-store.ts:318-334 | no refresh, complete or refused, adds, drops, renames or reorders a user |
| MasterListPruning.UntouchedPinsStay | src/db/manager-store.ts:318-334 | a user whose pins name only unlisted servers that stay is not changed at all |
| MasterListRows.RowIsCataloged | src/service/master-server-list-service.ts:178-254 | every row with an address and a port of at least 2 has its record after a successful refresh: the one that was there, or a new public one without owner and credential, asked one port below its own |
| MasterListRows.UnreachableRowIsSkipped | src/service/master-server-list-service.ts:223-229 | any other row is as good as not listed |
| MasterListRows.FieldFollowsLastRow | src/service/master-server-list-service.ts:183-194 | a listed field has the value of the last row for the endpoint that says one, or the value before |
| MasterListRows.CoercedExactly | src/service/master-server-list-service.ts:34-52 | which values of which fields count, and what they are stored as |
| MasterList.PinsFollow | src/db/manager-store.ts:326-334 | a server is pinned after the list exactly if it was before, under whatever id, or its new id was pinned and named no server |
| MasterList.RefreshKeepsPins | src/service/master-server-list-service.ts:243-260 | the same through the whole refresh, with no pin left to a pruned record |
| MasterList.RowsKeepPinsDistinct | src/db/manager-store.ts:326-334 | no refresh, complete or refused, repeats a pin |
| MasterList.RecordsStayInPlace | src/service/master-server-list-service.ts:223-256 | unlisted records are untouched and only listed ones are added |
| MasterList.RefreshSparesOtherServers | src/db/manager-store.ts:296-300 | servers without an endpoint are neither changed nor removed |
| MasterList.RefusedRowMisdirectsPins | src/service/master-server-list-service.ts:244-254 | a refused row leaves the servers alone but has moved the pins to the id of the server in the way |
| MasterList.MisdirectionHappens | src/service/master-server-list-service.ts:244-254 | such a catalog and row |
| MasterListRepeat.RefreshIsIdempotent | src/service/master-server-list-service.ts:202-276 | the same list applied once more at the same time changes neither a record nor a pin |
| MasterListRepeat.RowsActAsOne | src/service/master-server-list-service.ts:178-198 | several rows for one endpoint act like a single row in which the later value of a field wins |
| MasterListRepeat.CoercionProjects | src/service/master-server-list-service.ts:34-52 | coercion takes every clean value as it is and makes whatever else it takes clean |
| MasterListRepeat.FoldedStaysClean | src/service/master-server-list-service.ts:178-198 | the listed fields of a record stay clean through any list, whatever its rows contain |
| MasterListService.CatalogStore.RefreshMasterServerList | src/service/master-server-list-service.ts:202-276 | the loop performs the refresh, reports each usable row as inserted or updated, and a failed fetch changes nothing |
| MasterListService.CatalogStore.ApplyRow | src/service/master-server-list-service.ts:231-254 | find or create, repin, apply, save |
| MasterListService.CatalogStore.ReplacePinnedServerId | src/db/manager-store.ts:326-334 | the loop rewrites every user's pins |
| WorkerPool.PoolOverRuns | src/service/server-live-status-service.ts:312-328 | over every schedule indices are claimed in order and once, each claimed one is finished or in flight at one worker, and the counter is the number of finished refreshes that returned true |
| WorkerPool.StoppedMeansComplete | src/service/server-live-status-service.ts:317-327 | when all workers have stopped every server was refreshed exactly once and all true results are counted |
| WorkerPool.StepMakesProgress | src/service/server-live-status-service.ts:320-323 | every step of a worker that has not stopped leaves less work, so the pool terminates |
| WorkerPool.StoppedExactly | src/service/server-live-status-service.ts:312-328 | there are as many workers as servers, up to the limit, and the pool has stopped if and only if running workers got one step for each server and one more for each worker |
| WorkerPool.RefreshDuePlayerLists | src/service/server-live-status-service.ts:312-328 | under an arbitrary scheduler the pool ends, with every server refreshed once and all true results counted |

## Left out

- The network, the `ws` and Mongo drivers, file access and timers are events and atomic steps; the clock does not go back where a claim needs it.
- AES-GCM opens only under the encrypting key, the random part makes every encrypted record a new one, HMAC is a function, and the hash behind a derived server id is injective.
- JSON text is not printed or parsed: comparisons of printed values are equality, and a token's two JSON objects go through an abstract codec that reads back what it printed.
- Numbers: sums and ratios are exact reals, ports are integers, and floating-point rounding is not modelled.
- Node's base64 decoder is modelled on the texts the printer produces; its leniency towards other characters is not.
- Handlers, routers, mappers, heartbeat, environment parsing, service shutdown, passwords, API tokens, persona lookup and release inventory are small or plumbing.
- Parsing and limits of subscribe messages, and the payload validation of map layers and plugin data, are settled by reading one branch.
- `globalMarketplaceOffers`, the order inside lists and the building of a snapshot from a cache entry are not part of the live map's changes.
- A map client starts from its subscriber's first snapshot, which it obtains by other means than the socket.
- How a stored status relates to a published one is open: the live map publishes player lists that it does not store, so a read may return something else than the last publish.
- Index entries for array values (one per element) are not modelled; a record occupies one entry per unique index.
- A failed write of the in-memory database, with its roll-back, cannot happen there (`src/db/non-storage-store.ts` never fails) and is not modelled.
- The query-data part of the master list refresh, and writers that run between its rows, are not modelled; the single-flight guard around it is not either.
- Fields of a list row are coerced as in the source except that a numeric Steam id is ignored; a fetched list has those quoted.
- Migration records whose id is not a string are treated like blank ids, which both refuse the migration.
- The refresh of one server inside the worker pool never fails; a throwing one would end its worker.
- The statistics listing over all servers sorts and filters like the listing of one server, with the server id as second key.
- `nativePluginAccessState` and the reset message sent to a connected game connector are not modelled.
