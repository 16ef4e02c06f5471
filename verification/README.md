# A verified model of the realtime fire server

The server carries its own Engine.IO and Socket.IO stacks and a fire engine over Redis; browsers draw what it sends.
This project models the parts of it whose correctness is not visible from any one routine, and proves what they
promise for every input, every interleaving and every run:

* **Engine.IO session** (`EnginePacket`, `EngineSession`, `SessionRuns`): the send buffer that producers, long polls,
  a WebSocket write loop and the polling-to-WebSocket upgrade share, connected by capacity-one wake-up channels.
  `EngineSession` holds the locked sections as methods; `SessionRuns` interleaves them and the channel operations
  freely.
* **Fire engine** (`GoText`, `Grid`, `FireModel`, `FireRoutines`, `FireWalk`, `FireCycle`, `FireCapacity`): random
  cascade registration, the expiry sweep and the stage scan over sorted sets, the `active_grids` index, the counters and
  the stage map. `FireCycle` runs whole registrations and whole per-grid sweeps and scans against a clock;
  `FireCapacity` interleaves single Redis commands, the sweep's DEL and SREM and the scan's SREM among them.
* **Socket.IO codec** (`SocketPacket`, `BinaryTree`, `BinaryHeap`, `WireJson`, `BinaryWire`): the header parser and
  printer, extraction and reinsertion of binary values, and the whole way of a binary packet from sender to receiver.
  `BinaryHeap` has the routines as they are, rewriting maps and slices in place, where one map may occur in several
  places; `BinaryTree` has the trees they compute; `WireJson` says which trees JSON carries unchanged (RFC 8259,
  section 6, for numbers; RFC 3629, section 4, for text).
* **Who is where** (`Rooms`, `Presence`, `PresenceHandlers`): the namespace's sockets, its rooms and the connection
  manager, and what connecting, chat, viewport changes, disconnecting and reaping do to all three.
* **Drawing and coalescing** (`FlameSort`, `Coalesce`): the counting sort that batches particles by opacity, and
  fire updates coalesced on the server and replayed on the client.

Code that changes state is a class or a method with the source's own loops, proved equal to a function of the old
state; the theorems are about those functions and about runs of them, and for each operation one of them spells out
what it leaves without naming its function. A random draw, the order in which a Go map is
visited, the interleaving of goroutines, the clock and the failure of any Redis command are parameters, so a statement
about all of them covers every execution. A Go string or `[]byte` is a sequence of characters standing for bytes.

## What the proofs found

Each of these is stated as an if-and-only-if, or shown by a concrete run.

* `BindWebSocket` signals nothing: a packet queued before it waits for the next send (`BindNeedsEmptyBuffer`,
  `BoundTooLate`). A client reaches this with a POST on its session after the OPEN packet was written
  (`server/pkg/engineio/websocket.go:121`), whose answer is queued before the bind
  (`server/pkg/engineio/websocket.go:136`); the callback run in between
  (`server/internal/server/server.go:141-168`) sends nothing itself.
* However many polls wait and whatever tokens are on the way, `StartUpgrade` can release all of them without further
  signals exactly when at most one is left waiting (`UpgradeReleasesOnePoll`).
* The spread threshold of 500 is overshot by one less than the number of registrations in flight, and this is reached
  (`CapacityBound`, `BoundIsReached`).
* The sweep and the scan act on counts that may be out of date. A fire registered between ZCARD and DEL is deleted
  while active (`ActiveFireDeleted`); one registered between the sweep's DEL and SREM, or between the scan's ZCOUNT and
  SREM, stays outside the index (`ActiveFireUnlisted`, `ActiveFireUnindexed`). Each check goes out of date exactly by
  an add to that grid, or by a DEL that failed (`DelBecomesUnsafe`, `DropBecomesUnsafe`, `UnlistBecomesUnsafe`), no
  other command ever removes an unexpired fire (`SurvivesExactly`), and store and index agree throughout a run exactly
  when each of its commands is harmless (`ListedThroughoutExactly`). The comment in
  `server/internal/engine/cleanup.go:161` says "score < current time"; the range is inclusive, and the code is followed.
* A failing SADD breaks the index exactly when the grid was not indexed and the fire is live (`LostIndexWrite`).
* The sweep resets a stage without telling anyone, so clients keep showing it (`SweepIsSilent`).
* Extraction and reinsertion are inverse only across JSON: a placeholder number is recognised as a float64, never as
  the int that extraction writes. Directly, they undo each other exactly on trees without binaries
  (`RoundTripExactly`, `DirectInverseExactly`).
* Sending rewrites the caller's own maps, also when marshalling then fails, so a second packet from the same arguments
  carries the placeholders of the first and none of the binaries inside maps and slices (`SentTwice`).
* The preallocation for a viewport panics in Go when its 64-bit size is negative or above the allocator's limit. Which
  boxes these are, upright or inverted, is exact (`PanicsExactly`, `ViewportExact`, `InvertedViewport`). No upright box
  on the globe is among them (`GlobeIsSafe`), but `server/internal/sio/subscribe_viewport.go:63-70` and
  `server/internal/handler/grid.go:89-110` take any numbers (`FarBoxPanics`).
* Disconnecting forgets the user's last session, so a reconnect restores rooms only while the old session is still
  connected (`ReconnectAfterDisconnect`).
* A viewport change by a session that is not connected, and a second CONNECT on a live one, can break the agreement of
  the three records (`ViewportAgreesExactly`, `ConnectAgreesExactly`); a viewport change or a reconnect can leave the
  last `chat:presence` count wrong (`ViewportAndPresence`, `ConnectAndPresence`). The comment at
  `server/internal/sio/subscribe_viewport.go:104` says the chat room is kept; the code leaves it, and is followed.
* Removing a stale connection after a failed disconnect callback takes it from the connection manager only: the
  agreement survives a reap pass exactly when no callback fails, as the installed one never does (`ReapAgreesExactly`).
* Coalescing loses no final state but can swallow an explosion (`FlushCatchesUp`, `ExplosionsKeptExactly`).

## Model

| member | source | states |
|---|---|---|
| EnginePacket.EncodePayload | server/pkg/engineio/packet.go:76-89 | the loop computes the packets' encodings joined by the record separator |
| EnginePacket.DecodePayload | server/pkg/engineio/packet.go:92-107 | the loop computes the decoded parts, or fails when one part does not decode |
| EnginePacket.PacketForm | server/pkg/engineio/packet.go:49-72 | a text is a packet exactly when it is one type byte from '0' to '6' followed by the data, and such a packet is written that way |
| EnginePacket.PayloadForm | server/pkg/engineio/packet.go:76-89 | two lists together are the first payload, one byte 0x1E, and the second; a single packet stands alone and no packet is no text |
| EnginePacket.JoinSplit | server/pkg/engineio/packet.go:84-96 | joining what splitting gave is the identity on every string |
| EnginePacket.SplitJoin | server/pkg/engineio/packet.go:84-96 | splitting what joining gave is the identity on lists of separator-free parts |
| EnginePacket.EncodeAfterDecode | server/pkg/engineio/packet.go:49-107 | re-encoding a decoded payload gives the payload back, for every string that decodes |
| EnginePacket.DecodeAfterEncode | server/pkg/engineio/packet.go:49-107 | a list of packets comes back from its payload exactly when every type is '0'..'6' and no data holds the separator |
| EngineSession.Session.Send | server/pkg/engineio/session.go:76-87 | queues a message and leaves the right wake-up token, unless closed |
| EngineSession.Session.SendPacket | server/pkg/engineio/session.go:90-98 | the same for any packet; a closed session takes nothing |
| EngineSession.Session.SignalSend | server/pkg/engineio/session.go:102-116 | fills the channel of the transport in use and only that one |
| EngineSession.Session.BindWebSocket | server/pkg/engineio/session.go:120-126 | binds a connection with a fresh, empty channel |
| EngineSession.Session.StartUpgrade | server/pkg/engineio/session.go:131-143 | marks the upgrade and leaves one poll token, once |
| EngineSession.Session.SwitchTransport | server/pkg/engineio/session.go:155-176 | binds, ends the upgrade, and signals the writer exactly when packets wait |
| EngineSession.Session.SignalPolls | server/pkg/engineio/session.go:178-182 | leaves one more poll token after the switch |
| EngineSession.Session.CancelUpgrade | server/pkg/engineio/session.go:186-190 | only the upgrade flag is taken back |
| EngineSession.Session.DrainNow | server/pkg/engineio/session.go:198-216 | outside an upgrade a poll returns exactly the buffer, during one the buffer followed by one NOOP; it waits exactly when there is neither buffer nor upgrade; the buffer is then empty |
| EngineSession.Session.DrainWoken | server/pkg/engineio/session.go:223-236 | a woken poll returns exactly the buffer, during an upgrade followed by one NOOP, and leaves it empty |
| EngineSession.Session.WriterTake | server/pkg/engineio/websocket.go:249-252 | the write loop takes the whole buffer |
| EngineSession.Session.Close | server/pkg/engineio/session.go:265-275 | closes once; only the first call notifies |
| SessionRuns.ExactlyOnceInOrder | server/pkg/engineio/session.go:76-242 | in every interleaving the batches taken under the lock, in lock order, followed by the buffer are the accepted packets |
| SessionRuns.AnswersInEveryRun | server/pkg/engineio/session.go:198-242 | in every interleaving the answers of the polls, without the NOOP that an upgrade adds at their end, are together exactly the packets the polls took, in lock order |
| SessionRuns.EveryPollReturnsOnce | server/pkg/engineio/session.go:198-242 | every Drain call of a run has returned once or is still waiting |
| SessionRuns.AcceptsWhileOpen | server/pkg/engineio/session.go:76-98 | the accepted packets are those offered before the close, in order |
| SessionRuns.WebSocketInOrder | server/pkg/engineio/websocket.go:230-262 | what reached the WebSocket is a prefix, in order, of what the write loop took; only an unwritten tail is missing, and more only after an error or close |
| SessionRuns.ControlsInEveryRun | server/pkg/engineio/websocket.go:236-246 | besides payloads only pings reach the WebSocket, and one close packet as its last frame |
| SessionRuns.ControlsExactly | server/pkg/engineio/websocket.go:236-246 | besides payloads exactly the pings due while the write loop waits and one close packet once it sees the close are written |
| SessionRuns.EveryoneLeaves | server/pkg/engineio/session.go:237-241 | after the close every waiting poll and the write loop can leave by steps of their own, and a waiting write loop announces the close |
| SessionRuns.ClosesForGood | server/pkg/engineio/session.go:265-275 | a close, by a caller or after a write error, is never taken back |
| SessionRuns.SwitchReleasesAPoll | server/pkg/engineio/session.go:178-182 | the signal after the switch lets a waiting poll return with the buffer |
| SessionRuns.TokenIsSpent | server/pkg/engineio/websocket.go:247-252 | one token rouses the write loop once |
| SessionRuns.NoLostWakeUp | server/pkg/engineio/session.go:102-242 | an open session with a non-empty buffer always has a token or a woken consumer on the way, if binds find an empty buffer |
| SessionRuns.FromTheStart | server/pkg/engineio/session.go:76-242 | all of these in every run from the session's creation |
| SessionRuns.BindNeedsEmptyBuffer | server/pkg/engineio/session.go:120-126 | a fresh bind keeps the wake-up promise if and only if the buffer is empty |
| SessionRuns.BoundTooLate | server/pkg/engineio/websocket.go:131-137 | a packet sent before the bind is stranded: no step of the write loop can take it |
| SessionRuns.WaitingConsumerGetsTheBuffer | server/pkg/engineio/session.go:222-236 | whenever a promise is due, at most two steps of a waiting consumer hand over the whole buffer in one batch |
| SessionRuns.PollStepsSpendTokens | server/pkg/engineio/session.go:222-229 | polls leave the system exactly as fast as tokens are spent |
| SessionRuns.UpgradeReleasesOnePoll | server/pkg/engineio/session.go:131-143 | in every state of the session, starting an upgrade can release all polls still waiting without further signals if and only if at most one waits |
| GoText.AtoiItoa | server/internal/grid/grid.go:26-42 | decimal printing and strconv.Atoi are inverse on exactly the 64-bit integers |
| GoText.AtoiReads | server/internal/grid/grid.go:34-42 | Atoi reads decimal notation, with or without a sign, and fails beyond 64 bits |
| GoText.AtoiRefuses | server/internal/grid/grid.go:34-42 | it reads nothing but decimal digits after at most one sign |
| GoText.ItoaCanonical | server/internal/grid/grid.go:26 | what is printed has no leading zero and no plus sign |
| GoText.ItoaInjective | server/internal/grid/grid.go:26 | different integers print differently |
| Grid.IDNamesCell | server/internal/grid/grid.go:23-27 | an id is the latitude number, a colon and the longitude number of the half-open cell of 0.0009 by 0.0011 degrees around the point |
| Grid.ParseFormat | server/internal/grid/grid.go:26-42 | an id parses back to its pair if and only if both numbers fit in 64 bits, negatives included |
| Grid.ParsesExactly | server/internal/grid/grid.go:30-42 | an id parses exactly when it is two integers around its first colon |
| Grid.CenterIsHalfway | server/internal/grid/grid.go:43-46 | the point returned is halfway between the edges of its cell on both axes |
| Grid.CenterMapsBack | server/internal/grid/grid.go:23-46 | the centre of a cell maps back to the cell's canonical id, which is the id given when that was printed |
| Grid.GetNeighbors8 | server/internal/grid/grid.go:65-89 | the nested loops list the ids of the eight neighbours in order, with 64-bit wrap-around |
| Grid.NeighborsExact | server/internal/grid/grid.go:79-88 | they are eight different cells, not the cell itself, and every cell one step away is among them |
| Grid.NeighborsInOrder | server/internal/grid/grid.go:79-88 | the eight ids in the order a draw refers to, written out |
| Grid.ListCells | server/internal/grid/grid.go:55-61 | the nested loops list the block row by row |
| Grid.BlockInOrder | server/internal/grid/grid.go:56-60 | the block is listed from south to north and each row from west to east |
| Grid.GetGridsInViewport | server/internal/grid/grid.go:49-62 | lists the block of the box, or panics exactly when the capacity computed in 64 bits is negative or above the allocator's maximum |
| Grid.ViewportExact | server/internal/grid/grid.go:49-62 | an upright box lists every cell that meets the closed box exactly once and nothing else; it panics exactly when the number of those cells modulo 2^64 exceeds the maximum capacity |
| Grid.PointsAreListed | server/internal/grid/grid.go:23-62 | the id of every point of the box is listed |
| Grid.InvertedViewport | server/internal/grid/grid.go:55 | while rows times columns fits in 64 bits, a box panics exactly when one axis alone is inverted by more than a cell or both axes point the same way and ask for too much; inverted boxes that do not panic list nothing |
| Grid.PanicsExactly | server/internal/grid/grid.go:50-55 | for every box, upright or inverted: no panic if and only if rows times columns lies at most the maximum capacity above a multiple of 2^64, although every factor and the product wrap |
| Grid.GlobeIsSafe | server/internal/grid/grid.go:49-55 | no upright box of latitudes up to 90 and longitudes up to 180 degrees panics |
| Grid.FarBoxPanics | server/internal/grid/grid.go:55 | an upright box beyond the globe that panics, and its double inversion, which panics too |
| FireModel.StageMeaning | server/internal/model/fire.go:68-88 | the table lookup gives the stage whose interval contains the count |
| FireRoutines.Redis.ZRemRangeByScore | server/internal/redis/fire.go:92-96 | removes and counts the members with score at most max, end included |
| FireRoutines.Cascade | server/internal/sio/fire_ignite.go:268-289 | the loop walks exactly as the walk function does for every store, every draw and every failing count |
| FireRoutines.Land | server/internal/sio/fire_ignite.go:291-333 | the commands after the walk leave what the model says after each possible failure |
| FireRoutines.RegisterFireEvent | server/internal/sio/fire_ignite.go:259-334 | one registration, for every draw and failure; the copy in the demo handler issues the same commands |
| FireRoutines.ProgressionEngine.BroadcastFirefighterSpawn | server/internal/engine/fire_progression.go:315-345 | for a count of stage 4 or more sends one spawn with its stage and removal count, to the room and then to the namespace; below that nothing |
| FireRoutines.ProgressionEngine.ScanAndUpdateStages | server/internal/engine/fire_progression.go:186-231 | a scan over any list of grids, with any commands failing, equals the fold of the one-grid scan, and the messages sent to rooms and namespace are, in order, exactly those of its history |
| FireRoutines.RunCleanup | server/internal/engine/cleanup.go:165-217 | a sweep over any list of grids, with any commands failing, equals the fold of the one-grid sweep and sends no message |
| FireWalk.CascadeIsChain | server/internal/sio/fire_ignite.go:271-289 | for every store and every draw the path is a chain of neighbour hops, each from a grid with at least 500 active fires, and the walk stops for one of its three reasons |
| FireWalk.HopsFollowDraws | server/internal/sio/fire_ignite.go:282-288 | each hop goes to the neighbour its draw names |
| FireWalk.LandsWithinReach | server/internal/sio/fire_ignite.go:282-288 | the landing cell lies within Chebyshev distance of the path's length |
| FireWalk.RegistrationStores | server/internal/sio/fire_ignite.go:293-333 | a successful registration stores its fire on the landing grid, indexes it, moves no other fire, counts it once for its day and member, and reports that grid's active fires |
| FireWalk.RegistrationFails | server/internal/sio/fire_ignite.go:271-333 | a registration that fails leaves exactly what the commands before the first failing one did |
| FireWalk.RegistrationSucceeds | server/internal/sio/fire_ignite.go:271-333 | it succeeds if and only if no command it issues fails, the ranking aside |
| FireWalk.RegistrationLands | server/internal/handler/demo_fire.go:208-276 | it lands after a chain of at most eight hops, with room there unless all eight were used |
| FireCycle.EveryRun | server/internal/engine/fire_progression.go:195-228 | in every run the index covers every unexpired fire, the stage map holds stages 1 to 5 on indexed grids only, and the broadcast history is faithful |
| FireCycle.HistoryInEveryRun | server/internal/engine/fire_progression.go:204-219 | even with failing commands every broadcast is a change, from the stage the earlier history leaves, to the stage of its count |
| FireCycle.SpawnsInEveryRun | server/internal/engine/fire_progression.go:213-219 | a firefighter is sent right after every change to stage 4 or 5, to that grid, and at no other time |
| FireCycle.FromTheStart | server/internal/engine/cleanup.go:176-210 | all of these in every run from the empty store |
| FireCycle.LostIndexWrite | server/internal/sio/fire_ignite.go:293-301 | losing the SADD keeps the index agreement if and only if the grid was indexed or the fire is past the latest scan |
| FireCycle.IndexSumIsTotal | server/internal/engine/fire_progression.go:234-246 | adding the counts of the indexed grids counts every unexpired fire exactly once |
| FireCycle.ConservationInEveryRun | server/internal/sio/fire_ignite.go:293-321 | in every run without failing commands total fires = fires stored + fires swept = sum of daily counters = sum of ranking scores; with failures each falls short in this order |
| FireCycle.SweepIsSilent | server/internal/engine/cleanup.go:196-208 | a sweep keeps what clients last heard in line with the stage map if and only if a fire is left or the stage was none |
| FireCycle.SweptExactly | server/internal/engine/cleanup.go:176-210 | the sweep of one grid under any failures, member by member: scores up to now go, the end included, and the grid is dropped when the others are none |
| FireCycle.ScannedExactly | server/internal/engine/fire_progression.go:195-228 | the scan of one grid under any failures: stage, broadcasts, firefighter and index from the number of members with score at least now |
| FireCycle.EmissionsExactly | server/internal/engine/fire_progression.go:257-345 | the messages of each entry to the room and to everybody, with the removal counts 2 and 3 |
| FireCycle.PassesReadTheClock | server/internal/engine/cleanup.go:165-176 | a scan reads the clock in milliseconds, a sweep in whole seconds, each once per pass |
| FireCycle.HeardIsLastTold | server/internal/engine/fire_progression.go:257-311 | what clients last heard of a grid is the stage of its last broadcast |
| FireCycle.SweepPass | server/internal/engine/cleanup.go:176-210 | a whole sweep, in any order of grids, removes and counts exactly the expired fires of those grids and unindexes exactly the emptied ones |
| FireCycle.ScanPass | server/internal/engine/fire_progression.go:195-228 | a whole scan, in any order of grids, moves no fire, unindexes exactly the grids without an active fire, and tracks each grid's own stage |
| FireCapacity.BoundInEveryRun | server/internal/sio/fire_ignite.go:267-296 | at command granularity, fires that found room plus registrations past their check stay within 499 + limit on every grid |
| FireCapacity.CapacityBound | server/internal/sio/fire_ignite.go:267-296 | no grid ever holds more than 499 + limit active fires, plus those recorded as landed there after all eight hops |
| FireCapacity.ExplainedInEveryRun | server/internal/sio/fire_ignite.go:271-289 | in every interleaving a registration is recorded as out of hops, and so is its fire, only after exactly eight counts, each of at least 500 fires on a grid it then left for the neighbour drawn; and as having room only when its last count saw fewer than 500 where it landed |
| FireCapacity.CapacityBoundSeen | server/internal/sio/fire_ignite.go:267-296 | the same bound with the exceptions read off the counts that were issued |
| FireCapacity.UninterruptedRegistration | server/internal/sio/fire_ignite.go:267-301 | commands of one registration that nothing interrupts end where the walk does, out of hops exactly when the walk has eight, and leave the fires and the index of the whole registration |
| FireCapacity.UninterruptedSweep | server/internal/engine/cleanup.go:176-210 | the sweep's commands for one grid, uninterrupted, do what its sweep as one step does, whichever of DEL and SREM fails |
| FireCapacity.UninterruptedScan | server/internal/engine/fire_progression.go:195-228 | the scan's two commands, uninterrupted, do what the scan as one step does to the store |
| FireCapacity.BoundIsReached | server/internal/sio/fire_ignite.go:272-296 | for every grid and limit some interleaving reaches the bound |
| FireCapacity.DelBecomesUnsafe | server/internal/engine/cleanup.go:190-198 | between ZCARD and DEL a command makes the DEL unsafe if and only if it adds a fire to that grid |
| FireCapacity.SurvivesExactly | server/internal/engine/cleanup.go:180-200 | an unexpired stored fire survives a command if and only if that is not the sweep's DEL of its grid |
| FireCapacity.DropBecomesUnsafe | server/internal/engine/fire_progression.go:196-226 | between the scan's ZCOUNT and SREM a command makes the SREM unsafe if and only if it adds an active fire to that grid |
| FireCapacity.UnlistBecomesUnsafe | server/internal/engine/cleanup.go:198-204 | around the sweep's SREM likewise, or if the DEL before it failed on a grid that has an active fire by then |
| FireCapacity.UnlistingKeepsCoveredExactly | server/internal/engine/cleanup.go:202-204 | when every active fire is indexed, either SREM keeps that so if and only if it is safe |
| FireCapacity.ListedKeptExactly | server/internal/sio/fire_ignite.go:293-301 | "every active fire is indexed or its registration is about to index it" survives a command if and only if the command is no SREM that meets an indexed active fire and no failure between ZADD and SADD that leaves one unindexed |
| FireCapacity.ListedThroughoutExactly | server/internal/sio/fire_ignite.go:293-301 | over every run of single commands this holds from the first state to the last if and only if each command of the run is harmless when it comes |
| FireCapacity.ListedInEveryCarefulRun | server/internal/sio/fire_ignite.go:293-301 | it holds after every run whose SREMs are safe and in which no registration fails between ZADD and SADD |
| FireCapacity.ActiveFireDeleted | server/internal/engine/cleanup.go:190-198 | a run of single commands in which an active fire is deleted by the sweep |
| FireCapacity.ActiveFireUnindexed | server/internal/engine/fire_progression.go:196-227 | a run of single commands after which the scan's SREM leaves an active fire outside the index |
| FireCapacity.ActiveFireUnlisted | server/internal/engine/cleanup.go:198-204 | a run in which the DEL is safe and the SREM after it still leaves an active fire outside the index |
| SocketPacket.Decode | server/pkg/socketio/packet.go:89-163 | the routine with its moving position computes the parser function, every error included |
| SocketPacket.DecodeCount | server/pkg/socketio/packet.go:108-124 | the attachment count of a binary packet |
| SocketPacket.DecodeNamespace | server/pkg/socketio/packet.go:126-136 | the namespace up to a comma or the end |
| SocketPacket.DecodeBody | server/pkg/socketio/packet.go:138-163 | the digit loop, the id and the data |
| SocketPacket.Encode | server/pkg/socketio/packet.go:167-196 | the builder computes the printer function |
| SocketPacket.ParseReads | server/pkg/socketio/packet.go:89-163 | every text of the grammar, namespaces with and without a comma included, parses to its own parts, or fails because the data is too deep or no JSON |
| SocketPacket.RefusesTheRest | server/pkg/socketio/packet.go:89-163 | every other text is refused: empty exactly, wrong type exactly, more than 100 attachments exactly, and malformed exactly otherwise |
| SocketPacket.PrintForm | server/pkg/socketio/packet.go:167-196 | what is printed is a text of the grammar with each part in canonical form |
| SocketPacket.ParsedIsCarriable | server/pkg/socketio/packet.go:89-163 | whatever is accepted has a legal type, count, namespace, id and data |
| SocketPacket.RoundTripExactly | server/pkg/socketio/packet.go:89-196 | a packet comes back from its text with header and data if and only if it is carriable |
| SocketPacket.ParsePrintParse | server/pkg/socketio/packet.go:89-196 | printing and parsing again changes no accepted packet |
| BinaryHeap.DeconstructNode | server/pkg/socketio/packet.go:464-486 | in place, for values in which maps and slices may occur several times: byte slices become new placeholder maps for a buffer with the same bytes, each new buffer has its placeholder in the value, no byte slice is left there, and nothing else changes; a value that shares nothing becomes the extracted tree, its binaries appended in visiting order |
| BinaryHeap.DeconstructSlots | server/pkg/socketio/packet.go:473-482 | the same for the loop over the entries of a map, in any visiting order, or of a slice |
| BinaryHeap.DeconstructAll | server/pkg/socketio/packet.go:544-549 | the same for a packet's list of values, which may share maps and slices |
| BinaryHeap.ExtractedReads | server/pkg/socketio/packet.go:464-486 | whatever is shared, the rewritten value reads as an extraction of the tree it read as before |
| BinaryHeap.IsPlaceholder | server/pkg/socketio/packet.go:364-383 | the attachment number of a map object exactly when its contents are a placeholder with a float64 number |
| BinaryHeap.ReconstructNode | server/pkg/socketio/packet.go:387-410 | in place: the value's contents become the tree with placeholders replaced by attachments |
| BinaryHeap.ReconstructSlots | server/pkg/socketio/packet.go:397-406 | the loop over the entries of a map or a slice |
| BinaryHeap.HasBinaryValue | server/pkg/socketio/packet.go:617-635 | whether the contents hold a binary anywhere |
| BinaryHeap.AnyBinary | server/pkg/socketio/packet.go:607-614 | the same for a list of values |
| BinaryTree.ExtractionIsComplete | server/pkg/socketio/packet.go:464-486 | no binary is left, there are buffers exactly when hasBinaryValue holds, and a tree without binaries is untouched |
| BinaryTree.NumbersInOrder | server/pkg/socketio/packet.go:466-470 | the placeholders carry n, n+1, ... each once, in visiting order |
| BinaryTree.TakenExtracts | server/pkg/socketio/packet.go:464-486 | the tree computed for a value that shares nothing is one of the extractions that sharing allows |
| BinaryTree.ExtractionLeavesNone | server/pkg/socketio/packet.go:464-486 | every extraction leaves no binary, and changes nothing if and only if there was none |
| BinaryTree.ComesBack | server/pkg/socketio/packet.go:364-486 | JSON and reinsertion undo every extraction, buffers used several times included, if and only if no own map of the tree is taken for one of the placeholders |
| BinaryTree.RoundTripExactly | server/pkg/socketio/packet.go:364-486 | extraction, JSON and reinsertion give the tree back, in every visiting order, if and only if no own map of it is taken for one of the placeholders |
| BinaryTree.OrdinaryTreesComeBack | server/pkg/socketio/packet.go:364-486 | every tree without a map shaped like a placeholder comes back |
| BinaryTree.DirectInverseExactly | server/pkg/socketio/packet.go:369-383 | without JSON in between reinsertion undoes extraction if and only if the tree holds no binary |
| BinaryTree.JsonLosesNothing | server/pkg/socketio/packet.go:322-330 | JSON forgets only whether a number was an int |
| BinaryTree.JsonChangesInts | server/pkg/socketio/packet.go:322-330 | a tree is read back as it was if and only if it holds no int |
| BinaryWire.PendingPacket.AddAttachment | server/pkg/socketio/packet.go:262-268 | appends to binary packets only and reports completion |
| BinaryWire.CollectsInOrder | server/pkg/socketio/packet.go:262-277 | frames are kept in order and the packet is complete exactly from the expected number on |
| BinaryWire.NewBinaryEventPacket | server/pkg/socketio/packet.go:531-568 | for any arguments, shared maps included: what is marshalled is the event name followed by the arguments or by their extractions; a binary event exactly when an argument holds a binary; every field of the packet, or none when marshalling fails; and what is left of the caller's arguments in either case |
| BinaryWire.NewBinaryAckPacket | server/pkg/socketio/packet.go:574-604 | the same for an acknowledgement, without a name |
| BinaryWire.BuildingSucceeds | server/pkg/socketio/packet.go:551-554 | arguments that JSON can represent never fail to be built |
| BinaryWire.SentTwice | server/pkg/socketio/packet.go:464-568 | sending leaves the arguments as they were if and only if no map or slice among them holds a binary, and sending them again makes a binary packet if and only if an argument itself is a byte slice |
| BinaryWire.RestoredSame | server/pkg/socketio/packet.go:387-410 | reinsertion does not depend on the order of map entries |
| WireJson.SameComesBack | server/pkg/socketio/packet.go:364-486 | the exact round trip also when maps are compared key by key, as they are after another visiting order |
| WireJson.ExtractRepresentable | server/pkg/socketio/packet.go:464-486 | extraction keeps a tree within what JSON represents while there are at most 2^53 buffers |
| BinaryWire.SentIsCarriable | server/pkg/socketio/packet.go:89-163 | a built binary packet of representable arguments is accepted if and only if it has at most 100 binaries and depth at most 32 |
| BinaryWire.BinaryArgumentsArrive | server/pkg/socketio/packet.go:260-604 | from arguments that JSON can represent, shared maps included, to text frame, binary frames, collection and reinsertion: accepted if and only if within the two limits; then the packet completes with its last frame and not before, and the data read are the arguments sent if and only if no own map of theirs is taken for one of the placeholders |
| BinaryWire.PlainArgumentsArrive | server/pkg/socketio/packet.go:316-330 | arguments without binaries that JSON can represent are accepted if and only if at most 32 deep, and are then read back |
| BinaryWire.BinaryEventArrives | server/pkg/socketio/packet.go:200-330 | a binary event is dispatched under the name it was sent with, and the data read are the name and the arguments if and only if no own map of theirs is taken for a placeholder |
| BinaryWire.PlainEventArrives | server/pkg/socketio/packet.go:200-330 | the same for an event without binaries, without that condition |
| Rooms.PairsDetermineTables | server/pkg/socketio/room.go:10-23 | two inverse maps without empty sets hold nothing but a set of pairs |
| Rooms.JoinRefines | server/pkg/socketio/room.go:28-43 | joining keeps the maps inverse and inserts one pair |
| Rooms.LeaveRefines | server/pkg/socketio/room.go:137-153 | leaving keeps them inverse and removes one pair |
| Rooms.LeaveAllRefines | server/pkg/socketio/room.go:56-76 | the leave-all loop keeps them inverse and removes all pairs of the session |
| Rooms.LeaveUndoesJoin | server/pkg/socketio/room.go:28-52 | joining then leaving restores both maps if and only if the session was not in the room |
| Rooms.RoomManager.Join | server/pkg/socketio/room.go:28-43 | the method inserts the pair |
| Rooms.RoomManager.Leave | server/pkg/socketio/room.go:47-52 | the method removes the pair |
| Rooms.RoomManager.LeaveAll | server/pkg/socketio/room.go:56-76 | the method removes every pair of the session, whatever order its rooms are visited in |
| Rooms.RoomManager.InRoom | server/pkg/socketio/room.go:115-125 | answers membership of the pair |
| Rooms.RoomManager.MembersOf | server/pkg/socketio/room.go:80-94 | lists exactly the room's sessions, each once |
| Presence.AgreeInEveryRun | server/internal/sio/handler.go:88-128 | in every orderly run sockets, tracked rooms, room members, user sessions and the last users:count stay in agreement |
| Presence.FromTheStart | server/internal/sio/handler.go:88-128 | the same from an empty server |
| Presence.ConnectAgrees | server/internal/sio/handler.go:88-128 | connecting a new session, with rooms restored, keeps the agreement |
| Presence.MoveAgrees | server/internal/sio/subscribe_viewport.go:106-131 | a viewport change of a connected session keeps it |
| Presence.DisconnectAgrees | server/internal/sio/disconnect.go:34-57 | disconnecting any session, known or not, keeps it and touches no other record or membership |
| Presence.MoveIsExact | server/internal/sio/subscribe_viewport.go:106-131 | a viewport change of a connected session takes it out of every room it was in and puts it into exactly the listed ones, in both records, and touches nothing else of it or of anyone |
| Presence.ChatJoinIsExact | server/internal/sio/chat_join.go:47-76 | a connected session is then in the chat room besides its others, in both records, and the size of the room was sent; an unknown one changes nothing |
| Presence.ChatLeaveIsExact | server/internal/sio/chat_leave.go:29-54 | the session is then out of the chat room only, and the size of the room was sent in any case |
| Presence.HeartbeatIsExact | server/internal/sio/connection_manager.go:171-180 | the heartbeat of a known session and nothing else |
| Presence.ConnectIsExact | server/internal/sio/handler.go:88-128 | a session that connects gets the rooms and the next reconnect count of its user's last session, and everyone else keeps socket, record and rooms |
| Presence.DisconnectIsExact | server/internal/sio/disconnect.go:34-71 | a session that disconnects is in no room, has no record and is nobody's last session, and everyone else keeps theirs |
| Presence.ViewportAgreesExactly | server/internal/sio/subscribe_viewport.go:106-131 | a viewport change keeps the agreement if and only if the session is connected or no room is listed |
| Presence.ConnectAgreesExactly | server/internal/sio/connection_manager.go:109-134 | a CONNECT keeps it if and only if the session is new, or all its rooms are restored and it was no other user's session |
| Presence.ReapIsExact | server/internal/sio/reaper.go:133-155 | after a reap pass no remaining heartbeat is older than 30 s and every other connection keeps its record and its rooms |
| Presence.HeartbeatBuysTime | server/internal/sio/connection_manager.go:171-206 | a heartbeat keeps its connection from going stale for exactly 30 s, and no other connection |
| Presence.ReconnectAfterDisconnect | server/internal/sio/handler.go:88-107 | a reconnecting user gets back the rooms and the next count if and only if the old session has not been disconnected yet |
| Presence.ReapNeedsSocket | server/pkg/socketio/server.go:225-238 | without the agreement a stale connection is removed if and only if the namespace knows it |
| Presence.ReapForgets | server/internal/sio/reaper.go:139-152 | whatever disconnect callbacks fail or are missing, every stale session leaves the connection manager, and the namespace keeps exactly those whose callback failed |
| Presence.ForgetIsExact | server/internal/sio/connection_manager.go:139-159 | a session that only the manager forgets keeps socket and rooms and is nobody's last session |
| Presence.ReapAgreesExactly | server/internal/sio/reaper.go:139-152 | a reap pass keeps the agreement if and only if no callback fails for a session it removes |
| Presence.ViewportAndPresence | server/internal/sio/subscribe_viewport.go:113-130 | the chat count last sent stays right after a viewport change if and only if the session's chat membership did not change |
| Presence.ConnectAndPresence | server/internal/sio/handler.go:99-107 | it stays right after a reconnect if and only if the chat room is not restored |
| Presence.ChatKeepsPresence | server/internal/sio/chat_join.go:57-76 | chat joins, chat leaves and disconnects keep it right |
| PresenceHandlers.ConnectionManager.Add | server/internal/sio/connection_manager.go:109-134 | a new record with the next reconnect count, listed under its session and its user |
| PresenceHandlers.ConnectionManager.Remove | server/internal/sio/connection_manager.go:139-159 | unlists the session, and its user's entry only if that still points to it |
| PresenceHandlers.ConnectionManager.GetPreviousSession | server/internal/sio/connection_manager.go:163-167 | the user's last record or none |
| PresenceHandlers.ConnectionManager.RecordHeartbeat | server/internal/sio/connection_manager.go:171-180 | the heartbeat of a known session, nothing else |
| PresenceHandlers.ConnectionManager.SetRooms | server/internal/sio/connection_manager.go:211-222 | the tracked rooms of a known session become the listed ones |
| PresenceHandlers.ConnectionManager.GetRooms | server/internal/sio/connection_manager.go:225-233 | the tracked rooms, each once |
| PresenceHandlers.ConnectionManager.GetStaleSIDs | server/internal/sio/connection_manager.go:195-206 | exactly the sessions whose heartbeat is older than 30 s, each once |
| PresenceHandlers.Handlers.OnConnect | server/internal/sio/handler.go:70-132 | a rejected token changes nothing; an accepted one adds the record, restores the rooms and counts |
| PresenceHandlers.Handlers.HandleConnect | server/pkg/socketio/namespace.go:96-109 | the socket is listed only after the handler accepted it |
| PresenceHandlers.Handlers.ChatJoin | server/internal/sio/chat_join.go:47-76 | an unknown session changes nothing; a known one joins in both records and the count is sent |
| PresenceHandlers.Handlers.ChatLeave | server/internal/sio/chat_leave.go:29-54 | leaves in both records and sends the count, unknown sessions included |
| PresenceHandlers.Handlers.JoinViewportRooms | server/internal/sio/subscribe_viewport.go:106-131 | the loops leave every tracked room, enter every new one and track exactly the new ones |
| PresenceHandlers.Handlers.Heartbeat | server/internal/sio/handler.go:146-152 | records the heartbeat of a known session and reports whether it is known |
| PresenceHandlers.Handlers.OnDisconnect | server/internal/sio/disconnect.go:34-71 | removes the record, sends the counts |
| PresenceHandlers.Handlers.HandleDisconnect | server/pkg/socketio/namespace.go:114-126 | socket and rooms go before the callback runs |
| PresenceHandlers.Handlers.DisconnectAll | server/pkg/socketio/server.go:225-238 | disconnects the session exactly when the namespace lists it |
| PresenceHandlers.Handlers.Reap | server/internal/sio/reaper.go:133-155 | the pass equals disconnecting each stale session in turn, or removing it from the manager alone where the callback fails or is missing |
| FlameSort.AlphaBucket | client/src/features/fire-map/components/FireCanvas.tsx:594-596 | the nearest of twenty levels, never the invisible one |
| FlameSort.StableOrderIsUnique | client/src/features/fire-map/components/FireCanvas.tsx:603-625 | there is one stable order by bucket, so the sort's result is determined |
| FlameSort.OrderIsStable | client/src/features/fire-map/components/FireCanvas.tsx:606-625 | the counted positions make a stable permutation sorted by bucket |
| FlameSort.PlacesFill | client/src/features/fire-map/components/FireCanvas.tsx:621-625 | filling each command's slot fills the whole list with that order |
| FlameSort.DrawsAreOrdered | client/src/features/fire-map/components/FireCanvas.tsx:596-643 | the six numbers per command, read back in the sorted order, are the particles pushed |
| FlameSort.FlameBatch.Push | client/src/features/fire-map/components/FireCanvas.tsx:596-599 | appends one command with its bucket in range |
| FlameSort.FlameBatch.CountBuckets | client/src/features/fire-map/components/FireCanvas.tsx:607-609 | the counts per bucket, whatever the buffer held |
| FlameSort.FlameBatch.BuildOffsets | client/src/features/fire-map/components/FireCanvas.tsx:612-614 | the number of commands in lower buckets |
| FlameSort.FlameBatch.PlaceIndices | client/src/features/fire-map/components/FireCanvas.tsx:617-625 | the index list ends as the stable order |
| FlameSort.FlameBatch.DrawSorted | client/src/features/fire-map/components/FireCanvas.tsx:628-643 | every command is drawn in that order under its own alpha, which is set once per bucket in use |
| FlameSort.FlameBatch.Render | client/src/features/fire-map/components/FireCanvas.tsx:603-645 | for any leftover buffers and any number of particles, none included: each pushed particle is drawn once at its own place and size under its own opacity level, lower levels first and each level in the order pushed, and the alpha is set once per level in use |
| Coalesce.FireBatcher.Flush | server/internal/sio/fire_batcher.go:82-108 | broadcasts each pending update once, in any order, with its own count, stage and position, and leaves nothing pending |
| Coalesce.FireStore.UpdateFire | client/src/features/fire-map/stores/fireStore.ts:33-46 | sets or deletes the cell, and explodes a burnt-out one |
| Coalesce.FireStore.SyncFires | client/src/features/fire-map/stores/fireStore.ts:48-57 | the map of the listed burning cells |
| Coalesce.FlushCatchesUp | server/internal/sio/fire_batcher.go:51-108 | however adds and flushes interleave and in whatever order maps are visited, right after a flush the client shows what replaying every single update would |
| Coalesce.FlushShowsLastAdd | server/internal/sio/fire_batcher.go:51-108 | after a flush the client has a grid exactly when the last update added for it counts fires, and shows that update's own count, stage and position |
| Coalesce.FlushKeepsTheRest | server/internal/sio/fire_batcher.go:51-108 | a grid that nothing was added for is shown as before |
| Coalesce.BehindExactly | server/internal/sio/fire_batcher.go:51-108 | between flushes the client is behind exactly when a pending update changes what it shows |
| Coalesce.ExplosionsKeptExactly | client/src/features/fire-map/stores/fireStore.ts:36-41 | a flush starts the same explosions if and only if no grid of the batch leaves the burnt-out stage again |
| Coalesce.SyncIsReplayExactly | client/src/features/fire-map/stores/fireStore.ts:33-57 | syncFires equals replaying its cells from empty if and only if no grid listed with fires is listed last without |
| Coalesce.SyncShowsLit | client/src/features/fire-map/stores/fireStore.ts:48-57 | after a sync each grid listed with fires is shown as it was last listed with fires |

## Left out

- HTTP, gorilla/websocket, go-redis, Gin, Discord, QR codes and configuration: foreign code; of Redis only the meaning of its commands is kept.
- JSON tokenising and marshalling: an abstract codec. What is assumed of it (WireJson.LawfulCodec) is assumed only of containers without binaries that JSON represents exactly: integers up to 2^53, finite floats, valid UTF-8, distinct keys.
- BinaryHeap.DeconstructNode: two slices that overlap without being the same slice are not modelled, nor are cyclic values, on which the source does not terminate.
- BinaryHeap.ReconstructNode: for data in which no map or slice occurs twice, as in anything the JSON parser returns, its only input.
- Grid.ViewportExact: over reals; rounding of float64 coordinates, the conversion of floats beyond 64-bit cell numbers and running out of memory below the capacity limit are not modelled. The limit, 2^48 bytes, is that of 64-bit machines.
- Grid.CenterMapsBack: over reals as well.
- FlameSort.AlphaBucket: over reals, and the `| 0` truncation only where the value fits in 32 bits.
- FireCapacity.CapacityBound: the counters after SADD are not steps of that model, since no bound depends on them.
- FireCycle.ConservationInEveryRun: event ids are taken to be fresh; the source draws them as twelve random hexadecimal digits. The 48-hour lifetime of the daily counters is not modelled, so the sum of daily counters is over all days.
- SessionRuns.NoLostWakeUp: one upgrade at a time; handleWSUpgrade does not guard against two at once.
- EngineSession.Session.Close: of the onClose callback only whether it runs; lastActive, ping timeouts and onMessage are not modelled.
- PresenceHandlers.Handlers.Reap: a disconnect callback that fails is taken to have done nothing; the one installed in server/internal/server/server.go:72-75 never fails. The reconnect of a session and its events are taken one at a time, as each handler is one step here.
- PresenceHandlers.Handlers.DisconnectAll: for the one namespace "/" that the server registers, where the source loops over all.
- FireRoutines.ProgressionEngine.ScanAndUpdateStages: of each message the grid, count, stages and removal count; random ids, timestamps, labels and failing sends, which are only logged, are left out.
- PresenceHandlers.Handlers.OnConnect: token validation is a parameter; times are whole milliseconds, where the source keeps them as fractional seconds.
- Namespaces other than "/", middleware, the acknowledgement registry, rate limiting, chat history, news, ranking and statistics handlers: they would add only easy members.
- RoomManager.Rooms and RoomCount, ConnectionManager.IsStale and ActiveSIDs: read-only variants of what is modelled.
- EventArgs, AckData, ReconstructBinary and EncodeBinary: thin wrappers around JSON and the routines modelled here.
- FireBatcher's ticker and the delivery of broadcasts: a flush is one step and its updates arrive in the order they were sent.
- The other animations of FireCanvas.tsx and every other React component.
