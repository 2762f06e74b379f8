# Rooms, sessions and frames of the game servers: a Dafny model

The matching server keeps a fixed pool of room slots in a database, lets logged-in sessions claim, join and
leave them, and runs games in them. A registry maps session tokens to sessions and users to tokens; a sweep
evicts sessions that stop pinging. The game socket server speaks HTTP framed by `Content-Length`. This project
models both and proves what single calls, whole runs and combinations of components keep.

All handlers of the matching server run on one thread (`MatchingServer/src/main.cpp:61`), so each handler is
one atomic step, and a run is any sequence of steps, in any order, with any environment.

## Files

- `Wrappers`, `Strings`: result types, the environment of a database call, `find`.
- `RoomTables`: rooms, members and games as values; each transaction as a function. `RoomRuns`, `GameRuns`:
  what table runs keep. `MissedRooms`: a run in which the check of `removePlayer` overlooks a room.
  `Transactions`: when each transaction succeeds, what it writes, and how a room fills.
- `RoomName`: the byte-level name check against UTF-8.
- `SessionModel`: the state of the whole server and its steps. `SessionRuns`, `StatusRuns`, `Quiescence`,
  `SweepRuns`: invariants over its runs. `Requests`, `LoginRuns`: when a request, a login or a mirror takes effect
  and how long that lasts. `Projection`: server runs are table runs, so the table theorems hold
  of the server.
- `DbPool`: the connection pool, as a value and as the class that refines it.
- `Repositories`: the room and game repositories, statement by statement, with a failure possible anywhere.
- `Server`: the session objects and the server, each handler proved to perform its step of `SessionModel`. The
  step `NewUser` belongs to the accounts (`Projection.AccountStepIsNewUser`).
- `Accounts`: the users table, registration and login.
- `HttpFraming`: printing and reading frames.

## How the source is read

- **Two kinds of run.** `Run` and `ServerRun` allow every request at any time. The source does not enforce four
  rules that some properties need; runs that keep them are called disciplined. D1: a join comes from a user who
  is in no room. D2: a game start does not name a free slot. D3: a login comes from a session that is not logged
  in. D4: the port of a mirror is not the id of a user. A theorem that needs one says so in its `requires`.
  What breaks without each rule is stated with its exact condition: `JoinKeepsExactly` (D1), `StartKeepsExactly`
  (D2), `DisciplineLastsExactly` for both over whole runs, `SecondLoginOrphans` for the tokens and `LoginLeavesGhostsExactly` for the room rows (D3),
  `HandleErrorHarmsExactly` (D4).
- **Environment as parameters.** The clock (`now`, in nanoseconds), the fresh token of a registration, the row
  an unordered `SELECT` returns first (`pick`, or `choose`), the default nickname, the `LOWER` function of the
  database, the password hash, and the failures of one database call (`Io`: which pooled connections are
  closed, whether connecting and `BEGIN` work, which statement raises).
- **Status texts** are a datatype: the room status is a decimal number and a fixed suffix, so different rooms
  have different texts.
- **Weak pointers.** A session that is destroyed leaves `live`; locking a weak pointer is a lookup in `live`.

## What the code does, where its comments or messages say otherwise

- `isValidRoomName` accepts every character of three bytes, not only Hangul (`RoomName.ValidNamesExactly`,
  `RoomName.HiraganaPasses`).
- The search for "mirror" in user names is case-sensitive although its comment says otherwise
  (`Accounts.MirrorSearchIsCaseSensitive`), and Hangul, or an '@' with no later '.', is refused although the
  comment allows both (`Accounts.AtSignAloneIsRefused`).
- `gameStart` and `gameEnd` change the tables but never fill in the game id, so both always answer an error;
  `gameEnd` leaves its room in game.
- `createRoom` answers an error after its commit exactly when the request can be granted but the next slot has
  no address or no live mirror at its port (`ServerClasses.CreateErrsAfterCommitExactly`).
- The transaction object is built before the `try` block: a failing `BEGIN` leaks the pooled connection. Each
  repository method here says so: it is loan-neutral if and only if `BEGIN` works or no connection was lent.
- A name lookup that fails looks like an unknown name, so a spelling that differs in case gets a second account;
  accounts are unique exactly as long as that has not happened (`Accounts.AccountsAreUnique`).
- When the second lookup of `registerCheckAndLogin` fails, the session keeps the user id -1, so two sessions can
  share that id. Exclusive login lasts exactly until a second lookup fails while another session with a token
  holds -1 (`SessionRuns.ExclusiveUntilShared`).
- A second login of one session leaves the old user marked as logged in for the rest of the run, and leaves his
  room rows without a session.
- A game started in a free slot takes that slot out of the pool for the rest of the run.
- `read_body` keeps every byte of the chunk that completes the count, so bytes after the frame in that chunk
  become part of the body.

## Model

| member | source | states |
|---|---|---|
| Quiescence.ClosingEverySessionQuiets | MatchingServer/src/core/session.cpp:424-448 | from every state of a disciplined run without database failures, closing the sessions in any order leaves no member, only free slots and only completed games, and the same tables for every order |
| Quiescence.QuietWhenNobodyIsOpen | MatchingServer/src/core/session.cpp:31-43 | whenever no session of such a run is open, the tables are quiet |
| Quiescence.NoGhostPlayers | MatchingServer/src/core/session.cpp:208-243 | every member row names the user of exactly one session not yet destroyed, which is open and logged in |
| Quiescence.LoginLeavesGhostsExactly | MatchingServer/src/core/session.cpp:289-305 | an accepted login leaves rows without a session if and only if the session was logged in as a user who is in a room |
| Quiescence.TidyStep | MatchingServer/src/core/session.cpp:208-377 | every disciplined step keeps the registry, the table invariants and the absence of ghost players together |
| Quiescence.ClosingsExit | MatchingServer/src/core/session.cpp:424-448 | after k closings the tables are those of the k users leaving at once |
| SessionRuns.EveryRunSafe | MatchingServer/src/core/server.cpp:169-235 | in any run, with failures, the registry is exact and the table invariants hold |
| SessionRuns.RegistryStep | MatchingServer/src/core/server.cpp:169-235 | every step keeps: each entry is a live session under its own token, each logged-in session owns the token of its user, no token is shared |
| SessionRuns.ExclusiveLogin | MatchingServer/src/core/session.cpp:289-305 | two live sessions with tokens never share a user id other than 0 and -1, and a logged-in session owns its user's token entry |
| SessionRuns.ExclusiveUntilShared | MatchingServer/src/core/session.cpp:289-305 | in every run exclusive login of token holders lasts exactly until a failed second lookup runs in one of them while another holds the id -1 |
| SessionRuns.ExclusiveStepExactly | MatchingServer/src/core/session.cpp:289-305 | one step keeps exclusive login if and only if it is not such a lookup |
| SessionRuns.ExclusiveWithoutFailedLookups | MatchingServer/src/core/server.cpp:79-82 | in every run without a failed second lookup no token holder has a negative id, and two of them share no id but 0 |
| SessionRuns.OnlyFailedLookupsStoreNegatives | MatchingServer/src/core/session.cpp:487-493 | no other step gives a token holder a negative id |
| SessionRuns.LookupFaultExactly | MatchingServer/src/service/auth_service.cpp:212-227 | the failing lookup breaks exclusivity if and only if its session and another one hold tokens and the other has the id -1 |
| SessionRuns.OwnedStepExactly | MatchingServer/src/core/server.cpp:169-189 | a step keeps every token holder's ownership of its user's token entry if and only if it is not a failed second lookup in a session that holds a token |
| SessionRuns.OwnedUntilFailedLookup | MatchingServer/src/core/server.cpp:169-189 | in every run that ownership lasts exactly until the first such step |
| SessionRuns.RefusedHandshake | MatchingServer/src/core/session.cpp:114-129 | a session that is closed first and registered all the same ends in the state of a handshake followed by a close |
| SessionRuns.FailedLookupsShareAnId | MatchingServer/src/service/auth_service.cpp:212-227 | the exception to exclusivity: two failed second lookups leave two registered sessions with id -1 |
| SessionRuns.DyingSessionsAreHarmless | MatchingServer/src/core/session.cpp:31-43 | a repeated handle_error of a dying session keeps the rooms of every other login, and its destructor keeps the other's entry and token (D4) |
| SessionRuns.HandleErrorHarmsExactly | MatchingServer/src/core/session.cpp:424-448 | without D4, handle_error costs another login its rooms if and only if it runs for a mirror whose port is that user's id |
| SessionRuns.RoomUserIsExclusive | MatchingServer/src/core/session.cpp:98-108 | the user of a session who is in a room belongs to no other live session, mirrors included (D4) |
| SessionRuns.BroadcastReachesOnce | MatchingServer/src/core/server.cpp:281-317 | each open session with a token has exactly one entry, and no entry points to a destroyed session |
| SessionRuns.EraseOneIsAll | MatchingServer/src/core/server.cpp:173-183 | stopping after one erased entry erases all entries of the session |
| SessionRuns.LoginOrphansExactly | MatchingServer/src/core/session.cpp:289-305 | an accepted login orphans exactly the token entry that held the session's old token |
| SessionRuns.SecondLoginOrphans | MatchingServer/src/core/session.cpp:289-305 | logging in again as somebody else orphans the first user |
| SessionRuns.OrphansAreLockedOut | MatchingServer/src/core/server.cpp:79-82 | an orphaned user is refused by every later login of the run |
| StatusRuns.StatusIsMembership | MatchingServer/src/core/session.cpp:306-343 | in any run with D4, an open logged-in session that shows a room is a member of it |
| StatusRuns.StatusStep | MatchingServer/src/core/session.cpp:208-377 | every step keeps that agreement, closings and evictions of other sessions included |
| SweepRuns.SweepIsExact | MatchingServer/src/core/server.cpp:95-133 | in any run a sweep leaves exactly the entries of live active sessions and closes the others; without failures it removes exactly the rows of the timed-out users |
| SweepRuns.SweepOrderIsIrrelevant | MatchingServer/src/core/server.cpp:116-131 | whatever the order of the map, the swept tables are those of all timed-out users leaving at once |
| SweepRuns.EvictedInTime | MatchingServer/src/core/server.cpp:89-141 | with sweeps at most 10 + d seconds apart, a registered session last heard by t that does not ping has no entry once more than 10 + d seconds have passed since its registration and since t + 12, that is, after t + 22 + d for one heard at registration |
| SweepRuns.SweepInWindow | MatchingServer/src/core/server.cpp:135-140 | regular sweeps put one, from a given step on, into every window as long as their gap |
| SweepRuns.GapsUnderTimeoutStay | MatchingServer/src/core/session.cpp:51-70 | a session whose ping gaps stay under 12 seconds stays open and registered, whenever the sweeps come |
| SweepRuns.PingingSessionsStay | MatchingServer/src/core/session.cpp:51-70 | a session that no sweep finds silent for 12 seconds stays open and registered under its token |
| SweepRuns.ActiveExactly | MatchingServer/src/core/session.cpp:66-70 | the truncating cast to seconds does not shift the 12 second limit |
| RoomRuns.AnyRunSafe | MatchingServer/src/repository/room_repository.cpp:57-258 | in any run free slots are empty, no room exceeds its capacity, running games sit in rooms in game, and no slot appears or disappears |
| RoomRuns.AnyStepKeeps | MatchingServer/src/repository/room_repository.cpp:57-258 | every single operation keeps those invariants |
| RoomRuns.RecycledSlotIsClean | MatchingServer/src/repository/room_repository.cpp:74-103 | a claimed slot was empty, then holds its host alone, has no running game and the same address; all other rooms are as before |
| RoomRuns.DisciplinedRunSafe | MatchingServer/src/repository/room_repository.cpp:122-258 | in disciplined runs a user is in at most one room and a slot is free exactly when it is empty |
| RoomRuns.SlotsAreConserved | MatchingServer/db-init.sql:111-119 | free slots are the empty rooms, open ones the occupied rooms, and together they always are the fixed pool |
| RoomRuns.CreateRoomExactly | MatchingServer/src/repository/room_repository.cpp:65-112 | a room is granted exactly to an existing user in no room while an empty slot exists, and it is the least one |
| RoomRuns.JoinKeepsExactly | MatchingServer/src/repository/room_repository.cpp:146-158 | a join keeps the disciplined invariant if and only if a join that succeeds comes from a user in no room |
| RoomRuns.StartKeepsExactly | MatchingServer/src/repository/game_repository.cpp:26-37 | a game start keeps it if and only if it does not name a free slot |
| RoomRuns.StepKeepsExactly | MatchingServer/src/repository/room_repository.cpp:57-258 | an operation keeps the disciplined invariant if and only if it is neither a succeeding join of a seated user nor a game start in a free slot |
| RoomRuns.DisciplineLastsExactly | MatchingServer/src/repository/room_repository.cpp:57-258 | in every run that invariant lasts exactly until the first such operation |
| RoomRuns.StuckForever | MatchingServer/src/repository/game_repository.cpp:26-37 | an empty room in game is never free again in any run |
| RoomRuns.StartInFreeSlot | MatchingServer/src/repository/game_repository.cpp:26-37 | a game started in a free slot makes such a room |
| RoomRuns.RemoveRefinesSimpleRule | MatchingServer/src/repository/room_repository.cpp:206-246 | in any state of any run the one-room check equals "delete the user, end every room now empty and its running games" if and only if no open room other than the inspected one holds nobody but the user |
| RoomRuns.RemoveIsSimple | MatchingServer/src/repository/room_repository.cpp:206-246 | in every disciplined state it equals that rule |
| MissedRooms.RemoveMissesASecondRoom | MatchingServer/src/repository/room_repository.cpp:206-246 | without D1 it leaves an open room without players: from every initial state with two slots and two users a run of four requests leads to a state in which the next removal does so |
| MissedRooms.SeededRunMissesARoom | MatchingServer/db-init.sql:90-119 | the seeded tables with users 1 and 2 are such a start |
| RoomRuns.RemovalsCommute | MatchingServer/src/repository/room_repository.cpp:202-258 | removals of two users commute in disciplined states |
| RoomRuns.ExitOrderIsIrrelevant | MatchingServer/src/repository/room_repository.cpp:202-258 | any sequence of removals gives the tables of its users leaving at once, so the order does not matter |
| RoomRuns.ExitCompose | MatchingServer/src/repository/room_repository.cpp:202-258 | leaving in two groups is leaving at once |
| RoomRuns.GrantsNeverOverlap | MatchingServer/src/repository/room_repository.cpp:74-103 | two grants of one slot are separated by the removal that emptied and freed it |
| RoomRuns.OnlyRemovalFrees | MatchingServer/src/repository/room_repository.cpp:233-241 | a slot becomes free only by the removal of its last player |
| RoomRuns.OpenRoomsHaveDistinctPorts | MatchingServer/db-init.sql:111-119 | no step writes an address, so rooms open at one time have distinct ports |
| RoomRuns.SeedIsInitial | MatchingServer/db-init.sql:90-119 | the seed script creates an initial state |
| GameRuns.PlayEndsOnlyByEmptying | MatchingServer/src/repository/game_repository.cpp:68-113 | a room in game leaves that status only when its last player is removed, so ending the game does not reopen it |
| GameRuns.RosterOnlyShrinks | MatchingServer/src/repository/room_repository.cpp:129-144 | nobody enters a room while it is in game |
| GameRuns.GameStep | MatchingServer/src/repository/game_repository.cpp:15-113 | a step ends a running game if and only if it is its gameEnd or empties its room; room and map of a game never change |
| GameRuns.GamesEndForAReason | MatchingServer/src/repository/room_repository.cpp:233-246 | a game that ran and is over was ended by one of these two in between |
| GameRuns.EndedGamesStayEnded | MatchingServer/src/repository/game_repository.cpp:26-43 | an ended game is never changed again |
| Projection.ServerRunsProject | MatchingServer/src/core/session.cpp:208-377 | between any two states of a server run the tables form a run of table operations, disciplined when the steps keep D1 and D2 |
| Projection.ServerGrantsNeverOverlap | MatchingServer/src/repository/room_repository.cpp:74-103 | in every server run two createRoom requests granted the same slot are separated by a leaving, a closing or a sweep that emptied and freed it |
| Projection.StepFrees | MatchingServer/src/repository/room_repository.cpp:233-241 | a server step frees a slot only by emptying it, and only as a leaving, a closing or a sweep |
| Projection.AccountStepIsNewUser | MatchingServer/src/repository/user_repository.cpp:56-75 | an account request adds no user to the tables or performs the NewUser step of the id it drew |
| Projection.StepIsOneOp | MatchingServer/src/core/session.cpp:208-377 | every request performs one legal table operation or none |
| Projection.SweepIsRemovals | MatchingServer/src/core/server.cpp:116-131 | a sweep is a sequence of removals |
| Projection.ServerPortsDistinct | MatchingServer/db-init.sql:111-119 | rooms open in one state of any server run have distinct ports |
| Projection.ServerSlotsConserved | MatchingServer/src/repository/room_repository.cpp:57-258 | no slot is lost in a disciplined server run |
| Transactions.CreateRoomSucceedsExactly | MatchingServer/src/repository/room_repository.cpp:65-85 | in any state a room is granted if and only if the user exists, sits nowhere and a slot is free |
| Transactions.CreateRoomWrites | MatchingServer/src/repository/room_repository.cpp:74-112 | the least free slot gets the name, host, capacity, status and time of the request and keeps its address, the host is seated, and nothing else changes |
| Transactions.AddPlayerExactly | MatchingServer/src/repository/room_repository.cpp:129-192 | a join succeeds and adds one row if and only if the room exists, waits and has a seat left, and the user exists and does not sit in it |
| Transactions.RoomFillsExactly | MatchingServer/src/repository/room_repository.cpp:160-192 | in every run a room created for m players admits exactly the first m - 1 other users who ask, while nobody leaves and no game starts in it, whatever happens elsewhere |
| Transactions.RemovePlayerExactly | MatchingServer/src/repository/room_repository.cpp:206-250 | in any state a removal succeeds if and only if the user is seated; it deletes his rows and ends the inspected room and its games if and only if nobody else sits there |
| Transactions.CreateGameExactly | MatchingServer/src/repository/game_repository.cpp:26-43 | a start in an existing room on an existing map, whatever the status, files one running game under a new id and puts the room in game; any other one changes nothing |
| Transactions.EndGameExactly | MatchingServer/src/repository/game_repository.cpp:76-92 | exactly the named game is completed |
| Requests.CreateRequestExactly | MatchingServer/src/service/room_service.cpp:64-116 | createRoom changes the tables if and only if the session has a user who exists and sits nowhere, the name is valid, 2 to 8 players are asked for and a slot is free |
| Requests.CreateShowsExactly | MatchingServer/src/core/session.cpp:306-333 | the session then shows the room if and only if the room has an address and a live mirror |
| Requests.JoinRequestExactly | MatchingServer/src/core/session.cpp:335-337 | joinRoom seats the user and shows the room if and only if the user exists and the room waits with a seat he does not have; otherwise nothing changes |
| Requests.ExitRequestExactly | MatchingServer/src/core/session.cpp:338-340 | exitRoom unseats the user and shows the lobby if and only if he is seated; otherwise nothing changes |
| Requests.StartRequestExactly | MatchingServer/src/core/session.cpp:234-247 | gameStart changes the tables if and only if a mirror asks for an existing room and map |
| Requests.EndRequestExactly | MatchingServer/src/core/session.cpp:234-247 | gameEnd completes the named game if and only if a mirror asks |
| Requests.CloseExactly | MatchingServer/src/core/session.cpp:424-465 | handle_error closes the session and deletes exactly the rows of its user, if it has one |
| Requests.FaultsChangeNothing | MatchingServer/src/repository/room_repository.cpp:57-258 | a database failure leaves a request without effect |
| LoginRuns.DestroyReleases | MatchingServer/src/core/server.cpp:207-226 | the destructor removes exactly the token entry of its user and its own session entry |
| LoginRuns.LoginAfterDestroy | MatchingServer/src/core/server.cpp:79-82 | after it, a login as the same user on any other session is accepted |
| LoginRuns.NextLoginIsAccepted | MatchingServer/src/core/session.cpp:289-305 | in every run, once the session of a user is destroyed, the next login as that user is accepted and holds |
| LoginRuns.MarkedByLogin | MatchingServer/src/core/server.cpp:169-189 | a user becomes marked as logged in if and only if the step is a login as him |
| LoginRuns.LoginAccepted | MatchingServer/src/core/session.cpp:289-305 | an accepted login files the session under the token and the token under the user, and shows the lobby |
| LoginRuns.HandshakeOpens | MatchingServer/src/core/session.cpp:45-49 | an accepted session that shakes hands is open, registered, without a user, and heard when it was accepted |
| LoginRuns.MirrorIsFound | MatchingServer/src/core/session.cpp:98-108 | a mirror is found under its port after its handshake, and the port is its user id |
| LoginRuns.MirrorStaysExactly | MatchingServer/src/core/server.cpp:191-269 | a step takes it away if and only if it destroys the mirror or another one of the port, or files another one there |
| LoginRuns.MirrorLastsExactly | MatchingServer/src/core/server.cpp:191-269 | in every run the mirror is found exactly until the first such step |
| RoomName.IsValidRoomName | MatchingServer/src/service/room_service.cpp:14-54 | the byte loop decides the predicate on the whole name |
| RoomName.ValidNamesExactly | MatchingServer/src/service/room_service.cpp:14-54 | an encoded text passes if and only if it has 1 to 40 bytes and holds ASCII name characters and three-byte characters only, a final '$' apart |
| RoomName.HangulNamesPassByLength | MatchingServer/src/service/room_service.cpp:14-54 | over letters, digits, space and Hangul syllables, with a final '$' allowed, only the length decides |
| RoomName.AllEncodingsOk | MatchingServer/src/service/room_service.cpp:27-50 | all bytes of an encoding are accepted exactly when all its characters are |
| RoomName.HiraganaPasses | MatchingServer/src/service/room_service.cpp:14-54 | the check is wider than its message |
| DbPoolModel.PoolIsExact | MatchingServer/src/util/db_pool.cpp:18-103 | over every well-matched sequence, with reconnections and failed attempts: distinct connections, flags that say exactly what is on loan, size equal to the larger of start size and peak of the loans |
| DbPoolModel.NeverLentTwice | MatchingServer/src/util/db_pool.cpp:50-88 | a connection on loan is not handed out |
| DbPoolModel.GetLends | MatchingServer/src/util/db_pool.cpp:50-88 | a successful get lends one open or new connection that was free; a failed one changes nothing; the pool grows only when all are lent |
| DbPoolModel.GetExactly | MatchingServer/src/util/db_pool.cpp:50-88 | the first free slot's connection is lent if it is open; otherwise a new one if connecting works; and the call fails in no other case |
| DbPoolModel.ReturnReleases | MatchingServer/src/util/db_pool.cpp:90-103 | a return ends exactly that loan |
| DbPoolModel.BorrowAndReturn | MatchingServer/src/util/db_pool.cpp:50-103 | borrowing and returning leaves the loans as they were |
| DbPoolClass.DbPool.Open | MatchingServer/src/util/db_pool.cpp:18-41 | a pool of fresh connections, none lent, if and only if every attempt to connect works |
| DbPoolClass.DbPool.GetConnection | MatchingServer/src/util/db_pool.cpp:50-88 | the scan refines Get and adds exactly the result to the loans |
| DbPoolClass.DbPool.ReturnConnection | MatchingServer/src/util/db_pool.cpp:90-103 | the search refines Return and takes exactly the argument off the loans |
| Repositories.RoomRepository.CreateRoomWithHost | MatchingServer/src/repository/room_repository.cpp:57-120 | all or nothing with a failure at any statement; loan-neutral if and only if BEGIN works or nothing was lent; exact tables and answer when nothing fails |
| Repositories.RoomRepository.AddPlayer | MatchingServer/src/repository/room_repository.cpp:122-200 | the same; success is reported only with the whole update |
| Repositories.RoomRepository.RemovePlayer | MatchingServer/src/repository/room_repository.cpp:202-258 | the same; success is reported only with the whole update |
| Repositories.GameRepository.CreateGame | MatchingServer/src/repository/game_repository.cpp:15-66 | all or nothing, loan-neutral in the same sense; the answer lists exactly the users of the room, and its game id is always -1 |
| Repositories.GameRepository.EndGame | MatchingServer/src/repository/game_repository.cpp:68-113 | the same |
| Repositories.GameRepository.UsersInRoom | MatchingServer/src/repository/game_repository.cpp:45-55 | the loop collects exactly the users of the room, each once |
| Repositories.CreateAnswersTheRequest | MatchingServer/src/repository/room_repository.cpp:105-119 | a granted request is answered with its slot, name and capacity and the address of the slot |
| Repositories.FailureMeansUnchanged | MatchingServer/src/repository/room_repository.cpp:105-119 | a failure of room creation without a database failure means unchanged tables, unless the slot has no address, and conversely |
| ServerClasses.Session.IsActive | MatchingServer/src/core/session.cpp:66-70 | active means heard less than 12 seconds ago |
| ServerClasses.Session.HandlePing | MatchingServer/src/core/session.cpp:51-64 | only the time of the last activity changes |
| ServerClasses.Session.InitCurrentUser | MatchingServer/src/core/session.cpp:487-493 | the user and the waiting status are set, nothing else |
| ServerClasses.Server.constructor | MatchingServer/src/core/server.cpp:26-45 | the server starts in a start state of the runs |
| ServerClasses.Server.Accept | MatchingServer/src/core/session.cpp:15-29 | performs the Accept step |
| ServerClasses.Server.MirrorHandshake | MatchingServer/src/core/session.cpp:98-108 | performs the MirrorHandshake step |
| ServerClasses.Server.Initialize | MatchingServer/src/core/session.cpp:45-49 | performs the registration of a ClientHandshake step, also for a session just refused and closed, which stays closed |
| ServerClasses.Server.RegisterSession | MatchingServer/src/core/server.cpp:169-189 | the scan and the insertions leave the registered state |
| ServerClasses.Server.Login | MatchingServer/src/core/session.cpp:289-305 | a user with a token entry is refused without a change; otherwise the Login step is performed |
| ServerClasses.Server.RemoveSession | MatchingServer/src/core/server.cpp:207-226 | exactly the named entries go |
| ServerClasses.Server.RemoveMirrorSession | MatchingServer/src/core/server.cpp:228-235 | exactly the named entry goes |
| ServerClasses.Server.Destroy | MatchingServer/src/core/session.cpp:31-43 | performs the Destroy step |
| ServerClasses.Server.HandleError | MatchingServer/src/core/session.cpp:424-465 | performs the Close step; the user has left every room if the database works, the tables are unchanged if it does not |
| ServerClasses.Server.GetMirrorSession | MatchingServer/src/core/server.cpp:254-269 | finds the live mirror of the port and drops a dead entry |
| ServerClasses.Server.CreateRoomService | MatchingServer/src/service/room_service.cpp:64-116 | checks the request, then either nothing happened or the repository's update and answer |
| ServerClasses.Server.CreateRoom | MatchingServer/src/core/session.cpp:306-333 | performs the CreateRoomReq step; if the database works it answers success if and only if the request can be granted and the next slot has an address and a live mirror |
| ServerClasses.CreateErrsAfterCommitExactly | MatchingServer/src/core/session.cpp:319-328 | the answer is an error with changed tables if and only if the request can be granted and the next slot has no address or no live mirror; a success shows the least free slot |
| ServerClasses.Server.Ping | MatchingServer/src/core/session.cpp:51-64 | performs the Ping step |
| ServerClasses.Server.LoginUnresolved | MatchingServer/src/core/session.cpp:487-493 | performs the LoginLookupFault step |
| ServerClasses.Server.JoinRoom | MatchingServer/src/core/session.cpp:335-337 | performs the JoinRoomReq step and answers success exactly when the tables changed |
| ServerClasses.Server.ExitRoom | MatchingServer/src/core/session.cpp:338-340 | performs the ExitRoomReq step and answers success exactly when the tables changed |
| ServerClasses.Server.GameStart | MatchingServer/src/service/game_service.cpp:19-56 | performs the GameStartReq step and never reports success |
| ServerClasses.Server.GameEnd | MatchingServer/src/service/game_service.cpp:58-92 | performs the GameEndReq step and never reports success |
| ServerClasses.Server.GetWaitingSessions | MatchingServer/src/core/server.cpp:281-292 | every registered waiting session, each exactly once |
| ServerClasses.Server.SetSessionStatus | MatchingServer/src/core/server.cpp:54-73 | exactly the sessions named by the users change, only in status |
| ServerClasses.Server.CollectInactive | MatchingServer/src/core/server.cpp:99-114 | the first pass finds exactly the timed-out entries, each once |
| ServerClasses.Server.CheckInactiveSessions | MatchingServer/src/core/server.cpp:95-133 | the two passes perform a legal Sweep step |
| Accounts.CheckUserName | MatchingServer/src/service/auth_service.cpp:16-68 | the searches and the byte loop decide the predicate on the whole name |
| Accounts.PlainNamesExactly | MatchingServer/src/service/auth_service.cpp:16-68 | letters and digits alone are a valid name if and only if there are 1 to 30 of them, "mirror" apart |
| Accounts.AddressPasses | MatchingServer/src/service/auth_service.cpp:52-66 | an address with every sign of the second alphabet is a valid name |
| Accounts.RegisterExactly | MatchingServer/src/service/auth_service.cpp:92-143 | a registration succeeds if and only if the name is valid, the password has six characters and no account folds to the name; it then files exactly that account |
| Accounts.EnterExactly | MatchingServer/src/service/auth_service.cpp:196-212 | registerCheckAndLogin adds an account if and only if no account folds to the name and it fits its column |
| Accounts.InsertKeepsUnique | MatchingServer/src/repository/user_repository.cpp:56-75 | an insert keeps accounts unique up to case if and only if no spelling of the name was there |
| Accounts.MirrorSearchIsCaseSensitive | MatchingServer/src/service/auth_service.cpp:27-30 | the code departs from the announced rule if and only if length and alphabet are in order and the word occurs in some case but not in lower case |
| Accounts.CapitalMirrorPasses | MatchingServer/src/service/auth_service.cpp:27-30 | "Mirror1" is such a name |
| Accounts.AtSignAloneIsRefused | MatchingServer/src/service/auth_service.cpp:32-49 | of the names of letters, digits, '@' and bytes beyond ASCII, Hangul included, exactly those of letters and digits are accepted |
| Accounts.StepKeepsUniqueExactly | MatchingServer/src/service/auth_service.cpp:92-227 | one request keeps accounts unique up to case if and only if it is not one whose lookup failed and whose name passes every other check and folds to a taken one |
| Accounts.AccountsAreUnique | MatchingServer/src/service/auth_service.cpp:92-227 | in every run, failures included, accounts are unique up to case exactly as long as no such request was made, and then a lookup finds at most one row |
| Accounts.AccountsPersist | MatchingServer/src/repository/user_repository.cpp:56-132 | no account goes or changes its name or hash |
| Accounts.RegisteredUsersLogIn | MatchingServer/src/service/auth_service.cpp:92-183 | in every state after a registration, if no request made a twin of this very name since, every case variant of the name logs in to the new id with exactly the passwords of the same hash |
| Accounts.UserRepository.FindByUsername | MatchingServer/src/repository/user_repository.cpp:20-54 | finds a matching row; without failures says "unknown" exactly when there is none, and says it whenever a statement fails; loan-neutral in the sense above |
| Accounts.UserRepository.Create | MatchingServer/src/repository/user_repository.cpp:56-83 | the whole insert and its id, or no row |
| Accounts.UserRepository.RegisterUser | MatchingServer/src/service/auth_service.cpp:92-143 | succeeds, when no call fails, if and only if the name is valid, the password has six characters and no account folds to the name; a failed lookup sees nothing, and accounts stay unique if and only if no second spelling passed because of that; a refused registration adds no row |
| Accounts.UserRepository.LoginUser | MatchingServer/src/service/auth_service.cpp:145-183 | accepts only a matching row with the right hash, and refuses exactly when the rule does if the lookup works |
| Accounts.UserRepository.RegisterCheckAndLogin | MatchingServer/src/service/auth_service.cpp:185-227 | answers an account of the name, created if unknown; the id -1 is answered only when the second lookup failed |
| HttpFraming.FrameRoundTrip | GameSocketServer/src/session.cpp:26-100 | for every body and every cut of its printed frame, reading gives back exactly the body if and only if the first chunk covers the header |
| HttpFraming.BodyArrivesExactly | GameSocketServer/src/session.cpp:26-95 | with further bytes behind the frame, the body arrives unspoilt if and only if the first chunk covers the header and holds the whole frame or some chunk ends with it |
| HttpFraming.ShortFirstChunkStalls | GameSocketServer/src/session.cpp:54-69 | a first chunk that breaks off inside the header delivers nothing |
| HttpFraming.DeliveredBody | GameSocketServer/src/session.cpp:36-95 | what is delivered for every cut: the body and the rest of the chunk that completes it |
| HttpFraming.BodyOfChunks | GameSocketServer/src/session.cpp:77-95 | read_body stops at the first chunk that completes the count and keeps all of it |
| HttpFraming.HeadOfFrame | GameSocketServer/src/session.cpp:36-69 | the printed head is read back, with the right remaining count |
| HttpFraming.HeaderFinds | GameSocketServer/src/session.cpp:39-56 | the first occurrences of the length header, its line end and the blank line are those of the header, whatever the body holds |
| HttpFraming.StoulInvertsDecimal | GameSocketServer/src/session.cpp:45-50 | reading a printed length gives the length |
| HttpFraming.NumberInvertsDecimal | GameSocketServer/src/session.cpp:168-175 | printing and reading decimal numbers are inverse |
| HttpFraming.HttpSession.WriteResponse | GameSocketServer/src/session.cpp:163-175 | prints the frame of the response |
| HttpFraming.HttpSession.OnHeader | GameSocketServer/src/session.cpp:26-75 | the read handler acts on the parsed head; without a blank line no further read follows, and an exception of stoul escapes |
| HttpFraming.HttpSession.OnBody | GameSocketServer/src/session.cpp:77-100 | message and missing count always make up the content length |
| HttpFraming.HttpSession.Receive | GameSocketServer/src/session.cpp:26-100 | the handlers together deliver exactly what ReadFrame says |

Some methods of `Server` require that a session has one entry at most or that every entry is alive. These are
facts of every run, not demands on the caller: `ServerClasses.ExactEntries` and `SessionRuns.EveryRunSafe` give
them, and the source relies on them without a check.

## Left out

- ServerClasses.Server.GameStart: the user list of the answer and the status broadcast never happen, because the answer is always an error; `SetSessionStatus` is modelled on its own.
- Accounts.UserRepository.RegisterUser: the id of a new account comes from a sequence that starts above zero, which the method requires.
- SweepRuns.EvictedInTime: assumes that some sweep happens before the session is due; the source starts the timer with the server.
- Sockets, asynchronous reads and writes, buffers, JSON, logging, locks: requests arrive as values and handlers are atomic.
- PostgreSQL itself: transactions are atomic updates that may fail, a failing commit leaves the tables unchanged, numbers burnt by a rolled-back game insert are not modelled.
- Times stored in rows other than the creation time of a room: `joined_at`, `started_at`, `completed_at`, `last_login`.
- One connection per IP address: which sessions are refused is not modelled; a refused session goes through its handshake all the same and is closed (`SessionRuns.RefusedHandshake`).
- A mirror that registers a port still in use: the destructor of the older session then drops the newer entry, which the steps show but no theorem is about.
- `findAllOpen`, `listRooms`, `getPlayerCount`, `getPlayersInRoom`, `getSession`, the counters and the chat broadcasts: they only read.
- `isValidNickName` (a regular expression over bytes) and the nickname update beyond its effect on the row.
- The controllers: they dispatch by name.
- `UserDao` and `AuthApi` of the game socket server: thin SQL wrappers.
- Signs and white space that `stoul` would accept before the digits: a printed header never holds them.
- Validity of UTF-8 input and the column width counted in characters: names are bytes.
- `Server::stop` and the signal handler: they run outside the event loop.
