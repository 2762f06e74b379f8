/** The tables rooms, room_users and games, and what each committed transaction does to them. */
module RoomTables {
  import opened Wrappers

  datatype RoomStatus = Waiting | GameInProgress | Terminated
  datatype GameStatus = InProgress | Completed
  datatype Room = Room(name: seq<byte>, hostId: int, ip: Option<string>, port: Option<int>,
                       maxPlayers: int, status: RoomStatus, createdAt: int)
  datatype Member = Member(roomId: int, userId: int)
  datatype Game = Game(roomId: int, mapId: int, status: GameStatus)

  /** users and maps are the ids the foreign keys refer to; gameSeq is the sequence behind game_id. */
  datatype Tables = Tables(rooms: map<int, Room>, members: set<Member>, games: map<int, Game>,
                           users: set<int>, maps: set<int>, gameSeq: int)

  // ---------- Queries ----------

  function RoomsOf(t: Tables, userId: int): set<int> {
    set m | m in t.members && m.userId == userId :: m.roomId
  }

  function RowsIn(t: Tables, roomId: int): set<Member> {
    set m | m in t.members && m.roomId == roomId
  }

  function FreeRooms(t: Tables): set<int> {
    set r | r in t.rooms && t.rooms[r].status == Terminated
  }

  function OpenRooms(t: Tables): set<int> {
    set r | r in t.rooms && t.rooms[r].status != Terminated
  }

  function Least(s: set<int>): (m: int)
    requires s != {}
    ensures m in s && forall x :: x in s ==> m <= x
  {
    LeastExists(s);
    var m :| m in s && forall x :: x in s ==> m <= x;
    m
  }

  lemma {:induction false} LeastExists(s: set<int>)
    requires s != {}
    ensures exists m :: m in s && forall x :: x in s ==> m <= x
    decreases |s|
  {
    var y := Witness(s);
    var rest := s - {y};
    if rest == {} {
      assert s == {y};
    } else {
      LeastExists(rest);
      var m :| m in rest && forall x :: x in rest ==> m <= x;
      LeastOfTwo(s, y, m);
    }
  }

  lemma LeastOfTwo(s: set<int>, y: int, m: int)
    requires y in s && m in s && forall x :: x in s - {y} ==> m <= x
    ensures exists k :: k in s && forall x :: x in s ==> k <= x
  {
    var k := if y < m then y else m;
    assert forall x :: x in s ==> x == y || x in s - {y};
    assert k in s && forall x :: x in s ==> k <= x;
  }

  // ---------- Single statements ----------

  function Reopen(t: Tables, roomId: int, hostId: int, name: seq<byte>, maxPlayers: int, now: int): Tables
    requires roomId in t.rooms
  {
    t.(rooms := t.rooms[roomId := t.rooms[roomId].(
                  name := name, hostId := hostId, maxPlayers := maxPlayers, status := Waiting, createdAt := now)])
  }

  function InsertMember(t: Tables, roomId: int, userId: int): Tables {
    t.(members := t.members + {Member(roomId, userId)})
  }

  function DeleteUser(t: Tables, userId: int): Tables {
    t.(members := set m | m in t.members && m.userId != userId)
  }

  function SetStatus(t: Tables, roomId: int, status: RoomStatus): Tables {
    if roomId in t.rooms then t.(rooms := t.rooms[roomId := t.rooms[roomId].(status := status)]) else t
  }

  // Only running games change: a completed game is completed again without effect.
  function CompleteGames(t: Tables, roomId: int): Tables {
    t.(games := map g | g in t.games ::
                  if t.games[g].roomId == roomId then t.games[g].(status := Completed) else t.games[g])
  }

  // ---------- Whole transactions ----------

  /** createRoomWithHost: claim the least free slot for a user who is in no room. */
  function CreateRoom(t: Tables, hostId: int, name: seq<byte>, maxPlayers: int, now: int): (Tables, Option<int>) {
    if RoomsOf(t, hostId) != {} || FreeRooms(t) == {} || hostId !in t.users then (t, None)
    else
      var r := Least(FreeRooms(t));
      (InsertMember(Reopen(t, r, hostId, name, maxPlayers, now), r, hostId), Some(r))
  }

  predicate CanAdd(t: Tables, roomId: int, userId: int) {
    && roomId in t.rooms
    && t.rooms[roomId].status == Waiting
    && Member(roomId, userId) !in t.members
    && |RowsIn(t, roomId)| < t.rooms[roomId].maxPlayers
    && userId in t.users
  }

  function AddPlayer(t: Tables, roomId: int, userId: int): (Tables, bool) {
    if CanAdd(t, roomId, userId) then (InsertMember(t, roomId, userId), true) else (t, false)
  }

  /** The room the unordered SELECT of removePlayer returns first can be any room of the user. */
  predicate PickOk(t: Tables, userId: int, pick: int) {
    RoomsOf(t, userId) != {} ==> pick in RoomsOf(t, userId)
  }

  /** removePlayer: delete all rows of the user, but look only at the first room found. */
  function RemovePlayer(t: Tables, userId: int, pick: int): (Tables, bool) {
    if RoomsOf(t, userId) == {} then (t, false)
    else
      var d := DeleteUser(t, userId);
      (if RowsIn(d, pick) == {} then CompleteGames(SetStatus(d, pick, Terminated), pick) else d, true)
  }

  function InsertGame(t: Tables, roomId: int, mapId: int): Tables {
    t.(games := t.games[t.gameSeq := Game(roomId, mapId, InProgress)], gameSeq := t.gameSeq + 1)
  }

  /** createGame: no look at the status of the room; only the foreign keys can refuse. */
  function CreateGame(t: Tables, roomId: int, mapId: int): (Tables, bool) {
    if roomId !in t.rooms || mapId !in t.maps then (t, false)
    else (SetStatus(InsertGame(t, roomId, mapId), roomId, GameInProgress), true)
  }

  function EndGame(t: Tables, gameId: int): (Tables, bool) {
    if gameId in t.games then (t.(games := t.games[gameId := t.games[gameId].(status := Completed)]), true)
    else (t, false)
  }

  // ---------- Runs over the tables ----------

  datatype Op =
    | Create(host: int, name: seq<byte>, max: int, now: int)
    | Add(room: int, user: int)
    | Remove(user: int, pick: int)
    | StartGame(room: int, mapId: int)
    | StopGame(game: int)
    | Enrol(user: int)
    | Faulted

  function Apply(t: Tables, op: Op): Tables {
    match op
    case Create(h, n, m, now) => CreateRoom(t, h, n, m, now).0
    case Add(r, u) => AddPlayer(t, r, u).0
    case Remove(u, p) => RemovePlayer(t, u, p).0
    case StartGame(r, m) => CreateGame(t, r, m).0
    case StopGame(g) => EndGame(t, g).0
    case Enrol(u) => t.(users := t.users + {u})
    case Faulted => t
  }

  /** What the callers of the repositories always respect (the bounds check of createRoom included). */
  predicate Legal(t: Tables, op: Op) {
    match op
    case Create(h, n, m, now) => 2 <= m <= 8
    case Remove(u, p) => PickOk(t, u, p)
    case Enrol(u) => u > 0
    case _ => true
  }

  /** The disciplined callers: join only from no room (D1), start a game only in an open room (D2). */
  predicate Disciplined(t: Tables, op: Op) {
    match op
    case Add(r, u) => RoomsOf(t, u) == {}
    case StartGame(r, m) => r in t.rooms ==> t.rooms[r].status != Terminated
    case _ => true
  }

  ghost predicate Run(ts: seq<Tables>, ops: seq<Op>) {
    && |ts| == |ops| + 1
    && forall i :: 0 <= i < |ops| ==> Legal(ts[i], ops[i]) && ts[i + 1] == Apply(ts[i], ops[i])
  }

  ghost predicate DisciplinedRun(ts: seq<Tables>, ops: seq<Op>) {
    Run(ts, ops) && forall i :: 0 <= i < |ops| ==> Disciplined(ts[i], ops[i])
  }

  /** Foreign keys and the sequence; user ids are never negative. */
  ghost predicate SchemaOk(t: Tables) {
    && (forall m :: m in t.members ==> m.roomId in t.rooms && m.userId in t.users)
    && (forall g :: g in t.games ==> t.games[g].roomId in t.rooms && g < t.gameSeq)
    && (forall u :: u in t.users ==> u >= 0)
  }

  /** Holds in any run, with D1 and D2 not assumed. */
  ghost predicate AnyRunInv(t: Tables) {
    && SchemaOk(t)
    && (forall r :: r in t.rooms && t.rooms[r].status == Terminated ==> RowsIn(t, r) == {})
    && (forall r :: r in t.rooms ==> |RowsIn(t, r)| <= t.rooms[r].maxPlayers)
    && (forall g :: g in t.games && t.games[g].status == InProgress ==>
          t.rooms[t.games[g].roomId].status == GameInProgress)
  }

  ghost predicate OneRoomEach(t: Tables) {
    forall m, n :: m in t.members && n in t.members && m.userId == n.userId ==> m == n
  }

  /** Holds in disciplined runs: one room a user, and a slot is free exactly when it is empty. */
  ghost predicate DisciplinedInv(t: Tables) {
    && AnyRunInv(t)
    && OneRoomEach(t)
    && (forall r :: r in t.rooms ==> (t.rooms[r].status == Terminated <==> RowsIn(t, r) == {}))
  }

  /** What db-init.sql leaves: only free slots, with distinct ports, and nobody in them. */
  ghost predicate Initial(t: Tables) {
    && t.members == {} && t.games == map[]
    && (forall r :: r in t.rooms ==> t.rooms[r].status == Terminated && t.rooms[r].maxPlayers >= 0)
    && (forall u :: u in t.users ==> u >= 0)
    && DistinctPorts(t, t.rooms.Keys)
  }

  /** Rooms of the set rs never share a port. */
  ghost predicate DistinctPorts(t: Tables, rs: set<int>) {
    forall a, b :: a in rs && b in rs && a in t.rooms && b in t.rooms && a != b ==>
      t.rooms[a].port != t.rooms[b].port
  }

  const SEED_SLOTS: set<int> := {1, 2, 3, 4, 5, 6, 7, 8, 9, 10}

  /** The tables db-init.sql creates: user 0 and seven accounts, three maps, ten slots named room0 to room9. */
  function SeedTables(): Tables {
    Tables(map i: int | i in SEED_SLOTS ::
             Room([114, 111, 111, 109, 47 + i], 0, Some("127.0.0.1"), Some(40000 + i - 1), 8, Terminated, 0),
           {}, map[], {0, 1, 2, 3, 4, 5, 6, 7}, {1, 2, 3}, 1)
  }
}
