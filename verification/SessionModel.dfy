/** The session registry and the sessions that drive the tables, one handler a step.
    All handlers run on one thread, so a handler is atomic. */
module SessionModel {
  import opened Wrappers
  import opened RoomTables
  import RoomName

  type SessionId = nat
  type Token = string

  /** A session is destroyed when it leaves the map of live sessions. */
  datatype Phase = Fresh | Open | Closed
  datatype Status = Unset | Lobby | InRoom(roomId: int) | Playing
  datatype SessionRec = SessionRec(phase: Phase, userId: int, token: Token, status: Status,
                                   isMirror: bool, mirrorPort: int, lastActivity: int)

  /** sessions, tokens and mirrors are the three registry maps; a weak pointer is a session id,
      and locking it is looking the id up in live. */
  datatype State = State(live: map<SessionId, SessionRec>, nextId: nat, sessions: map<Token, SessionId>,
                         tokens: map<int, Token>, mirrors: map<int, SessionId>, db: Tables)

  /** One entry the sweep evicts: the room found first for its user, and whether the database failed. */
  datatype Victim = Victim(token: Token, pick: int, fault: bool)

  datatype Step =
    | Accept
    | MirrorHandshake(id: SessionId, port: int)
    | ClientHandshake(id: SessionId, token: Token)
    | Login(id: SessionId, user: int, token: Token)
    | LoginLookupFault(id: SessionId)
    | NewUser(user: int)
    | CreateRoomReq(id: SessionId, name: Option<seq<byte>>, max: Option<int>, fault: bool)
    | JoinRoomReq(id: SessionId, room: Option<int>, fault: bool)
    | ExitRoomReq(id: SessionId, pick: int, fault: bool)
    | GameStartReq(id: SessionId, gameRoom: int, mapId: int, fault: bool)
    | GameEndReq(id: SessionId, game: int, fault: bool)
    | Ping(id: SessionId)
    | Close(id: SessionId, pick: int, fault: bool)
    | Destroy(id: SessionId)
    | Sweep(victims: seq<Victim>)

  // ---------- Time ----------

  const SECOND := 1_000_000_000
  const TIMEOUT := 12

  /** duration_cast to seconds truncates toward zero. */
  function WholeSeconds(ns: int): int {
    if ns >= 0 then ns / SECOND else -(-ns / SECOND)
  }

  predicate IsActive(s: SessionRec, now: int) {
    WholeSeconds(now - s.lastActivity) < TIMEOUT
  }

  // ---------- Registry operations ----------

  /** registerSession stops after the first entry of the session it meets. */
  ghost function EraseOne(m: map<Token, SessionId>, id: SessionId): map<Token, SessionId> {
    if exists t :: t in m && m[t] == id then
      var t :| t in m && m[t] == id;
      m - {t}
    else m
  }

  /** registerSession, and the caller's assignment of the new token to the session. */
  ghost function Register(st: State, id: SessionId, token: Token): State
    requires id in st.live
  {
    var s := st.live[id];
    st.(sessions := EraseOne(st.sessions, id)[token := id],
        tokens := if s.userId != 0 then st.tokens[s.userId := token] else st.tokens,
        live := st.live[id := s.(token := token)])
  }

  /** A uuid that occurs nowhere yet. */
  ghost predicate FreshToken(st: State, token: Token) {
    && token != ""
    && token !in st.sessions
    && (forall u :: u in st.tokens ==> st.tokens[u] != token)
    && (forall i :: i in st.live ==> st.live[i].token != token)
  }

  /** handle_error: leave the room if a user is known, then close the socket; nothing else is reset. */
  function HandleError(st: State, id: SessionId, pick: int, fault: bool): State
    requires id in st.live
  {
    var s := st.live[id];
    st.(db := if s.userId > 0 && !fault then RemovePlayer(st.db, s.userId, pick).0 else st.db,
        live := st.live[id := s.(phase := Closed)])
  }

  /** getMirrorSession; it also drops the entry of a destroyed session. */
  function MirrorAt(st: State, port: int): Option<SessionId> {
    if port in st.mirrors && st.mirrors[port] in st.live then Some(st.mirrors[port]) else None
  }

  /** The destructor. */
  function DestroySession(st: State, id: SessionId): State
    requires id in st.live
  {
    var s := st.live[id];
    st.(live := st.live - {id},
        mirrors := if s.isMirror then st.mirrors - {s.mirrorPort} else st.mirrors,
        sessions := if s.token != "" then st.sessions - {s.token} else st.sessions,
        tokens := if s.token != "" then st.tokens - {s.userId} else st.tokens)
  }

  // ---------- Requests ----------

  ghost function LoginSession(st: State, id: SessionId, user: int, token: Token): State
    requires id in st.live
  {
    if user in st.tokens then st
    else Register(st.(live := st.live[id := st.live[id].(userId := user, status := Lobby)]), id, token)
  }

  /** What a room or game request leaves: the tables, the status of the session, the mirror map. */
  datatype Effect = Effect(db: Tables, status: Status, mirrors: map<int, SessionId>)

  function After(st: State, id: SessionId, e: Effect): State
    requires id in st.live
  {
    st.(db := e.db, mirrors := e.mirrors, live := st.live[id := st.live[id].(status := e.status)])
  }

  function Untouched(st: State, id: SessionId): Effect
    requires id in st.live
  {
    Effect(st.db, st.live[id].status, st.mirrors)
  }

  function CreateRoomEffect(st: State, id: SessionId, name: Option<seq<byte>>, max: Option<int>,
                            fault: bool, now: int): Effect
    requires id in st.live
  {
    var s, none := st.live[id], Untouched(st, id);
    if s.userId == 0 || name.None? || max.None? || fault then none
    else if !RoomName.ValidRoomName(name.value) || max.value < 2 || max.value > 8 then none
    else
      var (db, r) := CreateRoom(st.db, s.userId, name.value, max.value, now);
      if r.None? then none
      else
        var room := db.rooms[r.value];
        // a missing address makes the repository report a failure after its commit
        if room.ip.None? || room.port.None? then none.(db := db)
        else if MirrorAt(st, room.port.value).None? then
          none.(db := db, mirrors := st.mirrors - {room.port.value})
        else Effect(db, InRoom(r.value), st.mirrors)
  }

  function JoinRoomEffect(st: State, id: SessionId, room: Option<int>, fault: bool): Effect
    requires id in st.live
  {
    var s, none := st.live[id], Untouched(st, id);
    if s.userId == 0 || room.None? || fault then none
    else
      var (db, ok) := AddPlayer(st.db, room.value, s.userId);
      if ok then none.(db := db, status := InRoom(room.value)) else none
  }

  function ExitRoomEffect(st: State, id: SessionId, pick: int, fault: bool): Effect
    requires id in st.live
  {
    var s, none := st.live[id], Untouched(st, id);
    if s.userId == 0 || fault then none
    else
      var (db, ok) := RemovePlayer(st.db, s.userId, pick);
      if ok then none.(db := db, status := Lobby) else none
  }

  /** The repository never fills in gameId, so no status follows either request. */
  function GameStartEffect(st: State, id: SessionId, room: int, mapId: int, fault: bool): Effect
    requires id in st.live
  {
    var s, none := st.live[id], Untouched(st, id);
    if s.userId == 0 || !s.isMirror || fault then none else none.(db := CreateGame(st.db, room, mapId).0)
  }

  function GameEndEffect(st: State, id: SessionId, game: int, fault: bool): Effect
    requires id in st.live
  {
    var s, none := st.live[id], Untouched(st, id);
    if s.userId == 0 || !s.isMirror || fault then none else none.(db := EndGame(st.db, game).0)
  }

  // ---------- The sweep ----------

  function TimedOut(st: State, now: int): set<Token> {
    set t | t in st.sessions && (st.sessions[t] !in st.live || !IsActive(st.live[st.sessions[t]], now))
  }

  function Evict(st: State, v: Victim): State {
    if v.token !in st.sessions then st
    else
      var id := st.sessions[v.token];
      var st1 := st.(sessions := st.sessions - {v.token});
      if id in st.live then HandleError(st1, id, v.pick, v.fault) else st1
  }

  function EvictAll(st: State, vs: seq<Victim>): State {
    if vs == [] then st else Evict(EvictAll(st, vs[..|vs| - 1]), vs[|vs| - 1])
  }

  predicate VictimPickOk(st: State, v: Victim) {
    v.token in st.sessions && st.sessions[v.token] in st.live ==>
      PickOk(st.db, st.live[st.sessions[v.token]].userId, v.pick)
  }

  /** The victims are the timed-out entries, each once, in the order of the map. */
  ghost predicate SweepOk(st: State, vs: seq<Victim>, now: int) {
    && (forall i, j :: 0 <= i < j < |vs| ==> vs[i].token != vs[j].token)
    && (set i | 0 <= i < |vs| :: vs[i].token) == TimedOut(st, now)
    && (forall i :: 0 <= i < |vs| ==> VictimPickOk(EvictAll(st, vs[..i]), vs[i]))
  }

  // ---------- Steps ----------

  function NewSession(now: int): SessionRec {
    SessionRec(Fresh, 0, "", Unset, false, 0, now)
  }

  /** The session a step belongs to, if any. */
  function Actor(step: Step): Option<SessionId> {
    if step.Accept? || step.NewUser? || step.Sweep? then None else Some(step.id)
  }

  ghost predicate Enabled(st: State, step: Step, now: int) {
    && (Actor(step).Some? ==> Actor(step).value in st.live)
    && match step
       case Accept => true
       case MirrorHandshake(id, port) => st.live[id].phase == Fresh
       case ClientHandshake(id, token) => st.live[id].phase == Fresh && FreshToken(st, token)
       case Login(id, user, token) => st.live[id].phase == Open && user in st.db.users && FreshToken(st, token)
       case NewUser(user) => user > 0 && user !in st.db.users
       case ExitRoomReq(id, pick, fault) => st.live[id].phase == Open && PickOk(st.db, st.live[id].userId, pick)
       case Close(id, pick, fault) => PickOk(st.db, st.live[id].userId, pick)
       case Destroy(id) => st.live[id].phase == Closed
       case Sweep(vs) => SweepOk(st, vs, now)
       case _ => st.live[step.id].phase == Open
  }

  ghost function Next(st: State, step: Step, now: int): State
    requires Enabled(st, step, now)
  {
    match step
    case Accept => st.(live := st.live[st.nextId := NewSession(now)], nextId := st.nextId + 1)
    case MirrorHandshake(id, port) =>
      st.(live := st.live[id := st.live[id].(phase := Open, isMirror := true, mirrorPort := port, userId := port)],
          mirrors := st.mirrors[port := id])
    case ClientHandshake(id, token) =>
      Register(st.(live := st.live[id := st.live[id].(phase := Open)]), id, token)
    case Login(id, user, token) => LoginSession(st, id, user, token)
    // the second lookup of registerCheckAndLogin failed: the id -1 is stored, then reading the name raises
    case LoginLookupFault(id) => st.(live := st.live[id := st.live[id].(userId := -1)])
    case NewUser(user) => st.(db := st.db.(users := st.db.users + {user}))
    case CreateRoomReq(id, name, max, fault) => After(st, id, CreateRoomEffect(st, id, name, max, fault, now))
    case JoinRoomReq(id, room, fault) => After(st, id, JoinRoomEffect(st, id, room, fault))
    case ExitRoomReq(id, pick, fault) => After(st, id, ExitRoomEffect(st, id, pick, fault))
    case GameStartReq(id, room, mapId, fault) => After(st, id, GameStartEffect(st, id, room, mapId, fault))
    case GameEndReq(id, game, fault) => After(st, id, GameEndEffect(st, id, game, fault))
    case Ping(id) => st.(live := st.live[id := st.live[id].(lastActivity := now)])
    case Close(id, pick, fault) => HandleError(st, id, pick, fault)
    case Destroy(id) => DestroySession(st, id)
    case Sweep(vs) => EvictAll(st, vs)
  }

  // ---------- Runs ----------

  ghost predicate Start(st: State) {
    st.live == map[] && st.sessions == map[] && st.tokens == map[] && st.mirrors == map[] && Initial(st.db)
  }

  /** Step i happens at times[i] and leads from sts[i] to sts[i + 1]. */
  ghost predicate ServerRun(sts: seq<State>, steps: seq<Step>, times: seq<int>) {
    && |sts| == |steps| + 1 == |times| + 1
    && forall i :: 0 <= i < |steps| ==> StepAt(sts, steps, times, i)
  }

  ghost predicate StepAt(sts: seq<State>, steps: seq<Step>, times: seq<int>, i: nat)
    requires |sts| == |steps| + 1 == |times| + 1 && i < |steps|
  {
    Enabled(sts[i], steps[i], times[i]) && sts[i + 1] == Next(sts[i], steps[i], times[i])
  }

  /** D4: no mirror port is the id of a user. */
  ghost predicate PortsAreNotUsers(st: State) {
    forall i :: i in st.live && st.live[i].isMirror ==> st.live[i].mirrorPort !in st.db.users
  }

  ghost predicate NoFault(step: Step) {
    match step
    case LoginLookupFault(id) => false
    case CreateRoomReq(id, name, max, fault) => !fault
    case JoinRoomReq(id, room, fault) => !fault
    case ExitRoomReq(id, pick, fault) => !fault
    case GameStartReq(id, room, mapId, fault) => !fault
    case GameEndReq(id, game, fault) => !fault
    case Close(id, pick, fault) => !fault
    case Sweep(vs) => forall v :: v in vs ==> !v.fault
    case _ => true
  }

  /** D1, D2 and D3. */
  ghost predicate Guarded(st: State, step: Step) {
    && (Actor(step).Some? ==> Actor(step).value in st.live)
    && match step
       case JoinRoomReq(id, room, fault) => RoomsOf(st.db, st.live[id].userId) == {}
       case GameStartReq(id, room, mapId, fault) => room in st.db.rooms ==> st.db.rooms[room].status != Terminated
       case Login(id, user, token) => st.live[id].userId == 0
       case _ => true
  }

  /** D4 in every state of the run. */
  ghost predicate PortsApart(sts: seq<State>) {
    forall i :: 0 <= i < |sts| ==> PortsAreNotUsers(sts[i])
  }

  /** A disciplined run without database failures: D1 to D4 throughout. */
  ghost predicate DisciplinedServerRun(sts: seq<State>, steps: seq<Step>, times: seq<int>) {
    && ServerRun(sts, steps, times) && PortsApart(sts)
    && forall i :: 0 <= i < |steps| ==> Guarded(sts[i], steps[i]) && NoFault(steps[i])
  }
}
