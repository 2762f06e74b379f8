/** The session objects and the server that registers them, each handler proved against its step. */
module ServerClasses {
  import opened Wrappers
  import opened RoomTables
  import opened RoomRuns
  import opened DbPoolClass
  import opened Repositories
  import opened SessionModel
  import opened SessionRuns
  import RoomName

  class Session {
    const id: SessionId
    var phase: Phase
    var userId: int
    var token: Token
    var status: Status
    var isMirror: bool
    var mirrorPort: int
    var lastActivity: int

    function Rec(): SessionRec
      reads this
    {
      SessionRec(phase, userId, token, status, isMirror, mirrorPort, lastActivity)
    }

    constructor (id: SessionId, now: int)
      ensures this.id == id && Rec() == NewSession(now)
    {
      this.id := id;
      phase, userId, token, status := Fresh, 0, "", Unset;
      isMirror, mirrorPort, lastActivity := false, 0, now;
    }

    method HandlePing(now: int)
      modifies this
      ensures Rec() == old(Rec()).(lastActivity := now)
    {
      lastActivity := now;
    }

    method IsActive(now: int) returns (b: bool)
      ensures b <==> now - lastActivity < 12 * SECOND
    {
      var elapsed := WholeSeconds(now - lastActivity);
      b := elapsed < TIMEOUT;
    }

    method InitCurrentUser(user: int)
      modifies this
      ensures Rec() == old(Rec()).(userId := user, status := Lobby)
    {
      userId := user;
      status := Lobby;
    }
  }

  class Server {
    var live: map<SessionId, Session>
    var nextId: nat
    var sessions: map<Token, SessionId>
    var tokens: map<int, Token>
    var mirrors: map<int, SessionId>
    const rooms: RoomRepository
    const games: GameRepository

    ghost function Objects(): set<Session>
      reads this
    {
      set i | i in live :: live[i]
    }

    ghost function View(): State
      reads this, Objects(), rooms.db
    {
      State(map i | i in live :: live[i].Rec(), nextId, sessions, tokens, mirrors, rooms.db.tables)
    }

    ghost predicate Valid()
      reads this, rooms.pool
    {
      && (forall i :: i in live ==> live[i].id == i)
      && rooms.pool.Valid() && games.db == rooms.db && games.pool == rooms.pool
    }

    constructor (db: Database, pool: DbPool)
      requires pool.Valid() && Initial(db.tables)
      ensures Valid() && fresh(this) && rooms.db == db && rooms.pool == pool
      ensures Start(View())
    {
      live, nextId, sessions, tokens, mirrors := map[], 0, map[], map[], map[];
      rooms := new RoomRepository(db, pool);
      games := new GameRepository(db, pool);
    }

    method Accept(now: int)
      requires Valid()
      modifies this
      ensures Valid() && View() == Next(old(View()), SessionModel.Accept, now)
    {
      ghost var before := View();
      var s := new Session(nextId, now);
      live := live[nextId := s];
      nextId := nextId + 1;
      assert View().live == before.live[before.nextId := NewSession(now)];
      assert View() == Next(before, SessionModel.Accept, now);
    }

    // ---------- Leaving ----------

    ghost predicate Working(io: Io)
      requires rooms.pool.Valid()
      reads rooms.pool
    {
      rooms.pool.Lends(io) && io.begins && io.failAt == 0
    }

    /** The exit that handle_error asks the room service for; its failures are swallowed. */
    method LeaveRooms(userId: int, pick: int, io: Io)
      requires Valid() && PickOk(rooms.db.tables, userId, pick)
      modifies rooms.db, rooms.pool
      ensures Valid() && View() == old(View()).(db := rooms.db.tables)
      ensures || rooms.db.tables == old(rooms.db.tables)
              || (userId > 0 && rooms.db.tables == RoomTables.RemovePlayer(old(rooms.db.tables), userId, pick).0)
      ensures old(Working(io)) && userId > 0 ==>
                rooms.db.tables == RoomTables.RemovePlayer(old(rooms.db.tables), userId, pick).0
    {
      ghost var before := View();
      if userId > 0 {
        var r := rooms.RemovePlayer(userId, pick, io);
      }
      assert View().live == before.live;
    }

    /** handle_error. */
    method HandleError(id: SessionId, pick: int, io: Io)
      requires Valid() && id in live && PickOk(rooms.db.tables, live[id].userId, pick)
      modifies live[id], rooms.db, rooms.pool
      ensures Valid()
      ensures || View() == SessionModel.HandleError(old(View()), id, pick, true)
              || View() == SessionModel.HandleError(old(View()), id, pick, false)
      ensures old(Working(io)) ==> View() == SessionModel.HandleError(old(View()), id, pick, false)
    {
      LeaveRooms(live[id].userId, pick, io);
      PutPhase(id, Closed);
    }

    method RemoveSession(token: Token, userId: int)
      requires Valid()
      modifies this`sessions, this`tokens
      ensures Valid()
      ensures View() == old(View()).(sessions := old(sessions) - {token}, tokens := old(tokens) - {userId})
    {
      ghost var before := View();
      if token in sessions {
        sessions := sessions - {token};
      }
      if userId in tokens {
        tokens := tokens - {userId};
      }
      assert sessions == before.sessions - {token} && tokens == before.tokens - {userId};
      assert View().live == before.live;
    }

    method RemoveMirrorSession(port: int)
      requires Valid()
      modifies this`mirrors
      ensures Valid() && View() == old(View()).(mirrors := old(mirrors) - {port})
    {
      ghost var before := View();
      if port in mirrors {
        mirrors := mirrors - {port};
      }
      assert mirrors == before.mirrors - {port};
      assert View().live == before.live;
    }

    method Forget(id: SessionId)
      requires Valid() && id in live
      modifies this`live
      ensures Valid() && View() == old(View()).(live := old(View()).live - {id})
    {
      ghost var before := View();
      live := live - {id};
      assert View().live == before.live - {id};
    }

    /** The destructor. */
    method Destroy(id: SessionId)
      requires Valid() && id in live
      modifies this`live, this`sessions, this`tokens, this`mirrors
      ensures Valid() && View() == DestroySession(old(View()), id)
    {
      var s := live[id];
      if s.isMirror {
        RemoveMirrorSession(s.mirrorPort);
      }
      if s.token != "" {
        RemoveSession(s.token, s.userId);
      }
      Forget(id);
    }

    // ---------- Registering ----------

    method MirrorHandshake(id: SessionId, port: int)
      requires Valid() && id in live && live[id].phase == Fresh
      modifies this, live[id]
      ensures Valid() && View() == Next(old(View()), SessionModel.MirrorHandshake(id, port), 0)
    {
      ghost var before := View();
      var s := live[id];
      s.isMirror, s.mirrorPort, s.phase := true, port, Open;
      mirrors := mirrors[port := id];
      s.userId := port;
      assert View().live == before.live[id := s.Rec()];
    }

    /** Drop the session's entry, stopping at the first one. */
    method DropEntry(id: SessionId)
      requires EntriesExactIn(sessions, id)
      modifies this`sessions
      ensures sessions == EraseOne(old(sessions), id)
    {
      ghost var before := sessions;
      var left := sessions.Keys;
      while left != {}
        invariant left <= sessions.Keys && sessions == before
        invariant forall t :: t in sessions && t !in left ==> sessions[t] != id
        decreases |left|
      {
        ghost var w := Witness(left);
        var t :| t in left;
        left := left - {t};
        if sessions[t] == id {
          sessions := sessions - {t};
          break;
        }
      }
    }

    /** registerSession. */
    method RegisterSession(id: SessionId, token: Token)
      requires Valid() && id in live && EntriesExactIn(sessions, id)
      modifies this`sessions, this`tokens
      ensures Valid()
      ensures View() == old(View()).(
                sessions := EraseOne(old(sessions), id)[token := id],
                tokens := if live[id].userId != 0 then old(tokens)[live[id].userId := token] else old(tokens))
    {
      ghost var before := View();
      DropEntry(id);
      sessions := sessions[token := id];
      if live[id].userId != 0 {
        tokens := tokens[live[id].userId := token];
      }
      assert View().live == before.live;
    }

    method PutPhase(id: SessionId, phase: Phase)
      requires Valid() && id in live
      modifies live[id]
      ensures Valid() && View() == old(View()).(live := old(View()).live[id := old(View()).live[id].(phase := phase)])
    {
      ghost var before := View();
      live[id].phase := phase;
      assert View().live == before.live[id := before.live[id].(phase := phase)];
    }

    method PutToken(id: SessionId, token: Token)
      requires Valid() && id in live
      modifies live[id]
      ensures Valid() && View() == old(View()).(live := old(View()).live[id := old(View()).live[id].(token := token)])
    {
      ghost var before := View();
      live[id].token := token;
      assert View().live == before.live[id := before.live[id].(token := token)];
    }

    method PutUser(id: SessionId, user: int)
      requires Valid() && id in live
      modifies live[id]
      ensures Valid()
      ensures View() == old(View()).(
                live := old(View()).live[id := old(View()).live[id].(userId := user, status := Lobby)])
    {
      ghost var before := View();
      live[id].InitCurrentUser(user);
      assert View().live == before.live[id := before.live[id].(userId := user, status := Lobby)];
    }

    /** registerSession and the caller's assignment of the token it returns. */
    method RegisterAs(id: SessionId, token: Token)
      requires Valid() && id in live && EntriesExactIn(sessions, id)
      modifies this`sessions, this`tokens, live[id]
      ensures Valid() && View() == Register(old(View()), id, token)
    {
      RegisterSession(id, token);
      PutToken(id, token);
    }

    /** initialize; it is also called for a session that was just refused and closed, which it does not reopen. */
    method Initialize(id: SessionId, token: Token)
      requires Valid() && id in live && EntriesExactIn(sessions, id)
      requires live[id].phase != Open && live[id].token == ""
      modifies this`sessions, this`tokens, live[id]
      ensures Valid()
      ensures View() == Register(old(Greeted(id)), id, token)
    {
      if live[id].phase == Fresh {
        PutPhase(id, Open);
      }
      RegisterAs(id, token);
    }

    ghost function Greeted(id: SessionId): State
      requires id in live
      reads this, Objects(), rooms.db
    {
      var st := View();
      if live[id].phase == Fresh then st.(live := st.live[id := st.live[id].(phase := Open)]) else st
    }

    /** init_current_user and the registration that follows it. */
    method Admit(id: SessionId, user: int, token: Token)
      requires Valid() && id in live && EntriesExactIn(sessions, id) && user !in tokens
      modifies this`sessions, this`tokens, live[id]
      ensures Valid() && View() == LoginSession(old(View()), id, user, token)
    {
      PutUser(id, user);
      RegisterAs(id, token);
    }

    /** A login the auth service accepted for the user. */
    method Login(id: SessionId, user: int, token: Token) returns (success: bool)
      requires Valid() && id in live && EntriesExactIn(sessions, id) && live[id].phase == Open
      modifies this`sessions, this`tokens, live[id]
      ensures Valid()
      ensures success <==> user !in old(tokens)
      ensures user in old(tokens) ==> View() == old(View())
      ensures user !in old(tokens) ==> View() == LoginSession(old(View()), id, user, token)
    {
      if user in tokens {
        return false;
      }
      Admit(id, user, token);
      success := true;
    }

    /** The login whose second lookup failed: the id -1 is stored, then reading the missing name raises. */
    method LoginUnresolved(id: SessionId)
      requires Valid() && id in live && live[id].phase == Open
      modifies live[id]
      ensures Valid()
      ensures View() == if -1 in tokens then old(View()) else Next(old(View()), LoginLookupFault(id), 0)
    {
      ghost var before := View();
      if -1 in tokens {
        return;
      }
      live[id].userId := -1;
      assert View().live == before.live[id := before.live[id].(userId := -1)];
    }

    method Ping(id: SessionId, now: int)
      requires Valid() && id in live && live[id].phase == Open
      modifies live[id]
      ensures Valid() && View() == Next(old(View()), SessionModel.Ping(id), now)
    {
      ghost var before := View();
      live[id].HandlePing(now);
      assert View().live == before.live[id := before.live[id].(lastActivity := now)];
    }

    // ---------- Room and game requests ----------

    method SetStatus(id: SessionId, status: Status)
      requires Valid() && id in live
      modifies live[id]
      ensures Valid() && View() == old(View()).(live := old(View()).live[id := old(View()).live[id].(status := status)])
    {
      ghost var before := View();
      live[id].status := status;
      assert View().live == before.live[id := before.live[id].(status := status)];
    }

    method GetMirrorSession(port: int) returns (r: Option<SessionId>)
      requires Valid()
      modifies this`mirrors
      ensures Valid() && r == MirrorAt(old(View()), port)
      ensures View() == old(View()).(mirrors := if r.None? then old(mirrors) - {port} else old(mirrors))
    {
      ghost var before := View();
      r := None;
      if port in mirrors {
        if mirrors[port] in live {
          r := Some(mirrors[port]);
        } else {
          mirrors := mirrors - {port};
        }
      } else {
        assert mirrors - {port} == mirrors;
      }
      assert View().live == before.live;
    }

    /** The request checks of createRoom. */
    method CheckCreate(name: Option<seq<byte>>, max: Option<int>) returns (ok: bool)
      ensures ok <==> WellFormedCreate(name, max)
    {
      if name.None? || max.None? {
        return false;
      }
      ok := RoomName.IsValidRoomName(name.value);
      if !ok {
        return;
      }
      ok := !(max.value < 2 || max.value > 8);
    }

    /** createRoom of the room service; None stands for the error response. */
    method CreateRoomService(userId: int, name: Option<seq<byte>>, max: Option<int>, now: int, io: Io)
      returns (r: Option<RoomInfo>)
      requires Valid()
      modifies rooms.db, rooms.pool
      ensures Valid() && View() == old(View()).(db := rooms.db.tables)
      ensures || (rooms.db.tables == old(rooms.db.tables) && r == None)
              || ServedCreate(old(rooms.db.tables), rooms.db.tables, userId, name, max, now, r)
      ensures old(Working(io)) ==>
                ServedCreate(old(rooms.db.tables), rooms.db.tables, userId, name, max, now, r)
    {
      ghost var before := View();
      r := None;
      var ok := CheckCreate(name, max);
      if !ok {
        return;
      }
      var reply := rooms.CreateRoomWithHost(userId, name.value, max.value, now, io);
      if reply.Value? {
        r := reply.value;
      }
      assert View().live == before.live;
    }

    /** The answer is an error after the commit when the client cannot be told where its room is. */
    method CreateRoom(id: SessionId, name: Option<seq<byte>>, max: Option<int>, now: int, io: Io)
      returns (success: bool)
      requires Valid() && id in live
      modifies this`mirrors, live[id], rooms.db, rooms.pool
      ensures Valid()
      ensures || (View() == After(old(View()), id, CreateRoomEffect(old(View()), id, name, max, true, now)) && !success)
              || CreateRoomDone(old(View()), id, name, max, now, View(), success)
      ensures old(Working(io)) ==> CreateRoomDone(old(View()), id, name, max, now, View(), success)
    {
      ghost var before := View();
      NoEffect(before, id);
      success := false;
      if live[id].userId == 0 {
        return;
      }
      var r := CreateRoomService(live[id].userId, name, max, now, io);
      ghost var mid := View();
      if ServedCreate(before.db, mid.db, before.live[id].userId, name, max, now, r) {
        ServedEffect(before, id, mid.db, name, max, now, r);
        ServedAnswer(before, id, mid.db, name, max, now, r);
      }
      if r.None? {
        return;
      }
      var mirror := GetMirrorSession(r.value.port);
      if mirror.None? {
        return;
      }
      SetStatus(id, InRoom(r.value.roomId));
      success := true;
    }

    method JoinRoomService(userId: int, roomId: Option<int>, io: Io) returns (ok: bool)
      requires Valid()
      modifies rooms.db, rooms.pool
      ensures Valid() && View() == old(View()).(db := rooms.db.tables)
      ensures || (rooms.db.tables == old(rooms.db.tables) && !ok)
              || (roomId.Some? && (rooms.db.tables, ok) == AddPlayer(old(rooms.db.tables), roomId.value, userId))
      ensures old(Working(io)) && roomId.Some? ==>
                (rooms.db.tables, ok) == AddPlayer(old(rooms.db.tables), roomId.value, userId)
    {
      ghost var before := View();
      ok := false;
      if roomId.Some? {
        var r := rooms.AddPlayer(roomId.value, userId, io);
        ok := r == Value(true);
      }
      assert View().live == before.live;
    }

    method JoinRoom(id: SessionId, roomId: Option<int>, io: Io) returns (success: bool)
      requires Valid() && id in live
      modifies live[id], rooms.db, rooms.pool
      ensures Valid()
      ensures || View() == After(old(View()), id, JoinRoomEffect(old(View()), id, roomId, true))
              || View() == After(old(View()), id, JoinRoomEffect(old(View()), id, roomId, false))
      ensures old(Working(io)) ==> View() == After(old(View()), id, JoinRoomEffect(old(View()), id, roomId, false))
      ensures success <==> rooms.db.tables != old(rooms.db.tables)
      ensures success ==> View().live[id].status == InRoom(roomId.value)
    {
      ghost var before := View();
      NoEffect(before, id);
      success := false;
      if live[id].userId == 0 {
        return;
      }
      success := JoinRoomService(live[id].userId, roomId, io);
      if roomId.Some? {
        AnswerMeansChange(before.db, roomId.value, before.live[id].userId);
      }
      if success {
        SetStatus(id, InRoom(roomId.value));
      }
    }

    method ExitRoomService(userId: int, pick: int, io: Io) returns (ok: bool)
      requires Valid() && PickOk(rooms.db.tables, userId, pick)
      modifies rooms.db, rooms.pool
      ensures Valid() && View() == old(View()).(db := rooms.db.tables)
      ensures || (rooms.db.tables == old(rooms.db.tables) && !ok)
              || (rooms.db.tables, ok) == RemovePlayer(old(rooms.db.tables), userId, pick)
      ensures old(Working(io)) ==> (rooms.db.tables, ok) == RemovePlayer(old(rooms.db.tables), userId, pick)
    {
      ghost var before := View();
      RemovalSucceeds(rooms.db.tables, userId, pick);
      var r := rooms.RemovePlayer(userId, pick, io);
      ok := r == Value(true);
      assert View().live == before.live;
    }

    method ExitRoom(id: SessionId, pick: int, io: Io) returns (success: bool)
      requires Valid() && id in live && PickOk(rooms.db.tables, live[id].userId, pick)
      modifies live[id], rooms.db, rooms.pool
      ensures Valid()
      ensures || View() == After(old(View()), id, ExitRoomEffect(old(View()), id, pick, true))
              || View() == After(old(View()), id, ExitRoomEffect(old(View()), id, pick, false))
      ensures old(Working(io)) ==> View() == After(old(View()), id, ExitRoomEffect(old(View()), id, pick, false))
      ensures success <==> rooms.db.tables != old(rooms.db.tables)
      ensures success ==> View().live[id].status == Lobby
    {
      ghost var before := View();
      NoEffect(before, id);
      success := false;
      if live[id].userId == 0 {
        return;
      }
      success := ExitRoomService(live[id].userId, pick, io);
      ExitMeansChange(before.db, before.live[id].userId, pick);
      if success {
        SetStatus(id, Lobby);
      }
    }

    /** gameStart: the repository answers with game id -1, so the service never answers success. */
    method GameStart(id: SessionId, roomId: int, mapId: int, io: Io) returns (success: bool)
      requires Valid() && id in live
      modifies rooms.db, rooms.pool
      ensures Valid() && !success
      ensures || View() == After(old(View()), id, GameStartEffect(old(View()), id, roomId, mapId, true))
              || View() == After(old(View()), id, GameStartEffect(old(View()), id, roomId, mapId, false))
      ensures old(Working(io)) ==>
                View() == After(old(View()), id, GameStartEffect(old(View()), id, roomId, mapId, false))
    {
      ghost var before := View();
      NoEffect(before, id);
      if live[id].userId == 0 || !live[id].isMirror {
        return false;
      }
      var r := games.CreateGame(roomId, mapId, io);
      success := r.Value? && r.value.gameId != -1;
      assert View().live == before.live;
      assert before.live[id := before.live[id]] == before.live;
    }

    method GameEnd(id: SessionId, gameId: int, io: Io) returns (success: bool)
      requires Valid() && id in live
      modifies rooms.db, rooms.pool
      ensures Valid() && !success
      ensures || View() == After(old(View()), id, GameEndEffect(old(View()), id, gameId, true))
              || View() == After(old(View()), id, GameEndEffect(old(View()), id, gameId, false))
      ensures old(Working(io)) ==> View() == After(old(View()), id, GameEndEffect(old(View()), id, gameId, false))
    {
      ghost var before := View();
      NoEffect(before, id);
      if live[id].userId == 0 || !live[id].isMirror {
        return false;
      }
      var r := games.EndGame(gameId, io);
      success := r.Value? && r.value.gameId != -1;
      assert View().live == before.live;
      assert before.live[id := before.live[id]] == before.live;
    }

    // ---------- Broadcasts ----------

    ghost predicate Waits(id: SessionId)
      requires id in live
      reads this, Objects()
    {
      live[id].userId != 0 && live[id].status == Lobby
    }

    /** getWaitingSessions: every registered waiting session, each exactly once. */
    method GetWaitingSessions() returns (waiting: seq<SessionId>)
      requires Valid() && forall i :: EntriesExactIn(sessions, i)
      ensures forall i :: i in waiting <==> exists t :: t in sessions && sessions[t] == i && i in live && Waits(i)
      ensures forall a, b :: 0 <= a < b < |waiting| ==> waiting[a] != waiting[b]
    {
      waiting := [];
      var left := sessions.Keys;
      while left != {}
        invariant left <= sessions.Keys
        invariant forall i :: i in waiting <==>
                    exists t :: t in sessions && t !in left && sessions[t] == i && i in live && Waits(i)
        invariant forall a, b :: 0 <= a < b < |waiting| ==> waiting[a] != waiting[b]
        decreases |left|
      {
        ghost var w := Witness(left);
        var t :| t in left;
        ghost var had := left;
        left := left - {t};
        var i := sessions[t];
        assert EntriesExactIn(sessions, i) && t in had;
        assert forall x :: x in sessions && x !in had ==> sessions[x] != i;
        if i in live && live[i].userId != 0 && live[i].status == Lobby {
          waiting := waiting + [i];
        }
      }
    }

    method MarkUser(user: int, status: Status)
      requires Valid() && forall t :: t in sessions ==> sessions[t] in live
      modifies Objects()
      ensures Valid()
      ensures forall i :: i in live ==>
                live[i].Rec() == Marked(old(live[i].Rec()), Names(tokens, sessions, user, i), status)
    {
      if user in tokens && tokens[user] in sessions {
        live[sessions[tokens[user]]].status := status;
      }
    }

    /** setSessionStatus: the weak pointers are locked without a check, so each must be alive. */
    method SetSessionStatus(users: seq<int>, playing: bool)
      requires Valid() && forall t :: t in sessions ==> sessions[t] in live
      modifies Objects()
      ensures Valid()
      ensures forall i :: i in live ==>
                live[i].Rec() == Marked(old(live[i].Rec()), NamedBy(tokens, sessions, users, i),
                                        if playing then Playing else Lobby)
    {
      ghost var before := View();
      var status := if playing then Playing else Lobby;
      for k := 0 to |users|
        invariant Valid()
        invariant forall i :: i in live ==>
                    live[i].Rec() == Marked(before.live[i], NamedBy(tokens, sessions, users[..k], i), status)
      {
        MarkUser(users[k], status);
        OneMoreNamed(tokens, sessions, users, k);
      }
      assert users[..|users|] == users;
    }

    // ---------- The sweep ----------

    method DropToken(token: Token)
      requires Valid()
      modifies this`sessions
      ensures Valid() && View() == old(View()).(sessions := old(sessions) - {token})
    {
      ghost var before := View();
      sessions := sessions - {token};
      assert View().live == before.live;
    }

    /** The second pass for one collected token. */
    method EvictOne(token: Token, io: Io) returns (ghost v: Victim)
      requires Valid()
      modifies this`sessions, Objects(), rooms.db, rooms.pool
      ensures Valid() && v.token == token && VictimPickOk(old(View()), v)
      ensures View() == Evict(old(View()), v)
    {
      v := Victim(token, 0, false);
      if token !in sessions {
        return;
      }
      var id := sessions[token];
      DropToken(token);
      if id !in live {
        return;
      }
      var found := RoomsOf(rooms.db.tables, live[id].userId);
      var pick := 0;
      if found != {} {
        ghost var w := Witness(found);
        pick :| pick in found;
      }
      ghost var mid := View();
      HandleError(id, pick, io);
      v := Victim(token, pick, View() != SessionModel.HandleError(mid, id, pick, false));
    }

    /** The first pass: the entries that are dead or inactive, each once. */
    method CollectInactive(now: int) returns (list: seq<Token>)
      requires Valid()
      ensures forall i, j :: 0 <= i < j < |list| ==> list[i] != list[j]
      ensures (set i | 0 <= i < |list| :: list[i]) == TimedOut(View(), now)
    {
      list := [];
      var left := sessions.Keys;
      while left != {}
        invariant left <= sessions.Keys
        invariant forall i, j :: 0 <= i < j < |list| ==> list[i] != list[j]
        invariant forall t :: t in list <==> t in TimedOut(View(), now) && t !in left
        decreases |left|
      {
        ghost var w := Witness(left);
        var t :| t in left;
        var inactive := sessions[t] !in live;
        if !inactive {
          var active := live[sessions[t]].IsActive(now);
          inactive := !active;
        }
        left := left - {t};
        if inactive {
          list := list + [t];
        }
      }
    }

    /** check_inactive_sessions. */
    method CheckInactiveSessions(now: int, io: Token -> Io) returns (ghost vs: seq<Victim>)
      requires Valid()
      modifies this`sessions, Objects(), rooms.db, rooms.pool
      ensures Valid() && SweepOk(old(View()), vs, now) && View() == EvictAll(old(View()), vs)
    {
      ghost var before := View();
      var list := CollectInactive(now);
      vs := [];
      var k := 0;
      while k < |list|
        invariant 0 <= k <= |list| && |vs| == k && Valid() && live == old(live)
        invariant View() == EvictAll(before, vs)
        invariant TokensAre(vs, list[..k]) && PicksSoFar(before, vs)
      {
        var v := EvictOne(list[k], io(list[k]));
        OneMoreVictim(before, vs, v, list, k);
        vs := vs + [v];
        k := k + 1;
      }
      assert list[..|list|] == list;
      AllVictims(before, vs, list, now);
    }
  }

  /** The token of the user is registered for the session. */
  ghost predicate Names(tokens: map<int, Token>, sessions: map<Token, SessionId>, user: int, i: SessionId) {
    user in tokens && tokens[user] in sessions && sessions[tokens[user]] == i
  }

  ghost predicate NamedBy(tokens: map<int, Token>, sessions: map<Token, SessionId>, users: seq<int>, i: SessionId) {
    exists u :: u in users && Names(tokens, sessions, u, i)
  }

  lemma OneMoreNamed(tokens: map<int, Token>, sessions: map<Token, SessionId>, users: seq<int>, k: nat)
    requires k < |users|
    ensures forall i :: NamedBy(tokens, sessions, users[..k + 1], i) <==>
                          NamedBy(tokens, sessions, users[..k], i) || Names(tokens, sessions, users[k], i)
  {
    assert users[..k + 1] == users[..k] + [users[k]];
  }

  /** What becomes of a session that is, or is not, among those whose status is set. */
  function Marked(s: SessionRec, named: bool, status: Status): SessionRec {
    if named then s.(status := status) else s
  }

  ghost predicate TokensAre(vs: seq<Victim>, list: seq<Token>) {
    |vs| == |list| && forall i :: 0 <= i < |vs| ==> vs[i].token == list[i]
  }

  ghost predicate PicksSoFar(st: State, vs: seq<Victim>) {
    forall i :: 0 <= i < |vs| ==> VictimPickOk(EvictAll(st, vs[..i]), vs[i])
  }

  lemma OneMoreVictim(st: State, vs: seq<Victim>, v: Victim, list: seq<Token>, k: nat)
    requires k < |list| && TokensAre(vs, list[..k]) && PicksSoFar(st, vs)
    requires v.token == list[k] && VictimPickOk(EvictAll(st, vs), v)
    ensures TokensAre(vs + [v], list[..k + 1]) && PicksSoFar(st, vs + [v])
    ensures EvictAll(st, vs + [v]) == Evict(EvictAll(st, vs), v)
  {
    var ws := vs + [v];
    assert ws[..|ws| - 1] == vs;
    forall i | 0 <= i < |ws| ensures VictimPickOk(EvictAll(st, ws[..i]), ws[i]) {
      assert ws[..i] == vs[..i];
      assert vs[..|vs|] == vs;
    }
  }

  lemma AllVictims(st: State, vs: seq<Victim>, list: seq<Token>, now: int)
    requires TokensAre(vs, list) && PicksSoFar(st, vs)
    requires forall i, j :: 0 <= i < j < |list| ==> list[i] != list[j]
    requires (set i | 0 <= i < |list| :: list[i]) == TimedOut(st, now)
    ensures SweepOk(st, vs, now)
  {
    var a, b := (set i | 0 <= i < |vs| :: vs[i].token), (set i | 0 <= i < |list| :: list[i]);
    forall t | t in a ensures t in b {
      var i :| 0 <= i < |vs| && vs[i].token == t;
      assert list[i] == t;
    }
    forall t | t in b ensures t in a {
      var i :| 0 <= i < |list| && list[i] == t;
      assert vs[i].token == t;
    }
    assert a == b;
  }

  /** A session has one entry at most. */
  ghost predicate EntriesExactIn(m: map<Token, SessionId>, id: SessionId) {
    forall t, u :: t in m && u in m && m[t] == id && m[u] == id ==> t == u
  }

  lemma ExactEntries(st: State, id: SessionId)
    requires EntriesExact(st)
    ensures EntriesExactIn(st.sessions, id)
  {
  }

  predicate WellFormedCreate(name: Option<seq<byte>>, max: Option<int>) {
    name.Some? && max.Some? && RoomName.ValidRoomName(name.value) && 2 <= max.value <= 8
  }

  /** What createRoom of the room service did and answered when no call failed. */
  ghost predicate ServedCreate(t: Tables, t': Tables, userId: int, name: Option<seq<byte>>, max: Option<int>, now: int,
                               r: Option<RoomInfo>)
  {
    if !WellFormedCreate(name, max) then t' == t && r == None
    else
      var reply := CreateReply(t, userId, name.value, max.value, now);
      t' == RoomTables.CreateRoom(t, userId, name.value, max.value, now).0
      && r == if reply.Raised? then None else reply.value
  }

  lemma RemovalSucceeds(t: Tables, userId: int, pick: int)
    ensures RemovePlayer(t, userId, pick).1 <==> RoomsOf(t, userId) != {}
  {
  }

  lemma AnswerMeansChange(t: Tables, roomId: int, userId: int)
    ensures AddPlayer(t, roomId, userId).1 <==> AddPlayer(t, roomId, userId).0 != t
  {
    assert CanAdd(t, roomId, userId) ==> Member(roomId, userId) in AddPlayer(t, roomId, userId).0.members;
  }

  lemma ExitMeansChange(t: Tables, userId: int, pick: int)
    ensures RemovePlayer(t, userId, pick).1 <==> RemovePlayer(t, userId, pick).0 != t
  {
    RoomsOfRows(t, userId);
    RemovedRows(t, userId, pick);
  }

  lemma NoEffect(st: State, id: SessionId)
    requires id in st.live
    ensures After(st, id, Untouched(st, id)) == st
  {
    assert st.live[id := st.live[id]] == st.live;
  }

  /** The request is in order, its user exists and is in no room, and a slot is free. */
  ghost predicate Grantable(st: State, id: SessionId, name: Option<seq<byte>>, max: Option<int>)
    requires id in st.live
  {
    var u := st.live[id].userId;
    WellFormedCreate(name, max) && u != 0 && u in st.db.users && RoomsOf(st.db, u) == {} && FreeRooms(st.db) != {}
  }

  /** The next slot has no address, or no live mirror at its port. */
  ghost predicate NextSlotUnreachable(st: State)
    requires FreeRooms(st.db) != {}
  {
    var room := st.db.rooms[Least(FreeRooms(st.db))];
    room.ip.None? || room.port.None? || MirrorAt(st, room.port.value).None?
  }

  /** createRoom without a database failure: what it leaves and what it answers. */
  ghost predicate CreateRoomDone(st: State, id: SessionId, name: Option<seq<byte>>, max: Option<int>, now: int,
                                 st': State, success: bool)
    requires id in st.live
  {
    && st' == After(st, id, CreateRoomEffect(st, id, name, max, false, now))
    && (success <==> Grantable(st, id, name, max) && !NextSlotUnreachable(st))
  }

  /** The tables change exactly when the request can be granted, so createRoom answers an error with changed tables
      exactly when it can be granted and the next slot is unreachable; a success shows the least free slot. */
  lemma CreateErrsAfterCommitExactly(st: State, id: SessionId, name: Option<seq<byte>>, max: Option<int>, now: int,
                                     st': State, success: bool)
    requires id in st.live && CreateRoomDone(st, id, name, max, now, st', success)
    ensures st'.db != st.db && !success <==> Grantable(st, id, name, max) && NextSlotUnreachable(st)
    ensures st'.db != st.db && success <==> Grantable(st, id, name, max) && !NextSlotUnreachable(st)
    ensures success ==> st'.live[id].status == InRoom(Least(FreeRooms(st.db)))
                        && Member(Least(FreeRooms(st.db)), st.live[id].userId) in st'.db.members
    ensures !success ==> st'.live[id].status == st.live[id].status
  {
    if Grantable(st, id, name, max) {
      var r, u := Least(FreeRooms(st.db)), st.live[id].userId;
      assert st'.db == RoomTables.CreateRoom(st.db, u, name.value, max.value, now).0;
      assert st.db.rooms[r].status == Terminated && st'.db.rooms[r].status == Waiting;
    }
  }

  lemma ServedAnswer(st: State, id: SessionId, db: Tables, name: Option<seq<byte>>, max: Option<int>, now: int,
                     r: Option<RoomInfo>)
    requires id in st.live && st.live[id].userId != 0
    requires ServedCreate(st.db, db, st.live[id].userId, name, max, now, r)
    ensures r.Some? && MirrorAt(st, r.value.port).Some? <==> Grantable(st, id, name, max) && !NextSlotUnreachable(st)
  {
  }

  /** The answer of the service and the mirror lookup make up the effect of the request. */
  lemma ServedEffect(st: State, id: SessionId, db: Tables, name: Option<seq<byte>>, max: Option<int>, now: int,
                     r: Option<RoomInfo>)
    requires id in st.live && st.live[id].userId != 0
    requires ServedCreate(st.db, db, st.live[id].userId, name, max, now, r)
    ensures CreateRoomEffect(st, id, name, max, false, now)
         == if r.None? then Untouched(st, id).(db := db)
            else if MirrorAt(st, r.value.port).None? then Effect(db, st.live[id].status, st.mirrors - {r.value.port})
            else Effect(db, InRoom(r.value.roomId), st.mirrors)
  {
  }
}
