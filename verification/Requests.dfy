/** When a request of a session has an effect, and which, in the terms of the client. */
module Requests {
  import opened Wrappers
  import opened RoomTables
  import opened RoomRuns
  import opened SessionModel
  import opened SessionRuns
  import opened Transactions
  import RoomName

  /** The state changes only in the tables and in the status of one session. */
  ghost predicate OnlyRoomOf(st: State, st': State, id: SessionId)
    requires id in st.live
  {
    && id in st'.live
    && st' == st.(db := st'.db, live := st.live[id := st.live[id].(status := st'.live[id].status)])
  }

  ghost predicate Seated(t: Tables, user: int) {
    exists m :: m in t.members && m.userId == user
  }

  /** createRoom of a session takes effect exactly for a logged-in user without a seat, a valid name and 2 to 8
      players, while a slot is free. */
  lemma CreateRequestExactly(st: State, id: SessionId, name: Option<seq<byte>>, max: Option<int>, now: int)
    requires id in st.live
    ensures var s, d := st.live[id], After(st, id, CreateRoomEffect(st, id, name, max, false, now));
            && (d.db != st.db <==>
                  && s.userId != 0 && name.Some? && max.Some? && RoomName.ValidRoomName(name.value)
                  && 2 <= max.value <= 8 && s.userId in st.db.users && !Seated(st.db, s.userId)
                  && exists r :: r in st.db.rooms && st.db.rooms[r].status == Terminated)
            && (d.db != st.db ==> d.db == CreateRoom(st.db, s.userId, name.value, max.value, now).0)
            && (d.db == st.db ==> d == st)
  {
    var s, d := st.live[id], After(st, id, CreateRoomEffect(st, id, name, max, false, now));
    if name.Some? && max.Some? {
      CreateRoomSucceedsExactly(st.db, s.userId, name.value, max.value, now);
      CreateRoomWrites(st.db, s.userId, name.value, max.value, now);
    }
    Unchanged(st, id);
  }

  lemma Unchanged(st: State, id: SessionId)
    requires id in st.live
    ensures After(st, id, Untouched(st, id)) == st
  {
    assert st.live[id := st.live[id]] == st.live;
  }

  /** The session then shows the room exactly when the room has an address and a live mirror at its port. */
  lemma CreateShowsExactly(st: State, id: SessionId, name: Option<seq<byte>>, max: Option<int>, now: int, room: int)
    requires id in st.live
    requires CreateRoomEffect(st, id, name, max, false, now).db != st.db
    requires CreateRoom(st.db, st.live[id].userId, name.value, max.value, now).1 == Some(room)
    ensures var d, r := After(st, id, CreateRoomEffect(st, id, name, max, false, now)), st.db.rooms[room];
            d.live[id].status == if r.ip.Some? && r.port.Some? && MirrorAt(st, r.port.value).Some? then InRoom(room)
                                 else st.live[id].status
  {
  }

  /** joinRoom takes effect exactly for a logged-in user and a waiting room with a seat left in which he does not
      sit; he is then seated there and his session shows the room. */
  lemma JoinRequestExactly(st: State, id: SessionId, room: Option<int>)
    requires id in st.live
    ensures var s, d := st.live[id], After(st, id, JoinRoomEffect(st, id, room, false));
            && (d.db != st.db <==>
                  && s.userId != 0 && s.userId in st.db.users && room.Some? && room.value in st.db.rooms
                  && st.db.rooms[room.value].status == Waiting && Member(room.value, s.userId) !in st.db.members
                  && |RowsIn(st.db, room.value)| < st.db.rooms[room.value].maxPlayers)
            && (d.db != st.db ==>
                  && d.db == st.db.(members := st.db.members + {Member(room.value, s.userId)})
                  && d.live[id].status == InRoom(room.value) && OnlyRoomOf(st, d, id))
            && (d.db == st.db ==> d == st)
  {
    if room.Some? {
      AddPlayerExactly(st.db, room.value, st.live[id].userId);
    }
    Unchanged(st, id);
  }

  /** exitRoom takes effect exactly for a seated user; he then has no seat and his session waits in the lobby. */
  lemma ExitRequestExactly(st: State, id: SessionId, pick: int)
    requires id in st.live && SchemaOk(st.db) && PickOk(st.db, st.live[id].userId, pick)
    ensures var s, d := st.live[id], After(st, id, ExitRoomEffect(st, id, pick, false));
            && (d.db != st.db <==> s.userId != 0 && Seated(st.db, s.userId))
            && (d.db != st.db ==>
                  && d.db.members == (set m | m in st.db.members && m.userId != s.userId)
                  && d.live[id].status == Lobby && OnlyRoomOf(st, d, id))
            && (d.db == st.db ==> d == st)
  {
    var s, d := st.live[id], After(st, id, ExitRoomEffect(st, id, pick, false));
    RemovePlayerExactly(st.db, s.userId, pick);
    Unchanged(st, id);
    if m :| m in st.db.members && m.userId == s.userId {
      assert s.userId != 0 ==> m !in d.db.members;
    }
  }

  /** gameStart takes effect exactly for a mirror, an existing room and an existing map; only tables change. */
  lemma StartRequestExactly(st: State, id: SessionId, room: int, mapId: int)
    requires id in st.live && SchemaOk(st.db)
    ensures var s, d := st.live[id], After(st, id, GameStartEffect(st, id, room, mapId, false));
            && d == st.(db := d.db)
            && (d.db != st.db <==> s.userId != 0 && s.isMirror && room in st.db.rooms && mapId in st.db.maps)
            && (d.db != st.db ==>
                  && d.db.rooms == st.db.rooms[room := st.db.rooms[room].(status := GameInProgress)]
                  && d.db.games == st.db.games[st.db.gameSeq := Game(room, mapId, InProgress)])
  {
    CreateGameExactly(st.db, room, mapId);
    Unchanged(st, id);
  }

  /** gameEnd completes the named game exactly for a mirror; only tables change. */
  lemma EndRequestExactly(st: State, id: SessionId, game: int)
    requires id in st.live
    ensures var s, d := st.live[id], After(st, id, GameEndEffect(st, id, game, false));
            && d == st.(db := d.db)
            && d.db == if s.userId != 0 && s.isMirror && game in st.db.games
                       then st.db.(games := st.db.games[game := st.db.games[game].(status := Completed)]) else st.db
  {
    EndGameExactly(st.db, game);
    Unchanged(st, id);
  }

  /** handle_error closes the session, unseats its user exactly if he is one, and touches nothing else. */
  lemma CloseExactly(st: State, id: SessionId, pick: int)
    requires id in st.live && SchemaOk(st.db) && PickOk(st.db, st.live[id].userId, pick)
    ensures var s, d := st.live[id], HandleError(st, id, pick, false);
            && d == st.(db := d.db, live := st.live[id := s.(phase := Closed)])
            && d.db.members == (set m | m in st.db.members && !(s.userId > 0 && m.userId == s.userId))
            && (s.userId <= 0 || !Seated(st.db, s.userId) ==> d.db == st.db)
  {
    RemovePlayerExactly(st.db, st.live[id].userId, pick);
    assert st.db.members == set m | m in st.db.members;
  }

  /** A database failure leaves a request without any effect. */
  lemma FaultsChangeNothing(st: State, step: Step, now: int)
    requires Enabled(st, step, now)
    requires step.CreateRoomReq? || step.JoinRoomReq? || step.ExitRoomReq? || step.GameStartReq? || step.GameEndReq?
    requires step.fault
    ensures Next(st, step, now) == st
  {
    Unchanged(st, step.id);
  }
}
