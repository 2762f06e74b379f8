/** What each transaction writes and when it succeeds, in the terms of its caller. */
module Transactions {
  import opened Wrappers
  import opened RoomTables
  import opened RoomRuns

  // ---------- One transaction ----------

  /** createRoomWithHost succeeds exactly for an existing user without a row while a slot is free. */
  lemma CreateRoomSucceedsExactly(t: Tables, host: int, name: seq<byte>, max: int, now: int)
    ensures CreateRoom(t, host, name, max, now).1.Some? <==>
              && host in t.users
              && (forall m :: m in t.members ==> m.userId != host)
              && exists r :: r in t.rooms && t.rooms[r].status == Terminated
  {
    RoomsOfRows(t, host);
    if r :| r in t.rooms && t.rooms[r].status == Terminated {
      assert r in FreeRooms(t);
    }
  }

  /** It writes the request into the least free slot, which keeps its address, and seats the host; nothing else
      changes, and a refusal changes nothing. */
  lemma CreateRoomWrites(t: Tables, host: int, name: seq<byte>, max: int, now: int)
    ensures var (t', r) := CreateRoom(t, host, name, max, now);
            && (r.None? ==> t' == t)
            && (r.Some? ==>
                  && r.value in t.rooms && t.rooms[r.value].status == Terminated
                  && (forall q :: q in t.rooms && q < r.value ==> t.rooms[q].status != Terminated)
                  && t' == t.(rooms := t.rooms[r.value := Room(name, host, t.rooms[r.value].ip, t.rooms[r.value].port,
                                                              max, Waiting, now)],
                              members := t.members + {Member(r.value, host)}))
  {
    var (t', r) := CreateRoom(t, host, name, max, now);
    if r.Some? {
      assert forall q :: q in t.rooms && t.rooms[q].status == Terminated ==> q in FreeRooms(t);
    }
  }

  /** A join changes the tables exactly when the room exists, waits and has a seat left, and the user exists and
      does not sit in it; it then adds his row and nothing else. */
  lemma AddPlayerExactly(t: Tables, room: int, user: int)
    ensures AddPlayer(t, room, user).0 != t <==>
              && room in t.rooms && t.rooms[room].status == Waiting && user in t.users
              && Member(room, user) !in t.members && |RowsIn(t, room)| < t.rooms[room].maxPlayers
    ensures AddPlayer(t, room, user).1 <==> AddPlayer(t, room, user).0 != t
    ensures AddPlayer(t, room, user).1 ==>
              AddPlayer(t, room, user).0 == t.(members := t.members + {Member(room, user)})
  {
    var t' := AddPlayer(t, room, user).0;
    assert t' != t ==> Member(room, user) in t'.members;
    assert Member(room, user) in t.members + {Member(room, user)};
  }

  /** A removal succeeds exactly for a seated user; it deletes his rows, and ends the room it looked at and that
      room's games exactly when nobody else sits there. */
  lemma RemovePlayerExactly(t: Tables, user: int, pick: int)
    requires SchemaOk(t) && PickOk(t, user, pick)
    ensures var (t', ok) := RemovePlayer(t, user, pick);
            && (ok <==> exists m :: m in t.members && m.userId == user)
            && (!ok ==> t' == t)
            && t'.members == (set m | m in t.members && m.userId != user)
            && t' == t.(members := t'.members, rooms := t'.rooms, games := t'.games)
            && t'.rooms.Keys == t.rooms.Keys && t'.games.Keys == t.games.Keys
            && (ok ==> Ends(t, t', pick, forall m :: m in t.members && m.roomId == pick ==> m.userId == user))
  {
    var (t', ok) := RemovePlayer(t, user, pick);
    RoomsOfRows(t, user);
    if !ok {
      assert t'.members == set m | m in t.members && m.userId != user;
    } else {
      var d := DeleteUser(t, user);
      assert RowsIn(d, pick) == {} <==> forall m :: m in t.members && m.roomId == pick ==> m.userId == user by {
        assert forall m :: m in t.members && m.roomId == pick && m.userId != user ==> m in RowsIn(d, pick);
      }
    }
  }

  /** The room and its games end if they are to end, and nothing else happens to rooms and games. */
  ghost predicate Ends(t: Tables, t': Tables, room: int, ends: bool)
    requires t'.rooms.Keys == t.rooms.Keys && t'.games.Keys == t.games.Keys
  {
    && (forall r :: r in t.rooms ==>
          t'.rooms[r] == if ends && r == room then t.rooms[r].(status := Terminated) else t.rooms[r])
    && (forall g :: g in t.games ==>
          t'.games[g] == if ends && t.games[g].roomId == room then t.games[g].(status := Completed) else t.games[g])
  }

  /** A game start in an existing room on an existing map, whatever the status of the room, files one running game
      under a new id and puts the room in game; any other one changes nothing. */
  lemma CreateGameExactly(t: Tables, room: int, mapId: int)
    requires SchemaOk(t)
    ensures var t' := CreateGame(t, room, mapId).0;
            if room in t.rooms && mapId in t.maps then
              && t.gameSeq !in t.games
              && t'.games == t.games[t.gameSeq := Game(room, mapId, InProgress)] && t'.gameSeq == t.gameSeq + 1
              && t'.rooms == t.rooms[room := t.rooms[room].(status := GameInProgress)]
              && t'.members == t.members && t'.users == t.users && t'.maps == t.maps
            else t' == t
    ensures CreateGame(t, room, mapId).1 <==> CreateGame(t, room, mapId).0 != t
  {
    var t' := CreateGame(t, room, mapId).0;
    assert room in t.rooms && mapId in t.maps ==> t.gameSeq in t'.games && t.gameSeq !in t.games;
  }

  /** A game end completes the named game, and nothing but it; without such a game nothing changes. */
  lemma EndGameExactly(t: Tables, game: int)
    ensures var t' := EndGame(t, game).0;
            if game in t.games then
              t' == t.(games := t.games[game := Game(t.games[game].roomId, t.games[game].mapId, Completed)])
            else t' == t
    ensures EndGame(t, game).1 <==> game in t.games
  {
  }

  // ---------- Filling a room ----------

  /** The request asks for a seat in the room for an existing user who is not its host. */
  ghost predicate AsksFor(t: Tables, op: Op, room: int, host: int) {
    op.Add? && op.room == room && op.user in t.users && op.user != host
  }

  /** Who asked for a seat from step i up to step k. */
  ghost function Asked(ts: seq<Tables>, ops: seq<Op>, room: int, host: int, i: nat, k: nat): set<int>
    requires i <= k <= |ops| < |ts|
    decreases k
  {
    if k == i then {}
    else Asked(ts, ops, room, host, i, k - 1)
         + if AsksFor(ts[k - 1], ops[k - 1], room, host) then {ops[k - 1].user} else {}
  }

  /** Nobody leaves, and no game starts in the room. */
  ghost predicate Undisturbed(ops: seq<Op>, room: int, i: nat, k: nat)
    requires i <= k <= |ops|
  {
    forall x :: i <= x < k ==> !ops[x].Remove? && !(ops[x].StartGame? && ops[x].room == room)
  }

  /** The room waits for at most m players, and its host and those who asked have a seat as far as seats last. */
  ghost predicate Filling(t: Tables, room: int, host: int, m: int, asked: set<int>) {
    && room in t.rooms && t.rooms[room].status == Waiting && t.rooms[room].maxPlayers == m
    && host !in asked && asked <= t.users
    && (forall x :: x in RowsIn(t, room) ==> x.userId == host || x.userId in asked)
    && |RowsIn(t, room)| == if 1 + |asked| < m then 1 + |asked| else m
  }

  /** Until the seats run out everybody who asked has one. */
  lemma SeatsSoFar(t: Tables, room: int, host: int, m: int, asked: set<int>, user: int)
    requires Filling(t, room, host, m, asked) && |RowsIn(t, room)| < m
    ensures Member(room, user) in t.members <==> user == host || user in asked
  {
    var seats := set u | u in asked + {host} :: Member(room, u);
    SeatCount(room, asked + {host});
    assert |asked + {host}| == 1 + |asked|;
    assert RowsIn(t, room) <= seats;
    SameSize(RowsIn(t, room), seats);
    assert Member(room, user) in t.members <==> Member(room, user) in RowsIn(t, room);
    assert Member(room, user) in seats <==> user in asked + {host};
  }

  lemma {:induction false} SeatCount(room: int, us: set<int>)
    ensures |set u | u in us :: Member(room, u)| == |us|
  {
    if us != {} {
      var x := Witness(us);
      SeatCount(room, us - {x});
      assert (set u | u in us :: Member(room, u)) == (set u | u in us - {x} :: Member(room, u)) + {Member(room, x)};
    }
  }

  lemma SameSize<T>(a: set<T>, b: set<T>)
    requires a <= b && |a| == |b|
    ensures a == b
  {
    forall x | x in b ensures x in a {
      if x !in a {
        SubsetCard(a, b - {x});
      }
    }
  }

  /** A first request finds a seat exactly while fewer than m are taken. */
  lemma SeatGrantedExactly(t: Tables, room: int, host: int, m: int, asked: set<int>, user: int)
    requires Filling(t, room, host, m, asked) && user in t.users && user != host && user !in asked
    ensures AddPlayer(t, room, user).0 != t <==> 1 + |asked| < m
  {
    AddPlayerExactly(t, room, user);
    assert Member(room, user) in t.members ==> Member(room, user) in RowsIn(t, room);
  }

  lemma AddFills(t: Tables, room: int, host: int, m: int, asked: set<int>, user: int)
    requires Filling(t, room, host, m, asked) && user in t.users && user != host
    ensures Filling(AddPlayer(t, room, user).0, room, host, m, asked + {user})
  {
    AddPlayerExactly(t, room, user);
    InsertRows(t, room, user);
    if |RowsIn(t, room)| < m {
      SeatsSoFar(t, room, host, m, asked, user);
    }
    assert user in asked ==> asked + {user} == asked;
    assert user !in asked ==> |asked + {user}| == |asked| + 1;
  }

  /** Any other undisturbing operation leaves the room and its rows. */
  lemma OthersLeaveTheRoom(t: Tables, op: Op, room: int, host: int, m: int, asked: set<int>)
    requires Filling(t, room, host, m, asked) && Member(room, host) in t.members && !AsksFor(t, op, room, host)
    requires !op.Remove? && !(op.StartGame? && op.room == room)
    ensures Filling(Apply(t, op), room, host, m, asked)
  {
    var t' := Apply(t, op);
    if op.Create? {
      CreateRoomWrites(t, op.host, op.name, op.max, op.now);
    } else if op.Add? {
      AddPlayerExactly(t, op.room, op.user);
    }
    assert RowsIn(t', room) == RowsIn(t, room);
  }

  lemma FillingStep(t: Tables, op: Op, room: int, host: int, m: int, asked: set<int>)
    requires Filling(t, room, host, m, asked) && Member(room, host) in t.members
    requires !op.Remove? && !(op.StartGame? && op.room == room)
    ensures Filling(Apply(t, op), room, host, m, asked + if AsksFor(t, op, room, host) then {op.user} else {})
    ensures Member(room, host) in Apply(t, op).members
  {
    if AsksFor(t, op, room, host) {
      AddFills(t, room, host, m, asked, op.user);
    } else {
      OthersLeaveTheRoom(t, op, room, host, m, asked);
      assert asked + {} == asked;
    }
  }

  lemma {:induction false} FillsSoFar(ts: seq<Tables>, ops: seq<Op>, room: int, host: int, m: int, i: nat, k: nat)
    requires Run(ts, ops) && i <= k <= |ops| && Undisturbed(ops, room, i, k)
    requires Filling(ts[i], room, host, m, {}) && Member(room, host) in ts[i].members
    ensures Filling(ts[k], room, host, m, Asked(ts, ops, room, host, i, k)) && Member(room, host) in ts[k].members
  {
    if i < k {
      FillsSoFar(ts, ops, room, host, m, i, k - 1);
      FillingStep(ts[k - 1], ops[k - 1], room, host, m, Asked(ts, ops, room, host, i, k - 1));
      assert ts[k] == Apply(ts[k - 1], ops[k - 1]);
    }
  }

  lemma GrantStartsFilling(t: Tables, host: int, name: seq<byte>, m: int, now: int, room: int)
    requires AnyRunInv(t) && m >= 1 && CreateRoom(t, host, name, m, now).1 == Some(room)
    ensures Filling(CreateRoom(t, host, name, m, now).0, room, host, m, {})
    ensures Member(room, host) in CreateRoom(t, host, name, m, now).0.members
  {
    CreateRoomWrites(t, host, name, m, now);
    RecycledSlotIsClean(t, host, name, m, now);
  }

  /** A room created for m players admits, whatever happens to other rooms, exactly the first m - 1 other users who
      ask, while nobody leaves and no game starts in it; and it refuses everybody after them. */
  lemma RoomFillsExactly(ts: seq<Tables>, ops: seq<Op>, room: int, i: nat, k: nat)
    requires Run(ts, ops) && Initial(ts[0]) && i < k < |ops| && Grants(ts[i], ops[i], room)
    requires Undisturbed(ops, room, i + 1, k) && AsksFor(ts[k], ops[k], room, ops[i].host)
    requires ops[k].user !in Asked(ts, ops, room, ops[i].host, i + 1, k)
    ensures ts[k + 1] != ts[k] <==> 1 + |Asked(ts, ops, room, ops[i].host, i + 1, k)| < ops[i].max
    ensures |RowsIn(ts[k], room)| <= ops[i].max
  {
    AnyRunSafe(ts, ops, i);
    assert Legal(ts[i], ops[i]) && ts[i + 1] == Apply(ts[i], ops[i]) && ts[k + 1] == Apply(ts[k], ops[k]);
    GrantStartsFilling(ts[i], ops[i].host, ops[i].name, ops[i].max, ops[i].now, room);
    FillsSoFar(ts, ops, room, ops[i].host, ops[i].max, i + 1, k);
    SeatGrantedExactly(ts[k], room, ops[i].host, ops[i].max, Asked(ts, ops, room, ops[i].host, i + 1, k), ops[k].user);
  }
}
