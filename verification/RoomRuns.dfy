/** What every run of the room, member and game tables keeps, and what disciplined runs add. */
module RoomRuns {
  import opened Wrappers
  import opened RoomTables

  lemma RoomsOfRows(t: Tables, user: int)
    ensures forall r :: r in RoomsOf(t, user) <==> Member(r, user) in t.members
    ensures RoomsOf(t, user) == {} <==> forall m :: m in t.members ==> m.userId != user
  {
    assert forall m :: m in t.members && m.userId == user ==> m.roomId in RoomsOf(t, user);
  }

  lemma InsertRows(t: Tables, roomId: int, userId: int)
    ensures forall r :: RowsIn(InsertMember(t, roomId, userId), r)
                     == if r == roomId then RowsIn(t, r) + {Member(roomId, userId)} else RowsIn(t, r)
  {
  }

  lemma DeleteRows(t: Tables, userId: int)
    ensures forall r :: RowsIn(DeleteUser(t, userId), r) <= RowsIn(t, r)
    ensures forall r :: |RowsIn(DeleteUser(t, userId), r)| <= |RowsIn(t, r)|
  {
    forall r {
      SubsetCard(RowsIn(DeleteUser(t, userId), r), RowsIn(t, r));
    }
  }

  // ---------- Any run ----------

  lemma CreateKeeps(t: Tables, host: int, name: seq<byte>, max: int, now: int)
    requires AnyRunInv(t) && max >= 1
    ensures AnyRunInv(CreateRoom(t, host, name, max, now).0)
  {
    var (t', id) := CreateRoom(t, host, name, max, now);
    if id.Some? {
      InsertRows(Reopen(t, id.value, host, name, max, now), id.value, host);
      assert RowsIn(t, id.value) == {};
      forall r | r in t'.rooms
        ensures RowsIn(t', r) == if r == id.value then {Member(r, host)} else RowsIn(t, r)
      {
        assert RowsIn(Reopen(t, id.value, host, name, max, now), r) == RowsIn(t, r);
      }
    }
  }

  lemma AddKeeps(t: Tables, room: int, user: int)
    requires AnyRunInv(t)
    ensures AnyRunInv(AddPlayer(t, room, user).0)
  {
    InsertRows(t, room, user);
  }

  lemma RemoveKeeps(t: Tables, user: int, pick: int)
    requires AnyRunInv(t) && PickOk(t, user, pick)
    ensures AnyRunInv(RemovePlayer(t, user, pick).0)
  {
    DeleteRows(t, user);
    var d := DeleteUser(t, user);
    var t' := RemovePlayer(t, user, pick).0;
    forall r | r in t'.rooms && RoomsOf(t, user) != {}
      ensures RowsIn(t', r) == RowsIn(d, r)
    {
    }
  }

  lemma GamesKeep(t: Tables, room: int, mapId: int, game: int)
    requires AnyRunInv(t)
    ensures AnyRunInv(CreateGame(t, room, mapId).0)
    ensures AnyRunInv(EndGame(t, game).0)
  {
    var a, b := CreateGame(t, room, mapId).0, EndGame(t, game).0;
    forall r ensures RowsIn(a, r) == RowsIn(t, r) == RowsIn(b, r) {
    }
  }

  lemma AnyStepKeeps(t: Tables, op: Op)
    requires AnyRunInv(t) && Legal(t, op)
    ensures AnyRunInv(Apply(t, op))
    ensures Apply(t, op).rooms.Keys == t.rooms.Keys
  {
    match op
    case Create(h, n, m, now) => CreateKeeps(t, h, n, m, now);
    case Add(r, u) => AddKeeps(t, r, u);
    case Remove(u, p) => RemoveKeeps(t, u, p);
    case StartGame(r, m) => GamesKeep(t, r, m, 0);
    case StopGame(g) => GamesKeep(t, 0, 0, g);
    case Enrol(u) =>
      var t' := Apply(t, op);
      assert forall r :: RowsIn(t', r) == RowsIn(t, r);
    case Faulted =>
  }

  lemma InitialKeeps(t: Tables)
    requires Initial(t)
    ensures DisciplinedInv(t)
  {
    assert forall r :: RowsIn(t, r) == {};
  }

  /** In any run a free slot is empty, no room is over its capacity, and running games sit in rooms in game. */
  lemma {:induction false} AnyRunSafe(ts: seq<Tables>, ops: seq<Op>, k: nat)
    requires Run(ts, ops) && Initial(ts[0]) && k < |ts|
    ensures AnyRunInv(ts[k]) && ts[k].rooms.Keys == ts[0].rooms.Keys
  {
    if k == 0 {
      InitialKeeps(ts[0]);
    } else {
      AnyRunSafe(ts, ops, k - 1);
      AnyStepKeeps(ts[k - 1], ops[k - 1]);
    }
  }

  /** A recycled slot starts with its host alone and without a running game; its address is not touched. */
  lemma RecycledSlotIsClean(t: Tables, host: int, name: seq<byte>, max: int, now: int)
    requires AnyRunInv(t) && CreateRoom(t, host, name, max, now).1.Some?
    ensures var (t', id) := CreateRoom(t, host, name, max, now);
            && RowsIn(t, id.value) == {} && RowsIn(t', id.value) == {Member(id.value, host)}
            && (forall g :: g in t'.games && t'.games[g].roomId == id.value ==> t'.games[g].status == Completed)
            && t'.rooms[id.value].port == t.rooms[id.value].port && t'.rooms[id.value].ip == t.rooms[id.value].ip
            && (forall r :: r in t.rooms && r != id.value ==>
                  t'.rooms[r] == t.rooms[r] && RowsIn(t', r) == RowsIn(t, r))
  {
    var (t', id) := CreateRoom(t, host, name, max, now);
    var o := Reopen(t, id.value, host, name, max, now);
    InsertRows(o, id.value, host);
    assert forall r :: RowsIn(o, r) == RowsIn(t, r);
  }

  // ---------- Disciplined runs ----------

  lemma DisciplinedStepKeeps(t: Tables, op: Op)
    requires DisciplinedInv(t) && Legal(t, op) && Disciplined(t, op)
    ensures DisciplinedInv(Apply(t, op))
  {
    AnyStepKeeps(t, op);
    var t' := Apply(t, op);
    match op
    case Create(h, n, m, now) =>
      if CreateRoom(t, h, n, m, now).1.Some? {
        RecycledSlotIsClean(t, h, n, m, now);
        NewcomerKeepsOneRoom(t, Least(FreeRooms(t)), h);
      }
    case Add(r, u) =>
      InsertRows(t, r, u);
      NewcomerKeepsOneRoom(t, r, u);
    case Remove(u, p) =>
      RemoveKeepsSlots(t, u, p);
    case _ =>
      forall r ensures RowsIn(t', r) == RowsIn(t, r) {
      }
  }

  lemma RemoveKeepsSlots(t: Tables, user: int, pick: int)
    requires DisciplinedInv(t) && PickOk(t, user, pick)
    ensures OneRoomEach(RemovePlayer(t, user, pick).0)
    ensures var t' := RemovePlayer(t, user, pick).0;
            forall r :: r in t'.rooms ==> (t'.rooms[r].status == Terminated <==> RowsIn(t', r) == {})
  {
    var t' := RemovePlayer(t, user, pick).0;
    if RoomsOf(t, user) != {} {
      forall r | r in t.rooms ensures t'.rooms[r].status == Terminated <==> RowsIn(t', r) == {} {
        OnlyThePickEmpties(t, user, pick, r);
        assert RowsIn(t', r) == RowsIn(DeleteUser(t, user), r);
      }
    }
  }

  lemma NewcomerKeepsOneRoom(t: Tables, room: int, user: int)
    requires OneRoomEach(t) && RoomsOf(t, user) == {}
    ensures OneRoomEach(InsertMember(t, room, user))
  {
    RoomsOfRows(t, user);
  }

  /** Where each user has one room, a deletion leaves every room but that one as it was. */
  lemma OnlyThePickEmpties(t: Tables, user: int, pick: int, r: int)
    requires OneRoomEach(t) && pick in RoomsOf(t, user)
    ensures r != pick ==> RowsIn(DeleteUser(t, user), r) == RowsIn(t, r)
    ensures r == pick ==> RowsIn(DeleteUser(t, user), r) == RowsIn(t, r) - {Member(pick, user)}
  {
    assert Member(pick, user) in t.members;
    assert forall m :: m in t.members && m.userId == user ==> m == Member(pick, user);
  }

  /** In a disciplined run each user is in one room at most and the free slots are exactly the empty ones. */
  lemma {:induction false} DisciplinedRunSafe(ts: seq<Tables>, ops: seq<Op>, k: nat)
    requires DisciplinedRun(ts, ops) && Initial(ts[0]) && k < |ts|
    ensures DisciplinedInv(ts[k])
  {
    if k == 0 {
      InitialKeeps(ts[0]);
    } else {
      DisciplinedRunSafe(ts, ops, k - 1);
      DisciplinedStepKeeps(ts[k - 1], ops[k - 1]);
    }
  }

  ghost function EmptyRooms(t: Tables): set<int> {
    set r | r in t.rooms && RowsIn(t, r) == {}
  }

  /** No slot is ever lost: occupied and free slots always make up the whole fixed pool. */
  lemma SlotsAreConserved(ts: seq<Tables>, ops: seq<Op>, k: nat)
    requires DisciplinedRun(ts, ops) && Initial(ts[0]) && k < |ts|
    ensures FreeRooms(ts[k]) == EmptyRooms(ts[k])
    ensures OpenRooms(ts[k]) == set m | m in ts[k].members :: m.roomId
    ensures |OpenRooms(ts[k])| + |FreeRooms(ts[k])| == |ts[0].rooms|
  {
    var t := ts[k];
    AnyRunSafe(ts, ops, k);
    DisciplinedRunSafe(ts, ops, k);
    forall r | r in OpenRooms(t) ensures exists m :: m in t.members && m.roomId == r {
      var m := Witness(RowsIn(t, r));
    }
    forall m | m in t.members ensures m.roomId in OpenRooms(t) {
      assert m in RowsIn(t, m.roomId);
    }
    assert OpenRooms(t) + FreeRooms(t) == ts[0].rooms.Keys;
    assert OpenRooms(t) !! FreeRooms(t);
  }

  /** createRoomWithHost succeeds exactly for an existing user in no room while an empty slot exists,
      and gives the least empty one. */
  lemma CreateRoomExactly(t: Tables, host: int, name: seq<byte>, max: int, now: int)
    requires DisciplinedInv(t)
    ensures CreateRoom(t, host, name, max, now).1.Some? <==>
              host in t.users && (forall m :: m in t.members ==> m.userId != host) && EmptyRooms(t) != {}
    ensures CreateRoom(t, host, name, max, now).1.Some? ==>
              var id := CreateRoom(t, host, name, max, now).1.value;
              id in EmptyRooms(t) && forall r :: r in EmptyRooms(t) ==> id <= r
    ensures CreateRoom(t, host, name, max, now).1.None? ==> CreateRoom(t, host, name, max, now).0 == t
  {
    assert EmptyRooms(t) == FreeRooms(t);
    RoomsOfRows(t, host);
  }

  // ---------- Why the discipline is needed ----------

  /** A join keeps one room a user exactly when it does not come from a user who is in another room (D1). */
  lemma JoinKeepsExactly(t: Tables, room: int, user: int)
    requires DisciplinedInv(t)
    ensures DisciplinedInv(AddPlayer(t, room, user).0) <==> (CanAdd(t, room, user) ==> RoomsOf(t, user) == {})
  {
    RoomsOfRows(t, user);
    if !CanAdd(t, room, user) || RoomsOf(t, user) == {} {
      if CanAdd(t, room, user) {
        DisciplinedStepKeeps(t, Add(room, user));
      }
    } else {
      var other := Witness(RoomsOf(t, user));
      var t' := AddPlayer(t, room, user).0;
      assert Member(other, user) in t'.members && Member(room, user) in t'.members;
    }
  }

  /** A game start keeps the free slots exactly when it does not name one (D2). */
  lemma StartKeepsExactly(t: Tables, room: int, mapId: int)
    requires DisciplinedInv(t)
    ensures DisciplinedInv(CreateGame(t, room, mapId).0) <==>
              (room in t.rooms && mapId in t.maps ==> t.rooms[room].status != Terminated)
  {
    if room in t.rooms && mapId in t.maps && t.rooms[room].status == Terminated {
      StartInFreeSlot(t, room, mapId);
    } else if room in t.rooms && mapId in t.maps {
      DisciplinedStepKeeps(t, StartGame(room, mapId));
    }
  }

  /** A join that succeeds for a user who is in a room, or a game start in a free slot. */
  ghost predicate Breaks(t: Tables, op: Op) {
    || (op.Add? && CanAdd(t, op.room, op.user) && RoomsOf(t, op.user) != {})
    || (op.StartGame? && op.room in t.rooms && op.mapId in t.maps && t.rooms[op.room].status == Terminated)
  }

  lemma StepKeepsExactly(t: Tables, op: Op)
    requires DisciplinedInv(t) && Legal(t, op)
    ensures DisciplinedInv(Apply(t, op)) <==> !Breaks(t, op)
  {
    if op.Add? {
      JoinKeepsExactly(t, op.room, op.user);
    } else if op.StartGame? {
      StartKeepsExactly(t, op.room, op.mapId);
    } else {
      DisciplinedStepKeeps(t, op);
    }
  }

  /** In every run one room a user, and free means empty, last exactly until the first operation of that kind. */
  lemma {:induction false} DisciplineLastsExactly(ts: seq<Tables>, ops: seq<Op>, k: nat)
    requires Run(ts, ops) && Initial(ts[0]) && k < |ts|
    ensures (forall i :: 0 <= i <= k ==> DisciplinedInv(ts[i])) <==>
              (forall i :: 0 <= i < k ==> !Breaks(ts[i], ops[i]))
  {
    if k == 0 {
      InitialKeeps(ts[0]);
    } else {
      DisciplineLastsExactly(ts, ops, k - 1);
      assert Legal(ts[k - 1], ops[k - 1]) && ts[k] == Apply(ts[k - 1], ops[k - 1]);
      if DisciplinedInv(ts[k - 1]) {
        StepKeepsExactly(ts[k - 1], ops[k - 1]);
      }
    }
  }

  /** An open room without players that nobody can join: neither free nor usable. */
  ghost predicate Stuck(t: Tables, room: int) {
    room in t.rooms && t.rooms[room].status == GameInProgress && RowsIn(t, room) == {}
  }

  lemma StartInFreeSlot(t: Tables, room: int, mapId: int)
    requires AnyRunInv(t) && room in t.rooms && mapId in t.maps && t.rooms[room].status == Terminated
    ensures Stuck(CreateGame(t, room, mapId).0, room)
  {
    assert RowsIn(CreateGame(t, room, mapId).0, room) == RowsIn(t, room);
  }

  lemma StuckStays(t: Tables, op: Op, room: int)
    requires AnyRunInv(t) && Legal(t, op) && Stuck(t, room)
    ensures Stuck(Apply(t, op), room)
  {
    var t' := Apply(t, op);
    match op
    case Create(h, n, m, now) =>
      if CreateRoom(t, h, n, m, now).1.Some? {
        RecycledSlotIsClean(t, h, n, m, now);
      }
    case Add(r, u) => InsertRows(t, r, u);
    case Remove(u, p) =>
      DeleteRows(t, u);
      RoomsOfRows(t, u);
      assert RoomsOf(t, u) != {} ==> Member(p, u) in RowsIn(t, p);
      assert RowsIn(t', room) <= RowsIn(t, room);
    case _ =>
      assert RowsIn(t', room) == RowsIn(t, room);
  }

  /** A game started in a free slot takes the slot out of the pool for the rest of any run. */
  lemma {:induction false} StuckForever(ts: seq<Tables>, ops: seq<Op>, room: int, i: nat, k: nat)
    requires Run(ts, ops) && Initial(ts[0]) && i <= k < |ts| && Stuck(ts[i], room)
    ensures Stuck(ts[k], room) && room !in FreeRooms(ts[k])
  {
    if i < k {
      StuckForever(ts, ops, room, i, k - 1);
      AnyRunSafe(ts, ops, k - 1);
      StuckStays(ts[k - 1], ops[k - 1], room);
    }
  }

  // ---------- removePlayer against the simple rule ----------

  /** The simple rule: delete the users, terminate every room now empty, complete its running games. */
  ghost function ExitAll(t: Tables, us: set<int>): Tables {
    var left := set m | m in t.members && m.userId !in us;
    var d := t.(members := left);
    d.(rooms := map r | r in t.rooms ::
         if RowsIn(d, r) == {} then t.rooms[r].(status := Terminated) else t.rooms[r],
       games := map g | g in t.games ::
         if t.games[g].status == InProgress && RowsIn(d, t.games[g].roomId) == {}
         then t.games[g].(status := Completed) else t.games[g])
  }

  /** Every room without members is a free slot. */
  ghost predicate NoEmptyOpenRoom(t: Tables) {
    forall r :: r in t.rooms && RowsIn(t, r) == {} ==> t.rooms[r].status == Terminated
  }

  /** Deleting a user empties exactly the rooms that were empty and those the user was alone in. */
  lemma RowsAfterDelete(t: Tables, user: int, r: int)
    ensures RowsIn(DeleteUser(t, user), r) == {} <==> RowsIn(t, r) <= {Member(r, user)}
  {
    assert RowsIn(DeleteUser(t, user), r) == RowsIn(t, r) - {Member(r, user)};
  }

  lemma ExitOneMembers(t: Tables, user: int)
    ensures ExitAll(t, {user}).members == DeleteUser(t, user).members
    ensures t.(members := set m | m in t.members && m.userId !in {user}) == DeleteUser(t, user)
  {
  }

  /** An open room, other than the one removePlayer inspects, that holds nobody but the user. */
  ghost predicate Missed(t: Tables, user: int, pick: int, r: int) {
    && r in t.rooms && t.rooms[r].status != Terminated && RowsIn(t, r) <= {Member(r, user)}
    && (RoomsOf(t, user) == {} || r != pick)
  }

  /** The one-room check agrees with the simple rule exactly when it misses no room. */
  lemma RemoveRefinesSimpleRule(t: Tables, user: int, pick: int)
    requires AnyRunInv(t) && PickOk(t, user, pick)
    ensures RemovePlayer(t, user, pick).0 == ExitAll(t, {user}) <==> forall r :: !Missed(t, user, pick, r)
  {
    if forall r :: !Missed(t, user, pick, r) {
      RemoveAgrees(t, user, pick);
    } else {
      var r :| Missed(t, user, pick, r);
      ExitOneMembers(t, user);
      RowsAfterDelete(t, user, r);
      assert ExitAll(t, {user}).rooms[r].status == Terminated;
      assert RemovePlayer(t, user, pick).0.rooms[r] == t.rooms[r];
    }
  }

  lemma RemoveAgrees(t: Tables, user: int, pick: int)
    requires AnyRunInv(t) && PickOk(t, user, pick) && forall r :: !Missed(t, user, pick, r)
    ensures RemovePlayer(t, user, pick).0 == ExitAll(t, {user})
  {
    var d, found := DeleteUser(t, user), RoomsOf(t, user) != {};
    var e, p := ExitAll(t, {user}), RemovePlayer(t, user, pick).0;
    ExitOneMembers(t, user);
    RoomsOfRows(t, user);
    forall r | r in t.rooms && RowsIn(d, r) == {} && !(found && r == pick)
      ensures t.rooms[r].status == Terminated
    {
      RowsAfterDelete(t, user, r);
      assert !Missed(t, user, pick, r);
    }
    assert !found ==> d.members == t.members;
    assert e.rooms == p.rooms;
    forall g | g in t.games ensures e.games[g] == p.games[g] {
      var r := t.games[g].roomId;
      assert r in t.rooms;
    }
    assert e.games == p.games;
  }

  lemma RemoveIsSimple(t: Tables, user: int, pick: int)
    requires DisciplinedInv(t) && PickOk(t, user, pick)
    ensures RemovePlayer(t, user, pick).0 == ExitAll(t, {user})
  {
    RoomsOfRows(t, user);
    forall r ensures !Missed(t, user, pick, r) {
      if r in t.rooms && RowsIn(t, r) != {} && RowsIn(t, r) <= {Member(r, user)} {
        var m := Witness(RowsIn(t, r));
        assert Member(r, user) == Member(pick, user);
      }
    }
    RemoveAgrees(t, user, pick);
  }

  lemma ExitRows(t: Tables, us: set<int>)
    ensures forall r :: RowsIn(ExitAll(t, us), r) == set m | m in RowsIn(t, r) && m.userId !in us
  {
  }

  lemma ExitKeeps(t: Tables, us: set<int>)
    requires DisciplinedInv(t)
    ensures DisciplinedInv(ExitAll(t, us))
  {
    var e := ExitAll(t, us);
    ExitRows(t, us);
    var d := t.(members := set m | m in t.members && m.userId !in us);
    assert forall r :: RowsIn(d, r) == RowsIn(e, r);
    forall r | r in t.rooms ensures |RowsIn(e, r)| <= e.rooms[r].maxPlayers {
      SubsetCard(RowsIn(e, r), RowsIn(t, r));
    }
  }

  /** Who is left decides which rooms and games end. */
  lemma ExitByRows(t: Tables, us: set<int>)
    ensures var e := ExitAll(t, us);
            && e == t.(members := e.members, rooms := e.rooms, games := e.games)
            && e.rooms.Keys == t.rooms.Keys && e.games.Keys == t.games.Keys
            && (forall r :: r in t.rooms ==>
                  e.rooms[r] == if RowsIn(e, r) == {} then t.rooms[r].(status := Terminated) else t.rooms[r])
            && (forall g :: g in t.games ==>
                  e.games[g] == if t.games[g].status == InProgress && RowsIn(e, t.games[g].roomId) == {}
                                then t.games[g].(status := Completed) else t.games[g])
  {
    var d := t.(members := set m | m in t.members && m.userId !in us);
    assert forall r :: RowsIn(d, r) == RowsIn(ExitAll(t, us), r);
  }

  lemma ExitCompose(t: Tables, a: set<int>, b: set<int>)
    ensures ExitAll(ExitAll(t, a), b) == ExitAll(t, a + b)
  {
    var e, x, y := ExitAll(t, a), ExitAll(ExitAll(t, a), b), ExitAll(t, a + b);
    ExitByRows(t, a);
    ExitByRows(e, b);
    ExitByRows(t, a + b);
    assert x.members == y.members;
    assert forall r :: RowsIn(x, r) == RowsIn(y, r);
    assert forall r :: RowsIn(x, r) <= RowsIn(e, r);
    assert x.rooms == y.rooms;
    forall g | g in t.games ensures x.games[g] == y.games[g] {
      assert RowsIn(x, t.games[g].roomId) <= RowsIn(e, t.games[g].roomId);
    }
    assert x.games == y.games;
  }

  ghost function Leavers(us: seq<int>, k: nat): set<int>
    requires k <= |us|
  {
    set i | 0 <= i < k :: us[i]
  }

  /** removePlayer for each user in turn; the picks say which room each SELECT found first. */
  ghost predicate ExitSequence(ts: seq<Tables>, us: seq<int>, picks: seq<int>) {
    && |ts| == |us| + 1 && |picks| == |us|
    && forall i :: 0 <= i < |us| ==>
         PickOk(ts[i], us[i], picks[i]) && ts[i + 1] == RemovePlayer(ts[i], us[i], picks[i]).0
  }

  /** Any order of exits of the same users gives the same tables. */
  lemma {:induction false} ExitOrderIsIrrelevant(ts: seq<Tables>, us: seq<int>, picks: seq<int>, k: nat)
    requires ExitSequence(ts, us, picks) && DisciplinedInv(ts[0]) && k < |ts|
    ensures ts[k] == ExitAll(ts[0], Leavers(us, k))
    ensures DisciplinedInv(ts[k])
  {
    if k == 0 {
      ExitNobody(ts[0]);
      assert Leavers(us, 0) == {};
    } else {
      ExitOrderIsIrrelevant(ts, us, picks, k - 1);
      assert Leavers(us, k - 1) + {us[k - 1]} == Leavers(us, k);
      RemoveIsSimple(ts[k - 1], us[k - 1], picks[k - 1]);
      ExitKeeps(ts[k - 1], {us[k - 1]});
      ExitCompose(ts[0], Leavers(us, k - 1), {us[k - 1]});
    }
  }

  lemma ExitNobody(t: Tables)
    requires DisciplinedInv(t)
    ensures ExitAll(t, {}) == t
  {
    var e := ExitAll(t, {});
    assert e.members == t.members;
    assert t.(members := e.members) == t;
    assert e.rooms == t.rooms;
    forall g | g in t.games ensures e.games[g] == t.games[g] {
      assert t.games[g].roomId in t.rooms;
    }
    assert e.games == t.games;
  }

  lemma RemovalsCommute(t: Tables, u: int, v: int, pu: int, pv: int, qu: int, qv: int)
    requires DisciplinedInv(t)
    requires PickOk(t, u, pu) && PickOk(RemovePlayer(t, u, pu).0, v, pv)
    requires PickOk(t, v, qv) && PickOk(RemovePlayer(t, v, qv).0, u, qu)
    ensures RemovePlayer(RemovePlayer(t, u, pu).0, v, pv).0 == RemovePlayer(RemovePlayer(t, v, qv).0, u, qu).0
  {
    RemoveIsSimple(t, u, pu);
    ExitKeeps(t, {u});
    RemoveIsSimple(ExitAll(t, {u}), v, pv);
    ExitCompose(t, {u}, {v});
    RemoveIsSimple(t, v, qv);
    ExitKeeps(t, {v});
    RemoveIsSimple(ExitAll(t, {v}), u, qu);
    ExitCompose(t, {v}, {u});
    assert {u} + {v} == {v} + {u};
  }

  // ---------- Slot grants over whole runs ----------

  ghost predicate Grants(t: Tables, op: Op, room: int) {
    op.Create? && CreateRoom(t, op.host, op.name, op.max, op.now).1 == Some(room)
  }

  /** The step takes the last player out of the room and frees the slot. */
  ghost predicate Recycles(t: Tables, op: Op, room: int) {
    && op.Remove? && room in t.rooms && t.rooms[room].status != Terminated
    && RowsIn(t, room) != {} && RowsIn(Apply(t, op), room) == {}
    && Apply(t, op).rooms[room].status == Terminated
  }

  lemma OnlyRemovalFrees(t: Tables, op: Op, room: int)
    requires AnyRunInv(t) && Legal(t, op)
    requires room in t.rooms && t.rooms[room].status != Terminated
    requires Apply(t, op).rooms[room].status == Terminated
    ensures Recycles(t, op, room)
  {
    if op.Remove? {
      var d := DeleteUser(t, op.user);
      assert op.pick == room;
      assert RowsIn(Apply(t, op), room) == RowsIn(d, room);
      assert Member(room, op.user) in t.members;
      assert Member(room, op.user) in RowsIn(t, room);
    }
  }

  /** Two grants of one slot are always separated by the removal that emptied and freed it. */
  lemma {:induction false} GrantsNeverOverlap(ts: seq<Tables>, ops: seq<Op>, room: int, i: nat, j: nat)
    requires Run(ts, ops) && Initial(ts[0])
    requires i < j < |ops| && Grants(ts[i], ops[i], room) && Grants(ts[j], ops[j], room)
    ensures exists k :: i < k < j && Recycles(ts[k], ops[k], room)
  {
    AnyRunSafe(ts, ops, i + 1);
    assert ts[i + 1] == Apply(ts[i], ops[i]);
    FreedBetween(ts, ops, room, i + 1, j);
  }

  lemma {:induction false} FreedBetween(ts: seq<Tables>, ops: seq<Op>, room: int, i: nat, j: nat)
    requires Run(ts, ops) && i <= j < |ts| && AnyRunInv(ts[i])
    requires room in ts[i].rooms && ts[i].rooms[room].status != Terminated
    requires room in ts[j].rooms && ts[j].rooms[room].status == Terminated
    ensures exists k :: i <= k < j && Recycles(ts[k], ops[k], room)
    decreases j - i
  {
    AnyStepKeeps(ts[i], ops[i]);
    assert ts[i + 1] == Apply(ts[i], ops[i]);
    if ts[i + 1].rooms[room].status == Terminated {
      OnlyRemovalFrees(ts[i], ops[i], room);
    } else {
      FreedBetween(ts, ops, room, i + 1, j);
    }
  }

  /** No step writes an address, so rooms open at one time never share a port. */
  lemma {:induction false} OpenRoomsHaveDistinctPorts(ts: seq<Tables>, ops: seq<Op>, k: nat)
    requires Run(ts, ops) && Initial(ts[0]) && k < |ts|
    ensures ts[k].rooms.Keys == ts[0].rooms.Keys
    ensures forall r :: r in ts[0].rooms ==>
              ts[k].rooms[r].port == ts[0].rooms[r].port && ts[k].rooms[r].ip == ts[0].rooms[r].ip
    ensures DistinctPorts(ts[k], OpenRooms(ts[k]))
  {
    if k > 0 {
      OpenRoomsHaveDistinctPorts(ts, ops, k - 1);
      assert ts[k] == Apply(ts[k - 1], ops[k - 1]);
    }
  }

  /** The seed script creates an initial state with ten free slots. */
  lemma SeedIsInitial()
    ensures Initial(SeedTables())
  {
    assert SeedTables().rooms.Keys == SEED_SLOTS;
  }
}
