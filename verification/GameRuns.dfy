/** The course of a room and of a game over whole runs, disciplined or not. */
module GameRuns {
  import opened RoomTables
  import opened RoomRuns

  ghost predicate Playing(t: Tables, room: int) {
    room in t.rooms && t.rooms[room].status == GameInProgress
  }

  ghost predicate Running(t: Tables, game: int) {
    game in t.games && t.games[game].status == InProgress
  }

  ghost predicate Over(t: Tables, game: int) {
    game in t.games && t.games[game].status == Completed
  }

  /** A room in game is left only by emptying it: ending its game does not bring it back to waiting. */
  lemma PlayStepOrEmptied(t: Tables, op: Op, room: int)
    requires AnyRunInv(t) && Legal(t, op) && Playing(t, room)
    ensures Playing(Apply(t, op), room) || Recycles(t, op, room)
  {
    var t' := Apply(t, op);
    if t'.rooms[room].status == Terminated {
      OnlyRemovalFrees(t, op, room);
    }
  }

  lemma {:induction false} PlayEndsOnlyByEmptying(ts: seq<Tables>, ops: seq<Op>, room: int, i: nat, j: nat)
    requires Run(ts, ops) && Initial(ts[0]) && i <= j < |ts| && Playing(ts[i], room) && !Playing(ts[j], room)
    ensures exists k :: i <= k < j && Recycles(ts[k], ops[k], room)
    decreases j - i
  {
    AnyRunSafe(ts, ops, i);
    PlayStepOrEmptied(ts[i], ops[i], room);
    assert ts[i + 1] == Apply(ts[i], ops[i]);
    if Playing(ts[i + 1], room) {
      PlayEndsOnlyByEmptying(ts, ops, room, i + 1, j);
    }
  }

  /** Nobody enters a room in game. */
  lemma RosterStep(t: Tables, op: Op, room: int)
    requires AnyRunInv(t) && Legal(t, op) && Playing(t, room)
    ensures RowsIn(Apply(t, op), room) <= RowsIn(t, room)
  {
    match op
    case Create(h, n, m, now) =>
      if CreateRoom(t, h, n, m, now).1.Some? {
        RecycledSlotIsClean(t, h, n, m, now);
      }
    case Add(r, u) => InsertRows(t, r, u);
    case Remove(u, p) => DeleteRows(t, u);
    case _ =>
  }

  /** As long as a room stays in game its roster only shrinks. */
  lemma {:induction false} RosterOnlyShrinks(ts: seq<Tables>, ops: seq<Op>, room: int, i: nat, j: nat)
    requires Run(ts, ops) && Initial(ts[0]) && i <= j < |ts| && Playing(ts[i], room)
    requires forall k :: i <= k < j ==> !Recycles(ts[k], ops[k], room)
    ensures Playing(ts[j], room) && RowsIn(ts[j], room) <= RowsIn(ts[i], room)
  {
    if i < j {
      RosterOnlyShrinks(ts, ops, room, i, j - 1);
      AnyRunSafe(ts, ops, j - 1);
      PlayStepOrEmptied(ts[j - 1], ops[j - 1], room);
      RosterStep(ts[j - 1], ops[j - 1], room);
    }
  }

  /** A step ends a running game only if it is its gameEnd or empties its room; it keeps the room and the map,
      and no ended game runs again. */
  lemma GameStep(t: Tables, op: Op, game: int)
    requires AnyRunInv(t) && Legal(t, op) && game in t.games
    ensures var t' := Apply(t, op);
            && game in t'.games
            && t'.games[game].roomId == t.games[game].roomId && t'.games[game].mapId == t.games[game].mapId
            && (Over(t, game) ==> Over(t', game))
            && (Running(t, game) ==>
                  (Over(t', game) <==> op == StopGame(game) || Recycles(t, op, t.games[game].roomId)))
  {
    var t', room := Apply(t, op), t.games[game].roomId;
    if op.Remove? && RoomsOf(t, op.user) != {} && Running(t, game) {
      RemovalStep(t, op.user, op.pick, room);
    }
  }

  /** A removal terminates a room in game exactly when it empties it. */
  lemma RemovalStep(t: Tables, user: int, pick: int, room: int)
    requires AnyRunInv(t) && RoomsOf(t, user) != {} && pick in RoomsOf(t, user)
    requires room in t.rooms && t.rooms[room].status != Terminated
    ensures Recycles(t, Remove(user, pick), room) <==> room == pick && RowsIn(DeleteUser(t, user), pick) == {}
  {
    assert Member(pick, user) in RowsIn(t, pick);
    var t' := Apply(t, Remove(user, pick));
    assert RowsIn(t', room) == RowsIn(DeleteUser(t, user), room);
  }

  /** What ends a game: in every run a game that runs at i and is over at j was ended by its gameEnd, or by the
      removal of the last player of its room, in between. */
  lemma {:induction false} GamesEndForAReason(ts: seq<Tables>, ops: seq<Op>, game: int, i: nat, j: nat)
    requires Run(ts, ops) && Initial(ts[0]) && i <= j < |ts| && Running(ts[i], game) && Over(ts[j], game)
    ensures exists k :: i <= k < j && (ops[k] == StopGame(game) || Recycles(ts[k], ops[k], ts[i].games[game].roomId))
    decreases j - i
  {
    AnyRunSafe(ts, ops, i);
    GameStep(ts[i], ops[i], game);
    assert ts[i + 1] == Apply(ts[i], ops[i]);
    if Running(ts[i + 1], game) {
      GamesEndForAReason(ts, ops, game, i + 1, j);
    }
  }

  /** An ended game stays ended, in the same room and on the same map, for the rest of any run. */
  lemma {:induction false} EndedGamesStayEnded(ts: seq<Tables>, ops: seq<Op>, game: int, i: nat, j: nat)
    requires Run(ts, ops) && Initial(ts[0]) && i <= j < |ts| && Over(ts[i], game)
    ensures Over(ts[j], game)
    ensures ts[j].games[game] == ts[i].games[game]
  {
    if i < j {
      EndedGamesStayEnded(ts, ops, game, i, j - 1);
      AnyRunSafe(ts, ops, j - 1);
      GameStep(ts[j - 1], ops[j - 1], game);
    }
  }
}
