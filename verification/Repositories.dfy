/** The repositories and services of rooms and games: one pooled connection and one transaction a call. */
module Repositories {
  import opened Wrappers
  import opened RoomTables
  import opened DbPoolClass

  /** The committed tables; a transaction works on a copy and commits by assigning it. */
  class Database {
    var tables: Tables

    constructor (tables: Tables)
      ensures this.tables == tables
    {
      this.tables := tables;
    }
  }

  datatype RoomInfo = RoomInfo(roomId: int, name: seq<byte>, ip: string, port: int, maxPlayers: int)

  /** Reading a missing address raises, after the commit. */
  function Described(id: int, room: Room): Reply<Option<RoomInfo>> {
    if room.ip.None? || room.port.None? then Raised
    else Value(Some(RoomInfo(id, room.name, room.ip.value, room.port.value, room.maxPlayers)))
  }

  /** What createRoomWithHost answers when nothing fails. */
  function CreateReply(t: Tables, hostId: int, name: seq<byte>, max: int, now: int): Reply<Option<RoomInfo>> {
    var (t', r) := CreateRoom(t, hostId, name, max, now);
    if r.None? then Value(None) else Described(r.value, t'.rooms[r.value])
  }

  class RoomRepository {
    const db: Database
    const pool: DbPool

    constructor (db: Database, pool: DbPool)
      ensures this.db == db && this.pool == pool
    {
      this.db := db;
      this.pool := pool;
    }

    method CreateRoomWithHost(hostId: int, name: seq<byte>, maxPlayers: int, now: int, io: Io)
      returns (r: Reply<Option<RoomInfo>>)
      requires pool.Valid()
      modifies db, pool
      ensures pool.Valid()
      ensures pool.Loans() == old(pool.Loans()) <==> io.begins || !old(pool.Lends(io))
      ensures !old(pool.Lends(io)) || !io.begins ==> db.tables == old(db.tables) && r == Raised
      ensures || (db.tables == old(db.tables) && (r == Raised || r == Value(None)))
              || (db.tables == CreateRoom(old(db.tables), hostId, name, maxPlayers, now).0
                  && r == CreateReply(old(db.tables), hostId, name, maxPlayers, now))
      ensures old(pool.Lends(io)) && io.begins && io.failAt == 0 ==>
                && db.tables == CreateRoom(old(db.tables), hostId, name, maxPlayers, now).0
                && r == CreateReply(old(db.tables), hostId, name, maxPlayers, now)
    {
      var got := pool.GetConnection(io.closed, io.connects);
      if got.None? {
        return Raised;
      }
      var conn := got.value;
      if !io.begins {
        // raised outside the try block: nobody returns the connection
        return Raised;
      }
      r := Value(None);
      var txn := db.tables;
      if io.failAt == 1 || RoomsOf(txn, hostId) != {} {
        pool.ReturnConnection(conn);
        return;
      }
      var free := FreeRooms(txn);
      if io.failAt == 2 || free == {} {
        pool.ReturnConnection(conn);
        return;
      }
      var roomId := Least(free);
      if io.failAt == 3 || hostId !in txn.users {
        pool.ReturnConnection(conn);
        return;
      }
      txn := Reopen(txn, roomId, hostId, name, maxPlayers, now);
      if io.failAt == 4 {
        pool.ReturnConnection(conn);
        return;
      }
      txn := InsertMember(txn, roomId, hostId);
      if io.failAt == 5 {
        pool.ReturnConnection(conn);
        return;
      }
      db.tables := txn;
      pool.ReturnConnection(conn);
      r := Described(roomId, txn.rooms[roomId]);
    }

    method AddPlayer(roomId: int, userId: int, io: Io) returns (r: Reply<bool>)
      requires pool.Valid()
      modifies db, pool
      ensures pool.Valid()
      ensures pool.Loans() == old(pool.Loans()) <==> io.begins || !old(pool.Lends(io))
      ensures !old(pool.Lends(io)) || !io.begins ==> db.tables == old(db.tables) && r == Raised
      ensures || (db.tables == old(db.tables) && r != Value(true))
              || (db.tables, r) == (RoomTables.AddPlayer(old(db.tables), roomId, userId).0,
                                    Value(RoomTables.AddPlayer(old(db.tables), roomId, userId).1))
      ensures old(pool.Lends(io)) && io.begins && io.failAt == 0 ==>
                && db.tables == RoomTables.AddPlayer(old(db.tables), roomId, userId).0
                && r == Value(RoomTables.AddPlayer(old(db.tables), roomId, userId).1)
    {
      var got := pool.GetConnection(io.closed, io.connects);
      if got.None? {
        return Raised;
      }
      var conn := got.value;
      if !io.begins {
        return Raised;
      }
      r := Value(false);
      var txn := db.tables;
      if io.failAt == 1 || roomId !in txn.rooms || txn.rooms[roomId].status != Waiting {
        pool.ReturnConnection(conn);
        return;
      }
      if io.failAt == 2 || Member(roomId, userId) in txn.members {
        pool.ReturnConnection(conn);
        return;
      }
      var maxPlayers, currentPlayers := txn.rooms[roomId].maxPlayers, |RowsIn(txn, roomId)|;
      if io.failAt == 3 || currentPlayers >= maxPlayers {
        pool.ReturnConnection(conn);
        return;
      }
      if io.failAt == 4 || userId !in txn.users {
        pool.ReturnConnection(conn);
        return;
      }
      txn := InsertMember(txn, roomId, userId);
      if io.failAt == 5 {
        pool.ReturnConnection(conn);
        return;
      }
      db.tables := txn;
      pool.ReturnConnection(conn);
      r := Value(true);
    }

    /** pick is the room the unordered SELECT returns first. */
    method RemovePlayer(userId: int, pick: int, io: Io) returns (r: Reply<bool>)
      requires pool.Valid() && PickOk(db.tables, userId, pick)
      modifies db, pool
      ensures pool.Valid()
      ensures pool.Loans() == old(pool.Loans()) <==> io.begins || !old(pool.Lends(io))
      ensures !old(pool.Lends(io)) || !io.begins ==> db.tables == old(db.tables) && r == Raised
      ensures || (db.tables == old(db.tables) && r != Value(true))
              || (db.tables, r) == (RoomTables.RemovePlayer(old(db.tables), userId, pick).0,
                                    Value(RoomTables.RemovePlayer(old(db.tables), userId, pick).1))
      ensures old(pool.Lends(io)) && io.begins && io.failAt == 0 ==>
                && db.tables == RoomTables.RemovePlayer(old(db.tables), userId, pick).0
                && r == Value(RoomTables.RemovePlayer(old(db.tables), userId, pick).1)
    {
      var got := pool.GetConnection(io.closed, io.connects);
      if got.None? {
        return Raised;
      }
      var conn := got.value;
      if !io.begins {
        return Raised;
      }
      r := Value(false);
      var txn := db.tables;
      if io.failAt == 1 || RoomsOf(txn, userId) == {} {
        pool.ReturnConnection(conn);
        return;
      }
      if io.failAt == 2 {
        pool.ReturnConnection(conn);
        return;
      }
      txn := DeleteUser(txn, userId);
      if io.failAt == 3 {
        pool.ReturnConnection(conn);
        return;
      }
      var remaining := |RowsIn(txn, pick)|;
      if remaining == 0 {
        if io.failAt == 4 {
          pool.ReturnConnection(conn);
          return;
        }
        txn := SetStatus(txn, pick, Terminated);
        if io.failAt == 5 {
          pool.ReturnConnection(conn);
          return;
        }
        txn := CompleteGames(txn, pick);
      }
      if io.failAt == 6 {
        pool.ReturnConnection(conn);
        return;
      }
      db.tables := txn;
      pool.ReturnConnection(conn);
      r := Value(true);
    }
  }

  /** The users of the room, and since there are as many of them as rows, each once. */
  ghost predicate Lists(t: Tables, roomId: int, users: seq<int>) {
    (forall u :: u in users <==> Member(roomId, u) in t.members) && |users| == |RowsIn(t, roomId)|
  }

  datatype GameReply = GameReply(gameId: int, users: seq<int>)

  class GameRepository {
    const db: Database
    const pool: DbPool

    constructor (db: Database, pool: DbPool)
      ensures this.db == db && this.pool == pool
    {
      this.db := db;
      this.pool := pool;
    }

    /** The users of a room, each once, in the order the database returns them. */
    method UsersInRoom(t: Tables, roomId: int) returns (users: seq<int>)
      ensures Lists(t, roomId, users)
    {
      users := [];
      var left := RowsIn(t, roomId);
      while left != {}
        invariant left <= RowsIn(t, roomId)
        invariant forall m :: m in RowsIn(t, roomId) ==> (m in left || m.userId in users)
        invariant forall u :: u in users ==> Member(roomId, u) in t.members
        invariant |users| + |left| == |RowsIn(t, roomId)|
        decreases |left|
      {
        ghost var w := Witness(left);
        var m :| m in left;
        left := left - {m};
        users := users + [m.userId];
      }
      assert forall u :: Member(roomId, u) in t.members ==> Member(roomId, u) in RowsIn(t, roomId);
    }

    method CreateGame(roomId: int, mapId: int, io: Io) returns (r: Reply<GameReply>)
      requires pool.Valid()
      modifies db, pool
      ensures pool.Valid()
      ensures pool.Loans() == old(pool.Loans()) <==> io.begins || !old(pool.Lends(io))
      ensures r.Value? ==> r.value.gameId == -1
      ensures db.tables == old(db.tables) || db.tables == RoomTables.CreateGame(old(db.tables), roomId, mapId).0
      ensures old(pool.Lends(io)) && io.begins && io.failAt == 0 ==>
                && db.tables == RoomTables.CreateGame(old(db.tables), roomId, mapId).0
                && r.Value?
                && (if RoomTables.CreateGame(old(db.tables), roomId, mapId).1
                    then Lists(db.tables, roomId, r.value.users) else r.value.users == [])
      ensures !old(pool.Lends(io)) || !io.begins ==> db.tables == old(db.tables) && r == Raised
    {
      var got := pool.GetConnection(io.closed, io.connects);
      if got.None? {
        return Raised;
      }
      var conn := got.value;
      if !io.begins {
        return Raised;
      }
      r := Value(GameReply(-1, []));
      var txn := db.tables;
      if io.failAt == 1 || roomId !in txn.rooms || mapId !in txn.maps {
        pool.ReturnConnection(conn);
        return;
      }
      txn := InsertGame(txn, roomId, mapId);
      if io.failAt == 2 {
        pool.ReturnConnection(conn);
        return;
      }
      txn := SetStatus(txn, roomId, GameInProgress);
      if io.failAt == 3 {
        pool.ReturnConnection(conn);
        return;
      }
      var users := UsersInRoom(txn, roomId);
      r := Value(GameReply(-1, users));
      if io.failAt == 4 {
        pool.ReturnConnection(conn);
        return;
      }
      db.tables := txn;
      pool.ReturnConnection(conn);
    }

    method EndGame(gameId: int, io: Io) returns (r: Reply<GameReply>)
      requires pool.Valid()
      modifies db, pool
      ensures pool.Valid()
      ensures pool.Loans() == old(pool.Loans()) <==> io.begins || !old(pool.Lends(io))
      ensures r.Value? ==> r.value.gameId == -1
      ensures db.tables == old(db.tables) || db.tables == RoomTables.EndGame(old(db.tables), gameId).0
      ensures old(pool.Lends(io)) && io.begins && io.failAt == 0 ==>
                && db.tables == RoomTables.EndGame(old(db.tables), gameId).0
                && r.Value?
                && (if gameId in db.tables.games
                    then Lists(db.tables, db.tables.games[gameId].roomId, r.value.users) else r.value.users == [])
      ensures !old(pool.Lends(io)) || !io.begins ==> db.tables == old(db.tables) && r == Raised
    {
      var got := pool.GetConnection(io.closed, io.connects);
      if got.None? {
        return Raised;
      }
      var conn := got.value;
      if !io.begins {
        return Raised;
      }
      r := Value(GameReply(-1, []));
      var txn := db.tables;
      if io.failAt == 1 || gameId !in txn.games {
        pool.ReturnConnection(conn);
        return;
      }
      var roomId := txn.games[gameId].roomId;
      txn := txn.(games := txn.games[gameId := txn.games[gameId].(status := Completed)]);
      if io.failAt == 2 {
        pool.ReturnConnection(conn);
        return;
      }
      var users := UsersInRoom(txn, roomId);
      r := Value(GameReply(-1, users));
      if io.failAt == 3 {
        pool.ReturnConnection(conn);
        return;
      }
      db.tables := txn;
      pool.ReturnConnection(conn);
    }
  }

  /** createRoomWithHost reports a failure exactly when it changed nothing, or when the slot it
      claimed has no address. */
  lemma FailureMeansUnchanged(t: Tables, hostId: int, name: seq<byte>, max: int, now: int)
    ensures var (t', r) := CreateRoom(t, hostId, name, max, now);
            CreateReply(t, hostId, name, max, now) in {Raised, Value(None)} <==>
              t' == t || (r.Some? && (t.rooms[r.value].ip.None? || t.rooms[r.value].port.None?))
  {
    var (t', r) := CreateRoom(t, hostId, name, max, now);
    if r.Some? {
      assert t'.rooms[r.value].status == Waiting;
      assert t.rooms[r.value].status == Terminated;
    }
  }

  /** A granted request is answered with what it asked for and the address of the least free slot. */
  lemma CreateAnswersTheRequest(t: Tables, hostId: int, name: seq<byte>, max: int, now: int)
    ensures var r := CreateRoom(t, hostId, name, max, now).1;
            && (r.None? ==> CreateReply(t, hostId, name, max, now) == Value(None))
            && (r.Some? && t.rooms[r.value].ip.Some? && t.rooms[r.value].port.Some? ==>
                  CreateReply(t, hostId, name, max, now)
                  == Value(Some(RoomInfo(r.value, name, t.rooms[r.value].ip.value, t.rooms[r.value].port.value, max))))
            && (r.Some? && (t.rooms[r.value].ip.None? || t.rooms[r.value].port.None?) ==>
                  CreateReply(t, hostId, name, max, now) == Raised)
  {
  }
}
