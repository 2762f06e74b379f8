/** A run without D1 in which removePlayer overlooks a room. */
module MissedRooms {
  import opened Wrappers
  import opened RoomTables
  import opened RoomRuns

  /** All of a state that matters here: exactly the rooms in open are open, waiting and for eight players. */
  ghost predicate Stage(t: Tables, slots: set<int>, users: set<int>, open: set<int>, members: set<Member>) {
    && t.rooms.Keys == slots && t.users == users && t.members == members
    && forall r :: r in slots ==>
         && t.rooms[r].status == (if r in open then Waiting else Terminated)
         && (r in open ==> t.rooms[r].maxPlayers == 8)
  }

  lemma CreateStage(t: Tables, slots: set<int>, users: set<int>, open: set<int>, members: set<Member>, u: int)
      returns (r: int)
    requires Stage(t, slots, users, open, members) && slots - open != {}
    requires u in users && forall m :: m in members ==> m.userId != u
    ensures r in slots - open && r == Least(slots - open)
    ensures Stage(Apply(t, Create(u, [97], 8, 0)), slots, users, open + {r}, members + {Member(r, u)})
  {
    forall x ensures x in FreeRooms(t) <==> x in slots - open {
      assert x in t.rooms <==> x in slots;
    }
    assert FreeRooms(t) == slots - open;
    RoomsOfRows(t, u);
    r := Least(slots - open);
  }

  lemma AddStage(t: Tables, slots: set<int>, users: set<int>, open: set<int>, members: set<Member>, r: int, u: int)
    requires Stage(t, slots, users, open, members) && r in open && r in slots && u in users
    requires Member(r, u) !in members && |set m | m in members && m.roomId == r| < 8
    ensures Stage(Apply(t, Add(r, u)), slots, users, open, members + {Member(r, u)})
  {
    assert RowsIn(t, r) == set m | m in members && m.roomId == r;
  }

  lemma RemoveStage(t: Tables, slots: set<int>, users: set<int>, open: set<int>, members: set<Member>, u: int, r: int)
    requires Stage(t, slots, users, open, members) && Member(r, u) in members && r in slots
    ensures PickOk(t, u, r)
    ensures var left := set m | m in members && m.userId != u;
            Stage(Apply(t, Remove(u, r)), slots, users,
                  if exists m :: m in left && m.roomId == r then open else open - {r}, left)
  {
    RoomsOfRows(t, u);
    var d := DeleteUser(t, u);
    assert RowsIn(d, r) == {} <==> !exists m :: m in d.members && m.roomId == r by {
      assert forall m :: m in d.members && m.roomId == r ==> m in RowsIn(d, r);
    }
  }

  lemma CreateFirst(t: Tables, u: int) returns (a: int)
    requires Initial(t) && u in t.users && |t.rooms| >= 2
    ensures a in t.rooms
    ensures Stage(Apply(t, Create(u, [97], 8, 0)), t.rooms.Keys, t.users, {a}, {Member(a, u)})
  {
    var slots := t.rooms.Keys;
    assert slots - {} == slots != {};
    a := CreateStage(t, slots, t.users, {}, {}, u);
    assert {} + {a} == {a} && {} + {Member(a, u)} == {Member(a, u)};
  }

  /** One room each for u and v. */
  lemma CreateTwo(t: Tables, u: int, v: int) returns (a: int, b: int)
    requires Initial(t) && u in t.users && v in t.users && u != v && |t.rooms| >= 2
    ensures a in t.rooms && b in t.rooms && a != b
    ensures Stage(Apply(Apply(t, Create(u, [97], 8, 0)), Create(v, [97], 8, 0)), t.rooms.Keys, t.users,
                  {a} + {b}, {Member(a, u)} + {Member(b, v)})
  {
    var slots, users := t.rooms.Keys, t.users;
    a := CreateFirst(t, u);
    OneOutLeaves(slots, a);
    b := CreateStage(Apply(t, Create(u, [97], 8, 0)), slots, users, {a}, {Member(a, u)}, v);
  }

  /** u joins the room of v, who leaves it. */
  lemma JoinThenLeave(t: Tables, slots: set<int>, users: set<int>, u: int, v: int, a: int, b: int)
    requires Stage(t, slots, users, {a} + {b}, {Member(a, u)} + {Member(b, v)})
    requires a in slots && b in slots && a != b && u in users && u != v
    ensures PickOk(Apply(t, Add(b, u)), v, b)
    ensures Stage(Apply(Apply(t, Add(b, u)), Remove(v, b)), slots, users,
                  {a} + {b}, {Member(a, u)} + {Member(b, u)})
  {
    var open, two := {a} + {b}, {Member(a, u)} + {Member(b, v)};
    assert (set m | m in two && m.roomId == b) == {Member(b, v)};
    AddStage(t, slots, users, open, two, b, u);
    var three, left := two + {Member(b, u)}, {Member(a, u)} + {Member(b, u)};
    RemoveStage(Apply(t, Add(b, u)), slots, users, open, three, v, b);
    assert (set m | m in three && m.userId != v) == left;
    assert Member(b, u) in left;
  }

  /** The four requests: u and v create a room each, u joins the room of v, v leaves it. */
  lemma TwoRoomRun(t: Tables, u: int, v: int) returns (ts: seq<Tables>, ops: seq<Op>, a: int, b: int)
    requires Initial(t) && u in t.users && v in t.users && u != v && |t.rooms| >= 2
    ensures Run(ts, ops) && ts[0] == t && |ops| == 4 && a in t.rooms && b in t.rooms && a != b
    ensures Stage(ts[4], t.rooms.Keys, t.users, {a} + {b}, {Member(a, u)} + {Member(b, u)})
  {
    a, b := CreateTwo(t, u, v);
    ops := [Create(u, [97], 8, 0), Create(v, [97], 8, 0), Add(b, u), Remove(v, b)];
    var t1 := Apply(t, ops[0]);
    var t2 := Apply(t1, ops[1]);
    JoinThenLeave(t2, t.rooms.Keys, t.users, u, v, a, b);
    var t3 := Apply(t2, ops[2]);
    var t4 := Apply(t3, ops[3]);
    ts := [t, t1, t2, t3, t4];
    FourSteps(t, t1, t2, t3, t4, ops);
  }

  lemma FourSteps(t: Tables, t1: Tables, t2: Tables, t3: Tables, t4: Tables, ops: seq<Op>)
    requires |ops| == 4 && Legal(t, ops[0]) && Legal(t1, ops[1]) && Legal(t2, ops[2]) && Legal(t3, ops[3])
    requires t1 == Apply(t, ops[0]) && t2 == Apply(t1, ops[1]) && t3 == Apply(t2, ops[2]) && t4 == Apply(t3, ops[3])
    ensures Run([t, t1, t2, t3, t4], ops)
  {
  }

  lemma OneOutLeaves(s: set<int>, x: int)
    requires |s| >= 2
    ensures s - {x} != {}
  {
    if s - {x} == {} {
      SubsetCard(s, {x});
    }
  }

  /** Where D1 failed the one-room check leaves an open room without players: from every initial state with
      two slots, any two users get there. */
  lemma RemoveMissesASecondRoom(t: Tables, u: int, v: int) returns (ts: seq<Tables>, ops: seq<Op>, pick: int)
    requires Initial(t) && u in t.users && v in t.users && u != v && |t.rooms| >= 2
    ensures Run(ts, ops) && ts[0] == t
    ensures var e := ts[|ops|];
            && PickOk(e, u, pick) && NoEmptyOpenRoom(e)
            && RemovePlayer(e, u, pick).0 != ExitAll(e, {u})
            && !NoEmptyOpenRoom(RemovePlayer(e, u, pick).0)
  {
    var a, b;
    ts, ops, a, b := TwoRoomRun(t, u, v);
    pick := a;
    SecondRoomIsMissed(ts[4], t.rooms.Keys, t.users, u, a, b);
    AnyRunSafe(ts, ops, 4);
    RemoveRefinesSimpleRule(ts[4], u, a);
  }

  lemma SecondRoomIsMissed(t: Tables, slots: set<int>, users: set<int>, u: int, a: int, b: int)
    requires Stage(t, slots, users, {a} + {b}, {Member(a, u)} + {Member(b, u)}) && a in slots && b in slots && a != b
    ensures PickOk(t, u, a) && NoEmptyOpenRoom(t) && Missed(t, u, a, b)
    ensures !NoEmptyOpenRoom(RemovePlayer(t, u, a).0)
  {
    var members := {Member(a, u)} + {Member(b, u)};
    assert Member(a, u) in RowsIn(t, a) && RowsIn(t, b) == {Member(b, u)};
    RoomsOfRows(t, u);
    RemoveStage(t, slots, users, {a} + {b}, members, u, a);
    var t' := RemovePlayer(t, u, a).0;
    assert (set m | m in members && m.userId != u) == {};
    assert t'.members == {} && RowsIn(t', b) == {} && t'.rooms[b].status == Waiting;
  }

  lemma SeedHasTwo()
    ensures Initial(SeedTables()) && |SeedTables().rooms| >= 2
    ensures 1 in SeedTables().users && 2 in SeedTables().users
  {
    SeedIsInitial();
    var keys := SeedTables().rooms.Keys;
    assert keys == SEED_SLOTS;
    SubsetCard({1, 2}, keys);
  }

  /** With the seed script, users 1 and 2 are enough. */
  lemma SeededRunMissesARoom() returns (ts: seq<Tables>, ops: seq<Op>, pick: int)
    ensures Run(ts, ops) && ts[0] == SeedTables()
    ensures NoEmptyOpenRoom(ts[|ops|]) && !NoEmptyOpenRoom(RemovePlayer(ts[|ops|], 1, pick).0)
  {
    SeedHasTwo();
    ts, ops, pick := RemoveMissesASecondRoom(SeedTables(), 1, 2);
  }
}
