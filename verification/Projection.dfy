/** Every run of the server is, on the tables, a run of the table operations; so the table theorems hold of it. */
module Projection {
  import opened Wrappers
  import opened RoomTables
  import opened RoomRuns
  import opened SessionModel
  import opened SessionRuns
  import RoomName
  import Accounts

  /** A table run from a to b, disciplined if asked for. */
  ghost predicate Leads(a: Tables, ts: seq<Tables>, ops: seq<Op>, b: Tables, disciplined: bool) {
    && Run(ts, ops) && ts[0] == a && ts[|ops|] == b
    && (disciplined ==> DisciplinedRun(ts, ops))
  }

  lemma Stay(a: Tables, disciplined: bool)
    ensures Leads(a, [a], [], a, disciplined)
  {
  }

  lemma One(a: Tables, op: Op, disciplined: bool)
    requires Legal(a, op) && (disciplined ==> Disciplined(a, op))
    ensures Leads(a, [a, Apply(a, op)], [op], Apply(a, op), disciplined)
  {
  }

  lemma Join(a: Tables, ts: seq<Tables>, ops: seq<Op>, b: Tables, us: seq<Tables>, qs: seq<Op>, c: Tables,
             disciplined: bool)
    requires Leads(a, ts, ops, b, disciplined) && Leads(b, us, qs, c, disciplined)
    ensures Leads(a, ts + us[1..], ops + qs, c, disciplined)
  {
    var vs, rs := ts + us[1..], ops + qs;
    forall i | 0 <= i < |rs|
      ensures Legal(vs[i], rs[i]) && vs[i + 1] == Apply(vs[i], rs[i]) && (disciplined ==> Disciplined(vs[i], rs[i]))
    {
      if i < |ops| {
        assert vs[i] == ts[i] && vs[i + 1] == ts[i + 1] && rs[i] == ops[i];
      } else {
        var j := i - |ops|;
        assert vs[i] == us[j] && vs[i + 1] == us[j + 1] && rs[i] == qs[j];
      }
    }
  }

  /** The one table operation of a step that is not a sweep. */
  function OpOf(st: State, step: Step, now: int): Op
    requires Actor(step).Some? ==> Actor(step).value in st.live
  {
    match step
    case NewUser(user) => Enrol(user)
    case CreateRoomReq(id, name, max, fault) =>
      if fault || st.live[id].userId == 0 || name.None? || max.None? || !RoomName.ValidRoomName(name.value)
         || max.value < 2 || max.value > 8 then Faulted
      else Create(st.live[id].userId, name.value, max.value, now)
    case JoinRoomReq(id, room, fault) =>
      if fault || st.live[id].userId == 0 || room.None? then Faulted else Add(room.value, st.live[id].userId)
    case ExitRoomReq(id, pick, fault) =>
      if fault || st.live[id].userId == 0 then Faulted else Remove(st.live[id].userId, pick)
    case GameStartReq(id, room, mapId, fault) =>
      if fault || st.live[id].userId == 0 || !st.live[id].isMirror then Faulted else StartGame(room, mapId)
    case GameEndReq(id, game, fault) =>
      if fault || st.live[id].userId == 0 || !st.live[id].isMirror then Faulted else StopGame(game)
    case Close(id, pick, fault) =>
      if fault || st.live[id].userId <= 0 then Faulted else Remove(st.live[id].userId, pick)
    case _ => Faulted
  }

  lemma StepIsOneOp(st: State, step: Step, now: int)
    requires Enabled(st, step, now) && !step.Sweep?
    ensures Next(st, step, now).db == Apply(st.db, OpOf(st, step, now))
    ensures Legal(st.db, OpOf(st, step, now))
    ensures Guarded(st, step) ==> Disciplined(st.db, OpOf(st, step, now))
  {
  }

  lemma {:induction false} SweepIsRemovals(st: State, vs: seq<Victim>) returns (ts: seq<Tables>, ops: seq<Op>)
    requires forall i :: 0 <= i < |vs| ==> VictimPickOk(EvictAll(st, vs[..i]), vs[i])
    ensures Leads(st.db, ts, ops, EvictAll(st, vs).db, true)
    ensures forall op :: op in ops ==> op.Remove?
  {
    if vs == [] {
      ts, ops := [st.db], [];
      Stay(st.db, true);
    } else {
      var init, v := vs[..|vs| - 1], vs[|vs| - 1];
      assert forall i :: 0 <= i < |init| ==> init[..i] == vs[..i];
      ts, ops := SweepIsRemovals(st, init);
      var mid := EvictAll(st, init);
      if v.token in mid.sessions && mid.sessions[v.token] in mid.live && !v.fault
         && mid.live[mid.sessions[v.token]].userId > 0 {
        var op := Remove(mid.live[mid.sessions[v.token]].userId, v.pick);
        One(mid.db, op, true);
        Join(st.db, ts, ops, mid.db, [mid.db, Apply(mid.db, op)], [op], Apply(mid.db, op), true);
        ts, ops := ts + [mid.db, Apply(mid.db, op)][1..], ops + [op];
      }
    }
  }

  lemma StepLeads(st: State, step: Step, now: int, disciplined: bool) returns (ts: seq<Tables>, ops: seq<Op>)
    requires Enabled(st, step, now) && (disciplined ==> Guarded(st, step))
    ensures Leads(st.db, ts, ops, Next(st, step, now).db, disciplined)
  {
    if step.Sweep? {
      ts, ops := SweepIsRemovals(st, step.victims);
    } else {
      StepIsOneOp(st, step, now);
      One(st.db, OpOf(st, step, now), disciplined);
      ts, ops := [st.db, Apply(st.db, OpOf(st, step, now))], [OpOf(st, step, now)];
    }
  }

  /** The tables of a server run between any two of its states form a table run; with D1 and D2 a disciplined one. */
  lemma {:induction false} ServerRunsProject(sts: seq<State>, steps: seq<Step>, times: seq<int>, i: nat, k: nat,
                                             disciplined: bool)
      returns (ts: seq<Tables>, ops: seq<Op>)
    requires ServerRun(sts, steps, times) && i <= k < |sts|
    requires disciplined ==> forall x :: i <= x < k ==> Guarded(sts[x], steps[x])
    ensures Leads(sts[i].db, ts, ops, sts[k].db, disciplined)
  {
    if k == i {
      ts, ops := [sts[i].db], [];
      Stay(sts[i].db, disciplined);
    } else {
      ts, ops := ServerRunsProject(sts, steps, times, i, k - 1, disciplined);
      assert StepAt(sts, steps, times, k - 1);
      var us, qs := StepLeads(sts[k - 1], steps[k - 1], times[k - 1], disciplined);
      Join(sts[i].db, ts, ops, sts[k - 1].db, us, qs, sts[k].db, disciplined);
      ts, ops := ts + us[1..], ops + qs;
    }
  }

  // ---------- Slot grants in server runs ----------

  /** The request is granted the slot. */
  ghost predicate GrantsSlot(st: State, step: Step, now: int, room: int) {
    step.CreateRoomReq? && step.id in st.live && Grants(st.db, OpOf(st, step, now), room)
  }

  /** The step leads from a state with players in the open room to one where the slot is empty and free; it is
      a request to leave, a closing session or a sweep. */
  ghost predicate FreesSlot(st: State, step: Step, st': State, room: int) {
    && (step.ExitRoomReq? || step.Close? || step.Sweep?)
    && room in st.db.rooms && st.db.rooms[room].status != Terminated && RowsIn(st.db, room) != {}
    && room in st'.db.rooms && st'.db.rooms[room].status == Terminated && RowsIn(st'.db, room) == {}
  }

  lemma {:induction false} SweepFrees(st: State, vs: seq<Victim>, room: int)
    requires AnyRunInv(st.db) && forall i :: 0 <= i < |vs| ==> VictimPickOk(EvictAll(st, vs[..i]), vs[i])
    requires room in st.db.rooms && st.db.rooms[room].status != Terminated
    ensures AnyRunInv(EvictAll(st, vs).db) && EvictAll(st, vs).db.members <= st.db.members
    ensures room in EvictAll(st, vs).db.rooms
    ensures EvictAll(st, vs).db.rooms[room].status == Terminated ==> RowsIn(st.db, room) != {}
  {
    if vs != [] {
      var init, v := vs[..|vs| - 1], vs[|vs| - 1];
      assert forall i :: 0 <= i < |init| ==> init[..i] == vs[..i];
      SweepFrees(st, init, room);
      EvictFrees(EvictAll(st, init), v, room);
      if RowsIn(EvictAll(st, init).db, room) != {} {
        var m := Witness(RowsIn(EvictAll(st, init).db, room));
        assert m in RowsIn(st.db, room);
      }
    }
  }

  lemma EvictFrees(st: State, v: Victim, room: int)
    requires AnyRunInv(st.db) && VictimPickOk(st, v) && room in st.db.rooms
    ensures AnyRunInv(Evict(st, v).db) && Evict(st, v).db.members <= st.db.members
    ensures room in Evict(st, v).db.rooms
    ensures st.db.rooms[room].status != Terminated && Evict(st, v).db.rooms[room].status == Terminated ==>
              RowsIn(st.db, room) != {}
  {
    EvictDb(st, v);
    if v.token in st.sessions && st.sessions[v.token] in st.live {
      var u := st.live[st.sessions[v.token]].userId;
      RemovedRows(st.db, u, v.pick);
      if st.db.rooms[room].status != Terminated && Evict(st, v).db.rooms[room].status == Terminated {
        OnlyRemovalFrees(st.db, Remove(u, v.pick), room);
      }
    }
  }

  lemma StepFrees(st: State, step: Step, now: int, room: int)
    requires AnyRunInv(st.db) && Enabled(st, step, now)
    requires room in st.db.rooms && st.db.rooms[room].status != Terminated
    requires room in Next(st, step, now).db.rooms && Next(st, step, now).db.rooms[room].status == Terminated
    ensures FreesSlot(st, step, Next(st, step, now), room)
  {
    DbStep(st, step, now);
    if step.Sweep? {
      SweepFrees(st, step.victims, room);
    } else {
      StepIsOneOp(st, step, now);
      OnlyRemovalFrees(st.db, OpOf(st, step, now), room);
    }
  }

  /** In every server run two grants of one slot are separated by the step that emptied and freed it. */
  lemma ServerGrantsNeverOverlap(sts: seq<State>, steps: seq<Step>, times: seq<int>, room: int, i: nat, j: nat)
    requires ServerRun(sts, steps, times) && Start(sts[0]) && i < j < |steps|
    requires GrantsSlot(sts[i], steps[i], times[i], room) && GrantsSlot(sts[j], steps[j], times[j], room)
    ensures exists k :: i < k < j && FreesSlot(sts[k], steps[k], sts[k + 1], room)
  {
    assert StepAt(sts, steps, times, i);
    StepIsOneOp(sts[i], steps[i], times[i]);
    ServerFreedBetween(sts, steps, times, room, i + 1, j);
  }

  lemma {:induction false} ServerFreedBetween(sts: seq<State>, steps: seq<Step>, times: seq<int>, room: int,
                                              i: nat, j: nat)
    requires ServerRun(sts, steps, times) && Start(sts[0]) && i <= j < |sts|
    requires room in sts[i].db.rooms && sts[i].db.rooms[room].status != Terminated
    requires room in sts[j].db.rooms && sts[j].db.rooms[room].status == Terminated
    ensures exists k :: i <= k < j && FreesSlot(sts[k], steps[k], sts[k + 1], room)
    decreases j - i
  {
    EveryRunSafe(sts, steps, times, i);
    var ts, ops := ServerRunsProject(sts, steps, times, i, i + 1, false);
    RunKeepsSlots(ts, ops, |ops|);
    if sts[i + 1].db.rooms[room].status == Terminated {
      assert StepAt(sts, steps, times, i);
      StepFrees(sts[i], steps[i], times[i], room);
    } else {
      ServerFreedBetween(sts, steps, times, room, i + 1, j);
    }
  }

  lemma {:induction false} RunKeepsSlots(ts: seq<Tables>, ops: seq<Op>, k: nat)
    requires Run(ts, ops) && k < |ts|
    ensures ts[k].rooms.Keys == ts[0].rooms.Keys
  {
    if k > 0 {
      RunKeepsSlots(ts, ops, k - 1);
      assert ts[k] == Apply(ts[k - 1], ops[k - 1]);
    }
  }

  /** Rooms open at the same time in any state of a server run have distinct ports. */
  lemma ServerPortsDistinct(sts: seq<State>, steps: seq<Step>, times: seq<int>, k: nat)
    requires ServerRun(sts, steps, times) && Start(sts[0]) && k < |sts|
    ensures DistinctPorts(sts[k].db, OpenRooms(sts[k].db))
  {
    var ts, ops := ServerRunsProject(sts, steps, times, 0, k, false);
    OpenRoomsHaveDistinctPorts(ts, ops, |ops|);
  }

  /** No slot is lost in a disciplined server run: occupied and free slots make up the pool. */
  lemma ServerSlotsConserved(sts: seq<State>, steps: seq<Step>, times: seq<int>, k: nat)
    requires DisciplinedServerRun(sts, steps, times) && Start(sts[0]) && k < |sts|
    ensures |OpenRooms(sts[k].db)| + |FreeRooms(sts[k].db)| == |sts[0].db.rooms|
    ensures OpenRooms(sts[k].db) == set m | m in sts[k].db.members :: m.roomId
  {
    var ts, ops := ServerRunsProject(sts, steps, times, 0, k, true);
    SlotsAreConserved(ts, ops, |ops|);
  }

  // ---------- Accounts and users ----------

  /** The ids the tables know as users are those of the accounts: a request on the accounts adds no user, or is
      on the tables the NewUser step of the id it drew. */
  lemma AccountStepIsNewUser(us: Accounts.Users, text: Accounts.Text, op: Accounts.Op, st: State, now: int)
    requires us.rows.Keys == st.db.users && us.seqNo > 0
    ensures var us' := Accounts.Apply(us, text, op);
            && us'.seqNo > 0
            && (us'.rows.Keys == st.db.users
                || (Enabled(st, NewUser(us.seqNo), now)
                    && us'.rows.Keys == Next(st, NewUser(us.seqNo), now).db.users))
  {
    var us' := Accounts.Apply(us, text, op);
    assert us'.rows.Keys == us.rows.Keys || us'.rows.Keys == us.rows.Keys + {us.seqNo};
  }
}
