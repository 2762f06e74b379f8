/** The status a session shows agrees with the tables, in any run in which ports are not user ids. */
module StatusRuns {
  import opened Wrappers
  import opened RoomTables
  import opened SessionModel
  import opened SessionRuns

  ghost predicate Shows(st: State, i: SessionId, room: int)
    requires i in st.live
  {
    st.live[i].phase == Open && st.live[i].userId > 0 && st.live[i].status == InRoom(room)
  }

  ghost predicate StatusAgrees(st: State) {
    forall i, n :: i in st.live && Shows(st, i, n) ==> Member(n, st.live[i].userId) in st.db.members
  }

  /** What one session's leaving keeps of the others. */
  lemma RemovalKeepsOthers(st: State, i: SessionId, j: SessionId, n: int, pick: int)
    requires Registry(st) && SchemaOk(st.db) && PortsAreNotUsers(st) && StatusAgrees(st)
    requires i in st.live && j in st.live && i != j && Shows(st, i, n)
    ensures Member(n, st.live[i].userId) in RemovePlayer(st.db, st.live[j].userId, pick).0.members
  {
    RoomUserIsExclusive(st, i, j, n);
    RemovedRows(st.db, st.live[j].userId, pick);
  }

  lemma HandleErrorAgrees(st: State, id: SessionId, pick: int, fault: bool)
    requires Registry(st) && SchemaOk(st.db) && PortsAreNotUsers(st) && StatusAgrees(st) && id in st.live
    ensures StatusAgrees(HandleError(st, id, pick, fault))
  {
    var st' := HandleError(st, id, pick, fault);
    forall i, n | i in st'.live && Shows(st', i, n) ensures Member(n, st'.live[i].userId) in st'.db.members {
      assert i != id && st'.live[i] == st.live[i];
      RemovalKeepsOthers(st, i, id, n, pick);
    }
  }

  lemma RemoveKeepsUsers(t: Tables, user: int, pick: int)
    ensures RemovePlayer(t, user, pick).0.users == t.users
  {
  }

  lemma EvictAgrees(st: State, v: Victim)
    requires Registry(st) && AnyRunInv(st.db) && PortsAreNotUsers(st) && StatusAgrees(st) && VictimPickOk(st, v)
    ensures StatusAgrees(Evict(st, v)) && PortsAreNotUsers(Evict(st, v))
    ensures AnyRunInv(Evict(st, v).db) && Registry(Evict(st, v))
  {
    EvictDb(st, v);
    EvictKeeps(st, v);
    if v.token in st.sessions {
      var id := st.sessions[v.token];
      var st1 := st.(sessions := st.sessions - {v.token});
      RemoveKeepsUsers(st.db, st.live[id].userId, v.pick);
      var st' := Evict(st, v);
      forall i, n | i in st'.live && Shows(st', i, n) ensures Member(n, st'.live[i].userId) in st'.db.members {
        assert i != id && st'.live[i] == st.live[i] && Shows(st, i, n);
        RemovalKeepsOthers(st, i, id, n, v.pick);
      }
    }
  }

  lemma {:induction false} EvictAllAgrees(st: State, vs: seq<Victim>)
    requires Registry(st) && AnyRunInv(st.db) && PortsAreNotUsers(st) && StatusAgrees(st)
    requires forall i :: 0 <= i < |vs| ==> VictimPickOk(EvictAll(st, vs[..i]), vs[i])
    ensures StatusAgrees(EvictAll(st, vs)) && PortsAreNotUsers(EvictAll(st, vs))
    ensures AnyRunInv(EvictAll(st, vs).db) && Registry(EvictAll(st, vs))
  {
    if vs != [] {
      var init := vs[..|vs| - 1];
      assert forall i :: 0 <= i < |init| ==> init[..i] == vs[..i];
      EvictAllAgrees(st, init);
      EvictAgrees(EvictAll(st, init), vs[|vs| - 1]);
    }
  }

  lemma CreatedRow(t: Tables, host: int, name: seq<byte>, max: int, now: int)
    ensures var (t', r) := CreateRoom(t, host, name, max, now);
            t.members <= t'.members && (r.Some? ==> Member(r.value, host) in t'.members)
  {
  }

  lemma RoomRequestAgrees(st: State, step: Step, now: int)
    requires Registry(st) && AnyRunInv(st.db) && PortsAreNotUsers(st) && StatusAgrees(st) && Enabled(st, step, now)
    requires step.CreateRoomReq? || step.JoinRoomReq?
    ensures StatusAgrees(Next(st, step, now))
  {
    var e := if step.CreateRoomReq? then CreateRoomEffect(st, step.id, step.name, step.max, step.fault, now)
             else JoinRoomEffect(st, step.id, step.room, step.fault);
    if step.CreateRoomReq? && step.name.Some? && step.max.Some? {
      CreatedRow(st.db, st.live[step.id].userId, step.name.value, step.max.value, now);
    }
    assert st.db.members <= e.db.members;
    assert e.status == st.live[step.id].status
        || (e.status.InRoom? && Member(e.status.roomId, st.live[step.id].userId) in e.db.members);
    GrowthAgrees(st, step.id, e);
  }

  lemma GrowthAgrees(st: State, id: SessionId, e: Effect)
    requires id in st.live && StatusAgrees(st) && st.db.members <= e.db.members
    requires e.status == st.live[id].status
          || (e.status.InRoom? && Member(e.status.roomId, st.live[id].userId) in e.db.members)
    ensures StatusAgrees(After(st, id, e))
  {
    var st' := After(st, id, e);
    forall i, n | i in st'.live && Shows(st', i, n) ensures Member(n, st'.live[i].userId) in st'.db.members {
      if i != id || e.status == st.live[id].status {
        assert Shows(st, i, n);
      }
    }
  }

  lemma ExitAgrees(st: State, id: SessionId, pick: int, fault: bool)
    requires Registry(st) && AnyRunInv(st.db) && PortsAreNotUsers(st) && StatusAgrees(st) && id in st.live
    ensures StatusAgrees(After(st, id, ExitRoomEffect(st, id, pick, fault)))
  {
    var st' := After(st, id, ExitRoomEffect(st, id, pick, fault));
    forall i, n | i in st'.live && Shows(st', i, n) ensures Member(n, st'.live[i].userId) in st'.db.members {
      if i != id {
        assert st'.live[i] == st.live[i] && Shows(st, i, n);
        RemovalKeepsOthers(st, i, id, n, pick);
      } else {
        assert Shows(st, i, n);
      }
    }
  }

  lemma LoginAgrees(st: State, id: SessionId, user: int, token: Token)
    requires StatusAgrees(st) && id in st.live
    ensures StatusAgrees(LoginSession(st, id, user, token))
  {
    var st' := LoginSession(st, id, user, token);
    forall i, n | i in st'.live && Shows(st', i, n) ensures Member(n, st'.live[i].userId) in st'.db.members {
      assert Shows(st, i, n);
    }
  }

  lemma SameRowsAgree(st: State, st': State)
    requires StatusAgrees(st) && st'.db.members == st.db.members
    requires forall i, n :: i in st'.live && Shows(st', i, n) ==>
               i in st.live && Shows(st, i, n) && st'.live[i].userId == st.live[i].userId
    ensures StatusAgrees(st')
  {
  }

  lemma SessionStepAgrees(st: State, step: Step, now: int)
    requires Registry(st) && StatusAgrees(st) && Enabled(st, step, now)
    requires step.Accept? || step.MirrorHandshake? || step.ClientHandshake? || step.LoginLookupFault? || step.NewUser?
          || step.Ping? || step.Destroy?
    ensures StatusAgrees(Next(st, step, now))
  {
    SameRowsAgree(st, Next(st, step, now));
  }

  lemma StatusStep(st: State, step: Step, now: int)
    requires Registry(st) && AnyRunInv(st.db) && PortsAreNotUsers(st) && StatusAgrees(st) && Enabled(st, step, now)
    ensures StatusAgrees(Next(st, step, now))
  {
    match step
    case Accept => SessionStepAgrees(st, step, now);
    case MirrorHandshake(id, port) => SessionStepAgrees(st, step, now);
    case ClientHandshake(id, token) => SessionStepAgrees(st, step, now);
    case Login(id, user, token) => LoginAgrees(st, id, user, token);
    case LoginLookupFault(id) => SessionStepAgrees(st, step, now);
    case NewUser(user) => SessionStepAgrees(st, step, now);
    case CreateRoomReq(id, name, max, fault) => RoomRequestAgrees(st, step, now);
    case JoinRoomReq(id, room, fault) => RoomRequestAgrees(st, step, now);
    case ExitRoomReq(id, pick, fault) => ExitAgrees(st, id, pick, fault);
    case GameStartReq(id, room, mapId, fault) => GrowthAgrees(st, id, GameStartEffect(st, id, room, mapId, fault));
    case GameEndReq(id, game, fault) => GrowthAgrees(st, id, GameEndEffect(st, id, game, fault));
    case Ping(id) => SessionStepAgrees(st, step, now);
    case Close(id, pick, fault) => HandleErrorAgrees(st, id, pick, fault);
    case Destroy(id) => SessionStepAgrees(st, step, now);
    case Sweep(vs) => EvictAllAgrees(st, vs);
  }

  /** An open logged-in session that says it is in a room is in that room. */
  lemma {:induction false} StatusIsMembership(sts: seq<State>, steps: seq<Step>, times: seq<int>, k: nat)
    requires ServerRun(sts, steps, times) && Start(sts[0]) && PortsApart(sts) && k < |sts|
    ensures StatusAgrees(sts[k])
  {
    if k > 0 {
      StatusIsMembership(sts, steps, times, k - 1);
      EveryRunSafe(sts, steps, times, k - 1);
      assert StepAt(sts, steps, times, k - 1);
      StatusStep(sts[k - 1], steps[k - 1], times[k - 1]);
    }
  }
}
