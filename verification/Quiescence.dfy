/** Disciplined runs without database failures leave no ghost players, and go quiet once every session closes. */
module Quiescence {
  import opened Wrappers
  import opened RoomTables
  import opened RoomRuns
  import opened SessionModel
  import opened SessionRuns

  ghost predicate SeatedBy(st: State, i: SessionId, userId: int) {
    i in st.live && st.live[i].phase == Open && st.live[i].userId == userId
  }

  /** Every row of room_users names the user of an open session. */
  ghost predicate NoGhosts(st: State) {
    forall m :: m in st.db.members ==> m.userId > 0 && exists i :: SeatedBy(st, i, m.userId)
  }

  ghost predicate Tidy(st: State) {
    Registry(st) && DisciplinedInv(st.db) && NoGhosts(st)
  }

  /** Rooms may lose rows, and open sessions may go only if their user has lost his rows. */
  lemma ShrinkKeeps(st: State, st': State)
    requires NoGhosts(st) && st'.db.members <= st.db.members
    requires forall i, m :: m in st'.db.members && SeatedBy(st, i, m.userId) ==> SeatedBy(st', i, m.userId)
    ensures NoGhosts(st')
  {
    forall m | m in st'.db.members ensures m.userId > 0 && exists i :: SeatedBy(st', i, m.userId) {
      var i :| SeatedBy(st, i, m.userId);
      assert SeatedBy(st', i, m.userId);
    }
  }

  lemma HandleErrorTidy(st: State, id: SessionId, pick: int)
    requires Tidy(st) && id in st.live && PickOk(st.db, st.live[id].userId, pick)
    ensures Tidy(HandleError(st, id, pick, false))
  {
    var st', u := HandleError(st, id, pick, false), st.live[id].userId;
    HandleErrorKeeps(st, id, pick, false);
    RemovedRows(st.db, u, pick);
    DisciplinedStepKeeps(st.db, Remove(u, pick));
    forall i, m | m in st'.db.members && SeatedBy(st, i, m.userId) ensures SeatedBy(st', i, m.userId) {
      assert m in st.db.members && m.userId > 0;
      assert i != id;
    }
    ShrinkKeeps(st, st');
  }

  lemma EvictTidy(st: State, v: Victim)
    requires Tidy(st) && VictimPickOk(st, v) && !v.fault
    ensures Tidy(Evict(st, v))
  {
    if v.token in st.sessions {
      var id := st.sessions[v.token];
      HandleErrorTidy(st, id, v.pick);
      EvictKeeps(st, v);
      var h, st' := HandleError(st, id, v.pick, false), Evict(st, v);
      assert st' == h.(sessions := h.sessions - {v.token});
      ShrinkKeeps(h, st');
    }
  }

  lemma {:induction false} EvictAllTidy(st: State, vs: seq<Victim>)
    requires Tidy(st) && forall v :: v in vs ==> !v.fault
    requires forall i :: 0 <= i < |vs| ==> VictimPickOk(EvictAll(st, vs[..i]), vs[i])
    ensures Tidy(EvictAll(st, vs))
  {
    if vs != [] {
      var init := vs[..|vs| - 1];
      assert forall i :: 0 <= i < |init| ==> init[..i] == vs[..i];
      EvictAllTidy(st, init);
      EvictTidy(EvictAll(st, init), vs[|vs| - 1]);
    }
  }

  /** Rows are added only under the requester's own user. */
  lemma RequestTidy(st: State, id: SessionId, e: Effect)
    requires Tidy(st) && id in st.live && st.live[id].phase == Open
    requires DisciplinedInv(e.db)
    requires forall m :: m in e.db.members ==> m in st.db.members || (m.userId == st.live[id].userId && m.userId > 0)
    ensures Tidy(After(st, id, e))
  {
    var st' := After(st, id, e);
    AfterIdentity(st, id, e);
    forall m | m in st'.db.members ensures m.userId > 0 && exists i :: SeatedBy(st', i, m.userId) {
      if m in st.db.members {
        var i :| SeatedBy(st, i, m.userId);
        assert SeatedBy(st', i, m.userId);
      } else {
        assert SeatedBy(st', id, m.userId);
      }
    }
  }

  lemma RoomRequestTidy(st: State, step: Step, now: int)
    requires Tidy(st) && Enabled(st, step, now) && Guarded(st, step) && NoFault(step)
    requires step.CreateRoomReq? || step.JoinRoomReq? || step.ExitRoomReq?
    ensures Tidy(Next(st, step, now))
  {
    var u := st.live[step.id].userId;
    if u == 0 {
      RequestTidy(st, step.id, Untouched(st, step.id));
    } else if step.CreateRoomReq? {
      CreateTidy(st, step.id, step.name, step.max, now);
    } else if step.JoinRoomReq? {
      if step.room.Some? {
        DisciplinedStepKeeps(st.db, Add(step.room.value, u));
      }
      RequestTidy(st, step.id, JoinRoomEffect(st, step.id, step.room, false));
    } else {
      DisciplinedStepKeeps(st.db, Remove(u, step.pick));
      RemovedRows(st.db, u, step.pick);
      RequestTidy(st, step.id, ExitRoomEffect(st, step.id, step.pick, false));
    }
  }

  lemma CreateTidy(st: State, id: SessionId, name: Option<seq<byte>>, max: Option<int>, now: int)
    requires Tidy(st) && id in st.live && st.live[id].phase == Open
    ensures Tidy(After(st, id, CreateRoomEffect(st, id, name, max, false, now)))
  {
    var u, e := st.live[id].userId, CreateRoomEffect(st, id, name, max, false, now);
    if e.db != st.db {
      DisciplinedStepKeeps(st.db, Create(u, name.value, max.value, now));
      assert e.db == CreateRoom(st.db, u, name.value, max.value, now).0;
      assert u in st.db.users;
    }
    RequestTidy(st, id, e);
  }

  lemma GameRequestTidy(st: State, step: Step, now: int)
    requires Tidy(st) && Enabled(st, step, now) && Guarded(st, step)
    requires step.GameStartReq? || step.GameEndReq?
    ensures Tidy(Next(st, step, now))
  {
    if step.GameStartReq? {
      DisciplinedStepKeeps(st.db, StartGame(step.gameRoom, step.mapId));
      RequestTidy(st, step.id, GameStartEffect(st, step.id, step.gameRoom, step.mapId, step.fault));
    } else {
      DisciplinedStepKeeps(st.db, StopGame(step.game));
      RequestTidy(st, step.id, GameEndEffect(st, step.id, step.game, step.fault));
    }
  }

  /** Every seated session survives with its user. */
  lemma SeatsSurvive(st: State, st': State)
    requires Tidy(st) && Registry(st') && DisciplinedInv(st'.db) && st'.db.members == st.db.members
    requires forall i :: i in st.live && st.live[i].phase == Open && st.live[i].userId > 0 ==>
               SeatedBy(st', i, st.live[i].userId)
    ensures Tidy(st')
  {
    ShrinkKeeps(st, st');
  }

  lemma LoginTouchesOne(st: State, id: SessionId, user: int, token: Token)
    requires id in st.live
    ensures var st' := LoginSession(st, id, user, token);
            st'.db == st.db && forall i :: i in st.live && i != id ==> i in st'.live && st'.live[i] == st.live[i]
  {
  }

  lemma LoginTidy(st: State, id: SessionId, user: int, token: Token, now: int)
    requires Tidy(st) && Enabled(st, Login(id, user, token), now) && st.live[id].userId == 0
    ensures Tidy(LoginSession(st, id, user, token))
  {
    LoginKeeps(st, id, user, token);
    LoginTouchesOne(st, id, user, token);
    SeatsSurvive(st, LoginSession(st, id, user, token));
  }

  lemma HandshakeTidy(st: State, id: SessionId, token: Token, now: int)
    requires Tidy(st) && Enabled(st, ClientHandshake(id, token), now)
    ensures Tidy(Next(st, ClientHandshake(id, token), now))
  {
    HandshakeKeeps(st, id, token);
    var st' := Next(st, ClientHandshake(id, token), now);
    assert forall i :: i in st.live && i != id ==> i in st'.live && st'.live[i] == st.live[i];
    SeatsSurvive(st, st');
  }

  lemma SessionStepTidy(st: State, step: Step, now: int)
    requires Tidy(st) && Enabled(st, step, now)
    requires step.Accept? || step.MirrorHandshake? || step.NewUser? || step.Ping? || step.Destroy?
    ensures Tidy(Next(st, step, now))
  {
    RegistryStep(st, step, now);
    if step.NewUser? {
      DisciplinedStepKeeps(st.db, Enrol(step.user));
    }
    SeatsSurvive(st, Next(st, step, now));
  }

  lemma TidyStep(st: State, step: Step, now: int)
    requires Tidy(st) && Enabled(st, step, now) && Guarded(st, step) && NoFault(step)
    ensures Tidy(Next(st, step, now))
  {
    if step.Sweep? {
      EvictAllTidy(st, step.victims);
    } else if step.Close? {
      HandleErrorTidy(st, step.id, step.pick);
    } else if step.CreateRoomReq? || step.JoinRoomReq? || step.ExitRoomReq? {
      RoomRequestTidy(st, step, now);
    } else if step.GameStartReq? || step.GameEndReq? {
      GameRequestTidy(st, step, now);
    } else if step.Login? {
      LoginTidy(st, step.id, step.user, step.token, now);
    } else if step.ClientHandshake? {
      HandshakeTidy(st, step.id, step.token, now);
    } else {
      SessionStepTidy(st, step, now);
    }
  }

  lemma {:induction false} TidyRun(sts: seq<State>, steps: seq<Step>, times: seq<int>, k: nat)
    requires DisciplinedServerRun(sts, steps, times) && Start(sts[0]) && k < |sts|
    ensures Tidy(sts[k])
  {
    if k == 0 {
      InitialKeeps(sts[0].db);
    } else {
      TidyRun(sts, steps, times, k - 1);
      assert StepAt(sts, steps, times, k - 1);
      TidyStep(sts[k - 1], steps[k - 1], times[k - 1]);
    }
  }

  /** No ghost players: each row names the logged-in user of exactly one open session. */
  lemma NoGhostPlayers(sts: seq<State>, steps: seq<Step>, times: seq<int>, k: nat, m: Member)
    requires DisciplinedServerRun(sts, steps, times) && Start(sts[0]) && k < |sts| && m in sts[k].db.members
    ensures exists i :: SeatedBy(sts[k], i, m.userId) && HoldsLogin(sts[k], i)
              && forall j :: j in sts[k].live && sts[k].live[j].userId == m.userId ==> j == i
  {
    TidyRun(sts, steps, times, k);
    var st := sts[k];
    var i :| SeatedBy(st, i, m.userId);
    forall j | j in st.live && j != i ensures st.live[j].userId != m.userId {
      RoomUserIsExclusive(st, i, j, m.roomId);
    }
    assert m.userId in st.db.users;
    assert forall x :: x in st.live && st.live[x].userId == m.userId ==> HoldsLogin(st, x);
  }

  // ---------- Why a second login leaves ghosts ----------

  /** An accepted login leaves no ghost exactly when the session was not seated: the rows of a user it was
      logged in as stay behind without a session (D3 rules this out). */
  lemma LoginLeavesGhostsExactly(st: State, id: SessionId, user: int, token: Token, now: int)
    requires Tidy(st) && PortsAreNotUsers(st)
    requires Enabled(st, Login(id, user, token), now) && user !in st.tokens
    ensures NoGhosts(LoginSession(st, id, user, token)) <==>
              (st.live[id].userId > 0 ==> RoomsOf(st.db, st.live[id].userId) == {})
  {
    var st', u := LoginSession(st, id, user, token), st.live[id].userId;
    LoginWrites(st, id, user, token);
    LoginTouchesOne(st, id, user, token);
    RoomsOfRows(st.db, u);
    if u > 0 && RoomsOf(st.db, u) != {} {
      var room := Witness(RoomsOf(st.db, u));
      SeatIsLost(st, id, user, token, room);
    } else {
      forall i, m | m in st.db.members && SeatedBy(st, i, m.userId) ensures SeatedBy(st', i, m.userId) {
        assert m.userId > 0 && i != id;
      }
      ShrinkKeeps(st, st');
    }
  }

  lemma SeatIsLost(st: State, id: SessionId, user: int, token: Token, room: int)
    requires Tidy(st) && PortsAreNotUsers(st) && id in st.live && user !in st.tokens
    requires st.live[id].userId > 0 && Member(room, st.live[id].userId) in st.db.members
    ensures !NoGhosts(LoginSession(st, id, user, token))
  {
    var st', m := LoginSession(st, id, user, token), Member(room, st.live[id].userId);
    LoginWrites(st, id, user, token);
    LoginTouchesOne(st, id, user, token);
    forall i ensures !SeatedBy(st', i, m.userId) {
      if i in st.live && i != id {
        RoomUserIsExclusive(st, id, i, room);
      } else if i == id {
        RoomUserHolds(st, id, room);
      }
    }
    assert m in st'.db.members;
  }

  /** A seated user has a token entry, so no login as that user is accepted. */
  lemma RoomUserHolds(st: State, id: SessionId, room: int)
    requires Tidy(st) && PortsAreNotUsers(st) && id in st.live
    requires st.live[id].userId > 0 && Member(room, st.live[id].userId) in st.db.members
    ensures st.live[id].userId in st.tokens
  {
    assert st.live[id].userId in st.db.users;
    assert HoldsLogin(st, id);
  }

  // ---------- Quiescence ----------

  ghost predicate NobodyOpen(st: State) {
    forall i :: i in st.live ==> st.live[i].phase != Open
  }

  ghost predicate Quiet(t: Tables) {
    && t.members == {}
    && (forall r :: r in t.rooms ==> t.rooms[r].status == Terminated)
    && (forall g :: g in t.games ==> t.games[g].status == Completed)
  }

  lemma TidyQuiet(st: State)
    requires Tidy(st) && NobodyOpen(st)
    ensures Quiet(st.db)
  {
    assert forall i, u :: !SeatedBy(st, i, u);
    assert st.db.members == {};
    assert forall r :: RowsIn(st.db, r) == {};
    assert forall g :: g in st.db.games ==> st.db.games[g].roomId in st.db.rooms;
  }

  /** Whenever no session is open, room_users is empty, every slot is free and every game is over. */
  lemma QuietWhenNobodyIsOpen(sts: seq<State>, steps: seq<Step>, times: seq<int>, k: nat)
    requires DisciplinedServerRun(sts, steps, times) && Start(sts[0]) && k < |sts| && NobodyOpen(sts[k])
    ensures Quiet(sts[k].db)
  {
    TidyRun(sts, steps, times, k);
    TidyQuiet(sts[k]);
  }

  /** handle_error for each listed session in turn, without database failures. */
  ghost predicate Closings(sts: seq<State>, ids: seq<SessionId>, picks: seq<int>) {
    && |sts| == |ids| + 1 == |picks| + 1
    && forall i :: 0 <= i < |ids| ==> ClosingAt(sts, ids, picks, i)
  }

  ghost predicate ClosingAt(sts: seq<State>, ids: seq<SessionId>, picks: seq<int>, i: nat)
    requires |sts| == |ids| + 1 == |picks| + 1 && i < |ids|
  {
    && ids[i] in sts[i].live && PickOk(sts[i].db, sts[i].live[ids[i]].userId, picks[i])
    && sts[i + 1] == HandleError(sts[i], ids[i], picks[i], false)
  }

  ghost function ClosedUsers(st: State, ids: seq<SessionId>, k: nat): set<int>
    requires k <= |ids| && forall i :: 0 <= i < |ids| ==> ids[i] in st.live
  {
    set i | 0 <= i < k && st.live[ids[i]].userId > 0 :: st.live[ids[i]].userId
  }

  ghost predicate SameSessions(a: State, b: State) {
    a.live.Keys == b.live.Keys && forall i :: i in a.live ==>
      a.live[i].userId == b.live[i].userId && (b.live[i].phase == Open ==> a.live[i].phase == Open)
  }

  lemma UsersSoFar(st: State, ids: seq<SessionId>, k: nat)
    requires k < |ids| && forall i :: 0 <= i < |ids| ==> ids[i] in st.live
    ensures ClosedUsers(st, ids, k + 1)
         == ClosedUsers(st, ids, k) + if st.live[ids[k]].userId > 0 then {st.live[ids[k]].userId} else {}
  {
  }

  lemma ExitOne(st: State, id: SessionId, pick: int)
    requires DisciplinedInv(st.db) && id in st.live && PickOk(st.db, st.live[id].userId, pick)
    ensures HandleError(st, id, pick, false).db
         == ExitAll(st.db, if st.live[id].userId > 0 then {st.live[id].userId} else {})
  {
    RemoveIsSimple(st.db, st.live[id].userId, pick);
    ExitNobody(st.db);
  }

  ghost predicate ClosedSoFar(start: State, st: State, ids: seq<SessionId>, k: nat)
    requires k <= |ids|
  {
    && SameSessions(start, st)
    && (forall i :: 0 <= i < k ==> ids[i] in st.live && st.live[ids[i]].phase == Closed)
  }

  lemma {:induction false} ClosingsClose(sts: seq<State>, ids: seq<SessionId>, picks: seq<int>, k: nat)
    requires Closings(sts, ids, picks) && Tidy(sts[0]) && k < |sts|
    ensures Tidy(sts[k]) && ClosedSoFar(sts[0], sts[k], ids, k)
  {
    if k > 0 {
      ClosingsClose(sts, ids, picks, k - 1);
      assert ClosingAt(sts, ids, picks, k - 1);
      HandleErrorTidy(sts[k - 1], ids[k - 1], picks[k - 1]);
      HandleErrorCloses(sts[0], sts[k - 1], ids, k - 1, picks[k - 1]);
    }
  }

  lemma HandleErrorCloses(start: State, st: State, ids: seq<SessionId>, k: nat, pick: int)
    requires k < |ids| && ids[k] in st.live && ClosedSoFar(start, st, ids, k)
    ensures ClosedSoFar(start, HandleError(st, ids[k], pick, false), ids, k + 1)
  {
  }

  /** The tables are those of the users of the first k sessions leaving at once. */
  ghost predicate LeftSoFar(start: State, st: State, ids: seq<SessionId>, k: nat) {
    && k <= |ids| && (forall i :: 0 <= i < |ids| ==> ids[i] in start.live)
    && st.db == ExitAll(start.db, ClosedUsers(start, ids, k))
  }

  lemma ClosingsExit(sts: seq<State>, ids: seq<SessionId>, picks: seq<int>, k: nat)
    requires Closings(sts, ids, picks) && Tidy(sts[0]) && k < |sts|
    requires forall i :: 0 <= i < |ids| ==> ids[i] in sts[0].live
    ensures LeftSoFar(sts[0], sts[k], ids, k)
  {
    var start := sts[0];
    NobodyLeft(start, ids);
    for j := 0 to k
      invariant LeftSoFar(start, sts[j], ids, j)
    {
      ClosingState(sts, ids, picks, j);
      ClosingExit(start, sts[j], sts[j + 1], ids, j, picks[j]);
    }
  }

  lemma NobodyLeft(st: State, ids: seq<SessionId>)
    requires DisciplinedInv(st.db) && forall i :: 0 <= i < |ids| ==> ids[i] in st.live
    ensures LeftSoFar(st, st, ids, 0)
  {
    ExitNobody(st.db);
    assert ClosedUsers(st, ids, 0) == {};
  }

  /** What one closing finds and does. */
  ghost predicate Closes(start: State, st: State, st': State, ids: seq<SessionId>, k: nat, pick: int) {
    && k < |ids| && ids[k] in st.live && ids[k] in start.live
    && DisciplinedInv(st.db) && st.live[ids[k]].userId == start.live[ids[k]].userId
    && PickOk(st.db, st.live[ids[k]].userId, pick) && st' == HandleError(st, ids[k], pick, false)
  }

  lemma ClosingState(sts: seq<State>, ids: seq<SessionId>, picks: seq<int>, k: nat)
    requires Closings(sts, ids, picks) && Tidy(sts[0]) && k < |ids|
    ensures Closes(sts[0], sts[k], sts[k + 1], ids, k, picks[k])
  {
    ClosingsClose(sts, ids, picks, k);
    assert ClosingAt(sts, ids, picks, k);
  }

  lemma ClosingExit(start: State, st: State, st': State, ids: seq<SessionId>, k: nat, pick: int)
    requires LeftSoFar(start, st, ids, k) && Closes(start, st, st', ids, k, pick)
    ensures LeftSoFar(start, st', ids, k + 1)
  {
    var us := if st.live[ids[k]].userId > 0 then {st.live[ids[k]].userId} else {};
    var before, after := ClosedUsers(start, ids, k), ClosedUsers(start, ids, k + 1);
    assert after == before + us by {
      UsersSoFar(start, ids, k);
    }
    assert st'.db == ExitAll(st.db, us) by {
      ExitOne(st, ids[k], pick);
    }
    assert ExitAll(ExitAll(start.db, before), us) == ExitAll(start.db, after) by {
      ExitCompose(start.db, before, us);
    }
  }

  /** From every state of a disciplined run, closing the sessions in any order leaves quiet tables,
      the same ones whatever the order. */
  lemma ClosingEverySessionQuiets(sts: seq<State>, steps: seq<Step>, times: seq<int>, k: nat,
                                  cs: seq<State>, ids: seq<SessionId>, picks: seq<int>)
    requires DisciplinedServerRun(sts, steps, times) && Start(sts[0]) && k < |sts|
    requires Closings(cs, ids, picks) && cs[0] == sts[k]
    requires forall i :: 0 <= i < |ids| ==> ids[i] in sts[k].live
    requires forall i :: i in sts[k].live && sts[k].live[i].phase == Open ==> i in ids
    ensures Quiet(cs[|ids|].db)
    ensures cs[|ids|].db == ExitAll(sts[k].db, ClosedUsers(sts[k], ids, |ids|))
  {
    TidyRun(sts, steps, times, k);
    ClosingsClose(cs, ids, picks, |ids|);
    ClosingsExit(cs, ids, picks, |ids|);
    TidyQuiet(cs[|ids|]);
  }
}
