/** What every run of the server keeps: the registry, exclusive login, and the table invariants. */
module SessionRuns {
  import opened Wrappers
  import opened RoomTables
  import opened RoomRuns
  import opened SessionModel

  // ---------- The registry invariant ----------

  /** Each entry of sessions_ is a live session under its own token; an open session with a token has its entry. */
  ghost predicate EntriesExact(st: State) {
    && (forall t :: t in st.sessions ==>
          t != "" && st.sessions[t] in st.live && st.live[st.sessions[t]].token == t)
    && (forall i :: i in st.live && st.live[i].phase == Open && st.live[i].token != "" ==>
          st.live[i].token in st.sessions)
  }

  /** A logged-in session owns the token entry of its user; no two live sessions share a token. */
  ghost predicate TokensOwned(st: State) {
    && (forall i :: i in st.live && HoldsLogin(st, i) ==>
          st.live[i].userId in st.tokens && st.tokens[st.live[i].userId] == st.live[i].token)
    && (forall i, j :: i in st.live && j in st.live && i != j && st.live[i].token != "" ==>
          st.live[i].token != st.live[j].token)
    && (forall u :: u in st.tokens ==> u > 0)
  }

  /** A session without a token has no user, unless it is a mirror, whose port stands in for one. */
  ghost predicate PhasesOk(st: State) {
    forall i :: i in st.live ==>
      && i < st.nextId
      && (st.live[i].phase == Fresh ==>
            st.live[i].userId == 0 && st.live[i].token == "" && !st.live[i].isMirror && st.live[i].status == Unset)
      && (st.live[i].userId > 0 && st.live[i].token == "" ==>
            st.live[i].isMirror && st.live[i].userId == st.live[i].mirrorPort)
      && (st.live[i].token != "" ==> st.live[i].userId >= -1)
  }

  ghost predicate HoldsLogin(st: State, i: SessionId)
    requires i in st.live
  {
    st.live[i].token != "" && st.live[i].userId > 0
  }

  ghost predicate Registry(st: State) {
    EntriesExact(st) && TokensOwned(st) && PhasesOk(st)
  }

  lemma EraseOneIsAll(st: State, id: SessionId)
    requires EntriesExact(st)
    ensures EraseOne(st.sessions, id) == map t | t in st.sessions && st.sessions[t] != id :: st.sessions[t]
  {
  }

  /** The user of one session may have changed; registering that session with a new token restores the rest. */
  lemma RegisterKeeps(st: State, id: SessionId, s: SessionRec, token: Token)
    requires Registry(st) && id in st.live && FreshToken(st, token)
    requires s.phase != Fresh && s.token == st.live[id].token && s.userId >= 0
    requires s.phase == st.live[id].phase || s.token == ""
    requires s.userId > 0 ==> s.userId !in st.tokens
    ensures Registry(Register(st.(live := st.live[id := s]), id, token))
  {
    var mid := st.(live := st.live[id := s]);
    RegisterEntries(mid, id, token);
    RegisterTokens(st, id, s, token);
    var st' := Register(mid, id, token);
    assert EntriesExact(st') && TokensOwned(st');
    assert PhasesOk(st');
  }

  lemma RegisterTokens(st: State, id: SessionId, s: SessionRec, token: Token)
    requires Registry(st) && id in st.live && FreshToken(st, token)
    requires s.phase != Fresh && s.userId >= 0
    requires s.userId > 0 ==> s.userId !in st.tokens
    ensures TokensOwned(Register(st.(live := st.live[id := s]), id, token))
  {
    var st' := Register(st.(live := st.live[id := s]), id, token);
    assert st'.live == st.live[id := s.(token := token)];
    assert st'.tokens == if s.userId != 0 then st.tokens[s.userId := token] else st.tokens;
    forall i | i in st'.live && HoldsLogin(st', i)
      ensures st'.live[i].userId in st'.tokens && st'.tokens[st'.live[i].userId] == st'.live[i].token
    {
      if i != id {
        assert HoldsLogin(st, i);
      }
    }
  }

  lemma RegisterEntries(st: State, id: SessionId, token: Token)
    requires EntriesExact(st) && id in st.live && token != "" && token !in st.sessions
    requires forall i, j :: i in st.live && j in st.live && i != j && st.live[i].token != "" ==>
               st.live[i].token != st.live[j].token
    ensures EntriesExact(Register(st, id, token))
  {
    EraseOneIsAll(st, id);
  }

  lemma HandleErrorKeeps(st: State, id: SessionId, pick: int, fault: bool)
    requires Registry(st) && id in st.live
    ensures Registry(HandleError(st, id, pick, fault))
  {
  }

  lemma DestroyKeeps(st: State, id: SessionId)
    requires Registry(st) && id in st.live
    ensures Registry(DestroySession(st, id))
  {
    DestroyKeepsEntries(st, id);
    DestroyKeepsTokens(st, id);
    assert PhasesOk(DestroySession(st, id));
  }

  lemma DestroyKeepsEntries(st: State, id: SessionId)
    requires EntriesExact(st) && TokensOwned(st) && id in st.live
    ensures EntriesExact(DestroySession(st, id))
  {
  }

  lemma DestroyKeepsTokens(st: State, id: SessionId)
    requires TokensOwned(st) && id in st.live
    ensures TokensOwned(DestroySession(st, id))
  {
    var st' := DestroySession(st, id);
    forall i | i in st'.live && HoldsLogin(st', i)
      ensures st'.live[i].userId in st'.tokens && st'.tokens[st'.live[i].userId] == st'.live[i].token
    {
      assert HoldsLogin(st, i);
      assert st.live[id].token != "" && st.live[id].userId > 0 ==> HoldsLogin(st, id);
    }
  }

  lemma EvictKeeps(st: State, v: Victim)
    requires Registry(st)
    ensures Registry(Evict(st, v))
  {
  }

  lemma {:induction false} EvictAllKeeps(st: State, vs: seq<Victim>)
    requires Registry(st)
    ensures Registry(EvictAll(st, vs))
  {
    if vs != [] {
      EvictAllKeeps(st, vs[..|vs| - 1]);
      EvictKeeps(EvictAll(st, vs[..|vs| - 1]), vs[|vs| - 1]);
    }
  }

  lemma HandshakeKeeps(st: State, id: SessionId, token: Token)
    requires Registry(st) && id in st.live && st.live[id].phase == Fresh && FreshToken(st, token)
    ensures Registry(Register(st.(live := st.live[id := st.live[id].(phase := Open)]), id, token))
  {
    RegisterKeeps(st, id, st.live[id].(phase := Open), token);
  }

  /** A refused session is closed first and registered all the same: the state is the one of a handshake followed
      by the close. */
  lemma RefusedHandshake(st: State, id: SessionId, token: Token, pick: int, fault: bool)
    requires id in st.live && st.live[id].userId == 0
    ensures Register(HandleError(st, id, pick, fault), id, token)
         == HandleError(Register(st.(live := st.live[id := st.live[id].(phase := Open)]), id, token), id, pick, fault)
  {
    var closed := HandleError(st, id, pick, fault);
    var open := Register(st.(live := st.live[id := st.live[id].(phase := Open)]), id, token);
    assert Register(closed, id, token).live == HandleError(open, id, pick, fault).live;
  }

  lemma LoginKeeps(st: State, id: SessionId, user: int, token: Token)
    requires Registry(st) && id in st.live && st.live[id].phase == Open && FreshToken(st, token) && user >= 0
    ensures Registry(LoginSession(st, id, user, token))
  {
    if user !in st.tokens {
      RegisterKeeps(st, id, st.live[id].(userId := user, status := Lobby), token);
    }
  }

  /** Neither the registry maps nor the identity of a session change. */
  ghost predicate SameIdentity(a: State, b: State) {
    && b.nextId == a.nextId && b.sessions == a.sessions && b.tokens == a.tokens && b.live.Keys == a.live.Keys
    && forall i :: i in a.live ==>
         && b.live[i].phase == a.live[i].phase && b.live[i].userId == a.live[i].userId
         && b.live[i].token == a.live[i].token && b.live[i].isMirror == a.live[i].isMirror
         && b.live[i].mirrorPort == a.live[i].mirrorPort
         && (a.live[i].phase == Fresh ==> b.live[i].status == a.live[i].status)
  }

  lemma SameIdentityKeeps(a: State, b: State)
    requires Registry(a) && SameIdentity(a, b)
    ensures Registry(b)
  {
  }

  lemma AfterIdentity(st: State, id: SessionId, e: Effect)
    requires Registry(st) && id in st.live && st.live[id].phase != Fresh
    ensures Registry(After(st, id, e))
  {
    SameIdentityKeeps(st, After(st, id, e));
  }

  lemma AcceptKeeps(st: State, now: int)
    requires Registry(st)
    ensures Registry(Next(st, Accept, now))
  {
    var st' := Next(st, Accept, now);
    assert forall i :: i in st.live ==> i < st.nextId && st'.live[i] == st.live[i];
  }

  lemma MirrorKeeps(st: State, id: SessionId, port: int, now: int)
    requires Registry(st) && Enabled(st, MirrorHandshake(id, port), now)
    ensures Registry(Next(st, MirrorHandshake(id, port), now))
  {
  }

  lemma LookupFaultKeeps(st: State, id: SessionId, now: int)
    requires Registry(st) && Enabled(st, LoginLookupFault(id), now)
    ensures Registry(Next(st, LoginLookupFault(id), now))
  {
  }

  lemma RegistryStep(st: State, step: Step, now: int)
    requires Registry(st) && Enabled(st, step, now) && AnyRunInv(st.db)
    ensures Registry(Next(st, step, now))
  {
    match step
    case Accept => AcceptKeeps(st, now);
    case MirrorHandshake(id, port) => MirrorKeeps(st, id, port, now);
    case LoginLookupFault(id) => LookupFaultKeeps(st, id, now);
    case ClientHandshake(id, token) => HandshakeKeeps(st, id, token);
    case Login(id, user, token) => LoginKeeps(st, id, user, token);
    case Close(id, pick, fault) => HandleErrorKeeps(st, id, pick, fault);
    case Destroy(id) => DestroyKeeps(st, id);
    case Sweep(vs) => EvictAllKeeps(st, vs);
    case NewUser(user) => SameIdentityKeeps(st, Next(st, step, now));
    case Ping(id) => SameIdentityKeeps(st, Next(st, step, now));
    case CreateRoomReq(id, name, max, fault) => RequestKeeps(st, step, now);
    case JoinRoomReq(id, room, fault) => RequestKeeps(st, step, now);
    case ExitRoomReq(id, pick, fault) => RequestKeeps(st, step, now);
    case GameStartReq(id, room, mapId, fault) => RequestKeeps(st, step, now);
    case GameEndReq(id, game, fault) => RequestKeeps(st, step, now);
  }

  lemma RequestKeeps(st: State, step: Step, now: int)
    requires Registry(st) && Enabled(st, step, now)
    requires step.CreateRoomReq? || step.JoinRoomReq? || step.ExitRoomReq? || step.GameStartReq? || step.GameEndReq?
    ensures Registry(Next(st, step, now))
  {
    var e :=
      if step.CreateRoomReq? then CreateRoomEffect(st, step.id, step.name, step.max, step.fault, now)
      else if step.JoinRoomReq? then JoinRoomEffect(st, step.id, step.room, step.fault)
      else if step.ExitRoomReq? then ExitRoomEffect(st, step.id, step.pick, step.fault)
      else if step.GameStartReq? then GameStartEffect(st, step.id, step.gameRoom, step.mapId, step.fault)
      else GameEndEffect(st, step.id, step.game, step.fault);
    AfterIdentity(st, step.id, e);
  }

  // ---------- The tables along a run ----------

  lemma {:induction false} EvictAllDb(st: State, vs: seq<Victim>)
    requires AnyRunInv(st.db)
    requires forall i :: 0 <= i < |vs| ==> VictimPickOk(EvictAll(st, vs[..i]), vs[i])
    ensures AnyRunInv(EvictAll(st, vs).db)
  {
    if vs != [] {
      var init := vs[..|vs| - 1];
      assert forall i :: 0 <= i < |init| ==> init[..i] == vs[..i];
      EvictAllDb(st, init);
      EvictDb(EvictAll(st, init), vs[|vs| - 1]);
    }
  }

  lemma EvictDb(st: State, v: Victim)
    requires AnyRunInv(st.db) && VictimPickOk(st, v)
    ensures AnyRunInv(Evict(st, v).db)
  {
    if v.token in st.sessions && st.sessions[v.token] in st.live {
      RemoveKeeps(st.db, st.live[st.sessions[v.token]].userId, v.pick);
    }
  }

  lemma DbStep(st: State, step: Step, now: int)
    requires AnyRunInv(st.db) && Enabled(st, step, now)
    ensures AnyRunInv(Next(st, step, now).db)
  {
    match step
    case NewUser(user) => AnyStepKeeps(st.db, Enrol(user));
    case CreateRoomReq(id, name, max, fault) =>
      if name.Some? && max.Some? && 2 <= max.value <= 8 {
        CreateKeeps(st.db, st.live[id].userId, name.value, max.value, now);
      }
    case JoinRoomReq(id, room, fault) =>
      if room.Some? {
        AddKeeps(st.db, room.value, st.live[id].userId);
      }
    case ExitRoomReq(id, pick, fault) => RemoveKeeps(st.db, st.live[id].userId, pick);
    case GameStartReq(id, room, mapId, fault) => GamesKeep(st.db, room, mapId, 0);
    case GameEndReq(id, game, fault) => GamesKeep(st.db, 0, 0, game);
    case Close(id, pick, fault) => RemoveKeeps(st.db, st.live[id].userId, pick);
    case Sweep(vs) => EvictAllDb(st, vs);
    case _ =>
  }

  /** The registry and the table invariants hold in every state of any run, failures included. */
  lemma {:induction false} EveryRunSafe(sts: seq<State>, steps: seq<Step>, times: seq<int>, k: nat)
    requires ServerRun(sts, steps, times) && Start(sts[0]) && k < |sts|
    ensures Registry(sts[k]) && AnyRunInv(sts[k].db)
  {
    if k == 0 {
      InitialKeeps(sts[0].db);
    } else {
      EveryRunSafe(sts, steps, times, k - 1);
      assert StepAt(sts, steps, times, k - 1);
      RegistryStep(sts[k - 1], steps[k - 1], times[k - 1]);
      DbStep(sts[k - 1], steps[k - 1], times[k - 1]);
    }
  }

  // ---------- Exclusive login ----------

  /** In any run a logged-in session owns the token entry of its user, and two live sessions holding tokens
      share no user; the only id they can share is the -1 a failed lookup leaves behind. */
  lemma ExclusiveLogin(sts: seq<State>, steps: seq<Step>, times: seq<int>, k: nat, i: SessionId, j: SessionId)
    requires ServerRun(sts, steps, times) && Start(sts[0]) && k < |sts|
    requires i in sts[k].live && j in sts[k].live && i != j
    requires sts[k].live[i].token != "" && sts[k].live[j].token != ""
    ensures sts[k].live[i].userId > 0 ==>
              sts[k].live[i].userId in sts[k].tokens
              && sts[k].tokens[sts[k].live[i].userId] == sts[k].live[i].token
    ensures sts[k].live[i].userId == sts[k].live[j].userId ==> sts[k].live[i].userId in {0, -1}
  {
    EveryRunSafe(sts, steps, times, k);
    assert sts[k].live[i].userId > 0 ==> HoldsLogin(sts[k], i);
    assert sts[k].live[j].userId > 0 ==> HoldsLogin(sts[k], j);
  }

  ghost predicate Holds(st: State, i: SessionId) {
    i in st.live && st.live[i].token != ""
  }

  /** No two live sessions that hold tokens share a user. */
  ghost predicate Exclusive(st: State) {
    forall i, j :: Holds(st, i) && Holds(st, j) && i != j && st.live[i].userId != 0 ==>
      st.live[i].userId != st.live[j].userId
  }

  /** Whoever holds a token under a negative id in b did so in a. */
  ghost predicate NoNewNegatives(a: State, b: State) {
    forall i :: Holds(b, i) && b.live[i].userId < 0 ==> Holds(a, i) && a.live[i].userId == b.live[i].userId
  }

  lemma {:induction false} EvictAllNoNegatives(st: State, vs: seq<Victim>)
    ensures NoNewNegatives(st, EvictAll(st, vs))
  {
    if vs != [] {
      EvictAllNoNegatives(st, vs[..|vs| - 1]);
    }
  }

  lemma AfterNoNegatives(st: State, id: SessionId, e: Effect)
    requires id in st.live
    ensures NoNewNegatives(st, After(st, id, e))
  {
  }

  /** Only the failed second lookup stores a negative id in a session that holds a token. */
  lemma OnlyFailedLookupsStoreNegatives(st: State, step: Step, now: int)
    requires Registry(st) && SchemaOk(st.db) && Enabled(st, step, now) && !step.LoginLookupFault?
    ensures NoNewNegatives(st, Next(st, step, now))
  {
    match step
    case CreateRoomReq(x, name, max, fault) => AfterNoNegatives(st, x, CreateRoomEffect(st, x, name, max, fault, now));
    case JoinRoomReq(x, room, fault) => AfterNoNegatives(st, x, JoinRoomEffect(st, x, room, fault));
    case ExitRoomReq(x, pick, fault) => AfterNoNegatives(st, x, ExitRoomEffect(st, x, pick, fault));
    case GameStartReq(x, room, mapId, fault) => AfterNoNegatives(st, x, GameStartEffect(st, x, room, mapId, fault));
    case GameEndReq(x, game, fault) => AfterNoNegatives(st, x, GameEndEffect(st, x, game, fault));
    case Sweep(vs) => EvictAllNoNegatives(st, vs);
    case Login(x, user, token) => LoginNoNegatives(st, x, user, token);
    case ClientHandshake(x, token) => HandshakeNoNegatives(st, x, token);
    case Accept => SessionStepNoNegatives(st, step, now);
    case MirrorHandshake(x, port) => SessionStepNoNegatives(st, step, now);
    case NewUser(user) => SessionStepNoNegatives(st, step, now);
    case Ping(x) => SessionStepNoNegatives(st, step, now);
    case Close(x, pick, fault) => SessionStepNoNegatives(st, step, now);
    case Destroy(x) => SessionStepNoNegatives(st, step, now);
  }

  lemma SessionStepNoNegatives(st: State, step: Step, now: int)
    requires PhasesOk(st) && Enabled(st, step, now)
    requires step.Accept? || step.MirrorHandshake? || step.NewUser? || step.Ping? || step.Close? || step.Destroy?
    ensures NoNewNegatives(st, Next(st, step, now))
  {
  }

  lemma HandshakeNoNegatives(st: State, id: SessionId, token: Token)
    requires id in st.live && st.live[id].userId == 0
    ensures NoNewNegatives(st, Register(st.(live := st.live[id := st.live[id].(phase := Open)]), id, token))
  {
  }

  lemma LoginNoNegatives(st: State, id: SessionId, user: int, token: Token)
    requires id in st.live && user >= 0
    ensures NoNewNegatives(st, LoginSession(st, id, user, token))
  {
    if user !in st.tokens {
      LoginWrites(st, id, user, token);
    }
  }

  /** A second failed lookup that finds the id -1 taken by another session that holds a token. */
  ghost predicate SharesMinusOne(st: State, step: Step) {
    step.LoginLookupFault? && Holds(st, step.id)
    && exists j :: j != step.id && Holds(st, j) && st.live[j].userId == -1
  }

  /** One step keeps exclusive login exactly when it is not such a lookup. */
  lemma ExclusiveStepExactly(st: State, step: Step, now: int)
    requires Registry(st) && AnyRunInv(st.db) && Exclusive(st) && Enabled(st, step, now)
    ensures Exclusive(Next(st, step, now)) <==> !SharesMinusOne(st, step)
  {
    var st' := Next(st, step, now);
    if step.LoginLookupFault? {
      LookupFaultExactly(st, step.id, now);
    } else {
      RegistryStep(st, step, now);
      OnlyFailedLookupsStoreNegatives(st, step, now);
      ExclusiveIfNoNegatives(st, st');
    }
  }

  lemma ExclusiveIfNoNegatives(st: State, st': State)
    requires Exclusive(st) && NoNewNegatives(st, st') && Registry(st')
    ensures Exclusive(st')
  {
    forall i, j | Holds(st', i) && Holds(st', j) && i != j && st'.live[i].userId != 0
      ensures st'.live[i].userId != st'.live[j].userId
    {
      assert st'.live[i].userId > 0 ==> HoldsLogin(st', i);
      assert st'.live[j].userId > 0 ==> HoldsLogin(st', j);
    }
  }

  /** Every session that holds a token under a user owns the token entry of that user. */
  ghost predicate Owned(st: State) {
    forall i :: Holds(st, i) && st.live[i].userId != 0 ==>
      st.live[i].userId in st.tokens && st.tokens[st.live[i].userId] == st.live[i].token
  }

  /** No entry is ever filed under a negative id. */
  lemma OwnedAboveZero(st: State)
    requires Registry(st)
    ensures Owned(st) <==> forall i :: Holds(st, i) ==> st.live[i].userId >= 0
  {
    assert forall i :: Holds(st, i) && st.live[i].userId > 0 ==> HoldsLogin(st, i);
  }

  /** One step keeps that exactly when it is not a failed second lookup in a session that holds a token. */
  lemma OwnedStepExactly(st: State, step: Step, now: int)
    requires Registry(st) && AnyRunInv(st.db) && Owned(st) && Enabled(st, step, now)
    ensures Owned(Next(st, step, now)) <==> !(step.LoginLookupFault? && Holds(st, step.id))
  {
    var st' := Next(st, step, now);
    RegistryStep(st, step, now);
    OwnedAboveZero(st);
    OwnedAboveZero(st');
    if step.LoginLookupFault? {
      LookupFaultHolders(st, step.id, now);
    } else {
      OnlyFailedLookupsStoreNegatives(st, step, now);
    }
  }

  lemma LookupFaultHolders(st: State, id: SessionId, now: int)
    requires Enabled(st, LoginLookupFault(id), now)
    ensures var st' := Next(st, LoginLookupFault(id), now);
            && (forall j :: Holds(st', j) <==> Holds(st, j))
            && st'.live[id].userId == -1
            && forall j :: j in st.live && j != id ==> st'.live[j] == st.live[j]
  {
  }

  /** In every run ownership lasts exactly until the first step of that kind. */
  lemma {:induction false} OwnedUntilFailedLookup(sts: seq<State>, steps: seq<Step>, times: seq<int>, k: nat)
    requires ServerRun(sts, steps, times) && Start(sts[0]) && k < |sts|
    ensures (forall i :: 0 <= i <= k ==> Owned(sts[i])) <==>
              (forall i :: 0 <= i < k ==> !(steps[i].LoginLookupFault? && Holds(sts[i], steps[i].id)))
  {
    if k > 0 {
      OwnedUntilFailedLookup(sts, steps, times, k - 1);
      if Owned(sts[k - 1]) {
        OwnedAtStep(sts, steps, times, k - 1);
      }
    }
  }

  lemma OwnedAtStep(sts: seq<State>, steps: seq<Step>, times: seq<int>, k: nat)
    requires ServerRun(sts, steps, times) && Start(sts[0]) && k < |steps| && Owned(sts[k])
    ensures Owned(sts[k + 1]) <==> !(steps[k].LoginLookupFault? && Holds(sts[k], steps[k].id))
  {
    EveryRunSafe(sts, steps, times, k);
    assert StepAt(sts, steps, times, k);
    OwnedStepExactly(sts[k], steps[k], times[k]);
  }

  /** The failing case alone. */
  lemma LookupFaultExactly(st: State, id: SessionId, now: int)
    requires Registry(st) && Exclusive(st) && Enabled(st, LoginLookupFault(id), now)
    ensures Exclusive(Next(st, LoginLookupFault(id), now)) <==>
              (Holds(st, id) ==> forall j :: j != id && Holds(st, j) ==> st.live[j].userId != -1)
  {
    var st' := Next(st, LoginLookupFault(id), now);
    assert st'.live == st.live[id := st.live[id].(userId := -1)];
    assert forall j :: Holds(st', j) <==> Holds(st, j);
  }

  /** Without a failed second lookup exclusive login is complete: no session that holds a token has a negative
      id, and two of them share no user but the 0 of nobody. */
  lemma {:induction false} ExclusiveWithoutFailedLookups(sts: seq<State>, steps: seq<Step>, times: seq<int>, k: nat)
    requires ServerRun(sts, steps, times) && Start(sts[0]) && k < |sts|
    requires forall i :: 0 <= i < k ==> !steps[i].LoginLookupFault?
    ensures forall i :: Holds(sts[k], i) ==> sts[k].live[i].userId >= 0
    ensures Exclusive(sts[k])
  {
    if k > 0 {
      ExclusiveWithoutFailedLookups(sts, steps, times, k - 1);
      EveryRunSafe(sts, steps, times, k - 1);
      assert StepAt(sts, steps, times, k - 1);
      OnlyFailedLookupsStoreNegatives(sts[k - 1], steps[k - 1], times[k - 1]);
    }
    EveryRunSafe(sts, steps, times, k);
    ExclusiveAboveZero(sts[k]);
  }

  lemma ExclusiveAboveZero(st: State)
    requires Registry(st) && forall i :: Holds(st, i) ==> st.live[i].userId >= 0
    ensures Exclusive(st)
  {
    forall i, j | Holds(st, i) && Holds(st, j) && i != j && st.live[i].userId != 0
      ensures st.live[i].userId != st.live[j].userId
    {
      assert HoldsLogin(st, i);
      assert st.live[j].userId > 0 ==> HoldsLogin(st, j);
    }
  }

  /** Exclusive login lasts exactly until the first step of that kind, in every run. */
  lemma {:induction false} ExclusiveUntilShared(sts: seq<State>, steps: seq<Step>, times: seq<int>, k: nat)
    requires ServerRun(sts, steps, times) && Start(sts[0]) && k < |sts|
    ensures (forall i :: 0 <= i <= k ==> Exclusive(sts[i])) <==>
              (forall i :: 0 <= i < k ==> !SharesMinusOne(sts[i], steps[i]))
  {
    if k > 0 {
      ExclusiveUntilShared(sts, steps, times, k - 1);
      if Exclusive(sts[k - 1]) {
        ExclusiveAtStep(sts, steps, times, k - 1);
      }
    }
  }

  lemma ExclusiveAtStep(sts: seq<State>, steps: seq<Step>, times: seq<int>, k: nat)
    requires ServerRun(sts, steps, times) && Start(sts[0]) && k < |steps| && Exclusive(sts[k])
    ensures Exclusive(sts[k + 1]) <==> !SharesMinusOne(sts[k], steps[k])
  {
    EveryRunSafe(sts, steps, times, k);
    assert StepAt(sts, steps, times, k);
    ExclusiveStepExactly(sts[k], steps[k], times[k]);
  }

  /** The failed lookup does let two sessions share -1. */
  lemma FailedLookupsShareAnId(st: State, i: SessionId, j: SessionId, now: int)
    requires i in st.live && j in st.live && i != j && st.live[i].phase == Open && st.live[j].phase == Open
    requires st.live[i].token != "" && st.live[j].token != ""
    ensures Enabled(st, LoginLookupFault(i), now)
    ensures Enabled(Next(st, LoginLookupFault(i), now), LoginLookupFault(j), now)
    ensures var st' := Next(Next(st, LoginLookupFault(i), now), LoginLookupFault(j), now);
            st'.live[i].userId == st'.live[j].userId == -1 && st'.live[i].token != "" && st'.live[j].token != ""
  {
  }

  /** With D4, the user of a session that is in some room belongs to no other live session. */
  lemma RoomUserIsExclusive(st: State, i: SessionId, j: SessionId, room: int)
    requires Registry(st) && SchemaOk(st.db) && PortsAreNotUsers(st)
    requires i in st.live && j in st.live && i != j
    requires st.live[i].userId > 0 && Member(room, st.live[i].userId) in st.db.members
    ensures st.live[j].userId != st.live[i].userId && HoldsLogin(st, i)
  {
    var u := st.live[i].userId;
    assert u in st.db.users;
    assert forall x :: x in st.live && st.live[x].userId == u ==> HoldsLogin(st, x);
    assert HoldsLogin(st, i);
  }

  lemma RemovedRows(t: Tables, user: int, pick: int)
    ensures RemovePlayer(t, user, pick).0.members == set m | m in t.members && m.userId != user
  {
    RoomsOfRows(t, user);
  }

  /** However often a dying session runs handle_error, and when it is destroyed, another login keeps its
      rooms, its registry entry and its token (D4 assumed). */
  lemma DyingSessionsAreHarmless(sts: seq<State>, steps: seq<Step>, times: seq<int>, k: nat,
                                 dying: SessionId, other: SessionId, pick: int, fault: bool)
    requires ServerRun(sts, steps, times) && Start(sts[0]) && k < |sts| && PortsAreNotUsers(sts[k])
    requires dying in sts[k].live && other in sts[k].live && dying != other && HoldsLogin(sts[k], other)
    ensures var st, u := sts[k], sts[k].live[other].userId;
            RoomsOf(HandleError(st, dying, pick, fault).db, u) == RoomsOf(st.db, u)
    ensures var st, s, d := sts[k], sts[k].live[other], DestroySession(sts[k], dying);
            && d.live[other] == s && s.userId in d.tokens && d.tokens[s.userId] == s.token
            && (s.token in st.sessions ==> s.token in d.sessions && d.sessions[s.token] == other)
  {
    EveryRunSafe(sts, steps, times, k);
    var st, s := sts[k], sts[k].live[other];
    RoomsOfRows(st.db, s.userId);
    if RoomsOf(st.db, s.userId) != {} {
      var r := Witness(RoomsOf(st.db, s.userId));
      RoomUserIsExclusive(st, other, dying, r);
    }
    var st' := HandleError(st, dying, pick, fault);
    RemovedRows(st.db, st.live[dying].userId, pick);
    RoomsOfRows(st'.db, s.userId);
    assert RoomsOf(st'.db, s.userId) == RoomsOf(st.db, s.userId);
    DestroyKeeps(st, dying);
    assert HoldsLogin(DestroySession(st, dying), other);
  }

  /** Without D4 handle_error costs another login its rooms exactly when it runs for a mirror whose port is that
      user's id. */
  lemma HandleErrorHarmsExactly(st: State, dying: SessionId, other: SessionId, pick: int)
    requires Registry(st) && dying in st.live && other in st.live && dying != other && HoldsLogin(st, other)
    ensures var u, s := st.live[other].userId, st.live[dying];
            RoomsOf(HandleError(st, dying, pick, false).db, u) == RoomsOf(st.db, u) <==>
              !(s.isMirror && s.token == "" && s.mirrorPort == s.userId == u) || RoomsOf(st.db, u) == {}
  {
    var u, s, st' := st.live[other].userId, st.live[dying], HandleError(st, dying, pick, false);
    RoomsOfRows(st.db, u);
    RoomsOfRows(st'.db, u);
    RemovedRows(st.db, s.userId, pick);
    assert s.token != "" && s.userId > 0 ==> HoldsLogin(st, dying);
    if s.userId == u {
      assert s.token == "";
      assert RoomsOf(st'.db, u) == {};
    } else {
      assert RoomsOf(st'.db, u) == RoomsOf(st.db, u);
    }
  }

  /** Each waiting logged-in session is named by exactly one entry, so a broadcast reaches it exactly once. */
  lemma BroadcastReachesOnce(sts: seq<State>, steps: seq<Step>, times: seq<int>, k: nat, i: SessionId)
    requires ServerRun(sts, steps, times) && Start(sts[0]) && k < |sts|
    requires i in sts[k].live && sts[k].live[i].phase == Open && sts[k].live[i].token != ""
    ensures forall t :: t in sts[k].sessions && sts[k].sessions[t] == i <==> t == sts[k].live[i].token
    ensures forall t :: t in sts[k].sessions ==> sts[k].sessions[t] in sts[k].live
  {
    EveryRunSafe(sts, steps, times, k);
    var st := sts[k];
    assert st.live[st.sessions[st.live[i].token]].token == st.live[i].token;
  }

  // ---------- Why a second login is not harmless ----------

  /** A token entry whose token no live session holds. */
  ghost predicate Orphaned(st: State, user: int) {
    user in st.tokens && st.tokens[user] != "" && forall i :: i in st.live ==> st.live[i].token != st.tokens[user]
  }

  /** An accepted login orphans exactly the user under whom the session's old token is filed. */
  lemma LoginOrphansExactly(st: State, id: SessionId, user: int, token: Token, prior: int)
    requires id in st.live && user !in st.tokens && FreshToken(st, token) && TokensOwned(st)
    requires !Orphaned(st, prior)
    ensures Orphaned(LoginSession(st, id, user, token), prior) <==>
              prior in st.tokens && st.tokens[prior] != "" && st.tokens[prior] == st.live[id].token
  {
    var st' := LoginSession(st, id, user, token);
    LoginWrites(st, id, user, token);
    if prior in st.tokens && st.tokens[prior] != "" {
      var i :| i in st.live && st.live[i].token == st.tokens[prior];
      assert prior != user && st'.tokens[prior] == st.tokens[prior];
      assert i != id ==> st'.live[i].token == st'.tokens[prior];
    }
  }

  /** A session that is logged in always has such a user; D3 is what keeps it from logging in again. */
  lemma SecondLoginOrphans(st: State, id: SessionId, user: int, token: Token)
    requires id in st.live && user !in st.tokens && FreshToken(st, token) && TokensOwned(st) && HoldsLogin(st, id)
    ensures Orphaned(LoginSession(st, id, user, token), st.live[id].userId)
  {
    LoginWrites(st, id, user, token);
  }

  /** What an accepted login writes to the tokens and to the sessions. */
  lemma LoginWrites(st: State, id: SessionId, user: int, token: Token)
    requires id in st.live && user !in st.tokens
    ensures var st' := LoginSession(st, id, user, token);
            && st'.tokens == (if user != 0 then st.tokens[user := token] else st.tokens)
            && st'.live.Keys == st.live.Keys && st'.live[id].token == token && st'.live[id].userId == user
            && forall i :: i in st.live && i != id ==> st'.live[i] == st.live[i]
  {
  }

  lemma OrphanStays(st: State, step: Step, now: int, user: int)
    requires Registry(st) && Enabled(st, step, now) && Orphaned(st, user)
    ensures Orphaned(Next(st, step, now), user)
  {
    match step
    case CreateRoomReq(x, name, max, fault) => OrphanAfter(st, x, CreateRoomEffect(st, x, name, max, fault, now), user);
    case JoinRoomReq(x, room, fault) => OrphanAfter(st, x, JoinRoomEffect(st, x, room, fault), user);
    case ExitRoomReq(x, pick, fault) => OrphanAfter(st, x, ExitRoomEffect(st, x, pick, fault), user);
    case GameStartReq(x, room, mapId, fault) => OrphanAfter(st, x, GameStartEffect(st, x, room, mapId, fault), user);
    case GameEndReq(x, game, fault) => OrphanAfter(st, x, GameEndEffect(st, x, game, fault), user);
    case Sweep(vs) => OrphanSweep(st, vs, user);
    case Destroy(x) => OrphanDestroy(st, x, user);
    case Login(x, u, token) => if u !in st.tokens { OrphanLogin(st, x, u, token, user); }
    case ClientHandshake(x, token) => OrphanHandshake(st, x, token, user);
    case _ =>
  }

  lemma OrphanLogin(st: State, x: SessionId, u: int, token: Token, user: int)
    requires x in st.live && FreshToken(st, token) && u !in st.tokens && Orphaned(st, user)
    ensures Orphaned(LoginSession(st, x, u, token), user)
  {
    LoginWrites(st, x, u, token);
  }

  lemma OrphanHandshake(st: State, x: SessionId, token: Token, user: int)
    requires x in st.live && st.live[x].userId == 0 && FreshToken(st, token) && Orphaned(st, user)
    ensures Orphaned(Register(st.(live := st.live[x := st.live[x].(phase := Open)]), x, token), user)
  {
  }

  /** The destructor erases the entry of its own user, and a session of that user would hold its token. */
  lemma OrphanDestroy(st: State, x: SessionId, user: int)
    requires Registry(st) && x in st.live && Orphaned(st, user)
    ensures Orphaned(DestroySession(st, x), user)
  {
    assert user > 0;
    assert HoldsLogin(st, x) ==> st.live[x].userId != user;
  }

  lemma OrphanAfter(st: State, x: SessionId, e: Effect, user: int)
    requires x in st.live && Orphaned(st, user)
    ensures Orphaned(After(st, x, e), user)
  {
  }

  lemma {:induction false} OrphanSweep(st: State, vs: seq<Victim>, user: int)
    requires Orphaned(st, user)
    ensures Orphaned(EvictAll(st, vs), user)
  {
    if vs != [] {
      OrphanSweep(st, vs[..|vs| - 1], user);
    }
  }

  /** An orphaned user stays marked as logged in for the rest of any run: every login as that user is refused. */
  lemma {:induction false} OrphansAreLockedOut(sts: seq<State>, steps: seq<Step>, times: seq<int>, user: int, i: nat,
                                             k: nat)
    requires ServerRun(sts, steps, times) && Start(sts[0]) && i <= k < |sts| && Orphaned(sts[i], user)
    ensures Orphaned(sts[k], user)
    ensures forall id, token :: id in sts[k].live ==> LoginSession(sts[k], id, user, token) == sts[k]
  {
    if i < k {
      OrphansAreLockedOut(sts, steps, times, user, i, k - 1);
      EveryRunSafe(sts, steps, times, k - 1);
      assert StepAt(sts, steps, times, k - 1);
      OrphanStays(sts[k - 1], steps[k - 1], times[k - 1], user);
    }
  }
}
