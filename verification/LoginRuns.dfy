/** How logins and mirrors come and go: what a handshake, a login and a destruction establish, and how long it lasts. */
module LoginRuns {
  import opened Wrappers
  import opened RoomTables
  import opened SessionModel
  import opened SessionRuns
  import SweepRuns

  // ---------- One step ----------

  /** The destructor releases the login of its session: the user's token entry and the session's own entry go,
      every other user's entry stays. */
  lemma DestroyReleases(st: State, id: SessionId)
    requires Registry(st) && id in st.live && st.live[id].token != ""
    ensures var s, d := st.live[id], DestroySession(st, id);
            && id !in d.live && s.userId !in d.tokens && s.token !in d.sessions
            && (forall u :: u in st.tokens && u != s.userId ==> u in d.tokens && d.tokens[u] == st.tokens[u])
            && (forall t :: t in d.sessions ==> d.sessions[t] != id)
  {
  }

  /** An accepted login files the session under the token and the token under the user. */
  lemma LoginAccepted(st: State, id: SessionId, user: int, token: Token)
    requires id in st.live && user !in st.tokens
    ensures var d := LoginSession(st, id, user, token);
            && d.live == st.live[id := st.live[id].(userId := user, token := token, status := Lobby)]
            && token in d.sessions && d.sessions[token] == id
            && (user != 0 ==> user in d.tokens && d.tokens[user] == token)
            && d.db == st.db && d.mirrors == st.mirrors
  {
  }

  /** So the user can log in again on any other session once the destructor has run. */
  lemma LoginAfterDestroy(st: State, id: SessionId, other: SessionId, token: Token)
    requires Registry(st) && id in st.live && other in st.live && id != other && HoldsLogin(st, id)
    ensures var u, d := st.live[id].userId, DestroySession(st, id);
            && u !in d.tokens
            && LoginSession(d, other, u, token).live[other].userId == u
            && LoginSession(d, other, u, token).live[other].token == token
  {
    DestroyReleases(st, id);
    LoginAccepted(DestroySession(st, id), other, st.live[id].userId, token);
  }

  // ---------- The login of one user over runs ----------

  /** Only an accepted login as the user marks a user as logged in. */
  lemma MarkedByLogin(st: State, step: Step, now: int, user: int)
    requires Registry(st) && Enabled(st, step, now) && user !in st.tokens
    ensures user in Next(st, step, now).tokens <==> step.Login? && step.user == user && user != 0
  {
    match step
    case Sweep(vs) => EvictAllTokens(st, vs);
    case Login(x, u, token) => LoginMarks(st, x, u, token, user);
    case _ =>
  }

  lemma LoginMarks(st: State, id: SessionId, u: int, token: Token, user: int)
    requires id in st.live && user !in st.tokens
    ensures user in LoginSession(st, id, u, token).tokens <==> u == user && user != 0
  {
    if u !in st.tokens {
      LoginWrites(st, id, u, token);
    }
  }

  lemma {:induction false} EvictAllTokens(st: State, vs: seq<Victim>)
    ensures EvictAll(st, vs).tokens == st.tokens && EvictAll(st, vs).mirrors == st.mirrors
    ensures EvictAll(st, vs).live.Keys == st.live.Keys
  {
    if vs != [] {
      EvictAllTokens(st, vs[..|vs| - 1]);
    }
  }

  /** A user who is not logged in stays so until the next login as him. */
  lemma {:induction false} FreeUntilLogin(sts: seq<State>, steps: seq<Step>, times: seq<int>, user: int, i: nat, k: nat)
    requires ServerRun(sts, steps, times) && Start(sts[0]) && i <= k < |sts| && user !in sts[i].tokens
    requires forall x :: i <= x < k ==> !(steps[x].Login? && steps[x].user == user)
    ensures user !in sts[k].tokens
  {
    if i < k {
      FreeUntilLogin(sts, steps, times, user, i, k - 1);
      EveryRunSafe(sts, steps, times, k - 1);
      assert StepAt(sts, steps, times, k - 1);
      MarkedByLogin(sts[k - 1], steps[k - 1], times[k - 1], user);
    }
  }

  /** Once the session of a user is destroyed, the next login as that user is accepted, in any run: it is then
      logged in under the new token. */
  lemma NextLoginIsAccepted(sts: seq<State>, steps: seq<Step>, times: seq<int>, i: nat, k: nat)
    requires ServerRun(sts, steps, times) && Start(sts[0]) && i < k < |steps|
    requires steps[i].Destroy? && steps[i].id in sts[i].live && HoldsLogin(sts[i], steps[i].id)
    requires steps[k].Login? && steps[k].user == sts[i].live[steps[i].id].userId
    requires forall x :: i < x < k ==> !(steps[x].Login? && steps[x].user == steps[k].user)
    ensures var id := steps[k].id;
            && id in sts[k + 1].live && HoldsLogin(sts[k + 1], id)
            && sts[k + 1].live[id].userId == steps[k].user && sts[k + 1].live[id].token == steps[k].token
  {
    EveryRunSafe(sts, steps, times, i);
    assert StepAt(sts, steps, times, i);
    DestroyReleases(sts[i], steps[i].id);
    FreeUntilLogin(sts, steps, times, steps[k].user, i + 1, k);
    AcceptedAt(sts, steps, times, k);
  }

  lemma AcceptedAt(sts: seq<State>, steps: seq<Step>, times: seq<int>, k: nat)
    requires ServerRun(sts, steps, times) && k < |steps| && steps[k].Login? && steps[k].user > 0
    requires steps[k].user !in sts[k].tokens
    ensures var id := steps[k].id;
            && id in sts[k + 1].live && HoldsLogin(sts[k + 1], id)
            && sts[k + 1].live[id].userId == steps[k].user && sts[k + 1].live[id].token == steps[k].token
  {
    assert StepAt(sts, steps, times, k);
    LoginAccepted(sts[k], steps[k].id, steps[k].user, steps[k].token);
  }

  // ---------- Arrivals ----------

  /** An accepted session that shakes hands is open, registered, nobody's, and was heard when it was accepted. */
  lemma HandshakeOpens(st: State, token: Token, accepted: int, now: int)
    requires st.nextId !in st.live && FreshToken(st, token) && token != ""
    ensures Enabled(Next(st, Accept, accepted), ClientHandshake(st.nextId, token), now)
    ensures var id, d := st.nextId, Next(Next(st, Accept, accepted), ClientHandshake(st.nextId, token), now);
            && SweepRuns.OpenSince(d, id, accepted)
            && d.live[id].userId == 0 && d.live[id].token == token && !d.live[id].isMirror
            && token in d.sessions && d.sessions[token] == id && d.tokens == st.tokens && d.db == st.db
  {
    var a, id := Next(st, Accept, accepted), st.nextId;
    assert a.live[id] == NewSession(accepted) && a.sessions == st.sessions && a.tokens == st.tokens;
    forall i | i in a.live ensures a.live[i].token != token {
      assert i != id ==> i in st.live && a.live[i] == st.live[i];
    }
  }

  /** A mirror is found under its port, and the port stands in for its user. */
  lemma MirrorIsFound(st: State, id: SessionId, port: int, now: int)
    requires Enabled(st, MirrorHandshake(id, port), now)
    ensures var d := Next(st, MirrorHandshake(id, port), now);
            && MirrorAt(d, port) == Some(id)
            && d.live[id].isMirror && d.live[id].mirrorPort == port && d.live[id].userId == port
            && d.live[id].phase == Open
            && (forall p :: p != port ==> MirrorAt(d, p) == MirrorAt(st, p))
  {
  }

  /** The step destroys the mirror, or another mirror of its port, or files another mirror under the port. */
  ghost predicate LosesMirror(st: State, step: Step, port: int, id: SessionId) {
    || (step.Destroy? && (step.id == id
          || (step.id in st.live && st.live[step.id].isMirror && st.live[step.id].mirrorPort == port)))
    || (step.MirrorHandshake? && step.port == port)
  }

  /** The mirror of a port stays the one that is found exactly as long as no step of that kind comes. */
  lemma MirrorStaysExactly(st: State, step: Step, now: int, port: int, id: SessionId)
    requires Enabled(st, step, now) && MirrorAt(st, port) == Some(id) && st.live[id].phase != Fresh
    requires st.nextId !in st.live
    ensures MirrorAt(Next(st, step, now), port) == Some(id) <==> !LosesMirror(st, step, port, id)
  {
    match step
    case CreateRoomReq(x, name, max, fault) =>
      RequestKeepsMirror(st, x, CreateRoomEffect(st, x, name, max, fault, now), port, id);
    case JoinRoomReq(x, room, fault) => RequestKeepsMirror(st, x, JoinRoomEffect(st, x, room, fault), port, id);
    case ExitRoomReq(x, pick, fault) => RequestKeepsMirror(st, x, ExitRoomEffect(st, x, pick, fault), port, id);
    case GameStartReq(x, room, mapId, fault) =>
      RequestKeepsMirror(st, x, GameStartEffect(st, x, room, mapId, fault), port, id);
    case GameEndReq(x, game, fault) => RequestKeepsMirror(st, x, GameEndEffect(st, x, game, fault), port, id);
    case Sweep(vs) => EvictAllTokens(st, vs);
    case Login(x, u, token) => LoginKeepsMirrors(st, x, u, token);
    case _ => MirrorStaysHere(st, step, now, port, id);
  }

  lemma LoginKeepsMirrors(st: State, id: SessionId, user: int, token: Token)
    requires id in st.live
    ensures LoginSession(st, id, user, token).mirrors == st.mirrors
    ensures LoginSession(st, id, user, token).live.Keys == st.live.Keys
  {
  }

  /** createRoom drops the entry of a port only when it finds no live mirror there. */
  lemma RequestKeepsMirror(st: State, x: SessionId, e: Effect, port: int, id: SessionId)
    requires x in st.live && MirrorAt(st, port) == Some(id)
    requires port in e.mirrors && e.mirrors[port] == id
    ensures MirrorAt(After(st, x, e), port) == Some(id)
  {
  }

  lemma MirrorStaysHere(st: State, step: Step, now: int, port: int, id: SessionId)
    requires Enabled(st, step, now) && MirrorAt(st, port) == Some(id) && st.live[id].phase != Fresh
    requires step.Accept? || step.MirrorHandshake? || step.ClientHandshake? || step.LoginLookupFault? || step.NewUser?
          || step.Ping? || step.Close? || step.Destroy?
    ensures MirrorAt(Next(st, step, now), port) == Some(id) <==> !LosesMirror(st, step, port, id)
  {
  }

  /** The session of a handshake keeps its id to itself and is never fresh again. */
  ghost predicate Greeted(st: State, id: SessionId) {
    id < st.nextId && (id in st.live ==> st.live[id].phase != Fresh)
  }

  lemma GreetedStays(st: State, step: Step, now: int, id: SessionId)
    requires Registry(st) && Enabled(st, step, now) && Greeted(st, id)
    ensures Greeted(Next(st, step, now), id)
  {
    if step != Ping(id) {
      SweepRuns.StepIsCalm(st, step, now, id);
    }
  }

  lemma GreetedNow(st: State, id: SessionId, port: int, now: int)
    requires Registry(st) && Enabled(st, MirrorHandshake(id, port), now)
    ensures Greeted(Next(st, MirrorHandshake(id, port), now), id)
  {
  }

  lemma {:induction false} GreetedInRun(sts: seq<State>, steps: seq<Step>, times: seq<int>, port: int,
                                        id: SessionId, i: nat, k: nat)
    requires ServerRun(sts, steps, times) && Start(sts[0]) && i < |steps| && i < k < |sts|
    requires steps[i] == MirrorHandshake(id, port)
    ensures Greeted(sts[k], id)
  {
    EveryRunSafe(sts, steps, times, k - 1);
    assert StepAt(sts, steps, times, k - 1);
    if k == i + 1 {
      GreetedNow(sts[i], id, port, times[i]);
    } else {
      GreetedInRun(sts, steps, times, port, id, i, k - 1);
      GreetedStays(sts[k - 1], steps[k - 1], times[k - 1], id);
    }
  }

  /** In every run a mirror is found under its port exactly until the first step that takes it away. */
  lemma {:induction false} MirrorLastsExactly(sts: seq<State>, steps: seq<Step>, times: seq<int>, port: int,
                                              id: SessionId, i: nat, k: nat)
    requires ServerRun(sts, steps, times) && Start(sts[0]) && i < |steps| && i < k < |sts|
    requires steps[i] == MirrorHandshake(id, port)
    ensures (forall x :: i < x <= k ==> MirrorAt(sts[x], port) == Some(id)) <==>
              (forall x :: i < x < k ==> !LosesMirror(sts[x], steps[x], port, id))
  {
    if k == i + 1 {
      FoundAtStep(sts, steps, times, port, id, i);
    } else {
      MirrorLastsExactly(sts, steps, times, port, id, i, k - 1);
      if MirrorAt(sts[k - 1], port) == Some(id) {
        GreetedInRun(sts, steps, times, port, id, i, k - 1);
        KeptAtStep(sts, steps, times, port, id, k - 1);
      }
    }
  }

  lemma FoundAtStep(sts: seq<State>, steps: seq<Step>, times: seq<int>, port: int, id: SessionId, i: nat)
    requires ServerRun(sts, steps, times) && i < |steps| && steps[i] == MirrorHandshake(id, port)
    ensures MirrorAt(sts[i + 1], port) == Some(id)
  {
    assert StepAt(sts, steps, times, i);
    MirrorIsFound(sts[i], id, port, times[i]);
  }

  lemma KeptAtStep(sts: seq<State>, steps: seq<Step>, times: seq<int>, port: int, id: SessionId, k: nat)
    requires ServerRun(sts, steps, times) && Start(sts[0]) && k < |steps|
    requires MirrorAt(sts[k], port) == Some(id) && Greeted(sts[k], id)
    ensures MirrorAt(sts[k + 1], port) == Some(id) <==> !LosesMirror(sts[k], steps[k], port, id)
  {
    EveryRunSafe(sts, steps, times, k);
    assert StepAt(sts, steps, times, k);
    MirrorStaysExactly(sts[k], steps[k], times[k], port, id);
  }
}
