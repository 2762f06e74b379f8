/** The timeout sweep: what one sweep leaves, and when a silent session is gone. */
module SweepRuns {
  import opened RoomRuns
  import opened SessionModel
  import opened SessionRuns
  import Quiescence

  // ---------- One sweep ----------

  ghost function TokensOf(vs: seq<Victim>, k: nat): set<Token>
    requires k <= |vs|
  {
    set i | 0 <= i < k :: vs[i].token
  }

  ghost predicate NamesSession(st: State, v: Victim, id: SessionId) {
    v.token in st.sessions && st.sessions[v.token] == id && id in st.live
  }

  /** The users of the first k victims. */
  ghost function VictimUsers(st: State, vs: seq<Victim>, k: nat): set<int>
    requires k <= |vs|
  {
    set i | 0 <= i < k && vs[i].token in st.sessions && st.sessions[vs[i].token] in st.live
            && st.live[st.sessions[vs[i].token]].userId > 0 :: st.live[st.sessions[vs[i].token]].userId
  }

  /** The state after k victims, described by the state before the sweep. */
  ghost predicate SweptTo(st: State, vs: seq<Victim>, k: nat, st': State)
    requires k <= |vs|
  {
    && st'.sessions == st.sessions - TokensOf(vs, k)
    && st'.tokens == st.tokens && st'.mirrors == st.mirrors && st'.nextId == st.nextId
    && st'.live.Keys == st.live.Keys
    && forall i :: i in st.live ==>
         st'.live[i] == if exists j :: 0 <= j < k && NamesSession(st, vs[j], i)
                        then st.live[i].(phase := Closed) else st.live[i]
  }

  ghost predicate DistinctVictims(st: State, vs: seq<Victim>) {
    && (forall i, j :: 0 <= i < j < |vs| ==> vs[i].token != vs[j].token)
    && (forall i :: 0 <= i < |vs| ==> vs[i].token in st.sessions && st.sessions[vs[i].token] in st.live)
  }

  lemma SweepOkDistinct(st: State, vs: seq<Victim>, now: int)
    requires Registry(st) && SweepOk(st, vs, now)
    ensures DistinctVictims(st, vs)
  {
    forall i | 0 <= i < |vs| ensures vs[i].token in TimedOut(st, now) {
      assert vs[i].token in set j | 0 <= j < |vs| :: vs[j].token;
    }
  }

  lemma {:induction false} SweepProgress(st: State, vs: seq<Victim>, k: nat)
    requires DistinctVictims(st, vs) && k <= |vs|
    ensures SweptTo(st, vs, k, EvictAll(st, vs[..k]))
  {
    if k == 0 {
      assert st.sessions - TokensOf(vs, 0) == st.sessions;
    } else {
      SweepProgress(st, vs, k - 1);
      ProgressStep(st, vs, k - 1);
    }
  }

  lemma ProgressStep(st: State, vs: seq<Victim>, k: nat)
    requires DistinctVictims(st, vs) && k < |vs| && SweptTo(st, vs, k, EvictAll(st, vs[..k]))
    ensures SweptTo(st, vs, k + 1, EvictAll(st, vs[..k + 1]))
  {
    EvictAllStep(st, vs, k);
    EvictProgress(st, vs, k, EvictAll(st, vs[..k]));
  }

  lemma EvictProgress(st: State, vs: seq<Victim>, k: nat, mid: State)
    requires DistinctVictims(st, vs) && k < |vs| && SweptTo(st, vs, k, mid)
    ensures SweptTo(st, vs, k + 1, Evict(mid, vs[k]))
    ensures vs[k].token in mid.sessions && mid.sessions[vs[k].token] == st.sessions[vs[k].token]
  {
    var v, st' := vs[k], Evict(mid, vs[k]);
    var id := st.sessions[v.token];
    assert TokensOf(vs, k + 1) == TokensOf(vs, k) + {v.token};
    assert v.token !in TokensOf(vs, k);
    assert st'.sessions == st.sessions - TokensOf(vs, k + 1);
    forall i | i in st.live
      ensures st'.live[i] == if exists j :: 0 <= j < k + 1 && NamesSession(st, vs[j], i)
                             then st.live[i].(phase := Closed) else st.live[i]
    {
      assert NamesSession(st, v, i) <==> i == id;
      assert (exists j :: 0 <= j < k + 1 && NamesSession(st, vs[j], i))
        <==> (exists j :: 0 <= j < k && NamesSession(st, vs[j], i)) || i == id;
    }
  }

  lemma {:induction false} SweepRows(st: State, vs: seq<Victim>, k: nat)
    requires DistinctVictims(st, vs) && k <= |vs| && forall v :: v in vs ==> !v.fault
    ensures EvictAll(st, vs[..k]).db.members == set m | m in st.db.members && m.userId !in VictimUsers(st, vs, k)
  {
    if k == 0 {
      assert VictimUsers(st, vs, 0) == {};
    } else {
      SweepRows(st, vs, k - 1);
      assert vs[k - 1] in vs;
      RowsStepAt(st, vs, k - 1);
    }
  }

  lemma RowsStepAt(st: State, vs: seq<Victim>, k: nat)
    requires DistinctVictims(st, vs) && k < |vs| && !vs[k].fault
    requires EvictAll(st, vs[..k]).db.members == set m | m in st.db.members && m.userId !in VictimUsers(st, vs, k)
    ensures EvictAll(st, vs[..k + 1]).db.members
         == set m | m in st.db.members && m.userId !in VictimUsers(st, vs, k + 1)
  {
    SweepProgress(st, vs, k);
    EvictAllStep(st, vs, k);
    RowsStep(st, vs, k, EvictAll(st, vs[..k]));
  }

  lemma RowsStep(st: State, vs: seq<Victim>, k: nat, mid: State)
    requires DistinctVictims(st, vs) && k < |vs| && SweptTo(st, vs, k, mid) && !vs[k].fault
    requires mid.db.members == set m | m in st.db.members && m.userId !in VictimUsers(st, vs, k)
    ensures Evict(mid, vs[k]).db.members == set m | m in st.db.members && m.userId !in VictimUsers(st, vs, k + 1)
  {
    var v := vs[k];
    var u := st.live[st.sessions[v.token]].userId;
    EvictProgress(st, vs, k, mid);
    assert mid.live[st.sessions[v.token]].userId == u;
    RemovedRows(mid.db, u, v.pick);
    UsersStep(st, vs, k);
    EvictIsHandleError(mid, v);
  }

  lemma UsersStep(st: State, vs: seq<Victim>, k: nat)
    requires DistinctVictims(st, vs) && k < |vs|
    ensures VictimUsers(st, vs, k + 1) == VictimUsers(st, vs, k)
         + (var u := st.live[st.sessions[vs[k].token]].userId; if u > 0 then {u} else {})
  {
  }

  ghost function TimedOutUsers(st: State, now: int): set<int> {
    set t | t in TimedOut(st, now) && st.sessions[t] in st.live && st.live[st.sessions[t]].userId > 0
          :: st.live[st.sessions[t]].userId
  }

  ghost predicate ActiveEntry(st: State, t: Token, now: int) {
    t in st.sessions && st.sessions[t] in st.live && IsActive(st.live[st.sessions[t]], now)
  }

  ghost predicate ClosedEntry(st: State, t: Token, st': State) {
    t in st.sessions && st.sessions[t] in st'.live && st'.live[st.sessions[t]].phase == Closed
  }

  lemma ActiveEntriesAreTheRest(st: State, now: int)
    requires Registry(st)
    ensures st.sessions - TimedOut(st, now) == map t | t in st.sessions && ActiveEntry(st, t, now) :: st.sessions[t]
  {
  }

  lemma SweptEntries(st: State, vs: seq<Victim>, now: int)
    requires Registry(st) && SweepOk(st, vs, now)
    ensures var st' := EvictAll(st, vs);
            && st'.sessions == (map t | t in st.sessions && ActiveEntry(st, t, now) :: st.sessions[t])
            && (forall t :: t in TimedOut(st, now) ==> ClosedEntry(st, t, st'))
  {
    var st' := EvictAll(st, vs);
    SweepOkDistinct(st, vs, now);
    SweepProgress(st, vs, |vs|);
    assert vs[..|vs|] == vs;
    assert TokensOf(vs, |vs|) == TimedOut(st, now);
    ActiveEntriesAreTheRest(st, now);
    forall t | t in TimedOut(st, now) ensures ClosedEntry(st, t, st') {
      VictimIsClosed(st, vs, t, st');
    }
  }

  lemma VictimIsClosed(st: State, vs: seq<Victim>, t: Token, st': State)
    requires DistinctVictims(st, vs) && SweptTo(st, vs, |vs|, st') && t in TokensOf(vs, |vs|)
    ensures ClosedEntry(st, t, st')
  {
    var j :| 0 <= j < |vs| && vs[j].token == t;
    assert NamesSession(st, vs[j], st.sessions[t]);
  }

  lemma SweptRows(st: State, vs: seq<Victim>, now: int)
    requires Registry(st) && SweepOk(st, vs, now) && forall v :: v in vs ==> !v.fault
    ensures EvictAll(st, vs).db.members == set m | m in st.db.members && m.userId !in TimedOutUsers(st, now)
  {
    SweepOkDistinct(st, vs, now);
    SweepRows(st, vs, |vs|);
    assert vs[..|vs|] == vs;
    assert TokensOf(vs, |vs|) == TimedOut(st, now);
    UsersAreTimedOut(st, vs, now);
  }

  ghost predicate ExactSweep(st: State, st': State, now: int) {
    && st'.sessions == (map t | t in st.sessions && ActiveEntry(st, t, now) :: st.sessions[t])
    && (forall t :: t in st'.sessions ==> ActiveEntry(st', t, now))
    && (forall t :: t in st.sessions && t !in st'.sessions ==> ClosedEntry(st, t, st'))
  }

  lemma SweepLeavesActive(st: State, vs: seq<Victim>, now: int)
    requires Registry(st) && SweepOk(st, vs, now)
    ensures ExactSweep(st, EvictAll(st, vs), now)
  {
    SweptEntries(st, vs, now);
    ActiveUntouched(st, vs, now);
  }

  /** After a sweep, in any run: exactly the entries of active live sessions are left, the others are closed;
      barring database failures no timed-out user has a row, and nobody else lost one. */
  lemma SweepIsExact(sts: seq<State>, steps: seq<Step>, times: seq<int>, k: nat)
    requires ServerRun(sts, steps, times) && Start(sts[0]) && k < |steps| && steps[k].Sweep?
    ensures ExactSweep(sts[k], sts[k + 1], times[k])
    ensures NoFault(steps[k]) ==>
              sts[k + 1].db.members == set m | m in sts[k].db.members && m.userId !in TimedOutUsers(sts[k], times[k])
  {
    EveryRunSafe(sts, steps, times, k);
    assert StepAt(sts, steps, times, k);
    SweepLeavesActive(sts[k], steps[k].victims, times[k]);
    if NoFault(steps[k]) {
      SweptRows(sts[k], steps[k].victims, times[k]);
    }
  }

  lemma UsersAreTimedOut(st: State, vs: seq<Victim>, now: int)
    requires Registry(st) && TokensOf(vs, |vs|) == TimedOut(st, now)
    ensures VictimUsers(st, vs, |vs|) == TimedOutUsers(st, now)
  {
    forall u | u in TimedOutUsers(st, now) ensures u in VictimUsers(st, vs, |vs|) {
      var t :| t in TimedOut(st, now) && st.sessions[t] in st.live && st.live[st.sessions[t]].userId == u && u > 0;
      var j :| 0 <= j < |vs| && vs[j].token == t;
    }
    forall u | u in VictimUsers(st, vs, |vs|) ensures u in TimedOutUsers(st, now) {
      var j :| 0 <= j < |vs| && vs[j].token in st.sessions && st.sessions[vs[j].token] in st.live
               && st.live[st.sessions[vs[j].token]].userId == u && u > 0;
      assert vs[j].token in TokensOf(vs, |vs|);
    }
  }

  /** A session that was heard in time is not touched by the sweep. */
  lemma ActiveUntouched(st: State, vs: seq<Victim>, now: int)
    requires Registry(st) && SweepOk(st, vs, now)
    ensures forall i :: i in st.live && IsActive(st.live[i], now) ==>
              i in EvictAll(st, vs).live && EvictAll(st, vs).live[i] == st.live[i]
  {
    SweepOkDistinct(st, vs, now);
    SweepProgress(st, vs, |vs|);
    assert vs[..|vs|] == vs;
    forall i, j | i in st.live && IsActive(st.live[i], now) && 0 <= j < |vs| ensures !NamesSession(st, vs[j], i) {
      assert vs[j].token in set x | 0 <= x < |vs| :: vs[x].token;
      assert vs[j].token in TimedOut(st, now);
    }
  }

  /** In disciplined tables the order in which the sweep meets the entries does not matter. */
  lemma {:induction false} SweepOrderIsIrrelevant(st: State, vs: seq<Victim>, k: nat)
    requires Quiescence.Tidy(st) && DistinctVictims(st, vs) && k <= |vs| && forall v :: v in vs ==> !v.fault
    requires forall i :: 0 <= i < |vs| ==> VictimPickOk(EvictAll(st, vs[..i]), vs[i])
    ensures EvictAll(st, vs[..k]).db == ExitAll(st.db, VictimUsers(st, vs, k))
    ensures Quiescence.Tidy(EvictAll(st, vs[..k]))
  {
    if k == 0 {
      ExitNobody(st.db);
      assert VictimUsers(st, vs, 0) == {};
    } else {
      SweepOrderIsIrrelevant(st, vs, k - 1);
      assert vs[k - 1] in vs;
      OrderStepAt(st, vs, k - 1);
    }
  }

  lemma OrderStepAt(st: State, vs: seq<Victim>, k: nat)
    requires DistinctVictims(st, vs) && k < |vs| && !vs[k].fault
    requires VictimPickOk(EvictAll(st, vs[..k]), vs[k])
    requires EvictAll(st, vs[..k]).db == ExitAll(st.db, VictimUsers(st, vs, k))
    requires Quiescence.Tidy(EvictAll(st, vs[..k]))
    ensures EvictAll(st, vs[..k + 1]).db == ExitAll(st.db, VictimUsers(st, vs, k + 1))
    ensures Quiescence.Tidy(EvictAll(st, vs[..k + 1]))
  {
    SweepProgress(st, vs, k);
    EvictAllStep(st, vs, k);
    OrderStep(st, vs, k, EvictAll(st, vs[..k]));
  }

  lemma EvictAllStep(st: State, vs: seq<Victim>, k: nat)
    requires k < |vs|
    ensures EvictAll(st, vs[..k + 1]) == Evict(EvictAll(st, vs[..k]), vs[k])
  {
    assert vs[..k + 1][..k] == vs[..k];
  }

  lemma OrderStep(st: State, vs: seq<Victim>, k: nat, mid: State)
    requires DistinctVictims(st, vs) && k < |vs| && SweptTo(st, vs, k, mid) && Quiescence.Tidy(mid)
    requires VictimPickOk(mid, vs[k]) && !vs[k].fault && mid.db == ExitAll(st.db, VictimUsers(st, vs, k))
    ensures Evict(mid, vs[k]).db == ExitAll(st.db, VictimUsers(st, vs, k + 1)) && Quiescence.Tidy(Evict(mid, vs[k]))
  {
    var v := vs[k];
    var id := st.sessions[v.token];
    var us := if st.live[id].userId > 0 then {st.live[id].userId} else {};
    EvictProgress(st, vs, k, mid);
    Quiescence.EvictTidy(mid, v);
    assert mid.live[id].userId == st.live[id].userId;
    Quiescence.ExitOne(mid, id, v.pick);
    EvictIsHandleError(mid, v);
    UsersStep(st, vs, k);
    ExitCompose(st.db, VictimUsers(st, vs, k), us);
  }

  lemma EvictIsHandleError(st: State, v: Victim)
    requires v.token in st.sessions && st.sessions[v.token] in st.live
    ensures Evict(st, v).db == HandleError(st, st.sessions[v.token], v.pick, v.fault).db
  {
  }

  // ---------- Timed runs ----------

  /** The truncating cast costs nothing: active means heard less than twelve whole seconds ago. */
  lemma ActiveExactly(s: SessionRec, now: int)
    ensures IsActive(s, now) <==> now - s.lastActivity < 12_000_000_000
  {
  }

  ghost predicate Monotone(times: seq<int>) {
    forall i, j :: 0 <= i <= j < |times| ==> times[i] <= times[j]
  }

  /** Each sweep is followed by another within gap, as long as the run lasts that long. */
  ghost predicate SweepsRegularly(steps: seq<Step>, times: seq<int>, gap: int)
    requires |steps| == |times|
  {
    forall k :: 0 <= k < |steps| && steps[k].Sweep? ==> SweepFollows(steps, times, gap, k)
  }

  ghost predicate SweepFollows(steps: seq<Step>, times: seq<int>, gap: int, k: nat)
    requires |steps| == |times| && k < |times|
  {
    (exists e :: 0 <= e < |times| && times[e] > times[k] + gap) ==>
      exists j :: k < j < |steps| && steps[j].Sweep? && times[j] <= times[k] + gap
  }

  /** Regular sweeps put one, from step r on, into every window of one gap that starts at x, if step r comes
      no later than x. */
  lemma {:induction false} SweepInWindow(steps: seq<Step>, times: seq<int>, gap: int, k: nat, x: int, r: nat, n: nat)
      returns (j: nat)
    requires |steps| == |times| && Monotone(times) && SweepsRegularly(steps, times, gap)
    requires k < |steps| && steps[k].Sweep? && times[k] <= x
    requires r <= |times| && (r > 0 ==> times[r - 1] <= x)
    requires n < |steps| && times[n] > x + gap && gap >= 0
    ensures r <= j < n && k <= j && steps[j].Sweep? && x <= times[j] <= x + gap
    decreases |steps| - k
  {
    if times[k] == x && r <= k {
      j := k;
    } else {
      assert SweepFollows(steps, times, gap, k) && times[n] > times[k] + gap;
      j :| k < j < |steps| && steps[j].Sweep? && times[j] <= times[k] + gap;
      if times[j] < x || j < r {
        j := SweepInWindow(steps, times, gap, j, x, r, n);
      }
    }
  }

  /** The session is destroyed, closed, or open under a token; it was last heard by time t. */
  ghost predicate Registered(st: State, id: SessionId, t: int) {
    && id < st.nextId
    && (id in st.live ==> st.live[id].lastActivity <= t)
    && (id in st.live && st.live[id].phase != Closed ==> st.live[id].phase == Open && st.live[id].token != "")
  }

  /** The session has no entry and cannot get one again. */
  ghost predicate Gone(st: State, id: SessionId) {
    && id < st.nextId && (id in st.live ==> st.live[id].phase == Closed)
    && forall t :: t in st.sessions ==> st.sessions[t] != id
  }

  /** Every step but its own Ping leaves what is known of a session. */
  ghost predicate Calm(a: State, b: State, id: SessionId) {
    && a.nextId <= b.nextId
    && (id in b.live ==>
        && id in a.live
        && b.live[id].lastActivity == a.live[id].lastActivity
        && (b.live[id].phase == a.live[id].phase || b.live[id].phase == Closed)
        && (a.live[id].token != "" ==> b.live[id].token != ""))
    && (forall t :: t in b.sessions && b.sessions[t] == id ==>
          (t in a.sessions && a.sessions[t] == id) || (id in a.live && a.live[id].phase == Open))
  }

  lemma StepIsCalm(st: State, step: Step, now: int, id: SessionId)
    requires Registry(st) && Enabled(st, step, now) && id < st.nextId && step != Ping(id)
    requires id in st.live ==> st.live[id].phase != Fresh
    ensures Calm(st, Next(st, step, now), id)
  {
    match step
    case CreateRoomReq(x, name, max, fault) => AfterIsCalm(st, x, CreateRoomEffect(st, x, name, max, fault, now), id);
    case JoinRoomReq(x, room, fault) => AfterIsCalm(st, x, JoinRoomEffect(st, x, room, fault), id);
    case ExitRoomReq(x, pick, fault) => AfterIsCalm(st, x, ExitRoomEffect(st, x, pick, fault), id);
    case GameStartReq(x, room, mapId, fault) => AfterIsCalm(st, x, GameStartEffect(st, x, room, mapId, fault), id);
    case GameEndReq(x, game, fault) => AfterIsCalm(st, x, GameEndEffect(st, x, game, fault), id);
    case Sweep(vs) => SweepIsCalm(st, vs, now, id);
    case ClientHandshake(x, token) => RegisterIsCalm(st, x, st.live[x].(phase := Open), token, id);
    case Login(x, user, token) => RegisterIsCalm(st, x, st.live[x].(userId := user, status := Lobby), token, id);
    case Accept => SessionStepIsCalm(st, step, now, id);
    case MirrorHandshake(x, port) => SessionStepIsCalm(st, step, now, id);
    case LoginLookupFault(x) => SessionStepIsCalm(st, step, now, id);
    case NewUser(user) => SessionStepIsCalm(st, step, now, id);
    case Ping(x) => SessionStepIsCalm(st, step, now, id);
    case Close(x, pick, fault) => SessionStepIsCalm(st, step, now, id);
    case Destroy(x) => SessionStepIsCalm(st, step, now, id);
  }

  lemma SweepIsCalm(st: State, vs: seq<Victim>, now: int, id: SessionId)
    requires Registry(st) && SweepOk(st, vs, now)
    ensures Calm(st, EvictAll(st, vs), id)
  {
    SweepOkDistinct(st, vs, now);
    SweepProgress(st, vs, |vs|);
    assert vs[..|vs|] == vs;
  }

  lemma SessionStepIsCalm(st: State, step: Step, now: int, id: SessionId)
    requires Enabled(st, step, now) && id < st.nextId && step != Ping(id)
    requires id in st.live ==> st.live[id].phase != Fresh
    requires step.Accept? || step.MirrorHandshake? || step.LoginLookupFault? || step.NewUser? || step.Ping?
          || step.Close? || step.Destroy?
    ensures Calm(st, Next(st, step, now), id)
  {
  }

  lemma RegisterIsCalm(st: State, x: SessionId, s: SessionRec, token: Token, id: SessionId)
    requires Registry(st) && x in st.live && token != ""
    requires s.lastActivity == st.live[x].lastActivity && s.phase == Open
    requires x == id ==> st.live[x].phase == Open
    ensures Calm(st, Register(st.(live := st.live[x := s]), x, token), id)
  {
    EraseOneIsAll(st, x);
  }

  lemma AfterIsCalm(st: State, x: SessionId, e: Effect, id: SessionId)
    requires x in st.live
    ensures Calm(st, After(st, x, e), id)
  {
  }

  lemma {:induction false} StaysRegistered(sts: seq<State>, steps: seq<Step>, times: seq<int>, id: SessionId, t: int,
                                           r: nat, k: nat)
    requires ServerRun(sts, steps, times) && Start(sts[0]) && r <= k < |sts|
    requires Registered(sts[r], id, t)
    requires forall i :: r <= i < k ==> steps[i] != Ping(id)
    ensures Registered(sts[k], id, t)
  {
    if r < k {
      StaysRegistered(sts, steps, times, id, t, r, k - 1);
      EveryRunSafe(sts, steps, times, k - 1);
      assert StepAt(sts, steps, times, k - 1);
      StepIsCalm(sts[k - 1], steps[k - 1], times[k - 1], id);
    }
  }

  lemma {:induction false} StaysGone(sts: seq<State>, steps: seq<Step>, times: seq<int>, id: SessionId, r: nat, k: nat)
    requires ServerRun(sts, steps, times) && Start(sts[0]) && r <= k < |sts|
    requires Gone(sts[r], id)
    requires forall i :: r <= i < k ==> steps[i] != Ping(id)
    ensures Gone(sts[k], id)
  {
    if r < k {
      StaysGone(sts, steps, times, id, r, k - 1);
      EveryRunSafe(sts, steps, times, k - 1);
      assert StepAt(sts, steps, times, k - 1);
      StepIsCalm(sts[k - 1], steps[k - 1], times[k - 1], id);
    }
  }

  lemma SweepEvicts(sts: seq<State>, steps: seq<Step>, times: seq<int>, k: nat, id: SessionId, t: int)
    requires ServerRun(sts, steps, times) && Start(sts[0]) && k < |steps| && steps[k].Sweep?
    requires Registered(sts[k], id, t) && times[k] >= t + TIMEOUT * SECOND
    ensures Gone(sts[k + 1], id)
  {
    EveryRunSafe(sts, steps, times, k);
    SweepIsExact(sts, steps, times, k);
    assert StepAt(sts, steps, times, k);
    StepIsCalm(sts[k], steps[k], times[k], id);
    if id in sts[k].live {
      ActiveExactly(sts[k].live[id], times[k]);
      if sts[k].live[id].phase == Open {
        BroadcastReachesOnce(sts, steps, times, k, id);
      }
    }
  }

  lemma EvictedBySweep(sts: seq<State>, steps: seq<Step>, times: seq<int>, id: SessionId, t: int, r: nat, j: nat,
                       n: nat)
    requires ServerRun(sts, steps, times) && Start(sts[0]) && r <= j < n < |sts|
    requires Registered(sts[r], id, t) && steps[j].Sweep? && times[j] >= t + TIMEOUT * SECOND
    requires forall i :: r <= i < n ==> steps[i] != Ping(id)
    ensures Gone(sts[n], id)
  {
    StaysRegistered(sts, steps, times, id, t, r, j);
    SweepEvicts(sts, steps, times, j, id, t);
    StaysGone(sts, steps, times, id, j + 1, n);
  }

  /** The first moment at which a sweep after step r - 1 evicts a session last heard by t. */
  function DueAt(times: seq<int>, r: nat, t: int): int
    requires 0 < r <= |times|
  {
    if times[r - 1] > t + 12 * SECOND then times[r - 1] else t + 12 * SECOND
  }

  /** With sweeps at most 10 + d seconds apart, a session that is registered by step r - 1, was last heard by time t
      and does not ping before step n, has no entry at step n, if step n comes more than 10 + d seconds after
      it was registered and after t + 12 seconds: for one heard when it was registered, after t + 22 + d. */
  lemma EvictedInTime(sts: seq<State>, steps: seq<Step>, times: seq<int>, id: SessionId, t: int, r: nat, d: nat,
                      first: nat, n: nat)
    requires ServerRun(sts, steps, times) && Start(sts[0]) && Monotone(times)
    requires 0 < r < |sts| && Registered(sts[r], id, t) && n < |steps|
    requires forall i :: r <= i < n ==> steps[i] != Ping(id)
    requires SweepsRegularly(steps, times, 10 * SECOND + d)
    requires first < |steps| && steps[first].Sweep? && times[first] <= DueAt(times, r, t)
    requires times[n] > DueAt(times, r, t) + 10 * SECOND + d
    ensures Gone(sts[n], id)
  {
    var j := SweepInWindow(steps, times, 10 * SECOND + d, first, DueAt(times, r, t), r, n);
    EvictedBySweep(sts, steps, times, id, t, r, j, n);
  }

  /** When the session was last heard before step k, if it was last heard at base before step r. */
  ghost function LastHeard(steps: seq<Step>, times: seq<int>, id: SessionId, base: int, r: nat, k: nat): int
    requires |steps| == |times| && r <= k <= |steps|
    decreases k
  {
    if k == r then base
    else if steps[k - 1] == Ping(id) then times[k - 1]
    else LastHeard(steps, times, id, base, r, k - 1)
  }

  ghost predicate OpenSince(st: State, id: SessionId, heard: int) {
    id in st.live && st.live[id].phase == Open && st.live[id].token != "" && st.live[id].lastActivity == heard
  }

  /** A session that no sweep finds silent for twelve seconds is never evicted: while it does not close
      itself it stays open, under its token and in sessions_. */
  lemma PingingSessionsStay(sts: seq<State>, steps: seq<Step>, times: seq<int>, id: SessionId, heard: int,
                            r: nat, k: nat)
    requires ServerRun(sts, steps, times) && Start(sts[0]) && r <= k < |sts|
    requires OpenSince(sts[r], id, heard)
    requires forall i :: r <= i < k ==> !(steps[i].Close? && steps[i].id == id)
    requires forall i :: r <= i < k && steps[i].Sweep? ==>
               times[i] - LastHeard(steps, times, id, heard, r, i) < TIMEOUT * SECOND
    ensures OpenSince(sts[k], id, LastHeard(steps, times, id, heard, r, k))
    ensures sts[k].live[id].token in sts[k].sessions && sts[k].sessions[sts[k].live[id].token] == id
  {
    PingingSessionsStayOpen(sts, steps, times, id, heard, r, k);
    OpenHasEntry(sts, steps, times, k, id);
  }

  lemma {:induction false} PingingSessionsStayOpen(sts: seq<State>, steps: seq<Step>, times: seq<int>, id: SessionId,
                                                   heard: int, r: nat, k: nat)
    requires ServerRun(sts, steps, times) && Start(sts[0]) && r <= k < |sts|
    requires OpenSince(sts[r], id, heard)
    requires forall i :: r <= i < k ==> !(steps[i].Close? && steps[i].id == id)
    requires forall i :: r <= i < k && steps[i].Sweep? ==>
               times[i] - LastHeard(steps, times, id, heard, r, i) < TIMEOUT * SECOND
    ensures OpenSince(sts[k], id, LastHeard(steps, times, id, heard, r, k))
  {
    if r < k {
      PingingSessionsStayOpen(sts, steps, times, id, heard, r, k - 1);
      EveryRunSafe(sts, steps, times, k - 1);
      assert StepAt(sts, steps, times, k - 1);
      ActiveExactly(sts[k - 1].live[id], times[k - 1]);
      StaysOpen(sts[k - 1], sts[k], steps[k - 1], times[k - 1], id);
    }
  }

  /** Between i and j the session was heard, or it was last heard at the same time before both. */
  lemma {:induction false} HeardBetween(steps: seq<Step>, times: seq<int>, id: SessionId, heard: int,
                                        r: nat, i: nat, j: nat) returns (p: nat)
    requires |steps| == |times| && r <= i <= j <= |steps|
    ensures i <= p <= j && LastHeard(steps, times, id, heard, r, p) == LastHeard(steps, times, id, heard, r, i)
    ensures p < j ==> steps[p] == Ping(id)
  {
    if i == j {
      p := i;
    } else {
      p := HeardBetween(steps, times, id, heard, r, i, j - 1);
      if p == j - 1 && steps[j - 1] != Ping(id) {
        p := j;
      }
    }
  }

  /** Each ping comes less than twelve seconds after the one before, and so does the end of the stretch. */
  ghost predicate PingsInTime(steps: seq<Step>, times: seq<int>, id: SessionId, heard: int, r: nat, k: nat)
    requires |steps| == |times| && r <= k <= |steps|
  {
    && (forall i :: r <= i < k && steps[i] == Ping(id) ==>
          times[i] - LastHeard(steps, times, id, heard, r, i) < 12 * SECOND)
    && (r < k ==> times[k - 1] - LastHeard(steps, times, id, heard, r, k) < 12 * SECOND)
  }

  /** A session whose ping gaps stay under twelve seconds is never evicted, whenever the sweeps come. */
  lemma GapsUnderTimeoutStay(sts: seq<State>, steps: seq<Step>, times: seq<int>, id: SessionId, heard: int,
                             r: nat, k: nat)
    requires ServerRun(sts, steps, times) && Start(sts[0]) && Monotone(times) && r <= k < |sts|
    requires OpenSince(sts[r], id, heard) && PingsInTime(steps, times, id, heard, r, k)
    requires forall i :: r <= i < k ==> !(steps[i].Close? && steps[i].id == id)
    ensures OpenSince(sts[k], id, LastHeard(steps, times, id, heard, r, k))
    ensures sts[k].live[id].token in sts[k].sessions && sts[k].sessions[sts[k].live[id].token] == id
  {
    forall i | r <= i < k ensures times[i] - LastHeard(steps, times, id, heard, r, i) < TIMEOUT * SECOND {
      var p := HeardBetween(steps, times, id, heard, r, i, k);
      assert p < k ==> times[i] <= times[p];
      assert times[i] <= times[k - 1];
    }
    PingingSessionsStay(sts, steps, times, id, heard, r, k);
  }

  lemma OpenHasEntry(sts: seq<State>, steps: seq<Step>, times: seq<int>, k: nat, id: SessionId)
    requires ServerRun(sts, steps, times) && Start(sts[0]) && k < |sts|
    requires id in sts[k].live && sts[k].live[id].phase == Open && sts[k].live[id].token != ""
    ensures sts[k].live[id].token in sts[k].sessions && sts[k].sessions[sts[k].live[id].token] == id
  {
    EveryRunSafe(sts, steps, times, k);
    BroadcastReachesOnce(sts, steps, times, k, id);
  }

  lemma StaysOpen(st: State, st': State, step: Step, now: int, id: SessionId)
    requires Registry(st) && Enabled(st, step, now) && st' == Next(st, step, now)
    requires id in st.live && st.live[id].phase == Open && st.live[id].token != ""
    requires !(step.Close? && step.id == id)
    requires step.Sweep? ==> IsActive(st.live[id], now)
    ensures id in st'.live && st'.live[id].phase == Open && st'.live[id].token != ""
    ensures st'.live[id].lastActivity == if step == Ping(id) then now else st.live[id].lastActivity
  {
    if step.Sweep? {
      ActiveUntouched(st, step.victims, now);
    } else if step != Ping(id) {
      StepIsCalm(st, step, now, id);
      StepKeepsOpen(st, step, now, id);
    }
  }

  lemma StepKeepsOpen(st: State, step: Step, now: int, id: SessionId)
    requires Registry(st) && Enabled(st, step, now)
    requires id in st.live && st.live[id].phase == Open
    requires !(step.Close? && step.id == id) && !step.Sweep?
    ensures id in Next(st, step, now).live && Next(st, step, now).live[id].phase == Open
  {
    match step
    case CreateRoomReq(x, name, max, fault) =>
      AfterKeepsPhase(st, x, CreateRoomEffect(st, x, name, max, fault, now), id);
    case JoinRoomReq(x, room, fault) => AfterKeepsPhase(st, x, JoinRoomEffect(st, x, room, fault), id);
    case ExitRoomReq(x, pick, fault) => AfterKeepsPhase(st, x, ExitRoomEffect(st, x, pick, fault), id);
    case GameStartReq(x, room, mapId, fault) => AfterKeepsPhase(st, x, GameStartEffect(st, x, room, mapId, fault), id);
    case GameEndReq(x, game, fault) => AfterKeepsPhase(st, x, GameEndEffect(st, x, game, fault), id);
    case Accept => SessionStepKeepsOpen(st, step, now, id);
    case ClientHandshake(x, token) => SessionStepKeepsOpen(st, step, now, id);
    case Login(x, user, token) => SessionStepKeepsOpen(st, step, now, id);
    case MirrorHandshake(x, port) => SessionStepKeepsOpen(st, step, now, id);
    case LoginLookupFault(x) => SessionStepKeepsOpen(st, step, now, id);
    case NewUser(user) => SessionStepKeepsOpen(st, step, now, id);
    case Ping(x) => SessionStepKeepsOpen(st, step, now, id);
    case Close(x, pick, fault) => SessionStepKeepsOpen(st, step, now, id);
    case Destroy(x) => SessionStepKeepsOpen(st, step, now, id);
  }

  lemma SessionStepKeepsOpen(st: State, step: Step, now: int, id: SessionId)
    requires Registry(st) && Enabled(st, step, now)
    requires id in st.live && st.live[id].phase == Open
    requires !(step.Close? && step.id == id)
    requires step.Accept? || step.ClientHandshake? || step.Login? || step.MirrorHandshake? || step.LoginLookupFault?
          || step.NewUser? || step.Ping? || step.Close? || step.Destroy?
    ensures id in Next(st, step, now).live && Next(st, step, now).live[id].phase == Open
  {
  }

  lemma AfterKeepsPhase(st: State, x: SessionId, e: Effect, id: SessionId)
    requires x in st.live && id in st.live
    ensures id in After(st, x, e).live && After(st, x, e).live[id].phase == st.live[id].phase
  {
  }
}
