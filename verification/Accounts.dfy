/** Accounts: case-folded lookup, registration and login over the users table. */
module Accounts {
  import opened Wrappers
  import opened Strings
  import opened DbPoolClass

  datatype User = User(name: string, hash: string, nick: string)

  /** seqNo is the sequence behind user_id; it also moves when an insert is refused. */
  datatype Users = Users(rows: map<int, User>, seqNo: int)

  /** LOWER of the database and the password hash, about which nothing is assumed. */
  datatype Text = Text(lower: string -> string, hash: string -> string)

  const MAX_NAME := 50
  const MIN_PASSWORD := 6

  // ---------- Names ----------

  predicate Occurs(s: string, part: string) {
    exists i :: 0 <= i <= |s| && OccursAt(s, part, i)
  }

  predicate Alnum(c: char) {
    'A' <= c <= 'Z' || 'a' <= c <= 'z' || '0' <= c <= '9'
  }

  /** An '@' with a '.' somewhere after the first one. */
  predicate LooksLikeEmail(s: string) {
    exists j :: 0 <= j < |s| && s[j] == '.' && exists i :: 0 <= i < j && s[i] == '@'
  }

  predicate IsValidUserName(s: string) {
    && 1 <= |s| <= 30
    && !Occurs(s, "mirror")
    && forall i :: 0 <= i < |s| ==> Alnum(s[i]) || (LooksLikeEmail(s) && s[i] in "@._-+")
  }

  /** The service searches for "mirror", '@' and '.', then checks every byte against one of two alphabets. */
  method CheckUserName(s: string) returns (ok: bool)
    ensures ok <==> IsValidUserName(s)
  {
    if s == [] || |s| > 30 {
      return false;
    }
    if Find(s, "mirror", 0).Some? {
      return false;
    }
    var isEmail := FindsEmail(s);
    for i := 0 to |s|
      invariant forall j :: 0 <= j < i ==> Alnum(s[j]) || (isEmail && s[j] in "@._-+")
    {
      if !Alnum(s[i]) && !(isEmail && s[i] in "@._-+") {
        return false;
      }
    }
    return true;
  }

  method FindsEmail(s: string) returns (isEmail: bool)
    ensures isEmail <==> LooksLikeEmail(s)
  {
    var at := Find(s, "@", 0);
    OneCharFinds(s, '@', 0);
    if at.None? {
      return false;
    }
    OneCharFinds(s, '.', at.value);
    isEmail := Find(s, ".", at.value).Some?;
  }

  /** Searching for one character finds its first position. */
  lemma OneCharFinds(s: string, c: char, from: nat)
    ensures Find(s, [c], from).None? ==> forall i :: from <= i < |s| ==> s[i] != c
    ensures Find(s, [c], from).Some? ==>
              var k := Find(s, [c], from).value;
              from <= k < |s| && s[k] == c && forall i :: from <= i < k ==> s[i] != c
  {
    forall i | from <= i < |s| && s[i] == c ensures OccursAt(s, [c], i) {
    }
    if Find(s, [c], from).Some? {
      OccurrenceChars(s, [c], Find(s, [c], from).value);
    }
  }

  /** The letters A to Z in lower case. */
  function Lowered(s: string): (r: string)
    ensures |r| == |s| && forall i :: 0 <= i < |s| && !('A' <= s[i] <= 'Z') ==> r[i] == s[i]
  {
    seq(|s|, i requires 0 <= i < |s| => if 'A' <= s[i] <= 'Z' then (s[i] as int + 32) as char else s[i])
  }

  /** The rule the comment on the search for "mirror" announces: the word is refused in any case. */
  predicate IsValidInAnyCase(s: string) {
    && 1 <= |s| <= 30
    && !Occurs(Lowered(s), "mirror")
    && forall i :: 0 <= i < |s| ==> Alnum(s[i]) || (LooksLikeEmail(s) && s[i] in "@._-+")
  }

  /** The code departs from that rule exactly when the word occurs in another case and not in lower case, in a
      name that passes the checks of length and alphabet. */
  lemma MirrorSearchIsCaseSensitive(s: string)
    ensures (IsValidUserName(s) <==> IsValidInAnyCase(s)) <==>
              !(&& 1 <= |s| <= 30
                && (forall i :: 0 <= i < |s| ==> Alnum(s[i]) || (LooksLikeEmail(s) && s[i] in "@._-+"))
                && !Occurs(s, "mirror") && Occurs(Lowered(s), "mirror"))
  {
    if Occurs(s, "mirror") {
      var i :| 0 <= i <= |s| && OccursAt(s, "mirror", i);
      LoweredOccurs(s, i);
    }
  }

  lemma LoweredOccurs(s: string, i: nat)
    requires OccursAt(s, "mirror", i)
    ensures OccursAt(Lowered(s), "mirror", i)
  {
    var m := "mirror";
    OccurrenceChars(s, m, i);
    assert forall k :: 0 <= k < 6 ==> s[i + k] == m[k];
    assert m[0] == 'm' && m[1] == 'i' && m[2] == 'r' && m[3] == 'r' && m[4] == 'o' && m[5] == 'r';
    forall k | 0 <= k < 6 ensures Lowered(s)[i..i + 6][k] == m[k] {
      assert Lowered(s)[i + k] == s[i + k];
    }
    assert Lowered(s)[i..i + 6] == m;
  }

  /** "Mirror1" is accepted although it holds the word. */
  lemma CapitalMirrorPasses()
    ensures IsValidUserName("Mirror1") && !IsValidInAnyCase("Mirror1")
  {
    var s := "Mirror1";
    forall i | 0 <= i <= |s| ensures !OccursAt(s, "mirror", i) {
      Mismatch(s, "mirror", i, 0);
    }
    assert Lowered(s)[0..6] == "mirror" by {
      assert forall k :: 0 <= k < 6 ==> Lowered(s)[k] == "mirror"[k];
    }
    assert OccursAt(Lowered(s), "mirror", 0);
  }

  /** The comment allows English letters, digits, Hangul and '@' in a name that is no e-mail address; of such names,
      and whatever bytes beyond ASCII they hold, the code accepts exactly those of letters and digits alone. */
  lemma AtSignAloneIsRefused(s: string)
    requires 1 <= |s| <= 30 && !Occurs(s, "mirror")
    requires forall i :: 0 <= i < |s| ==> Alnum(s[i]) || s[i] == '@' || s[i] as int >= 0x80
    ensures IsValidUserName(s) <==> forall i :: 0 <= i < |s| ==> Alnum(s[i])
  {
    assert forall i :: 0 <= i < |s| ==> s[i] != '.';
    assert !LooksLikeEmail(s);
  }

  /** Letters and digits alone make a valid name exactly up to thirty of them, "mirror" apart. */
  lemma PlainNamesExactly(s: string)
    requires forall i :: 0 <= i < |s| ==> 'A' <= s[i] <= 'Z' || 'a' <= s[i] <= 'z' || '0' <= s[i] <= '9'
    ensures IsValidUserName(s) <==> 1 <= |s| <= 30 && !Occurs(s, "mirror")
  {
  }

  /** An address may use every sign of the second alphabet. */
  lemma AddressPasses()
    ensures IsValidUserName("A.b_c-d+9@x.Y")
  {
    var e := "A.b_c-d+9@x.Y";
    NoSmallM(e);
    assert e[11] == '.' && e[9] == '@';
  }

  lemma NoSmallM(s: string)
    requires forall i :: 0 <= i < |s| ==> s[i] != 'm'
    ensures !Occurs(s, "mirror")
  {
    forall i | 0 <= i <= |s| ensures !OccursAt(s, "mirror", i) {
      Mismatch(s, "mirror", i, 0);
    }
  }

  // ---------- The table ----------

  function Matches(us: Users, text: Text, name: string): set<int> {
    set u | u in us.rows && text.lower(us.rows[u].name) == text.lower(name)
  }

  predicate Insertable(us: Users, name: string) {
    |name| <= MAX_NAME && us.seqNo !in us.rows && forall u :: u in us.rows ==> us.rows[u].name != name
  }

  function Insert(us: Users, name: string, hash: string, nick: string): (Users, int) {
    if Insertable(us, name) then (Users(us.rows[us.seqNo := User(name, hash, nick)], us.seqNo + 1), us.seqNo)
    else (us.(seqNo := us.seqNo + 1), -1)
  }

  function Rename(us: Users, userId: int, nick: string): Users {
    if userId in us.rows then us.(rows := us.rows[userId := us.rows[userId].(nick := nick)]) else us
  }

  // ---------- Requests ----------

  /** What the first lookup of a request finds: nothing at all if it is blind, that is, if it failed. */
  function Seen(us: Users, text: Text, name: string, blind: bool): set<int> {
    if blind then {} else Matches(us, text, name)
  }

  /** registerUser. */
  function Register(us: Users, text: Text, name: string, password: string, nick: string, blind: bool)
    : (Users, Option<int>)
  {
    if !IsValidUserName(name) || |password| < MIN_PASSWORD || Seen(us, text, name, blind) != {} then (us, None)
    else
      var (us', id) := Insert(us, name, text.hash(password), nick);
      (us', if id < 0 then None else Some(id))
  }

  /** loginUser; pick is the row an unordered SELECT returns first. */
  function Login(us: Users, text: Text, name: string, password: string, pick: int): Option<int>
    requires Matches(us, text, name) != {} ==> pick in Matches(us, text, name)
  {
    if Matches(us, text, name) == {} || text.hash(password) != us.rows[pick].hash then None else Some(pick)
  }

  /** registerCheckAndLogin creates the account if the name is unknown; it does not look at the password. */
  function Enter(us: Users, text: Text, name: string, password: string, nick: string, blind: bool): Users {
    if Seen(us, text, name, blind) != {} then us else Insert(us, name, text.hash(password), nick).0
  }

  /** A registration that sees the table succeeds exactly for a valid name, a password of six characters or more
      and a name no account folds to; it then files the account under the next id. */
  lemma RegisterExactly(us: Users, text: Text, name: string, password: string, nick: string)
    requires us.seqNo >= 0 && us.seqNo !in us.rows
    ensures var (us', r) := Register(us, text, name, password, nick, false);
            && (r.Some? <==>
                  && IsValidUserName(name) && |password| >= 6
                  && forall u :: u in us.rows ==> text.lower(us.rows[u].name) != text.lower(name))
            && (r.Some? ==>
                  && r == Some(us.seqNo)
                  && us' == Users(us.rows[us.seqNo := User(name, text.hash(password), nick)], us.seqNo + 1))
            && (r.None? ==> us'.rows == us.rows)
  {
    NobodyMatches(us, text, name);
  }

  lemma NobodyMatches(us: Users, text: Text, name: string)
    ensures Matches(us, text, name) == {} <==>
              forall u :: u in us.rows ==> text.lower(us.rows[u].name) != text.lower(name)
  {
    var ms := Matches(us, text, name);
    if ms != {} {
      var u := Witness(ms);
      assert text.lower(us.rows[u].name) == text.lower(name);
    } else {
      forall u | u in us.rows ensures text.lower(us.rows[u].name) != text.lower(name) {
        assert u !in ms;
      }
    }
  }

  /** registerCheckAndLogin that sees the table adds an account exactly for a name of at most fifty characters that
      no account folds to, and nothing but it; the shape of the name and the password do not matter. */
  lemma EnterExactly(us: Users, text: Text, name: string, password: string, nick: string)
    requires us.seqNo !in us.rows
    ensures Enter(us, text, name, password, nick, false).rows
         == if |name| <= 50 && (forall u :: u in us.rows ==> text.lower(us.rows[u].name) != text.lower(name))
            then us.rows[us.seqNo := User(name, text.hash(password), nick)] else us.rows
  {
    NobodyMatches(us, text, name);
  }

  // ---------- Runs ----------

  /** LostId is an insert that failed after it had drawn its id; every other failure changes nothing or is
      a lookup that went blind. */
  datatype Op =
    | RegisterOp(name: string, password: string, nick: string, blind: bool)
    | EnterOp(name: string, password: string, nick: string, blind: bool)
    | RenameOp(userId: int, nick: string)
    | LostId

  function Apply(us: Users, text: Text, op: Op): Users {
    match op
    case RegisterOp(n, p, k, b) => Register(us, text, n, p, k, b).0
    case EnterOp(n, p, k, b) => Enter(us, text, n, p, k, b)
    case RenameOp(u, k) => Rename(us, u, k)
    case LostId => us.(seqNo := us.seqNo + 1)
  }

  ghost predicate AccountRun(uss: seq<Users>, text: Text, ops: seq<Op>) {
    && |uss| == |ops| + 1
    && forall i :: 0 <= i < |ops| ==> uss[i + 1] == Apply(uss[i], text, ops[i])
  }

  ghost predicate UniqueFolded(us: Users, text: Text) {
    forall u, v :: u in us.rows && v in us.rows && u != v ==>
      text.lower(us.rows[u].name) != text.lower(us.rows[v].name)
  }

  /** An insert keeps the accounts unique exactly when the name, folded, was not there. */
  lemma InsertKeepsUnique(us: Users, text: Text, name: string, hash: string, nick: string)
    requires UniqueFolded(us, text) && Insertable(us, name)
    ensures UniqueFolded(Insert(us, name, hash, nick).0, text) <==> Matches(us, text, name) == {}
  {
    var us' := Insert(us, name, hash, nick).0;
    assert us'.rows[us.seqNo].name == name;
    if Matches(us, text, name) != {} {
      var u := Witness(Matches(us, text, name));
      assert us'.rows[u] == us.rows[u];
    } else {
      forall u | u in us.rows ensures text.lower(us.rows[u].name) != text.lower(name) {
        assert u !in Matches(us, text, name);
      }
    }
  }

  /** The lookup failed and another spelling of a taken name passes every check that is left. */
  predicate Twins(us: Users, text: Text, op: Op) {
    && (op.RegisterOp? || op.EnterOp?) && op.blind
    && (op.RegisterOp? ==> IsValidUserName(op.name) && |op.password| >= MIN_PASSWORD)
    && Insertable(us, op.name) && Matches(us, text, op.name) != {}
  }

  /** One request keeps accounts unique up to case exactly when it is not of that kind. */
  lemma StepKeepsUniqueExactly(us: Users, text: Text, op: Op)
    requires UniqueFolded(us, text)
    ensures UniqueFolded(Apply(us, text, op), text) <==> !Twins(us, text, op)
  {
    if (op.RegisterOp? || op.EnterOp?) && Insertable(us, op.name) {
      InsertKeepsUnique(us, text, op.name, text.hash(op.password), op.nick);
    }
  }

  /** Names and hashes never change and rows never go. */
  lemma StepKeepsAccounts(us: Users, text: Text, op: Op, id: int)
    requires id in us.rows
    ensures var us' := Apply(us, text, op);
            id in us'.rows && us'.rows[id].name == us.rows[id].name && us'.rows[id].hash == us.rows[id].hash
  {
  }

  lemma {:induction false} AccountsPersist(uss: seq<Users>, text: Text, ops: seq<Op>, i: nat, k: nat, id: int)
    requires AccountRun(uss, text, ops) && i <= k < |uss| && id in uss[i].rows
    ensures id in uss[k].rows
    ensures uss[k].rows[id].name == uss[i].rows[id].name && uss[k].rows[id].hash == uss[i].rows[id].hash
  {
    if i < k {
      AccountsPersist(uss, text, ops, i, k - 1, id);
      StepKeepsAccounts(uss[k - 1], text, ops[k - 1], id);
    }
  }

  /** Accounts are unique up to case folding exactly as long as no request made a twin, database failures
      included; and then a lookup finds one row at most. */
  lemma {:induction false} AccountsAreUnique(uss: seq<Users>, text: Text, ops: seq<Op>, k: nat)
    requires AccountRun(uss, text, ops) && UniqueFolded(uss[0], text) && k < |uss|
    ensures UniqueFolded(uss[k], text) <==> forall i :: 0 <= i < k ==> !Twins(uss[i], text, ops[i])
    ensures UniqueFolded(uss[k], text) ==> forall name :: |Matches(uss[k], text, name)| <= 1
  {
    if k > 0 {
      AccountsAreUnique(uss, text, ops, k - 1);
      if UniqueFolded(uss[k - 1], text) {
        StepKeepsUniqueExactly(uss[k - 1], text, ops[k - 1]);
      } else {
        TwinsStay(uss[k - 1], text, ops[k - 1]);
      }
    }
    if UniqueFolded(uss[k], text) {
      forall name ensures |Matches(uss[k], text, name)| <= 1 {
        OneMatch(uss[k], text, name);
      }
    }
  }

  lemma TwinsStay(us: Users, text: Text, op: Op)
    requires !UniqueFolded(us, text)
    ensures !UniqueFolded(Apply(us, text, op), text)
  {
    var u, v :| u in us.rows && v in us.rows && u != v && text.lower(us.rows[u].name) == text.lower(us.rows[v].name);
    StepKeepsAccounts(us, text, op, u);
    StepKeepsAccounts(us, text, op, v);
  }

  lemma OneMatch(us: Users, text: Text, name: string)
    requires UniqueFolded(us, text)
    ensures |Matches(us, text, name)| <= 1
  {
    var ms := Matches(us, text, name);
    if ms != {} {
      var u := Witness(ms);
      assert forall v :: v in ms ==> v == u;
      assert ms == {u};
    }
  }

  /** The request makes a twin of this name, in whatever case. */
  predicate TwinsOf(us: Users, text: Text, op: Op, name: string) {
    Twins(us, text, op) && text.lower(op.name) == text.lower(name)
  }

  /** An account that is alone under its name stays so until a request makes a twin of it. */
  lemma {:induction false} StaysAlone(uss: seq<Users>, text: Text, ops: seq<Op>, i: nat, k: nat, name: string, id: int)
    requires AccountRun(uss, text, ops) && i <= k < |uss| && Matches(uss[i], text, name) == {id}
    requires forall j :: i <= j < k ==> !TwinsOf(uss[j], text, ops[j], name)
    ensures Matches(uss[k], text, name) == {id}
  {
    if i < k {
      StaysAlone(uss, text, ops, i, k - 1, name, id);
      assert uss[k] == Apply(uss[k - 1], text, ops[k - 1]);
      AloneStep(uss[k - 1], text, ops[k - 1], name, id);
    }
  }

  lemma AloneStep(us: Users, text: Text, op: Op, name: string, id: int)
    requires Matches(us, text, name) == {id} && !TwinsOf(us, text, op, name)
    ensures Matches(Apply(us, text, op), text, name) == {id}
  {
    var us' := Apply(us, text, op);
    assert id in Matches(us, text, name);
    StepKeepsAccounts(us, text, op, id);
    if (op.RegisterOp? || op.EnterOp?) && text.lower(op.name) == text.lower(name) {
      assert id in Matches(us, text, op.name);
      assert us'.rows == us.rows;
    }
    forall u | u in Matches(us', text, name) ensures u == id {
      assert u in us.rows ==> us'.rows[u].name == us.rows[u].name;
      assert u in us.rows ==> u in Matches(us, text, name);
    }
  }

  /** After a successful registration every spelling of the name that folds to it, with the password, logs in
      to the new id in every later state, if no request made a twin of this name since; and no password with a
      different hash does. */
  lemma RegisteredUsersLogIn(uss: seq<Users>, text: Text, ops: seq<Op>, i: nat, k: nat,
                             spelling: string, password: string, pick: int)
    requires AccountRun(uss, text, ops) && i < k < |uss| && ops[i].RegisterOp?
    requires forall j :: i <= j < k ==> !TwinsOf(uss[j], text, ops[j], spelling)
    requires Register(uss[i], text, ops[i].name, ops[i].password, ops[i].nick, ops[i].blind).1.Some?
    requires text.lower(spelling) == text.lower(ops[i].name)
    requires Matches(uss[k], text, spelling) != {} ==> pick in Matches(uss[k], text, spelling)
    ensures Login(uss[k], text, spelling, password, pick)
         == if text.hash(password) == text.hash(ops[i].password)
            then Register(uss[i], text, ops[i].name, ops[i].password, ops[i].nick, ops[i].blind).1 else None
  {
    var op := ops[i];
    var id := Register(uss[i], text, op.name, op.password, op.nick, op.blind).1.value;
    assert uss[i + 1] == Apply(uss[i], text, op);
    assert !Twins(uss[i], text, op) && Matches(uss[i], text, op.name) == {};
    forall u | u in uss[i].rows ensures text.lower(uss[i].rows[u].name) != text.lower(spelling) {
      assert u !in Matches(uss[i], text, op.name);
    }
    assert Matches(uss[i + 1], text, spelling) == {id};
    StaysAlone(uss, text, ops, i + 1, k, spelling, id);
    AccountsPersist(uss, text, ops, i + 1, k, id);
  }

  // ---------- The repository and the service ----------

  datatype Found = Found(userId: int, name: string, hash: string)

  class UserRepository {
    var users: Users
    const pool: DbPool

    constructor (users: Users, pool: DbPool)
      ensures this.users == users && this.pool == pool
    {
      this.users := users;
      this.pool := pool;
    }

    /** A failed lookup looks to the caller like an unknown name. */
    method FindByUsername(text: Text, name: string, pick: int, io: Io) returns (r: Reply<Option<Found>>)
      requires pool.Valid()
      requires Matches(users, text, name) != {} ==> pick in Matches(users, text, name)
      modifies pool
      ensures pool.Valid()
      ensures pool.Loans() == old(pool.Loans()) <==> io.begins || !old(pool.Lends(io))
      ensures r.Raised? <==> !old(pool.Lends(io)) || !io.begins
      ensures r.Value? && r.value.Some? ==>
                && Matches(users, text, name) != {}
                && r.value.value == Found(pick, users.rows[pick].name, users.rows[pick].hash)
      ensures r == Value(None) ==> Matches(users, text, name) == {} || io.failAt in {1, 2}
      ensures old(pool.Lends(io)) && io.begins && io.failAt == 0 ==>
                (r == Value(None) <==> Matches(users, text, name) == {})
      ensures old(pool.Lends(io)) && io.begins && io.failAt in {1, 2} ==> r == Value(None)
    {
      var got := pool.GetConnection(io.closed, io.connects);
      if got.None? {
        return Raised;
      }
      var conn := got.value;
      if !io.begins {
        return Raised;
      }
      r := Value(None);
      if io.failAt == 1 || Matches(users, text, name) == {} {
        pool.ReturnConnection(conn);
        return;
      }
      var found := Found(pick, users.rows[pick].name, users.rows[pick].hash);
      if io.failAt == 2 {
        pool.ReturnConnection(conn);
        return;
      }
      pool.ReturnConnection(conn);
      r := Value(Some(found));
    }

    method Create(name: string, hash: string, nick: string, io: Io) returns (r: Reply<int>)
      requires pool.Valid()
      modifies this, pool
      ensures pool.Valid()
      ensures pool.Loans() == old(pool.Loans()) <==> io.begins || !old(pool.Lends(io))
      ensures || (users.rows == old(users.rows) && (r == Raised || r == Value(-1)))
              || (users, r) == (Insert(old(users), name, hash, nick).0, Value(Insert(old(users), name, hash, nick).1))
      ensures old(pool.Lends(io)) && io.begins && io.failAt == 0 ==>
                (users, r) == (Insert(old(users), name, hash, nick).0, Value(Insert(old(users), name, hash, nick).1))
    {
      var got := pool.GetConnection(io.closed, io.connects);
      if got.None? {
        return Raised;
      }
      var conn := got.value;
      if !io.begins {
        return Raised;
      }
      r := Value(-1);
      if io.failAt == 1 {
        pool.ReturnConnection(conn);
        return;
      }
      var id := users.seqNo;
      if !Insertable(users, name) || io.failAt == 2 {
        users := users.(seqNo := id + 1);
        pool.ReturnConnection(conn);
        return;
      }
      users := Users(users.rows[id := User(name, hash, nick)], id + 1);
      pool.ReturnConnection(conn);
      r := Value(id);
    }

    /** registerUser: look the name up, then create it. */
    method RegisterUser(text: Text, name: string, password: string, nick: string, pick: int, io1: Io, io2: Io)
      returns (r: Option<int>)
      requires pool.Valid()
      requires Matches(users, text, name) != {} ==> pick in Matches(users, text, name)
      requires users.seqNo >= 0
      modifies this, pool
      ensures pool.Valid()
      ensures r.None? ==> users.rows == old(users.rows)
      ensures r.Some? ==> users == Insert(old(users), name, text.hash(password), nick).0 && r.value in users.rows
      ensures old(pool.Lends(io1)) && io1.begins && io1.failAt <= 2 && io2.Sound() ==>
                (users, r) == Register(old(users), text, name, password, nick, io1.failAt in {1, 2})
      ensures old(pool.Lends(io1)) && io1.begins && io1.failAt <= 2 && io2.Sound() && UniqueFolded(old(users), text) ==>
                (UniqueFolded(users, text) <==>
                   !(io1.failAt in {1, 2} && IsValidUserName(name) && |password| >= MIN_PASSWORD
                     && Insertable(old(users), name) && Matches(old(users), text, name) != {}))
      ensures io1.Sound() && io2.Sound() && old(users).seqNo !in old(users).rows ==>
                (r.Some? <==>
                   && IsValidUserName(name) && |password| >= 6
                   && forall u :: u in old(users).rows ==> text.lower(old(users).rows[u].name) != text.lower(name))
      ensures io1.failAt == 0 && UniqueFolded(old(users), text) ==> UniqueFolded(users, text)
      ensures io1.begins && io2.begins ==> pool.Loans() == old(pool.Loans())
    {
      NobodyMatches(users, text, name);
      var ok := CheckUserName(name);
      if !ok || |password| < MIN_PASSWORD {
        return None;
      }
      var found := FindByUsername(text, name, pick, io1);
      if found.Raised? || found.value.Some? {
        return None;
      }
      var id := Create(name, text.hash(password), nick, io2);
      if id.Raised? || id.value < 0 {
        return None;
      }
      if UniqueFolded(old(users), text) {
        InsertKeepsUnique(old(users), text, name, text.hash(password), nick);
      }
      r := Some(id.value);
    }

    /** The time it stores is not modelled; what it can do to its caller is raise. */
    method UpdateLastLogin(userId: int, io: Io) returns (r: Reply<bool>)
      requires pool.Valid()
      modifies pool
      ensures pool.Valid()
      ensures pool.Loans() == old(pool.Loans()) <==> io.begins || !old(pool.Lends(io))
      ensures r.Raised? <==> !old(pool.Lends(io)) || !io.begins
      ensures old(pool.Lends(io)) && io.begins && io.failAt == 0 ==> r == Value(userId in users.rows)
    {
      var got := pool.GetConnection(io.closed, io.connects);
      if got.None? {
        return Raised;
      }
      if !io.begins {
        return Raised;
      }
      pool.ReturnConnection(got.value);
      r := Value(io.failAt == 0 && userId in users.rows);
    }

    /** loginUser; a failing update of the last login after the password was checked raises. */
    method LoginUser(text: Text, name: string, password: string, pick: int, io1: Io, io2: Io)
      returns (r: Reply<Option<int>>)
      requires pool.Valid()
      requires Matches(users, text, name) != {} ==> pick in Matches(users, text, name)
      modifies pool
      ensures pool.Valid()
      ensures r.Value? && r.value.Some? ==> r.value == Login(users, text, name, password, pick)
      ensures old(pool.Lends(io1)) && io1.begins && io1.failAt == 0 ==>
                (r == Value(None) <==> Login(users, text, name, password, pick) == None)
      ensures io1.begins && io1.connects && io2.begins && io2.connects ==> !r.Raised?
      ensures io1.begins && io2.begins ==> pool.Loans() == old(pool.Loans())
    {
      var found := FindByUsername(text, name, pick, io1);
      if found.Raised? {
        return Raised;
      }
      if found.value.None? || text.hash(password) != found.value.value.hash {
        return Value(None);
      }
      var touched := UpdateLastLogin(found.value.value.userId, io2);
      if touched.Raised? {
        return Raised;
      }
      r := Value(Some(found.value.value.userId));
    }

    /** The first half of registerCheckAndLogin: the id of the account it created, -1 if the name was found. */
    method CreateUnlessFound(text: Text, name: string, password: string, nick: string, pick: int, io1: Io, io2: Io)
      returns (r: Reply<Option<int>>)
      requires pool.Valid() && users.seqNo >= 0
      requires Matches(users, text, name) != {} ==> pick in Matches(users, text, name)
      modifies this, pool
      ensures pool.Valid()
      ensures users.rows == old(users.rows) || users == Insert(old(users), name, text.hash(password), nick).0
      ensures r.Value? && r.value.Some? ==> Matches(users, text, name) != {}
      ensures io1.failAt == 0 && UniqueFolded(old(users), text) ==> UniqueFolded(users, text)
      ensures old(pool.Lends(io1)) && io1.begins && io1.failAt <= 2 && io2.Sound() ==>
                && users == Enter(old(users), text, name, password, nick, io1.failAt in {1, 2})
                && !r.Raised?
                && (io1.failAt == 0 ==> (r.value.None? <==> Matches(users, text, name) == {}))
      ensures io1.begins && io2.begins ==> pool.Loans() == old(pool.Loans())
    {
      var found := FindByUsername(text, name, pick, io1);
      if found.Raised? {
        return Raised;
      }
      if found.value.Some? {
        return Value(Some(-1));
      }
      var created := Create(name, text.hash(password), nick, io2);
      if created.Raised? {
        return Raised;
      }
      if created.value < 0 {
        NoRowNoMatch(old(users), users, text, name);
        return Value(None);
      }
      NewRowMatches(old(users), text, name, text.hash(password), nick);
      if io1.failAt == 0 && UniqueFolded(old(users), text) {
        InsertKeepsUnique(old(users), text, name, text.hash(password), nick);
      }
      r := Value(Some(created.value));
    }

    /** registerCheckAndLogin: create the account if it is not found, then look it up again. */
    method RegisterCheckAndLogin(text: Text, name: string, password: string, nick: string, choose: set<int> -> int,
                                 io1: Io, io2: Io, io3: Io, io4: Io)
      returns (r: Reply<Option<int>>)
      requires pool.Valid() && users.seqNo >= 0
      requires forall s: set<int> :: s != {} ==> choose(s) in s
      modifies this, pool
      ensures pool.Valid()
      ensures users.rows == old(users.rows) || users == Insert(old(users), name, text.hash(password), nick).0
      ensures r.Value? && r.value.Some? && r.value.value != -1 ==> r.value.value in Matches(users, text, name)
      ensures r == Value(Some(-1)) && -1 !in users.rows ==> io3.failAt in {1, 2}
      ensures io1.failAt == 0 && UniqueFolded(old(users), text) ==> UniqueFolded(users, text)
      ensures old(pool.Lends(io1)) && io1.begins && io1.failAt <= 2 && io2.Sound() ==>
                users == Enter(old(users), text, name, password, nick, io1.failAt in {1, 2})
      ensures io1.Sound() && io2.Sound() && io3.Sound() && io4.Sound() ==>
                r == Value(if Matches(users, text, name) == {} then None else Some(choose(Matches(users, text, name))))
      ensures io1.begins && io2.begins && io3.begins && io4.begins ==> pool.Loans() == old(pool.Loans())
    {
      var made := CreateUnlessFound(text, name, password, nick, choose(Matches(users, text, name)), io1, io2);
      if made.Raised? || made.value.None? {
        return made;
      }
      var again := FindByUsername(text, name, choose(Matches(users, text, name)), io3);
      if again.Raised? {
        return Raised;
      }
      var touched := UpdateLastLogin(made.value.value, io4);
      if touched.Raised? {
        return Raised;
      }
      r := Value(Some(if again.value.None? then -1 else again.value.value.userId));
    }
  }

  lemma NoRowNoMatch(us: Users, us': Users, text: Text, name: string)
    requires us'.rows == us.rows
    ensures Matches(us', text, name) == Matches(us, text, name)
  {
  }

  lemma NewRowMatches(us: Users, text: Text, name: string, hash: string, nick: string)
    ensures Insertable(us, name) ==> us.seqNo in Matches(Insert(us, name, hash, nick).0, text, name)
  {
  }
}
