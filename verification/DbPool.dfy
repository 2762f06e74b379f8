/** The growing connection pool: first free slot, reconnection in place, return by identity. */
module DbPoolModel {
  import opened Wrappers

  type Conn = nat

  /** next is the identity of the next connection object to be created. */
  datatype Pool = Pool(conns: seq<Conn>, inUse: seq<bool>, next: Conn) {
    ghost predicate Valid() {
      && |conns| == |inUse|
      && (forall i :: 0 <= i < |conns| ==> conns[i] < next)
      && (forall i, j :: 0 <= i < j < |conns| ==> conns[i] != conns[j])
    }

    /** The connections on loan. */
    ghost function Loans(): set<Conn>
      requires |conns| == |inUse|
    {
      set i | 0 <= i < |conns| && inUse[i] :: conns[i]
    }
  }

  /** The first free slot, or the length when there is none. */
  function FirstFree(inUse: seq<bool>): (i: nat)
    ensures i <= |inUse| && (i < |inUse| ==> !inUse[i]) && forall j :: 0 <= j < i ==> inUse[j]
  {
    if inUse == [] || !inUse[0] then 0 else 1 + FirstFree(inUse[1..])
  }

  /** get_connection; None stands for the exception of a failed connection attempt. */
  function Get(p: Pool, closed: set<Conn>, connects: bool): (Pool, Option<Conn>)
    requires |p.conns| == |p.inUse|
  {
    var i := FirstFree(p.inUse);
    if i == |p.conns| then
      if connects then (Pool(p.conns + [p.next], p.inUse + [true], p.next + 1), Some(p.next)) else (p, None)
    else if p.conns[i] !in closed then (p.(inUse := p.inUse[i := true]), Some(p.conns[i]))
    else if connects then (Pool(p.conns[i := p.next], p.inUse[i := true], p.next + 1), Some(p.next))
    else (p, None)
  }

  /** The slot of a connection, or the length when the pool does not hold it. */
  function SlotOf(conns: seq<Conn>, c: Conn): (i: nat)
    ensures i <= |conns| && (i < |conns| ==> conns[i] == c) && forall j :: 0 <= j < i ==> conns[j] != c
  {
    if conns == [] || conns[0] == c then 0 else 1 + SlotOf(conns[1..], c)
  }

  function Return(p: Pool, c: Conn): Pool
    requires |p.conns| == |p.inUse|
  {
    var i := SlotOf(p.conns, c);
    if i < |p.conns| then p.(inUse := p.inUse[i := false]) else p
  }

  /** The constructor: size fresh connections, none on loan. */
  function NewPool(size: nat): Pool {
    Pool(seq(size, i requires 0 <= i < size => i), seq(size, i requires 0 <= i < size => false), size)
  }

  lemma NewPoolValid(size: nat)
    ensures NewPool(size).Valid() && NewPool(size).Loans() == {} && |NewPool(size).conns| == size
  {
  }

  // ---------- One call ----------

  lemma LoansAfterUpdate(p: Pool, i: nat, c: Conn, b: bool)
    requires p.Valid() && i < |p.conns| && (c == p.conns[i] || c >= p.next)
    ensures Pool(p.conns[i := c], p.inUse[i := b], if c < p.next then p.next else c + 1).Valid()
    ensures Pool(p.conns[i := c], p.inUse[i := b], if c < p.next then p.next else c + 1).Loans()
         == (if b then {c} else {}) + (p.Loans() - {p.conns[i]})
  {
    var q := Pool(p.conns[i := c], p.inUse[i := b], if c < p.next then p.next else c + 1);
    forall x | x in p.Loans() && x != p.conns[i] ensures x in q.Loans() {
      var j :| 0 <= j < |p.conns| && p.inUse[j] && p.conns[j] == x;
      assert j != i && q.inUse[j] && q.conns[j] == x;
    }
    if b {
      assert q.inUse[i] && q.conns[i] == c;
    }
  }

  /** A successful get lends a connection that is open or new and was not on loan; a failed one changes nothing. */
  lemma GetLends(p: Pool, closed: set<Conn>, connects: bool)
    requires p.Valid()
    ensures var (q, r) := Get(p, closed, connects);
            && q.Valid()
            && (r.Some? ==> r.value !in p.Loans() && q.Loans() == p.Loans() + {r.value})
            && (r.Some? ==> r.value !in closed || r.value == p.next)
            && (r.None? ==> q == p && !connects)
            && |p.conns| <= |q.conns| <= |p.conns| + 1
            && (|q.conns| > |p.conns| ==> |p.Loans()| == |p.conns|)
  {
    var i := FirstFree(p.inUse);
    if i == |p.conns| {
      AllLent(p);
      GrowLends(p);
    } else if p.conns[i] !in closed {
      LoansAfterUpdate(p, i, p.conns[i], true);
      assert p.conns[i := p.conns[i]] == p.conns;
      NotLent(p, i);
    } else if connects {
      LoansAfterUpdate(p, i, p.next, true);
      NotLent(p, i);
    }
  }

  /** A get fails exactly when it has to connect and cannot: when every slot is lent, or the first free one holds a
      closed connection; an open connection in the first free slot is the one lent. */
  lemma GetExactly(p: Pool, closed: set<Conn>, connects: bool, i: nat)
    requires p.Valid() && i <= |p.conns| && (forall j :: 0 <= j < i ==> p.inUse[j]) && (i < |p.conns| ==> !p.inUse[i])
    ensures Get(p, closed, connects).1 ==
              if i < |p.conns| && p.conns[i] !in closed then Some(p.conns[i])
              else if connects then Some(p.next) else None
  {
    assert FirstFree(p.inUse) == i;
  }

  lemma NotLent(p: Pool, i: nat)
    requires p.Valid() && i < |p.conns| && !p.inUse[i]
    ensures p.conns[i] !in p.Loans() && p.next !in p.Loans()
  {
  }

  lemma GrowLends(p: Pool)
    requires p.Valid()
    ensures var q := Pool(p.conns + [p.next], p.inUse + [true], p.next + 1);
            q.Valid() && q.Loans() == p.Loans() + {p.next} && p.next !in p.Loans()
  {
    var q := Pool(p.conns + [p.next], p.inUse + [true], p.next + 1);
    forall x | x in p.Loans() ensures x in q.Loans() {
      var j :| 0 <= j < |p.conns| && p.inUse[j] && p.conns[j] == x;
      assert q.inUse[j] && q.conns[j] == x;
    }
    assert q.inUse[|p.conns|] && q.conns[|p.conns|] == p.next;
  }

  lemma AllLent(p: Pool)
    requires p.Valid() && forall i :: 0 <= i < |p.conns| ==> p.inUse[i]
    ensures |p.Loans()| == |p.conns|
  {
    DistinctCount(p.conns, |p.conns|);
    assert p.Loans() == set i | 0 <= i < |p.conns| :: p.conns[i];
  }

  lemma {:induction false} DistinctCount(s: seq<Conn>, k: nat)
    requires k <= |s| && forall i, j :: 0 <= i < j < |s| ==> s[i] != s[j]
    ensures |set i | 0 <= i < k :: s[i]| == k
  {
    if k > 0 {
      DistinctCount(s, k - 1);
      assert (set i | 0 <= i < k :: s[i]) == (set i | 0 <= i < k - 1 :: s[i]) + {s[k - 1]};
    }
  }

  lemma ReturnReleases(p: Pool, c: Conn)
    requires p.Valid()
    ensures Return(p, c).Valid() && Return(p, c).Loans() == p.Loans() - {c} && Return(p, c).conns == p.conns
  {
    var i := SlotOf(p.conns, c);
    if i < |p.conns| {
      LoansAfterUpdate(p, i, c, false);
    }
  }

  /** A borrowed and returned connection leaves the loans as they were. */
  lemma BorrowAndReturn(p: Pool, closed: set<Conn>, connects: bool)
    requires p.Valid() && Get(p, closed, connects).1.Some?
    ensures var (q, r) := Get(p, closed, connects);
            Return(q, r.value).Valid() && Return(q, r.value).Loans() == p.Loans()
  {
    GetLends(p, closed, connects);
    ReturnReleases(Get(p, closed, connects).0, Get(p, closed, connects).1.value);
  }

  // ---------- Runs ----------

  datatype PoolOp = GetOp(closed: set<Conn>, connects: bool) | ReturnOp(c: Conn)

  /** The pool beside what its users know: the loans they hold and the most they held at once. */
  datatype Usage = Usage(pool: Pool, held: set<Conn>, peak: nat)

  function Use(u: Usage, op: PoolOp): Usage
    requires |u.pool.conns| == |u.pool.inUse|
  {
    match op
    case GetOp(closed, connects) =>
      var (q, r) := Get(u.pool, closed, connects);
      if r.None? then u.(pool := q)
      else
        var held := u.held + {r.value};
        Usage(q, held, if |held| > u.peak then |held| else u.peak)
    case ReturnOp(c) => u.(pool := Return(u.pool, c), held := u.held - {c})
  }

  /** Well matched: only a connection that is held is given back. */
  ghost predicate UsageRun(us: seq<Usage>, ops: seq<PoolOp>, size: nat) {
    && |us| == |ops| + 1 && us[0] == Usage(NewPool(size), {}, 0)
    && forall i :: 0 <= i < |ops| ==> UseAt(us, ops, i)
  }

  ghost predicate UseAt(us: seq<Usage>, ops: seq<PoolOp>, i: nat)
    requires |us| == |ops| + 1 && i < |ops|
  {
    && |us[i].pool.conns| == |us[i].pool.inUse|
    && (ops[i].ReturnOp? ==> ops[i].c in us[i].held)
    && us[i + 1] == Use(us[i], ops[i])
  }

  function Max(a: nat, b: nat): nat { if a > b then a else b }

  ghost predicate Exact(u: Usage, size: nat) {
    && u.pool.Valid()
    && u.held == u.pool.Loans()
    && (forall i :: 0 <= i < |u.pool.conns| ==> (u.pool.inUse[i] <==> u.pool.conns[i] in u.held))
    && |u.pool.conns| == Max(size, u.peak)
    && |u.held| <= u.peak
  }

  lemma FlagsAreLoans(p: Pool)
    requires p.Valid()
    ensures forall i :: 0 <= i < |p.conns| ==> (p.inUse[i] <==> p.conns[i] in p.Loans())
    ensures |p.Loans()| <= |p.conns|
  {
    DistinctCount(p.conns, |p.conns|);
    SubsetCard(p.Loans(), set i | 0 <= i < |p.conns| :: p.conns[i]);
  }

  lemma UseStaysExact(u: Usage, op: PoolOp, size: nat)
    requires Exact(u, size) && (op.ReturnOp? ==> op.c in u.held)
    ensures Exact(Use(u, op), size)
  {
    match op
    case GetOp(closed, connects) =>
      GetLends(u.pool, closed, connects);
      FlagsAreLoans(Get(u.pool, closed, connects).0);
    case ReturnOp(c) =>
      ReturnReleases(u.pool, c);
      FlagsAreLoans(Return(u.pool, c));
      SubsetCard(u.held - {c}, u.held);
  }

  /** Over every well-matched sequence, with reconnections and failed attempts: connections are distinct, the
      flags say exactly what is on loan, and the pool is as large as its start size or the peak of the loans. */
  lemma {:induction false} PoolIsExact(us: seq<Usage>, ops: seq<PoolOp>, size: nat, k: nat)
    requires UsageRun(us, ops, size) && k < |us|
    ensures Exact(us[k], size)
  {
    if k == 0 {
      NewPoolValid(size);
    } else {
      PoolIsExact(us, ops, size, k - 1);
      assert UseAt(us, ops, k - 1);
      UseStaysExact(us[k - 1], ops[k - 1], size);
    }
  }

  /** No connection is lent while it is on loan. */
  lemma NeverLentTwice(us: seq<Usage>, ops: seq<PoolOp>, size: nat, k: nat)
    requires UsageRun(us, ops, size) && k < |ops| && ops[k].GetOp? && UseAt(us, ops, k)
    ensures var r := Get(us[k].pool, ops[k].closed, ops[k].connects).1;
            r.Some? ==> r.value !in us[k].held && us[k + 1].held == us[k].held + {r.value}
  {
    PoolIsExact(us, ops, size, k);
    assert UseAt(us, ops, k);
    GetLends(us[k].pool, ops[k].closed, ops[k].connects);
  }
}

module DbPoolClass {
  import opened Wrappers
  import opened DbPoolModel

  class DbPool {
    var conns: seq<Conn>
    var inUse: seq<bool>
    var next: Conn

    function View(): Pool
      reads this
    {
      Pool(conns, inUse, next)
    }

    ghost predicate Valid()
      reads this
    {
      View().Valid()
    }

    ghost function Loans(): set<Conn>
      requires Valid()
      reads this
    {
      View().Loans()
    }

    /** Whether get_connection succeeds. */
    predicate Lends(io: Io)
      requires |conns| == |inUse|
      reads this
    {
      Get(View(), io.closed, io.connects).1.Some?
    }

    constructor ()
      ensures View() == NewPool(0) && Valid()
    {
      conns, inUse, next := [], [], 0;
    }

    /** The constructor of the source: size connections, or an exception when one of the attempts fails. */
    static method Open(size: nat, connects: nat -> bool) returns (r: Option<DbPool>)
      ensures r.Some? <==> forall i :: 0 <= i < size ==> connects(i)
      ensures r.Some? ==> fresh(r.value) && r.value.View() == NewPool(size) && r.value.Valid()
    {
      var pool := new DbPool();
      for i := 0 to size
        invariant fresh(pool) && pool.View() == NewPool(i)
        invariant forall j :: 0 <= j < i ==> connects(j)
      {
        if !connects(i) {
          return None;
        }
        pool.Add();
      }
      r := Some(pool);
    }

    method Add()
      modifies this
      ensures View() == Pool(old(conns) + [old(next)], old(inUse) + [false], old(next) + 1)
    {
      conns := conns + [next];
      inUse := inUse + [false];
      next := next + 1;
    }

    method GetConnection(closed: set<Conn>, connects: bool) returns (r: Option<Conn>)
      requires Valid()
      modifies this
      ensures Valid() && (View(), r) == Get(old(View()), closed, connects)
      ensures r.Some? ==> r.value !in old(Loans()) && Loans() == old(Loans()) + {r.value}
      ensures r.None? ==> Loans() == old(Loans())
    {
      ghost var before := View();
      var i := 0;
      while i < |conns| && inUse[i]
        invariant 0 <= i <= |conns| && View() == before
        invariant forall j :: 0 <= j < i ==> inUse[j]
      {
        i := i + 1;
      }
      FirstFreeIs(inUse, i);
      r := None;
      if i < |conns| {
        inUse := inUse[i := true];
        if conns[i] !in closed {
          r := Some(conns[i]);
        } else if connects {
          conns := conns[i := next];
          next := next + 1;
          r := Some(conns[i]);
        } else {
          inUse := inUse[i := false];
          assert inUse == before.inUse;
        }
      } else if connects {
        r := Some(next);
        conns := conns + [next];
        inUse := inUse + [true];
        next := next + 1;
      }
      assert (View(), r) == Get(before, closed, connects);
      GetLends(before, closed, connects);
    }

    method ReturnConnection(c: Conn)
      requires Valid()
      modifies this
      ensures Valid() && View() == Return(old(View()), c) && Loans() == old(Loans()) - {c}
    {
      ReturnReleases(View(), c);
      var i := 0;
      while i < |conns|
        invariant 0 <= i <= |conns| && View() == old(View())
        invariant forall j :: 0 <= j < i ==> conns[j] != c
      {
        if conns[i] == c {
          SlotIs(conns, c, i);
          inUse := inUse[i := false];
          return;
        }
        i := i + 1;
      }
      SlotIs(conns, c, i);
    }
  }

  lemma FirstFreeIs(inUse: seq<bool>, i: nat)
    requires i <= |inUse| && (i < |inUse| ==> !inUse[i]) && forall j :: 0 <= j < i ==> inUse[j]
    ensures FirstFree(inUse) == i
  {
  }

  lemma SlotIs(conns: seq<Conn>, c: Conn, i: nat)
    requires i <= |conns| && (i < |conns| ==> conns[i] == c) && forall j :: 0 <= j < i ==> conns[j] != c
    ensures SlotOf(conns, c) == i
  {
  }
}
