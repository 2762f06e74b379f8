/** Small result types shared by the modules of this project. */
module Wrappers {
  datatype Option<+T> = None | Some(value: T)

  /** What a repository call gives its caller: an exception that escaped it, or the value it returned. */
  datatype Reply<+T> = Raised | Value(value: T)

  type byte = b: int | 0 <= b < 256

  /** What the outside world does to one repository call.
      - closed:   the pooled connections that are no longer open;
      - connects: a connection attempt succeeds;
      - begins:   opening the transaction succeeds;
      - failAt:   the position, counted from 1, of the statement that raises inside the
                  transaction (the commit is the last statement); 0 when none does. */
  datatype Io = Io(closed: set<nat>, connects: bool, begins: bool, failAt: nat) {
    predicate Sound() { connects && begins && failAt == 0 }
  }

  lemma Witness<T>(s: set<T>) returns (x: T)
    requires s != {}
    ensures x in s
  {
    x :| x in s;
  }

  lemma {:induction false} SubsetCard<T>(a: set<T>, b: set<T>)
    requires a <= b
    ensures |a| <= |b|
  {
    if a != {} {
      var x := Witness(a);
      SubsetCard(a - {x}, b - {x});
    }
  }
}
