/** Searching in strings. */
module Strings {
  import opened Wrappers

  predicate OccursAt(h: string, n: string, i: nat) {
    i + |n| <= |h| && h[i..i + |n|] == n
  }

  /** std::string::find from a position. */
  function Find(h: string, n: string, from: nat): (r: Option<nat>)
    ensures r.Some? ==> from <= r.value && OccursAt(h, n, r.value)
    ensures r.Some? ==> forall i :: from <= i < r.value ==> !OccursAt(h, n, i)
    ensures r.None? ==> forall i :: from <= i ==> !OccursAt(h, n, i)
    decreases |h| - from
  {
    if from + |n| > |h| then None
    else if h[from..from + |n|] == n then Some(from)
    else if from == |h| then None
    else Find(h, n, from + 1)
  }

  lemma FindIs(h: string, n: string, from: nat, k: nat)
    requires from <= k && OccursAt(h, n, k) && forall i :: from <= i < k ==> !OccursAt(h, n, i)
    ensures Find(h, n, from) == Some(k)
  {
    var r := Find(h, n, from);
    assert r.Some?;
    assert r.value <= k;
  }

  /** One wrong character rules an occurrence out. */
  lemma Mismatch(h: string, n: string, i: nat, k: nat)
    requires k < |n| && (i + k < |h| ==> h[i + k] != n[k])
    ensures !OccursAt(h, n, i)
  {
    assert i + |n| <= |h| ==> h[i..i + |n|][k] == h[i + k];
  }

  lemma OccurrenceChars(h: string, n: string, i: nat)
    requires OccursAt(h, n, i)
    ensures forall k :: 0 <= k < |n| ==> h[i + k] == n[k]
  {
    var w := h[i..i + |n|];
    assert forall k :: 0 <= k < |n| ==> w[k] == h[i + k];
  }
}
