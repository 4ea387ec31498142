/** Sequences without repetition, for the nodes of linked lists. */
module DistinctSeqs {

  /** No element occurs twice. */
  ghost predicate Distinct<T>(xs: seq<T>) {
    xs == [] || (xs[|xs| - 1] !in xs[..|xs| - 1] && Distinct(xs[..|xs| - 1]))
  }

  lemma {:induction false} DistinctPairs<T>(xs: seq<T>)
    ensures Distinct(xs) <==> forall i, j :: 0 <= i < j < |xs| ==> xs[i] != xs[j]
  {
    if xs != [] {
      DistinctPairs(xs[..|xs| - 1]);
    }
  }

  lemma DistinctAt<T>(xs: seq<T>, k: nat)
    requires Distinct(xs) && k < |xs|
    ensures forall i :: 0 <= i < |xs| && i != k ==> xs[i] != xs[k]
  {
    DistinctPairs(xs);
  }

  lemma DistinctInsert<T>(xs: seq<T>, k: nat, x: T)
    requires Distinct(xs) && k <= |xs| && x !in xs
    ensures Distinct(xs[..k] + [x] + xs[k..])
  {
    DistinctPairs(xs);
    DistinctPairs(xs[..k] + [x] + xs[k..]);
  }

  lemma DistinctRemove<T>(xs: seq<T>, k: nat)
    requires Distinct(xs) && k < |xs|
    ensures Distinct(xs[..k] + xs[k + 1..])
  {
    DistinctPairs(xs);
    DistinctPairs(xs[..k] + xs[k + 1..]);
  }

  /** Index by index, what the sequence with `x` put in at position `k` holds. */
  lemma InsertedAt<T>(xs: seq<T>, k: nat, x: T, i: nat)
    requires k < |xs| && i <= |xs|
    ensures (xs[..k] + [x] + xs[k..])[i] == if i < k then xs[i] else if i == k then x else xs[i - 1]
  {
  }

  lemma RemovedAt<T>(xs: seq<T>, k: nat, i: nat)
    requires k < |xs| && i < |xs| - 1
    ensures (xs[..k] + xs[k + 1..])[i] == xs[if i < k then i else i + 1]
  {
  }
}
