/**
 * The key order of a Python dict filled one insertion at a time: the distinct values of a
 * sequence in order of first occurrence. Both exporters build such dicts.
 */
module InsertionOrder {
  /** No value occurs twice. */
  predicate NoDuplicates<K(==)>(s: seq<K>) {
    forall i, j | 0 <= i < j < |s| :: s[i] != s[j]
  }

  /** The distinct values of `xs` in order of first occurrence. */
  function Distinct<K(==)>(xs: seq<K>): (r: seq<K>)
    ensures |r| <= |xs|
    decreases |xs|
  {
    if xs == [] then []
    else
      var d := Distinct(xs[..|xs| - 1]);
      if xs[|xs| - 1] in d then d else d + [xs[|xs| - 1]]
  }

  /** The distinct values are exactly the values of `xs`. */
  lemma {:induction false} DistinctMembers<K>(xs: seq<K>, x: K)
    ensures x in Distinct(xs) <==> x in xs
    decreases |xs|
  {
    if xs != [] {
      var init := xs[..|xs| - 1];
      assert xs == init + [xs[|xs| - 1]];
      DistinctMembers(init, x);
    }
  }

  /** No value occurs twice among the distinct values. */
  lemma {:induction false} DistinctNoDuplicates<K>(xs: seq<K>)
    ensures NoDuplicates(Distinct(xs))
    decreases |xs|
  {
    if xs != [] {
      var init := xs[..|xs| - 1];
      DistinctNoDuplicates(init);
      DistinctMembers(init, xs[|xs| - 1]);
    }
  }

  /** The distinct values of a prefix are a prefix of the distinct values. */
  lemma {:induction false} DistinctPrefix<K>(xs: seq<K>, n: nat)
    requires n <= |xs|
    ensures Distinct(xs[..n]) <= Distinct(xs)
    decreases |xs|
  {
    if n < |xs| {
      var init := xs[..|xs| - 1];
      assert init[..n] == xs[..n];
      DistinctPrefix(init, n);
    } else {
      assert xs[..n] == xs;
    }
  }
}
