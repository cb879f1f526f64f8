/** Small facts about sequences of indices. */
module Sequences {

  ghost predicate Distinct(xs: seq<nat>) {
    forall i, j | 0 <= i < j < |xs| :: xs[i] != xs[j]
  }

  /** At most `n` different numbers are below `n`. */
  lemma {:induction false} Pigeonhole(xs: seq<nat>, n: nat)
    requires Distinct(xs) && forall x | x in xs :: x < n
    ensures |xs| <= n
  {
    if xs != [] {
      assert xs[0] in xs;
    }
    if xs == [] {
    } else if k :| 0 <= k < |xs| && xs[k] == n - 1 {
      var rest := xs[..k] + xs[k + 1..];
      assert forall i | 0 <= i < |rest| :: rest[i] == xs[if i < k then i else i + 1];
      forall x | x in rest ensures x < n - 1 {
        assert x in xs;
      }
      Pigeonhole(rest, n - 1);
    } else {
      forall x | x in xs ensures x < n - 1 {
        assert x < n;
      }
      Pigeonhole(xs, n - 1);
    }
  }

  /** n different numbers below n are all of them. */
  lemma {:induction false} FullHouse(xs: seq<nat>, n: nat, x: nat)
    requires Distinct(xs) && |xs| == n && forall y | y in xs :: y < n
    requires x < n
    ensures x in xs
  {
    if x !in xs {
      var more := xs + [x];
      Pigeonhole(more, n);
    }
  }
}
