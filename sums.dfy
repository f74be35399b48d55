/** Sums, distinctness and the termination measure shared by both searches. */
module Sums {

  function Sum(s: seq<nat>): nat {
    if s == [] then 0 else s[0] + Sum(s[1..])
  }

  /** A pointwise smaller sequence has a smaller sum. */
  lemma {:induction false} SumLeq(a: seq<nat>, b: seq<nat>)
    requires |a| == |b|
    requires forall k :: 0 <= k < |a| ==> a[k] <= b[k]
    ensures Sum(a) <= Sum(b)
  {
    if a != [] {
      SumLeq(a[1..], b[1..]);
    }
  }

  /** A pointwise smaller sequence that is strictly smaller somewhere has a strictly smaller sum. */
  lemma {:induction false} SumLess(a: seq<nat>, b: seq<nat>, i: nat)
    requires |a| == |b| && i < |a|
    requires forall k :: 0 <= k < |a| ==> a[k] <= b[k]
    requires a[i] < b[i]
    ensures Sum(a) < Sum(b)
  {
    if i == 0 {
      SumLeq(a[1..], b[1..]);
    } else {
      SumLess(a[1..], b[1..], i - 1);
    }
  }

  predicate Distinct(s: seq<int>) {
    forall i, j :: 0 <= i < j < |s| ==> s[i] != s[j]
  }

  function Range(n: nat): (r: set<int>)
    ensures |r| == n
    ensures forall x :: x in r <==> 0 <= x < n
  {
    if n == 0 then {} else Range(n - 1) + {n - 1}
  }

  lemma {:induction false} DistinctSize(s: seq<int>)
    requires Distinct(s)
    ensures |set x | x in s| == |s|
  {
    if s != [] {
      DistinctSize(s[1..]);
      assert (set x | x in s) == (set x | x in s[1..]) + {s[0]};
    }
  }

  /** Pigeonhole: distinct cells taken from [0, n), none of them `x`, number fewer than n. */
  lemma {:induction false} DistinctBelow(s: seq<int>, n: nat, x: int)
    requires Distinct(s) && 0 <= x < n && x !in s
    requires forall k :: 0 <= k < |s| ==> 0 <= s[k] < n
    ensures |s| < n
  {
    DistinctSize(s);
    var elems := set y | y in s;
    assert elems <= Range(n) - {x};
    SubsetSize(elems, Range(n) - {x});
  }

  lemma SubsetSize(a: set<int>, b: set<int>)
    requires a <= b
    ensures |a| <= |b|
  {
    assert b == a + (b - a);
  }

  // The termination measure of both search loops.  A cell is "seen" once it
  // has entered the open set; seen cells never become unseen, and a seen
  // cell's g-score only goes down.  Every iteration either sees a new cell,
  // lowers a seen cell's g-score, or shrinks the open set.

  /** Number of cells not seen yet. */
  function Unseen(seen: seq<bool>): nat {
    Sum(seq(|seen|, k requires 0 <= k < |seen| => if seen[k] then 0 else 1))
  }

  /** Sum of the (non-negative) g-scores of the seen cells. */
  function SeenScore(seen: seq<bool>, g: seq<int>): nat
    requires |g| == |seen|
  {
    Sum(seq(|seen|, k requires 0 <= k < |seen| => if seen[k] && g[k] >= 0 then g[k] else 0))
  }

  /** Seeing one more cell lowers the number of unseen cells. */
  lemma {:induction false} SeeingLowersUnseen(seen: seq<bool>, seen': seq<bool>, c: nat)
    requires |seen'| == |seen| && c < |seen| && !seen[c] && seen'[c]
    requires forall k :: 0 <= k < |seen| && seen[k] ==> seen'[k]
    ensures Unseen(seen') < Unseen(seen)
  {
    var a := seq(|seen'|, k requires 0 <= k < |seen'| => if seen'[k] then 0 else 1);
    var b := seq(|seen|, k requires 0 <= k < |seen| => if seen[k] then 0 else 1);
    SumLess(a, b, c);
  }

  /** With the same cells seen, lowering g-scores (one seen cell's strictly,
      to a value still non-negative) lowers the seen score. */
  lemma {:induction false} LoweringLowersScore(seen: seq<bool>, g: seq<int>, g': seq<int>, c: nat)
    requires |g| == |seen| && |g'| == |seen| && c < |seen| && seen[c]
    requires forall k :: 0 <= k < |seen| ==> 0 <= g'[k] <= g[k]
    requires g'[c] < g[c]
    ensures SeenScore(seen, g') < SeenScore(seen, g)
  {
    var a := seq(|seen|, k requires 0 <= k < |seen| => if seen[k] && g'[k] >= 0 then g'[k] else 0);
    var b := seq(|seen|, k requires 0 <= k < |seen| => if seen[k] && g[k] >= 0 then g[k] else 0);
    SumLess(a, b, c);
  }

  /** The lexicographic order on (unseen cells, seen score, open-set size) in
      which every search iteration goes down. */
  predicate LexLeq(u: nat, s: nat, l: nat, u0: nat, s0: nat, l0: nat) {
    u < u0 || (u == u0 && s < s0) || (u == u0 && s == s0 && l <= l0)
  }
}
