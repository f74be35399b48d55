/** Predecessor chains: the `came_from` table both engines fill in, read
    back from a cell until a cell with no predecessor. */
module Chains {
  import opened Sums
  import opened Grid

  /** "No predecessor" in came_from: NOT_SET in a-star.c, the literal -1 in a-star.h. */
  const NOT_SET: int := -1

  /** `path` is what following `cameFrom` from path[0] visits: the
      predecessor of each element is the next one, and the last element has
      none.  Both reconstruct_path functions walk exactly this sequence. */
  predicate IsChain(cameFrom: seq<int>, path: seq<int>) {
    && |path| >= 1
    && (forall k :: 0 <= k < |path| ==> 0 <= path[k] < |cameFrom|)
    && (forall k :: 0 <= k < |path| - 1 ==> cameFrom[path[k]] == path[k + 1])
    && cameFrom[path[|path| - 1]] == NOT_SET
  }

  /** A chain never visits a cell twice, so walking it terminates. */
  lemma {:induction false} ChainNoRepeat(cameFrom: seq<int>, path: seq<int>, i: nat, j: nat)
    requires IsChain(cameFrom, path) && i < j < |path|
    ensures path[i] != path[j]
    decreases |path| - j
  {
    assert cameFrom[path[i]] == path[i + 1];
    if j < |path| - 1 {
      ChainNoRepeat(cameFrom, path, i + 1, j + 1);
    }
  }

  lemma ChainDistinct(cameFrom: seq<int>, path: seq<int>)
    requires IsChain(cameFrom, path)
    ensures Distinct(path)
  {
    forall i, j | 0 <= i < j < |path| ensures path[i] != path[j] {
      ChainNoRepeat(cameFrom, path, i, j);
    }
  }

  /** The chain from a cell is determined by came_from: any two agree. */
  lemma {:induction false} ChainUnique(cameFrom: seq<int>, p: seq<int>, q: seq<int>)
    requires IsChain(cameFrom, p) && IsChain(cameFrom, q) && p[0] == q[0]
    ensures p == q
  {
    if |p| > 1 {
      assert cameFrom[q[0]] == p[1];
      ChainUnique(cameFrom, p[1..], q[1..]);
      assert p == [p[0]] + p[1..];
      assert q == [q[0]] + q[1..];
    }
  }

  /** If every recorded predecessor has a strictly smaller (non-negative)
      rank, following came_from from any cell ends at a cell without one. */
  lemma {:induction false} ChainFromRank(cameFrom: seq<int>, rank: seq<int>, x: int) returns (path: seq<int>)
    requires |rank| == |cameFrom| && 0 <= x < |cameFrom|
    requires forall c :: 0 <= c < |cameFrom| ==> rank[c] >= 0
    requires forall c :: 0 <= c < |cameFrom| && cameFrom[c] != NOT_SET ==>
      0 <= cameFrom[c] < |cameFrom| && rank[cameFrom[c]] < rank[c]
    ensures IsChain(cameFrom, path) && path[0] == x
    decreases rank[x]
  {
    if cameFrom[x] == NOT_SET {
      path := [x];
    } else {
      var rest := ChainFromRank(cameFrom, rank, cameFrom[x]);
      path := [x] + rest;
    }
  }

  /** Cost of a chain as both reconstruct_path functions count it: every
      cell's cost except that of the last cell (the one without a predecessor). */
  function ChainCost(cost: seq<int>, path: seq<int>): int
    requires forall k :: 0 <= k < |path| ==> 0 <= path[k] < |cost|
  {
    if |path| <= 1 then 0 else cost[path[0]] + ChainCost(cost, path[1..])
  }

  /** When every cell costs at least 1, a chain of k cells costs at least
      k - 1. */
  lemma {:induction false} ChainCostAtLeast(cost: seq<int>, path: seq<int>)
    requires forall k :: 0 <= k < |path| ==> 0 <= path[k] < |cost| && cost[path[k]] >= 1
    ensures ChainCost(cost, path) >= |path| - 1
  {
    if |path| > 1 {
      ChainCostAtLeast(cost, path[1..]);
    }
  }

  /** When each recorded predecessor's g-score plus the cell's own cost is at
      most the cell's g-score, a chain costs at most the g-score difference
      between its two ends. */
  lemma {:induction false} ChainCostBound(cameFrom: seq<int>, cost: seq<int>, g: seq<int>, path: seq<int>)
    requires |cost| == |cameFrom| && |g| == |cameFrom| && IsChain(cameFrom, path)
    requires forall c :: 0 <= c < |cameFrom| && cameFrom[c] != NOT_SET ==>
      0 <= cameFrom[c] < |cameFrom| && g[cameFrom[c]] + cost[c] <= g[c]
    ensures ChainCost(cost, path) <= g[path[0]] - g[path[|path| - 1]]
  {
    if |path| > 1 {
      ChainCostBound(cameFrom, cost, g, path[1..]);
    }
  }

  /** When each recorded predecessor is a neighbour of its cell and the cell
      is passable, a chain is a route through the map. */
  lemma {:induction false} ChainIsRoute(cameFrom: seq<int>, passable: seq<bool>, n: int, path: seq<int>)
    requires n > 0 && |cameFrom| == n * n && |passable| == n * n && IsChain(cameFrom, path)
    requires forall c :: 0 <= c < n * n && cameFrom[c] != NOT_SET ==>
      InGrid(cameFrom[c], n) && Adjacent(cameFrom[c], c, n) && passable[c]
    ensures IsRoute(passable, n, path)
  {
    forall k | 0 <= k < |path| - 1
      ensures Adjacent(path[k + 1], path[k], n) && passable[path[k]]
    {
      assert cameFrom[path[k]] == path[k + 1];
    }
  }
}
