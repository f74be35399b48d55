/** Geometry of the square map shared by both search engines.

    The map is an n×n grid stored row-major in a flat buffer, so cell `i`
    lies in row `i / n` and column `i % n`.  Indices and `n` are never
    negative here, so Dafny's Euclidean `/` and `%` agree with C's. */
module Grid {

  /** Value of a neighbour slot that falls outside the map. */
  const OUT_OF_BOUNDS: int := -1

  predicate InGrid(i: int, n: int) {
    0 <= i < n * n
  }

  function Abs(x: int): nat {
    if x < 0 then -x else x
  }

  function Row(i: int, n: int): int
    requires n > 0
  {
    i / n
  }

  function Col(i: int, n: int): int
    requires n > 0
  {
    i % n
  }

  /** Manhattan distance between two cells, the reference notion of "one step apart". */
  function Distance(a: int, b: int, n: int): nat
    requires n > 0
  {
    Abs(Row(a, n) - Row(b, n)) + Abs(Col(a, n) - Col(b, n))
  }

  /** Euclidean division is determined by its quotient and remainder. */
  lemma DivModUnique(x: int, n: int, q: int, r: int)
    requires n > 0 && 0 <= r < n && x == q * n + r
    ensures x / n == q && x % n == r
  {
    var q0, r0 := x / n, x % n;
    assert (q0 - q) * n == r - r0;
    MulZeroOrLarge(q0 - q, n);
  }

  /** A multiple of n is 0 or at least n away from 0. */
  lemma MulZeroOrLarge(k: int, n: int)
    requires n > 0
    ensures k == 0 || k * n >= n || k * n <= -n
  {
    if k > 0 {
      MulMono(1, k, n);
    } else if k < 0 {
      MulMono(1, -k, n);
    }
  }

  /** Every cell of the map has a row and a column inside the map, and they give the cell back. */
  lemma CellCoords(i: int, n: int)
    requires n > 0 && InGrid(i, n)
    ensures 0 <= Row(i, n) < n && 0 <= Col(i, n) < n
    ensures i == Row(i, n) * n + Col(i, n)
  {
    var q := i / n;
    if q >= n {
      assert q * n >= n * n by { MulMono(n, q, n); }
    }
  }

  lemma MulMono(a: int, b: int, n: int)
    requires 0 <= a <= b && n >= 0
    ensures a * n <= b * n
  {
  }

  /** A row and a column inside the map name exactly one cell of the map. */
  lemma CoordsCell(r: int, c: int, n: int)
    requires n > 0 && 0 <= r < n && 0 <= c < n
    ensures InGrid(r * n + c, n)
    ensures Row(r * n + c, n) == r && Col(r * n + c, n) == c
  {
    DivModUnique(r * n + c, n, r, c);
    assert r * n <= (n - 1) * n by { MulMono(r, n - 1, n); }
  }

  /** The four neighbour slots of a-star.c's neighbor_nodes, in the order
      up, left, right, down; a slot that would leave the map (or, for left
      and right, the row) holds OUT_OF_BOUNDS. */
  function NeighborNodes(current: int, n: int): (r: seq<int>)
    requires n > 0 && InGrid(current, n)
    ensures |r| == 4
    ensures forall k :: 0 <= k < 4 ==> r[k] == OUT_OF_BOUNDS || (InGrid(r[k], n) && r[k] != current)
  {
    [ if current - n >= 0 then current - n else OUT_OF_BOUNDS,
      if current - 1 >= 0 && (current - 1) / n == current / n then current - 1 else OUT_OF_BOUNDS,
      if current + 1 < n * n && (current + 1) / n == current / n then current + 1 else OUT_OF_BOUNDS,
      if current + n < n * n then current + n else OUT_OF_BOUNDS ]
  }

  /** `b` is one of the cells NeighborNodes(a, n) yields. */
  predicate Adjacent(a: int, b: int, n: int)
    requires n > 0 && InGrid(a, n)
  {
    b != OUT_OF_BOUNDS && b in NeighborNodes(a, n)
  }

  /** Each slot of NeighborNodes, stated by row and column: up and down keep
      the column and move one row, left and right keep the row and move one
      column, and a slot is OUT_OF_BOUNDS exactly when that move leaves the map. */
  lemma NeighborSlots(current: int, n: int)
    requires n > 0 && InGrid(current, n)
    ensures var r, row, col := NeighborNodes(current, n), Row(current, n), Col(current, n);
      && r[0] == (if row > 0 then (row - 1) * n + col else OUT_OF_BOUNDS)
      && r[1] == (if col > 0 then row * n + (col - 1) else OUT_OF_BOUNDS)
      && r[2] == (if col < n - 1 then row * n + (col + 1) else OUT_OF_BOUNDS)
      && r[3] == (if row < n - 1 then (row + 1) * n + col else OUT_OF_BOUNDS)
  {
    CellCoords(current, n);
    VerticalSlots(current, n);
    LeftSlot(current, n);
    RightSlot(current, n);
  }

  lemma VerticalSlots(current: int, n: int)
    requires n > 0 && InGrid(current, n)
    ensures var r, row, col := NeighborNodes(current, n), Row(current, n), Col(current, n);
      && r[0] == (if row > 0 then (row - 1) * n + col else OUT_OF_BOUNDS)
      && r[3] == (if row < n - 1 then (row + 1) * n + col else OUT_OF_BOUNDS)
  {
    var row, col := Row(current, n), Col(current, n);
    CellCoords(current, n);
    assert current - n == (row - 1) * n + col by { assert (row - 1) * n == row * n - n; }
    assert current + n == (row + 1) * n + col by { assert (row + 1) * n == row * n + n; }
    if row > 0 {
      assert (row - 1) * n >= 0 by { MulMono(0, row - 1, n); }
    } else {
      assert current - n < 0;
    }
    if row < n - 1 {
      assert current + n < n * n by { CoordsCell(row + 1, col, n); }
    } else {
      assert current + n >= n * n by { assert (row + 1) * n == n * n; }
    }
  }

  lemma LeftSlot(current: int, n: int)
    requires n > 0 && InGrid(current, n)
    ensures var row, col := Row(current, n), Col(current, n);
      NeighborNodes(current, n)[1] == (if col > 0 then row * n + (col - 1) else OUT_OF_BOUNDS)
  {
    var row, col := Row(current, n), Col(current, n);
    CellCoords(current, n);
    if col > 0 {
      assert row * n >= 0 by { MulMono(0, row, n); }
      assert current - 1 == row * n + (col - 1) >= 0;
      assert (current - 1) / n == row by { DivModUnique(current - 1, n, row, col - 1); }
    } else if current - 1 >= 0 {
      assert (current - 1) / n == row - 1 by { DivModUnique(current - 1, n, row - 1, n - 1); }
    }
  }

  lemma RightSlot(current: int, n: int)
    requires n > 0 && InGrid(current, n)
    ensures var row, col := Row(current, n), Col(current, n);
      NeighborNodes(current, n)[2] == (if col < n - 1 then row * n + (col + 1) else OUT_OF_BOUNDS)
  {
    var row, col := Row(current, n), Col(current, n);
    CellCoords(current, n);
    if col < n - 1 {
      assert (current + 1) / n == row by { DivModUnique(current + 1, n, row, col + 1); }
      assert current + 1 < n * n by { CoordsCell(row, col + 1, n); }
    } else {
      assert (current + 1) / n == row + 1 by { DivModUnique(current + 1, n, row + 1, 0); }
    }
  }

  /** NeighborNodes yields exactly the cells of the map one step away
      (Manhattan distance 1) from `current`. */
  lemma {:induction false} AdjacentIffOneStep(current: int, b: int, n: int)
    requires n > 0 && InGrid(current, n)
    ensures Adjacent(current, b, n) <==> InGrid(b, n) && Distance(current, b, n) == 1
  {
    var row, col := Row(current, n), Col(current, n);
    NeighborSlots(current, n);
    CellCoords(current, n);
    if row > 0 { CoordsCell(row - 1, col, n); }
    if col > 0 { CoordsCell(row, col - 1, n); }
    if col < n - 1 { CoordsCell(row, col + 1, n); }
    if row < n - 1 { CoordsCell(row + 1, col, n); }
    if InGrid(b, n) && Distance(current, b, n) == 1 {
      CellCoords(b, n);
      var rb, cb := Row(b, n), Col(b, n);
      if rb == row - 1 {
        assert b == (row - 1) * n + col;
      } else if rb == row + 1 {
        assert b == (row + 1) * n + col;
      } else if cb == col - 1 {
        assert b == row * n + (col - 1);
      } else {
        assert b == row * n + (col + 1);
      }
    }
  }

  /** Adjacency is symmetric: if b is a neighbour of a, a is a neighbour of b. */
  lemma {:induction false} AdjacentSymmetric(a: int, b: int, n: int)
    requires n > 0 && InGrid(a, n) && Adjacent(a, b, n)
    ensures InGrid(b, n) && Adjacent(b, a, n)
  {
    AdjacentIffOneStep(a, b, n);
    AdjacentIffOneStep(b, a, n);
  }

  /** Manhattan-distance heuristic of both h_cost functions: the row distance
      plus the column distance from `goal` to `current`. */
  function HCost(current: int, goal: int, n: int): nat
    requires n > 0
  {
    Distance(goal, current, n)
  }

  /** The heuristic is the same measured from either end, and between two
      cells of the map it is at most 2(n-1). */
  lemma HCostBound(current: int, goal: int, n: int)
    requires n > 0
    ensures HCost(current, goal, n) == HCost(goal, current, n)
    ensures InGrid(current, n) && InGrid(goal, n) ==> HCost(current, goal, n) <= 2 * (n - 1)
  {
    if InGrid(current, n) && InGrid(goal, n) {
      CellCoords(current, n);
      CellCoords(goal, n);
    }
  }

  /** The heuristic vanishes exactly at the goal. */
  lemma {:induction false} HCostZeroIffGoal(current: int, goal: int, n: int)
    requires n > 0 && InGrid(current, n) && InGrid(goal, n)
    ensures HCost(current, goal, n) == 0 <==> current == goal
  {
    CellCoords(current, n);
    CellCoords(goal, n);
  }

  /** The heuristic changes by at most one between a cell and any neighbour
      NeighborNodes yields for it (it is consistent for costs of at least 1). */
  lemma {:induction false} HCostStep(current: int, goal: int, n: int, k: nat)
    requires n > 0 && InGrid(current, n) && k < 4
    requires NeighborNodes(current, n)[k] != OUT_OF_BOUNDS
    ensures var h, h' := HCost(current, goal, n), HCost(NeighborNodes(current, n)[k], goal, n);
      h' <= h + 1 && h <= h' + 1
  {
    var b := NeighborNodes(current, n)[k];
    AdjacentIffOneStep(current, b, n);
  }

  /** Any cell other than `b` has a neighbour one step nearer to `b`: move
      along the column first, then along the row. */
  lemma StepToward(a: int, b: int, n: int) returns (a': int)
    requires n > 0 && InGrid(a, n) && InGrid(b, n) && a != b
    ensures InGrid(a', n) && Distance(a', a, n) == 1 && Distance(a', b, n) + 1 == Distance(a, b, n)
  {
    CellCoords(a, n);
    CellCoords(b, n);
    var ra, ca, rb, cb := Row(a, n), Col(a, n), Row(b, n), Col(b, n);
    var r, c := ra, ca;
    if ra < rb {
      r := ra + 1;
    } else if ra > rb {
      r := ra - 1;
    } else if ca < cb {
      c := ca + 1;
    } else {
      c := ca - 1;
    }
    CoordsCell(r, c, n);
    a' := r * n + c;
  }

  /** Any two cells of the map are joined by a route of neighbouring cells. */
  lemma {:induction false} GridRoute(a: int, b: int, n: int) returns (p: seq<int>)
    requires n > 0 && InGrid(a, n) && InGrid(b, n)
    ensures |p| >= 1 && p[0] == a && p[|p| - 1] == b
    ensures forall k :: 0 <= k < |p| ==> InGrid(p[k], n)
    ensures forall k :: 0 <= k < |p| - 1 ==> Adjacent(p[k + 1], p[k], n)
    decreases Distance(a, b, n)
  {
    if a == b {
      p := [a];
    } else {
      var a' := StepToward(a, b, n);
      AdjacentIffOneStep(a', a, n);
      var rest := GridRoute(a', b, n);
      p := [a] + rest;
      assert p[1..] == rest;
    }
  }

  /** A route written goal-first: reading `p` backwards, every step moves to a
      4-neighbour of the previous cell and never onto a cell that is not
      passable (the last cell, where the walk begins, may be anything). */
  predicate IsRoute(passable: seq<bool>, n: int, p: seq<int>)
    requires n > 0
  {
    && |p| >= 1
    && (forall k :: 0 <= k < |p| ==> InGrid(p[k], n) && p[k] < |passable|)
    && (forall k :: 0 <= k < |p| - 1 ==> Adjacent(p[k + 1], p[k], n) && passable[p[k]])
  }

  /** A set of cells (given by `region`) that contains every passable
      neighbour of each of its cells. */
  predicate ClosedUnderSteps(passable: seq<bool>, n: int, region: seq<bool>)
    requires n > 0 && |passable| == n * n && |region| == n * n
  {
    forall c, k :: 0 <= c < n * n && region[c] && 0 <= k < 4 ==>
      var b := NeighborNodes(c, n)[k];
      b != OUT_OF_BOUNDS ==> (passable[b] ==> region[b])
  }

  /** A route can never leave such a region: if it starts inside, it ends inside. */
  lemma {:induction false} RouteStaysInRegion(passable: seq<bool>, n: int, region: seq<bool>, p: seq<int>)
    requires n > 0 && |passable| == n * n && |region| == n * n
    requires ClosedUnderSteps(passable, n, region) && IsRoute(passable, n, p)
    ensures region[p[|p| - 1]] ==> forall k :: 0 <= k < |p| ==> region[p[k]]
  {
    if region[p[|p| - 1]] {
      var k := |p| - 1;
      while k > 0
        invariant 0 <= k < |p|
        invariant forall j :: k <= j < |p| ==> region[p[j]]
      {
        assert Adjacent(p[k], p[k - 1], n);
        var slot :| 0 <= slot < 4 && NeighborNodes(p[k], n)[slot] == p[k - 1];
        k := k - 1;
      }
    }
  }
}
