/** What the search loops of both engines maintain, stated on the per-cell
    tables as values.  For every cell of the n×n map an engine keeps the cost
    of entering it, whether it may be entered at all, whether it is a start
    cell, its predecessor (came_from), its g-score (cost of the best path
    found so far from a start cell), and whether it is in the open set and in
    the closed set.  A cell leaves the open set when it is expanded and joins
    the closed set; a closed cell that a cheaper path reaches later joins the
    open set again without leaving the closed set. */
module Frontier {
  import opened Grid
  import opened Sums
  import opened Chains

  datatype Tables = Tables(
    cost: seq<int>,
    passable: seq<bool>,
    isStart: seq<bool>,
    cameFrom: seq<int>,
    g: seq<int>,
    open: seq<bool>,
    closed: seq<bool>)

  // How the engines' buffers read as tables.

  /** The cells whose entry in a flag table (or byte in a map) is `v`. */
  function Flags<T(==)>(s: seq<T>, v: T): (r: seq<bool>)
    ensures |r| == |s|
  {
    seq(|s|, c requires 0 <= c < |s| => s[c] == v)
  }

  /** Index of the last `x` in `s`, or NOT_SET: what both engines' scans of
      the map leave in start and goal, since a later START or GOAL cell
      overwrites an earlier one. */
  function LastIndexOf(s: seq<char>, x: char): (r: int)
    ensures r == NOT_SET <==> x !in s
    ensures r != NOT_SET ==> 0 <= r < |s| && s[r] == x && forall j :: r < j < |s| ==> s[j] != x
  {
    if s == [] then NOT_SET
    else if s[|s| - 1] == x then |s| - 1
    else LastIndexOf(s[..|s| - 1], x)
  }

  predicate Sized(t: Tables, n: int) {
    && n > 0
    && |t.cost| == n * n && |t.passable| == n * n && |t.isStart| == n * n
    && |t.cameFrom| == n * n && |t.g| == n * n && |t.open| == n * n && |t.closed| == n * n
  }

  /** Entering any cell costs at least 1. */
  predicate PositiveCosts(t: Tables) {
    forall c :: 0 <= c < |t.cost| ==> t.cost[c] >= 1
  }

  /** The cells seen so far: a cell is seen once it has entered the open
      set, and stays seen, since it is then open or closed. */
  function Seen(t: Tables): (r: seq<bool>)
    requires |t.closed| == |t.open|
    ensures |r| == |t.open|
  {
    seq(|t.open|, c requires 0 <= c < |t.open| => t.open[c] || t.closed[c])
  }

  /** g-scores are never negative, and the chosen start cell keeps g-score 0,
      no predecessor, and its place among the seen cells. */
  predicate ScoresInv(t: Tables, n: int, start: int)
    requires Sized(t, n)
  {
    && InGrid(start, n)
    && (forall c :: 0 <= c < n * n ==> t.g[c] >= 0)
    && t.g[start] == 0 && t.cameFrom[start] == NOT_SET && (t.open[start] || t.closed[start])
  }

  /** Every recorded predecessor is a closed neighbour of its cell, the cell
      may be entered, and its g-score is at least its predecessor's plus the
      cost of entering it. */
  predicate ChainInv(t: Tables, n: int)
    requires Sized(t, n)
  {
    forall c :: 0 <= c < n * n && t.cameFrom[c] != NOT_SET ==>
      && InGrid(t.cameFrom[c], n) && Adjacent(t.cameFrom[c], c, n)
      && t.closed[t.cameFrom[c]] && t.passable[c]
      && t.g[t.cameFrom[c]] + t.cost[c] <= t.g[c]
  }

  /** Neighbour slot k of cell c has been dealt with: it is off the map, a
      cell that may not be entered, or a seen cell. */
  predicate SlotDone(t: Tables, n: int, c: int, k: int)
    requires Sized(t, n) && InGrid(c, n) && 0 <= k < 4
  {
    var b := NeighborNodes(c, n)[k];
    b != OUT_OF_BOUNDS && t.passable[b] ==> t.open[b] || t.closed[b]
  }

  predicate SlotsDone(t: Tables, n: int, c: int, slots: int)
    requires Sized(t, n) && InGrid(c, n) && 0 <= slots <= 4
  {
    forall k :: 0 <= k < slots ==> SlotDone(t, n, c, k)
  }

  /** What the search has covered: the goal is never closed and is not a
      start cell, every start cell
      was seen, every other seen cell has a predecessor, and every closed cell
      but `expanding` (the one being expanded, or NOT_SET) has had all four
      neighbour slots dealt with. */
  predicate CoverInv(t: Tables, n: int, goal: int, expanding: int)
    requires Sized(t, n)
  {
    && InGrid(goal, n) && !t.closed[goal] && !t.isStart[goal]
    && (forall c :: 0 <= c < n * n && t.isStart[c] ==> t.open[c] || t.closed[c])
    && (forall c :: 0 <= c < n * n && (t.open[c] || t.closed[c]) && !t.isStart[c] ==> t.cameFrom[c] != NOT_SET)
    && (forall c :: 0 <= c < n * n && c != expanding && t.closed[c] ==> SlotsDone(t, n, c, 4))
  }

  /** The invariant of both search loops. */
  predicate SearchInv(t: Tables, n: int, start: int, goal: int, expanding: int) {
    && Sized(t, n) && PositiveCosts(t)
    && ScoresInv(t, n, start) && ChainInv(t, n) && CoverInv(t, n, goal, expanding)
  }

  /** The test both engines apply to neighbour `nb` of the cell `current`
      being expanded: `nb` lies in the map and may be entered, it is not a
      closed cell the path through `current` fails to improve, and it is not
      open or the path through `current` is strictly cheaper.  Put another
      way: a cell never seen passes, and a seen cell passes exactly when the
      path through `current` is strictly cheaper than its g-score. */
  predicate Improves(t: Tables, n: int, current: int, nb: int)
    requires Sized(t, n) && InGrid(current, n)
    ensures Improves(t, n, current, nb) <==>
      && InGrid(nb, n) && t.passable[nb]
      && (!Seen(t)[nb] || t.g[current] + t.cost[nb] < t.g[nb])
  {
    && InGrid(nb, n) && t.passable[nb]
    && var tentative := t.g[current] + t.cost[nb];
       && !(t.closed[nb] && tentative >= t.g[nb])
       && (!t.open[nb] || tentative < t.g[nb])
  }

  /** The tables after `nb` gets `current` as predecessor, the g-score of the
      path through `current`, and a place in the open set: `nb` is seen
      afterwards, no cell stops being seen, and nothing is closed or
      reopened but `nb`. */
  function Improved(t: Tables, n: int, current: int, nb: int): (t': Tables)
    requires Sized(t, n) && InGrid(current, n) && InGrid(nb, n)
    ensures Sized(t', n) && Seen(t')[nb] && t'.closed == t.closed
    ensures forall c :: 0 <= c < n * n && Seen(t)[c] ==> Seen(t')[c]
  {
    t.(cameFrom := t.cameFrom[nb := current],
       g := t.g[nb := t.g[current] + t.cost[nb]],
       open := t.open[nb := true])
  }

  /** The tables after `current` moves from the open set to the closed set:
      an open cell that is closed stays seen, so the seen cells stay the
      same. */
  function Closed(t: Tables, n: int, current: int): (t': Tables)
    requires Sized(t, n) && InGrid(current, n)
    ensures Sized(t', n) && !t'.open[current] && t'.closed[current]
    ensures t.open[current] ==> Seen(t') == Seen(t)
  {
    t.(open := t.open[current := false], closed := t.closed[current := true])
  }

  /** One pass of both engines' inner loop for the neighbour slot holding
      `nb`: the tables are Improved when the test passes and unchanged
      otherwise. */
  function Relaxed(t: Tables, n: int, current: int, nb: int): (t': Tables)
    requires Sized(t, n) && InGrid(current, n)
    ensures Sized(t', n)
  {
    if Improves(t, n, current, nb) then Improved(t, n, current, nb) else t
  }

  /** The tables once the first `slots` neighbour slots of `current` have
      been relaxed, in slot order. */
  function RelaxedSlots(t: Tables, n: int, current: int, slots: int): (t': Tables)
    requires Sized(t, n) && InGrid(current, n) && 0 <= slots <= 4
    ensures Sized(t', n)
  {
    if slots == 0 then t
    else Relaxed(RelaxedSlots(t, n, current, slots - 1), n, current, NeighborNodes(current, n)[slots - 1])
  }

  /** One expansion of the open cell `current`: it is closed, then its four
      neighbour slots are relaxed. */
  function Expanded(t: Tables, n: int, current: int): (t': Tables)
    requires Sized(t, n) && InGrid(current, n)
    ensures Sized(t', n)
  {
    RelaxedSlots(Closed(t, n, current), n, current, 4)
  }

  /** The f-scores after the pass for the slot holding `nb`: a neighbour
      that passes the test gets the g-score of the path through `current`
      plus its heuristic, and nothing else changes. */
  function Rescored(t: Tables, f: seq<int>, n: int, current: int, nb: int, goal: int): (f': seq<int>)
    requires Sized(t, n) && InGrid(current, n) && |f| == n * n
    ensures |f'| == n * n
  {
    if Improves(t, n, current, nb) then f[nb := t.g[current] + t.cost[nb] + HCost(nb, goal, n)] else f
  }

  /** The f-scores once the first `slots` neighbour slots of `current` have
      been relaxed. */
  function RescoredSlots(t: Tables, f: seq<int>, n: int, current: int, goal: int, slots: int): (f': seq<int>)
    requires Sized(t, n) && InGrid(current, n) && |f| == n * n && 0 <= slots <= 4
    ensures |f'| == n * n
  {
    if slots == 0 then f
    else Rescored(RelaxedSlots(t, n, current, slots - 1), RescoredSlots(t, f, n, current, goal, slots - 1),
                  n, current, NeighborNodes(current, n)[slots - 1], goal)
  }

  /** The cells that join the open set while the first `slots` neighbour
      slots of `current` are relaxed, in slot order: those that pass the
      test and were not open. */
  function Joined(t: Tables, n: int, current: int, slots: int): (r: seq<int>)
    requires Sized(t, n) && InGrid(current, n) && 0 <= slots <= 4
    ensures |r| <= slots
  {
    if slots == 0 then []
    else
      var t', nb := RelaxedSlots(t, n, current, slots - 1), NeighborNodes(current, n)[slots - 1];
      Joined(t, n, current, slots - 1) + (if Improves(t', n, current, nb) && !t'.open[nb] then [nb] else [])
  }

  lemma RelaxedSlotsNext(t: Tables, f: seq<int>, n: int, current: int, goal: int, i: int)
    requires Sized(t, n) && InGrid(current, n) && |f| == n * n && 0 <= i < 4
    ensures RelaxedSlots(t, n, current, i + 1) ==
      Relaxed(RelaxedSlots(t, n, current, i), n, current, NeighborNodes(current, n)[i])
    ensures RescoredSlots(t, f, n, current, goal, i + 1) ==
      Rescored(RelaxedSlots(t, n, current, i), RescoredSlots(t, f, n, current, goal, i), n, current,
               NeighborNodes(current, n)[i], goal)
    ensures var t', nb := RelaxedSlots(t, n, current, i), NeighborNodes(current, n)[i];
      Joined(t, n, current, i + 1) ==
        Joined(t, n, current, i) + (if Improves(t', n, current, nb) && !t'.open[nb] then [nb] else [])
  {
  }

  /** Relaxing slots changes costs, passability, start cells and the
      closed set not at all, never takes a cell out of the open set, and
      leaves `current` alone; any other cell keeps its predecessor, g-score
      and open flag, or is a neighbour of `current` that now has `current`
      as predecessor, the g-score of the path through it, and a place in
      the open set.  The cells that joined the open set are exactly the
      cells open now that were not open before. */
  lemma {:induction false} RelaxedSlotsChanges(t: Tables, n: int, current: int, slots: int)
    requires Sized(t, n) && InGrid(current, n) && 0 <= slots <= 4
    ensures var t' := RelaxedSlots(t, n, current, slots);
      && t'.cost == t.cost && t'.passable == t.passable && t'.isStart == t.isStart && t'.closed == t.closed
      && t'.cameFrom[current] == t.cameFrom[current] && t'.g[current] == t.g[current]
      && t'.open[current] == t.open[current]
      && (forall c :: 0 <= c < n * n && t.open[c] ==> t'.open[c])
      && (forall c :: 0 <= c < n * n ==>
            || (t'.cameFrom[c] == t.cameFrom[c] && t'.g[c] == t.g[c] && t'.open[c] == t.open[c])
            || (&& Adjacent(current, c, n) && t'.cameFrom[c] == current
                && t'.g[c] == t.g[current] + t.cost[c] && t'.open[c]))
      && (forall c :: c in Joined(t, n, current, slots) <==> 0 <= c < n * n && !t.open[c] && t'.open[c])
  {
    if slots > 0 {
      RelaxedSlotsChanges(t, n, current, slots - 1);
      var t0, nb := RelaxedSlots(t, n, current, slots - 1), NeighborNodes(current, n)[slots - 1];
      assert nb == OUT_OF_BOUNDS || Adjacent(current, nb, n);
      assert RelaxedSlots(t, n, current, slots) == Relaxed(t0, n, current, nb);
      assert Joined(t, n, current, slots) ==
        Joined(t, n, current, slots - 1) + (if Improves(t0, n, current, nb) && !t0.open[nb] then [nb] else []);
    }
  }

  /** The measure of `t'` is below that of `t`: fewer cells never seen, or
      as many and a smaller sum of the seen cells' g-scores. */
  predicate MeasureBelow(t': Tables, t: Tables)
    requires |t'.closed| == |t'.open| == |t'.g| && |t.closed| == |t.open| == |t.g|
  {
    || Unseen(Seen(t')) < Unseen(Seen(t))
    || (Unseen(Seen(t')) == Unseen(Seen(t)) && SeenScore(Seen(t'), t'.g) < SeenScore(Seen(t), t.g))
  }

  /** Relaxing the first `slots` neighbour slots of the closed cell
      `current` keeps the invariant and deals with those slots; either no
      slot passed the test, so nothing changed and no cell joined the open
      set, or the measure went down. */
  lemma {:induction false} RelaxedSlotsKeep(t: Tables, n: int, start: int, goal: int, current: int, slots: int)
    requires SearchInv(t, n, start, goal, current) && InGrid(current, n) && t.closed[current] && 0 <= slots <= 4
    ensures var t' := RelaxedSlots(t, n, current, slots);
      && SearchInv(t', n, start, goal, current) && t'.closed[current] && SlotsDone(t', n, current, slots)
      && ((t' == t && Joined(t, n, current, slots) == []) || MeasureBelow(t', t))
  {
    if slots > 0 {
      RelaxedSlotsKeep(t, n, start, goal, current, slots - 1);
      var t0, nb := RelaxedSlots(t, n, current, slots - 1), NeighborNodes(current, n)[slots - 1];
      var t' := Relaxed(t0, n, current, nb);
      RelaxedKeeps(t0, n, start, goal, current, slots - 1);
      assert RelaxedSlots(t, n, current, slots) == t';
      if !Improves(t0, n, current, nb) {
        assert Joined(t, n, current, slots) == Joined(t, n, current, slots - 1);
      } else if t0 != t {
        assert MeasureBelow(t', t0) && MeasureBelow(t0, t);
      }
    }
  }

  /** One pass of the inner loop, over slot `slot` of the closed cell
      `current`, keeps the invariant and deals with one more slot; either
      the test failed and nothing changed, or the measure went down. */
  lemma RelaxedKeeps(t: Tables, n: int, start: int, goal: int, current: int, slot: int)
    requires SearchInv(t, n, start, goal, current) && InGrid(current, n) && t.closed[current]
    requires 0 <= slot < 4 && SlotsDone(t, n, current, slot)
    ensures var nb := NeighborNodes(current, n)[slot];
      var t' := Relaxed(t, n, current, nb);
      && SearchInv(t', n, start, goal, current) && t'.closed[current] && SlotsDone(t', n, current, slot + 1)
      && ((!Improves(t, n, current, nb) && t' == t) || MeasureBelow(t', t))
  {
    var nb := NeighborNodes(current, n)[slot];
    if Improves(t, n, current, nb) {
      ImproveKeeps(t, n, start, goal, current, slot);
    } else {
      assert SlotDone(t, n, current, slot);
    }
  }

  /** One expansion moves `current` from the open set to the closed set and
      closes nothing else; costs, passability and start cells stay; any
      other cell keeps its predecessor, g-score and open flag, or is a
      neighbour of `current` that now has `current` as predecessor, the
      g-score of the path through `current`, and a place in the open set. */
  lemma ExpandedChanges(t: Tables, n: int, current: int)
    requires Sized(t, n) && InGrid(current, n)
    ensures var t' := Expanded(t, n, current);
      && t'.cost == t.cost && t'.passable == t.passable && t'.isStart == t.isStart
      && t'.closed == t.closed[current := true] && !t'.open[current]
      && t'.cameFrom[current] == t.cameFrom[current] && t'.g[current] == t.g[current]
      && (forall c :: 0 <= c < n * n && c != current ==>
            || (t'.cameFrom[c] == t.cameFrom[c] && t'.g[c] == t.g[c] && t'.open[c] == t.open[c])
            || (&& Adjacent(current, c, n) && t'.cameFrom[c] == current
                && t'.g[c] == t.g[current] + t.cost[c] && t'.open[c]))
  {
    RelaxedSlotsChanges(Closed(t, n, current), n, current, 4);
  }

  /** After the passes, each cell keeps its f-score, or is a neighbour of
      `current` whose f-score is its new g-score plus its heuristic. */
  lemma {:induction false} RescoredSlotsChanges(t: Tables, f: seq<int>, n: int, current: int, goal: int, slots: int)
    requires Sized(t, n) && InGrid(current, n) && |f| == n * n && 0 <= slots <= 4
    ensures var t', f' := RelaxedSlots(t, n, current, slots), RescoredSlots(t, f, n, current, goal, slots);
      forall c :: 0 <= c < n * n ==>
        f'[c] == f[c] || (Adjacent(current, c, n) && f'[c] == t'.g[c] + HCost(c, goal, n))
  {
    if slots > 0 {
      RescoredSlotsChanges(t, f, n, current, goal, slots - 1);
      var nb := NeighborNodes(current, n)[slots - 1];
      assert nb == OUT_OF_BOUNDS || Adjacent(current, nb, n);
    }
  }

  /** The tables as both engines set them up: no predecessors, nothing
      closed, exactly the start cells open, and g-scores that are never
      negative and 0 at the chosen start cell.  The loop invariant holds. */
  lemma InitialInv(t: Tables, n: int, start: int, goal: int)
    requires Sized(t, n) && PositiveCosts(t) && InGrid(start, n) && InGrid(goal, n)
    requires t.isStart[start] && !t.isStart[goal] && t.g[start] == 0
    requires forall c :: 0 <= c < n * n ==>
      t.cameFrom[c] == NOT_SET && t.g[c] >= 0 && !t.closed[c] && t.open[c] == t.isStart[c]
    ensures SearchInv(t, n, start, goal, NOT_SET)
  {
  }

  /** Dealt-with slots stay dealt with when no cell stops being seen. */
  lemma SlotsDoneMono(t: Tables, t': Tables, n: int, c: int, slots: int)
    requires Sized(t, n) && Sized(t', n) && InGrid(c, n) && 0 <= slots <= 4
    requires t'.passable == t.passable
    requires forall b :: 0 <= b < n * n && (t.open[b] || t.closed[b]) ==> t'.open[b] || t'.closed[b]
    requires SlotsDone(t, n, c, slots)
    ensures SlotsDone(t', n, c, slots)
  {
    forall k | 0 <= k < slots ensures SlotDone(t', n, c, k) {
      assert SlotDone(t, n, c, k);
    }
  }

  /** Closing the open cell `current` keeps the invariant, with `current` as
      the cell being expanded, and changes which cells are seen not at all. */
  lemma CloseKeeps(t: Tables, n: int, start: int, goal: int, current: int)
    requires SearchInv(t, n, start, goal, NOT_SET) && InGrid(current, n) && t.open[current]
    requires current != goal
    ensures SearchInv(Closed(t, n, current), n, start, goal, current)
    ensures Seen(Closed(t, n, current)) == Seen(t)
  {
    var t' := Closed(t, n, current);
    assert Seen(t') == Seen(t);
    forall c | 0 <= c < n * n && c != current && t'.closed[c]
      ensures SlotsDone(t', n, c, 4)
    {
      SlotsDoneMono(t, t', n, c, 4);
    }
  }

  /** A neighbour slot dealt with extends the run of slots dealt with. */
  lemma SlotsDoneNext(t: Tables, n: int, c: int, slot: int)
    requires Sized(t, n) && InGrid(c, n) && 0 <= slot < 4
    requires SlotsDone(t, n, c, slot) && SlotDone(t, n, c, slot)
    ensures SlotsDone(t, n, c, slot + 1)
  {
  }

  /** Recording the improved path to neighbour `nb` (slot `slot` of the cell
      `current` being expanded) keeps the invariant; cells seen before stay
      seen with g-scores no higher, `nb` is seen, and the pair (unseen cells,
      sum of the seen cells' g-scores) goes down: either `nb` is newly seen
      or its g-score strictly drops. */
  lemma ImproveKeeps(t: Tables, n: int, start: int, goal: int, current: int, slot: int)
    requires SearchInv(t, n, start, goal, current) && InGrid(current, n) && t.closed[current]
    requires 0 <= slot < 4 && SlotsDone(t, n, current, slot)
    requires Improves(t, n, current, NeighborNodes(current, n)[slot])
    ensures var t' := Improved(t, n, current, NeighborNodes(current, n)[slot]);
      && SearchInv(t', n, start, goal, current)
      && SlotsDone(t', n, current, slot + 1)
      && (forall c :: 0 <= c < n * n && Seen(t)[c] ==> Seen(t')[c] && t'.g[c] <= t.g[c])
      && (|| Unseen(Seen(t')) < Unseen(Seen(t))
          || (Unseen(Seen(t')) == Unseen(Seen(t)) && SeenScore(Seen(t'), t'.g) < SeenScore(Seen(t), t.g)))
  {
    var nb := NeighborNodes(current, n)[slot];
    var t' := Improved(t, n, current, nb);
    assert nb in NeighborNodes(current, n);
    ImproveScores(t, n, start, goal, current, nb);
    ImproveChain(t, n, start, goal, current, nb);
    ImproveCover(t, n, start, goal, current, nb);
    SlotsDoneMono(t, t', n, current, slot);
    ImproveMeasure(t, n, start, goal, current, nb);
  }

  lemma ImproveScores(t: Tables, n: int, start: int, goal: int, current: int, nb: int)
    requires SearchInv(t, n, start, goal, current) && InGrid(current, n) && InGrid(nb, n)
    requires Improves(t, n, current, nb)
    ensures ScoresInv(Improved(t, n, current, nb), n, start) && PositiveCosts(Improved(t, n, current, nb))
  {
  }

  lemma ImproveChain(t: Tables, n: int, start: int, goal: int, current: int, nb: int)
    requires SearchInv(t, n, start, goal, current) && InGrid(current, n) && t.closed[current]
    requires Adjacent(current, nb, n) && Improves(t, n, current, nb)
    ensures ChainInv(Improved(t, n, current, nb), n)
  {
    var t' := Improved(t, n, current, nb);
    forall c | 0 <= c < n * n && t'.cameFrom[c] != NOT_SET
      ensures t'.g[t'.cameFrom[c]] + t'.cost[c] <= t'.g[c]
    {
      if c != nb && t.cameFrom[c] == nb {
        assert t.closed[nb];
      }
    }
  }

  lemma ImproveCover(t: Tables, n: int, start: int, goal: int, current: int, nb: int)
    requires SearchInv(t, n, start, goal, current) && InGrid(current, n) && InGrid(nb, n)
    requires Improves(t, n, current, nb)
    ensures CoverInv(Improved(t, n, current, nb), n, goal, current)
  {
    var t' := Improved(t, n, current, nb);
    forall c | 0 <= c < n * n && c != current && t'.closed[c]
      ensures SlotsDone(t', n, c, 4)
    {
      SlotsDoneMono(t, t', n, c, 4);
    }
  }

  lemma ImproveMeasure(t: Tables, n: int, start: int, goal: int, current: int, nb: int)
    requires SearchInv(t, n, start, goal, current) && InGrid(current, n) && InGrid(nb, n)
    requires Improves(t, n, current, nb)
    ensures var t' := Improved(t, n, current, nb);
      && (forall c :: 0 <= c < n * n && Seen(t)[c] ==> Seen(t')[c] && t'.g[c] <= t.g[c])
      && (|| Unseen(Seen(t')) < Unseen(Seen(t))
          || (Unseen(Seen(t')) == Unseen(Seen(t)) && SeenScore(Seen(t'), t'.g) < SeenScore(Seen(t), t.g)))
  {
    var t' := Improved(t, n, current, nb);
    if Seen(t)[nb] {
      assert Seen(t') == Seen(t);
      LoweringLowersScore(Seen(t), t.g, t'.g, nb);
    } else {
      SeeingLowersUnseen(Seen(t), Seen(t'), nb);
    }
  }

  /** Once all four neighbour slots of the cell being expanded are dealt
      with, it is covered like every other closed cell. */
  lemma ExpandComplete(t: Tables, n: int, start: int, goal: int, current: int)
    requires SearchInv(t, n, start, goal, current) && InGrid(current, n) && SlotsDone(t, n, current, 4)
    ensures SearchInv(t, n, start, goal, NOT_SET)
  {
  }

  /** What a search reports when it reaches the goal: came_from leads back
      from the goal to a start cell, along a route through enterable
      neighbouring cells that visits no cell twice and costs (as both
      reconstruct_path functions count it) at most the goal's g-score. */
  predicate ChainToStart(t: Tables, n: int, goal: int, path: seq<int>)
    requires Sized(t, n)
  {
    && IsChain(t.cameFrom, path) && |path| >= 2 && path[0] == goal && Distinct(path)
    && t.isStart[path[|path| - 1]]
    && IsRoute(t.passable, n, path)
    && ChainCost(t.cost, path) <= t.g[goal]
  }

  /** No route through enterable neighbouring cells leads from a start cell
      to the goal. */
  ghost predicate Unreachable(t: Tables, n: int, goal: int)
    requires Sized(t, n)
  {
    forall p :: IsRoute(t.passable, n, p) && p[0] == goal ==> !t.isStart[p[|p| - 1]]
  }

  /** When the goal is seen, came_from leads back from it to a start cell. */
  lemma GoalChain(t: Tables, n: int, start: int, goal: int) returns (path: seq<int>)
    requires SearchInv(t, n, start, goal, NOT_SET)
    requires t.open[goal] || t.closed[goal]
    ensures ChainToStart(t, n, goal, path)
  {
    path := ChainFromRank(t.cameFrom, t.g, goal);
    ChainDistinct(t.cameFrom, path);
    assert t.cameFrom[path[|path| - 2]] == path[|path| - 1];
    ChainIsRoute(t.cameFrom, t.passable, n, path);
    ChainCostBound(t.cameFrom, t.cost, t.g, path);
  }

  /** When the open set is empty, the seen cells are all closed and contain
      every enterable neighbour of each of them and every start cell, but not
      the goal; so no route from a start cell reaches the goal. */
  lemma NoRoute(t: Tables, n: int, start: int, goal: int)
    requires SearchInv(t, n, start, goal, NOT_SET)
    requires forall c :: 0 <= c < n * n ==> !t.open[c]
    ensures Unreachable(t, n, goal)
  {
    var region := Seen(t);
    assert ClosedUnderSteps(t.passable, n, region) by {
      forall c, k | 0 <= c < n * n && region[c] && 0 <= k < 4
        ensures var b := NeighborNodes(c, n)[k]; b != OUT_OF_BOUNDS ==> (t.passable[b] ==> region[b])
      {
        assert SlotsDone(t, n, c, 4);
        assert SlotDone(t, n, c, k);
      }
    }
    forall p | IsRoute(t.passable, n, p) && p[0] == goal
      ensures !t.isStart[p[|p| - 1]]
    {
      RouteStaysInRegion(t.passable, n, region, p);
    }
  }
}
