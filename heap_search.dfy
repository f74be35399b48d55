/** The heap-based engine of a-star.c: init_map's scan and validation of the
    map, the a_star search loop over a binary heap with parallel g/f/came_from
    tables and openset/closedset flag tables, and the iterative
    reconstruct_path that write_map runs when the goal is found. */
module HeapSearch {
  import opened Grid
  import opened Sums
  import opened Chains
  import opened Frontier
  import opened Queue

  // a-star.c uses these names from a header that is not part of this model;
  // the values are this model's choice.  The marker bytes are the alphabet
  // of a-star.h; the flag values give calloc's zero-filled tables the
  // meaning the comments at a-star.c:99-100 give them.
  const GOAL: char := 'X'
  const START: char := 'O'
  const WALL: char := '#'
  const PATH: char := '*'
  const NUL: char := '\0'
  const INF: int := 0x7fff_ffff
  const OPEN: int := 0
  const CLOSED: int := 1
  /** Bounds on the side of the map accepted by init_map. */
  const MIN_SIZE: int := 4
  const MAX_SIZE: int := 15000

  datatype Error = InputErr
  datatype Result<T> = Ok(value: T) | Err(error: Error)

  /** What a_star reports: the cost of the path found and the map with the
      path marked, the unchanged map when the goal cannot be reached, or the
      error init_map found. */
  datatype Outcome =
    | GoalFound(cost: int, graph: seq<char>)
    | GoalNotFound(graph: seq<char>)
    | Failed(error: Error)

  /** Cost of entering each cell: its byte read as a number (a-star.c:48). */
  function Costs(graph: seq<char>): (r: seq<int>)
    ensures |r| == |graph|
    ensures forall c :: 0 <= c < |graph| && graph[c] != NUL ==> r[c] >= 1
  {
    seq(|graph|, c requires 0 <= c < |graph| => graph[c] as int)
  }

  /** The cells the search may step onto: every cell but a wall (a-star.c:45). */
  function Passable(graph: seq<char>): (r: seq<bool>)
    ensures |r| == |graph|
    ensures forall c :: 0 <= c < |graph| ==> (r[c] <==> graph[c] != WALL)
  {
    seq(|graph|, c requires 0 <= c < |graph| => graph[c] != WALL)
  }

  /** The map as write_map prints it after reconstruct_path: the cells strictly
      between the goal and the start cell of the chain become PATH. */
  function Marked(graph: seq<char>, path: seq<int>): (r: seq<char>)
    requires |path| >= 2
    ensures |r| == |graph|
    ensures forall c :: 0 <= c < |graph| ==>
      r[c] == (if c in path[1..|path| - 1] then PATH else graph[c])
  {
    seq(|graph|, c requires 0 <= c < |graph| => if c in path[1..|path| - 1] then PATH else graph[c])
  }

  /** The entries init_map pushes while scanning `graph`: one entry of
      priority 0 per START cell, in index order. */
  function StartNodes(graph: seq<char>): (r: seq<HeapNode>)
    ensures |r| <= |graph|
  {
    if graph == [] then []
    else if graph[|graph| - 1] == START then StartNodes(graph[..|graph| - 1]) + [HeapNode(0, |graph| - 1)]
    else StartNodes(graph[..|graph| - 1])
  }

  /** The scan queues exactly the START cells, each once, all with priority 0. */
  lemma {:induction false} StartNodesCells(graph: seq<char>)
    ensures Distinct(Cells(StartNodes(graph)))
    ensures forall c :: c in Cells(StartNodes(graph)) <==> 0 <= c < |graph| && graph[c] == START
    ensures forall k :: 0 <= k < |StartNodes(graph)| ==> StartNodes(graph)[k].priority == 0
  {
    if graph != [] {
      var front := graph[..|graph| - 1];
      StartNodesCells(front);
      var init := StartNodes(front);
      if graph[|graph| - 1] == START {
        var cells := Cells(init + [HeapNode(0, |graph| - 1)]);
        assert cells == Cells(init) + [|graph| - 1];
        assert |graph| - 1 !in Cells(init);
        forall c ensures c in cells <==> 0 <= c < |graph| && graph[c] == START {
          assert c in cells <==> c in Cells(init) || c == |graph| - 1;
          if 0 <= c < |front| { assert front[c] == graph[c]; }
        }
      } else {
        forall c ensures c in Cells(init) <==> 0 <= c < |graph| && graph[c] == START {
          if 0 <= c < |front| { assert front[c] == graph[c]; }
        }
      }
    }
  }

  /** The open flags once the scan has passed the first `i` cells: the START
      cells among them are flagged IN_OPENSET. */
  function ScanFlags(graph: seq<char>, i: int): (r: seq<int>)
    ensures |r| == |graph|
  {
    seq(|graph|, c requires 0 <= c < |graph| => if c < i && graph[c] == START then IN_OPENSET else NOT_IN_OPENSET)
  }

  /** Scanning one more cell appends its entry when it is a START cell. */
  lemma StartNodesNext(graph: seq<char>, i: int)
    requires 0 <= i < |graph|
    ensures ScanFlags(graph, i + 1) ==
      (if graph[i] == START then ScanFlags(graph, i)[i := IN_OPENSET] else ScanFlags(graph, i))
    ensures StartNodes(graph[..i + 1]) ==
      (if graph[i] == START then StartNodes(graph[..i]) + [HeapNode(0, i)] else StartNodes(graph[..i]))
    ensures LastIndexOf(graph[..i + 1], START) == (if graph[i] == START then i else LastIndexOf(graph[..i], START))
    ensures LastIndexOf(graph[..i + 1], GOAL) == (if graph[i] == GOAL then i else LastIndexOf(graph[..i], GOAL))
  {
    assert graph[..i + 1][..i] == graph[..i];
  }

  /** The entry a pass of a_star's inner loop pushes (a-star.c:56-58): the
      neighbour with the f-score of the path through `current`, when it
      passes the test and was not open. */
  function PushedAt(t: Tables, n: int, current: int, nb: int, goal: int): (r: seq<HeapNode>)
    requires Sized(t, n) && InGrid(current, n)
    ensures Cells(r) == (if Improves(t, n, current, nb) && !t.open[nb] then [nb] else [])
  {
    if Improves(t, n, current, nb) && !t.open[nb] then [HeapNode(t.g[current] + t.cost[nb] + HCost(nb, goal, n), nb)]
    else []
  }

  /** The entries pushed while the first `slots` neighbour slots of
      `current` are relaxed: one per cell that joins the open set, in slot
      order. */
  function Pushed(t: Tables, n: int, current: int, goal: int, slots: int): (r: seq<HeapNode>)
    requires Sized(t, n) && InGrid(current, n) && 0 <= slots <= 4
    ensures Cells(r) == Joined(t, n, current, slots)
  {
    if slots == 0 then []
    else
      var t', nb := RelaxedSlots(t, n, current, slots - 1), NeighborNodes(current, n)[slots - 1];
      var front := Pushed(t, n, current, goal, slots - 1);
      CellsAppend(front, PushedAt(t', n, current, nb, goal));
      assert Joined(t, n, current, slots) ==
        Joined(t, n, current, slots - 1) + (if Improves(t', n, current, nb) && !t'.open[nb] then [nb] else []);
      front + PushedAt(t', n, current, nb, goal)
  }

  lemma PushedNext(t: Tables, n: int, current: int, goal: int, i: int)
    requires Sized(t, n) && InGrid(current, n) && 0 <= i < 4
    ensures Pushed(t, n, current, goal, i + 1) ==
      Pushed(t, n, current, goal, i) + PushedAt(RelaxedSlots(t, n, current, i), n, current, NeighborNodes(current, n)[i], goal)
  {
  }

  /** The loop guard of init_map's scan as written (a-star.c:95): it keeps
      going while i < size*size + 1. */
  predicate ScanGuardAsWritten(i: int, size: int) {
    i < size * size + 1
  }

  // ---------------------------------------------------------------------
  // The map: the struct of a-star.c:8-12 with its tables as arrays.

  class Map {
    const size: int
    var start: int
    var goal: int
    const queue: Heap
    const graph: array<char>
    const came_from: array<int>
    const g_score: array<int>
    const f_score: array<int>
    const closedset: array<int>
    const openset: array<int>

    /** Number of cells. */
    function N(): int {
      size * size
    }

    /** The tables have one entry per cell and are distinct buffers, and the
        queue has room for one entry per cell (alloc_map). */
    ghost predicate Shape() {
      && size > 0
      && graph.Length == N() && came_from.Length == N() && g_score.Length == N()
      && f_score.Length == N() && closedset.Length == N() && openset.Length == N()
      && queue.size == N()
      && came_from != g_score && came_from != f_score && came_from != closedset && came_from != openset
      && g_score != f_score && g_score != closedset && g_score != openset
      && f_score != closedset && f_score != openset
      && closedset != openset
    }

    /** start and goal as init_map accepts them. */
    ghost predicate Endpoints()
      reads this, graph
      requires Shape()
    {
      && InGrid(start, size) && InGrid(goal, size) && start != goal
      && graph[start] == START && graph[goal] == GOAL
    }

    /** The map is one text line: no cell is NUL, so every step costs at least 1. */
    ghost predicate NoNul()
      reads graph
    {
      forall c :: 0 <= c < graph.Length ==> graph[c] != NUL
    }

    /** The tables as init_map leaves them. */
    ghost predicate Initialized()
      reads this, queue, graph, came_from, g_score, f_score, closedset, openset
      requires Shape()
    {
      && (forall c :: 0 <= c < N() ==>
            came_from[c] == NOT_SET && g_score[c] == INF && f_score[c] == INF && closedset[c] == OPEN)
      && (forall c :: 0 <= c < N() ==>
            openset[c] == (if graph[c] == START then IN_OPENSET else NOT_IN_OPENSET))
      && queue.nodes == StartNodes(graph[..])
    }

    /** The tables the search works on, as values: the cost of entering a
        cell is its byte, every cell but a wall may be entered, and the
        start cells are the START cells. */
    ghost function T(): (t: Tables)
      reads this, graph, came_from, g_score, openset, closedset
      requires Shape()
      ensures Sized(t, size)
    {
      Tables(Costs(graph[..]), Passable(graph[..]), Flags(graph[..], START),
             came_from[..], g_score[..], Flags(openset[..], IN_OPENSET), Flags(closedset[..], CLOSED))
    }

    /** The number of cells not seen yet and the sum of the seen cells'
        g-scores: with the length of the queue, the measure a_star's loop
        decreases. */
    ghost function Unvisited(): nat
      reads this, graph, came_from, g_score, openset, closedset
      requires Shape()
    {
      Unseen(Seen(T()))
    }

    ghost function Score(): nat
      reads this, graph, came_from, g_score, openset, closedset
      requires Shape()
    {
      SeenScore(Seen(T()), T().g)
    }

    /** The invariant of a_star's loop: the invariant of the search (see
        Frontier.SearchInv) on the tables, and the open flags mirroring the
        queue. */
    ghost predicate Searching(popped: int, expanding: int)
      reads this, queue, graph, came_from, g_score, openset, closedset
      requires Shape()
    {
      && SearchInv(T(), size, start, goal, expanding)
      && Mirrors(Cells(queue.nodes), openset[..], popped)
    }

    /** alloc_map and the fgets of the cell line: zero-filled flag tables, an
        empty queue with room for one entry per cell, start and goal unset. */
    constructor (size: int, cells: seq<char>)
      requires size > 0 && |cells| == size * size
      ensures this.size == size && Shape() && graph[..] == cells
      ensures start == NOT_SET && goal == NOT_SET && queue.nodes == []
      ensures forall c :: 0 <= c < N() ==> openset[c] == NOT_IN_OPENSET && closedset[c] == OPEN
      ensures fresh(queue) && fresh(graph) && fresh(came_from) && fresh(g_score)
      ensures fresh(f_score) && fresh(closedset) && fresh(openset)
    {
      this.size := size;
      var n2 := size * size;
      queue := new Heap(n2);
      graph := new char[n2](c requires 0 <= c < n2 => cells[c]);
      came_from := new int[n2];
      g_score := new int[n2];
      f_score := new int[n2];
      closedset := new int[n2](_ => OPEN);
      openset := new int[n2](_ => NOT_IN_OPENSET);
      start := NOT_SET;
      goal := NOT_SET;
    }

    /** The scan of init_map, over the size*size cells: every cell gets no
        predecessor and infinite scores, goal and start end at the last GOAL
        and START cell, and every START cell is queued with priority 0 and
        flagged IN_OPENSET. */
    method Scan()
      requires Shape() && start == NOT_SET && goal == NOT_SET && queue.nodes == []
      requires forall c :: 0 <= c < N() ==> openset[c] == NOT_IN_OPENSET
      modifies this, queue, came_from, g_score, f_score, openset
      ensures start == LastIndexOf(graph[..], START) && goal == LastIndexOf(graph[..], GOAL)
      ensures forall c :: 0 <= c < N() ==>
        came_from[c] == NOT_SET && g_score[c] == INF && f_score[c] == INF
      ensures forall c :: 0 <= c < N() ==>
        openset[c] == (if graph[c] == START then IN_OPENSET else NOT_IN_OPENSET)
      ensures queue.nodes == StartNodes(graph[..])
    {
      ghost var cells := graph[..];
      var i := 0;
      assert openset[..] == ScanFlags(cells, 0);
      while i < N()
        invariant 0 <= i <= N()
        invariant start == LastIndexOf(cells[..i], START) && goal == LastIndexOf(cells[..i], GOAL)
        invariant forall c :: 0 <= c < i ==>
          came_from[c] == NOT_SET && g_score[c] == INF && f_score[c] == INF
        invariant openset[..] == ScanFlags(cells, i)
        invariant queue.nodes == StartNodes(cells[..i])
      {
        StartNodesNext(cells, i);
        ScanCell(i);
        i := i + 1;
      }
      assert cells[..i] == cells;
    }

    /** One step of init_map's scan (a-star.c:101-113): cell `i` gets no
        predecessor and infinite scores; a GOAL cell becomes the goal, and a
        START cell becomes the start, is queued with priority 0 and is
        flagged IN_OPENSET. */
    method ScanCell(i: int)
      requires Shape() && 0 <= i < N() && |queue.nodes| < queue.size
      modifies this, queue, came_from, g_score, f_score, openset
      ensures came_from[..] == old(came_from[..])[i := NOT_SET]
      ensures g_score[..] == old(g_score[..])[i := INF]
      ensures f_score[..] == old(f_score[..])[i := INF]
      ensures goal == (if graph[i] == GOAL then i else old(goal))
      ensures start == (if graph[i] == START then i else old(start))
      ensures openset[..] == (if graph[i] == START then old(openset[..])[i := IN_OPENSET] else old(openset[..]))
      ensures queue.nodes == (if graph[i] == START then old(queue.nodes) + [HeapNode(0, i)] else old(queue.nodes))
    {
      came_from[i] := NOT_SET;
      g_score[i] := INF;
      f_score[i] := INF;
      if graph[i] == GOAL {
        goal := i;
      } else if graph[i] == START {
        start := i;
        queue.Push(0, i);
        openset[i] := IN_OPENSET;
      }
    }

    /** a_star's search (a-star.c:31-62): start gets g-score 0, then cells
        are popped in order of f-score and expanded until the goal is popped
        or the queue runs empty.  The loop terminates.  When the goal is
        found, came_from leads back from it to a START cell along a route
        through the map that visits no cell twice and costs at most the
        goal's g-score; when it is not, no route from any START cell reaches
        the goal. */
    method Search() returns (found: bool, ghost path: seq<int>)
      requires Shape() && Endpoints() && NoNul() && Initialized()
      modifies queue, came_from, g_score, f_score, openset, closedset
      ensures found ==> ChainToStart(T(), size, goal, path)
      ensures !found ==> queue.Len() == 0 && Unreachable(T(), size, goal)
    {
      SetStart();
      Begin();
      while queue.Len() > 0
        invariant Searching(NOT_SET, NOT_SET)
        decreases Unvisited(), Score(), queue.Len()
      {
        var current := Next();
        if current == goal {
          path := FoundChain();
          return true, path;
        }
        Expand(current);
      }
      Exhausted();
      return false, [];
    }

    /** a-star.c:35: pop takes the queued cell of least f-score; its open
        flag stays set until it is closed. */
    method Next() returns (current: int)
      requires Shape() && Searching(NOT_SET, NOT_SET) && queue.Len() > 0
      modifies queue
      ensures Searching(current, NOT_SET) && InGrid(current, size)
      ensures T() == old(T()) && queue.Len() == old(queue.Len()) - 1
      ensures exists at ::
        && IsLeast(old(queue.nodes), at) && current == old(queue.nodes)[at].data
        && queue.nodes == old(queue.nodes)[..at] + old(queue.nodes)[at + 1..]
    {
      ghost var at;
      ghost var nodes := queue.nodes;
      current, at := queue.Pop();
      MirrorsPop(nodes, openset[..], at);
    }

    /** When the goal has just been popped, came_from leads back from it to a
        START cell (see Frontier.GoalChain). */
    lemma FoundChain() returns (path: seq<int>)
      requires Shape() && Searching(goal, NOT_SET)
      ensures ChainToStart(T(), size, goal, path)
    {
      path := GoalChain(T(), size, start, goal);
    }

    /** When the queue has run empty, no route from a START cell reaches the
        goal (see Frontier.NoRoute). */
    lemma Exhausted()
      requires Shape() && Searching(NOT_SET, NOT_SET) && queue.Len() == 0
      ensures Unreachable(T(), size, goal)
    {
      NoRoute(T(), size, start, goal);
    }

    /** a-star.c:31-32: start gets g-score 0 and its heuristic as f-score. */
    method SetStart()
      requires Shape() && InGrid(start, size)
      modifies g_score, f_score
      ensures g_score[..] == old(g_score[..])[start := 0]
      ensures f_score[..] == old(f_score[..])[start := HCost(start, goal, size)]
    {
      g_score[start] := 0;
      f_score[start] := HCost(start, goal, size);
    }

    /** The tables as init_map and SetStart leave them: no predecessors,
        nothing closed, the START cells open and queued, and g-scores that
        are never negative and 0 at start. */
    ghost predicate Ready()
      reads this, queue, graph, came_from, g_score, closedset, openset
      requires Shape() && InGrid(start, size)
    {
      && (forall c :: 0 <= c < N() ==>
            came_from[c] == NOT_SET && g_score[c] >= 0 && closedset[c] == OPEN)
      && (forall c :: 0 <= c < N() ==>
            openset[c] == (if graph[c] == START then IN_OPENSET else NOT_IN_OPENSET))
      && g_score[start] == 0
      && queue.nodes == StartNodes(graph[..])
    }

    /** From the tables as set up, the invariant of a_star's loop holds. */
    lemma Begin()
      requires Shape() && Endpoints() && NoNul() && Ready()
      ensures Searching(NOT_SET, NOT_SET)
    {
      InitialInv(T(), size, start, goal);
      StartNodesCells(graph[..]);
      var cells := Cells(queue.nodes);
      forall k | 0 <= k < |cells| ensures 0 <= cells[k] < N() {
        assert cells[k] in cells;
      }
    }

    /** The expansion in a_star's loop body after pop (a-star.c:40-61):
        `current` leaves the open set for the closed set and each of its four
        neighbour slots is relaxed.  The tables become Frontier.Expanded of
        the old ones, the f-scores and the queue change as the four passes
        change them, the invariant holds again, and the measure has not
        risen. */
    method Expand(current: int)
      requires Shape() && Searching(current, NOT_SET) && InGrid(current, size) && current != goal
      modifies came_from, g_score, f_score, openset, closedset, queue
      ensures Searching(NOT_SET, NOT_SET)
      ensures T() == Expanded(old(T()), size, current)
      ensures closedset[..] == old(closedset[..])[current := CLOSED]
      ensures f_score[..] == RescoredSlots(Closed(old(T()), size, current), old(f_score[..]), size, current, goal, 4)
      ensures queue.nodes == old(queue.nodes) + Pushed(Closed(old(T()), size, current), size, current, goal, 4)
      ensures LexLeq(Unvisited(), Score(), queue.Len(),
                     old(Unvisited()), old(Score()), old(queue.Len()))
    {
      CloseKeeps(T(), size, start, goal, current);
      Close(current);
      RelaxAll(current);
      ExpandComplete(T(), size, start, goal, current);
    }

    /** The inner loop of a_star (a-star.c:43-61) over the four neighbour
        slots of the cell `current` just closed: the tables, the f-scores
        and the queue are those the four passes leave in slot order; the
        invariant holds with every slot dealt with, and the measure has not
        risen (see Frontier.RelaxedSlotsKeep). */
    method RelaxAll(current: int)
      requires Shape() && Searching(NOT_SET, current) && InGrid(current, size) && closedset[current] == CLOSED
      modifies came_from, g_score, f_score, openset, queue
      ensures Searching(NOT_SET, current) && SlotsDone(T(), size, current, 4) && closedset[current] == CLOSED
      ensures T() == RelaxedSlots(old(T()), size, current, 4)
      ensures f_score[..] == RescoredSlots(old(T()), old(f_score[..]), size, current, goal, 4)
      ensures queue.nodes == old(queue.nodes) + Pushed(old(T()), size, current, goal, 4)
      ensures LexLeq(Unvisited(), Score(), queue.Len(),
                     old(Unvisited()), old(Score()), old(queue.Len()))
    {
      ghost var t0, q0 := T(), queue.nodes;
      RelaxSlots(current);
      Relaxed4(t0, |q0|, current);
    }

    /** The loop itself: the tables, the f-scores and the queue become those
        the four passes leave in slot order, and the flags keep mirroring
        the queue. */
    method RelaxSlots(current: int)
      requires Shape() && InGrid(current, size) && InGrid(goal, size)
      requires Mirrors(Cells(queue.nodes), openset[..], NOT_SET)
      modifies came_from, g_score, f_score, openset, queue
      ensures Mirrors(Cells(queue.nodes), openset[..], NOT_SET)
      ensures T() == RelaxedSlots(old(T()), size, current, 4)
      ensures f_score[..] == RescoredSlots(old(T()), old(f_score[..]), size, current, goal, 4)
      ensures queue.nodes == old(queue.nodes) + Pushed(old(T()), size, current, goal, 4)
    {
      ghost var t0, f0, q0 := T(), f_score[..], queue.nodes;
      var neighbor := NeighborNodes(current, size);
      for i := 0 to 4
        modifies came_from, g_score, f_score, openset, queue
        invariant Mirrors(Cells(queue.nodes), openset[..], NOT_SET)
        invariant T() == RelaxedSlots(t0, size, current, i)
        invariant f_score[..] == RescoredSlots(t0, f0, size, current, goal, i)
        invariant queue.nodes == q0 + Pushed(t0, size, current, goal, i)
      {
        RelaxedSlotsNext(t0, f0, size, current, goal, i);
        PushedNext(t0, size, current, goal, i);
        ghost var t := T();
        Relax(current, neighbor[i]);
        AppendAssoc(q0, Pushed(t0, size, current, goal, i), PushedAt(t, size, current, neighbor[i], goal));
      }
    }

    /** Once the four passes have turned the tables `t` into RelaxedSlots
        of them, the invariant of the search holds with every slot dealt
        with, and the measure is no higher than with `t` and a queue of
        `len` entries. */
    lemma Relaxed4(t: Tables, len: nat, current: int)
      requires Shape() && SearchInv(t, size, start, goal, current) && InGrid(current, size) && t.closed[current]
      requires Mirrors(Cells(queue.nodes), openset[..], NOT_SET) && T() == RelaxedSlots(t, size, current, 4)
      requires queue.Len() == len + |Joined(t, size, current, 4)|
      ensures Searching(NOT_SET, current) && SlotsDone(T(), size, current, 4) && closedset[current] == CLOSED
      ensures LexLeq(Unvisited(), Score(), queue.Len(), Unseen(Seen(t)), SeenScore(Seen(t), t.g), len)
    {
      RelaxedSlotsKeep(t, size, start, goal, current, 4);
    }

    /** a-star.c:40-41: `current` leaves the open set for the closed set. */
    method Close(current: int)
      requires Shape() && InGrid(current, size) && Mirrors(Cells(queue.nodes), openset[..], current)
      modifies openset, closedset
      ensures Mirrors(Cells(queue.nodes), openset[..], NOT_SET)
      ensures openset[..] == old(openset[..])[current := NOT_IN_OPENSET]
      ensures closedset[..] == old(closedset[..])[current := CLOSED]
      ensures T() == Closed(old(T()), size, current)
    {
      ghost var t := T();
      openset[current] := NOT_IN_OPENSET;
      closedset[current] := CLOSED;
      assert Flags(openset[..], IN_OPENSET) == t.open[current := false];
      assert Flags(closedset[..], CLOSED) == t.closed[current := true];
    }

    /** One pass of the inner loop of a_star (a-star.c:45-60) for the
        neighbour slot holding `nb`: when the test passes (see
        Frontier.Improves), `nb` gets `current` as predecessor, the new
        scores and a place in the open set, and is queued if it was not open;
        otherwise nothing changes (see Frontier.Relaxed and Rescored, and
        PushedAt).  The open flags still mirror the queue. */
    method Relax(current: int, nb: int)
      requires Shape() && InGrid(current, size) && InGrid(goal, size) && (nb == OUT_OF_BOUNDS || InGrid(nb, size))
      requires Mirrors(Cells(queue.nodes), openset[..], NOT_SET)
      modifies came_from, g_score, f_score, openset, queue
      ensures Mirrors(Cells(queue.nodes), openset[..], NOT_SET)
      ensures T() == Relaxed(old(T()), size, current, nb)
      ensures f_score[..] == Rescored(old(T()), old(f_score[..]), size, current, nb, goal)
      ensures queue.nodes == old(queue.nodes) + PushedAt(old(T()), size, current, nb, goal)
    {
      if nb != OUT_OF_BOUNDS && graph[nb] != WALL {
        var tentative_g_score := g_score[current] + graph[nb] as int;
        if && !(closedset[nb] == CLOSED && tentative_g_score >= g_score[nb])
           && (openset[nb] == NOT_IN_OPENSET || tentative_g_score < g_score[nb])
        {
          assert Improves(T(), size, current, nb);
          Update(current, nb, tentative_g_score);
          return;
        }
      }
      assert !Improves(T(), size, current, nb);
      assert Rescored(T(), f_score[..], size, current, nb, goal) == f_score[..];
    }

    /** What the body of the test at a-star.c:52-60 writes: `nb` gets
        `current` as predecessor, g-score `tentative_g_score` and the matching
        f-score, and is queued and flagged IN_OPENSET if it was not open. */
    method Update(current: int, nb: int, tentative_g_score: int)
      requires Shape() && InGrid(current, size) && InGrid(nb, size) && InGrid(goal, size)
      requires Mirrors(Cells(queue.nodes), openset[..], NOT_SET)
      requires tentative_g_score == g_score[current] + graph[nb] as int && Improves(T(), size, current, nb)
      modifies came_from, g_score, f_score, openset, queue
      ensures Mirrors(Cells(queue.nodes), openset[..], NOT_SET)
      ensures T() == Improved(old(T()), size, current, nb)
      ensures f_score[..] == old(f_score[..])[nb := tentative_g_score + HCost(nb, goal, size)]
      ensures queue.nodes == (if old(openset[nb]) == NOT_IN_OPENSET
                              then old(queue.nodes) + [HeapNode(f_score[nb], nb)] else old(queue.nodes))
      ensures queue.nodes == old(queue.nodes) + PushedAt(old(T()), size, current, nb, goal)
      ensures f_score[..] == Rescored(old(T()), old(f_score[..]), size, current, nb, goal)
    {
      ghost var t := T();
      ghost var newF := tentative_g_score + HCost(nb, goal, size);
      assert t.g[current] + t.cost[nb] == tentative_g_score;
      assert t.open[nb] <==> openset[nb] != NOT_IN_OPENSET;
      assert Rescored(t, f_score[..], size, current, nb, goal) == f_score[..][nb := newF];
      assert PushedAt(t, size, current, nb, goal) ==
        (if openset[nb] == NOT_IN_OPENSET then [HeapNode(newF, nb)] else []);
      Record(current, nb, tentative_g_score);
      Admit(nb);
    }

    /** a-star.c:53-55: `nb` gets `current` as predecessor, g-score
        `tentative_g_score` and the matching f-score. */
    method Record(current: int, nb: int, tentative_g_score: int)
      requires Shape() && InGrid(nb, size) && InGrid(goal, size)
      modifies came_from, g_score, f_score
      ensures came_from[..] == old(came_from[..])[nb := current]
      ensures g_score[..] == old(g_score[..])[nb := tentative_g_score]
      ensures f_score[..] == old(f_score[..])[nb := tentative_g_score + HCost(nb, goal, size)]
    {
      came_from[nb] := current;
      g_score[nb] := tentative_g_score;
      f_score[nb] := g_score[nb] + HCost(nb, goal, size);
    }

    /** a-star.c:56-59: `nb` ends up flagged IN_OPENSET, and it is queued
        with its f-score exactly when it was not flagged before. */
    method Admit(nb: int)
      requires Shape() && InGrid(nb, size)
      requires Mirrors(Cells(queue.nodes), openset[..], NOT_SET)
      modifies openset, queue
      ensures Mirrors(Cells(queue.nodes), openset[..], NOT_SET)
      ensures Flags(openset[..], IN_OPENSET) == Flags(old(openset[..]), IN_OPENSET)[nb := true]
      ensures queue.nodes ==
        old(queue.nodes) + (if old(openset[nb]) == NOT_IN_OPENSET then [HeapNode(f_score[nb], nb)] else [])
    {
      if openset[nb] == NOT_IN_OPENSET {
        Enqueue(nb);
      } else {
        assert queue.nodes + [] == queue.nodes;
      }
    }

    /** a-star.c:56-59: queue `nb` with its f-score and flag it IN_OPENSET;
        the queue has room because the flags mirror it. */
    method Enqueue(nb: int)
      requires Shape() && InGrid(nb, size) && openset[nb] != IN_OPENSET
      requires Mirrors(Cells(queue.nodes), openset[..], NOT_SET)
      modifies openset, queue
      ensures Mirrors(Cells(queue.nodes), openset[..], NOT_SET)
      ensures openset[..] == old(openset[..])[nb := IN_OPENSET]
      ensures queue.nodes == old(queue.nodes) + [HeapNode(f_score[nb], nb)]
    {
      MirrorsPush(Cells(queue.nodes), openset[..], nb);
      assert Cells(queue.nodes + [HeapNode(f_score[nb], nb)]) == Cells(queue.nodes) + [nb];
      queue.Push(f_score[nb], nb);
      openset[nb] := IN_OPENSET;
    }

    /** reconstruct_path (a-star.c:211-221): walks came_from back from the
        goal to the cell that has no predecessor, adding up the cost of every
        cell but that last one and marking every cell strictly between the
        two with PATH. */
    method ReconstructPath(ghost path: seq<int>) returns (sum: int)
      requires Shape() && InGrid(goal, size)
      requires IsChain(came_from[..], path) && |path| >= 2 && path[0] == goal
      modifies graph
      ensures sum == ChainCost(Costs(old(graph[..])), path)
      ensures graph[..] == Marked(old(graph[..]), path)
    {
      ChainDistinct(came_from[..], path);
      ghost var cost := Costs(graph[..]);
      sum := 0;
      sum := sum + graph[goal] as int;
      var current_node := came_from[goal];
      ghost var k := 1;
      while came_from[current_node] != NOT_SET
        invariant 1 <= k < |path| && current_node == path[k]
        invariant sum + ChainCost(cost, path[k..]) == ChainCost(cost, path)
        invariant forall c :: 0 <= c < N() ==> graph[c] == (if c in path[1..k] then PATH else old(graph[c]))
        decreases |path| - k
      {
        assert k < |path| - 1;
        assert path[k..][1..] == path[k + 1..];
        assert path[k] !in path[1..k];
        sum := sum + graph[current_node] as int;
        graph[current_node] := PATH;
        current_node := came_from[current_node];
        k := k + 1;
        assert path[1..k] == path[1..k - 1] + [path[k - 1]];
      }
    }
  }

  /** The scan of init_map as written runs one step further than the
      corrected Map.Scan: its guard admits i = size*size, one past the last
      entry of came_from, g_score and f_score (size*size entries each,
      a-star.c:137-152), which the scan then writes. */
  lemma ScanAsWrittenOverruns(m: Map)
    requires m.Shape()
    ensures ScanGuardAsWritten(m.N(), m.size)
    ensures m.came_from.Length == m.N() && m.g_score.Length == m.N() && m.f_score.Length == m.N()
  {
  }

  /** init_map (a-star.c:69-121) once the side and the cell line are read:
      a side outside [MIN_SIZE, MAX_SIZE] is rejected, the tables are
      allocated and scanned, and the map is rejected unless it has a START
      and a GOAL cell.  (The start == goal test can never fire once both are
      set: the two cells hold different bytes.) */
  method InitMap(size: int, cells: seq<char>) returns (r: Result<Map>)
    requires MIN_SIZE <= size <= MAX_SIZE ==> |cells| == size * size
    ensures !(MIN_SIZE <= size <= MAX_SIZE) ==> r == Err(InputErr)
    ensures MIN_SIZE <= size <= MAX_SIZE ==> (r.Err? <==> START !in cells || GOAL !in cells)
    ensures r.Err? ==> r.error == InputErr
    ensures r.Ok? ==>
      var m := r.value;
      && fresh(m) && fresh(m.queue) && fresh(m.graph) && fresh(m.came_from) && fresh(m.g_score)
      && fresh(m.f_score) && fresh(m.closedset) && fresh(m.openset)
      && m.size == size && m.Shape() && m.graph[..] == cells
      && m.start == LastIndexOf(cells, START) && m.goal == LastIndexOf(cells, GOAL)
      && m.Endpoints() && m.Initialized()
  {
    if size < MIN_SIZE || size > MAX_SIZE {
      return Err(InputErr);
    }
    var m := new Map(size, cells);
    m.Scan();
    if m.start == NOT_SET || m.goal == NOT_SET || m.start == m.goal {
      return Err(InputErr);
    }
    return Ok(m);
  }

  /** The route a_star reports when it finds the goal: it runs from the goal
      back to a START cell through passable neighbouring cells and visits no
      cell twice. */
  predicate FoundRoute(cells: seq<char>, size: int, path: seq<int>)
    requires size > 0 && |cells| == size * size
  {
    && IsRoute(Passable(cells), size, path) && |path| >= 2 && Distinct(path)
    && path[0] == LastIndexOf(cells, GOAL) && cells[path[|path| - 1]] == START
  }

  /** No route through passable neighbouring cells leads from a START cell to the goal. */
  ghost predicate NoRouteToGoal(cells: seq<char>, size: int)
    requires size > 0 && |cells| == size * size
  {
    forall p :: IsRoute(Passable(cells), size, p) && p[0] == LastIndexOf(cells, GOAL) ==>
      cells[p[|p| - 1]] != START
  }

  /** A chain the search reports on the tables of the map `cells` is a
      route from the goal back to a START cell. */
  lemma ReportedRoute(t: Tables, cells: seq<char>, size: int, path: seq<int>)
    requires size > 0 && |cells| == size * size && Sized(t, size)
    requires t.passable == Passable(cells) && t.isStart == Flags(cells, START)
    requires ChainToStart(t, size, LastIndexOf(cells, GOAL), path)
    ensures FoundRoute(cells, size, path)
  {
  }

  /** No route on the tables of the map `cells` is no route in the map. */
  lemma ReportedNoRoute(t: Tables, cells: seq<char>, size: int)
    requires size > 0 && |cells| == size * size && Sized(t, size)
    requires t.passable == Passable(cells) && t.isStart == Flags(cells, START)
    requires Unreachable(t, size, LastIndexOf(cells, GOAL))
    ensures NoRouteToGoal(cells, size)
  {
  }

  /** a_star (a-star.c:23-64) with write_map's choice of result
      (a-star.c:250-267), on the side `size` and the cell line `cells` read
      from the input file.  It rejects a bad side or a map without START or
      GOAL; otherwise it always terminates, and either reports a route from
      the goal back to a START cell, with its cost and the map with the route
      marked, or reports the map unchanged when no START cell can reach the
      goal at all. */
  method Run(size: int, cells: seq<char>) returns (r: Outcome)
    requires MIN_SIZE <= size <= MAX_SIZE ==> |cells| == size * size && NUL !in cells
    ensures !(MIN_SIZE <= size <= MAX_SIZE) ==> r == Failed(InputErr)
    ensures MIN_SIZE <= size <= MAX_SIZE ==> (r.Failed? <==> START !in cells || GOAL !in cells)
    ensures r.GoalFound? ==>
      && MIN_SIZE <= size <= MAX_SIZE
      && exists path :: FoundRoute(cells, size, path)
           && r.cost == ChainCost(Costs(cells), path) && r.graph == Marked(cells, path)
    ensures r.GoalNotFound? ==>
      MIN_SIZE <= size <= MAX_SIZE && r.graph == cells && NoRouteToGoal(cells, size)
  {
    var init := InitMap(size, cells);
    if init.Err? {
      return Failed(init.error);
    }
    var m := init.value;
    var found, path := m.Search();
    if found {
      ReportedRoute(m.T(), cells, size, path);
      var cost := m.ReconstructPath(path);
      return GoalFound(cost, m.graph[..]);
    }
    ReportedNoRoute(m.T(), cells, size);
    return GoalNotFound(m.graph[..]);
  }
}

