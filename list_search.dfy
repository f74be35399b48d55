/** The linked-list engine of a-star.h: the character-to-cost table
    dist_between, load's filter of the map file, lowest_f_score's scan of the
    open list, the recursive reconstruct_path, and the a_star search loop,
    which re-opens closed cells that a cheaper path reaches. */
module ListSearch {
  import opened Grid
  import opened Sums
  import opened Chains
  import opened Frontier

  /** The cost of a cell that should not be entered (a-star.h:5). */
  const INFINITY: int := 10000
  /** The scores load gives every cell before the search (a-star.h:147-148). */
  const UNSET_SCORE: int := 10000000
  /** Values of the closed-set flags; calloc's zero fill means OPEN (a-star.h:9-12). */
  const OPEN: int := 0
  const CLOSED: int := 1
  const GOAL: char := 'X'
  const START: char := 'O'
  const WALL: char := '#'
  const PATH: char := '*'

  /** What a_star produces: the cost written to the output file and the map
      written after it, or nothing when the open list runs empty. */
  datatype Outcome = Found(cost: int, mapOut: seq<char>) | NotFound

  /** dist_between: the cost of entering a cell.  Only GOAL, 'V' and 'W'
      cells cost less than INFINITY; a wall or a START cell costs INFINITY,
      so a-star.h never refuses a cell, it only avoids it. */
  function DistBetween(weight: char): (d: int)
    ensures 1 <= d <= INFINITY
    ensures d == 1 <==> weight == GOAL || weight == 'V'
    ensures d == 2 <==> weight == 'W'
    ensures d < INFINITY <==> weight == GOAL || weight == 'V' || weight == 'W'
  {
    match weight
    case 'X' => 1
    case 'V' => 1
    case 'W' => 2
    case _ => INFINITY
  }

  /** The bytes load keeps: the map alphabet. */
  predicate Accepted(c: char) {
    c == GOAL || c == START || c == 'V' || c == 'W' || c == WALL
  }

  /** The cells load stores, in order: the accepted bytes of the input. */
  function Filter(s: seq<char>): (r: seq<char>)
    ensures |r| <= |s|
    ensures forall k :: 0 <= k < |r| ==> Accepted(r[k])
  {
    if s == [] then []
    else Filter(s[..|s| - 1]) + (if Accepted(s[|s| - 1]) then [s[|s| - 1]] else [])
  }

  /** Filtering one more byte appends it when it is accepted. */
  lemma FilterNext(s: seq<char>, j: int)
    requires 0 <= j < |s|
    ensures Filter(s[..j + 1]) == Filter(s[..j]) + (if Accepted(s[j]) then [s[j]] else [])
  {
    assert s[..j + 1][..j] == s[..j];
  }

  /** A prefix of the input holds no more cells than the whole input. */
  lemma FilterPrefix(s: seq<char>, j: int)
    requires 0 <= j <= |s|
    ensures |Filter(s[..j])| <= |Filter(s)|
  {
    FilterAppend(s[..j], s[j..]);
    assert s[..j] + s[j..] == s;
  }

  /** Filtering works piece by piece. */
  lemma {:induction false} FilterAppend(a: seq<char>, b: seq<char>)
    ensures Filter(a + b) == Filter(a) + Filter(b)
    decreases |b|
  {
    if b == [] {
      assert a + b == a;
    } else {
      var front := b[..|b| - 1];
      assert (a + b)[..|a + b| - 1] == a + front;
      FilterAppend(a, front);
    }
  }

  /** Input made only of accepted bytes is stored unchanged. */
  lemma {:induction false} FilterAccepted(s: seq<char>)
    requires forall k :: 0 <= k < |s| ==> Accepted(s[k])
    ensures Filter(s) == s
  {
    if s != [] {
      FilterAccepted(s[..|s| - 1]);
    }
  }

  /** Filtering twice is filtering once. */
  lemma FilterIdempotent(s: seq<char>)
    ensures Filter(Filter(s)) == Filter(s)
  {
    FilterAccepted(Filter(s));
  }

  /** The stored cells hold exactly the accepted bytes of the input. */
  lemma {:induction false} FilterContents(s: seq<char>, c: char)
    ensures c in Filter(s) <==> c in s && Accepted(c)
  {
    if s != [] {
      var front := s[..|s| - 1];
      FilterContents(front, c);
      assert s == front + [s[|s| - 1]];
    }
  }

  /** The open list load builds: addHead puts every START cell in front, so
      the list holds the START cells in decreasing order. */
  function StartList(cells: seq<char>): (r: seq<int>)
    ensures |r| <= |cells|
  {
    if cells == [] then []
    else if cells[|cells| - 1] == START then [|cells| - 1] + StartList(cells[..|cells| - 1])
    else StartList(cells[..|cells| - 1])
  }

  /** load's open list holds each START cell once and nothing else. */
  lemma {:induction false} StartListCells(cells: seq<char>)
    ensures Distinct(StartList(cells))
    ensures forall c :: c in StartList(cells) <==> 0 <= c < |cells| && cells[c] == START
  {
    if cells != [] {
      var front := cells[..|cells| - 1];
      StartListCells(front);
      forall c ensures c in StartList(front) <==> 0 <= c < |cells| - 1 && cells[c] == START {
        if 0 <= c < |front| { assert front[c] == cells[c]; }
      }
      if cells[|cells| - 1] == START {
        var rest := StartList(front);
        assert |cells| - 1 !in rest;
        var r := [|cells| - 1] + rest;
        forall i, j | 0 <= i < j < |r| ensures r[i] != r[j] {
          if i > 0 { assert r[i] == rest[i - 1]; }
          else { assert rest[j - 1] in rest; }
        }
      }
    }
  }

  /** Storing one more cell extends the open list, goal and start as load does. */
  lemma LoadNext(cells: seq<char>, x: char)
    ensures StartList(cells + [x]) == (if x == START then [|cells|] + StartList(cells) else StartList(cells))
    ensures LastIndexOf(cells + [x], GOAL) == (if x == GOAL then |cells| else LastIndexOf(cells, GOAL))
    ensures LastIndexOf(cells + [x], START) == (if x == START then |cells| else LastIndexOf(cells, START))
  {
    var s := cells + [x];
    assert s[..|cells|] == cells && s[|cells|] == x;
  }

  /** Where load as written stores the j-th byte it reads (a-star.h:142):
      fscanf writes every byte into map_in[i] before the test, and i has
      only counted the accepted bytes before it. */
  function LoadSlotAsWritten(input: seq<char>, j: int): (i: int)
    requires 0 <= j <= |input|
    ensures 0 <= i <= j
  {
    |Filter(input[..j])|
  }

  /** A map file whose n*n cells are followed by a newline, as a text file
      ends: load as written stores that newline in map_in[n*n], one past the
      n*n bytes malloc gave map_in (a-star.h:73). */
  lemma LoadAsWrittenOverruns(n: int, cells: seq<char>)
    requires n > 0 && |cells| == n * n && forall k :: 0 <= k < |cells| ==> Accepted(cells[k])
    ensures LoadSlotAsWritten(cells + ['\n'], |cells|) == n * n
  {
    assert (cells + ['\n'])[..|cells|] == cells;
    FilterAccepted(cells);
  }

  /** neighbor_nodes as a-star.h:206-227 writes it: every slot is tested
      against the ends of the whole map, none against the row, and the tests
      are off by one row or one cell.  Every slot that is not OUT_OF_BOUNDS
      is at most n*n (which is one past the last cell), and lies outside row
      0, except the right slot, which is the next cell. */
  function NeighborNodesAsWritten(current: int, n: int): (r: seq<int>)
    requires n > 0 && InGrid(current, n)
    ensures |r| == 4
    ensures forall k :: 0 <= k < 4 && r[k] != OUT_OF_BOUNDS ==>
      r[k] <= n * n && (r[k] >= n || (k == 2 && r[k] == current + 1))
  {
    [ if current - n >= n then current - n else OUT_OF_BOUNDS,
      if current - 1 >= n then current - 1 else OUT_OF_BOUNDS,
      if current + 1 <= n * n then current + 1 else OUT_OF_BOUNDS,
      if current + n <= n * n then current + n else OUT_OF_BOUNDS ]
  }

  /** One step of neighbor_nodes as written: from a cell of the map to one
      of its slots that is not OUT_OF_BOUNDS. */
  predicate StepAsWritten(n: int, from: int, to: int)
    requires n > 0
  {
    InGrid(from, n) && to != OUT_OF_BOUNDS && to in NeighborNodesAsWritten(from, n)
  }

  /** A walk along neighbor_nodes as written.  Every cell the search as
      written puts on its open list is the end of such a walk from a START
      cell. */
  predicate IsWalkAsWritten(n: int, p: seq<int>)
    requires n > 0
  {
    && |p| >= 1
    && (|p| == 1 || (StepAsWritten(n, p[|p| - 2], p[|p| - 1]) && IsWalkAsWritten(n, p[..|p| - 1])))
  }

  /** neighbor_nodes as written never yields a cell of row 0 for a cell
      outside row 0, so a walk that starts below row 0 never enters it: the
      search as written cannot reach a GOAL cell in row 0 from START cells
      that all lie below it. */
  lemma {:induction false} WalkAsWrittenAvoidsRowZero(n: int, p: seq<int>)
    requires n > 0 && IsWalkAsWritten(n, p) && p[0] >= n
    ensures forall i :: 0 <= i < |p| ==> p[i] >= n
  {
    if |p| > 1 {
      var front := p[..|p| - 1];
      WalkAsWrittenAvoidsRowZero(n, front);
      assert p[|p| - 2] == front[|front| - 1];
      var r := NeighborNodesAsWritten(p[|p| - 2], n);
      var k :| 0 <= k < 4 && r[k] == p[|p| - 1];
      forall i | 0 <= i < |p| ensures p[i] >= n {
        if i < |front| {
          assert p[i] == front[i];
        }
      }
    }
  }

  /** On a 4×4 map, cell 1 lies directly above cell 5, yet no walk along
      neighbor_nodes as written leads from cell 5 to cell 1: with GOAL at
      cell 1 and the only START at cell 5, the search as written never
      takes the goal, though Grid.NeighborNodes joins the two cells in one
      step. */
  lemma RowZeroGoalAsWritten()
    ensures Adjacent(5, 1, 4)
    ensures forall p :: IsWalkAsWritten(4, p) && p[0] == 5 ==> p[|p| - 1] != 1
  {
    assert NeighborNodes(5, 4)[0] == 1;
    forall p | IsWalkAsWritten(4, p) && p[0] == 5 ensures p[|p| - 1] != 1 {
      WalkAsWrittenAvoidsRowZero(4, p);
    }
  }

  /** The right slot of the last cell and the down slot of the first cell of
      the last row are n*n, an index past the end of every table. */
  lemma NeighborsAsWrittenLeaveMap(n: int)
    requires n > 0
    ensures NeighborNodesAsWritten(n * n - 1, n)[2] == n * n
    ensures NeighborNodesAsWritten(n * n - n, n)[3] == n * n
    ensures !InGrid(n * n, n)
  {
  }

  /** The left slot of the first cell of row 2 is the last cell of row 1,
      which is not one of its neighbours. */
  lemma NeighborsAsWrittenWrap(n: int)
    requires n >= 3
    ensures NeighborNodesAsWritten(2 * n, n)[1] == 2 * n - 1
    ensures !Adjacent(2 * n, 2 * n - 1, n)
  {
    AdjacentIffOneStep(2 * n, 2 * n - 1, n);
    DivModUnique(2 * n, n, 2, 0);
    DivModUnique(2 * n - 1, n, 1, n - 1);
  }

  /** The cell above a cell of row 1 and the cell left of a cell of row 0 are
      never yielded, though they are neighbours. */
  lemma NeighborsAsWrittenMiss(n: int)
    requires n >= 2
    ensures NeighborNodesAsWritten(n, n)[0] == OUT_OF_BOUNDS && Adjacent(n, 0, n)
    ensures NeighborNodesAsWritten(1, n)[1] == OUT_OF_BOUNDS && Adjacent(1, 0, n)
  {
    NeighborSlots(n, n);
    DivModUnique(n, n, 1, 0);
    NeighborSlots(1, n);
    DivModUnique(1, n, 0, 1);
  }

  /** Cost of entering each cell (a-star.h:114). */
  function DistCosts(cells: seq<char>): (r: seq<int>)
    ensures |r| == |cells|
    ensures forall c :: 0 <= c < |cells| ==> r[c] >= 1
  {
    seq(|cells|, c requires 0 <= c < |cells| => DistBetween(cells[c]))
  }

  /** In a-star.h every cell may be entered. */
  function Enterable(cells: seq<char>): (r: seq<bool>)
    ensures |r| == |cells| && forall c :: 0 <= c < |cells| ==> r[c]
  {
    seq(|cells|, c requires 0 <= c < |cells| => true)
  }

  /** The cells of the map that are on the open list. */
  function OnList(openset: seq<int>, m: nat): (r: seq<bool>)
    ensures |r| == m
  {
    seq(m, c requires 0 <= c < m => c in openset)
  }

  /** removeNode of list.h, whose body is not part of this model: the list
      without its first node holding `x`. */
  function Remove(s: seq<int>, x: int): (r: seq<int>)
    ensures |r| == (if x in s then |s| - 1 else |s|)
    ensures forall y :: y in r ==> y in s
    ensures multiset(r) == multiset(s) - multiset{x}
  {
    assert s != [] ==> s == [s[0]] + s[1..];
    if s == [] then []
    else if s[0] == x then s[1..]
    else [s[0]] + Remove(s[1..], x)
  }

  /** On a list of distinct cells, removeNode takes out exactly `x`. */
  lemma {:induction false} RemoveDistinct(s: seq<int>, x: int)
    requires Distinct(s)
    ensures Distinct(Remove(s, x))
    ensures forall y :: y in Remove(s, x) <==> y in s && y != x
  {
    if s != [] && s[0] != x {
      RemoveDistinct(s[1..], x);
      assert s == [s[0]] + s[1..];
      assert s[0] !in s[1..];
    }
  }

  /** The open list holds distinct cells of the map. */
  predicate OpenList(openset: seq<int>, n: int) {
    && Distinct(openset)
    && forall k :: 0 <= k < |openset| ==> InGrid(openset[k], n)
  }

  /** Position `k` of `list` holds a cell of least f-score, and every cell
      before it has a strictly greater one: the first cell of least f-score. */
  predicate FirstLowest(list: seq<int>, f: seq<int>, k: int)
    requires forall j :: 0 <= j < |list| ==> 0 <= list[j] < |f|
  {
    && 0 <= k < |list|
    && (forall j :: 0 <= j < |list| ==> f[list[k]] <= f[list[j]])
    && (forall j :: 0 <= j < k ==> f[list[j]] > f[list[k]])
  }

  /** At most one position is the first of least f-score. */
  lemma FirstLowestUnique(list: seq<int>, f: seq<int>, k: int, k': int)
    requires forall j :: 0 <= j < |list| ==> 0 <= list[j] < |f|
    requires FirstLowest(list, f, k) && FirstLowest(list, f, k')
    ensures k == k'
  {
    assert f[list[k]] <= f[list[k']] && f[list[k']] <= f[list[k]];
  }

  /** lowest_f_score (a-star.h:247-258): on a non-empty open list, the first
      cell in list order whose f-score is least; the strict `<` keeps the
      earlier cell on a tie. */
  method LowestFScore(openset: seq<int>, f_score: array<int>) returns (lowest: int, ghost at: int)
    requires openset != []
    requires forall j :: 0 <= j < |openset| ==> 0 <= openset[j] < f_score.Length
    ensures FirstLowest(openset, f_score[..], at) && lowest == openset[at]
  {
    lowest, at := openset[0], 0;
    var k := 0;
    while k < |openset|
      invariant 0 <= at < |openset| && at <= k <= |openset| && lowest == openset[at]
      invariant forall j :: 0 <= j < k ==> f_score[lowest] <= f_score[openset[j]]
      invariant forall j :: 0 <= j < at ==> f_score[openset[j]] > f_score[lowest]
    {
      if f_score[openset[k]] < f_score[lowest] {
        lowest, at := openset[k], k;
      }
      k := k + 1;
    }
  }

  /** The open list after addHead puts each of `cells` at its head in
      turn: the cells put there, last one first, then the old list. */
  function Heads(cells: seq<int>, list: seq<int>): (r: seq<int>)
    ensures |r| == |cells| + |list|
    ensures forall c :: c in r <==> c in cells || c in list
  {
    if cells == [] then list
    else
      var front := cells[..|cells| - 1];
      assert cells == front + [cells[|cells| - 1]];
      [cells[|cells| - 1]] + Heads(front, list)
  }

  lemma HeadsNext(cells: seq<int>, x: int, list: seq<int>)
    ensures Heads(cells + [x], list) == [x] + Heads(cells, list)
  {
    assert (cells + [x])[..|cells|] == cells;
  }

  /** The map as reconstruct_path leaves map_out: every cell the chain
      counts (all but its last), unless it is a GOAL cell, becomes PATH. */
  function Starred(out: seq<char>, cells: seq<char>, path: seq<int>): (r: seq<char>)
    requires |cells| == |out| && |path| >= 1
    ensures |r| == |out|
    ensures forall c :: 0 <= c < |out| ==>
      r[c] == (if c in path[..|path| - 1] && cells[c] != GOAL then PATH else out[c])
  {
    seq(|out|, c requires 0 <= c < |out| => if c in path[..|path| - 1] && cells[c] != GOAL then PATH else out[c])
  }

  /** `k` copies of `v`. */
  function Repeat(v: int, k: nat): (r: seq<int>)
    ensures |r| == k && forall j :: 0 <= j < k ==> r[j] == v
  {
    seq(k, _ => v)
  }

  lemma RepeatNext(v: int, k: nat)
    ensures Repeat(v, k) + [v] == Repeat(v, k + 1)
  {
  }

  /** Overwriting the first entry past `done` extends `done` by one. */
  lemma PutNext<T>(done: seq<T>, rest: seq<T>, v: T)
    requires |rest| > 0
    ensures (done + rest)[|done| := v] == (done + [v]) + rest[1..]
  {
  }

  /** The five buffers load writes, as values. */
  datatype Stores = Stores(mapIn: seq<char>, mapOut: seq<char>, cameFrom: seq<int>, g: seq<int>, f: seq<int>)

  predicate StoresSized(b: Stores, m: int) {
    |b.mapIn| == m && |b.mapOut| == m && |b.cameFrom| == m && |b.g| == m && |b.f| == m
  }

  /** The buffers once load has stored `cells` from index 0 on over `b`:
      each cell holds its byte in map_in and map_out, no predecessor and
      UNSET_SCORE scores, and the entries past the cells are as in `b`. */
  function LoadedOver(cells: seq<char>, b: Stores): (r: Stores)
    requires StoresSized(b, |b.mapIn|) && |cells| <= |b.mapIn|
    ensures StoresSized(r, |b.mapIn|)
  {
    var k := |cells|;
    Stores(cells + b.mapIn[k..], cells + b.mapOut[k..], Repeat(NOT_SET, k) + b.cameFrom[k..],
           Repeat(UNSET_SCORE, k) + b.g[k..], Repeat(UNSET_SCORE, k) + b.f[k..])
  }

  /** The buffers after load stores the accepted byte `ch` as cell `i`. */
  function StoredAt(b: Stores, i: int, ch: char): (r: Stores)
    requires StoresSized(b, |b.mapIn|) && 0 <= i < |b.mapIn|
    ensures StoresSized(r, |b.mapIn|)
  {
    Stores(b.mapIn[i := ch], b.mapOut[i := ch], b.cameFrom[i := NOT_SET], b.g[i := UNSET_SCORE], b.f[i := UNSET_SCORE])
  }

  /** Storing one more accepted byte extends what load has stored. */
  lemma LoadedNext(cells: seq<char>, ch: char, b: Stores)
    requires StoresSized(b, |b.mapIn|) && |cells| < |b.mapIn|
    ensures LoadedOver(cells + [ch], b) == StoredAt(LoadedOver(cells, b), |cells|, ch)
  {
    var k := |cells|;
    PutNext(cells, b.mapIn[k..], ch);
    PutNext(cells, b.mapOut[k..], ch);
    PutNext(Repeat(NOT_SET, k), b.cameFrom[k..], NOT_SET);
    PutNext(Repeat(UNSET_SCORE, k), b.g[k..], UNSET_SCORE);
    PutNext(Repeat(UNSET_SCORE, k), b.f[k..], UNSET_SCORE);
    RepeatNext(NOT_SET, k);
    RepeatNext(UNSET_SCORE, k);
    assert b.mapIn[k..][1..] == b.mapIn[k + 1..];
  }

  // ---------------------------------------------------------------------
  // The buffers a_star allocates (a-star.h:61-78) and the functions that
  // work on them.

  class Buffers {
    const n: int
    const map_in: array<char>
    const map_out: array<char>
    const closedset: array<int>
    const came_from: array<int>
    const g_score: array<int>
    const f_score: array<int>

    /** Number of cells. */
    function N(): int {
      n * n
    }

    /** One entry per cell, in distinct buffers. */
    ghost predicate Shape() {
      && n > 0
      && map_in.Length == N() && map_out.Length == N() && closedset.Length == N()
      && came_from.Length == N() && g_score.Length == N() && f_score.Length == N()
      && map_in != map_out
      && closedset != came_from && closedset != g_score && closedset != f_score
      && came_from != g_score && came_from != f_score && g_score != f_score
    }

    /** a-star.h:61-78: closedset zero-filled by calloc, everything else as
        malloc leaves it. */
    constructor (n: int)
      requires n > 0
      ensures this.n == n && Shape()
      ensures forall c :: 0 <= c < N() ==> closedset[c] == OPEN
      ensures fresh(map_in) && fresh(map_out) && fresh(closedset)
      ensures fresh(came_from) && fresh(g_score) && fresh(f_score)
    {
      this.n := n;
      var n2 := n * n;
      map_in := new char[n2];
      map_out := new char[n2];
      closedset := new int[n2](_ => OPEN);
      came_from := new int[n2];
      g_score := new int[n2];
      f_score := new int[n2];
    }

    /** The five buffers load writes, as values. */
    ghost function Buffered(): (r: Stores)
      reads map_in, map_out, came_from, g_score, f_score
      requires Shape()
      ensures StoresSized(r, N())
    {
      Stores(map_in[..], map_out[..], came_from[..], g_score[..], f_score[..])
    }

    /** load (a-star.h:137-166) over the bytes of the map file: the accepted
        bytes are stored from index 0 on in map_in and map_out, each with no
        predecessor and UNSET_SCORE scores, and the entries past them are
        left alone (see LoadedOver); goal and start are the last GOAL and
        START cell (NOT_SET when there is none, where a-star.h leaves them
        uninitialised; NOT_SET is this model's choice), and the open list gets
        every START cell at its head.  The file must not hold more cells
        than the buffers. */
    method Load(input: seq<char>) returns (openset: seq<int>, goal: int, start: int)
      requires Shape() && |Filter(input)| <= N()
      modifies map_in, map_out, came_from, g_score, f_score
      ensures Buffered() == LoadedOver(Filter(input), old(Buffered()))
      ensures goal == LastIndexOf(Filter(input), GOAL) && start == LastIndexOf(Filter(input), START)
      ensures openset == StartList(Filter(input))
    {
      openset, goal, start := [], NOT_SET, NOT_SET;
      var i := 0;
      var j := 0;
      ghost var cells: seq<char> := [];
      assert Buffered() == LoadedOver(cells, old(Buffered()));
      while j < |input|
        invariant 0 <= j <= |input| && cells == Filter(input[..j]) && i == |cells| <= N()
        invariant Buffered() == LoadedOver(cells, old(Buffered()))
        invariant goal == LastIndexOf(cells, GOAL) && start == LastIndexOf(cells, START)
        invariant openset == StartList(cells)
      {
        FilterNext(input, j);
        FilterPrefix(input, j + 1);
        var ch := input[j];
        if Accepted(ch) {
          LoadNext(cells, ch);
          LoadedNext(cells, ch, old(Buffered()));
          Store(i, ch);
          if ch == GOAL {
            goal := i;
          } else if ch == START {
            start := i;
            openset := [i] + openset;
          }
          i := i + 1;
          cells := cells + [ch];
        }
        assert cells == Filter(input[..j + 1]);
        j := j + 1;
      }
      assert input[..j] == input;
    }

    /** One accepted byte of load (a-star.h:142-149): cell `i` gets the byte
        in map_in and map_out, no predecessor and UNSET_SCORE scores. */
    method Store(i: int, ch: char)
      requires Shape() && 0 <= i < N()
      modifies map_in, map_out, came_from, g_score, f_score
      ensures Buffered() == StoredAt(old(Buffered()), i, ch)
    {
      map_in[i] := ch;
      came_from[i] := NOT_SET;
      g_score[i] := UNSET_SCORE;
      f_score[i] := UNSET_SCORE;
      map_out[i] := map_in[i];
    }

    /** What load leaves for a map file of exactly N() cells with a START
        and a GOAL cell: the buffers as a_star's search starts from them,
        and the cells of the file in map_in and map_out. */
    lemma LoadedMap(input: seq<char>, before: Stores, openset: seq<int>, goal: int, start: int)
      requires Shape() && |Filter(input)| == N() && START in Filter(input) && GOAL in Filter(input)
      requires StoresSized(before, N()) && Buffered() == LoadedOver(Filter(input), before)
      requires forall c :: 0 <= c < N() ==> closedset[c] == OPEN
      requires goal == LastIndexOf(Filter(input), GOAL) && start == LastIndexOf(Filter(input), START)
      requires openset == StartList(Filter(input))
      ensures Loaded(openset, start, goal)
      ensures map_in[..] == Filter(input) && map_out[..] == Filter(input)
    {
      assert before.mapIn[N()..] == [] && before.mapOut[N()..] == [];
      assert before.cameFrom[N()..] == [] && before.g[N()..] == [];
      assert came_from[..] == Repeat(NOT_SET, N());
      assert g_score[..] == Repeat(UNSET_SCORE, N());
    }

    /** reconstruct_path (a-star.h:176-187), called on the first cell of the
        chain `path`: it returns the cost of every cell of the chain but the
        last, and marks each of those cells but GOAL cells with PATH in
        map_out. */
    method ReconstructPath(current_node: int, ghost path: seq<int>) returns (sum: int)
      requires Shape() && IsChain(came_from[..], path) && path[0] == current_node
      modifies map_out
      ensures sum == ChainCost(DistCosts(map_in[..]), path)
      ensures map_out[..] == Starred(old(map_out[..]), map_in[..], path)
      decreases |path|
    {
      if came_from[current_node] > NOT_SET {
        assert |path| >= 2;
        ghost var out := map_out[..];
        if map_in[current_node] != GOAL {
          map_out[current_node] := PATH;
        }
        ghost var mid := map_out[..];
        sum := ReconstructPath(came_from[current_node], path[1..]);
        sum := sum + DistBetween(map_in[current_node]);
        forall c | 0 <= c < N()
          ensures map_out[c] == Starred(out, map_in[..], path)[c]
        {
          assert c in path[..|path| - 1] <==> c == path[0] || c in path[1..][..|path| - 2];
        }
      } else {
        sum := 0;
      }
    }

    /** The tables a_star works on, as values: the cost of a cell is
        dist_between of its byte, every cell may be entered, the start cells
        are the START cells, and the open set is the open list. */
    ghost function T(openset: seq<int>): (t: Tables)
      reads map_in, came_from, g_score, closedset
      requires Shape()
      ensures Sized(t, n)
    {
      Tables(DistCosts(map_in[..]), Enterable(map_in[..]), Flags(map_in[..], START),
             came_from[..], g_score[..], OnList(openset, map_in.Length), Flags(closedset[..], CLOSED))
    }

    /** The number of cells not seen yet and the sum of the seen cells'
        g-scores: with the length of the open list, the measure a_star's
        loop decreases. */
    ghost function Unvisited(openset: seq<int>): nat
      reads map_in, came_from, g_score, closedset
      requires Shape()
    {
      Unseen(Seen(T(openset)))
    }

    ghost function Score(openset: seq<int>): nat
      reads map_in, came_from, g_score, closedset
      requires Shape()
    {
      SeenScore(Seen(T(openset)), T(openset).g)
    }

    /** The invariant of a_star's loop: the invariant of the search (see
        Frontier.SearchInv) on the tables, and an open list of distinct cells. */
    ghost predicate Searching(openset: seq<int>, start: int, goal: int, expanding: int)
      reads map_in, came_from, g_score, closedset
      requires Shape()
    {
      SearchInv(T(openset), n, start, goal, expanding) && OpenList(openset, n)
    }

    /** The buffers as load leaves them for a map of exactly N() cells with a
        START and a GOAL cell. */
    ghost predicate Loaded(openset: seq<int>, start: int, goal: int)
      reads map_in, came_from, g_score, closedset
      requires Shape()
    {
      && InGrid(start, n) && InGrid(goal, n) && map_in[start] == START && map_in[goal] == GOAL
      && (forall c :: 0 <= c < N() ==> came_from[c] == NOT_SET && g_score[c] >= 0 && closedset[c] == OPEN)
      && openset == StartList(map_in[..])
    }

    /** The search of a_star (a-star.h:83-127): start gets g-score 0, then
        the open cell of least f-score is taken until it is the goal or the
        open list runs empty.  The loop terminates.  When the goal is found,
        came_from leads back from it to a START cell along a route that
        visits no cell twice and costs at most the goal's g-score; when it is
        not, no route from any START cell reaches the goal. */
    method Search(openset0: seq<int>, start: int, goal: int) returns (found: bool, openset: seq<int>, ghost path: seq<int>)
      requires Shape() && Loaded(openset0, start, goal)
      modifies came_from, g_score, f_score, closedset
      ensures found ==> ChainToStart(T(openset), n, goal, path)
      ensures !found ==> openset == [] && Unreachable(T(openset), n, goal)
    {
      openset := openset0;
      g_score[start] := 0;
      f_score[start] := g_score[start] + HCost(start, goal, n);
      Begin(openset, start, goal);
      while openset != []
        invariant Searching(openset, start, goal, NOT_SET)
        decreases Unvisited(openset), Score(openset), |openset|
      {
        var current, at := LowestFScore(openset, f_score);
        assert current in openset;
        if current == goal {
          path := FoundChain(openset, start, goal);
          return true, openset, path;
        }
        openset := Expand(openset, start, goal, current);
      }
      Exhausted(start, goal);
      return false, [], [];
    }

    /** From the buffers as load and a-star.h:83-84 leave them, the
        invariant of a_star's loop holds. */
    lemma Begin(openset: seq<int>, start: int, goal: int)
      requires Shape() && InGrid(start, n) && InGrid(goal, n)
      requires map_in[start] == START && map_in[goal] == GOAL && g_score[start] == 0
      requires forall c :: 0 <= c < N() ==> came_from[c] == NOT_SET && g_score[c] >= 0 && closedset[c] == OPEN
      requires openset == StartList(map_in[..])
      ensures Searching(openset, start, goal, NOT_SET)
    {
      var t := T(openset);
      StartListCells(map_in[..]);
      assert forall c :: 0 <= c < N() ==> t.open[c] == t.isStart[c];
      InitialInv(t, n, start, goal);
      forall k | 0 <= k < |openset| ensures InGrid(openset[k], n) {
        assert openset[k] in openset;
      }
    }

    /** When the goal is the open cell taken, came_from leads back from it
        to a START cell (see Frontier.GoalChain). */
    lemma FoundChain(openset: seq<int>, start: int, goal: int) returns (path: seq<int>)
      requires Shape() && Searching(openset, start, goal, NOT_SET) && goal in openset
      ensures ChainToStart(T(openset), n, goal, path)
    {
      path := GoalChain(T(openset), n, start, goal);
    }

    /** When the open list is empty, no route from a START cell reaches the
        goal (see Frontier.NoRoute). */
    lemma Exhausted(start: int, goal: int)
      requires Shape() && Searching([], start, goal, NOT_SET)
      ensures Unreachable(T([]), n, goal)
    {
      NoRoute(T([]), n, start, goal);
    }

    /** One pass of a_star's loop after the goal test (a-star.h:108-126):
        `current` leaves the open list for the closed set and each of its
        four neighbour slots is relaxed.  The tables become
        Frontier.Expanded of the old ones, the f-scores change as the four
        passes change them, and the cells that join the open set are put at
        the head of the list in turn; the invariant holds again, and the
        measure is below what it was with `current` on the list. */
    method Expand(openset: seq<int>, start: int, goal: int, current: int) returns (openset': seq<int>)
      requires Shape() && Searching(openset, start, goal, NOT_SET) && current in openset && current != goal
      modifies came_from, g_score, f_score, closedset
      ensures Searching(openset', start, goal, NOT_SET)
      ensures T(openset') == Expanded(old(T(openset)), n, current)
      ensures closedset[..] == old(closedset[..])[current := CLOSED]
      ensures f_score[..] == RescoredSlots(Closed(old(T(openset)), n, current), old(f_score[..]), n, current, goal, 4)
      ensures openset' == Heads(Joined(Closed(old(T(openset)), n, current), n, current, 4), Remove(openset, current))
      ensures LexLeq(Unvisited(openset'), Score(openset'), |openset'|,
                     old(Unvisited(openset)), old(Score(openset)), |openset| - 1)
    {
      CloseKeeps(T(openset), n, start, goal, current);
      openset' := Close(openset, current);
      openset' := RelaxAll(openset', start, goal, current);
      ExpandComplete(T(openset'), n, start, goal, current);
    }

    /** The inner loop of a_star (a-star.h:111-126) over the four neighbour
        slots of the cell `current` just closed: the tables and the f-scores
        are those the four passes leave in slot order, and the cells that
        join the open set go to the head of the list in turn; the invariant
        holds with every slot dealt with, and the measure has not risen (see
        Frontier.RelaxedSlotsKeep). */
    method RelaxAll(openset: seq<int>, start: int, goal: int, current: int) returns (openset': seq<int>)
      requires Shape() && Searching(openset, start, goal, current) && InGrid(current, n) && closedset[current] == CLOSED
      modifies came_from, g_score, f_score
      ensures Searching(openset', start, goal, current) && SlotsDone(T(openset'), n, current, 4)
      ensures closedset[current] == CLOSED
      ensures T(openset') == RelaxedSlots(old(T(openset)), n, current, 4)
      ensures f_score[..] == RescoredSlots(old(T(openset)), old(f_score[..]), n, current, goal, 4)
      ensures openset' == Heads(Joined(old(T(openset)), n, current, 4), openset)
      ensures LexLeq(Unvisited(openset'), Score(openset'), |openset'|,
                     old(Unvisited(openset)), old(Score(openset)), |openset|)
    {
      ghost var t0, f0 := T(openset), f_score[..];
      openset' := openset;
      var neighbor := NeighborNodes(current, n);
      for i := 0 to 4
        modifies came_from, g_score, f_score
        invariant OpenList(openset', n)
        invariant T(openset') == RelaxedSlots(t0, n, current, i)
        invariant f_score[..] == RescoredSlots(t0, f0, n, current, goal, i)
        invariant openset' == Heads(Joined(t0, n, current, i), openset)
      {
        RelaxedSlotsNext(t0, f0, n, current, goal, i);
        HeadsNext(Joined(t0, n, current, i), neighbor[i], openset);
        ghost var t, l := T(openset'), openset';
        assert Improves(t, n, current, neighbor[i]) ==> (t.open[neighbor[i]] <==> neighbor[i] in l);
        openset' := Relax(openset', goal, current, neighbor[i]);
        if Improves(t, n, current, neighbor[i]) && neighbor[i] !in l {
          assert Joined(t0, n, current, i + 1) == Joined(t0, n, current, i) + [neighbor[i]];
        } else {
          assert Joined(t0, n, current, i + 1) == Joined(t0, n, current, i);
        }
      }
      Relaxed4(t0, |openset|, openset', start, goal, current);
    }

    /** Once the four passes have turned the tables `t` into RelaxedSlots
        of them, the invariant of the search holds with every slot dealt
        with, and the measure is no higher than with `t` and a list of `len`
        cells. */
    lemma Relaxed4(t: Tables, len: nat, openset: seq<int>, start: int, goal: int, current: int)
      requires Shape() && SearchInv(t, n, start, goal, current) && InGrid(current, n) && t.closed[current]
      requires OpenList(openset, n) && T(openset) == RelaxedSlots(t, n, current, 4)
      requires |openset| == len + |Joined(t, n, current, 4)|
      ensures Searching(openset, start, goal, current) && SlotsDone(T(openset), n, current, 4)
      ensures closedset[current] == CLOSED
      ensures LexLeq(Unvisited(openset), Score(openset), |openset|, Unseen(Seen(t)), SeenScore(Seen(t), t.g), len)
    {
      RelaxedSlotsKeep(t, n, start, goal, current, 4);
    }

    /** a-star.h:108-109: `current` leaves the open list and is closed. */
    method Close(openset: seq<int>, current: int) returns (openset': seq<int>)
      requires Shape() && InGrid(current, n) && OpenList(openset, n) && current in openset
      modifies closedset
      ensures openset' == Remove(openset, current) && OpenList(openset', n) && |openset'| == |openset| - 1
      ensures closedset[..] == old(closedset[..])[current := CLOSED]
      ensures T(openset') == Closed(old(T(openset)), n, current)
    {
      ghost var t := T(openset);
      RemoveDistinct(openset, current);
      openset' := Remove(openset, current);
      forall k | 0 <= k < |openset'| ensures InGrid(openset'[k], n) {
        assert openset'[k] in openset';
      }
      closedset[current] := CLOSED;
      assert OnList(openset', N()) == t.open[current := false];
      assert Flags(closedset[..], CLOSED) == t.closed[current := true];
    }

    /** One pass of the inner loop of a_star (a-star.h:113-125) for the
        neighbour slot holding `nb`: when the test passes (see
        Frontier.Improves; every cell may be entered), `nb` gets `current`
        as predecessor and the new scores, and goes to the head of the open
        list if it is not on it, which re-opens a closed cell; otherwise
        nothing changes (see Frontier.Relaxed and Rescored). */
    method Relax(openset: seq<int>, goal: int, current: int, nb: int) returns (openset': seq<int>)
      requires Shape() && InGrid(current, n) && OpenList(openset, n) && (nb == OUT_OF_BOUNDS || InGrid(nb, n))
      modifies came_from, g_score, f_score
      ensures OpenList(openset', n)
      ensures T(openset') == Relaxed(old(T(openset)), n, current, nb)
      ensures f_score[..] == Rescored(old(T(openset)), old(f_score[..]), n, current, nb, goal)
      ensures openset' == (if old(Improves(T(openset), n, current, nb)) && nb !in openset then [nb] + openset else openset)
    {
      openset' := openset;
      if nb != OUT_OF_BOUNDS {
        var tentative_g_score := g_score[current] + DistBetween(map_in[nb]);
        if closedset[nb] == CLOSED && tentative_g_score >= g_score[nb] {
          assert !Improves(T(openset), n, current, nb);
          return;
        }
        var memoFind := nb in openset;
        if !memoFind || tentative_g_score < g_score[nb] {
          assert Improves(T(openset), n, current, nb);
          openset' := Improve(openset, goal, current, nb, tentative_g_score, memoFind);
          return;
        }
      }
      assert !Improves(T(openset), n, current, nb);
    }

    /** The body of the test at a-star.h:118-124, once it has passed: `nb`
        gets `current` as predecessor, g-score `tentative_g_score` and the
        matching f-score, and is put at the head of the open list unless
        findNode found it there. */
    method Improve(openset: seq<int>, goal: int, current: int, nb: int, tentative_g_score: int, memoFind: bool)
      returns (openset': seq<int>)
      requires Shape() && InGrid(current, n) && InGrid(nb, n) && OpenList(openset, n)
      requires memoFind == (nb in openset)
      requires tentative_g_score == g_score[current] + DistBetween(map_in[nb])
      modifies came_from, g_score, f_score
      ensures OpenList(openset', n)
      ensures openset' == (if memoFind then openset else [nb] + openset)
      ensures came_from[..] == old(came_from[..])[nb := current]
      ensures g_score[..] == old(g_score[..])[nb := tentative_g_score]
      ensures f_score[..] == old(f_score[..])[nb := tentative_g_score + HCost(nb, goal, n)]
      ensures T(openset') == Improved(old(T(openset)), n, current, nb)
    {
      ghost var t := T(openset);
      came_from[nb] := current;
      g_score[nb] := tentative_g_score;
      f_score[nb] := g_score[nb] + HCost(nb, goal, n);
      openset' := openset;
      if !memoFind {
        openset' := [nb] + openset;
      }
      assert OnList(openset', N()) == t.open[nb := true];
    }
  }

  /** The route a_star reports when it finds the goal: it runs from the goal
      back to a START cell through neighbouring cells and visits no cell twice. */
  predicate FoundRoute(cells: seq<char>, n: int, path: seq<int>)
    requires n > 0 && |cells| == n * n
  {
    && IsRoute(Enterable(cells), n, path) && |path| >= 2 && Distinct(path)
    && path[0] == LastIndexOf(cells, GOAL) && cells[path[|path| - 1]] == START
  }

  /** No route through neighbouring cells leads from a START cell to the goal. */
  ghost predicate NoRouteToGoal(cells: seq<char>, n: int)
    requires n > 0 && |cells| == n * n
  {
    forall p :: IsRoute(Enterable(cells), n, p) && p[0] == LastIndexOf(cells, GOAL) ==>
      cells[p[|p| - 1]] != START
  }

  /** A chain the search reports on the tables of the map `cells` is a
      route from the goal back to a START cell. */
  lemma ReportedRoute(t: Tables, cells: seq<char>, n: int, path: seq<int>)
    requires n > 0 && |cells| == n * n && Sized(t, n)
    requires t.passable == Enterable(cells) && t.isStart == Flags(cells, START)
    requires ChainToStart(t, n, LastIndexOf(cells, GOAL), path)
    ensures FoundRoute(cells, n, path)
  {
  }

  /** No route on the tables of the map `cells` is no route in the map. */
  lemma ReportedNoRoute(t: Tables, cells: seq<char>, n: int)
    requires n > 0 && |cells| == n * n && Sized(t, n)
    requires t.passable == Enterable(cells) && t.isStart == Flags(cells, START)
    requires Unreachable(t, n, LastIndexOf(cells, GOAL))
    ensures NoRouteToGoal(cells, n)
  {
  }

  /** Every cell of an a-star.h map may be entered and the map is connected,
      so a START cell always has a route to the goal.  With the corrected
      neighbour rule (Grid.NeighborNodes) the open list therefore never runs
      empty before the goal is taken, and Run never reports NotFound.  With
      neighbor_nodes as written this does not hold: see
      WalkAsWrittenAvoidsRowZero. */
  lemma GoalAlwaysReachable(cells: seq<char>, n: int)
    requires n > 0 && |cells| == n * n && START in cells && GOAL in cells
    ensures !NoRouteToGoal(cells, n)
  {
    var goal, start := LastIndexOf(cells, GOAL), LastIndexOf(cells, START);
    var p := GridRoute(goal, start, n);
    assert IsRoute(Enterable(cells), n, p);
  }

  /** a_star (a-star.h:28-129) on the side `n` and the bytes of the map file
      after it, for a file holding exactly n*n cells with a START and a GOAL
      cell among them: when the goal is found, the cost written is that of a
      route from the goal back to a START cell, and the map written is the
      map with that route marked; NotFound only when no route exists (which
      GoalAlwaysReachable rules out under the corrected neighbour rule). */
  method Run(n: int, input: seq<char>) returns (r: Outcome)
    requires n > 0 && |Filter(input)| == n * n
    requires START in Filter(input) && GOAL in Filter(input)
    ensures r.Found? ==>
      exists path :: FoundRoute(Filter(input), n, path)
        && r.cost == ChainCost(DistCosts(Filter(input)), path)
        && r.mapOut == Starred(Filter(input), Filter(input), path)
    ensures r.NotFound? ==> NoRouteToGoal(Filter(input), n)
  {
    var cells := Filter(input);
    var b := new Buffers(n);
    ghost var before := b.Buffered();
    var openset, goal, start := b.Load(input);
    b.LoadedMap(input, before, openset, goal, start);
    var found, openset', path := b.Search(openset, start, goal);
    if found {
      ReportedRoute(b.T(openset'), cells, n, path);
      var cost := b.ReconstructPath(goal, path);
      return Found(cost, b.map_out[..]);
    }
    ReportedNoRoute(b.T(openset'), cells, n);
    return NotFound;
  }
}
