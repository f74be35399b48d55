/** The priority queue of a-star.c (declared in heap.h) and the open-set flag
    table that mirrors it. */
module Queue {
  import opened Sums
  import opened Chains

  /** Values of a-star.c's open-set flags; calloc's zero fill means
      NOT_IN_OPENSET (a-star.c:99). */
  const NOT_IN_OPENSET: int := 0
  const IN_OPENSET: int := 1

  // The priority queue.  heap.h declares push and pop; their bodies are not
  // part of this model, so the queue is its multiset of entries and pop
  // returns the data of an entry of least priority.

  datatype HeapNode = HeapNode(priority: int, data: int)

  /** The cells held by a sequence of heap entries. */
  function Cells(nodes: seq<HeapNode>): (r: seq<int>)
    ensures |r| == |nodes| && forall k :: 0 <= k < |nodes| ==> r[k] == nodes[k].data
  {
    seq(|nodes|, k requires 0 <= k < |nodes| => nodes[k].data)
  }

  predicate IsLeast(nodes: seq<HeapNode>, k: int) {
    0 <= k < |nodes| && forall j :: 0 <= j < |nodes| ==> nodes[k].priority <= nodes[j].priority
  }

  /** A non-empty queue has an entry of least priority. */
  lemma {:induction false} LeastExists(nodes: seq<HeapNode>)
    requires |nodes| > 0
    ensures exists k :: IsLeast(nodes, k)
  {
    if |nodes| == 1 {
      assert IsLeast(nodes, 0);
    } else {
      LeastExists(nodes[1..]);
      var k :| IsLeast(nodes[1..], k);
      if nodes[0].priority <= nodes[k + 1].priority {
        assert IsLeast(nodes, 0);
      } else {
        assert IsLeast(nodes, k + 1);
      }
    }
  }

  /** Taking entry `at` out of a queue of distinct cells leaves exactly the other cells, still distinct. */
  lemma CellsRemove(nodes: seq<HeapNode>, at: nat)
    requires at < |nodes| && Distinct(Cells(nodes))
    ensures var rest := Cells(nodes[..at] + nodes[at + 1..]);
      && Distinct(rest)
      && forall c :: c in rest <==> c in Cells(nodes) && c != nodes[at].data
  {
    var all, rest := Cells(nodes), Cells(nodes[..at] + nodes[at + 1..]);
    assert rest == all[..at] + all[at + 1..];
    forall c | c in all && c != nodes[at].data ensures c in rest {
      var k :| 0 <= k < |all| && all[k] == c;
      if k < at { assert rest[k] == c; } else { assert rest[k - 1] == c; }
    }
  }

  /** The cells of two queues one after the other. */
  lemma CellsAppend(a: seq<HeapNode>, b: seq<HeapNode>)
    ensures Cells(a + b) == Cells(a) + Cells(b)
  {
  }

  lemma AppendAssoc(a: seq<HeapNode>, b: seq<HeapNode>, c: seq<HeapNode>)
    ensures (a + b) + c == a + (b + c)
  {
  }

  class Heap {
    var nodes: seq<HeapNode>
    const size: nat

    constructor (size: nat)
      ensures this.size == size && nodes == []
    {
      this.size := size;
      nodes := [];
    }

    function Len(): nat
      reads this
    {
      |nodes|
    }

    /** push: adds an entry; the queue has room for `size` entries. */
    method Push(priority: int, data: int)
      requires |nodes| < size
      modifies this
      ensures nodes == old(nodes) + [HeapNode(priority, data)]
    {
      nodes := nodes + [HeapNode(priority, data)];
    }

    /** pop: removes an entry of least priority and returns its data. */
    method Pop() returns (data: int, ghost at: nat)
      requires |nodes| > 0
      modifies this
      ensures IsLeast(old(nodes), at)
      ensures data == old(nodes)[at].data
      ensures nodes == old(nodes)[..at] + old(nodes)[at + 1..]
    {
      LeastExists(nodes);
      var k :| 0 <= k < |nodes| && IsLeast(nodes, k);
      data, at := nodes[k].data, k;
      nodes := nodes[..k] + nodes[k + 1..];
    }
  }

  /** The queued cells are distinct cells of the map, every open flag is
      IN_OPENSET or NOT_IN_OPENSET, and a cell is flagged IN_OPENSET exactly
      when it is queued or is `popped`, a cell just taken out of the queue
      whose flag is not cleared yet. */
  predicate Mirrors(cells: seq<int>, openset: seq<int>, popped: int) {
    && Distinct(cells)
    && (forall k :: 0 <= k < |cells| ==> 0 <= cells[k] < |openset|)
    && popped !in cells
    && (forall c :: 0 <= c < |openset| ==> openset[c] == IN_OPENSET || openset[c] == NOT_IN_OPENSET)
    && (forall c :: 0 <= c < |openset| ==> (openset[c] == IN_OPENSET <==> c in cells || c == popped))
  }

  /** Queueing a cell that was not flagged, and flagging it, keeps the mirror;
      the queue had room for it. */
  lemma MirrorsPush(cells: seq<int>, openset: seq<int>, nb: int)
    requires Mirrors(cells, openset, NOT_SET) && 0 <= nb < |openset| && openset[nb] != IN_OPENSET
    ensures Mirrors(cells + [nb], openset[nb := IN_OPENSET], NOT_SET)
    ensures |cells| < |openset|
  {
    DistinctBelow(cells, |openset|, nb);
  }

  /** Popping entry `at` keeps the mirror, with the popped cell still flagged. */
  lemma MirrorsPop(nodes: seq<HeapNode>, openset: seq<int>, at: nat)
    requires Mirrors(Cells(nodes), openset, NOT_SET) && at < |nodes|
    ensures Mirrors(Cells(nodes[..at] + nodes[at + 1..]), openset, nodes[at].data)
    ensures 0 <= nodes[at].data < |openset| && openset[nodes[at].data] == IN_OPENSET
  {
    var rest := Cells(nodes[..at] + nodes[at + 1..]);
    CellsRemove(nodes, at);
    forall k | 0 <= k < |rest| ensures 0 <= rest[k] < |openset| {
      assert rest[k] in Cells(nodes);
    }
  }
}
