/**
 * The queue phase of `top_sort` in Graph/top_sort_kahn.c, as written: the
 * in-degree table is decremented for EVERY vertex after each dequeue (the
 * `if` guarding the decrement ends in an empty statement), and the queue
 * has room for five vertices, so a full queue drops the vertex offered.
 * What survives of Kahn's algorithm is a bookkeeping fact: a counter can
 * hit 0 at most once, so no vertex is listed twice and the number of
 * dequeued vertices never exceeds the number of vertices.
 */
module TopSorts {
  import opened ListSpec
  import opened LinkedLists
  import opened RingQueues
  import opened ListGraphs
  import opened Kahn
  import NthList
  import ComponentSpec

  /** The capacity `top_sort` creates its queue with. */
  const QueueCapacity: nat := 5

  /** How many counters of an in-degree table are still positive: each of those vertices may yet reach 0 and be offered to the queue. */
  function Pending(d: seq<int>): (r: nat)
    ensures r <= |d|
  {
    if d == [] then 0 else Pending(d[..|d| - 1]) + (if d[|d| - 1] >= 1 then 1 else 0)
  }

  /** Changing one counter changes the pending count by that counter alone. */
  lemma {:induction false} PendingUpdate(d: seq<int>, i: nat, x: int)
    requires i < |d|
    ensures Pending(d[i := x]) == Pending(d) - (if d[i] >= 1 then 1 else 0) + (if x >= 1 then 1 else 0)
  {
    var e := d[i := x];
    if i == |d| - 1 {
      assert e[..|e| - 1] == d[..|d| - 1];
    } else {
      assert e[..|e| - 1] == d[..|d| - 1][i := x];
      PendingUpdate(d[..|d| - 1], i, x);
    }
  }

  /** The pending count of a prefix grows by the next counter alone. */
  lemma PendingPrefix(d: seq<int>, i: nat)
    requires i < |d|
    ensures Pending(d[..i + 1]) == Pending(d[..i]) + (if d[i] >= 1 then 1 else 0)
  {
    assert d[..i + 1][..i] == d[..i];
  }

  /**
   * The first loop of the queue phase: every vertex whose in-degree is 0
   * is offered to the queue, in index order; offers to a full queue are
   * refused. Only vertices with counter 0 are queued, once each, and the
   * queue never holds more than the zero counters seen.
   */
  method EnqueueSources(inDegree: array<int>) returns (queue: Queue<int>)
    ensures fresh(queue) && fresh(queue.buff)
    ensures queue.Valid() && queue.maxSize == QueueCapacity
    ensures |queue.Contents| + Pending(inDegree[..]) <= inDegree.Length
    ensures ComponentSpec.Distinct(queue.Contents)
    ensures forall v :: v in queue.Contents ==> 0 <= v < inDegree.Length && inDegree[v] == 0
  {
    queue := new Queue<int>(QueueCapacity);
    for i := 0 to inDegree.Length
      invariant fresh(queue) && fresh(queue.buff)
      invariant queue.Valid() && queue.maxSize == QueueCapacity
      invariant |queue.Contents| + Pending(inDegree[..i]) <= i
      invariant ComponentSpec.Distinct(queue.Contents)
      invariant forall v :: v in queue.Contents ==> 0 <= v < i && inDegree[v] == 0
    {
      PendingPrefix(inDegree[..], i);
      assert inDegree[..][..i] == inDegree[..i] && inDegree[..][..i + 1] == inDegree[..i + 1];
      if inDegree[i] == 0 {
        var _ := queue.Enqueue(i);
      }
    }
    assert inDegree[..inDegree.Length] == inDegree[..];
  }

  /**
   * The facts the queue phase keeps about the vertices listed so far
   * (`out`) and those waiting in the queue: together they name distinct
   * vertices, each of whose counters has already reached 0 or below.
   */
  ghost predicate Settled(inDegree: seq<int>, waiting: seq<int>)
  {
    && ComponentSpec.Distinct(waiting)
    && (forall v :: v in waiting ==> 0 <= v < |inDegree| && inDegree[v] < 1)
  }

  /** Appending a vertex whose counter was positive keeps the list distinct. */
  lemma SettledAdd(inDegree: seq<int>, waiting: seq<int>, i: nat)
    requires Settled(inDegree, waiting)
    requires i < |inDegree| && inDegree[i] >= 1
    ensures Settled(inDegree[i := 0], waiting + [i])
  {
    var e := inDegree[i := 0];
    forall v | v in waiting + [i]
      ensures 0 <= v < |e| && e[v] < 1
    {
      if v != i {
        assert v in waiting;
      }
    }
  }

  /** The listed vertices alone are distinct vertices of the graph. */
  lemma SettledPrefix(inDegree: seq<int>, out: seq<int>, queued: seq<int>)
    requires Settled(inDegree, out + queued)
    ensures ComponentSpec.Distinct(out)
    ensures forall k :: 0 <= k < |out| ==> 0 <= out[k] < |inDegree|
  {
    forall k | 0 <= k < |out|
      ensures out[k] == (out + queued)[k] && 0 <= out[k] < |inDegree|
    {
      assert (out + queued)[k] in out + queued;
    }
  }

  /**
   * One step of the inner loop of the queue phase: counter i drops by one
   * and i is offered to the queue when the counter is then 0.
   */
  method ReleaseOne(inDegree: array<int>, queue: Queue<int>, i: nat, ghost out: seq<int>)
    requires i < inDegree.Length
    requires queue.Valid() && queue.buff != inDegree
    requires Settled(inDegree[..], out + queue.Contents)
    modifies inDegree, queue, queue.buff
    ensures queue.Valid() && queue.buff == old(queue.buff) && queue.maxSize == old(queue.maxSize)
    ensures inDegree[..] == old(inDegree[..])[i := old(inDegree[i]) - 1]
    ensures |queue.Contents| + Pending(inDegree[..]) <= old(|queue.Contents| + Pending(inDegree[..]))
    ensures Settled(inDegree[..], out + queue.Contents)
  {
    ghost var before := inDegree[..];
    ghost var waiting := out + queue.Contents;
    PendingUpdate(before, i, inDegree[i] - 1);
    inDegree[i] := inDegree[i] - 1;
    assert inDegree[..] == before[i := before[i] - 1];
    if inDegree[i] == 0 {
      SettledAdd(before, waiting, i);
      var ok := queue.Enqueue(i);
      assert ok ==> out + queue.Contents == waiting + [i];
    }
  }

  /**
   * The inner loop of the queue phase, after vertex `x` was dequeued: for
   * every vertex i the counter drops by one, whether or not x has an edge
   * to i, and i is offered to the queue when its counter is then 0.
   */
  method Release(graph: ListGraph, inDegree: array<int>, queue: Queue<int>, x: int, ghost out: seq<int>)
    requires graph.Valid() && inDegree.Length == graph.nodes
    requires queue.Valid() && queue.buff != inDegree
    requires Settled(inDegree[..], out + queue.Contents)
    modifies inDegree, queue, queue.buff
    ensures queue.Valid() && queue.buff == old(queue.buff) && queue.maxSize == old(queue.maxSize)
    ensures forall v :: 0 <= v < inDegree.Length ==> inDegree[v] == old(inDegree[v]) - 1
    ensures |queue.Contents| + Pending(inDegree[..]) <= old(|queue.Contents| + Pending(inDegree[..]))
    ensures Settled(inDegree[..], out + queue.Contents)
  {
    var n := graph.nodes;
    ghost var budget := |queue.Contents| + Pending(inDegree[..]);
    for i := 0 to n
      invariant queue.Valid() && queue.buff == old(queue.buff) && queue.maxSize == old(queue.maxSize)
      invariant forall v :: 0 <= v < i ==> inDegree[v] == old(inDegree[v]) - 1
      invariant forall v :: i <= v < n ==> inDegree[v] == old(inDegree[v])
      invariant |queue.Contents| + Pending(inDegree[..]) <= budget
      invariant Settled(inDegree[..], out + queue.Contents)
    {
      // The edge test's result is discarded: the decrement below is unconditional.
      var _ := graph.HasEdge(x, i);
      ReleaseOne(inDegree, queue, i, out);
    }
  }

  /**
   * The first half of a round of the queue phase: the front vertex leaves
   * the queue and is appended to the output list, so the two together
   * still name the same vertices in the same order.
   */
  method MoveFront(queue: Queue<int>, list: LinkedList<int>) returns (x: int)
    requires queue.Valid() && queue.Contents != []
    requires list.Valid() && queue !in list.Repr && queue.buff !in list.Repr
    modifies queue, queue.buff, list.Repr
    ensures queue.Valid() && queue.buff == old(queue.buff) && queue.maxSize == old(queue.maxSize)
    ensures list.Valid() && fresh(list.Repr - old(list.Repr))
    ensures queue !in list.Repr && queue.buff !in list.Repr
    ensures x == old(queue.Contents[0])
    ensures list.Contents == old(list.Contents) + [x]
    ensures list.Contents + queue.Contents == old(list.Contents + queue.Contents)
  {
    var front := queue.Front();
    x := front.value;
    var _ := queue.Dequeue();
    NthList.AddNth(list, list.size, x);
  }

  /**
   * One round of the queue phase: the front vertex leaves the queue, is
   * appended to the output list, and the counters are released.
   */
  method DequeueNext(graph: ListGraph, inDegree: array<int>, queue: Queue<int>, list: LinkedList<int>)
    requires graph.Valid() && inDegree.Length == graph.nodes
    requires queue.Valid() && queue.Contents != [] && queue.buff != inDegree
    requires list.Valid() && queue !in list.Repr && queue.buff !in list.Repr && inDegree !in list.Repr
    requires Settled(inDegree[..], list.Contents + queue.Contents)
    modifies inDegree, queue, queue.buff, list.Repr
    ensures queue.Valid() && queue.buff == old(queue.buff) && queue.maxSize == old(queue.maxSize)
    ensures list.Valid() && fresh(list.Repr - old(list.Repr))
    ensures queue !in list.Repr && queue.buff !in list.Repr && inDegree !in list.Repr
    ensures list.Contents == old(list.Contents) + [old(queue.Contents[0])]
    ensures |queue.Contents| + Pending(inDegree[..]) < old(|queue.Contents| + Pending(inDegree[..]))
    ensures Settled(inDegree[..], list.Contents + queue.Contents)
  {
    var x := MoveFront(queue, list);
    Release(graph, inDegree, queue, x, list.Contents);
  }

  /**
   * top_sort: the vertices in the order they leave the queue, or NULL
   * when fewer (or more) than `nodes` of them did. `order` is that
   * dequeue order: it never repeats a vertex and is never longer than
   * the number of vertices, so NULL means fewer vertices came out.
   */
  method TopSort(graph: ListGraph) returns (sorted: LinkedList?<int>, ghost order: seq<int>)
    requires graph.Valid()
    ensures sorted == null <==> |order| != graph.nodes
    ensures sorted != null ==> sorted.Valid() && fresh(sorted.Repr) && sorted.Contents == order
    ensures |order| <= graph.nodes
    ensures ComponentSpec.Distinct(order)
    ensures forall k :: 0 <= k < |order| ==> 0 <= order[k] < graph.nodes
  {
    var n := graph.nodes;
    var inDegree := InDegrees(graph);
    var queue := EnqueueSources(inDegree);
    var list := new LinkedList<int>();
    var ct := 0;
    while !queue.IsEmpty()
      invariant fresh(queue) && fresh(queue.buff) && queue.buff != inDegree
      invariant queue.Valid() && queue.maxSize == QueueCapacity
      invariant list.Valid() && fresh(list.Repr)
      invariant queue !in list.Repr && queue.buff !in list.Repr && inDegree !in list.Repr
      invariant ct == |list.Contents|
      invariant ct + |queue.Contents| + Pending(inDegree[..]) <= n
      invariant Settled(inDegree[..], list.Contents + queue.Contents)
      decreases n - ct
    {
      DequeueNext(graph, inDegree, queue, list);
      ct := ct + 1;
    }
    order := list.Contents;
    SettledPrefix(inDegree[..], order, queue.Contents);
    if ct != n {
      return null, order;
    }
    sorted := list;
  }
}
