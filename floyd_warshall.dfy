/**
 * Graph/FloydWarshall.c: a directed graph on vertices 0..nodes-1 kept as
 * an adjacency matrix of 0s and 1s, and the Floyd–Warshall computation of
 * the length (number of edges) of the shortest walk between every two
 * vertices, with INF standing for "no edge" and printed as -1.
 */
module MatrixGraphs {
  /** INF: the distance given where there is no edge. */
  const INF: int := 999

  /** A matrix with as many entries in each row as it has rows. */
  ghost predicate Square(m: seq<seq<int>>)
  {
    forall i :: 0 <= i < |m| ==> |m[i]| == |m|
  }

  /** Every entry is 0 (no edge) or 1 (an edge). */
  ghost predicate Binary(m: seq<seq<int>>)
    requires Square(m)
  {
    forall i, j :: 0 <= i < |m| && 0 <= j < |m| ==> m[i][j] == 0 || m[i][j] == 1
  }

  /** `matrix_graph_t`. */
  class MatrixGraph {
    var matrix: array2<int>
    var nodes: nat

    ghost predicate Valid()
      reads this, matrix
    {
      && matrix.Length0 == nodes && matrix.Length1 == nodes
      && forall i, j :: 0 <= i < nodes && 0 <= j < nodes ==> matrix[i, j] == 0 || matrix[i, j] == 1
    }

    /** The matrix as a value. */
    ghost function Snapshot(): (m: seq<seq<int>>)
      reads this, matrix
      requires Valid()
      ensures |m| == nodes && Square(m) && Binary(m)
      ensures forall i, j :: 0 <= i < nodes && 0 <= j < nodes ==> m[i][j] == matrix[i, j]
    {
      var a := matrix;
      seq(a.Length0, i requires 0 <= i < a.Length0 reads a =>
        seq(a.Length1, j requires 0 <= j < a.Length1 reads a => a[i, j]))
    }

    /** mg_create: `nodes` vertices and no edge. */
    constructor (nodes: nat)
      ensures Valid() && fresh(matrix) && this.nodes == nodes
      ensures forall i, j :: 0 <= i < nodes && 0 <= j < nodes ==> matrix[i, j] == 0
    {
      matrix := new int[nodes, nodes]((_, _) => 0);
      this.nodes := nodes;
    }

    /** mg_add_edge: the edge src -> dest, and no other change (the graph is directed). */
    method AddEdge(src: int, dest: int)
      requires Valid() && 0 <= src < nodes && 0 <= dest < nodes
      modifies matrix
      ensures Valid() && matrix[src, dest] == 1
      ensures forall i, j :: 0 <= i < nodes && 0 <= j < nodes && (i, j) != (src, dest) ==> matrix[i, j] == old(matrix[i, j])
    {
      matrix[src, dest] := 1;
    }

    /** mg_has_edge: 1 for an edge, 0 for none. */
    function HasEdge(src: int, dest: int): (r: int)
      reads this, matrix
      requires Valid() && 0 <= src < nodes && 0 <= dest < nodes
      ensures r == 0 || r == 1
      ensures r == 1 <==> Snapshot()[src][dest] != 0
    {
      matrix[src, dest]
    }

    /** mg_remove_edge: no edge src -> dest, and no other change. */
    method RemoveEdge(src: int, dest: int)
      requires Valid() && 0 <= src < nodes && 0 <= dest < nodes
      modifies matrix
      ensures Valid() && matrix[src, dest] == 0
      ensures forall i, j :: 0 <= i < nodes && 0 <= j < nodes && (i, j) != (src, dest) ==> matrix[i, j] == old(matrix[i, j])
    {
      matrix[src, dest] := 0;
    }
  }

  /** The starting distance: the entry where there is an edge, INF elsewhere (the diagonal included). */
  function Start(e: int): (r: int)
    ensures e != 0 ==> r == e
    ensures e == 0 ==> r == INF
  {
    if e != 0 then e else INF
  }

  /**
   * The distance from i to j once the vertices below k have been tried as
   * intermediates: the start value, then at each step the shorter of the
   * distance so far and the one through the next vertex. Every value lies
   * in [1, INF].
   */
  ghost function D(m: seq<seq<int>>, k: nat, i: nat, j: nat): (r: int)
    requires Square(m) && Binary(m) && k <= |m| && i < |m| && j < |m|
    ensures 1 <= r <= INF
    decreases k
  {
    if k == 0 then Start(m[i][j])
    else
      var via := D(m, k - 1, i, k - 1) + D(m, k - 1, k - 1, j);
      if via < D(m, k - 1, i, j) then via else D(m, k - 1, i, j)
  }

  /** What the output prints for a distance: -1 for INF. */
  function Shown(d: int): (r: int)
    ensures d == INF ==> r == -1
    ensures d != INF ==> r == d
  {
    if d == INF then -1 else d
  }

  /**
   * A walk of one edge or more from w[0] to w[|w| - 1] whose intermediate
   * vertices are all below k.
   */
  ghost predicate Walk(m: seq<seq<int>>, w: seq<int>, k: nat)
    requires Square(m)
  {
    && |w| >= 2
    && (forall t :: 0 <= t < |w| ==> 0 <= w[t] < |m|)
    && (forall t :: 0 <= t < |w| - 1 ==> m[w[t]][w[t + 1]] != 0)
    && (forall t :: 0 < t < |w| - 1 ==> w[t] < k)
  }

  /** Two walks that meet at vertex k join into one whose intermediate vertices are below k + 1. */
  lemma JoinWalks(m: seq<seq<int>>, w1: seq<int>, w2: seq<int>, k: nat)
    requires Square(m) && Walk(m, w1, k) && Walk(m, w2, k) && w1[|w1| - 1] == k && w2[0] == k
    ensures Walk(m, w1 + w2[1..], k + 1)
    ensures (w1 + w2[1..])[0] == w1[0] && (w1 + w2[1..])[|w1| + |w2| - 2] == w2[|w2| - 1]
    ensures |w1 + w2[1..]| - 1 == (|w1| - 1) + (|w2| - 1)
  {
    var w := w1 + w2[1..];
    assert forall t :: |w1| <= t < |w| ==> w[t] == w2[t - |w1| + 1];
    assert forall t :: 0 <= t < |w1| ==> w[t] == w1[t];
  }

  /** The first intermediate vertex of `w` equal to `x`. */
  lemma FirstVisit(w: seq<int>, x: int) returns (p: nat)
    requires exists t :: 0 < t < |w| - 1 && w[t] == x
    ensures 0 < p < |w| - 1 && w[p] == x
    ensures forall t :: 0 < t < p ==> w[t] != x
  {
    p := 1;
    while w[p] != x
      invariant 0 < p < |w| - 1
      invariant forall t :: 0 < t < p ==> w[t] != x
      invariant exists t :: p <= t < |w| - 1 && w[t] == x
      decreases |w| - p
    {
      p := p + 1;
    }
  }

  /** The last intermediate vertex of `w` equal to `x`. */
  lemma LastVisit(w: seq<int>, x: int) returns (q: nat)
    requires exists t :: 0 < t < |w| - 1 && w[t] == x
    ensures 0 < q < |w| - 1 && w[q] == x
    ensures forall t :: q < t < |w| - 1 ==> w[t] != x
  {
    q := |w| - 2;
    while w[q] != x
      invariant 0 < q < |w| - 1
      invariant forall t :: q < t < |w| - 1 ==> w[t] != x
      invariant exists t :: 0 < t <= q && w[t] == x
      decreases q
    {
      q := q - 1;
    }
  }

  /** `w` is a walk from i to j through vertices below k with `len` edges. */
  ghost predicate WalkOf(m: seq<seq<int>>, w: seq<int>, k: nat, i: int, j: int, len: int)
    requires Square(m)
  {
    Walk(m, w, k) && w[0] == i && w[|w| - 1] == j && |w| - 1 == len
  }

  /** A step of the recurrence: the distance through k - 1 when that is shorter, the one before otherwise. */
  lemma Step(m: seq<seq<int>>, k: nat, i: nat, j: nat)
    requires Square(m) && Binary(m) && 0 < k <= |m| && i < |m| && j < |m|
    ensures var via := D(m, k - 1, i, k - 1) + D(m, k - 1, k - 1, j);
            D(m, k, i, j) == if via < D(m, k - 1, i, j) then via else D(m, k - 1, i, j)
  {
  }

  /** Relaxation never makes a distance larger. */
  lemma NeverIncreases(m: seq<seq<int>>, k: nat, i: nat, j: nat)
    requires Square(m) && Binary(m) && k < |m| && i < |m| && j < |m|
    ensures D(m, k + 1, i, j) <= D(m, k, i, j)
  {
    Step(m, k + 1, i, j);
  }

  /**
   * Every finite distance is achieved: there is a walk from i to j through
   * vertices below k with exactly that many edges.
   */
  lemma {:induction false} DistanceIsWalk(m: seq<seq<int>>, k: nat, i: nat, j: nat) returns (w: seq<int>)
    requires Square(m) && Binary(m) && k <= |m| && i < |m| && j < |m| && D(m, k, i, j) < INF
    ensures WalkOf(m, w, k, i, j, D(m, k, i, j))
    decreases k
  {
    if k == 0 {
      w := [i, j];
    } else {
      Step(m, k, i, j);
      var via := D(m, k - 1, i, k - 1) + D(m, k - 1, k - 1, j);
      if via < D(m, k - 1, i, j) {
        var w1 := DistanceIsWalk(m, k - 1, i, k - 1);
        var w2 := DistanceIsWalk(m, k - 1, k - 1, j);
        JoinWalks(m, w1, w2, k - 1);
        w := w1 + w2[1..];
      } else {
        w := DistanceIsWalk(m, k - 1, i, j);
        WalkWiden(m, w, k - 1);
      }
    }
  }

  /** A walk through vertices below k is one through vertices below k + 1. */
  lemma WalkWiden(m: seq<seq<int>>, w: seq<int>, k: nat)
    requires Square(m) && Walk(m, w, k)
    ensures Walk(m, w, k + 1)
  {
  }

  /** No walk from i to j through vertices below k has fewer edges than the distance. */
  lemma {:induction false} DistanceIsShortest(m: seq<seq<int>>, k: nat, w: seq<int>)
    requires Square(m) && Binary(m) && k <= |m| && Walk(m, w, k)
    ensures D(m, k, w[0], w[|w| - 1]) <= |w| - 1
    decreases k
  {
    if k == 0 {
      assert 0 <= w[1];
      assert |w| == 2;
    } else if forall t :: 0 < t < |w| - 1 ==> w[t] != k - 1 {
      assert Walk(m, w, k - 1);
      DistanceIsShortest(m, k - 1, w);
    } else {
      var p := FirstVisit(w, k - 1);
      var q := LastVisit(w, k - 1);
      var w1, w2 := SplitAt(m, w, k, p, q);
      DistanceIsShortest(m, k - 1, w1);
      DistanceIsShortest(m, k - 1, w2);
      Step(m, k, w[0], w[|w| - 1]);
    }
  }

  /** Cut at the first and the last visit of k - 1, a walk gives two walks through vertices below k - 1. */
  lemma SplitAt(m: seq<seq<int>>, w: seq<int>, k: nat, p: nat, q: nat) returns (w1: seq<int>, w2: seq<int>)
    requires Square(m) && 0 < k && Walk(m, w, k)
    requires 0 < p <= q < |w| - 1 && w[p] == k - 1 && w[q] == k - 1
    requires forall t :: 0 < t < p ==> w[t] != k - 1
    requires forall t :: q < t < |w| - 1 ==> w[t] != k - 1
    ensures WalkOf(m, w1, k - 1, w[0], k - 1, p)
    ensures WalkOf(m, w2, k - 1, k - 1, w[|w| - 1], |w| - 1 - q)
  {
    w1, w2 := w[..p + 1], w[q..];
    assert forall t :: 0 <= t < |w2| ==> w2[t] == w[q + t];
  }

  /**
   * Round k leaves row k and column k alone, since no distance is below 1:
   * the in-place update reads the same pivot values whether or not they
   * have been relaxed already.
   */
  lemma PivotFixed(m: seq<seq<int>>, k: nat, a: nat)
    requires Square(m) && Binary(m) && k < |m| && a < |m|
    ensures D(m, k + 1, a, k) == D(m, k, a, k)
    ensures D(m, k + 1, k, a) == D(m, k, k, a)
  {
    Step(m, k + 1, a, k);
    Step(m, k + 1, k, a);
    assert D(m, k, k, k) >= 1;
  }

  /** The first double loop of floydWarshall: the edge entries, INF where there is none. */
  method InitialDistances(mg: MatrixGraph) returns (dist: array2<int>)
    requires mg.Valid()
    ensures fresh(dist) && dist.Length0 == mg.nodes && dist.Length1 == mg.nodes
    ensures forall i, j :: 0 <= i < mg.nodes && 0 <= j < mg.nodes ==> dist[i, j] == D(mg.Snapshot(), 0, i, j)
  {
    var n := mg.nodes;
    dist := new int[n, n];
    for i := 0 to n
      invariant forall a, b :: 0 <= a < i && 0 <= b < n ==> dist[a, b] == Start(mg.matrix[a, b])
    {
      for j := 0 to n
        invariant forall a, b :: 0 <= a < i && 0 <= b < n ==> dist[a, b] == Start(mg.matrix[a, b])
        invariant forall b :: 0 <= b < j ==> dist[i, b] == Start(mg.matrix[i, b])
      {
        dist[i, j] := if mg.matrix[i, j] != 0 then mg.matrix[i, j] else INF;
      }
    }
  }

  /** The innermost loop for row i of round k: each entry of the row becomes its round-(k + 1) distance. */
  method RelaxRow(dist: array2<int>, ghost m: seq<seq<int>>, k: nat, i: nat)
    requires Square(m) && Binary(m) && dist.Length0 == |m| && dist.Length1 == |m| && k < |m| && i < |m|
    requires forall a, b :: 0 <= a < |m| && 0 <= b < |m| ==> dist[a, b] == if a < i then D(m, k + 1, a, b) else D(m, k, a, b)
    modifies dist
    ensures forall a, b :: 0 <= a < |m| && 0 <= b < |m| ==> dist[a, b] == if a <= i then D(m, k + 1, a, b) else D(m, k, a, b)
  {
    var n := dist.Length1;
    for j := 0 to n
      invariant forall a, b :: 0 <= a < |m| && 0 <= b < |m| ==>
                  dist[a, b] == if a < i || (a == i && b < j) then D(m, k + 1, a, b) else D(m, k, a, b)
    {
      PivotFixed(m, k, i);
      PivotFixed(m, k, j);
      Step(m, k + 1, i, j);
      if dist[i, k] + dist[k, j] < dist[i, j] {
        dist[i, j] := dist[i, k] + dist[k, j];
      }
    }
  }

  /** One round of the k loop: every entry becomes its round-(k + 1) distance. */
  method Relax(dist: array2<int>, ghost m: seq<seq<int>>, k: nat)
    requires Square(m) && Binary(m) && dist.Length0 == |m| && dist.Length1 == |m| && k < |m|
    requires forall a, b :: 0 <= a < |m| && 0 <= b < |m| ==> dist[a, b] == D(m, k, a, b)
    modifies dist
    ensures forall a, b :: 0 <= a < |m| && 0 <= b < |m| ==> dist[a, b] == D(m, k + 1, a, b)
  {
    var n := dist.Length0;
    for i := 0 to n
      invariant forall a, b :: 0 <= a < |m| && 0 <= b < |m| ==> dist[a, b] == if a < i then D(m, k + 1, a, b) else D(m, k, a, b)
    {
      RelaxRow(dist, m, k, i);
    }
  }

  /** The output double loop: each row of distances as printed, INF shown as -1. */
  method Rows(dist: array2<int>) returns (rows: seq<seq<int>>)
    ensures |rows| == dist.Length0
    ensures forall i :: 0 <= i < |rows| ==> |rows[i]| == dist.Length1
    ensures forall i, j :: 0 <= i < dist.Length0 && 0 <= j < dist.Length1 ==> rows[i][j] == Shown(dist[i, j])
  {
    rows := [];
    for i := 0 to dist.Length0
      invariant |rows| == i
      invariant forall a :: 0 <= a < i ==> |rows[a]| == dist.Length1
      invariant forall a, b :: 0 <= a < i && 0 <= b < dist.Length1 ==> rows[a][b] == Shown(dist[a, b])
    {
      var row := [];
      for j := 0 to dist.Length1
        invariant |row| == j
        invariant forall b :: 0 <= b < j ==> row[b] == Shown(dist[i, b])
      {
        row := row + [if dist[i, j] == INF then -1 else dist[i, j]];
      }
      rows := rows + [row];
    }
  }

  /**
   * floydWarshall: the rows it prints hold, for every i and j, the
   * distance once every vertex has been tried as an intermediate, -1 for
   * INF. By DistanceIsWalk and DistanceIsShortest, a finite entry is the
   * number of edges of a shortest walk from i to j.
   */
  method FloydWarshall(mg: MatrixGraph) returns (rows: seq<seq<int>>)
    requires mg.Valid()
    ensures |rows| == mg.nodes
    ensures forall i :: 0 <= i < mg.nodes ==> |rows[i]| == mg.nodes
    ensures forall i, j :: 0 <= i < mg.nodes && 0 <= j < mg.nodes ==>
              rows[i][j] == Shown(D(mg.Snapshot(), mg.nodes, i, j))
  {
    ghost var m := mg.Snapshot();
    var dist := InitialDistances(mg);
    for k := 0 to mg.nodes
      invariant forall a, b :: 0 <= a < |m| && 0 <= b < |m| ==> dist[a, b] == D(m, k, a, b)
    {
      Relax(dist, m, k);
    }
    rows := Rows(dist);
  }
}
