/**
 * The in-degree table that `top_sort` in Graph/top_sort_kahn.c builds
 * before its queue phase: for every vertex, the number of vertices whose
 * list holds it.
 */
module Kahn {
  import opened ListGraphs

  /** The vertices below `m` with an edge to `v`. */
  ghost function Sources(adj: seq<seq<int>>, v: int, m: nat): set<int>
    requires m <= |adj|
  {
    set j | 0 <= j < m && v in adj[j]
  }

  /** The in-degree of `v`: how many vertices have an edge to it. */
  ghost function InDegree(adj: seq<seq<int>>, v: int): nat
  {
    |Sources(adj, v, |adj|)|
  }

  /** No vertex has more sources than there are vertices. */
  lemma {:induction false} SourcesBound(adj: seq<seq<int>>, v: int, m: nat)
    requires m <= |adj|
    ensures |Sources(adj, v, m)| <= m
  {
    if m > 0 {
      SourcesBound(adj, v, m - 1);
      assert Sources(adj, v, m) == Sources(adj, v, m - 1) + (if v in adj[m - 1] then {m - 1} else {});
    }
  }

  /** Hence an in-degree never exceeds the number of vertices. */
  lemma InDegreeBound(adj: seq<seq<int>>, v: int)
    ensures InDegree(adj, v) <= |adj|
  {
    SourcesBound(adj, v, |adj|);
  }

  /** One more candidate source: j counts exactly when its list holds v. */
  lemma SourcesStep(adj: seq<seq<int>>, v: int, j: nat)
    requires j < |adj|
    ensures Sources(adj, v, j + 1) == Sources(adj, v, j) + (if v in adj[j] then {j} else {})
  {
  }

  /**
   * The nested loops of `top_sort`: `in_degree[i]` starts at 0 (calloc)
   * and gains lg_has_edge(j, i) for every vertex j.
   */
  method InDegrees(graph: ListGraph) returns (inDegree: array<int>)
    requires graph.Valid()
    ensures fresh(inDegree)
    ensures inDegree.Length == graph.nodes
    ensures forall i :: 0 <= i < graph.nodes ==> inDegree[i] == InDegree(graph.neighbors[..], i)
  {
    var n := graph.nodes;
    inDegree := new int[n](_ => 0);
    for i := 0 to n
      invariant forall v :: 0 <= v < i ==> inDegree[v] == InDegree(graph.neighbors[..], v)
      invariant forall v :: i <= v < n ==> inDegree[v] == 0
    {
      CountSources(graph, inDegree, i);
    }
  }

  /** The inner loop of the in-degree count: counter i gains one for every source of i. */
  method CountSources(graph: ListGraph, inDegree: array<int>, i: nat)
    requires graph.Valid() && inDegree.Length == graph.nodes && i < graph.nodes
    requires inDegree[i] == 0
    modifies inDegree
    ensures inDegree[..] == old(inDegree[..])[i := InDegree(graph.neighbors[..], i)]
  {
    var n := graph.nodes;
    ghost var adj := graph.neighbors[..];
    for j := 0 to n
      invariant inDegree[..] == old(inDegree[..])[i := |Sources(adj, i, j)|]
    {
      var e := graph.HasEdge(j, i);
      SourcesStep(adj, i, j);
      inDegree[i] := inDegree[i] + (if e then 1 else 0);
    }
  }
}
