/**
 * The adjacency-list graph of Graph/comp_conex.c and Graph/top_sort_kahn.c
 * (`list_graph_t`): vertex `v`'s list holds the destinations of its
 * out-edges in the order they were added. Every operation checks that
 * its vertices lie in [0, nodes) and does nothing (or answers 0/NULL)
 * otherwise.
 */
module ListGraphs {
  import opened Options
  import opened ListSpec

  /** is_node_in_graph */
  predicate InGraph(n: int, nodes: int)
  {
    0 <= n < nodes
  }

  /** Every list entry names a vertex of a graph with |adj| vertices. */
  ghost predicate Wellformed(adj: seq<seq<int>>)
  {
    forall v, j :: 0 <= v < |adj| && 0 <= j < |adj[v]| ==> 0 <= adj[v][j] < |adj|
  }

  /** Replacing one list by a list of vertices keeps the graph well formed. */
  lemma WellformedUpdate(adj: seq<seq<int>>, v: nat, ll: seq<int>)
    requires Wellformed(adj) && v < |adj|
    requires forall j :: 0 <= j < |ll| ==> 0 <= ll[j] < |adj|
    ensures Wellformed(adj[v := ll])
  {
  }

  /**
   * find_node: the position of the first entry equal to `node`, or none
   * when the list does not hold it.
   */
  method FindNode(ll: seq<int>, node: int) returns (pos: Option<nat>)
    ensures pos == None <==> node !in ll
    ensures pos.Some? ==> pos.value < |ll| && ll[pos.value] == node && node !in ll[..pos.value]
  {
    var i := 0;
    while i != |ll|
      invariant 0 <= i <= |ll|
      invariant node !in ll[..i]
    {
      if node == ll[i] {
        return Some(i);
      }
      assert ll[..i + 1] == ll[..i] + [ll[i]];
      i := i + 1;
    }
    assert ll[..i] == ll;
    return None;
  }

  class ListGraph {
    var neighbors: array<seq<int>>
    var nodes: int

    ghost predicate Valid()
      reads this, neighbors
    {
      && neighbors.Length == nodes
      && Wellformed(neighbors[..])
    }

    /** lg_create: `nodes` vertices, each with an empty list. */
    constructor (nodes: nat)
      ensures Valid() && fresh(neighbors)
      ensures this.nodes == nodes
      ensures forall v :: 0 <= v < nodes ==> neighbors[v] == []
    {
      var a := new seq<int>[nodes];
      var i := 0;
      while i != nodes
        invariant 0 <= i <= nodes
        invariant forall v :: 0 <= v < i ==> a[v] == []
      {
        a[i] := [];
        i := i + 1;
      }
      neighbors := a;
      this.nodes := nodes;
    }

    /**
     * lg_add_edge: appends `dest` to the list of `src` when both are
     * vertices; nothing else changes.
     */
    method AddEdge(src: int, dest: int)
      requires Valid()
      modifies neighbors
      ensures Valid()
      ensures InGraph(src, nodes) && InGraph(dest, nodes) ==>
                neighbors[src] == old(neighbors[src]) + [dest]
      ensures !(InGraph(src, nodes) && InGraph(dest, nodes)) ==> neighbors[..] == old(neighbors[..])
      ensures forall v :: 0 <= v < nodes && v != src ==> neighbors[v] == old(neighbors[v])
    {
      if !InGraph(src, nodes) || !InGraph(dest, nodes) {
        return;
      }
      var ll := neighbors[src];
      var updated := InsertAt(ll, |ll|, dest);
      WellformedUpdate(neighbors[..], src, updated);
      neighbors[src] := updated;
      assert neighbors[..] == old(neighbors[..])[src := updated];
    }

    /** lg_has_edge: true exactly when both are vertices and `src`'s list holds `dest`. */
    method HasEdge(src: int, dest: int) returns (r: bool)
      requires Valid()
      ensures r <==> InGraph(src, nodes) && InGraph(dest, nodes) && dest in neighbors[src]
    {
      if !InGraph(src, nodes) || !InGraph(dest, nodes) {
        return false;
      }
      var pos := FindNode(neighbors[src], dest);
      return pos != None;
    }

    /** lg_get_neighbours: the list of `node`, or NULL for a non-vertex. */
    function GetNeighbours(node: int): (r: Option<seq<int>>)
      reads this, neighbors
      requires Valid()
      ensures r == None <==> !InGraph(node, nodes)
      ensures r.Some? ==> r.value == neighbors[node]
      ensures r.Some? ==> forall j :: 0 <= j < |r.value| ==> InGraph(r.value[j], nodes)
    {
      if !InGraph(node, nodes) then None else Some(neighbors[node])
    }

    /**
     * lg_remove_edge: takes the first `dest` out of `src`'s list when both
     * are vertices and the edge exists; nothing else changes.
     */
    method RemoveEdge(src: int, dest: int)
      requires Valid()
      modifies neighbors
      ensures Valid()
      ensures InGraph(src, nodes) && InGraph(dest, nodes) ==>
                neighbors[src] == RemoveFirst(old(neighbors[src]), dest)
      ensures !(InGraph(src, nodes) && InGraph(dest, nodes)) ==> neighbors[..] == old(neighbors[..])
      ensures forall v :: 0 <= v < nodes && v != src ==> neighbors[v] == old(neighbors[v])
    {
      if !InGraph(src, nodes) || !InGraph(dest, nodes) {
        return;
      }
      var ll := neighbors[src];
      var pos := FindNode(ll, dest);
      if pos == None {
        return;
      }
      RemoveFirstAt(ll, dest, pos.value);
      var updated := RemoveAt(ll, pos.value);
      WellformedUpdate(neighbors[..], src, updated);
      neighbors[src] := updated;
      assert neighbors[..] == old(neighbors[..])[src := updated];
    }
  }
}
