/**
 * `DFS_helper` and `print_connected_components` of Graph/comp_conex.c:
 * a recursive depth-first search that marks vertices in `visited` and
 * appends each vertex to the output list once all its neighbours are
 * done, started from every still unvisited vertex in ascending order,
 * with a -1 marker after each search. Each method computes exactly what
 * the reference functions `Dfs`, `DfsList` and `Searches` describe, and
 * the structure of their results is proved about those functions.
 */
module Components {
  import opened Chain
  import opened LinkedLists
  import NthList
  import ListSpec
  import opened ListGraphs
  import opened ComponentSpec

  /** The vertices marked in `visited`. */
  ghost function Seen(visited: array<bool>): set<int>
    reads visited
  {
    set v | 0 <= v < visited.Length && visited[v]
  }

  /** The vertices not yet marked: shrinks with every search started. */
  ghost function Unseen(visited: array<bool>): set<int>
    reads visited
  {
    set v | 0 <= v < visited.Length && !visited[v]
  }

  /**
   * DFS_helper: marks `node`, handles each neighbour in list order, then
   * appends `node`. What it appends and marks is the reference search
   * `Dfs`, hence a post-order block of exactly the vertices it marked.
   */
  method DfsHelper(graph: ListGraph, node: int, visited: array<bool>, allNodes: LinkedList<int>)
    returns (ghost block: seq<int>)
    requires graph.Valid() && allNodes.Valid()
    requires visited.Length == graph.nodes
    requires 0 <= node < graph.nodes && !visited[node]
    requires visited !in allNodes.Repr && graph !in allNodes.Repr && graph.neighbors !in allNodes.Repr
    modifies visited, allNodes.Repr
    decreases Unseen(visited), 0
    ensures allNodes.Valid() && fresh(allNodes.Repr - old(allNodes.Repr))
    ensures allNodes.Contents == old(allNodes.Contents) + block
    ensures Unseen(visited) <= old(Unseen(visited))
    ensures block == Dfs(graph.neighbors[..], node, old(Seen(visited))).0
    ensures Seen(visited) == Dfs(graph.neighbors[..], node, old(Seen(visited))).1
    ensures Block(graph.neighbors[..], block, node, old(Seen(visited)), Seen(visited))
  {
    ghost var adj := graph.neighbors[..];
    ghost var seen0 := Seen(visited);
    ghost var unseen0 := Unseen(visited);
    visited[node] := true;
    assert Seen(visited) == seen0 + {node};
    assert Unseen(visited) == unseen0 - {node};
    block := VisitAll(graph, node, visited, allNodes);
    NthList.AddNth(allNodes, allNodes.size, node);
    block := block + [node];
    DfsBlock(adj, node, seen0);
  }

  /**
   * The loop of DFS_helper over the neighbours of `root`, already
   * marked: it emits and marks what the reference loop `DfsList` does.
   */
  method VisitAll(graph: ListGraph, root: int, visited: array<bool>, allNodes: LinkedList<int>)
    returns (ghost block: seq<int>)
    requires graph.Valid() && allNodes.Valid()
    requires visited.Length == graph.nodes
    requires 0 <= root < graph.nodes && visited[root]
    requires visited !in allNodes.Repr && graph !in allNodes.Repr && graph.neighbors !in allNodes.Repr
    modifies visited, allNodes.Repr
    decreases Unseen(visited), 2
    ensures allNodes.Valid() && fresh(allNodes.Repr - old(allNodes.Repr))
    ensures allNodes.Contents == old(allNodes.Contents) + block
    ensures Unseen(visited) <= old(Unseen(visited))
    ensures block == DfsList(graph.neighbors[..], root, 0, old(Seen(visited))).0
    ensures Seen(visited) == DfsList(graph.neighbors[..], root, 0, old(Seen(visited))).1
  {
    ghost var adj := graph.neighbors[..];
    ghost var unseen1 := Unseen(visited);
    ghost var c0 := allNodes.Contents;
    ghost var seen := Seen(visited);
    ghost var all := DfsList(adj, root, 0, seen);
    block := [];
    var nbrs := graph.neighbors[root];
    var len := |nbrs|;
    for i := 0 to len
      invariant allNodes.Valid() && fresh(allNodes.Repr - old(allNodes.Repr))
      invariant allNodes.Contents == c0 + block
      invariant Unseen(visited) <= unseen1
      invariant seen == Seen(visited) && Emitted(adj, root, i, seen, block, all)
    {
      ghost var child, seen' := Visit(graph, adj, root, i, visited, allNodes, seen);
      EmittedStep(adj, root, i, seen, seen', block, child, all);
      ListSpec.AppendAssoc(c0, block, child);
      block, seen := block + child, seen';
    }
    assert block + [] == block;
  }

  /**
   * The loop of DFS_helper before the `i`-th neighbour of `root`, with
   * `seen` marked: `block` followed by what the reference loop emits
   * from there on is `all`, and both end with the same vertices marked.
   */
  ghost predicate Emitted(adj: seq<seq<int>>, root: int, i: nat, seen: set<int>, block: seq<int>,
                          all: (seq<int>, set<int>))
    requires Wellformed(adj) && 0 <= root < |adj| && i <= |adj[root]|
  {
    block + DfsList(adj, root, i, seen).0 == all.0 && DfsList(adj, root, i, seen).1 == all.1
  }

  /** One step of the reference loop keeps `Emitted`. */
  lemma EmittedStep(adj: seq<seq<int>>, root: int, i: nat, seen: set<int>, seen': set<int>,
                    block: seq<int>, child: seq<int>, all: (seq<int>, set<int>))
    requires Wellformed(adj) && 0 <= root < |adj| && i < |adj[root]|
    requires Emitted(adj, root, i, seen, block, all)
    requires DfsList(adj, root, i, seen).0 == child + DfsList(adj, root, i + 1, seen').0
    requires DfsList(adj, root, i, seen).1 == DfsList(adj, root, i + 1, seen').1
    ensures Emitted(adj, root, i + 1, seen', block + child, all)
  {
    ListSpec.AppendAssoc(block, child, DfsList(adj, root, i + 1, seen').0);
  }

  /**
   * One turn of the loop in DFS_helper, for the `k`-th neighbour `w` of
   * `root`: a neighbour still unvisited is searched from and its block
   * appended; a visited one is skipped. This is one step of `DfsList`.
   */
  method Visit(graph: ListGraph, ghost adj: seq<seq<int>>, root: int, k: nat, visited: array<bool>,
               allNodes: LinkedList<int>, ghost seen: set<int>)
    returns (ghost child: seq<int>, ghost seen': set<int>)
    requires graph.Valid() && allNodes.Valid() && adj == graph.neighbors[..] && seen == Seen(visited)
    requires visited.Length == graph.nodes
    requires 0 <= root < graph.nodes && k < |graph.neighbors[root]|
    requires visited !in allNodes.Repr && graph !in allNodes.Repr && graph.neighbors !in allNodes.Repr
    modifies visited, allNodes.Repr
    decreases Unseen(visited), 1
    ensures allNodes.Valid() && fresh(allNodes.Repr - old(allNodes.Repr))
    ensures allNodes.Contents == old(allNodes.Contents) + child
    ensures Unseen(visited) <= old(Unseen(visited))
    ensures seen' == Seen(visited)
    ensures DfsList(adj, root, k, seen).0 == child + DfsList(adj, root, k + 1, seen').0
    ensures DfsList(adj, root, k, seen).1 == DfsList(adj, root, k + 1, seen').1
  {
    var w := graph.neighbors[root][k];
    assert 0 <= w < graph.nodes;
    if visited[w] {
      assert w in seen;
      assert [] + DfsList(adj, root, k + 1, seen).0 == DfsList(adj, root, k + 1, seen).0;
      return [], seen;
    }
    assert w !in seen;
    child := DfsHelper(graph, w, visited, allNodes);
    seen' := Seen(visited);
  }

  /**
   * print_connected_components, without the printing: the list it
   * prints and the count `cc` it prints first. The list is the blocks
   * `comps` of the reference searches, each followed by -1; so every
   * vertex lies in exactly one block, each block is a post-order DFS
   * tree rooted at its last vertex, each root is the smallest vertex
   * left over by the earlier blocks, and no block has a neighbour in a
   * later block.
   */
  method ConnectedComponents(graph: ListGraph) returns (list: LinkedList<int>, cc: int, ghost comps: seq<seq<int>>)
    requires graph.Valid()
    ensures list.Valid() && fresh(list.Repr)
    ensures list.Contents == Join(comps) && cc == |comps|
    ensures comps == Searches(graph.neighbors[..], 0, {})
    ensures Components(graph.neighbors[..], comps, graph.nodes)
  {
    list := new LinkedList();
    var visited := new bool[graph.nodes](_ => false);
    assert Seen(visited) == {};
    cc, comps := SearchAll(graph, visited, list);
    SearchesAreComponents(graph.neighbors[..], comps, graph.nodes);
  }

  /**
   * The loop of print_connected_components, from an empty list and no
   * vertex visited: a search from each vertex still unvisited when its
   * turn comes, as the reference `Searches` does.
   */
  method SearchAll(graph: ListGraph, visited: array<bool>, list: LinkedList<int>)
    returns (cc: int, ghost comps: seq<seq<int>>)
    requires graph.Valid() && list.Valid()
    requires visited.Length == graph.nodes && Seen(visited) == {}
    requires visited !in list.Repr && graph !in list.Repr && graph.neighbors !in list.Repr
    requires list.Contents == []
    modifies visited, list.Repr
    ensures list.Valid() && fresh(list.Repr - old(list.Repr))
    ensures list.Contents == Join(comps) && cc == |comps|
    ensures comps == Searches(graph.neighbors[..], 0, {})
  {
    ghost var adj := graph.neighbors[..];
    ghost var seen: set<int> := {};
    cc := 0;
    comps := [];
    assert comps + Searches(adj, 0, seen) == Searches(adj, 0, {});
    for i := 0 to graph.nodes
      invariant list.Valid() && fresh(list.Repr - old(list.Repr))
      invariant visited !in list.Repr && graph !in list.Repr && graph.neighbors !in list.Repr
      invariant list.Contents == Join(comps) && cc == |comps|
      invariant seen == Seen(visited) && Found(adj, i, seen, comps)
    {
      ghost var comps0, seen0 := comps, seen;
      if !visited[i] {
        comps, seen := Search(graph, adj, i, visited, list, comps, seen);
        cc := cc + 1;
      } else {
        assert i in seen;
        SkipStep(adj, comps, i, seen);
      }
      FoundStep(adj, i, seen0, seen, comps0, comps);
    }
    assert comps + Searches(adj, graph.nodes, seen) == comps;
  }

  /**
   * The loop of print_connected_components before vertex `i`, with
   * `seen` marked: `comps` followed by the reference searches from `i`
   * on is the whole reference run.
   */
  ghost predicate Found(adj: seq<seq<int>>, i: nat, seen: set<int>, comps: seq<seq<int>>)
    requires Wellformed(adj) && i <= |adj|
  {
    comps + Searches(adj, i, seen) == Searches(adj, 0, {})
  }

  /** One step of the reference outer loop keeps `Found`. */
  lemma FoundStep(adj: seq<seq<int>>, i: nat, seen: set<int>, seen': set<int>,
                  comps: seq<seq<int>>, comps': seq<seq<int>>)
    requires Wellformed(adj) && i < |adj| && Found(adj, i, seen, comps)
    requires comps' + Searches(adj, i + 1, seen') == comps + Searches(adj, i, seen)
    ensures Found(adj, i + 1, seen', comps')
  {
  }

  /**
   * The body of the loop in print_connected_components for an unvisited
   * vertex `i`: a search from it, then the -1 marker; one step of the
   * reference `Searches`.
   */
  method Search(graph: ListGraph, ghost adj: seq<seq<int>>, i: int, visited: array<bool>, list: LinkedList<int>,
                ghost comps: seq<seq<int>>, ghost seen: set<int>)
    returns (ghost comps': seq<seq<int>>, ghost seen': set<int>)
    requires graph.Valid() && list.Valid() && adj == graph.neighbors[..] && seen == Seen(visited)
    requires visited.Length == graph.nodes
    requires visited !in list.Repr && graph !in list.Repr && graph.neighbors !in list.Repr
    requires 0 <= i < graph.nodes && !visited[i]
    requires list.Contents == Join(comps)
    modifies visited, list.Repr
    ensures list.Valid() && fresh(list.Repr - old(list.Repr))
    ensures list.Contents == Join(comps')
    ensures seen' == Seen(visited)
    ensures comps' == comps + [Dfs(adj, i, seen).0] && seen' == Dfs(adj, i, seen).1
    ensures comps' + Searches(adj, i + 1, seen') == comps + Searches(adj, i, seen)
  {
    assert i !in seen;
    ghost var b := DfsHelper(graph, i, visited, list);
    NthList.AddNth(list, list.size, -1);
    comps' := comps + [b];
    seen' := Seen(visited);
    assert comps'[..|comps|] == comps;
    SearchesStep(adj, comps, i, seen);
  }
}
