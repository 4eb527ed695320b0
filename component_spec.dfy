/**
 * What the list built by `print_connected_components` in
 * Graph/comp_conex.c is made of. The DFS visits vertices in ascending
 * order of their numbers; each search emits a block of vertices in
 * post-order (a vertex after everything its search reached), and every
 * block is followed by a -1 marker.
 */
module ComponentSpec {
  import opened ListGraphs

  /** The values a block holds. */
  ghost function Elems(b: seq<int>): set<int>
  {
    set x | x in b
  }

  ghost predicate Distinct(b: seq<int>)
  {
    forall i, j :: 0 <= i < j < |b| ==> b[i] != b[j]
  }

  function Last(b: seq<int>): int
    requires |b| > 0
  {
    b[|b| - 1]
  }

  /** Some later entry of `s` has the entry at `p` in its adjacency list. */
  ghost predicate HasParent(adj: seq<seq<int>>, s: seq<int>, p: int)
    requires 0 <= p < |s|
  {
    exists q :: p < q < |s| && 0 <= s[q] < |adj| && s[p] in adj[s[q]]
  }

  /**
   * A post-order DFS tree, the root last: every entry but the last was
   * reached from a vertex emitted after it.
   */
  ghost predicate Tree(adj: seq<seq<int>>, s: seq<int>)
  {
    forall p :: 0 <= p < |s| - 1 ==> HasParent(adj, s, p)
  }

  /** Every neighbour of an entry of `b` lies in `seen`. */
  ghost predicate ClosedIn(adj: seq<seq<int>>, b: seq<int>, seen: set<int>)
  {
    forall p, x :: 0 <= p < |b| && 0 <= b[p] < |adj| && x in adj[b[p]] ==> x in seen
  }

  /**
   * What a search from `root` has emitted as it works through the
   * neighbours of `root`: the vertices it visited besides `root`, once
   * each, each reached from `root` or from a vertex emitted after it;
   * `seen0` is what was visited before the search began.
   */
  ghost predicate Partial(adj: seq<seq<int>>, b: seq<int>, root: int, seen0: set<int>, seen: set<int>)
  {
    && Distinct(b)
    && root !in b
    && root !in seen0
    && seen0 + {root} <= seen
    && Elems(b) == seen - seen0 - {root}
    && Tree(adj, b + [root])
    && ClosedIn(adj, b, seen)
  }

  /**
   * What a whole search from `root` emits: exactly the vertices it
   * newly visited, once each, in post-order with `root` last, and no
   * neighbour of them left unvisited.
   */
  ghost predicate Block(adj: seq<seq<int>>, b: seq<int>, root: int, seen0: set<int>, seen: set<int>)
  {
    && |b| > 0
    && Last(b) == root
    && Distinct(b)
    && seen0 <= seen
    && Elems(b) == seen - seen0
    && Tree(adj, b)
    && ClosedIn(adj, b, seen)
  }

  lemma PartialStart(adj: seq<seq<int>>, root: int, seen0: set<int>)
    requires root !in seen0
    ensures Partial(adj, [], root, seen0, seen0 + {root})
  {
    assert Elems([]) == {};
  }

  /** Appending the block of a child search keeps a partial block. */
  lemma PartialExtend(adj: seq<seq<int>>, b: seq<int>, c: seq<int>, root: int, w: int,
                      seen0: set<int>, seen1: set<int>, seen2: set<int>)
    requires 0 <= root < |adj| && w in adj[root]
    requires Partial(adj, b, root, seen0, seen1)
    requires Block(adj, c, w, seen1, seen2)
    ensures Partial(adj, b + c, root, seen0, seen2)
  {
    var bc := b + c;
    assert Elems(bc) == Elems(b) + Elems(c) by {
      forall x | x in bc
        ensures x in b || x in c
      {
        var i :| 0 <= i < |bc| && bc[i] == x;
        if i >= |b| {
          assert c[i - |b|] == x;
        }
      }
    }
    forall i, j | 0 <= i < j < |bc|
      ensures bc[i] != bc[j]
    {
      if j < |b| {
        assert b[i] != b[j];
      } else if i >= |b| {
        assert c[i - |b|] != c[j - |b|];
      } else {
        assert bc[i] in Elems(b) && bc[j] in Elems(c);
      }
    }
    TreeJoin(adj, b, c, root);
    forall p, x | 0 <= p < |bc| && 0 <= bc[p] < |adj| && x in adj[bc[p]]
      ensures x in seen2
    {
      if p >= |b| {
        assert c[p - |b|] == bc[p];
      } else {
        assert b[p] == bc[p];
      }
    }
  }

  /** The post-order structure survives putting a child's block before the root. */
  lemma TreeJoin(adj: seq<seq<int>>, b: seq<int>, c: seq<int>, root: int)
    requires 0 <= root < |adj| && |c| > 0 && Last(c) in adj[root]
    requires Tree(adj, b + [root]) && Tree(adj, c)
    ensures Tree(adj, b + c + [root])
  {
    var s := b + c + [root];
    forall p | 0 <= p < |s| - 1
      ensures HasParent(adj, s, p)
    {
      if p < |b| {
        assert HasParent(adj, b + [root], p);
        var q :| p < q < |b| + 1 && 0 <= (b + [root])[q] < |adj| && (b + [root])[p] in adj[(b + [root])[q]];
        if q < |b| {
          assert s[q] == b[q] && s[p] == b[p];
        } else {
          assert s[|s| - 1] == root && s[p] == b[p];
        }
      } else if p < |s| - 2 {
        assert HasParent(adj, c, p - |b|);
        var q :| p - |b| < q < |c| && 0 <= c[q] < |adj| && c[p - |b|] in adj[c[q]];
        assert s[q + |b|] == c[q] && s[p] == c[p - |b|];
      } else {
        assert s[p] == Last(c) && s[|s| - 1] == root;
      }
    }
  }

  /** Once every neighbour of the root is visited, the root closes the block. */
  lemma PartialClose(adj: seq<seq<int>>, b: seq<int>, root: int, seen0: set<int>, seen: set<int>)
    requires 0 <= root < |adj|
    requires Partial(adj, b, root, seen0, seen)
    requires forall x :: x in adj[root] ==> x in seen
    ensures Block(adj, b + [root], root, seen0, seen)
  {
    var s := b + [root];
    assert Elems(s) == Elems(b) + {root} by {
      forall x | x in s
        ensures x in b || x == root
      {
        var i :| 0 <= i < |s| && s[i] == x;
        if i < |b| {
          assert b[i] == x;
        }
      }
    }
    forall p, x | 0 <= p < |s| && 0 <= s[p] < |adj| && x in adj[s[p]]
      ensures x in seen
    {
      if p < |b| {
        assert b[p] == s[p];
      }
    }
  }

  /** The vertices of the graph not in `seen`: what a search may still visit. */
  ghost function Unvisited(adj: seq<seq<int>>, seen: set<int>): set<int>
  {
    set v | 0 <= v < |adj| && v !in seen
  }

  /**
   * The reference depth-first search from `v`, with `seen` visited
   * before it starts: mark `v`, search from each neighbour of `v` that is
   * still unvisited, in the order of `v`'s list, then emit `v`. The
   * result is the block emitted and the vertices visited afterwards.
   */
  ghost function Dfs(adj: seq<seq<int>>, v: int, seen: set<int>): (r: (seq<int>, set<int>))
    requires Wellformed(adj) && 0 <= v < |adj| && v !in seen
    ensures seen + {v} <= r.1
    ensures forall x :: x in r.1 && x !in seen ==> 0 <= x < |adj|
    ensures |r.0| > 0 && Last(r.0) == v
    decreases Unvisited(adj, seen), 0
  {
    assert v in Unvisited(adj, seen) && v !in Unvisited(adj, seen + {v});
    var rest := DfsList(adj, v, 0, seen + {v});
    (rest.0 + [v], rest.1)
  }

  /** The reference loop over `v`'s list from position `i` on: the blocks of the searches it starts, concatenated. */
  ghost function DfsList(adj: seq<seq<int>>, v: int, i: nat, seen: set<int>): (r: (seq<int>, set<int>))
    requires Wellformed(adj) && 0 <= v < |adj| && i <= |adj[v]|
    ensures seen <= r.1
    ensures forall x :: x in r.1 && x !in seen ==> 0 <= x < |adj|
    decreases Unvisited(adj, seen), 1, |adj[v]| - i
  {
    if i == |adj[v]| then ([], seen)
    else
      var w := adj[v][i];
      if w in seen then DfsList(adj, v, i + 1, seen)
      else
        var c := Dfs(adj, w, seen);
        assert w in Unvisited(adj, seen) && w !in Unvisited(adj, c.1);
        var rest := DfsList(adj, v, i + 1, c.1);
        (c.0 + rest.0, rest.1)
  }

  /**
   * The reference outer loop from vertex `i` on: a search from every
   * vertex still unvisited when its turn comes, in ascending order.
   */
  ghost function Searches(adj: seq<seq<int>>, i: nat, seen: set<int>): (r: seq<seq<int>>)
    requires Wellformed(adj) && i <= |adj|
    ensures |r| <= |adj| - i
    decreases |adj| - i
  {
    if i == |adj| then []
    else if i in seen then Searches(adj, i + 1, seen)
    else
      var d := Dfs(adj, i, seen);
      [d.0] + Searches(adj, i + 1, d.1)
  }

  /**
   * The reference search is a block: it emits exactly the vertices it
   * newly visits, once each, in post-order with `v` last, and leaves no
   * neighbour of them unvisited.
   */
  lemma {:induction false} DfsBlock(adj: seq<seq<int>>, v: int, seen: set<int>)
    requires Wellformed(adj) && 0 <= v < |adj| && v !in seen
    ensures Block(adj, Dfs(adj, v, seen).0, v, seen, Dfs(adj, v, seen).1)
    decreases Unvisited(adj, seen), 0
  {
    assert v in Unvisited(adj, seen) && v !in Unvisited(adj, seen + {v});
    var rest := DfsList(adj, v, 0, seen + {v});
    PartialStart(adj, v, seen);
    assert [] + rest.0 == rest.0;
    DfsListPartial(adj, v, 0, seen, seen + {v}, []);
    PartialClose(adj, rest.0, v, seen, rest.1);
  }

  /**
   * The reference loop over `v`'s list extends a partial block of `v`
   * and leaves every neighbour of `v` visited.
   */
  lemma {:induction false} DfsListPartial(adj: seq<seq<int>>, v: int, i: nat, seen0: set<int>,
                                          seen: set<int>, b: seq<int>)
    requires Wellformed(adj) && 0 <= v < |adj| && i <= |adj[v]|
    requires Partial(adj, b, v, seen0, seen)
    requires forall j :: 0 <= j < i ==> adj[v][j] in seen
    ensures Partial(adj, b + DfsList(adj, v, i, seen).0, v, seen0, DfsList(adj, v, i, seen).1)
    ensures forall x :: x in adj[v] ==> x in DfsList(adj, v, i, seen).1
    decreases Unvisited(adj, seen), 1, |adj[v]| - i
  {
    if i == |adj[v]| {
      assert b + [] == b;
      forall x | x in adj[v]
        ensures x in seen
      {
        var j :| 0 <= j < |adj[v]| && adj[v][j] == x;
      }
    } else {
      var w := adj[v][i];
      if w in seen {
        DfsListPartial(adj, v, i + 1, seen0, seen, b);
      } else {
        var c := Dfs(adj, w, seen);
        assert w in Unvisited(adj, seen) && w !in Unvisited(adj, c.1);
        DfsBlock(adj, w, seen);
        PartialExtend(adj, b, c.0, v, w, seen0, seen, c.1);
        var rest := DfsList(adj, v, i + 1, c.1);
        DfsListPartial(adj, v, i + 1, seen0, c.1, b + c.0);
        assert (b + c.0) + rest.0 == b + (c.0 + rest.0);
      }
    }
  }

  /**
   * The reference outer loop adds one component per search: from
   * vertex `i` on, the blocks it emits complete the components found
   * before `i` into `all`.
   */
  lemma {:induction false} SearchesComponents(adj: seq<seq<int>>, comps: seq<seq<int>>, i: nat, seen: set<int>,
                                              all: seq<seq<int>>)
    requires Wellformed(adj) && i <= |adj|
    requires Components(adj, comps, i) && SeenIs(comps, seen)
    requires forall x :: x in seen ==> 0 <= x < |adj|
    requires all == comps + Searches(adj, i, seen)
    ensures Components(adj, all, |adj|)
    decreases |adj| - i, 1
  {
    if i == |adj| {
      assert all == comps;
    } else if i in seen {
      SearchesSkip(adj, comps, i, seen, all);
    } else {
      SearchesAdd(adj, comps, i, seen, all);
    }
  }

  /** A vertex already visited starts no search of the reference. */
  lemma {:induction false} SearchesSkip(adj: seq<seq<int>>, comps: seq<seq<int>>, i: nat, seen: set<int>,
                                        all: seq<seq<int>>)
    requires Wellformed(adj) && i < |adj| && i in seen
    requires Components(adj, comps, i) && SeenIs(comps, seen)
    requires forall x :: x in seen ==> 0 <= x < |adj|
    requires all == comps + Searches(adj, i, seen)
    ensures Components(adj, all, |adj|)
    decreases |adj| - i, 0
  {
    assert InSome(comps, i);
    ComponentsSkip(adj, comps, i);
    SkipStep(adj, comps, i, seen);
    SearchesComponents(adj, comps, i + 1, seen, all);
  }

  /** A visited `i` is passed over by the reference loop. */
  lemma SkipStep(adj: seq<seq<int>>, comps: seq<seq<int>>, i: nat, seen: set<int>)
    requires Wellformed(adj) && i < |adj| && i in seen
    ensures comps + Searches(adj, i, seen) == comps + Searches(adj, i + 1, seen)
  {
  }

  /** A vertex still unvisited starts a search of the reference, whose block is the next component. */
  lemma {:induction false} SearchesAdd(adj: seq<seq<int>>, comps: seq<seq<int>>, i: nat, seen: set<int>,
                                       all: seq<seq<int>>)
    requires Wellformed(adj) && i < |adj| && i !in seen
    requires Components(adj, comps, i) && SeenIs(comps, seen)
    requires forall x :: x in seen ==> 0 <= x < |adj|
    requires all == comps + Searches(adj, i, seen)
    ensures Components(adj, all, |adj|)
    decreases |adj| - i, 0
  {
    var d := Dfs(adj, i, seen);
    FirstSearch(adj, comps, i, seen);
    SearchesStep(adj, comps, i, seen);
    SearchesComponents(adj, comps + [d.0], i + 1, d.1, all);
  }

  /** The first search of the reference from an unvisited `i`, split off. */
  lemma SearchesStep(adj: seq<seq<int>>, comps: seq<seq<int>>, i: nat, seen: set<int>)
    requires Wellformed(adj) && i < |adj| && i !in seen
    ensures comps + Searches(adj, i, seen)
            == (comps + [Dfs(adj, i, seen).0]) + Searches(adj, i + 1, Dfs(adj, i, seen).1)
  {
    var d := Dfs(adj, i, seen);
    assert Searches(adj, i, seen) == [d.0] + Searches(adj, i + 1, d.1);
  }

  /** The block of the reference search from an unvisited `i` is the next component. */
  lemma FirstSearch(adj: seq<seq<int>>, comps: seq<seq<int>>, i: nat, seen: set<int>)
    requires Wellformed(adj) && i < |adj| && i !in seen
    requires Components(adj, comps, i) && SeenIs(comps, seen)
    requires forall x :: x in seen ==> 0 <= x < |adj|
    ensures Components(adj, comps + [Dfs(adj, i, seen).0], i + 1)
    ensures SeenIs(comps + [Dfs(adj, i, seen).0], Dfs(adj, i, seen).1)
  {
    DfsBlock(adj, i, seen);
    ComponentsAdd(adj, comps, Dfs(adj, i, seen).0, i, seen, Dfs(adj, i, seen).1);
  }

  /**
   * The whole reference run `all` over the `n` vertices: its blocks
   * partition the vertices, each a post-order tree rooted at its last
   * vertex, roots ascending, no edge into a later block.
   */
  lemma SearchesAreComponents(adj: seq<seq<int>>, all: seq<seq<int>>, n: int)
    requires Wellformed(adj) && all == Searches(adj, 0, {}) && n == |adj|
    ensures Components(adj, all, n)
  {
    assert all == [] + Searches(adj, 0, {});
    SearchesComponents(adj, [], 0, {}, all);
  }

  /**
   * The graph 0 -> 1, 0 -> 2, 1 -> 2: the one search from 0 goes to 1,
   * from there to 2, and emits 2, 1, 0 in that order; the later edge
   * 0 -> 2 finds 2 already visited.
   */
  lemma DfsExample()
    ensures Searches(Example, 0, {}) == [[2, 1, 0]]
    ensures Join(Searches(Example, 0, {})) == [2, 1, 0, -1]
  {
    var all: set<int> := {0, 1, 2};
    DfsExampleFrom1();
    assert DfsList(Example, 0, 2, all).0 == [] && DfsList(Example, 0, 2, all).1 == all;
    assert DfsList(Example, 0, 1, all).0 == [] && DfsList(Example, 0, 1, all).1 == all;
    assert DfsList(Example, 0, 0, {0}).0 == [2, 1] && DfsList(Example, 0, 0, {0}).1 == all;
    assert Dfs(Example, 0, {}).0 == [2, 1, 0] && Dfs(Example, 0, {}).1 == all by {
      assert {} + {0} == {0};
    }
    assert Searches(Example, 3, all) == [];
    assert Searches(Example, 1, all) == [] by {
      assert Searches(Example, 2, all) == [];
    }
    assert Join([[2, 1, 0]]) == [2, 1, 0, -1] by {
      assert [[2, 1, 0]][..0] == [];
    }
  }

  /** The graph 0 -> 1, 0 -> 2, 1 -> 2 of `DfsExample`. */
  const Example: seq<seq<int>> := [[1, 2], [2], []]

  /** The search from 1 that `DfsExample` starts from 0: it reaches 2 first. */
  lemma DfsExampleFrom1()
    ensures Wellformed(Example)
    ensures Dfs(Example, 1, {0}).0 == [2, 1] && Dfs(Example, 1, {0}).1 == {0, 1, 2}
  {
    var all: set<int> := {0, 1, 2};
    assert Wellformed(Example);
    assert DfsList(Example, 2, 0, all).0 == [] && DfsList(Example, 2, 0, all).1 == all;
    assert Dfs(Example, 2, {0, 1}).0 == [2] && Dfs(Example, 2, {0, 1}).1 == all by {
      assert {0, 1} + {2} == all;
    }
    assert DfsList(Example, 1, 1, all).0 == [] && DfsList(Example, 1, 1, all).1 == all;
    assert DfsList(Example, 1, 0, {0, 1}).0 == [2] && DfsList(Example, 1, 0, {0, 1}).1 == all;
    assert {0} + {1} == {0, 1};
  }

  /** The output list: every block followed by a -1 marker. */
  function Join(comps: seq<seq<int>>): (r: seq<int>)
  {
    if comps == [] then []
    else Join(comps[..|comps| - 1]) + comps[|comps| - 1] + [-1]
  }

  ghost predicate InSome(comps: seq<seq<int>>, v: int)
  {
    exists d :: 0 <= d < |comps| && v in comps[d]
  }

  /** No vertex sits in two blocks or twice in one. */
  ghost predicate Partitioned(comps: seq<seq<int>>)
  {
    && (forall c :: 0 <= c < |comps| ==> Distinct(comps[c]))
    && (forall c, d, x :: 0 <= c < d < |comps| && x in comps[c] ==> x !in comps[d])
  }

  /** Every neighbour of a block's vertex is in that block or an earlier one. */
  ghost predicate ClosedBefore(adj: seq<seq<int>>, comps: seq<seq<int>>)
  {
    forall c, p, x :: 0 <= c < |comps| && 0 <= p < |comps[c]| && 0 <= comps[c][p] < |adj| && x in adj[comps[c][p]] ==>
      exists d :: 0 <= d <= c && x in comps[d]
  }

  /**
   * Each search starts at the smallest vertex not yet emitted: no vertex
   * of its block or of a later one is below its root.
   */
  ghost predicate MinimalRoots(comps: seq<seq<int>>)
    requires forall c :: 0 <= c < |comps| ==> |comps[c]| > 0
  {
    forall c, d, p :: 0 <= c <= d < |comps| && 0 <= p < |comps[d]| ==> Last(comps[c]) <= comps[d][p]
  }

  /** `seen` holds exactly the vertices of the blocks. */
  ghost predicate SeenIs(comps: seq<seq<int>>, seen: set<int>)
  {
    forall v :: v in seen <==> InSome(comps, v)
  }

  /**
   * The blocks `print_connected_components` has emitted before vertex
   * `i`: every vertex below `i` is in one of them.
   */
  ghost predicate Components(adj: seq<seq<int>>, comps: seq<seq<int>>, i: int)
  {
    && (forall c :: 0 <= c < |comps| ==> |comps[c]| > 0 && Tree(adj, comps[c]) && Last(comps[c]) < i)
    && (forall c, p :: 0 <= c < |comps| && 0 <= p < |comps[c]| ==> 0 <= comps[c][p] < |adj|)
    && Partitioned(comps)
    && ClosedBefore(adj, comps)
    && MinimalRoots(comps)
    && (forall v :: 0 <= v < i ==> InSome(comps, v))
  }

  /** A vertex already in a block needs no search of its own. */
  lemma ComponentsSkip(adj: seq<seq<int>>, comps: seq<seq<int>>, i: int)
    requires Components(adj, comps, i) && InSome(comps, i)
    ensures Components(adj, comps, i + 1)
  {
  }

  /** A search from an unvisited vertex `i` adds the next component. */
  lemma ComponentsAdd(adj: seq<seq<int>>, comps: seq<seq<int>>, b: seq<int>, i: int,
                      seen: set<int>, seen': set<int>)
    requires Components(adj, comps, i) && SeenIs(comps, seen)
    requires 0 <= i < |adj| && i !in seen
    requires Block(adj, b, i, seen, seen')
    requires forall v :: v in seen' ==> 0 <= v < |adj|
    ensures Components(adj, comps + [b], i + 1) && SeenIs(comps + [b], seen')
  {
    var cs := comps + [b];
    forall v | 0 <= v < i + 1
      ensures InSome(cs, v)
    {
      if v == i {
        assert i in Elems(b);
        assert v in cs[|comps|];
      } else {
        assert InSome(comps, v);
        var d :| 0 <= d < |comps| && v in comps[d];
        assert v in cs[d];
      }
    }
    forall x | x in b
      ensures x in seen' && x !in seen && x >= i
    {
      assert x in Elems(b);
    }
    forall c, p | 0 <= c < |cs| && 0 <= p < |cs[c]|
      ensures 0 <= cs[c][p] < |adj|
    {
      if c == |comps| {
        assert cs[c][p] in b;
      }
    }
    AddPartitioned(comps, b, seen);
    AddClosed(adj, comps, b, seen, seen');
    AddMinimal(comps, b, i);
    AddSeen(comps, b, seen, seen');
  }

  lemma AddPartitioned(comps: seq<seq<int>>, b: seq<int>, seen: set<int>)
    requires Partitioned(comps) && Distinct(b)
    requires SeenIs(comps, seen)
    requires forall x :: x in b ==> x !in seen
    ensures Partitioned(comps + [b])
  {
    var cs := comps + [b];
    forall c, d, x | 0 <= c < d < |cs| && x in cs[c]
      ensures x !in cs[d]
    {
      if d == |comps| {
        assert cs[c] == comps[c];
        assert InSome(comps, x);
      } else {
        assert cs[c] == comps[c] && cs[d] == comps[d];
      }
    }
    forall c | 0 <= c < |cs|
      ensures Distinct(cs[c])
    {
      if c < |comps| {
        assert cs[c] == comps[c];
      }
    }
  }

  lemma AddClosed(adj: seq<seq<int>>, comps: seq<seq<int>>, b: seq<int>, seen: set<int>, seen': set<int>)
    requires ClosedBefore(adj, comps) && ClosedIn(adj, b, seen')
    requires SeenIs(comps, seen)
    requires Elems(b) == seen' - seen
    ensures ClosedBefore(adj, comps + [b])
  {
    var cs := comps + [b];
    forall c, p, x | 0 <= c < |cs| && 0 <= p < |cs[c]| && 0 <= cs[c][p] < |adj| && x in adj[cs[c][p]]
      ensures exists d :: 0 <= d <= c && x in cs[d]
    {
      if c == |comps| {
        assert x in seen';
        if x in seen {
          assert InSome(comps, x);
          var d :| 0 <= d < |comps| && x in comps[d];
          assert x in cs[d];
        } else {
          assert x in Elems(b);
          assert x in cs[c];
        }
      } else {
        assert cs[c] == comps[c];
        var d :| 0 <= d <= c && x in comps[d];
        assert x in cs[d];
      }
    }
  }

  lemma AddMinimal(comps: seq<seq<int>>, b: seq<int>, i: int)
    requires forall c :: 0 <= c < |comps| ==> |comps[c]| > 0 && Last(comps[c]) < i
    requires MinimalRoots(comps)
    requires |b| > 0 && Last(b) == i
    requires forall x :: x in b ==> x >= i
    ensures forall c :: 0 <= c < |comps + [b]| ==> |(comps + [b])[c]| > 0
    ensures MinimalRoots(comps + [b])
  {
    var cs := comps + [b];
    forall c, d, p | 0 <= c <= d < |cs| && 0 <= p < |cs[d]|
      ensures Last(cs[c]) <= cs[d][p]
    {
      if d == |comps| {
        assert cs[d][p] in b;
        if c < |comps| {
          assert cs[c] == comps[c];
        }
      } else {
        assert cs[c] == comps[c] && cs[d] == comps[d];
      }
    }
  }

  lemma AddSeen(comps: seq<seq<int>>, b: seq<int>, seen: set<int>, seen': set<int>)
    requires SeenIs(comps, seen)
    requires seen <= seen' && Elems(b) == seen' - seen
    ensures SeenIs(comps + [b], seen')
  {
    var cs := comps + [b];
    forall v
      ensures v in seen' <==> InSome(cs, v)
    {
      if v in seen' {
        if v in seen {
          var d :| 0 <= d < |comps| && v in comps[d];
          assert v in cs[d];
        } else {
          assert v in Elems(b);
          assert v in cs[|comps|];
        }
      }
      if InSome(cs, v) {
        var d :| 0 <= d < |cs| && v in cs[d];
        if d < |comps| {
          assert cs[d] == comps[d];
          assert InSome(comps, v);
        } else {
          assert v in Elems(b);
        }
      }
    }
  }

  /** A list with no repeats holds each of its values once. */
  lemma {:induction false} DistinctCount(b: seq<int>, v: int)
    requires Distinct(b)
    ensures multiset(b)[v] == if v in b then 1 else 0
  {
    if b != [] {
      var t := b[..|b| - 1];
      assert b == t + [b[|b| - 1]];
      assert Distinct(t);
      DistinctCount(t, v);
      if v == b[|b| - 1] {
        assert v !in t;
      }
    }
  }

  lemma InSomeSnoc(init: seq<seq<int>>, b: seq<int>, v: int)
    ensures InSome(init + [b], v) <==> InSome(init, v) || v in b
  {
    var cs := init + [b];
    if InSome(cs, v) {
      var d :| 0 <= d < |cs| && v in cs[d];
      if d < |init| {
        assert v in init[d];
      }
    }
    if InSome(init, v) {
      var d :| 0 <= d < |init| && v in init[d];
      assert v in cs[d];
    }
    if v in b {
      assert v in cs[|init|];
    }
  }

  /** The output holds every emitted vertex exactly once (and no other vertex). */
  lemma {:induction false} JoinCount(comps: seq<seq<int>>, v: int)
    requires Partitioned(comps) && v != -1
    ensures multiset(Join(comps))[v] == if InSome(comps, v) then 1 else 0
  {
    if comps != [] {
      var n := |comps| - 1;
      var init, b := comps[..n], comps[n];
      assert comps == init + [b];
      assert Join(comps) == Join(init) + b + [-1];
      assert multiset(Join(comps))[v] == multiset(Join(init))[v] + multiset(b)[v];
      PartitionedInit(comps, v);
      JoinCount(init, v);
      DistinctCount(b, v);
      InSomeSnoc(init, b, v);
    }
  }

  /** Dropping the last block keeps the partition, and a vertex of an earlier block is not in the last. */
  lemma PartitionedInit(comps: seq<seq<int>>, v: int)
    requires Partitioned(comps) && comps != []
    ensures Partitioned(comps[..|comps| - 1])
    ensures InSome(comps[..|comps| - 1], v) ==> v !in comps[|comps| - 1]
  {
    var n := |comps| - 1;
    var init := comps[..n];
    assert forall c :: 0 <= c < n ==> init[c] == comps[c];
    if InSome(init, v) {
      var d :| 0 <= d < n && v in init[d];
      assert v in comps[d];
    }
  }

  /** The output holds exactly one -1 marker per block. */
  lemma {:induction false} MarkerCount(comps: seq<seq<int>>)
    requires forall c, p :: 0 <= c < |comps| && 0 <= p < |comps[c]| ==> comps[c][p] >= 0
    ensures multiset(Join(comps))[-1] == |comps|
  {
    if comps != [] {
      var n := |comps| - 1;
      assert forall c :: 0 <= c < n ==> comps[..n][c] == comps[c];
      MarkerCount(comps[..n]);
      assert -1 !in comps[n];
    }
  }

  /**
   * After the last vertex: every vertex of the graph appears in the
   * output exactly once, and there is one marker per component.
   */
  lemma EachVertexOnce(adj: seq<seq<int>>, comps: seq<seq<int>>)
    requires Components(adj, comps, |adj|)
    ensures forall v :: 0 <= v < |adj| ==> multiset(Join(comps))[v] == 1
    ensures forall v :: v != -1 && !(0 <= v < |adj|) ==> multiset(Join(comps))[v] == 0
    ensures multiset(Join(comps))[-1] == |comps|
  {
    forall v | v != -1
      ensures multiset(Join(comps))[v] == if 0 <= v < |adj| then 1 else 0
    {
      JoinCount(comps, v);
      if InSome(comps, v) {
        var d :| 0 <= d < |comps| && v in comps[d];
        var p :| 0 <= p < |comps[d]| && comps[d][p] == v;
      }
    }
    MarkerCount(comps);
  }

  /** The roots, and so the searches, come in strictly ascending order. */
  lemma RootsAscending(adj: seq<seq<int>>, comps: seq<seq<int>>, i: int)
    requires Components(adj, comps, i)
    ensures forall c, d :: 0 <= c < d < |comps| ==> Last(comps[c]) < Last(comps[d])
  {
    forall c, d | 0 <= c < d < |comps|
      ensures Last(comps[c]) < Last(comps[d])
    {
      var p := |comps[d]| - 1;
      assert Last(comps[c]) <= comps[d][p];
      assert Last(comps[c]) in comps[c];
    }
  }

  /** Every edge has its reverse, as for the graphs `main` builds. */
  ghost predicate Symmetric(adj: seq<seq<int>>)
  {
    forall u, x :: 0 <= u < |adj| && x in adj[u] ==> 0 <= x < |adj| && u in adj[x]
  }

  /**
   * On a symmetric graph no edge leaves a block, so each block is a
   * whole connected component.
   */
  lemma SymmetricClosed(adj: seq<seq<int>>, comps: seq<seq<int>>, i: int)
    requires Components(adj, comps, i) && Symmetric(adj)
    ensures forall c, p, x :: 0 <= c < |comps| && 0 <= p < |comps[c]| && x in adj[comps[c][p]] ==> x in comps[c]
  {
    forall c, p, x | 0 <= c < |comps| && 0 <= p < |comps[c]| && x in adj[comps[c][p]]
      ensures x in comps[c]
    {
      SymmetricStep(adj, comps, i, c, p, x);
    }
  }

  lemma SymmetricStep(adj: seq<seq<int>>, comps: seq<seq<int>>, i: int, c: int, p: int, x: int)
    requires Components(adj, comps, i) && Symmetric(adj)
    requires 0 <= c < |comps| && 0 <= p < |comps[c]| && x in adj[comps[c][p]]
    ensures x in comps[c]
  {
    var u := comps[c][p];
    assert u in comps[c];
    assert 0 <= x < |adj| && u in adj[x];
    assert ClosedBefore(adj, comps) && Partitioned(comps);
    var d :| 0 <= d <= c && x in comps[d];
    var q :| 0 <= q < |comps[d]| && comps[d][q] == x;
    assert 0 <= comps[d][q] < |adj| && u in adj[comps[d][q]];
    var e :| 0 <= e <= d && u in comps[e];
    assert e == c;
  }
}
