/**
 * The character trie of Trie/trie.c over the alphabet 'a'..'z'. Nodes are
 * values: a node keeps its value, its end-of-word flag, one slot per
 * letter and the count of the slots in use. The trie keeps the number of
 * keys and the number of nodes, updated as insert and remove recurse.
 */
module Tries {
  import opened Options

  /** ALPHABET_SIZE. */
  const AlphabetSize: nat := 26

  /** The value trie_create stores at the root. */
  const Marker: int := -1

  /** `trie_node_t`. */
  datatype TrieNode = TrieNode(value: int, endOfWord: bool, children: seq<Option<TrieNode>>, nChildren: int)

  /** A key the trie can walk: lower-case letters only. */
  predicate IsKey(key: string)
  {
    forall i :: 0 <= i < |key| ==> 'a' <= key[i] <= 'z'
  }

  /** `*key - 'a'`: the slot of a letter. */
  function Index(c: char): (r: nat)
    requires 'a' <= c <= 'z'
    ensures r < AlphabetSize
  {
    (c as int) - ('a' as int)
  }

  function Sum(s: seq<nat>): nat
  {
    if s == [] then 0 else Sum(s[..|s| - 1]) + s[|s| - 1]
  }

  /** Changing one term changes the sum by the difference. */
  lemma {:induction false} SumUpdate(s: seq<nat>, i: nat, x: nat)
    requires i < |s|
    ensures Sum(s[i := x]) + s[i] == Sum(s) + x
  {
    var n := |s| - 1;
    if i < n {
      assert s[i := x][..n] == s[..n][i := x];
      SumUpdate(s[..n], i, x);
    } else {
      assert s[i := x][..n] == s[..n];
    }
  }

  /** A sum is zero exactly when every term is. */
  lemma {:induction false} SumZero(s: seq<nat>)
    ensures Sum(s) == 0 <==> forall i :: 0 <= i < |s| ==> s[i] == 0
  {
    if s != [] {
      SumZero(s[..|s| - 1]);
      assert forall i :: 0 <= i < |s| - 1 ==> s[..|s| - 1][i] == s[i];
    }
  }

  /** No term exceeds the sum. */
  lemma {:induction false} SumTerm(s: seq<nat>, i: nat)
    requires i < |s|
    ensures s[i] <= Sum(s)
  {
    if i < |s| - 1 {
      SumTerm(s[..|s| - 1], i);
    }
  }

  /** 1 for each slot in use. */
  function Occupancy(cs: seq<Option<TrieNode>>): (r: seq<nat>)
    ensures |r| == |cs|
    ensures forall i :: 0 <= i < |cs| ==> r[i] == if cs[i].Some? then 1 else 0
  {
    seq(|cs|, i requires 0 <= i < |cs| => if cs[i].Some? then 1 else 0)
  }

  /** The number of nodes in the subtree of each slot. */
  ghost function NodeCounts(n: TrieNode): seq<nat>
    decreases n, 0
  {
    seq(|n.children|, i requires 0 <= i < |n.children| =>
      match n.children[i] case None => 0 case Some(c) => NodeCount(c))
  }

  /** The nodes of a subtree, itself included. */
  ghost function NodeCount(n: TrieNode): nat
    decreases n, 1
  {
    1 + Sum(NodeCounts(n))
  }

  /** The number of keys in the subtree of each slot. */
  ghost function KeyCounts(n: TrieNode): seq<nat>
    decreases n, 0
  {
    seq(|n.children|, i requires 0 <= i < |n.children| =>
      match n.children[i] case None => 0 case Some(c) => KeyCount(c))
  }

  /** The end-of-word nodes of a subtree: the keys stored in it. */
  ghost function KeyCount(n: TrieNode): nat
    decreases n, 1
  {
    (if n.endOfWord then 1 else 0) + Sum(KeyCounts(n))
  }

  ghost function NodesOf(o: Option<TrieNode>): nat
  {
    match o case None => 0 case Some(c) => NodeCount(c)
  }

  ghost function KeysOf(o: Option<TrieNode>): nat
  {
    match o case None => 0 case Some(c) => KeyCount(c)
  }

  /** Replacing slot `i` by `x` changes the node count by the difference of the two subtrees. */
  lemma NodeCountUpdate(n: TrieNode, i: nat, x: Option<TrieNode>, m: int)
    requires i < |n.children|
    ensures NodeCount(n.(children := n.children[i := x], nChildren := m)) + NodesOf(n.children[i]) == NodeCount(n) + NodesOf(x)
  {
    var n' := n.(children := n.children[i := x], nChildren := m);
    assert NodeCounts(n') == NodeCounts(n)[i := NodesOf(x)];
    SumUpdate(NodeCounts(n), i, NodesOf(x));
  }

  /** Replacing slot `i` by `x` changes the key count by the difference of the two subtrees. */
  lemma KeyCountUpdate(n: TrieNode, i: nat, x: Option<TrieNode>, m: int)
    requires i < |n.children|
    ensures KeyCount(n.(children := n.children[i := x], nChildren := m)) + KeysOf(n.children[i]) == KeyCount(n) + KeysOf(x)
  {
    var n' := n.(children := n.children[i := x], nChildren := m);
    assert KeyCounts(n') == KeyCounts(n)[i := KeysOf(x)];
    SumUpdate(KeyCounts(n), i, KeysOf(x));
  }

  /** Filling or emptying slot `i` moves the count of slots in use by one. */
  lemma OccupancyUpdate(cs: seq<Option<TrieNode>>, i: nat, x: Option<TrieNode>)
    requires i < |cs|
    ensures Sum(Occupancy(cs[i := x])) + (if cs[i].Some? then 1 else 0) == Sum(Occupancy(cs)) + (if x.Some? then 1 else 0)
  {
    assert Occupancy(cs[i := x]) == Occupancy(cs)[i := if x.Some? then 1 else 0];
    SumUpdate(Occupancy(cs), i, if x.Some? then 1 else 0);
  }

  /** The three counts at once, for a node whose slot `i` becomes `x`. */
  lemma CountsUpdate(n: TrieNode, i: nat, x: Option<TrieNode>, m: int)
    requires i < |n.children|
    ensures NodeCount(n.(children := n.children[i := x], nChildren := m)) + NodesOf(n.children[i]) == NodeCount(n) + NodesOf(x)
    ensures KeyCount(n.(children := n.children[i := x], nChildren := m)) + KeysOf(n.children[i]) == KeyCount(n) + KeysOf(x)
    ensures Sum(Occupancy(n.children[i := x])) + (if n.children[i].Some? then 1 else 0) == Sum(Occupancy(n.children)) + (if x.Some? then 1 else 0)
  {
    NodeCountUpdate(n, i, x, m);
    KeyCountUpdate(n, i, x, m);
    OccupancyUpdate(n.children, i, x);
  }

  /** Every node has a slot per letter, counts its slots in use, and so do its descendants. */
  ghost predicate WellFormed(n: TrieNode)
  {
    && |n.children| == AlphabetSize
    && n.nChildren == Sum(Occupancy(n.children))
    && forall i :: 0 <= i < |n.children| && n.children[i].Some? ==> WellFormed(n.children[i].value)
  }

  /** A node worth keeping: it ends a word or leads to one. */
  predicate Live(n: TrieNode)
  {
    n.endOfWord || n.nChildren > 0
  }

  /** Every node below this one is live. */
  ghost predicate Pruned(n: TrieNode)
  {
    forall i :: 0 <= i < |n.children| && n.children[i].Some? ==> Live(n.children[i].value) && Pruned(n.children[i].value)
  }

  /** A node with no slot in use has no children. */
  lemma Childless(n: TrieNode)
    requires WellFormed(n) && n.nChildren == 0
    ensures forall i :: 0 <= i < |n.children| ==> n.children[i] == None
    ensures NodeCount(n) == 1 && KeyCount(n) == if n.endOfWord then 1 else 0
  {
    SumZero(Occupancy(n.children));
    forall i | 0 <= i < |n.children|
      ensures n.children[i] == None
    {
      assert Occupancy(n.children)[i] == 0;
    }
    SumZero(NodeCounts(n));
    SumZero(KeyCounts(n));
  }

  /**
   * trie_search_recursion: follow one slot per letter; a missing slot, or
   * a last node that does not end a word, means no value. A key found is
   * one of the keys the subtree counts, so a subtree that counts none
   * finds nothing.
   */
  function NodeSearch(n: TrieNode, key: string): (r: Option<int>)
    requires WellFormed(n) && IsKey(key)
    ensures r.Some? ==> KeyCount(n) > 0
    decreases |key|
  {
    if key == [] then
      if n.endOfWord then Some(n.value) else None
    else
      match n.children[Index(key[0])]
      case None => None
      case Some(c) =>
        SumTerm(KeyCounts(n), Index(key[0]));
        NodeSearch(c, key[1..])
  }

  /** A node that neither ends a word nor has children holds no key. */
  lemma SearchDead(n: TrieNode, key: string)
    requires WellFormed(n) && IsKey(key) && !Live(n)
    ensures NodeSearch(n, key) == None
  {
    Childless(n);
  }

  /** trie_create_node: no value, no end of word, every slot empty. */
  function NewNode(): (r: TrieNode)
    ensures WellFormed(r) && Pruned(r) && !Live(r)
    ensures NodeCount(r) == 1 && KeyCount(r) == 0
    ensures forall key :: IsKey(key) ==> NodeSearch(r, key) == None
  {
    var r := TrieNode(0, false, seq(AlphabetSize, _ => None), 0);
    SumZero(Occupancy(r.children));
    SumZero(NodeCounts(r));
    SumZero(KeyCounts(r));
    r
  }

  /** What trie_insert_recursion leaves behind: the new subtree, the nodes it created, whether the key was new. */
  datatype Inserted = Inserted(node: TrieNode, created: nat, added: bool)

  /**
   * trie_insert_recursion: walk the key, creating each missing node on the
   * way and counting it, then mark the last node as ending a word with
   * value `v`. The key is then found with `v`; the nodes created are one
   * per missing slot, none when the key was already there; the subtree
   * holds one more key exactly when the key was new.
   */
  function NodeInsert(n: TrieNode, key: string, v: int): (r: Inserted)
    requires WellFormed(n) && IsKey(key)
    ensures WellFormed(r.node) && Live(r.node)
    ensures NodeSearch(r.node, key) == Some(v)
    ensures NodeCount(r.node) == NodeCount(n) + r.created && r.created <= |key|
    ensures r.added <==> NodeSearch(n, key).None?
    ensures !r.added ==> r.created == 0
    ensures KeyCount(r.node) == KeyCount(n) + (if r.added then 1 else 0)
    decreases |key|
  {
    if key == [] then
      Inserted(n.(value := v, endOfWord := true), 0, !n.endOfWord)
    else
      var i := Index(key[0]);
      match n.children[i]
      case None =>
        var sub := NodeInsert(NewNode(), key[1..], v);
        var n' := n.(children := n.children[i := Some(sub.node)], nChildren := n.nChildren + 1);
        AttachChild(n, key, sub.node, n.nChildren + 1);
        Inserted(n', sub.created + 1, sub.added)
      case Some(c) =>
        var sub := NodeInsert(c, key[1..], v);
        var n' := n.(children := n.children[i := Some(sub.node)]);
        AttachChild(n, key, sub.node, n.nChildren);
        Inserted(n', sub.created, sub.added)
  }

  /**
   * Putting a well-formed subtree `c` in the slot of the key's first
   * letter, with the count of slots in use kept right: the node stays
   * well-formed and live, the key is searched for in `c`, and the counts
   * change by the difference of the old and new subtrees.
   */
  lemma AttachChild(n: TrieNode, key: string, c: TrieNode, m: int)
    requires WellFormed(n) && IsKey(key) && key != [] && WellFormed(c)
    requires m == n.nChildren + (if n.children[Index(key[0])].None? then 1 else 0)
    ensures var n' := n.(children := n.children[Index(key[0]) := Some(c)], nChildren := m);
            && WellFormed(n') && Live(n')
            && NodeSearch(n', key) == NodeSearch(c, key[1..])
            && NodeCount(n') + NodesOf(n.children[Index(key[0])]) == NodeCount(n) + NodeCount(c)
            && KeyCount(n') + KeysOf(n.children[Index(key[0])]) == KeyCount(n) + KeyCount(c)
  {
    var i := Index(key[0]);
    CountsUpdate(n, i, Some(c), m);
    if n.children[i].Some? {
      SumZero(Occupancy(n.children));
    }
  }

  /** What trie_remove_recursion leaves behind: the new subtree, whether the caller is to free it, the nodes freed below, whether the key was there. */
  datatype Removed = Removed(node: TrieNode, prune: bool, freed: nat, found: bool)

  /**
   * trie_remove_recursion: walk the key; at its end, a node ending a word
   * stops ending one and asks to be freed when it has no children. Each
   * node on the way frees a child that asks for it, and asks in turn when
   * it is then childless and ends no word. An absent key changes nothing;
   * a present one is no longer found, the subtree holds one key fewer and
   * as many nodes fewer as were freed.
   */
  function NodeRemove(n: TrieNode, key: string): (r: Removed)
    requires WellFormed(n) && IsKey(key)
    ensures WellFormed(r.node)
    ensures r.found <==> NodeSearch(n, key).Some?
    ensures !r.found ==> r.node == n && !r.prune && r.freed == 0
    ensures r.prune ==> !Live(r.node)
    ensures !r.prune && Live(n) ==> Live(r.node)
    decreases |key|
  {
    if key == [] then
      if n.endOfWord then Removed(n.(endOfWord := false), n.nChildren == 0, 0, true)
      else Removed(n, false, 0, false)
    else
      var i := Index(key[0]);
      match n.children[i]
      case None => Removed(n, false, 0, false)
      case Some(c) =>
        var sub := NodeRemove(c, key[1..]);
        if !sub.found then
          Removed(n, false, 0, false)
        else if sub.prune then
          var n' := n.(children := n.children[i := None], nChildren := n.nChildren - 1);
          OccupancyUpdate(n.children, i, None);
          Childless(sub.node);
          Removed(n', !Live(n'), sub.freed + 1, true)
        else
          var n' := n.(children := n.children[i := Some(sub.node)]);
          OccupancyUpdate(n.children, i, Some(sub.node));
          Removed(n', false, sub.freed, true)
  }

  /** Every node insert creates leads to the key: a trie whose nodes below the root are live stays so. */
  lemma {:induction false} InsertPruned(n: TrieNode, key: string, v: int)
    requires WellFormed(n) && IsKey(key) && Pruned(n)
    ensures Pruned(NodeInsert(n, key, v).node)
    decreases |key|
  {
    if key != [] {
      var i := Index(key[0]);
      match n.children[i]
      case None =>
        InsertPruned(NewNode(), key[1..], v);
        var sub := NodeInsert(NewNode(), key[1..], v);
        PrunedAttach(n, i, sub.node, n.nChildren + 1);
      case Some(c) =>
        InsertPruned(c, key[1..], v);
        var sub := NodeInsert(c, key[1..], v);
        PrunedAttach(n, i, sub.node, n.nChildren);
    }
  }

  /** Putting a live subtree whose nodes are all live in one slot keeps every node below live. */
  lemma PrunedAttach(n: TrieNode, i: nat, c: TrieNode, m: int)
    requires i < |n.children| && Pruned(n) && Live(c) && Pruned(c)
    ensures Pruned(n.(children := n.children[i := Some(c)], nChildren := m))
  {
    var n' := n.(children := n.children[i := Some(c)], nChildren := m);
    forall j | 0 <= j < |n'.children| && n'.children[j].Some?
      ensures Live(n'.children[j].value) && Pruned(n'.children[j].value)
    {
      if j != i {
        assert n'.children[j] == n.children[j];
      }
    }
  }

  /** A search that leaves the root through another slot does not see what slot `i` holds. */
  lemma SearchOtherSlot(n: TrieNode, i: nat, x: Option<TrieNode>, m: int, other: string)
    requires WellFormed(n) && IsKey(other) && i < |n.children|
    requires WellFormed(n.(children := n.children[i := x], nChildren := m))
    requires other == [] || Index(other[0]) != i
    ensures NodeSearch(n.(children := n.children[i := x], nChildren := m), other) == NodeSearch(n, other)
  {
  }

  /** Inserting a key leaves every other key as it was. */
  lemma {:induction false} InsertOther(n: TrieNode, key: string, v: int, other: string)
    requires WellFormed(n) && IsKey(key) && IsKey(other) && other != key
    ensures NodeSearch(NodeInsert(n, key, v).node, other) == NodeSearch(n, other)
    decreases |key|
  {
    if key != [] {
      var i := Index(key[0]);
      if other != [] && key[0] == other[0] {
        assert key[1..] != other[1..] by {
          assert key == [key[0]] + key[1..] && other == [other[0]] + other[1..];
        }
        match n.children[i]
        case None =>
          InsertOther(NewNode(), key[1..], v, other[1..]);
        case Some(c) =>
          InsertOther(c, key[1..], v, other[1..]);
      } else {
        match n.children[i]
        case None =>
          var sub := NodeInsert(NewNode(), key[1..], v);
          AttachChild(n, key, sub.node, n.nChildren + 1);
          SearchOtherSlot(n, i, Some(sub.node), n.nChildren + 1, other);
        case Some(c) =>
          var sub := NodeInsert(c, key[1..], v);
          AttachChild(n, key, sub.node, n.nChildren);
          SearchOtherSlot(n, i, Some(sub.node), n.nChildren, other);
      }
    }
  }

  /** Remove takes one key out exactly when it was found, and as many nodes as it freed. */
  lemma {:induction false} RemoveCounts(n: TrieNode, key: string)
    requires WellFormed(n) && IsKey(key)
    ensures NodeCount(NodeRemove(n, key).node) + NodeRemove(n, key).freed == NodeCount(n)
    ensures KeyCount(NodeRemove(n, key).node) + (if NodeRemove(n, key).found then 1 else 0) == KeyCount(n)
    decreases |key|
  {
    if key != [] {
      var i := Index(key[0]);
      match n.children[i]
      case None =>
      case Some(c) =>
        RemoveCounts(c, key[1..]);
        var sub := NodeRemove(c, key[1..]);
        if sub.found && sub.prune {
          CountsUpdate(n, i, None, n.nChildren - 1);
          Childless(sub.node);
        } else if sub.found {
          CountsUpdate(n, i, Some(sub.node), n.nChildren);
        }
    }
  }

  /** After a remove the key is not found. */
  lemma {:induction false} RemoveThenSearch(n: TrieNode, key: string)
    requires WellFormed(n) && IsKey(key)
    ensures NodeSearch(NodeRemove(n, key).node, key) == None
    decreases |key|
  {
    if key != [] {
      match n.children[Index(key[0])]
      case None =>
      case Some(c) =>
        RemoveThenSearch(c, key[1..]);
    }
  }

  /** Remove frees every node it leaves dead: a trie whose nodes below the root are live stays so. */
  lemma {:induction false} RemovePruned(n: TrieNode, key: string)
    requires WellFormed(n) && IsKey(key) && Pruned(n)
    ensures Pruned(NodeRemove(n, key).node)
    decreases |key|
  {
    if key != [] {
      match n.children[Index(key[0])]
      case None =>
      case Some(c) =>
        RemovePruned(c, key[1..]);
    }
  }

  /** Removing a key leaves every other key as it was. */
  lemma {:induction false} RemoveOther(n: TrieNode, key: string, other: string)
    requires WellFormed(n) && IsKey(key) && IsKey(other) && other != key
    ensures NodeSearch(NodeRemove(n, key).node, other) == NodeSearch(n, other)
    decreases |key|
  {
    if key != [] && other != [] && key[0] == other[0] {
      var i := Index(key[0]);
      assert key[1..] != other[1..] by {
        assert key == [key[0]] + key[1..] && other == [other[0]] + other[1..];
      }
      match n.children[i]
      case None =>
      case Some(c) =>
        RemoveOther(c, key[1..], other[1..]);
        var sub := NodeRemove(c, key[1..]);
        if sub.prune {
          SearchDead(sub.node, other[1..]);
        }
    }
  }

  /** The root trie_create builds: it ends the empty word, with the marker as its value. */
  function InitialRoot(): (r: TrieNode)
    ensures WellFormed(r) && Pruned(r) && Live(r)
    ensures NodeCount(r) == 1 && KeyCount(r) == 1
    ensures NodeSearch(r, "") == Some(Marker)
    ensures forall key :: IsKey(key) && key != [] ==> NodeSearch(r, key) == None
  {
    var r := NewNode().(value := Marker, endOfWord := true);
    assert forall key :: IsKey(key) && key != [] ==> NodeSearch(r, key) == NodeSearch(NewNode(), key);
    r
  }

  /** `trie_t`: the root and the counters that insert and remove keep. */
  class Trie {
    var root: TrieNode
    /** "Number of keys". */
    var size: int
    var nNodes: int

    /** The nodes are well formed, every node but the root is live, and `nNodes` counts them. */
    ghost predicate Valid()
      reads this
    {
      WellFormed(root) && Pruned(root) && nNodes == NodeCount(root)
    }

    /** `size` is the number of keys stored. */
    ghost predicate SizeCountsKeys()
      reads this
    {
      size == KeyCount(root)
    }

    /** trie_create: one node, the root, ending the empty word with the marker; size 1. */
    constructor ()
      ensures Valid() && SizeCountsKeys()
      ensures size == 1 && nNodes == 1 && root == InitialRoot()
      ensures Search("") == Some(Marker)
      ensures forall key :: IsKey(key) && key != [] ==> Search(key) == None
    {
      root := InitialRoot();
      size := 1;
      nNodes := 1;
    }

    /** trie_search: a trie whose `size` counts no key finds nothing. */
    function Search(key: string): (r: Option<int>)
      reads this
      requires Valid() && IsKey(key)
      ensures r.Some? ==> KeyCount(root) > 0
      ensures SizeCountsKeys() && size == 0 ==> r == None
    {
      NodeSearch(root, key)
    }

    /**
     * trie_insert as written: the key is found with `v` afterwards, every
     * other key is as it was, `nNodes` grows by the nodes created, and
     * `size` does not change.
     */
    method Insert(key: string, v: int)
      requires Valid() && IsKey(key)
      modifies this
      ensures Valid() && root == NodeInsert(old(root), key, v).node
      ensures nNodes == old(nNodes) + NodeInsert(old(root), key, v).created
      ensures old(Search(key)).Some? ==> nNodes == old(nNodes)
      ensures size == old(size)
      ensures Search(key) == Some(v)
      ensures forall other :: IsKey(other) && other != key ==> Search(other) == old(Search(other))
    {
      var r := NodeInsert(root, key, v);
      InsertPruned(root, key, v);
      forall other | IsKey(other) && other != key
        ensures NodeSearch(r.node, other) == NodeSearch(root, other)
      {
        InsertOther(root, key, v, other);
      }
      root := r.node;
      nNodes := nNodes + r.created;
    }

    /** trie_insert with `size` counted when the key is new, which keeps `size` the number of keys. */
    method InsertCounting(key: string, v: int)
      requires Valid() && IsKey(key)
      modifies this
      ensures Valid() && root == NodeInsert(old(root), key, v).node
      ensures nNodes == old(nNodes) + NodeInsert(old(root), key, v).created
      ensures size == old(size) + if old(Search(key)).None? then 1 else 0
      ensures old(SizeCountsKeys()) ==> SizeCountsKeys()
      ensures Search(key) == Some(v)
      ensures forall other :: IsKey(other) && other != key ==> Search(other) == old(Search(other))
    {
      var r := NodeInsert(root, key, v);
      InsertPruned(root, key, v);
      forall other | IsKey(other) && other != key
        ensures NodeSearch(r.node, other) == NodeSearch(root, other)
      {
        InsertOther(root, key, v, other);
      }
      root := r.node;
      nNodes := nNodes + r.created;
      if r.added {
        size := size + 1;
      }
    }

    /**
     * trie_remove: an absent key changes nothing. A present key is no
     * longer found, every other key is as it was, `size` drops by one and
     * `nNodes` by the nodes freed; the root stays.
     */
    method Remove(key: string)
      requires Valid() && IsKey(key)
      modifies this
      ensures Valid() && root == NodeRemove(old(root), key).node
      ensures old(Search(key)).None? ==> root == old(root) && size == old(size) && nNodes == old(nNodes)
      ensures old(Search(key)).Some? ==> size == old(size) - 1
      ensures nNodes == old(nNodes) - NodeRemove(old(root), key).freed && nNodes >= 1
      ensures Search(key) == None
      ensures forall other :: IsKey(other) && other != key ==> Search(other) == old(Search(other))
      ensures old(SizeCountsKeys()) ==> SizeCountsKeys()
    {
      var r := NodeRemove(root, key);
      RemoveThenSearch(root, key);
      RemovePruned(root, key);
      RemoveCounts(root, key);
      forall other | IsKey(other) && other != key
        ensures NodeSearch(r.node, other) == NodeSearch(root, other)
      {
        RemoveOther(root, key, other);
      }
      root := r.node;
      nNodes := nNodes - r.freed;
      if r.found {
        size := size - 1;
      }
    }
  }

  /**
   * A fresh trie given one key: two keys are stored, the empty word and
   * "a", yet trie_insert has left `size` at 1.
   */
  method SizeAfterFirstInsert() returns (t: Trie)
    ensures t.Valid() && t.size == 1 && KeyCount(t.root) == 2
  {
    t := new Trie();
    t.Insert("a", 0);
  }
}
