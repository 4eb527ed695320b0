/**
 * The node chain the singly linked lists are made of: a node holds one
 * element and a link to the next node, and a chain ends in NULL.
 */
module Chain {

  class Node<T> {
    var data: T
    var next: Node?<T>

    constructor (data: T, next: Node?<T>)
      ensures this.data == data && this.next == next
    {
      this.data := data;
      this.next := next;
    }
  }

  /** The set of the nodes of a chain. */
  ghost function Elements<T>(nodes: seq<Node<T>>): set<object>
  {
    set i | 0 <= i < |nodes| :: nodes[i]
  }

  /**
   * `nodes` is the chain reached from `head`: every node links to its
   * successor, the last one links to NULL, and no node occurs twice.
   */
  ghost predicate IsChain<T>(head: Node?<T>, nodes: seq<Node<T>>)
    reads Elements(nodes)
  {
    && head == (if |nodes| == 0 then null else nodes[0])
    && (forall i {:trigger nodes[i].next} :: 0 <= i < |nodes| - 1 ==> nodes[i].next == nodes[i + 1])
    && (|nodes| > 0 ==> nodes[|nodes| - 1].next == null)
    && (forall i, j :: 0 <= i < j < |nodes| ==> nodes[i] != nodes[j])
  }

  /** The elements held by the nodes of a chain, head first. */
  ghost predicate Holds<T>(nodes: seq<Node<T>>, contents: seq<T>)
    reads Elements(nodes)
  {
    |contents| == |nodes| && forall i :: 0 <= i < |nodes| ==> nodes[i].data == contents[i]
  }

  lemma ElementsInsert<T>(nodes: seq<Node<T>>, k: nat, node: Node<T>)
    requires k <= |nodes|
    ensures Elements(nodes[..k] + [node] + nodes[k..]) == Elements(nodes) + {node}
  {
    var t := nodes[..k] + [node] + nodes[k..];
    forall o | o in Elements(nodes)
      ensures o in Elements(t)
    {
      var i :| 0 <= i < |nodes| && nodes[i] == o;
      if i < k {
        assert t[i] == o;
      } else {
        assert t[i + 1] == o;
      }
    }
    assert t[k] == node;
  }

  lemma ElementsRemove<T>(nodes: seq<Node<T>>, k: nat)
    requires k < |nodes|
    requires forall i, j :: 0 <= i < j < |nodes| ==> nodes[i] != nodes[j]
    ensures Elements(nodes[..k] + nodes[k + 1..]) == Elements(nodes) - {nodes[k]}
  {
    var t := nodes[..k] + nodes[k + 1..];
    forall o | o in Elements(nodes) - {nodes[k]}
      ensures o in Elements(t)
    {
      var i :| 0 <= i < |nodes| && nodes[i] == o;
      if i < k {
        assert t[i] == o;
      } else {
        assert t[i - 1] == o;
      }
    }
  }

  /** The chain after `node` is linked in at position `k`. */
  lemma ChainInsert<T>(head: Node?<T>, was: seq<Node<T>>, k: nat, node: Node<T>)
    requires k <= |was|
    requires forall i, j :: 0 <= i < j < |was| ==> was[i] != was[j]
    requires forall i :: 0 <= i < |was| ==> was[i] != node
    requires forall i {:trigger was[i].next} :: 0 <= i < |was| - 1 && i != k - 1 ==> was[i].next == was[i + 1]
    requires k < |was| ==> was[|was| - 1].next == null
    requires k > 0 ==> was[k - 1].next == node
    requires node.next == if k < |was| then was[k] else null
    requires head == if k == 0 then node else was[0]
    ensures IsChain(head, was[..k] + [node] + was[k..])
  {
    var t := was[..k] + [node] + was[k..];
    forall i | 0 <= i < |t| - 1
      ensures t[i].next == t[i + 1]
    {
      if i < k - 1 {
        assert t[i] == was[i] && t[i + 1] == was[i + 1];
      } else if i == k - 1 {
        assert t[i] == was[k - 1];
      } else if i > k {
        assert t[i] == was[i - 1] && t[i + 1] == was[i];
      }
    }
    forall i, j | 0 <= i < j < |t|
      ensures t[i] != t[j]
    {
      var i' := if i <= k then i else i - 1;
      var j' := if j < k then j else j - 1;
      if i != k && j != k {
        assert t[i] == was[i'] && t[j] == was[j'];
      }
    }
  }

  /** The elements after a value is inserted at position `k`. */
  lemma HoldsInsert<T>(was: seq<Node<T>>, contents: seq<T>, k: nat, node: Node<T>, x: T)
    requires k <= |was|
    requires Holds(was, contents)
    requires node.data == x
    ensures Holds(was[..k] + [node] + was[k..], contents[..k] + [x] + contents[k..])
  {
  }

  /** The chain after the node at position `k` is linked out. */
  lemma ChainRemove<T>(head: Node?<T>, was: seq<Node<T>>, k: nat)
    requires k < |was|
    requires forall i, j :: 0 <= i < j < |was| ==> was[i] != was[j]
    requires forall i {:trigger was[i].next} :: 0 <= i < |was| - 1 && i + 1 != k ==> was[i].next == was[i + 1]
    requires k + 1 < |was| ==> was[|was| - 1].next == null
    requires k > 0 ==> was[k - 1].next == if k + 1 < |was| then was[k + 1] else null
    requires head == if k == 0 then (if 1 < |was| then was[1] else null) else was[0]
    ensures IsChain(head, was[..k] + was[k + 1..])
  {
    var t := was[..k] + was[k + 1..];
    forall i | 0 <= i < |t| - 1
      ensures t[i].next == t[i + 1]
    {
      if i + 1 < k {
        assert t[i] == was[i] && t[i + 1] == was[i + 1];
      } else if i + 1 == k {
        assert t[i] == was[k - 1] && t[i + 1] == was[k + 1];
      } else {
        assert t[i] == was[i + 1] && t[i + 1] == was[i + 2];
      }
    }
    if 0 < |t| {
      if k == |was| - 1 {
        assert t[|t| - 1] == was[k - 1];
      } else {
        assert t[|t| - 1] == was[|was| - 1];
      }
    }
    forall i, j | 0 <= i < j < |t|
      ensures t[i] != t[j]
    {
      var i' := if i < k then i else i + 1;
      var j' := if j < k then j else j + 1;
      assert t[i] == was[i'] && t[j] == was[j'];
    }
  }

  /** The elements after the value at position `k` is taken out. */
  lemma HoldsRemove<T>(was: seq<Node<T>>, contents: seq<T>, k: nat)
    requires k < |was|
    requires Holds(was, contents)
    ensures Holds(was[..k] + was[k + 1..], contents[..k] + contents[k + 1..])
  {
  }
}
