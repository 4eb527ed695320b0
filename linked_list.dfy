/**
 * The list record every C file of the repository declares
 * (`linked_list_t`: a head pointer and a node count) together with the
 * two pointer surgeries all of its copies perform: linking a new node in
 * between two neighbours and linking a node out.
 */
module LinkedLists {
  import opened Chain

  class LinkedList<T> {
    var head: Node?<T>
    var size: nat
    ghost var nodes: seq<Node<T>>
    ghost var Contents: seq<T>
    ghost var Repr: set<object>

    ghost predicate Valid()
      reads this, Repr
    {
      && Repr == {this} + Elements(nodes)
      && IsChain(head, nodes)
      && Holds(nodes, Contents)
      && size == |nodes|
    }

    /** ll_create: an empty list. */
    constructor ()
      ensures Valid() && fresh(Repr) && Contents == []
    {
      head := null;
      size := 0;
      nodes := [];
      Contents := [];
      Repr := {this};
    }

    /**
     * Links a new node holding `x` between `prev` and `curr`, that is at
     * position `k`, and counts it.
     */
    method Splice(ghost k: nat, prev: Node?<T>, curr: Node?<T>, x: T)
      requires Valid()
      requires k <= |nodes|
      requires curr == if k < |nodes| then nodes[k] else null
      requires prev == if k == 0 then null else nodes[k - 1]
      modifies Repr
      ensures Valid() && fresh(Repr - old(Repr))
      ensures Contents == old(Contents[..k] + [x] + Contents[k..])
    {
      ghost var was, contents := nodes, Contents;
      var node := new Node(x, curr);
      if prev == null {
        head := node;
      } else {
        prev.next := node;
      }
      size := size + 1;
      nodes := was[..k] + [node] + was[k..];
      Contents := contents[..k] + [x] + contents[k..];
      Repr := Repr + {node};
      forall j | 0 <= j < |was| - 1 && j + 1 != k
        ensures was[j].next == was[j + 1]
      {
        assert was[j] != prev;
      }
      ChainInsert(head, was, k, node);
      HoldsInsert(was, contents, k, node, x);
      ElementsInsert(was, k, node);
    }

    /** Links the node `curr` at position `k` out of the chain. */
    method Unlink(ghost k: nat, prev: Node?<T>, curr: Node<T>)
      requires Valid()
      requires k < |nodes|
      requires curr == nodes[k]
      requires prev == if k == 0 then null else nodes[k - 1]
      modifies Repr
      ensures Valid() && Repr == old(Repr) - {curr}
      ensures Contents == old(Contents[..k] + Contents[k + 1..])
      ensures unchanged(curr)
    {
      ghost var was, contents := nodes, Contents;
      if prev == null {
        head := curr.next;
      } else {
        prev.next := curr.next;
      }
      size := size - 1;
      nodes := was[..k] + was[k + 1..];
      Contents := contents[..k] + contents[k + 1..];
      Repr := Repr - {curr};
      forall j | 0 <= j < |was| - 1 && j + 1 != k
        ensures was[j].next == was[j + 1]
      {
        assert was[j] != prev;
      }
      if k + 1 < |was| {
        assert was[|was| - 1] != prev;
      }
      ChainRemove(head, was, k);
      HoldsRemove(was, contents, k);
      ElementsRemove(was, k);
    }
  }
}
