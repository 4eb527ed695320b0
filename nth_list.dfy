/**
 * The list functions as Graph/comp_conex.c and Graph/top_sort_kahn.c write
 * them: positions are reached through get_nth_node, which clamps its index
 * to the last node. An insert index past the end therefore appends, but a
 * remove index must name an existing node.
 */
module NthList {
  import opened ListSpec
  import opened Chain
  import opened LinkedLists

  /** get_nth_node: on a non-empty list, the node at position min(n, size - 1). */
  method GetNthNode<T>(list: LinkedList<T>, n: nat) returns (node: Node<T>)
    requires list.Valid()
    requires |list.Contents| > 0
    ensures node == list.nodes[Min(n, |list.Contents| - 1)]
    ensures node.data == list.Contents[Min(n, |list.Contents| - 1)]
  {
    var len := list.size - 1;
    var m := Min(n, len);
    node := list.head;
    for i := 0 to m
      invariant node == list.nodes[i]
    {
      node := node.next;
    }
  }

  /**
   * ll_add_nth_node: a NULL list is left alone; position 0 or an empty
   * list puts the new node at the head, and otherwise it goes after the
   * node at min(n - 1, size - 1), which lands it at min(n, size).
   */
  method AddNth<T>(list: LinkedList?<T>, n: nat, x: T)
    requires list != null ==> list.Valid()
    modifies if list != null then list.Repr else {}
    ensures list != null ==> list.Valid() && fresh(list.Repr - old(list.Repr))
    ensures list != null ==> list.Contents == InsertAt(old(list.Contents), n, x)
  {
    if list == null {
      return;
    }
    if n == 0 || list.size == 0 {
      list.Splice(0, null, list.head, x);
    } else {
      var prev := GetNthNode(list, n - 1);
      list.Splice(Min(n - 1, list.size - 1) + 1, prev, prev.next, x);
    }
  }

  /**
   * ll_remove_nth_node: NULL for a NULL or empty list, which stays as it
   * is; otherwise the node at position n is detached with its link
   * cleared and handed to the caller. For n >= size the source follows
   * the tail's NULL link, so callers must name an existing position.
   */
  method RemoveNth<T>(list: LinkedList?<T>, n: nat) returns (removed: Node?<T>)
    requires list != null ==> list.Valid()
    requires list != null && list.Contents != [] ==> n < |list.Contents|
    modifies if list != null then list.Repr else {}
    ensures removed == null <==> list == null || old(list.Contents) == []
    ensures list != null ==> list.Valid()
    ensures list != null && old(list.Contents) == [] ==> list.Contents == [] && list.Repr == old(list.Repr)
    ensures list != null && old(list.Contents) != [] ==>
              && removed == old(list.nodes[n])
              && removed.data == old(list.Contents[n])
              && removed.next == null
              && list.Contents == RemoveAt(old(list.Contents), n)
              && list.Repr == old(list.Repr) - {removed}
  {
    if list == null || list.size == 0 {
      return null;
    }
    if n == 0 {
      removed := list.head;
      list.Unlink(0, null, removed);
    } else {
      var prev := GetNthNode(list, n - 1);
      removed := prev.next;
      list.Unlink(n, prev, removed);
    }
    removed.next := null;
  }

  /** ll_get_size: the number of elements, or 0 for a NULL list. */
  function GetSize<T>(list: LinkedList?<T>): (r: nat)
    requires list != null ==> list.Valid()
    reads if list != null then list.Repr else {}
    ensures list == null ==> r == 0
    ensures list != null ==> r == |list.Contents|
  {
    if list == null then 0 else list.size
  }

  /**
   * ll_free: removes every node from the head on; the caller's handle
   * becomes NULL. A NULL handle is left alone.
   */
  method Free<T>(list: LinkedList?<T>) returns (handle: LinkedList?<T>)
    requires list != null ==> list.Valid()
    modifies if list != null then list.Repr else {}
    ensures handle == null
    ensures list != null ==> list.Valid() && list.Contents == [] && list.Repr == {list}
  {
    if list == null {
      return null;
    }
    while list.size > 0
      invariant list.Valid() && list.Repr <= old(list.Repr)
      decreases |list.Contents|
    {
      var node := RemoveNth(list, 0);
    }
    assert list.nodes == [];
    return null;
  }
}
