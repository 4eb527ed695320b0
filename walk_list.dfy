/**
 * The list functions as Hashtable/pb2.c and Hashtable/party_live.c write
 * them: positional insert and remove walk a `prev`/`curr` pair of
 * pointers from the head, with the insert index clamped to the size and
 * the remove index clamped to the last position.
 */
module WalkList {
  import opened ListSpec
  import opened Chain
  import opened LinkedLists

  /** What ll_get_size returns for a NULL list: (unsigned int)-1. */
  const NullSize: nat := 0xFFFF_FFFF

  /**
   * The walk both positional operations start with: `n` steps from the
   * head leave `curr` at position n and `prev` just before it.
   */
  method Seek<T>(list: LinkedList<T>, n: nat) returns (prev: Node?<T>, curr: Node?<T>)
    requires list.Valid()
    requires n <= |list.Contents|
    ensures curr == if n < |list.nodes| then list.nodes[n] else null
    ensures prev == if n == 0 then null else list.nodes[n - 1]
  {
    var m := n;
    ghost var i: nat := 0;
    curr := list.head;
    prev := null;
    while m > 0
      invariant i + m == n
      invariant curr == if i < |list.nodes| then list.nodes[i] else null
      invariant prev == if i == 0 then null else list.nodes[i - 1]
    {
      prev := curr;
      curr := curr.next;
      m := m - 1;
      i := i + 1;
    }
  }

  /**
   * ll_add_nth_node: a NULL list is left alone; otherwise the new node
   * lands at position min(n, size) and the other elements keep their
   * order.
   */
  method AddNth<T>(list: LinkedList?<T>, n: nat, x: T)
    requires list != null ==> list.Valid()
    modifies if list != null then list.Repr else {}
    ensures list != null ==> list.Valid() && fresh(list.Repr - old(list.Repr))
    ensures list != null ==> list.Contents == InsertAt(old(list.Contents), n, x)
  {
    if list == null {
      return;
    }
    var m: nat := n;
    if m > list.size {
      m := list.size;
    }
    var prev, curr := Seek(list, m);
    list.Splice(m, prev, curr, x);
  }

  /**
   * ll_remove_nth_node: NULL for a NULL or empty list, which stays as it
   * is; otherwise the node at position min(n, size - 1) is detached and
   * handed to the caller, and the other elements keep their order.
   */
  method RemoveNth<T>(list: LinkedList?<T>, n: nat) returns (removed: Node?<T>)
    requires list != null ==> list.Valid()
    modifies if list != null then list.Repr else {}
    ensures removed == null <==> list == null || old(list.Contents) == []
    ensures list != null ==> list.Valid()
    ensures list != null && old(list.Contents) == [] ==> list.Contents == [] && list.Repr == old(list.Repr)
    ensures list != null && old(list.Contents) != [] ==>
              var k := ClampedIndex(|old(list.Contents)|, n);
              && removed == old(list.nodes[k])
              && removed.data == old(list.Contents[k])
              && list.Contents == RemoveAt(old(list.Contents), k)
              && list.Repr == old(list.Repr) - {removed}
  {
    if list == null || list.head == null {
      return null;
    }
    var m: nat := n;
    if m > list.size - 1 {
      m := list.size - 1;
    }
    var prev, curr := Seek(list, m);
    list.Unlink(m, prev, curr);
    removed := curr;
  }

  /** ll_get_size: the number of elements, or (unsigned int)-1 for NULL. */
  function GetSize<T>(list: LinkedList?<T>): (r: nat)
    requires list != null ==> list.Valid()
    reads if list != null then list.Repr else {}
    ensures list == null ==> r == NullSize
    ensures list != null ==> r == |list.Contents|
  {
    if list == null then NullSize else list.size
  }

  /**
   * ll_free: removes every node from the head on; the caller's handle
   * becomes NULL. A NULL handle is left alone.
   */
  method Free<T>(list: LinkedList?<T>) returns (handle: LinkedList?<T>)
    requires list != null ==> list.Valid()
    modifies if list != null then list.Repr else {}
    ensures handle == null
    ensures list != null ==> list.Valid() && list.Contents == [] && list.Repr == {list}
  {
    if list == null {
      return null;
    }
    while GetSize(list) > 0
      invariant list.Valid() && list.Repr <= old(list.Repr)
      decreases |list.Contents|
    {
      var node := RemoveNth(list, 0);
    }
    assert list.nodes == [];
    return null;
  }
}
