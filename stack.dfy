/**
 * The stack of Graph/comp_conex.c (`stack_t`): a handle on a list whose
 * head is the top, so every operation works at position 0. `st_clear`
 * frees the list and leaves the handle NULL, after which every operation
 * is a no-op and the stack reads as empty.
 */
module Stacks {
  import opened Options
  import opened ListSpec
  import opened LinkedLists
  import NthList

  class Stack<T> {
    var list: LinkedList?<T>
    ghost var Repr: set<object>

    ghost predicate Valid()
      reads this, Repr
    {
      && this in Repr
      && (list == null ==> Repr == {this})
      && (list != null ==>
            && list in Repr
            && list.Repr <= Repr
            && Repr == {this} + list.Repr
            && this !in list.Repr
            && list.Valid())
    }

    /** The elements from the top down; none once the list is gone. */
    ghost function Contents(): seq<T>
      reads this, Repr
      requires Valid()
    {
      if list == null then [] else list.Contents
    }

    /** st_create: an empty stack over a fresh list. */
    constructor ()
      ensures Valid() && fresh(Repr)
      ensures list != null && Contents() == []
    {
      list := new LinkedList();
      new;
      Repr := {this} + list.Repr;
    }

    /** st_get_size: the number of elements, 0 without a list. */
    function GetSize(): (r: nat)
      reads this, Repr
      requires Valid()
      ensures r == |Contents()|
    {
      NthList.GetSize(list)
    }

    /** st_is_empty: true exactly when there is nothing to pop. */
    function IsEmpty(): (r: bool)
      reads this, Repr
      requires Valid()
      ensures r <==> Contents() == []
    {
      list == null || list.size == 0
    }

    /** st_peek: the top element, or NULL for an empty stack. */
    function Peek(): (r: Option<T>)
      reads this, Repr
      requires Valid()
      ensures r == None <==> Contents() == []
      ensures r.Some? ==> r.value == Contents()[0]
    {
      if list == null || list.size == 0 then None else Some(list.head.data)
    }

    /** st_push: `x` becomes the new top; without a list nothing happens. */
    method Push(x: T)
      requires Valid()
      modifies Repr
      ensures Valid() && fresh(Repr - old(Repr))
      ensures list == old(list)
      ensures Contents() == if list == null then [] else [x] + old(Contents())
    {
      if list == null {
        return;
      }
      NthList.AddNth(list, 0, x);
      Repr := {this} + list.Repr;
    }

    /**
     * st_pop: drops the top element. On an empty list the source
     * dereferences the NULL it gets back, so a list must not be empty.
     */
    method Pop()
      requires Valid()
      requires list != null ==> list.Contents != []
      modifies Repr
      ensures Valid() && Repr <= old(Repr)
      ensures list == old(list)
      ensures Contents() == if list == null then [] else old(Contents())[1..]
    {
      if list == null {
        return;
      }
      RemoveHead(list.Contents);
      var node := NthList.RemoveNth(list, 0);
      Repr := {this} + list.Repr;
    }

    /** st_clear: frees every element and the list itself. */
    method Clear()
      requires Valid()
      modifies Repr
      ensures Valid() && Repr == {this}
      ensures list == null && Contents() == []
    {
      if list == null {
        return;
      }
      list := NthList.Free(list);
      Repr := {this};
    }
  }
}
