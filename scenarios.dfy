/**
 * Sequences of list operations and what they amount to together: indexed
 * insertion and indexed removal undo each other, and resetting an already
 * reset list changes nothing.
 */
module Scenarios {

  import opened Wrappers
  import opened Positional
  import opened LinkedLists

  /**
   * Inserting a payload at `index` and then removing at `index` succeeds
   * both times and leaves the list holding what it held before.
   */
  method InsertThenRemove(list: LinkedList, obj: seq<bv8>, size: nat, index: nat)
    returns (added: bool, removed: bool)
    requires list.Valid() && 0 < size <= |obj| && index <= list.size
    modifies list.Repr
    ensures added && removed
    ensures list.Valid() && list.Elements() == old(list.Elements())
  {
    added := AddIndex(list, Some(obj), size, index);
    removed := Remove(list, index);
    RemoveAfterInsert(old(list.Elements()), index, obj[..size]);
  }

  /**
   * Reading the payload at `index` and keeping a copy of its bytes, removing
   * the element, and inserting the copy back at `index` succeeds and leaves
   * the list holding what it held before. The copy is the caller's own
   * sequence value, not the node's buffer, which removal releases.
   */
  method RemoveThenReinsert(list: LinkedList, index: nat) returns (removed: bool, added: bool)
    requires list.Valid() && index < list.size
    modifies list.Repr
    ensures removed && added
    ensures list.Valid() && list.Elements() == old(list.Elements())
  {
    ghost var elems := list.Elements();
    var got := Get(list, index);
    var bytes := got.value;
    assert bytes == elems[index] && 0 < |bytes|;
    removed := Remove(list, index);
    ghost var rest := list.Elements();
    RemoveAtShape(elems, index);
    assert bytes[..|bytes|] == bytes;
    added := AddIndex(list, Some(bytes), |bytes|, index);
    assert list.Elements() == InsertAt(rest, index, bytes);
    InsertAfterRemove(elems, index);
  }

  /**
   * Reading back at `index` right after inserting there yields exactly the
   * inserted bytes.
   */
  method GetAfterAddIndex(list: LinkedList, obj: seq<bv8>, size: nat, index: nat)
    returns (added: bool, got: Option<seq<bv8>>)
    requires list.Valid() && 0 < size <= |obj| && index <= list.size
    modifies list.Repr
    ensures added && got == Some(obj[..size])
  {
    added := AddIndex(list, Some(obj), size, index);
    InsertAtShape(old(list.Elements()), index, obj[..size]);
    got := Get(list, index);
  }

  /**
   * Clearing twice: the second clear releases nothing and leaves the same
   * empty header as the first.
   */
  method ClearTwice(list: LinkedList) returns (ghost first: seq<Node>, ghost second: seq<Node>)
    requires list.Valid()
    modifies list
    ensures first == old(list.nodes) && second == []
    ensures list.Valid() && list.Repr == {list} && list.head == null && list.tail == null && list.size == 0
  {
    first := Clear(list);
    second := Clear(list);
  }
}
