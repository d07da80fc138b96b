/**
 * A doubly-linked list of copied byte payloads, after linkedlist.h and
 * linkedlist.c. The three C structs become classes whose fields the
 * operations rewrite in place; the free functions `ll_*` become top-level
 * methods that take nullable handles, so that every NULL-argument branch of
 * the C code is part of the model.
 */
module LinkedLists {

  import opened Wrappers
  import opened Positional

  /** One list element: a private copy of a payload and the links to its neighbours. */
  class Node {
    var data: seq<bv8>
    var dataSize: nat
    var next: Node?
    var prev: Node?

    /** Allocates a node whose payload is a copy of the first `size` bytes of `buf`. */
    constructor (buf: seq<bv8>, size: nat)
      requires size <= |buf|
      ensures data == buf[..size] && dataSize == size
      ensures next == null && prev == null
    {
      data := buf[..size];
      dataSize := size;
      next := null;
      prev := null;
    }
  }

  /** The list header. `nodes` is the ghost view of the chain, head first. */
  class LinkedList {
    var head: Node?
    var tail: Node?
    var size: nat
    ghost var nodes: seq<Node>
    ghost var Repr: set<object>

    /** A declared but not yet initialized header: its fields hold arbitrary values until `Init`. */
    constructor ()
    {
    }

    /**
     * The chain invariant: `size` counts the nodes, `head` and `tail` are the
     * ends (both null exactly when the list is empty), the nodes are linked in
     * walk order, no node occurs twice, and every node holds a non-empty
     * payload whose length is `dataSize`.
     */
    ghost predicate Valid()
      reads this, Repr
    {
      && this in Repr
      && (forall i | 0 <= i < |nodes| :: nodes[i] in Repr)
      && size == |nodes|
      && (if |nodes| == 0 then head == null && tail == null
          else head == nodes[0] && tail == nodes[|nodes| - 1])
      && Distinct(nodes)
      && Linked(nodes)
      && Filled(nodes)
    }

    /** The payloads from head to tail: the abstract value of the list. */
    ghost function Elements(): seq<seq<bv8>>
      reads this, Repr
      requires Valid()
    {
      Payloads(nodes)
    }

    /** The node at walk position `k`, or null once `k` is past the tail. */
    ghost function Position(k: nat): Node?
      reads this, Repr
      requires Valid()
    {
      if k < |nodes| then nodes[k] else null
    }

    /**
     * Following `next` `k` times from `head` reaches the node at index `k`;
     * after exactly `size` steps the walk reaches null, so `size` is the
     * length of the chain.
     */
    ghost function Walk(k: nat): (n: Node?)
      reads this, Repr
      requires Valid()
      ensures n == if k < size then nodes[k] else null
    {
      if k == 0 then head
      else
        var p := Walk(k - 1);
        if p == null then null
        else
          assert p == nodes[k - 1];
          p.next
    }

    /** Following `prev` `k` times from `tail` reaches the node at index `size - 1 - k`. */
    ghost function WalkBack(k: nat): (n: Node?)
      reads this, Repr
      requires Valid()
      ensures n == if k < size then nodes[size - 1 - k] else null
    {
      if k == 0 then tail
      else
        var p := WalkBack(k - 1);
        if p == null then null
        else
          assert p == nodes[size - k];
          p.prev
    }

    /** The end conditions of the chain. */
    lemma Ends()
      requires Valid()
      ensures size == 0 <==> head == null
      ensures head == null <==> tail == null
      ensures head != null ==> head.prev == null && tail.next == null
      ensures size == 1 ==> head == tail
    {
    }

    /** Links are symmetric: a node's successor points back to it, and so does its predecessor. */
    lemma LinksSymmetric()
      requires Valid()
      ensures forall n | n in nodes :: n.next != null ==> n.next.prev == n
      ensures forall n | n in nodes :: n.prev != null ==> n.prev.next == n
    {
      forall n | n in nodes
        ensures n.next != null ==> n.next.prev == n
        ensures n.prev != null ==> n.prev.next == n
      {
        var i :| 0 <= i < |nodes| && nodes[i] == n;
        if i + 1 < |nodes| {
          assert n.next == nodes[i + 1];
        }
        if 0 < i {
          assert n.prev == nodes[i - 1];
        }
      }
    }
  }

  /** A forward cursor over a chain of nodes. */
  class Iterator {
    var current: Node?

    constructor (start: Node?)
      ensures current == start
    {
      current := start;
    }
  }

  /** No node occurs twice. */
  ghost predicate Distinct(ns: seq<Node>)
  {
    forall i, j | 0 <= i < j < |ns| :: ns[i] != ns[j]
  }

  /** Consecutive nodes point at each other, and the chain is open at both ends. */
  ghost predicate Linked(ns: seq<Node>)
    reads ns
  {
    && (|ns| != 0 ==> ns[0].prev == null && ns[|ns| - 1].next == null)
    && (forall i, j | 0 <= i && j == i + 1 && j < |ns| :: ns[i].next == ns[j] && ns[j].prev == ns[i])
  }

  /** Every node holds a non-empty payload of `dataSize` bytes. */
  ghost predicate Filled(ns: seq<Node>)
    reads ns
  {
    forall i | 0 <= i < |ns| :: 0 < ns[i].dataSize == |ns[i].data|
  }

  /** The payloads of `ns`, in order. */
  ghost function Payloads(ns: seq<Node>): seq<seq<bv8>>
    reads ns
  {
    seq(|ns|, i requires 0 <= i < |ns| reads ns => ns[i].data)
  }

  /** `n` has the same links and payload as in the previous state. */
  twostate predicate Kept(n: Node)
    reads n
  {
    n.next == old(n.next) && n.prev == old(n.prev) && KeptData(n)
  }

  /** `n` still carries the payload it had in the earlier state. */
  twostate predicate KeptData(n: Node)
    reads n
  {
    n.data == old(n.data) && n.dataSize == old(n.dataSize)
  }

  /**
   * Splicing `node` in before `os[i]` (or after the last node when `i` is
   * `|os|`), by pointing it at its two neighbours and pointing those back at
   * it while every other node keeps its links, links the chain
   * `InsertAt(os, i, node)`.
   *
   * (In this and the three lemmas below the index is declared `new`. For an
   * integer that marking adds nothing to the lemma's meaning; it works around
   * a verifier crash that Dafny 4.11 shows, under its contradictory-assumption
   * warnings, when a twostate lemma with two or more ordinary parameters and
   * a `requires` is called.)
   */
  twostate lemma SpliceIn(os: seq<Node>, new i: nat, new node: Node)
    requires i <= |os| && Distinct(os) && node !in os
    requires old(Linked(os)) && old(Filled(os))
    requires node.next == (if i == |os| then null else os[i])
    requires node.prev == (if i == 0 then null else os[i - 1])
    requires 0 < node.dataSize == |node.data|
    requires forall k | 0 <= k < |os| && k != i - 1 && k != i :: Kept(os[k])
    requires 0 < i ==> os[i - 1].next == node && os[i - 1].prev == old(os[i - 1].prev) && KeptData(os[i - 1])
    requires i < |os| ==> os[i].prev == node && os[i].next == old(os[i].next) && KeptData(os[i])
    ensures Distinct(InsertAt(os, i, node))
    ensures Linked(InsertAt(os, i, node))
    ensures Filled(InsertAt(os, i, node))
    ensures Payloads(InsertAt(os, i, node)) == InsertAt(old(Payloads(os)), i, node.data)
  {
    var ns := InsertAt(os, i, node);
    InsertAtShape(os, i, node);
    forall k | 0 <= k < |os|
      ensures os[k].data == old(os[k].data) && os[k].dataSize == old(os[k].dataSize)
      ensures os[k].next == if k == i - 1 then node else old(os[k].next)
      ensures os[k].prev == if k == i then node else old(os[k].prev)
    {
      if k != i - 1 && k != i {
        assert os[k] != node.prev && os[k] != node.next;
        assert Kept(os[k]);
      }
    }
    forall k | 0 <= k < |ns| - 1
      ensures ns[k].next == ns[k + 1] && ns[k + 1].prev == ns[k]
    {
      if k < i - 1 {
        assert ns[k] == os[k] && ns[k + 1] == os[k + 1];
      } else if k == i - 1 {
        assert ns[k] == os[k];
      } else if k == i {
        assert ns[k + 1] == os[i];
      } else {
        assert k > i;
        assert ns[k] == os[k - 1] && ns[k + 1] == os[k];
      }
    }
    InsertAtShape(old(Payloads(os)), i, node.data);
  }

  /**
   * The header-level consequence of `SpliceIn`: after splicing `node` in at
   * `i` and updating `head`, `size`, `nodes` and `Repr` to match, the list is
   * valid again and holds `node`'s payload at index `i`.
   */
  twostate lemma SplicedList(list: LinkedList, new i: nat, new node: Node)
    requires old(list.Valid()) && i <= old(list.size) && node !in old(list.Repr)
    requires list.nodes == InsertAt(old(list.nodes), i, node)
    requires list.Repr == old(list.Repr) + {node}
    requires list.size == old(list.size) + 1
    requires list.head == (if i == 0 then node else old(list.head))
    requires list.tail == (if i == old(list.size) then node else old(list.tail))
    requires node.next == (if i == old(list.size) then null else old(list.nodes)[i])
    requires node.prev == (if i == 0 then null else old(list.nodes)[i - 1])
    requires 0 < node.dataSize == |node.data|
    requires forall k | 0 <= k < old(list.size) && k != i - 1 && k != i :: Kept(old(list.nodes)[k])
    requires 0 < i ==>
      old(list.nodes)[i - 1].next == node && old(list.nodes)[i - 1].prev == old(list.nodes[i - 1].prev)
      && KeptData(old(list.nodes)[i - 1])
    requires i < old(list.size) ==>
      old(list.nodes)[i].prev == node && old(list.nodes)[i].next == old(list.nodes[i].next)
      && KeptData(old(list.nodes)[i])
    ensures list.Valid()
    ensures list.Elements() == InsertAt(old(list.Elements()), i, node.data)
  {
    var os := old(list.nodes);
    assert node !in os;
    SpliceIn(os, i, node);
    InsertAtShape(os, i, node);
  }

  /**
   * Unlinking `os[i]`, by pointing its old predecessor and successor at each
   * other while every other node keeps its links, links the chain
   * `RemoveAt(os, i)`.
   */
  twostate lemma Unlink(os: seq<Node>, new i: nat)
    requires i < |os| && Distinct(os)
    requires old(Linked(os)) && old(Filled(os))
    requires forall k | 0 <= k < |os| && k != i - 1 && k != i + 1 :: Kept(os[k])
    requires 0 < i ==> os[i - 1].next == old(os[i].next) && os[i - 1].prev == old(os[i - 1].prev) && KeptData(os[i - 1])
    requires i + 1 < |os| ==> os[i + 1].prev == old(os[i].prev) && os[i + 1].next == old(os[i + 1].next) && KeptData(os[i + 1])
    ensures Distinct(RemoveAt(os, i))
    ensures Linked(RemoveAt(os, i))
    ensures Filled(RemoveAt(os, i))
    ensures Payloads(RemoveAt(os, i)) == RemoveAt(old(Payloads(os)), i)
  {
    var ns := RemoveAt(os, i);
    RemoveAtShape(os, i);
    assert old(os[i].prev) == if i == 0 then null else os[i - 1];
    assert old(os[i].next) == if i == |os| - 1 then null else os[i + 1];
    forall k | 0 <= k < |os| && k != i
      ensures os[k].data == old(os[k].data) && os[k].dataSize == old(os[k].dataSize)
      ensures os[k].next == if k == i - 1 then old(os[i].next) else old(os[k].next)
      ensures os[k].prev == if k == i + 1 then old(os[i].prev) else old(os[k].prev)
    {
      if k != i - 1 && k != i + 1 {
        assert os[k] != old(os[i].prev) && os[k] != old(os[i].next);
        assert Kept(os[k]);
      }
    }
    forall k | 0 <= k < |ns| - 1
      ensures ns[k].next == ns[k + 1] && ns[k + 1].prev == ns[k]
    {
      if k < i - 1 {
        assert ns[k] == os[k] && ns[k + 1] == os[k + 1];
      } else if k == i - 1 {
        assert ns[k] == os[k] && ns[k + 1] == os[k + 2];
      } else {
        assert ns[k] == os[k + 1] && ns[k + 1] == os[k + 2];
      }
    }
    RemoveAtShape(old(Payloads(os)), i);
  }

  /**
   * The header-level consequence of `Unlink`: after unlinking the node at `i`
   * from a list of at least two nodes and updating `head`, `tail`, `size`,
   * `nodes` and `Repr` to match, the list is valid again and has lost exactly
   * the payload at index `i`.
   */
  twostate lemma UnlinkedList(list: LinkedList, new i: nat)
    requires old(list.Valid()) && i < old(list.size)
    requires list.size == old(list.size) - 1 && list.size != 0
    requires list.nodes == RemoveAt(old(list.nodes), i)
    requires list.Repr == old(list.Repr) - {old(list.nodes)[i]}
    requires list.head == (if i == 0 then old(list.nodes)[1] else old(list.head))
    requires list.tail == (if i == old(list.size) - 1 then old(list.nodes)[i - 1] else old(list.tail))
    requires forall k | 0 <= k < old(list.size) && k != i - 1 && k != i + 1 :: Kept(old(list.nodes)[k])
    requires 0 < i ==>
      old(list.nodes)[i - 1].next == old(list.nodes[i].next) && old(list.nodes)[i - 1].prev == old(list.nodes[i - 1].prev)
      && KeptData(old(list.nodes)[i - 1])
    requires i + 1 < old(list.size) ==>
      old(list.nodes)[i + 1].prev == old(list.nodes[i].prev) && old(list.nodes)[i + 1].next == old(list.nodes[i + 1].next)
      && KeptData(old(list.nodes)[i + 1])
    ensures list.Valid()
    ensures list.Elements() == RemoveAt(old(list.Elements()), i)
  {
    var os := old(list.nodes);
    Unlink(os, i);
    RemoveAtShape(os, i);
    assert list.nodes[0] == os[if i == 0 then 1 else 0];
    assert list.nodes[|list.nodes| - 1] == os[if i == |os| - 1 then |os| - 2 else |os| - 1];
  }

  /** The caller's buffer, when present, holds at least the `size` bytes that are copied from it. */
  predicate Readable(obj: Option<seq<bv8>>, size: nat)
  {
    obj.Some? ==> size <= |obj.value|
  }

  /** ll_init: resets the header to the empty list; does nothing for a NULL handle. */
  method Init(list: LinkedList?)
    modifies list
    ensures list != null ==> list.Valid() && list.Repr == {list}
    ensures list != null ==> list.head == null && list.tail == null && list.size == 0
    ensures list != null ==> list.Elements() == []
  {
    if list != null {
      list.head := null;
      list.tail := null;
      list.size := 0;
      list.nodes := [];
      list.Repr := {list};
    }
  }

  /**
   * ll_add: appends a copy of the first `size` bytes of `obj` as the new
   * tail. Fails, changing nothing, for a NULL list, a NULL object or a zero size.
   */
  method Add(list: LinkedList?, obj: Option<seq<bv8>>, size: nat) returns (completed: bool)
    requires list != null ==> list.Valid()
    requires Readable(obj, size)
    modifies if list == null then {} else list.Repr
    ensures completed <==> list != null && obj.Some? && size != 0
    ensures list != null ==> list.Valid() && fresh(list.Repr - old(list.Repr))
    ensures list != null ==>
      list.Elements() == if completed then old(list.Elements()) + [obj.value[..size]] else old(list.Elements())
    ensures completed ==> fresh(list.tail) && list.nodes == old(list.nodes) + [list.tail]
    ensures completed ==> list.tail.prev == old(list.tail) && list.tail.next == null && list.tail.dataSize == size
    ensures completed && old(list.size) == 0 ==> list.head == list.tail
    ensures list != null && !completed ==> unchanged(old(list.Repr))
  {
    completed := false;
    if list != null && obj.Some? && size != 0 {
      var node := new Node(obj.value, size);
      node.next := null;
      node.prev := list.tail;
      if list.tail != null {
        list.tail.next := node;
      }
      list.tail := node;
      if list.size == 0 {
        list.head := node;
      }
      list.size := list.size + 1;
      list.nodes := list.nodes + [node];
      list.Repr := list.Repr + {node};
      completed := true;

      ghost var os := old(list.nodes);
      SpliceIn(os, |os|, node);
      InsertAtEndIsAppend(os, node);
      InsertAtEndIsAppend(old(list.Elements()), node.data);
      assert list.nodes == os + [node];
      assert forall i | 0 <= i < |list.nodes| :: list.nodes[i] in list.Repr;
      assert list.head == list.nodes[0] && list.tail == list.nodes[|list.nodes| - 1];
      assert list.Valid();
      assert list.Elements() == old(list.Elements()) + [node.data];
    }
  }

  /**
   * ll_addIndex: for `index < size`, splices a copy of the payload in
   * immediately before the node at `index`; for `index == size`, appends as
   * `Add` does. Fails, changing nothing, for any larger index or for a NULL
   * list, a NULL object or a zero size.
   */
  method AddIndex(list: LinkedList?, obj: Option<seq<bv8>>, size: nat, index: nat)
    returns (completed: bool)
    requires list != null ==> list.Valid()
    requires Readable(obj, size)
    modifies if list == null then {} else list.Repr
    ensures completed <==> list != null && obj.Some? && size != 0 && index <= old(list.size)
    ensures list != null ==> list.Valid() && fresh(list.Repr - old(list.Repr))
    ensures list != null ==>
      list.Elements() == if completed then InsertAt(old(list.Elements()), index, obj.value[..size])
                         else old(list.Elements())
    ensures completed ==>
      |list.nodes| == |old(list.nodes)| + 1 && fresh(list.nodes[index]) &&
      list.nodes == InsertAt(old(list.nodes), index, list.nodes[index])
    ensures list != null && !completed ==> unchanged(old(list.Repr))
  {
    completed := false;
    if list != null && obj.Some? && size != 0 && index < list.size {
      var node := new Node(obj.value, size);

      InsertBefore(list, index, node);
      InsertAtShape(old(list.nodes), index, node);
      completed := true;
    } else if list != null && index == list.size {
      ghost var elems := list.Elements();
      completed := Add(list, obj, size);
      if completed {
        InsertAtEndIsAppend(elems, obj.value[..size]);
        InsertAtEndIsAppend(old(list.nodes), list.tail);
      }
    }
  }

  /**
   * The walk and splice steps of ll_addIndex: advances a fresh iterator from
   * `head` to the node at `index` and links `node` in immediately before it.
   */
  method InsertBefore(list: LinkedList, index: nat, node: Node)
    requires list.Valid() && index < list.size
    requires node !in list.Repr && 0 < node.dataSize == |node.data|
    modifies list, list.Repr, node
    ensures list.Valid() && list.Repr == old(list.Repr) + {node}
    ensures list.nodes == InsertAt(old(list.nodes), index, node)
    ensures list.Elements() == InsertAt(old(list.Elements()), index, old(node.data))
  {
    var iter := GetIterator(list);
    var i := 0;
    while i < index
      invariant 0 <= i <= index
      invariant iter != null && iter.current == list.Position(i)
      modifies iter
    {
      var skipped := Next(iter);
      i := i + 1;
    }

    assert list.Valid() && list.nodes == old(list.nodes) && list.Elements() == old(list.Elements());
    LinkBefore(list, index, iter.current, node);
  }

  /**
   * The splice step of ll_addIndex: links `node` in immediately before `cur`,
   * the node at `index`, moving `head` when `index` is 0, and counts it.
   */
  method LinkBefore(list: LinkedList, index: nat, cur: Node?, node: Node)
    requires list.Valid() && index < list.size && cur == list.nodes[index]
    requires node !in list.Repr && 0 < node.dataSize == |node.data|
    modifies list, list.Repr, node
    ensures list.Valid() && list.Repr == old(list.Repr) + {node}
    ensures list.nodes == InsertAt(old(list.nodes), index, node)
    ensures list.Elements() == InsertAt(old(list.Elements()), index, old(node.data))
  {
    ghost var os := list.nodes;
    assert cur.prev == if index == 0 then null else os[index - 1];
    assert node !in os;
    node.next := cur;
    node.prev := cur.prev;
    if node.prev != null {
      node.prev.next := node;
    }
    cur.prev := node;
    if index == 0 {
      list.head := node;
    }
    list.size := list.size + 1;
    list.nodes := InsertAt(list.nodes, index, node);
    list.Repr := list.Repr + {node};
    SplicedList(list, index, node);
  }

  /**
   * ll_remove: unlinks the node at `index`, mending its neighbours' links and
   * moving `head` or `tail` when an end is removed; when the last node goes
   * the header is reset as by `Init`. Fails, changing nothing, for a NULL
   * list or an index at or past `size`.
   */
  method Remove(list: LinkedList?, index: nat) returns (completed: bool)
    requires list != null ==> list.Valid()
    modifies if list == null then {} else list.Repr
    ensures completed <==> list != null && index < old(list.size)
    ensures list != null ==> list.Valid() && list.Repr <= old(list.Repr)
    ensures list != null ==>
      list.Elements() == if completed then RemoveAt(old(list.Elements()), index) else old(list.Elements())
    ensures completed ==> list.nodes == RemoveAt(old(list.nodes), index)
    ensures completed && list.size == 0 ==> list.head == null && list.tail == null
    ensures list != null && !completed ==> unchanged(old(list.Repr))
  {
    completed := false;
    if list != null && index < list.size {
      var iter := GetIterator(list);
      var i := 0;
      while i < index
        invariant 0 <= i <= index
        invariant iter != null && iter.current == list.Position(i)
        modifies iter
      {
        var skipped := Next(iter);
        i := i + 1;
      }

      assert list.Valid() && list.nodes == old(list.nodes) && list.Elements() == old(list.Elements());
      UnlinkAt(list, index, iter.current);
      completed := true;
    }
  }

  /**
   * The unlink step of ll_remove: mends the links around `cur`, the node at
   * `index`, moves `head` or `tail` when an end goes, counts it out, and
   * resets the header as by `Init` when the list becomes empty.
   */
  method UnlinkAt(list: LinkedList, index: nat, cur: Node)
    requires list.Valid() && index < list.size && cur == list.nodes[index]
    modifies list, list.Repr
    ensures list.Valid() && list.Repr <= old(list.Repr) && cur !in list.Repr
    ensures list.nodes == RemoveAt(old(list.nodes), index)
    ensures list.Elements() == RemoveAt(old(list.Elements()), index)
  {
    ghost var os := list.nodes;
    ghost var elems := list.Elements();
    assert cur.prev == if index == 0 then null else os[index - 1];
    assert cur.next == if index == |os| - 1 then null else os[index + 1];
    if cur.next != null {
      cur.next.prev := cur.prev;
    }
    if cur.prev != null {
      cur.prev.next := cur.next;
    }
    if index == 0 {
      list.head := cur.next;
    } else if index == list.size - 1 {
      list.tail := cur.prev;
    }
    list.size := list.size - 1;
    list.nodes := RemoveAt(list.nodes, index);
    list.Repr := list.Repr - {cur};
    if list.size == 0 {
      Init(list);
      RemoveAtShape(os, index);
      RemoveAtShape(elems, index);
    } else {
      UnlinkedList(list, index);
    }
  }

  /**
   * ll_get: the payload of the node at `index`, or NULL for a NULL list or an
   * index at or past `size`. The list is not changed.
   */
  method Get(list: LinkedList?, index: nat) returns (result: Option<seq<bv8>>)
    requires list != null ==> list.Valid()
    ensures result == if list != null && index < list.size then Some(list.Elements()[index]) else None
  {
    result := None;
    if list != null && index < list.size {
      var iter := GetIterator(list);
      var i := 0;
      while i < index
        invariant 0 <= i <= index
        invariant iter != null && iter.current == list.Position(i)
        modifies iter
      {
        var skipped := Next(iter);
        i := i + 1;
      }
      result := Some(iter.current.data);
    }
  }

  /**
   * ll_clear: walks the chain once, releasing every node, then resets the
   * header as by `Init`. `released` lists the nodes in the order the walk
   * releases them: each node of the list exactly once, head first.
   */
  method Clear(list: LinkedList?) returns (ghost released: seq<Node>)
    requires list != null ==> list.Valid()
    modifies list
    ensures list != null ==> list.Valid() && list.Repr == {list}
    ensures list != null ==> list.head == null && list.tail == null && list.size == 0
    ensures list != null ==> list.Elements() == []
    ensures released == if list == null then [] else old(list.nodes)
  {
    released := [];
    if list != null {
      var iter := GetIterator(list);
      var more := HasNext(iter);
      ghost var k := 0;
      while more
        invariant 0 <= k <= list.size
        invariant iter != null && iter.current == list.Position(k)
        invariant more <==> k < list.size
        invariant released == list.nodes[..k]
        modifies iter
        decreases list.size - k
      {
        var temp := iter.current;
        var skipped := Next(iter);
        released := released + [temp];
        k := k + 1;
        more := HasNext(iter);
      }
      assert list.nodes[..k] == list.nodes;
      Init(list);
    }
  }

  /** ll_size: the number of stored payloads, or 0 for a NULL list. */
  method Size(list: LinkedList?) returns (num: nat)
    requires list != null ==> list.Valid()
    ensures list == null ==> num == 0
    ensures list != null ==> num == |list.Elements()|
    ensures list != null ==> list.Walk(num) == null && forall k | 0 <= k < num :: list.Walk(k) != null
  {
    num := 0;
    if list != null {
      num := list.size;
    }
  }

  /** ll_getIterator: a new cursor at the list's head, or NULL for a NULL list. */
  method GetIterator(list: LinkedList?) returns (iter: Iterator?)
    ensures iter == null <==> list == null
    ensures iter != null ==> fresh(iter) && iter.current == list.head
  {
    iter := null;
    if list != null {
      iter := new Iterator(list.head);
    }
  }

  /** ll_hasNext: whether the cursor still stands on a node; false for a NULL cursor. */
  method HasNext(iter: Iterator?) returns (hasNext: bool)
    ensures hasNext <==> iter != null && iter.current != null
  {
    hasNext := false;
    if iter != null {
      if iter.current != null {
        hasNext := true;
      }
    }
  }

  /**
   * ll_next: the payload of the node under the cursor, advancing the cursor
   * to that node's successor; NULL, without moving, for a NULL or exhausted cursor.
   */
  method Next(iter: Iterator?) returns (data: Option<seq<bv8>>)
    modifies iter
    ensures iter == null ==> data == None
    ensures iter != null && old(iter.current) == null ==> data == None && iter.current == null
    ensures iter != null && old(iter.current) != null ==>
      data == Some(old(iter.current.data)) && iter.current == old(iter.current.next)
  {
    data := None;
    if iter != null {
      if iter.current != null {
        data := Some(iter.current.data);
        iter.current := iter.current.next;
      }
    }
  }

  /**
   * The iteration protocol: a cursor from `GetIterator`, advanced by `Next`
   * `size` times, finds `HasNext` true before every step and yields every
   * payload in order, head to tail; after the last step `HasNext` is false
   * and `Next` yields NULL.
   */
  method Traverse(list: LinkedList) returns (items: seq<seq<bv8>>, hadEach: bool, more: bool, past: Option<seq<bv8>>)
    requires list.Valid()
    ensures items == list.Elements()
    ensures hadEach && !more && past == None
  {
    ghost var elems := list.Elements();
    var iter := GetIterator(list);
    items := [];
    hadEach := true;
    var i := 0;
    while i < list.size
      invariant 0 <= i <= list.size
      invariant iter != null && iter.current == list.Position(i)
      invariant items == elems[..i]
      invariant hadEach
      modifies iter
    {
      assert elems[i] == iter.current.data;
      var has := HasNext(iter);
      var data := Next(iter);
      hadEach := hadEach && has && data.Some?;
      assert elems[..i + 1] == items + [data.value];
      items := items + [data.value];
      i := i + 1;
    }
    assert elems[..i] == elems;
    more := HasNext(iter);
    past := Next(iter);
  }
}
