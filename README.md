# Doubly-linked list of copied byte payloads

This project models the C linked-list container in `linkedlist.h` and
`linkedlist.c` in Dafny. The list stores private copies of caller payloads.
Its parts are:

- **Nodes** (`struct listNode`). Each node holds a copied payload (`data`, `dataSize`) and its `nextNode`/`prevNode` links.
- **List header** (`struct linkedList`). It holds `head`, `tail` and `size`.
- **Iterator** (`struct linkedListIterator`). A forward cursor with a single `current` field.

Each struct becomes a Dafny class whose fields the operations rewrite in
place:

- `Node` has `data`, `dataSize`, `next` and `prev`.
- `LinkedList` has `head`, `tail` and `size`. It also has a ghost `nodes` sequence, the chain from head to tail, and a ghost footprint `Repr`.
- `Iterator` has `current`.

`LinkedList.Valid()` is the chain invariant:

- `size` counts the nodes.
- `head` and `tail` are the two ends, and both are null exactly when the list is empty.
- Consecutive nodes point at each other.
- The end nodes have null outer links.
- No node appears twice.
- Every node holds a non-empty payload of length `dataSize`.

`LinkedList.Elements()` is the abstract value of the list: the payloads from
head to tail.

Each `ll_*` function becomes a top-level method. The method takes a nullable
handle (`LinkedList?`, `Iterator?`), and the caller's object pointer becomes
an `Option<seq<bv8>>`, so every NULL-argument branch of the C code is part of
the model.

Each mutating method has two kinds of contract:

- Every return-code condition, in both directions.
- The new abstract value, stated through the positional sequence edits `InsertAt` and `RemoveAt` of module `Positional`.

The pointer surgery of `ll_addIndex` and `ll_remove` is proved correct by the
twostate lemmas `SpliceIn`/`SplicedList` and `Unlink`/`UnlinkedList`. These
lemmas show that the links rewritten by the C code re-establish the invariant
for the edited chain.

The module `Scenarios` states what sequences of operations amount to:

- Insertion and removal at the same index undo each other.
- Reading back at an index right after inserting there yields the inserted bytes.
- Clearing an already cleared list changes nothing.

## Model

| member | source | states |
|---|---|---|
| LinkedLists.Node.constructor | linkedlist.c:38-46 | a new node holds a copy of the first `size` bytes of the object, records `size` as `dataSize`, and starts with null links |
| LinkedLists.LinkedList.Walk | linkedlist.h:33-35 | following `next` k times from `head` reaches the node at index k; after exactly `size` steps it reaches null, so `size` is the length of the chain |
| LinkedLists.LinkedList.WalkBack | linkedlist.h:24-34 | following `prev` k times from `tail` reaches the node at index `size-1-k`, so the backward chain is the forward chain reversed |
| LinkedLists.LinkedList.Ends | linkedlist.h:33-35 | `size == 0` iff `head` is null iff `tail` is null; `head.prev` and `tail.next` are null; a one-element list has `head == tail` |
| LinkedLists.LinkedList.LinksSymmetric | linkedlist.h:24-25 | for every node, its successor's `prev` is the node and its predecessor's `next` is the node |
| LinkedLists.Iterator.constructor | linkedlist.c:282-287 | a new cursor stands on the given start node |
| LinkedLists.SpliceIn | linkedlist.c:101-113 | pointing a new node at its two neighbours and them back at it links the chain `InsertAt(nodes, i, node)`, which stays duplicate-free and filled; the payload sequence becomes `InsertAt(payloads, i, data)` |
| LinkedLists.SplicedList | linkedlist.c:101-121 | after the splice, the `head` update for index 0 and the `size` increment, the list is valid and its elements are the old elements with the new payload inserted at i |
| LinkedLists.Unlink | linkedlist.c:154-162 | pointing the removed node's neighbours at each other links the chain `RemoveAt(nodes, i)`; the payload sequence becomes `RemoveAt(payloads, i)` |
| LinkedLists.UnlinkedList | linkedlist.c:154-184 | after the unlink, the `head`/`tail` update at the ends and the `size` decrement, a list that keeps at least one node is valid, and its elements are the old elements without index i |
| LinkedLists.Init | linkedlist.c:15-23 | a non-NULL header becomes the valid empty list (`head`, `tail` null, `size` 0, no elements); a NULL handle is ignored |
| LinkedLists.Add | linkedlist.c:32-71 | succeeds exactly for a non-NULL list, a non-NULL object and a non-zero size; on success the elements gain a copy of the bytes at the end, the fresh node becomes `tail` with `prev` = old tail, `next` null and `dataSize` = size, and it is also `head` when the list was empty; on failure nothing changes |
| LinkedLists.AddIndex | linkedlist.c:81-134 | succeeds exactly for a non-NULL list, a non-NULL object, a non-zero size and `index <= size`; on success the elements are the old elements with the copy inserted at `index` (appending when `index == size`), and the node chain is the old chain with one fresh node inserted at `index`, so that node is `head` when `index` is 0 and `tail` when `index == size`; on failure nothing changes |
| LinkedLists.InsertBefore | linkedlist.c:95-121 | walking a fresh iterator `index` steps from `head` and linking a node before the node found there keeps the list valid, inserts exactly that node into the chain at `index`, and inserts its payload at `index` |
| LinkedLists.LinkBefore | linkedlist.c:101-121 | linking a node before the node at `index` keeps the list valid, adds exactly that node to the chain at `index`, and inserts its payload at `index` |
| LinkedLists.Remove | linkedlist.c:142-195 | succeeds exactly for a non-NULL list and `index < size`; on success the element at `index` is gone and the rest keep their order, and an emptied list has null `head` and `tail`; on failure nothing changes |
| LinkedLists.UnlinkAt | linkedlist.c:154-189 | unlinking the node at `index` keeps the list valid, drops exactly that node from the chain and its payload from the elements, and resets an emptied header |
| LinkedLists.Get | linkedlist.c:202-222 | returns the element at `index` when the list is non-NULL and `index < size`, NULL otherwise; it changes nothing |
| LinkedLists.Clear | linkedlist.c:229-253 | releases every node of the list exactly once, head first, and leaves the valid empty list; a NULL handle is ignored |
| LinkedLists.Size | linkedlist.c:260-270 | returns 0 for a NULL list, otherwise the number of elements, which is also the number of steps the walk from `head` takes to reach null |
| LinkedLists.GetIterator | linkedlist.c:278-290 | returns NULL exactly for a NULL list, otherwise a new cursor standing on `head` |
| LinkedLists.HasNext | linkedlist.c:298-310 | true exactly when the cursor is non-NULL and stands on a node |
| LinkedLists.Next | linkedlist.c:317-332 | for a cursor on a node, returns that node's payload and moves to its successor; for a NULL or exhausted cursor, returns NULL and does not move |
| LinkedLists.Traverse | testLinkedList.cpp:669-711 | a cursor from `GetIterator`, stepped `size` times, finds `HasNext` true and a non-NULL payload at every step and yields exactly the elements in order; afterwards `HasNext` is false and `Next` yields NULL |
| Positional.InsertAtShape | linkedlist.h:62-70 | inserting at i lengthens the sequence by one, puts the new item at i, keeps the prefix and shifts the rest one place right |
| Positional.RemoveAtShape | linkedlist.h:72-78 | removing at i shortens the sequence by one, keeps the prefix and shifts the rest one place left |
| Positional.InsertAtEndIsAppend | linkedlist.c:128-131 | inserting at the position one past the end is appending, which is why `ll_addIndex` may delegate to `ll_add` there |
| Positional.RemoveAfterInsert | linkedlist.h:62-78 | removing at i what was just inserted at i restores the sequence |
| Positional.InsertAfterRemove | linkedlist.h:62-78 | re-inserting at i the item that was removed from i restores the sequence |
| Scenarios.InsertThenRemove | linkedlist.h:62-78 | `ll_addIndex` at any index up to `size` followed by `ll_remove` at the same index succeeds twice and leaves the elements as they were |
| Scenarios.RemoveThenReinsert | linkedlist.h:72-85 | reading the element at `index` with `ll_get` into a caller-owned copy, removing it with `ll_remove` and adding the copy back at `index` with `ll_addIndex` succeeds and leaves the elements as they were |
| Scenarios.GetAfterAddIndex | linkedlist.h:62-85 | `ll_get` at `index` right after a successful `ll_addIndex` at `index` returns exactly the inserted bytes |
| Scenarios.ClearTwice | linkedlist.h:87-92 | a second `ll_clear` releases nothing and leaves the same empty header as the first |

## Left out

- Memory management is not modelled: `malloc`, `free` and `memcpy` are replaced by Dafny allocation and sequence copies. The C code never checks `malloc` for NULL, so allocation failure has no behaviour to model. The ghost `released` result of `Clear` records which nodes the loop frees.
- Add: the precondition `Readable(obj, size)` asks for `size` readable bytes whenever the object is present. This includes calls the C code rejects before reading, such as a NULL list.
- AddIndex: the same `Readable(obj, size)` precondition applies, including for indexes past `size` where nothing is read.
- The `uint32_t` widths of `size`, `index` and `dataSize` are unbounded naturals. `size` cannot wrap around, and the `index >= 0` tests, which are vacuous for unsigned values, disappear.
- Get: returns the payload value, where the C function returns a pointer to the node's live buffer. Writes through that pointer are not modelled. The C pointer dies when a later `ll_remove` or `ll_clear` frees that node, while the returned value stays valid. A caller that needs the bytes after such a call must copy them first, as `Scenarios.RemoveThenReinsert` does.
- Next: the same applies to the payload it returns, including the pointer becoming invalid when a later `ll_remove` or `ll_clear` frees the node.
- Caller-side `free(iter)` is not modelled.
- Using an iterator after the list it walks has been changed is not modelled. The C code leaves that undefined.
- LinkedLists.LinkedList.constructor: stands for a declared but uninitialized `struct linkedList`. Its fields are unspecified until `Init`, so it has no contract.
- The CppUnit test suite in testLinkedList.cpp and testLinkedList.h is not modelled. Its scenarios appear only as `Traverse` and the `Scenarios` module.
