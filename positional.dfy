/**
 * Positional edits of a sequence. They are the abstract effect of the list's
 * indexed insertion and indexed removal on the sequence of stored payloads,
 * read from head to tail.
 */
module Positional {

  /** `s` with `x` placed at index `i`; what was at `i` and after moves one place right. */
  function InsertAt<T>(s: seq<T>, i: nat, x: T): seq<T>
    requires i <= |s|
  {
    s[..i] + [x] + s[i..]
  }

  /** `s` without its element at index `i`; what was after `i` moves one place left. */
  function RemoveAt<T>(s: seq<T>, i: nat): seq<T>
    requires i < |s|
  {
    s[..i] + s[i + 1..]
  }

  /** Insertion at `i` lands strictly before the old occupant of `i` and keeps everything else in order. */
  lemma InsertAtShape<T>(s: seq<T>, i: nat, x: T)
    requires i <= |s|
    ensures |InsertAt(s, i, x)| == |s| + 1
    ensures InsertAt(s, i, x)[i] == x
    ensures forall k | 0 <= k < i :: InsertAt(s, i, x)[k] == s[k]
    ensures forall k | i < k <= |s| :: InsertAt(s, i, x)[k] == s[k - 1]
  {
  }

  /** Removal at `i` keeps everything before `i` and shifts everything after it one place left. */
  lemma RemoveAtShape<T>(s: seq<T>, i: nat)
    requires i < |s|
    ensures |RemoveAt(s, i)| == |s| - 1
    ensures forall k | 0 <= k < i :: RemoveAt(s, i)[k] == s[k]
    ensures forall k | i <= k < |s| - 1 :: RemoveAt(s, i)[k] == s[k + 1]
  {
  }

  /** Inserting at the position one past the last element is appending. */
  lemma InsertAtEndIsAppend<T>(s: seq<T>, x: T)
    ensures InsertAt(s, |s|, x) == s + [x]
  {
  }

  /** Removing what was just inserted at the same index gives back the original sequence. */
  lemma RemoveAfterInsert<T>(s: seq<T>, i: nat, x: T)
    requires i <= |s|
    ensures RemoveAt(InsertAt(s, i, x), i) == s
  {
  }

  /** Re-inserting a removed element at its old index gives back the original sequence. */
  lemma InsertAfterRemove<T>(s: seq<T>, i: nat)
    requires i < |s|
    ensures InsertAt(RemoveAt(s, i), i, s[i]) == s
  {
  }
}
