/**
 * The abstract effect of `insert` and `erase` on the sequence of live
 * elements: splice a value in at an index, or splice the element at an index
 * out.
 */
module Splice {

  /** The elements after inserting `v` at `index`: the elements before `index`
      keep their place, `v` takes `index`, the rest move up by one. */
  function Inserted<T>(s: seq<T>, index: nat, v: T): (r: seq<T>)
    requires index <= |s|
    ensures |r| == |s| + 1 && r[index] == v
    ensures forall j :: 0 <= j < index ==> r[j] == s[j]
    ensures forall j :: index < j < |r| ==> r[j] == s[j - 1]
  {
    s[..index] + [v] + s[index..]
  }

  /** The elements after erasing the one at `index`: the elements before
      `index` keep their place, the rest move down by one. */
  function Removed<T>(s: seq<T>, index: nat): (r: seq<T>)
    requires index < |s|
    ensures |r| == |s| - 1
    ensures forall j :: 0 <= j < index ==> r[j] == s[j]
    ensures forall j :: index <= j < |r| ==> r[j] == s[j + 1]
  {
    s[..index] + s[index + 1..]
  }

  /** Inserting adds exactly one occurrence of the value and loses nothing. */
  lemma InsertedAddsOne<T>(s: seq<T>, index: nat, v: T)
    requires index <= |s|
    ensures multiset(Inserted(s, index, v)) == multiset(s) + multiset{v}
  {
    assert s == s[..index] + s[index..];
  }

  /** Erasing takes away exactly one occurrence of the erased element. */
  lemma RemovedTakesOne<T>(s: seq<T>, index: nat)
    requires index < |s|
    ensures multiset(Removed(s, index)) + multiset{s[index]} == multiset(s)
  {
    assert s == s[..index] + [s[index]] + s[index + 1..];
  }

  /** Erasing what was just inserted gives back the original elements. */
  lemma RemovedInserted<T>(s: seq<T>, index: nat, v: T)
    requires index <= |s|
    ensures Removed(Inserted(s, index, v), index) == s
  {
    var r := Removed(Inserted(s, index, v), index);
    assert forall j :: 0 <= j < |s| ==> r[j] == s[j];
  }

  /** Re-inserting an erased element at its old index gives back the original elements. */
  lemma InsertedRemoved<T>(s: seq<T>, index: nat)
    requires index < |s|
    ensures Inserted(Removed(s, index), index, s[index]) == s
  {
    var r := Inserted(Removed(s, index), index, s[index]);
    assert forall j :: 0 <= j < |s| ==> r[j] == s[j];
  }

  /** Inserting at the end (what `push_back` does) appends. */
  lemma InsertedAtEnd<T>(s: seq<T>, v: T)
    ensures Inserted(s, |s|, v) == s + [v]
  {
  }

  /** Erasing the last element (what `pop_back` does) drops it. */
  lemma RemovedAtEnd<T>(s: seq<T>)
    requires |s| > 0
    ensures Removed(s, |s| - 1) == s[..|s| - 1]
  {
  }
}
