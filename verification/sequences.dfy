/** Positional list operations: Python's `list.pop(i)`, `list[i] = x` and
    `list.append(x)`, with the errors Python raises for a bad index. */
module Sequences {
  import opened Wrappers

  /** `list.pop(i)` for an index inside the list. */
  function RemoveAt<T>(s: seq<T>, i: nat): (r: seq<T>)
    requires i < |s|
    ensures |r| == |s| - 1
    ensures forall j :: 0 <= j < i ==> r[j] == s[j]
    ensures forall j :: i <= j < |r| ==> r[j] == s[j + 1]
    ensures multiset(r) + multiset{s[i]} == multiset(s)
  {
    assert s == s[..i] + [s[i]] + s[i + 1..];
    s[..i] + s[i + 1..]
  }

  /** The write at the end of the editor's save: `list[i] = x` when an index is
      given (None when Python would raise IndexError), `list.append(x)` otherwise. */
  function Upsert<T>(s: seq<T>, index: Option<nat>, x: T): (r: Option<seq<T>>)
    ensures index.None? ==> r.Some? && |r.value| == |s| + 1 && r.value[..|s|] == s && r.value[|s|] == x
    ensures index.Some? && index.value >= |s| ==> r.None?
    ensures index.Some? && index.value < |s| ==>
              && r.Some? && |r.value| == |s| && r.value[index.value] == x
              && forall j :: 0 <= j < |s| && j != index.value ==> r.value[j] == s[j]
  {
    match index
    case None => Some(s + [x])
    case Some(i) => if i < |s| then Some(s[i := x]) else None
  }

  /** Applies `f` to every element, keeping the order. */
  function MapSeq<A, B>(f: A -> B, s: seq<A>): (r: seq<B>)
    ensures |r| == |s|
    ensures forall j :: 0 <= j < |s| ==> r[j] == f(s[j])
  {
    seq(|s|, j requires 0 <= j < |s| => f(s[j]))
  }

  lemma MapUpdate<A, B>(f: A -> B, s: seq<A>, i: nat, x: A)
    requires i < |s|
    ensures MapSeq(f, s[i := x]) == MapSeq(f, s)[i := f(x)]
  {
  }

  lemma MapAppend<A, B>(f: A -> B, s: seq<A>, x: A)
    ensures MapSeq(f, s + [x]) == MapSeq(f, s) + [f(x)]
  {
  }
}
