/**
 * The array surgery the drop handler performs: JavaScript's in-place
 * `splice`, as the contents it leaves behind, and the "move" built from
 * two of them.
 */
module Splices {

  function Min(a: nat, b: nat): (m: nat)
  {
    if a <= b then a else b
  }

  /**
   * The contents of `s` after `s.splice(start, deleteCount, ...items)` for a
   * `start` inside the array: the first `start` elements stay, `items` follow,
   * and the tail resumes after the (at most `deleteCount`) removed elements.
   */
  function Splice<T>(s: seq<T>, start: nat, deleteCount: nat, items: seq<T>): (r: seq<T>)
    requires start <= |s|
    ensures |r| == |s| - Min(deleteCount, |s| - start) + |items|
    ensures forall k :: 0 <= k < |r| ==>
      r[k] == if k < start then s[k]
              else if k < start + |items| then items[k - start]
              else s[k - |items| + Min(deleteCount, |s| - start)]
  {
    s[..start] + items + s[start + Min(deleteCount, |s| - start)..]
  }

  /**
   * The drop: take out the element at `from`, then insert it at `to`, where
   * `to` indexes the array as it is after the removal.
   */
  function Move<T>(s: seq<T>, from: nat, to: nat): (r: seq<T>)
    requires from < |s| && to < |s|
  {
    Splice(Splice(s, from, 1, []), to, 0, [s[from]])
  }

  /** A move keeps the length and the elements: it never loses or duplicates one. */
  lemma MovePermutes<T>(s: seq<T>, from: nat, to: nat)
    requires from < |s| && to < |s|
    ensures |Move(s, from, to)| == |s|
    ensures multiset(Move(s, from, to)) == multiset(s)
  {
    var rest := Splice(s, from, 1, []);
    assert s == s[..from] + [s[from]] + s[from + 1..];
    assert rest == s[..from] + s[from + 1..];
    assert multiset(s) == multiset(rest) + multiset{s[from]};
    assert rest == rest[..to] + rest[to..];
    assert Move(s, from, to) == rest[..to] + [s[from]] + rest[to..];
  }

  /** The moved element lands at the target index. */
  lemma MovePlaces<T>(s: seq<T>, from: nat, to: nat)
    requires from < |s| && to < |s|
    ensures Move(s, from, to)[to] == s[from]
  {
  }

  /** Taking the moved element out again leaves the others as the source removal did: their order is kept. */
  lemma MoveKeepsOthers<T>(s: seq<T>, from: nat, to: nat)
    requires from < |s| && to < |s|
    ensures Splice(Move(s, from, to), to, 1, []) == Splice(s, from, 1, [])
  {
    var rest := Splice(s, from, 1, []);
    var moved := Move(s, from, to);
    assert moved == rest[..to] + [s[from]] + rest[to..];
    assert moved[..to] == rest[..to];
    assert moved[to + 1..] == rest[to..];
    assert Splice(moved, to, 1, []) == moved[..to] + moved[to + 1..];
    assert rest[..to] + rest[to..] == rest;
  }

  /**
   * Where every element of a move comes from: outside the span between the
   * two indices nothing moves, and inside it the others shift by one towards
   * the place the moved element left.
   */
  lemma MoveAt<T>(s: seq<T>, from: nat, to: nat, k: nat)
    requires from < |s| && to < |s| && k < |s|
    ensures Move(s, from, to)[k] ==
      if k == to then s[from]
      else if k < from && k < to then s[k]
      else if k > from && k > to then s[k]
      else if from < to then s[k + 1]
      else s[k - 1]
  {
    var rest := Splice(s, from, 1, []);
    assert |rest| == |s| - 1;
    assert forall j :: 0 <= j < |rest| ==> rest[j] == if j < from then s[j] else s[j + 1];
  }

  /** Dropping an element onto its own place changes nothing. */
  lemma MoveSameIndex<T>(s: seq<T>, i: nat)
    requires i < |s|
    ensures Move(s, i, i) == s
  {
    forall k | 0 <= k < |s| ensures Move(s, i, i)[k] == s[k] {
      MoveAt(s, i, i, k);
    }
  }

  /** Dragging the first of four onto the third is a move, not a swap: `[a, b, c, d]` becomes `[b, c, a, d]`. */
  lemma MoveFirstToThird<T>(a: T, b: T, c: T, d: T)
    ensures Move([a, b, c, d], 0, 2) == [b, c, a, d]
  {
    assert Splice([a, b, c, d], 0, 1, []) == [b, c, d];
  }
}
