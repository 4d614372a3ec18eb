/**
 * The two PHP array primitives moveToPosition relies on: `array_splice`, with
 * its normalisation of the offset, and `array_search`.
 */
module Splice {
  /**
   * array_splice's offset: a negative offset counts from the end, and the
   * result is clamped to 0..n.
   */
  function SpliceOffset(n: nat, offset: int): (r: nat)
    ensures r <= n
    ensures 0 <= offset <= n ==> r == offset
    ensures offset > n ==> r == n
    ensures offset < 0 && n + offset >= 0 ==> r == n + offset
    ensures n + offset < 0 ==> r == 0
  {
    if offset < 0 then (if n + offset < 0 then 0 else n + offset)
    else if offset > n then n
    else offset
  }

  /** For a 1-based position of at least 1, the offset `position - 1` lands on min(position, n + 1) - 1. */
  lemma PositionOffset(n: nat, position: int)
    requires position >= 1
    ensures SpliceOffset(n, position - 1) + 1 == if position <= n then position else n + 1
  {
  }

  /** `s` without its element at index `i`. */
  function RemoveAt<T>(s: seq<T>, i: nat): (r: seq<T>)
    requires i < |s|
    ensures |r| == |s| - 1
    ensures forall j :: 0 <= j < i ==> r[j] == s[j]
    ensures forall j :: i <= j < |r| ==> r[j] == s[j + 1]
  {
    s[..i] + s[i + 1..]
  }

  /** array_splice($s, $offset, 1): drops the element at the normalised offset, if any. */
  function SpliceOut<T>(s: seq<T>, offset: int): (r: seq<T>)
    ensures var o := SpliceOffset(|s|, offset);
            && |r| == (if o < |s| then |s| - 1 else |s|)
            && (forall j :: 0 <= j < |r| && j < o ==> r[j] == s[j])
            && (forall j :: o <= j < |r| ==> r[j] == s[j + 1])
  {
    var o := SpliceOffset(|s|, offset);
    if o < |s| then RemoveAt(s, o) else s
  }

  /** array_splice($s, $offset, 0, $x): puts `x` at the normalised offset. */
  function SpliceIn<T>(s: seq<T>, offset: int, x: T): (r: seq<T>)
    ensures x in r
    ensures |r| == |s| + 1
    ensures var o := SpliceOffset(|s|, offset);
            && r[o] == x
            && (forall j :: 0 <= j < o ==> r[j] == s[j])
            && (forall j :: o < j < |r| ==> r[j] == s[j - 1])
  {
    var o := SpliceOffset(|s|, offset);
    s[..o] + [x] + s[o..]
  }

  /** The elements after splicing in `x` are those of `s` and `x`. */
  lemma SpliceInMembers<T>(s: seq<T>, offset: int, x: T)
    ensures forall y :: y in SpliceIn(s, offset, x) <==> y in s || y == x
  {
    var o := SpliceOffset(|s|, offset);
    assert s == s[..o] + s[o..];
  }

  /** Splicing in and then removing at the same place gives the list back. */
  lemma SpliceInThenRemove<T>(s: seq<T>, offset: int, x: T)
    ensures var o := SpliceOffset(|s|, offset);
            var r := SpliceIn(s, offset, x);
            |r| == |s| + 1 && r[o] == x && RemoveAt(r, o) == s
  {
    var o := SpliceOffset(|s|, offset);
    var r := SpliceIn(s, offset, x);
    assert r[..o] == s[..o];
    assert r[o + 1..] == s[o..];
  }

  /** array_search: the first index holding `x`. */
  function FirstIndex<T(==)>(s: seq<T>, x: T): (i: nat)
    requires x in s
    ensures i < |s| && s[i] == x
    ensures forall j :: 0 <= j < i ==> s[j] != x
  {
    if s[0] == x then 0 else 1 + FirstIndex(s[1..], x)
  }
}
