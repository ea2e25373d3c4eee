/** The grow-in-place branch of Vector's copy assignment as advanced-vector/vector.h
    writes it (lines 242-250): after assigning the first `size` elements of `rhs` over
    the target's own, it constructs the remaining `rhs.size - size` elements from
    `rhs` starting at index `rhs.size - size` instead of index `size`.
    Vector.CopyAssign in VectorModel takes them from index `size`. */
module CopyAssignFinding {

  datatype Option<T> = None | Some(value: T)

  /** The elements of a target of `size` elements after the branch as written, when
      `rhs` is longer and fits in the target's capacity. None when the tail read runs
      past the live elements of `rhs` (cells holding no object, or beyond its block). */
  function GrowInPlaceAsWritten<T>(size: nat, rhs: seq<T>): (r: Option<seq<T>>)
    requires size < |rhs|
    ensures r.Some? <==> |rhs| <= 2 * size
    ensures r.Some? ==> |r.value| == |rhs| && r.value[..size] == rhs[..size]
  {
    var d := |rhs| - size;
    if d + d <= |rhs| then Some(rhs[..size] + rhs[d..d + d]) else None
  }

  /** No two elements of `s` are equal. */
  ghost predicate Distinct<T>(s: seq<T>) {
    forall i, j :: 0 <= i < j < |s| ==> s[i] != s[j]
  }

  /** Assigning a longer vector to an empty one that has room for it reads only
      cells past the live elements of `rhs`. */
  lemma GrowInPlaceFromEmptyReadsPastEnd<T>(rhs: seq<T>)
    requires 0 < |rhs|
    ensures GrowInPlaceAsWritten(0, rhs) == None
  {
  }

  /** A concrete case: a target of two elements assigned [1, 2, 3] ends up [1, 2, 2]. */
  lemma GrowInPlaceCounterexample()
    ensures GrowInPlaceAsWritten(2, [1, 2, 3]) == Some([1, 2, 2])
    ensures GrowInPlaceAsWritten(2, [1, 2, 3]) != Some([1, 2, 3])
  {
    assert [1, 2, 3][..2] + [1, 2, 3][1..2] == [1, 2, 2];
  }

  /** Whatever the elements, the branch as written copies `rhs` when `rhs` has twice as
      many elements as the target: the tail offset `rhs.size - size` is then `size`. */
  lemma GrowInPlaceCorrectWhenDoubling<T>(size: nat, rhs: seq<T>)
    requires |rhs| == 2 * size && 0 < size
    ensures GrowInPlaceAsWritten(size, rhs) == Some(rhs)
  {
    assert rhs[..size] + rhs[size..size + size] == rhs;
  }

  /** For a source of distinct elements, the branch as written copies `rhs` exactly
      when `rhs` has twice as many elements as the target. */
  lemma GrowInPlaceCorrectIffDoubling<T>(size: nat, rhs: seq<T>)
    requires size < |rhs| && Distinct(rhs)
    ensures GrowInPlaceAsWritten(size, rhs) == Some(rhs) <==> |rhs| == 2 * size
  {
    var d := |rhs| - size;
    if |rhs| == 2 * size {
      assert rhs[..size] + rhs[d..d + d] == rhs;
    }
    if GrowInPlaceAsWritten(size, rhs) == Some(rhs) {
      var r := GrowInPlaceAsWritten(size, rhs).value;
      assert r == rhs[..size] + rhs[d..d + d];
      assert r[size] == rhs[d];
      assert rhs[size] == rhs[d];
    }
  }
}
