/** The abstract effect of the positional operations of the growable sequence, stated on
    plain sequences: what `Insert`/`Emplace`, `Erase` and `Resize` do to the live elements. */
module SeqSpec {

  /** `n` copies of `v`. */
  function Repeat<T>(v: T, n: nat): (r: seq<T>)
    ensures |r| == n
    ensures forall k :: 0 <= k < n ==> r[k] == v
  {
    seq(n, _ => v)
  }

  /** `s` with `x` placed at index `i`; the elements from `i` on move one place right. */
  function Inserted<T>(s: seq<T>, i: nat, x: T): (r: seq<T>)
    requires i <= |s|
    ensures |r| == |s| + 1 && r[i] == x
    ensures forall k :: 0 <= k < i ==> r[k] == s[k]
    ensures forall k :: i < k < |r| ==> r[k] == s[k - 1]
  {
    s[..i] + [x] + s[i..]
  }

  /** `s` without its element at index `i`; the elements after it move one place left. */
  function Removed<T>(s: seq<T>, i: nat): (r: seq<T>)
    requires i < |s|
    ensures |r| == |s| - 1
    ensures forall k :: 0 <= k < i ==> r[k] == s[k]
    ensures forall k :: i <= k < |r| ==> r[k] == s[k + 1]
  {
    s[..i] + s[i + 1..]
  }

  /** `s` cut to its first `n` elements, or padded with copies of `v` up to length `n`. */
  function Resized<T>(s: seq<T>, n: nat, v: T): (r: seq<T>)
    ensures |r| == n
    ensures forall k :: 0 <= k < n && k < |s| ==> r[k] == s[k]
    ensures forall k :: |s| <= k < n ==> r[k] == v
  {
    if n <= |s| then s[..n] else s + Repeat(v, n - |s|)
  }

  /** Erasing what was just inserted at the same index gives back the original sequence. */
  lemma RemovedInserted<T>(s: seq<T>, i: nat, x: T)
    requires i <= |s|
    ensures Removed(Inserted(s, i, x), i) == s
  {
  }

  /** Re-inserting an erased element at its old index gives back the original sequence. */
  lemma InsertedRemoved<T>(s: seq<T>, i: nat)
    requires i < |s|
    ensures Inserted(Removed(s, i), i, s[i]) == s
  {
  }

  /** Inserting at the end is appending. */
  lemma InsertedAtEnd<T>(s: seq<T>, x: T)
    ensures Inserted(s, |s|, x) == s + [x]
  {
  }

  /** Growing and then shrinking back to the old length gives back the original sequence. */
  lemma ResizedBack<T>(s: seq<T>, n: nat, v: T)
    requires |s| <= n
    ensures Resized(Resized(s, n, v), |s|, v) == s
  {
  }
}
