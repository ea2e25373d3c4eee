/** The growth policy of the growable sequence: when a full vector must take one more
    element it allocates double its size, or 1 when it is empty. */
module GrowthPolicy {

  /** Capacity of the block allocated when a full vector of `size` elements grows. */
  function GrowthCapacity(size: nat): (c: nat)
    ensures size < c
  {
    if size == 0 then 1 else 2 * size
  }

  /** Capacity after appending one element to a vector of `size` elements and
      capacity `cap`: unchanged while there is room, grown when it is full. */
  function NextCapacity(size: nat, cap: nat): (c: nat)
    requires size <= cap
    ensures size < c && cap <= c
  {
    if size == cap then GrowthCapacity(size) else cap
  }

  /** Elements relocated by appending one element to a vector of `size` elements and
      capacity `cap`: all of them when it is full, none otherwise. */
  function RelocationsOnAppend(size: nat, cap: nat): (r: nat)
    requires size <= cap
    ensures r == if NextCapacity(size, cap) == cap then 0 else size
  {
    if size == cap then size else 0
  }

  /** Capacity of a default-constructed vector after `n` appends. */
  function CapacityAfterAppends(n: nat): (c: nat)
    ensures n <= c
    ensures 0 < n ==> c < 2 * n
  {
    if n == 0 then 0 else NextCapacity(n - 1, CapacityAfterAppends(n - 1))
  }

  /** Total elements relocated by `n` appends to a default-constructed vector. */
  function RelocationsAfterAppends(n: nat): (r: nat)
    ensures 0 < n ==> r < CapacityAfterAppends(n)
  {
    if n == 0 then 0
    else RelocationsAfterAppends(n - 1) + RelocationsOnAppend(n - 1, CapacityAfterAppends(n - 1))
  }

  /** Appending is amortised constant time: after `n` appends the elements relocated by
      every reallocation together number exactly one less than the capacity, hence
      fewer than 2n. */
  lemma {:induction false} AppendsAreAmortisedConstant(n: nat)
    requires 0 < n
    ensures RelocationsAfterAppends(n) == CapacityAfterAppends(n) - 1
    ensures RelocationsAfterAppends(n) < 2 * n
  {
    if n > 1 {
      AppendsAreAmortisedConstant(n - 1);
    }
  }
}
