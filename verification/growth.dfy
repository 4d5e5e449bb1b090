/**
  The capacity growth rule of the vector and what it implies for a run of
  appends: when an append or insertion finds the vector full, the new block
  holds `2 * size` slots, or one slot when the vector is empty.
 */
module Growth {

  /** Capacity of the block allocated when a vector of `size` elements is full. */
  function GrowthCapacity(size: nat): (c: nat)
    ensures size < c
  {
    if size == 0 then 1 else 2 * size
  }

  /** Capacity after `m` appends to a vector that started empty (capacity 0),
      each append growing the block only when it is full. */
  function AppendCapacity(m: nat): nat {
    if m == 0 then 0
    else
      var c := AppendCapacity(m - 1);
      if c <= m - 1 then GrowthCapacity(m - 1) else c
  }

  /** Number of block reallocations made by those `m` appends. */
  function Reallocations(m: nat): nat {
    if m == 0 then 0
    else Reallocations(m - 1) + (if AppendCapacity(m - 1) <= m - 1 then 1 else 0)
  }

  function Pow2(k: nat): (p: nat)
    ensures p >= 1
  {
    if k == 0 then 1 else 2 * Pow2(k - 1)
  }

  /** After `m >= 1` appends from empty the capacity is the least power of two
      that holds `m` elements, and it is `2^(R - 1)` for the `R` reallocations
      made: so `R - 1` is the ceiling of log2(m). */
  lemma {:induction false} AppendGrowth(m: nat)
    requires m >= 1
    ensures Reallocations(m) >= 1
    ensures AppendCapacity(m) == Pow2(Reallocations(m) - 1)
    ensures m <= AppendCapacity(m) < 2 * m
  {
    if m > 1 {
      AppendGrowth(m - 1);
    }
  }

  /** Number of elements relocated by those `m` appends: each growth moves
      every element already held into the new block. */
  function Relocated(m: nat): nat {
    if m == 0 then 0
    else Relocated(m - 1) + (if AppendCapacity(m - 1) <= m - 1 then m - 1 else 0)
  }

  /** The `m >= 1` appends relocate `capacity - 1 < 2m` elements in all, so an
      append costs amortised constant time. */
  lemma {:induction false} AppendRelocations(m: nat)
    requires m >= 1
    ensures Relocated(m) == AppendCapacity(m) - 1
    ensures Relocated(m) < 2 * m
  {
    AppendGrowth(m);
    if m > 1 {
      AppendRelocations(m - 1);
    }
  }
}
