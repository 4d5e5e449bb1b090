/**
  Properties that relate several vector operations: erase undoes emplace,
  pop undoes push, copy assignment from itself changes nothing, a run of
  appends grows the block along the doubling schedule, and the iterator
  offset narrowing found in `Erase` and `Emplace`.
 */
module VectorProperties {
  import opened Raw
  import opened Growth
  import opened Vectors

  /** `Erase(p)` right after `Emplace(p, x)` restores the original elements;
      only the capacity may have grown. */
  method EmplaceThenErase<T>(v: Vector<T>, p: nat, x: T) returns (r: Vector<T>)
    requires Valid(v) && p <= v.size
    ensures Valid(r)
    ensures Elements(r) == Elements(v)
    ensures Capacity(r) == if Capacity(v) <= v.size then GrowthCapacity(v.size) else Capacity(v)
  {
    var w, q := Emplace(v, p, x);
    r, q := Erase(w, q);
    var e := Elements(v);
    assert (e[..p] + [x] + e[p..])[..p] == e[..p];
    assert (e[..p] + [x] + e[p..])[p + 1..] == e[p..];
    assert e[..p] + e[p..] == e;
  }

  /** `PopBack` right after `PushBack(x)` restores the original elements. */
  method PushThenPop<T>(v: Vector<T>, x: T) returns (r: Vector<T>)
    requires Valid(v)
    ensures Valid(r)
    ensures Elements(r) == Elements(v)
    ensures Capacity(r) == if Capacity(v) <= v.size then GrowthCapacity(v.size) else Capacity(v)
  {
    var w := PushBack(v, x);
    r := PopBack(w);
    assert (Elements(v) + [x])[..v.size] == Elements(v);
  }

  /** Copy-assigning a vector from (a value equal to) itself leaves it
      exactly as it was: same elements, same block. */
  method SelfCopyAssign<T>(v: Vector<T>) returns (r: Vector<T>)
    requires Valid(v)
    ensures r == v
  {
    r := CopyAssign(v, v);
    ViewDeterminesVector(r, v);
  }

  /** Appending `xs` one by one to an empty vector yields exactly `xs`, in a
      block whose capacity follows the doubling schedule of `AppendCapacity`.
      The appends that found the vector full are counted as they happen,
      together with the elements each of them relocated. */
  method AppendAll<T>(xs: seq<T>) returns (v: Vector<T>, reallocations: nat, relocated: nat)
    ensures Valid(v)
    ensures Elements(v) == xs
    ensures Capacity(v) == AppendCapacity(|xs|)
    ensures reallocations == Reallocations(|xs|)
    ensures relocated == Relocated(|xs|)
  {
    v := Empty();
    reallocations, relocated := 0, 0;
    var k := 0;
    while k < |xs|
      invariant 0 <= k <= |xs|
      invariant Valid(v)
      invariant Elements(v) == xs[..k]
      invariant Capacity(v) == AppendCapacity(k)
      invariant reallocations == Reallocations(k)
      invariant relocated == Relocated(k)
    {
      if Capacity(v) <= v.size {
        reallocations := reallocations + 1;
        relocated := relocated + v.size;
      }
      v := PushBack(v, xs[k]);
      assert xs[..k] + [xs[k]] == xs[..k + 1];
      k := k + 1;
    }
    assert xs[..k] == xs;
  }

  /** A run of `m >= 1` appends from empty reallocates `R` times, with
      `2^(R - 1)` the final capacity, which lies in `[m, 2m)`; fewer than `2m`
      elements are relocated in all. */
  method AppendReallocations<T>(xs: seq<T>) returns (v: Vector<T>, reallocations: nat, relocated: nat)
    requires |xs| >= 1
    ensures Valid(v) && Elements(v) == xs
    ensures reallocations >= 1
    ensures Capacity(v) == Pow2(reallocations - 1)
    ensures |xs| <= Capacity(v) < 2 * |xs|
    ensures relocated == Capacity(v) - 1 < 2 * |xs|
  {
    v, reallocations, relocated := AppendAll(xs);
    AppendGrowth(|xs|);
    AppendRelocations(|xs|);
  }

  /** Three appends, an insertion and an erasure at position 1, then a
      shrink to one element. */
  method DoublingScenario() returns (caps: seq<nat>, v: Vector<int>)
    ensures caps == [1, 2, 4]
    ensures Valid(v)
    ensures Elements(v) == [1] && Capacity(v) == 4
  {
    v := Empty();
    v := PushBack(v, 1);
    caps := [Capacity(v)];
    v := PushBack(v, 2);
    caps := caps + [Capacity(v)];
    v := PushBack(v, 3);
    caps := caps + [Capacity(v)];
    assert Elements(v) == [1, 2, 3];
    var p;
    v, p := Emplace(v, 1, 99);
    assert Elements(v) == [1, 99, 2, 3];
    v, p := Erase(v, p);
    assert Elements(v) == [1, 2, 3];
    v := Resize(v, 1, 0);
  }

  /** The iterator offset as `Erase` and `Emplace` compute it: the pointer
      difference stored in a 32-bit `int`, which keeps it modulo 2^32. */
  function PositionAsWritten(offset: nat): (position: int)
    ensures -0x8000_0000 <= position < 0x8000_0000
    ensures offset < 0x8000_0000 ==> position == offset
    ensures (position - offset) % 0x1_0000_0000 == 0
  {
    var w := offset % 0x1_0000_0000;
    if w < 0x8000_0000 then w else w - 0x1_0000_0000
  }

  /** Erasing or emplacing at offset 2^31 of a vector with more elements
      than that: the stored position is negative, so `begin() + position`
      points before the block instead of at the intended element. */
  lemma PositionAsWrittenWraps()
    ensures PositionAsWritten(0x8000_0000) == -0x8000_0000
    ensures PositionAsWritten(0x8000_0000) != 0x8000_0000
  {
  }
}
