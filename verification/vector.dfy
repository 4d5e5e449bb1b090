/**
  The growable contiguous array. A vector owns one raw block and counts the
  live elements at its front: slots `[0, size)` hold live objects and slots
  `[size, capacity)` are uninitialised. The vector is a value here: every
  operation that mutates the container in place returns its new state.
 */
module Vectors {
  import opened Raw
  import opened Algorithms
  import opened Growth

  datatype Vector<T> = Vector(data: RawMemory<T>, size: nat)

  /** `Capacity()`: the slot count of the owned block, which a valid vector
      never exceeds with its size. */
  function Capacity<T>(v: Vector<T>): (c: nat)
    ensures c == |v.data.slots|
    ensures Valid(v) ==> v.size <= c
  {
    v.data.Capacity()
  }

  /** The class invariant: `size <= capacity`, the first `size` slots are
      live and the rest of the block is uninitialised. */
  predicate Valid<T>(v: Vector<T>) {
    && v.size <= |v.data.slots|
    && AllLive(v.data.slots, 0, v.size)
    && AllUninit(v.data.slots, v.size, |v.data.slots|)
  }

  /** The element sequence a valid vector stands for. */
  function Elements<T>(v: Vector<T>): (e: seq<T>)
    requires Valid(v)
    ensures |e| == v.size
    ensures forall i | 0 <= i < v.size :: v.data.slots[i] == Live(e[i])
  {
    seq(v.size, i requires 0 <= i < v.size => v.data.slots[i].value)
  }

  /** A valid vector is determined by its elements and its capacity: the
      slots past the live prefix are all uninitialised. */
  lemma ViewDeterminesVector<T>(a: Vector<T>, b: Vector<T>)
    requires Valid(a) && Valid(b)
    requires Elements(a) == Elements(b) && Capacity(a) == Capacity(b)
    ensures a == b
  {
    assert a.size == |Elements(a)| == b.size;
    forall i | 0 <= i < Capacity(a)
      ensures a.data.slots[i] == b.data.slots[i]
    {
      if i < a.size {
        assert a.data.slots[i] == Live(Elements(a)[i]);
        assert b.data.slots[i] == Live(Elements(b)[i]);
      }
    }
    assert a.data.slots == b.data.slots;
  }

  /** The default constructor: no block and no elements. */
  function Empty<T>(): (v: Vector<T>)
    ensures Valid(v)
    ensures Elements(v) == [] && Capacity(v) == 0
  {
    Vector(Allocate(0), 0)
  }

  /** `Vector(n)`: a block of exactly `n` slots, all of them value-initialised
      (`zero` stands for the value-initialised `T`). */
  method WithSize<T>(n: nat, zero: T) returns (v: Vector<T>)
    ensures Valid(v)
    ensures v.size == n && Capacity(v) == n
    ensures forall i | 0 <= i < n :: Elements(v)[i] == zero
  {
    var block := Allocate<T>(n);
    var s := Fill(block.slots, 0, n, Live(zero));
    v := Vector(RawMemory(s), n);
  }

  /** The copy constructor: a block of exactly `other.size` slots holding
      copies of `other`'s elements. */
  method CopyOf<T>(other: Vector<T>) returns (v: Vector<T>)
    requires Valid(other)
    ensures Valid(v)
    ensures Elements(v) == Elements(other)
    ensures Capacity(v) == other.size
  {
    var block := Allocate<T>(other.size);
    var s := Transfer(other.data.slots, 0, other.size, block.slots, 0);
    v := Vector(RawMemory(s), other.size);
  }

  /** The move constructor: the new vector takes the block and the size; the
      source is left with no block and no elements. */
  function MoveFrom<T>(other: Vector<T>): (r: (Vector<T>, Vector<T>))
    ensures r.0 == other
    ensures r.1.size == 0 && Capacity(r.1) == 0
    ensures Valid(r.1)
  {
    var (block, drained) := Raw.MoveOut(other.data);
    (Vector(block, other.size), Vector(drained, 0))
  }

  /** `Swap`: exchanges blocks and sizes, touching no element. */
  function Swap<T>(a: Vector<T>, b: Vector<T>): (r: (Vector<T>, Vector<T>))
    ensures Valid(a) && Valid(b) ==> Valid(r.0) && Valid(r.1)
    ensures Valid(a) && Valid(b) ==> Elements(r.0) == Elements(b) && Elements(r.1) == Elements(a)
    ensures Capacity(r.0) == Capacity(b) && Capacity(r.1) == Capacity(a)
  {
    var (da, db) := Raw.Swap(a.data, b.data);
    (Vector(da, b.size), Vector(db, a.size))
  }

  /** Move assignment swaps the two vectors: the source ends up holding what
      the target held. */
  function MoveAssign<T>(target: Vector<T>, source: Vector<T>): (r: (Vector<T>, Vector<T>))
    ensures r.0 == source && r.1 == target
  {
    Swap(target, source)
  }

  /** `Reserve(k)`: does nothing when `k` slots already fit; otherwise
      relocates the elements into a fresh block of exactly `k` slots. */
  method Reserve<T>(v: Vector<T>, k: nat) returns (r: Vector<T>)
    requires Valid(v)
    ensures Valid(r)
    ensures Elements(r) == Elements(v)
    ensures k <= Capacity(v) ==> r == v
    ensures k > Capacity(v) ==> Capacity(r) == k
  {
    if k <= Capacity(v) {
      return v;
    }
    var block := Allocate<T>(k);
    var s := Transfer(v.data.slots, 0, v.size, block.slots, 0);
    r := Vector(RawMemory(s), v.size);
    assert Elements(r) == Elements(v) by {
      forall i | 0 <= i < v.size
        ensures Elements(r)[i] == Elements(v)[i]
      {
        assert s[i] == v.data.slots[i];
      }
    }
  }

  /** `Resize(n)`: shrinking destroys the trailing elements and keeps the
      block; growing reserves room for `n` and value-initialises the new
      trailing elements. */
  method Resize<T>(v: Vector<T>, n: nat, zero: T) returns (r: Vector<T>)
    requires Valid(v)
    ensures Valid(r)
    ensures r.size == n
    ensures n <= v.size ==> Elements(r) == Elements(v)[..n]
    ensures n >= v.size ==> Elements(r)[..v.size] == Elements(v)
    ensures forall i | v.size <= i < n :: Elements(r)[i] == zero
    ensures n < v.size ==> Capacity(r) == Capacity(v)
    ensures Capacity(r) == if n <= Capacity(v) then Capacity(v) else n
  {
    if n < v.size {
      var s := Fill(v.data.slots, n, v.size - n, Uninit);
      r := Vector(RawMemory(s), n);
      assert Elements(r) == Elements(v)[..n] by {
        forall i | 0 <= i < n
          ensures Elements(r)[i] == Elements(v)[i]
        {
          assert s[i] == v.data.slots[i];
        }
      }
    } else {
      var g := Reserve(v, n);
      var s := Fill(g.data.slots, g.size, n - g.size, Live(zero));
      r := Vector(RawMemory(s), n);
      assert Elements(r)[..v.size] == Elements(v) by {
        forall i | 0 <= i < v.size
          ensures Elements(r)[i] == Elements(g)[i]
        {
          assert s[i] == g.data.slots[i];
        }
      }
    }
  }

  /** `PopBack`: destroys the last element; the block stays. */
  function PopBack<T>(v: Vector<T>): (r: Vector<T>)
    requires Valid(v) && v.size > 0
    ensures Valid(r)
    ensures Elements(r) == Elements(v)[..v.size - 1]
    ensures Capacity(r) == Capacity(v)
  {
    var r := Vector(RawMemory(v.data.slots[v.size - 1 := Uninit]), v.size - 1);
    assert Elements(r) == Elements(v)[..v.size - 1] by {
      forall i | 0 <= i < v.size - 1
        ensures Elements(r)[i] == Elements(v)[i]
      {
        assert r.data.slots[i] == v.data.slots[i];
      }
    }
    r
  }

  /** `EmplaceBack(x)`: appends `x` and returns the element now at the back.
      A full vector first moves to a block of `GrowthCapacity(size)` slots,
      with `x` constructed in its final slot before the old elements are
      relocated around it. */
  method EmplaceBack<T>(v: Vector<T>, x: T) returns (r: Vector<T>, last: T)
    requires Valid(v)
    ensures Valid(r)
    ensures Elements(r) == Elements(v) + [x]
    ensures last == x
    ensures Capacity(r) == if Capacity(v) <= v.size then GrowthCapacity(v.size) else Capacity(v)
  {
    var s;
    if Capacity(v) <= v.size {
      var block := Allocate<T>(GrowthCapacity(v.size));
      s := block.slots[v.size := Live(x)];
      s := Transfer(v.data.slots, 0, v.size, s, 0);
    } else {
      s := v.data.slots[v.size := Live(x)];
    }
    r := Vector(RawMemory(s), v.size + 1);
    assert Elements(r) == Elements(v) + [x] by {
      forall i | 0 <= i < v.size
        ensures Elements(r)[i] == Elements(v)[i]
      {
        assert s[i] == v.data.slots[i];
      }
      assert s[v.size] == Live(x);
    }
    last := Raw.At(r.data, v.size).value;
  }

  /** `PushBack(x)`: the same append as `EmplaceBack`, without the returned
      reference. */
  method PushBack<T>(v: Vector<T>, x: T) returns (r: Vector<T>)
    requires Valid(v)
    ensures Valid(r)
    ensures Elements(r) == Elements(v) + [x]
    ensures Capacity(r) == if Capacity(v) <= v.size then GrowthCapacity(v.size) else Capacity(v)
  {
    var last;
    r, last := EmplaceBack(v, x);
  }

  /** `s` is the block `before` (with `size` live slots) after `x` has been
      put at `p` and the slots `[p, size)` have moved one place right. */
  ghost predicate InsertedSlots<T>(before: seq<Slot<T>>, size: nat, p: nat, x: T, s: seq<Slot<T>>)
    requires p <= size <= |before|
  {
    && size < |s|
    && (forall i | 0 <= i < p :: s[i] == before[i])
    && s[p] == Live(x)
    && (forall i | p < i <= size :: s[i] == before[i - 1])
    && AllUninit(s, size + 1, |s|)
  }

  /** Slot-level facts that fix a vector's validity and elements. */
  lemma SlotsDescribe<T>(s: seq<Slot<T>>, n: nat, e: seq<T>)
    requires |e| == n <= |s|
    requires forall i | 0 <= i < n :: s[i] == Live(e[i])
    requires AllUninit(s, n, |s|)
    ensures Valid(Vector(RawMemory(s), n))
    ensures Elements(Vector(RawMemory(s), n)) == e
  {
  }

  /** Inserting at the slot level inserts into the element sequence. */
  lemma InsertedElements<T>(v: Vector<T>, p: nat, x: T, s: seq<Slot<T>>)
    requires Valid(v) && p <= v.size
    requires InsertedSlots(v.data.slots, v.size, p, x, s)
    ensures Valid(Vector(RawMemory(s), v.size + 1))
    ensures Elements(Vector(RawMemory(s), v.size + 1)) == Elements(v)[..p] + [x] + Elements(v)[p..]
  {
    var e := Elements(v)[..p] + [x] + Elements(v)[p..];
    forall i | 0 <= i < v.size + 1
      ensures s[i] == Live(e[i])
    {
      if i < p {
        assert s[i] == v.data.slots[i];
      } else if i > p {
        assert s[i] == v.data.slots[i - 1];
      }
    }
    SlotsDescribe(s, v.size + 1, e);
  }

  /** The growth path of `Emplace`: a fresh block of `GrowthCapacity(size)`
      slots, `x` constructed at `p`, then the prefix `[0, p)` and the suffix
      `[p, size)` relocated around it. */
  method GrowAndInsert<T>(v: Vector<T>, p: nat, x: T) returns (s: seq<Slot<T>>)
    requires Valid(v) && p <= v.size
    ensures |s| == GrowthCapacity(v.size)
    ensures InsertedSlots(v.data.slots, v.size, p, x, s)
  {
    var block := Allocate<T>(GrowthCapacity(v.size));
    s := block.slots[p := Live(x)];
    s := Transfer(v.data.slots, 0, p, s, 0);
    s := Transfer(v.data.slots, p, v.size - p, s, p + 1);
  }

  /** The in-place path of `Emplace` for `p` before the end: the last element
      moves into the first free slot, `[p, size - 1)` moves one place right
      (backwards) and `x` is assigned at `p`. */
  method ShiftAndInsert<T>(v: Vector<T>, p: nat, x: T) returns (s: seq<Slot<T>>)
    requires Valid(v) && p < v.size < Capacity(v)
    ensures |s| == Capacity(v)
    ensures InsertedSlots(v.data.slots, v.size, p, x, s)
  {
    s := v.data.slots[v.size := Raw.At(v.data, v.size - 1)];
    s := ShiftRight(s, p, v.size - 1);
    s := s[p := Live(x)];
  }

  /** `Emplace(p, x)` (and `Insert`): inserts `x` before position `p` and
      returns `p`. A full vector takes the growth path; otherwise, unless `p`
      is the end, the in-place shift; at the end, `x` is constructed in the
      first free slot. */
  method Emplace<T>(v: Vector<T>, p: nat, x: T) returns (r: Vector<T>, pos: nat)
    requires Valid(v) && p <= v.size
    ensures Valid(r)
    ensures Elements(r) == Elements(v)[..p] + [x] + Elements(v)[p..]
    ensures pos == p
    ensures Capacity(r) == if Capacity(v) <= v.size then GrowthCapacity(v.size) else Capacity(v)
  {
    var s;
    if Capacity(v) <= v.size {
      s := GrowAndInsert(v, p, x);
    } else if p != v.size {
      s := ShiftAndInsert(v, p, x);
    } else {
      s := v.data.slots[v.size := Live(x)];
    }
    InsertedElements(v, p, x, s);
    r := Vector(RawMemory(s), v.size + 1);
    pos := p;
  }

  /** `Erase(p)`: removes the element at position `p` by shifting the
      elements after it one place left and destroying the vacated last
      slot; returns `p`, now the position of the element that followed. */
  method Erase<T>(v: Vector<T>, p: nat) returns (r: Vector<T>, pos: nat)
    requires Valid(v) && p < v.size
    ensures Valid(r)
    ensures Elements(r) == Elements(v)[..p] + Elements(v)[p + 1..]
    ensures pos == p
    ensures Capacity(r) == Capacity(v)
  {
    var before := v.data.slots;
    var s := ShiftLeft(before, p, v.size);
    s := s[v.size - 1 := Uninit];
    r := Vector(RawMemory(s), v.size - 1);
    var e := Elements(v)[..p] + Elements(v)[p + 1..];
    assert Elements(r) == e by {
      forall i | 0 <= i < v.size - 1
        ensures Elements(r)[i] == e[i]
      {
        if i < p {
          assert s[i] == before[i];
        } else {
          assert s[i] == before[i + 1];
        }
      }
    }
    pos := p;
  }

  /** Indexed read; the index must name a live element. */
  function At<T>(v: Vector<T>, index: nat): (x: T)
    requires Valid(v) && index < v.size
    ensures x == Elements(v)[index]
  {
    Raw.At(v.data, index).value
  }

  /** Assignment through the reference that indexed access returns. */
  function SetAt<T>(v: Vector<T>, index: nat, x: T): (r: Vector<T>)
    requires Valid(v) && index < v.size
    ensures Valid(r)
    ensures Elements(r) == Elements(v)[index := x]
    ensures Capacity(r) == Capacity(v)
  {
    var r := Vector(RawMemory(v.data.slots[index := Live(x)]), v.size);
    assert Elements(r) == Elements(v)[index := x] by {
      forall i | 0 <= i < v.size
        ensures Elements(r)[i] == Elements(v)[index := x][i]
      {
        if i != index {
          assert r.data.slots[i] == v.data.slots[i];
        }
      }
    }
    r
  }

  /** Copy assignment. When `rhs` does not fit, the target becomes a fresh
      copy of `rhs` (copy and swap, so the block is exactly `rhs.size`).
      Otherwise the block is reused: the overlapping prefix is assigned,
      then the rest of `rhs` is copied into raw slots or the target's
      surplus elements are destroyed. */
  method CopyAssign<T>(target: Vector<T>, rhs: Vector<T>) returns (r: Vector<T>)
    requires Valid(target) && Valid(rhs)
    ensures Valid(r)
    ensures Elements(r) == Elements(rhs)
    ensures Capacity(r) == if rhs.size > Capacity(target) then rhs.size else Capacity(target)
  {
    if rhs.size > Capacity(target) {
      r := CopyOf(rhs);
      return;
    }
    var s;
    if target.size <= rhs.size {
      s := Transfer(rhs.data.slots, 0, target.size, target.data.slots, 0);
      s := Transfer(rhs.data.slots, target.size, rhs.size - target.size, s, target.size);
    } else {
      s := Transfer(rhs.data.slots, 0, rhs.size, target.data.slots, 0);
      s := Fill(s, rhs.size, target.size - rhs.size, Uninit);
    }
    forall i | 0 <= i < rhs.size
      ensures s[i] == Live(Elements(rhs)[i])
    {
      assert s[i] == rhs.data.slots[i];
    }
    SlotsDescribe(s, rhs.size, Elements(rhs));
    r := Vector(RawMemory(s), rhs.size);
  }
}
