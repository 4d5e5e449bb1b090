/**
  The raw storage layer of the vector: a block of `capacity` element slots
  that is owned by exactly one holder. The block itself never constructs or
  destroys elements; a slot is either uninitialised memory or holds a live
  object put there by the owner of the block.
 */
module Raw {

  /** One element slot of a raw block. */
  datatype Slot<T> = Uninit | Live(value: T)

  /** A block of raw slots; its capacity is the number of slots. */
  datatype RawMemory<T> = RawMemory(slots: seq<Slot<T>>) {

    /** `Capacity()`: the number of slots in the block. */
    function Capacity(): (c: nat)
      ensures c == |slots|
    {
      |slots|
    }
  }

  /** Every slot of `s` in `[lo, hi)` holds a live object. */
  predicate AllLive<T>(s: seq<Slot<T>>, lo: nat, hi: nat)
    requires lo <= hi <= |s|
  {
    forall i | lo <= i < hi :: s[i].Live?
  }

  /** Every slot of `s` in `[lo, hi)` is uninitialised memory. */
  predicate AllUninit<T>(s: seq<Slot<T>>, lo: nat, hi: nat)
    requires lo <= hi <= |s|
  {
    forall i | lo <= i < hi :: s[i].Uninit?
  }

  /** Slot access (`operator[]`): defined only for an index below the
      capacity. */
  function At<T>(m: RawMemory<T>, index: nat): (s: Slot<T>)
    requires index < m.Capacity()
    ensures s == m.slots[index]
  {
    m.slots[index]
  }

  /** A fresh block of `n` slots, none of which holds an object. A block of
      capacity 0 stands for the null buffer. */
  function Allocate<T>(n: nat): (m: RawMemory<T>)
    ensures m.Capacity() == n
    ensures AllUninit(m.slots, 0, n)
  {
    RawMemory(seq(n, _ => Uninit))
  }

  /** Move construction: the new holder takes the whole block and the
      source is left with no block at all. */
  function MoveOut<T>(other: RawMemory<T>): (r: (RawMemory<T>, RawMemory<T>))
    ensures r.0 == other
    ensures r.1.Capacity() == 0
  {
    (other, Allocate(0))
  }

  /** Move assignment: the target takes the source's block (its own block is
      dropped) and the source is left with no block. */
  function MoveAssign<T>(target: RawMemory<T>, source: RawMemory<T>): (r: (RawMemory<T>, RawMemory<T>))
    ensures r.0 == source
    ensures r.1.Capacity() == 0
  {
    (source, Allocate(0))
  }

  /** Exchanges the blocks (and so the capacities) of two holders. */
  function Swap<T>(a: RawMemory<T>, b: RawMemory<T>): (r: (RawMemory<T>, RawMemory<T>))
    ensures r.0.Capacity() == b.Capacity() && r.1.Capacity() == a.Capacity()
    ensures r.0 == b && r.1 == a
  {
    (b, a)
  }
}
