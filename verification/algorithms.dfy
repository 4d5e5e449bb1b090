/**
  The element-level algorithms the vector runs over its raw slots: relocating a
  range into another block (uninitialized_move_n / uninitialized_copy_n /
  std::copy), filling a range (value construction and destroy_n), and the two
  one-slot shifts used by insertion (std::move_backward) and erasure
  (std::move). Each works on a local array initialised from the slot
  sequence and returns the resulting slots.
 */
module Algorithms {
  import opened Raw

  /** Relocates the `n` slots of `src` starting at `first` into `dst`
      starting at `dFirst`; moving and copying give the same values. */
  method Transfer<T>(src: seq<Slot<T>>, first: nat, n: nat, dst: seq<Slot<T>>, dFirst: nat)
    returns (r: seq<Slot<T>>)
    requires first + n <= |src| && dFirst + n <= |dst|
    ensures |r| == |dst|
    ensures forall i | dFirst <= i < dFirst + n :: r[i] == src[first + (i - dFirst)]
    ensures forall i | 0 <= i < |dst| && !(dFirst <= i < dFirst + n) :: r[i] == dst[i]
  {
    var a := new Slot<T>[|dst|](i requires 0 <= i < |dst| => dst[i]);
    var k := 0;
    while k < n
      invariant 0 <= k <= n
      invariant forall i | dFirst <= i < dFirst + k :: a[i] == src[first + (i - dFirst)]
      invariant forall i | 0 <= i < |dst| && !(dFirst <= i < dFirst + k) :: a[i] == dst[i]
    {
      a[dFirst + k] := src[first + k];
      k := k + 1;
    }
    r := a[..];
  }

  /** Sets the `n` slots starting at `first` to `x`: value construction when
      `x` is live, destruction when `x` is `Uninit`. */
  method Fill<T>(s: seq<Slot<T>>, first: nat, n: nat, x: Slot<T>) returns (r: seq<Slot<T>>)
    requires first + n <= |s|
    ensures |r| == |s|
    ensures forall i | first <= i < first + n :: r[i] == x
    ensures forall i | 0 <= i < |s| && !(first <= i < first + n) :: r[i] == s[i]
  {
    var a := new Slot<T>[|s|](i requires 0 <= i < |s| => s[i]);
    var k := first;
    while k < first + n
      invariant first <= k <= first + n
      invariant forall i | first <= i < k :: a[i] == x
      invariant forall i | 0 <= i < |s| && !(first <= i < k) :: a[i] == s[i]
    {
      a[k] := x;
      k := k + 1;
    }
    r := a[..];
  }

  /** move_backward(first, last, last + 1): every slot of `[first, last)`
      moves one place right, walking from the back so that nothing is
      overwritten before it has been moved. Slot `first` keeps its
      moved-from value. */
  method ShiftRight<T>(s: seq<Slot<T>>, first: nat, last: nat) returns (r: seq<Slot<T>>)
    requires first <= last < |s|
    ensures |r| == |s|
    ensures forall i | first < i <= last :: r[i] == s[i - 1]
    ensures forall i | 0 <= i < |s| && !(first < i <= last) :: r[i] == s[i]
  {
    var a := new Slot<T>[|s|](i requires 0 <= i < |s| => s[i]);
    var k := last;
    while k > first
      invariant first <= k <= last
      invariant forall i | k < i <= last :: a[i] == s[i - 1]
      invariant forall i | 0 <= i < |s| && !(k < i <= last) :: a[i] == s[i]
    {
      a[k] := a[k - 1];
      k := k - 1;
    }
    r := a[..];
  }

  /** std::move(first + 1, last, first): every slot of `(first, last)` moves
      one place left, walking from the front. Slot `last - 1` keeps its
      moved-from value. */
  method ShiftLeft<T>(s: seq<Slot<T>>, first: nat, last: nat) returns (r: seq<Slot<T>>)
    requires first < last <= |s|
    ensures |r| == |s|
    ensures forall i | first <= i < last - 1 :: r[i] == s[i + 1]
    ensures forall i | 0 <= i < |s| && !(first <= i < last - 1) :: r[i] == s[i]
  {
    var a := new Slot<T>[|s|](i requires 0 <= i < |s| => s[i]);
    var k := first;
    while k < last - 1
      invariant first <= k <= last - 1
      invariant forall i | first <= i < k :: a[i] == s[i + 1]
      invariant forall i | 0 <= i < |s| && !(first <= i < k) :: a[i] == s[i]
    {
      a[k] := a[k + 1];
      k := k + 1;
    }
    r := a[..];
  }
}
