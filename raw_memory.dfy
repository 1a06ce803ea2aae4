/** A fixed-capacity block of element slots with no notion of live elements. */
module RawMem {

  class RawMemory<T(0)> {
    /** The block; `null` exactly when the capacity is 0. */
    var buffer: array?<T>
    var capacity: nat

    ghost predicate Valid()
      reads this
    {
      (buffer == null <==> capacity == 0) &&
      (buffer != null ==> buffer.Length == capacity)
    }

    /** The heap objects owned by the block: nothing for a null block. */
    ghost function Cells(): set<object>
      reads this
    {
      if buffer == null then {} else {buffer}
    }

    /** The slots' current values, live or not. */
    ghost function Contents(): (s: seq<T>)
      reads this, Cells()
      requires Valid()
      ensures |s| == capacity
    {
      if buffer == null then [] else buffer[..]
    }

    /** `RawMemory()`: the empty block. */
    constructor Empty()
      ensures Valid() && capacity == 0 && Cells() == {}
    {
      buffer := null;
      capacity := 0;
    }

    /** `RawMemory(capacity)`: a fresh block of exactly `n` slots. */
    constructor (n: nat)
      ensures Valid() && capacity == n && fresh(Cells())
    {
      var block := Allocate(n);
      buffer := block;
      capacity := n;
    }

    /** `RawMemory(RawMemory&&)`: takes over the other block, leaving it empty. */
    constructor Move(other: RawMemory<T>)
      requires other.Valid()
      modifies other
      ensures Valid() && other.Valid()
      ensures buffer == old(other.buffer) && capacity == old(other.capacity)
      ensures other.capacity == 0 && other.Cells() == {}
    {
      buffer := null;
      capacity := 0;
      new;
      Swap(other);
    }

    /** Null for a request of 0 slots, a fresh array of `n` slots otherwise. */
    static method Allocate(n: nat) returns (b: array?<T>)
      ensures (b == null) == (n == 0)
      ensures b != null ==> fresh(b) && b.Length == n
    {
      if n != 0 {
        b := new T[n];
      } else {
        b := null;
      }
    }

    /** `operator+`: the address of slot `offset`; one past the last slot is
        a valid address. */
    function Offset(offset: nat): (p: nat)
      reads this
      requires offset <= capacity
      ensures p <= capacity && (p == capacity <==> offset == capacity)
    {
      offset
    }

    /** `operator[]` read: the value held in slot `index`. */
    function Get(index: nat): (x: T)
      reads this, Cells()
      requires Valid() && index < capacity
      ensures x == Contents()[index]
    {
      buffer[index]
    }

    /** `operator[]` write: stores `x` in slot `index`, no other slot changes. */
    method Set(index: nat, x: T)
      requires Valid() && index < capacity
      modifies buffer
      ensures Valid()
      ensures Contents() == old(Contents())[index := x]
    {
      buffer[index] := x;
    }

    /** Exchanges the blocks of the two objects. */
    method Swap(other: RawMemory<T>)
      requires Valid() && other.Valid()
      modifies this, other
      ensures Valid() && other.Valid()
      ensures buffer == old(other.buffer) && capacity == old(other.capacity)
      ensures other.buffer == old(buffer) && other.capacity == old(capacity)
      ensures Cells() == old(other.Cells()) && other.Cells() == old(Cells())
      ensures Contents() == old(other.Contents()) && other.Contents() == old(Contents())
    {
      var b, c := buffer, capacity;
      buffer, capacity := other.buffer, other.capacity;
      other.buffer, other.capacity := b, c;
    }

    /** `operator=(RawMemory&&)`: the same exchange as `Swap`. */
    method MoveAssign(rhs: RawMemory<T>)
      requires Valid() && rhs.Valid()
      modifies this, rhs
      ensures Valid() && rhs.Valid()
      ensures buffer == old(rhs.buffer) && capacity == old(rhs.capacity)
      ensures rhs.buffer == old(buffer) && rhs.capacity == old(capacity)
    {
      Swap(rhs);
    }

    /** Number of slots; zero exactly for the null block. */
    function Capacity(): (c: nat)
      reads this
      requires Valid()
      ensures (c == 0) == (buffer == null)
    {
      capacity
    }
  }

  /** Copies `count` slots of `src` starting at `from` into `dst` starting at
      `to` (`uninitialized_move_n` / `uninitialized_copy_n`); every other slot
      of `dst` keeps its value. */
  method Relocate<T(0)>(src: RawMemory<T>, from: nat, count: nat, dst: RawMemory<T>, to: nat)
    requires src.Valid() && dst.Valid()
    requires from + count <= src.capacity && to + count <= dst.capacity
    requires src.Cells() !! dst.Cells()
    modifies dst.buffer
    ensures dst.Valid()
    ensures dst.Contents() ==
            old(dst.Contents()[..to] + src.Contents()[from..from + count] + dst.Contents()[to + count..])
    ensures src.Contents() == old(src.Contents())
  {
    ghost var d0 := dst.Contents();
    ghost var s0 := src.Contents();
    var i := 0;
    while i < count
      invariant i <= count
      invariant dst.Valid() && src.Contents() == s0 && |dst.Contents()| == |d0|
      invariant forall k :: to <= k < to + i ==> dst.Contents()[k] == s0[from + k - to]
      invariant forall k :: 0 <= k < |d0| && !(to <= k < to + i) ==> dst.Contents()[k] == d0[k]
    {
      dst.Set(to + i, src.Get(from + i));
      i := i + 1;
    }
    assert dst.Contents() == d0[..to] + s0[from..from + count] + d0[to + count..];
  }

  /** `std::move_backward(lo, hi, hi + 1)` inside one block: slots
      `[lo, hi)` move one slot right, last one first; slot `lo` keeps its
      value and so does every slot outside `[lo, hi]`. */
  method ShiftRight<T(0)>(block: RawMemory<T>, lo: nat, hi: nat)
    requires block.Valid() && lo <= hi < block.capacity
    modifies block.buffer
    ensures block.Valid()
    ensures block.Contents() ==
            old(block.Contents()[..lo + 1] + block.Contents()[lo..hi] + block.Contents()[hi + 1..])
  {
    ghost var c0 := block.Contents();
    var k := hi;
    while k > lo
      invariant lo <= k <= hi
      invariant block.Valid() && |block.Contents()| == |c0|
      invariant forall j :: k < j <= hi ==> block.Contents()[j] == c0[j - 1]
      invariant forall j :: 0 <= j < |c0| && !(k < j <= hi) ==> block.Contents()[j] == c0[j]
    {
      block.Set(k, block.Get(k - 1));
      k := k - 1;
    }
    assert block.Contents() == c0[..lo + 1] + c0[lo..hi] + c0[hi + 1..];
  }

  /** `std::move(lo + 1, hi, lo)` inside one block: slots `[lo + 1, hi)`
      move one slot left, first one first; slot `hi - 1` keeps its value and
      so does every slot outside `[lo, hi)`. */
  method ShiftLeft<T(0)>(block: RawMemory<T>, lo: nat, hi: nat)
    requires block.Valid() && lo < hi <= block.capacity
    modifies block.buffer
    ensures block.Valid()
    ensures block.Contents() ==
            old(block.Contents()[..lo] + block.Contents()[lo + 1..hi] + block.Contents()[hi - 1..])
  {
    ghost var c0 := block.Contents();
    var k := lo;
    while k + 1 < hi
      invariant lo <= k < hi
      invariant block.Valid() && |block.Contents()| == |c0|
      invariant forall j :: lo <= j < k ==> block.Contents()[j] == c0[j + 1]
      invariant forall j :: 0 <= j < |c0| && !(lo <= j < k) ==> block.Contents()[j] == c0[j]
    {
      block.Set(k, block.Get(k + 1));
      k := k + 1;
    }
    assert block.Contents() == c0[..lo] + c0[lo + 1..hi] + c0[hi - 1..];
  }

  /** Copies slots `[lo, hi)` of `src` into the same slots of `dst` (`std::copy`
      between equally placed ranges); the two blocks may be the same. */
  method CopyInPlace<T(0)>(src: RawMemory<T>, lo: nat, hi: nat, dst: RawMemory<T>)
    requires src.Valid() && dst.Valid()
    requires lo <= hi <= src.capacity && hi <= dst.capacity
    modifies dst.buffer
    ensures dst.Valid()
    ensures dst.Contents() ==
            old(dst.Contents()[..lo] + src.Contents()[lo..hi] + dst.Contents()[hi..])
    ensures src.Contents() == old(src.Contents())
  {
    ghost var d0 := dst.Contents();
    ghost var s0 := src.Contents();
    var i := lo;
    while i < hi
      invariant lo <= i <= hi
      invariant dst.Valid() && |dst.Contents()| == |d0|
      invariant src.Contents() == s0
      invariant forall k :: 0 <= k < |d0| ==>
        dst.Contents()[k] == if lo <= k < i then s0[k] else d0[k]
    {
      dst.Set(i, src.Get(i));
      i := i + 1;
    }
    assert dst.Contents() == d0[..lo] + s0[lo..hi] + d0[hi..];
  }
}
