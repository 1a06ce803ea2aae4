/** The growable contiguous sequence: a `RawMemory` block whose first `size`
    slots hold the live elements. Iterators are indices into the block. */
module Vectors {
  import opened RawMem
  import opened VectorSpec

  class Vector<T(0)> {
    var data: RawMemory<T>
    var size: nat
    /** The objects this vector owns: itself, its block and the block's array. */
    ghost var Repr: set<object>

    ghost predicate Valid()
      reads this, Repr
    {
      this in Repr && data in Repr && Repr == {this, data} + data.Cells() &&
      data.Valid() && size <= data.capacity
    }

    /** The live elements, slots `[0, size)`. */
    ghost function Elements(): (s: seq<T>)
      reads this, Repr
      requires Valid()
      ensures |s| == size
    {
      data.Contents()[..size]
    }

    /** `Vector()`: no elements and a null block. */
    constructor ()
      ensures Valid() && fresh(Repr)
      ensures Elements() == [] && Capacity() == 0
    {
      var block := new RawMemory<T>.Empty();
      data := block;
      size := 0;
      Repr := {this, block};
    }

    /** `Vector(size)`: `n` value-initialised elements, written `init`, in a
        block of exactly `n` slots. */
    constructor OfSize(n: nat, init: T)
      ensures Valid() && fresh(Repr)
      ensures Elements() == seq(n, _ => init) && Capacity() == n
    {
      var block := new RawMemory<T>(n);
      data := block;
      size := n;
      Repr := {this, block} + block.Cells();
      new;
      var i := 0;
      while i < n
        modifies block.buffer
        invariant i <= n
        invariant forall k :: 0 <= k < i ==> block.Contents()[k] == init
      {
        block.Set(i, init);
        i := i + 1;
      }
    }

    /** `Vector(const Vector&)`: a copy of the live elements in a block sized
        to the other vector's size, not its capacity. */
    constructor Copy(other: Vector<T>)
      requires other.Valid()
      ensures Valid() && fresh(Repr)
      ensures Elements() == other.Elements() && Capacity() == other.Size()
    {
      var block := new RawMemory<T>(other.size);
      Relocate(other.data, 0, other.size, block, 0);
      data := block;
      size := other.size;
      Repr := {this, block} + block.Cells();
    }

    /** `Vector(Vector&&)`: takes over the other vector's state, leaving it
        empty with a null block. */
    constructor Move(other: Vector<T>)
      requires other.Valid()
      modifies other, other.data
      ensures Valid() && other.Valid()
      ensures Elements() == old(other.Elements()) && Capacity() == old(other.Capacity())
      ensures other.Elements() == [] && other.Capacity() == 0
      ensures fresh(Repr - old(other.Repr))
      ensures other.data == old(other.data) && other.Repr == old(other.Repr) - old(other.data.Cells())
    {
      var block := new RawMemory<T>.Empty();
      data := block;
      size := 0;
      Repr := {this, block};
      new;
      Swap(other);
    }

    /** Exchanges blocks and sizes, so elements and capacities trade places. */
    method Swap(other: Vector<T>)
      requires Valid() && other.Valid()
      modifies this, data, other, other.data
      ensures Valid() && other.Valid()
      ensures Elements() == old(other.Elements()) && Capacity() == old(other.Capacity())
      ensures other.Elements() == old(Elements()) && other.Capacity() == old(Capacity())
      ensures data == old(data) && other.data == old(other.data)
      ensures data.Cells() == old(other.data.Cells()) && other.data.Cells() == old(data.Cells())
    {
      data.Swap(other.data);
      var s := size;
      size := other.size;
      other.size := s;
      Repr := {this, data} + data.Cells();
      other.Repr := {other, other.data} + other.data.Cells();
    }

    /** `operator=(Vector&&)`: the same exchange as `Swap`. */
    method MoveAssign(rhs: Vector<T>)
      requires Valid() && rhs.Valid()
      modifies this, data, rhs, rhs.data
      ensures Valid() && rhs.Valid()
      ensures Elements() == old(rhs.Elements()) && Capacity() == old(rhs.Capacity())
      ensures rhs.Elements() == old(Elements()) && rhs.Capacity() == old(Capacity())
      ensures data == old(data) && rhs.data == old(rhs.data)
      ensures data.Cells() == old(rhs.data.Cells()) && rhs.data.Cells() == old(data.Cells())
    {
      Swap(rhs);
    }

    /** `operator=(const Vector&)` as the source writes it. A vector too small
        for `rhs` becomes a copy of it with capacity `rhs`'s size; otherwise the
        block is reused, and when both sizes are equal no element is copied. */
    method CopyAssignAsWritten(rhs: Vector<T>)
      requires Valid() && rhs.Valid()
      modifies Repr
      ensures Valid() && fresh(Repr - old(Repr))
      ensures old(rhs.Size()) > old(Capacity()) ==>
                Elements() == old(rhs.Elements()) && Capacity() == old(rhs.Size())
      ensures old(rhs.Size()) <= old(Capacity()) ==>
                Elements() == AssignedAsWritten(old(Elements()), old(rhs.Elements())) &&
                Capacity() == old(Capacity()) && Repr == old(Repr)
    {
      if rhs.size > data.capacity {
        var tmp := new Vector<T>.Copy(rhs);
        Swap(tmp);
      } else {
        ghost var s0 := rhs.data.Contents();
        ghost var d0 := data.Contents();
        if size < rhs.size {
          CopyInPlace(rhs.data, size, rhs.size, data);
          ghost var d1 := data.Contents();
          CopyInPlace(rhs.data, 0, size, data);
          CopiedInTwoSteps(s0, d0, d1, data.Contents(), size, rhs.size);
        }
        if size > rhs.size {
          CopyInPlace(rhs.data, 0, rhs.size, data);
          CopiedInOneStep(s0, d0, data.Contents(), rhs.size);
        }
        size := rhs.size;
      }
    }

    /** `operator=(const Vector&)` corrected so that the overlapping prefix is
        copied also when both sizes are equal: the result always holds `rhs`'s
        elements. */
    method CopyAssign(rhs: Vector<T>)
      requires Valid() && rhs.Valid()
      modifies Repr
      ensures Valid() && fresh(Repr - old(Repr))
      ensures Elements() == old(rhs.Elements())
      ensures old(rhs.Size()) > old(Capacity()) ==> Capacity() == old(rhs.Size())
      ensures old(rhs.Size()) <= old(Capacity()) ==> Capacity() == old(Capacity()) && Repr == old(Repr)
    {
      if rhs.size > data.capacity {
        var tmp := new Vector<T>.Copy(rhs);
        Swap(tmp);
      } else {
        ghost var s0 := rhs.data.Contents();
        ghost var d0 := data.Contents();
        if size < rhs.size {
          CopyInPlace(rhs.data, size, rhs.size, data);
          ghost var d1 := data.Contents();
          CopyInPlace(rhs.data, 0, size, data);
          CopiedInTwoSteps(s0, d0, d1, data.Contents(), size, rhs.size);
        } else {
          CopyInPlace(rhs.data, 0, rhs.size, data);
          CopiedInOneStep(s0, d0, data.Contents(), rhs.size);
        }
        size := rhs.size;
      }
    }

    /** Makes room for `newCapacity` elements: nothing happens when the block
        is already large enough; otherwise the elements move to a fresh block
        of exactly `newCapacity` slots. */
    method Reserve(newCapacity: nat)
      requires Valid()
      modifies Repr
      ensures Valid() && fresh(Repr - old(Repr))
      ensures Elements() == old(Elements())
      ensures Capacity() == Max(old(Capacity()), newCapacity)
      ensures newCapacity <= old(Capacity()) ==> Repr == old(Repr)
    {
      if newCapacity <= data.capacity {
        return;
      }
      var newData := new RawMemory<T>(newCapacity);
      Relocate(data, 0, size, newData, 0);
      data.Swap(newData);
      Repr := {this, data} + data.Cells();
    }

    function Size(): (n: nat)
      reads this, Repr
      requires Valid()
      ensures n == |Elements()|
    {
      size
    }

    function Capacity(): (c: nat)
      reads this, Repr
      requires Valid()
      ensures |Elements()| <= c
    {
      data.Capacity()
    }

    /** `operator[]` read: the element at `index`. */
    function Get(index: nat): (x: T)
      reads this, Repr
      requires Valid() && index < Size()
      ensures x == Elements()[index]
    {
      data.Get(index)
    }

    /** `operator[]` write: replaces the element at `index`. */
    method Set(index: nat, x: T)
      requires Valid() && index < Size()
      modifies data.buffer
      ensures Valid()
      ensures Elements() == old(Elements())[index := x]
      ensures Capacity() == old(Capacity())
    {
      data.Set(index, x);
    }

    /** `begin()`: the position of the first element. */
    function Begin(): (b: nat)
      reads this, Repr
      requires Valid()
      ensures b <= End() && (b == End() <==> Elements() == [])
    {
      0
    }

    /** `end()`: the position one past the last element. */
    function End(): (e: nat)
      reads this, Repr
      requires Valid()
      ensures e == |Elements()| && e <= Capacity()
    {
      data.Offset(size)
    }

    /** Sets the size to `newSize`: shrinking drops the tail, growing reserves
        room and fills the new slots with the value-initialised `init`. */
    method Resize(newSize: nat, init: T)
      requires Valid()
      modifies Repr
      ensures Valid() && fresh(Repr - old(Repr))
      ensures Elements() == Resized(old(Elements()), newSize, init)
      ensures Capacity() == Max(old(Capacity()), newSize)
      ensures newSize <= old(Capacity()) ==> Repr == old(Repr)
    {
      Reserve(newSize);
      if size < newSize {
        ghost var c0 := data.Contents();
        var i := size;
        while i < newSize
          modifies data.buffer
          invariant size <= i <= newSize
          invariant data.Valid() && |data.Contents()| == |c0|
          invariant forall k :: 0 <= k < |c0| ==>
            data.Contents()[k] == if size <= k < i then init else c0[k]
        {
          data.Set(i, init);
          i := i + 1;
        }
      }
      size := newSize;
    }

    method PushBack(v: T)
      requires Valid()
      modifies Repr
      ensures Valid() && fresh(Repr - old(Repr))
      ensures Elements() == old(Elements()) + [v]
      ensures Capacity() == NextCapacity(old(Size()), old(Capacity()))
      ensures old(Capacity()) > old(Size()) ==> Repr == old(Repr)
    {
      var _ := EmplaceBack(v);
    }

    /** Drops the last element; the block is kept. */
    method PopBack()
      requires Valid() && 0 < Size()
      modifies this
      ensures Valid() && Repr == old(Repr)
      ensures Elements() == old(Elements()[..Size() - 1])
      ensures Capacity() == old(Capacity())
    {
      size := size - 1;
    }

    /** Appends `v`, using a spare slot when there is one and otherwise moving
        to a block of `GrowthCapacity(size)` slots; returns the new element's
        index. */
    method EmplaceBack(v: T) returns (idx: nat)
      requires Valid()
      modifies Repr
      ensures Valid() && fresh(Repr - old(Repr))
      ensures Elements() == old(Elements()) + [v]
      ensures Capacity() == NextCapacity(old(Size()), old(Capacity()))
      ensures old(Capacity()) > old(Size()) ==> Repr == old(Repr)
      ensures idx == old(Size()) && Get(idx) == v
    {
      if data.capacity > size {
        data.Set(size, v);
        idx := size;
        size := size + 1;
      } else {
        var newData := new RawMemory<T>(GrowthCapacity(size));
        newData.Set(size, v);
        Relocate(data, 0, size, newData, 0);
        data.Swap(newData);
        Repr := {this, data} + data.Cells();
        idx := size;
        size := size + 1;
      }
    }

    /** Inserts `v` at position `pos` (`pos == End()` appends) and returns
        `pos`, the inserted element's position. */
    method Emplace(pos: nat, v: T) returns (it: nat)
      requires Valid() && pos <= Size()
      modifies Repr
      ensures Valid() && fresh(Repr - old(Repr))
      ensures Elements() == Inserted(old(Elements()), pos, v)
      ensures Capacity() == NextCapacity(old(Size()), old(Capacity()))
      ensures old(Capacity()) > old(Size()) ==> Repr == old(Repr)
      ensures it == pos && Get(it) == v
    {
      if data.capacity > size {
        BigCapacity(pos, v);
      } else {
        CompletelyFilled(pos, v);
      }
      it := pos;
    }

    /** Insertion with a spare slot: the tail `[pos, size)` moves one slot
        right inside the same block and `v` lands at `pos`. */
    method BigCapacity(pos: nat, v: T)
      requires Valid() && pos <= Size() < Capacity()
      modifies Repr
      ensures Valid() && Repr == old(Repr)
      ensures Elements() == Inserted(old(Elements()), pos, v)
      ensures Capacity() == old(Capacity())
    {
      if pos == size {
        var _ := EmplaceBack(v);
      } else {
        var tmp := v;
        ghost var c0 := data.Contents();
        data.Set(size, data.Get(size - 1));
        ghost var c1 := data.Contents();
        ShiftRight(data, pos, size - 1);
        ghost var c2 := data.Contents();
        data.Set(pos, tmp);
        ShiftRightInserts(c0, c1, c2, data.Contents(), pos, size, tmp);
        size := size + 1;
      }
    }

    /** Insertion into a full vector: a block of `GrowthCapacity(size)` slots
        receives the prefix, then `v`, then the suffix one slot further on. */
    method CompletelyFilled(pos: nat, v: T)
      requires Valid() && pos <= Size() == Capacity()
      modifies Repr
      ensures Valid() && fresh(Repr - old(Repr))
      ensures Elements() == Inserted(old(Elements()), pos, v)
      ensures Capacity() == GrowthCapacity(old(Size()))
    {
      var newData := GrownWithInserted(data, size, pos, v, GrowthCapacity(size));
      data.Swap(newData);
      Repr := {this, data} + data.Cells();
      size := size + 1;
    }

    /** Removes the element at `pos` by moving the tail one slot left and
        returns `pos`; at `End()` nothing changes and `End()` is returned. */
    method Erase(pos: nat) returns (it: nat)
      requires Valid() && pos <= Size()
      modifies Repr
      ensures Valid() && Repr == old(Repr)
      ensures Capacity() == old(Capacity())
      ensures pos == old(Size()) ==> it == End() && Elements() == old(Elements())
      ensures pos < old(Size()) ==> it == pos && Elements() == Erased(old(Elements()), pos)
    {
      if pos == size {
        return size;
      }
      ghost var c0 := data.Contents();
      ShiftLeft(data, pos, size);
      ShiftLeftErases(c0, data.Contents(), pos, size);
      size := size - 1;
      it := pos;
    }

    method Insert(pos: nat, v: T) returns (it: nat)
      requires Valid() && pos <= Size()
      modifies Repr
      ensures Valid() && fresh(Repr - old(Repr))
      ensures Elements() == Inserted(old(Elements()), pos, v)
      ensures Capacity() == NextCapacity(old(Size()), old(Capacity()))
      ensures old(Capacity()) > old(Size()) ==> Repr == old(Repr)
      ensures it == pos && Get(it) == v
    {
      it := Emplace(pos, v);
    }
  }

  /** The new block of a full vector's insertion: a fresh block of
      `newCapacity` slots receiving the first `count` slots of `src` with `v`
      inserted at `pos`; `src` itself is left untouched. */
  method GrownWithInserted<T(0)>(src: RawMemory<T>, count: nat, pos: nat, v: T, newCapacity: nat)
    returns (dst: RawMemory<T>)
    requires src.Valid() && pos <= count == src.capacity < newCapacity
    ensures fresh(dst) && fresh(dst.Cells()) && dst.Valid() && dst.capacity == newCapacity
    ensures dst.Contents()[..count + 1] == Inserted(src.Contents(), pos, v)
  {
    dst := new RawMemory<T>(newCapacity);
    ghost var e := src.Contents();
    ghost var n0 := dst.Contents();
    Relocate(src, 0, pos, dst, 0);
    ghost var n1 := dst.Contents();
    dst.Set(pos, v);
    ghost var n2 := dst.Contents();
    if count > pos {
      Relocate(src, pos, count - pos, dst, pos + 1);
    }
    SpliceIsInsertion(e, count, n0, n1, n2, dst.Contents(), pos, v);
  }

  // The slicing lemmas below state their requires in exactly the shape of the
  // `Relocate` and `CopyInPlace` postconditions they receive (`s[0..n]`,
  // `e[0..0 + pos]`, `d[..0] + ...`), so that a call site matches them
  // syntactically instead of proving a sequence equality first.

  /** Copying `[n, m)` and then `[0, n)` of `s` onto the same slots leaves
      `s[..m]` in the first `m` slots. */
  lemma CopiedInTwoSteps<T>(s: seq<T>, d0: seq<T>, d1: seq<T>, d2: seq<T>, n: nat, m: nat)
    requires n <= m <= |s| && m <= |d0|
    requires d1 == d0[..n] + s[n..m] + d0[m..]
    requires d2 == d1[..0] + s[0..n] + d1[n..]
    ensures |d2| == |d0| && d2[..m] == s[..m]
  {
  }

  /** Copying `[0, m)` of `s` onto the same slots leaves `s[..m]` there. */
  lemma CopiedInOneStep<T>(s: seq<T>, d0: seq<T>, d1: seq<T>, m: nat)
    requires m <= |s| && m <= |d0|
    requires d1 == d0[..0] + s[0..m] + d0[m..]
    ensures |d1| == |d0| && d1[..m] == s[..m]
  {
  }

  /** The three steps of insertion into a full block, on sequences: the prefix
      `e[..pos]` goes to the same slots, `v` to slot `pos`, and the suffix
      `e[pos..]` one slot further on; the first `|e| + 1` slots are then
      `Inserted(e, pos, v)`. */
  lemma SpliceIsInsertion<T>(e: seq<T>, count: nat, n0: seq<T>, n1: seq<T>, n2: seq<T>, n3: seq<T>, pos: nat, v: T)
    requires pos <= count == |e| < |n0|
    requires n1 == n0[..0] + e[0..0 + pos] + n0[0 + pos..]
    requires n2 == n1[pos := v]
    requires count > pos ==> n3 == n2[..pos + 1] + e[pos..pos + (count - pos)] + n2[pos + 1 + (count - pos)..]
    requires count == pos ==> n3 == n2
    ensures |n3| == |n0| && n3[..count + 1] == Inserted(e, pos, v)
  {
  }

  /** Moving the tail `[pos + 1, size)` one slot left leaves `Erased` in the
      first `size - 1` slots. */
  lemma ShiftLeftErases<T>(c0: seq<T>, c1: seq<T>, pos: nat, size: nat)
    requires pos < size <= |c0|
    requires c1 == c0[..pos] + c0[pos + 1..size] + c0[size - 1..]
    ensures c1[..size - 1] == Erased(c0[..size], pos)
  {
  }

  /** Copying the last element one slot on, moving `[pos, size - 1)` one slot
      right and writing `v` at `pos` leaves `Inserted` in the first
      `size + 1` slots. */
  lemma ShiftRightInserts<T>(c0: seq<T>, c1: seq<T>, c2: seq<T>, c3: seq<T>, pos: nat, size: nat, v: T)
    requires pos < size < |c0|
    requires c1 == c0[size := c0[size - 1]]
    requires c2 == c1[..pos + 1] + c1[pos..size - 1] + c1[size..]
    requires c3 == c2[pos := v]
    ensures c3[..size + 1] == Inserted(c0[..size], pos, v)
  {
  }
}
