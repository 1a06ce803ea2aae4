/** Client-side walkthroughs of the container's documented scenarios, proved
    from the `Vector` contracts alone. */
module VectorScenarios {
  import opened VectorSpec
  import opened Vectors

  /** Appending 1, 2, 3 to an empty vector reads back [1, 2, 3]; the
      capacity has doubled up to 4. */
  method AppendThree()
  {
    var v := new Vector<int>();
    v.PushBack(1);
    assert v.Elements() == [1] && v.Capacity() == 1;
    v.PushBack(2);
    assert v.Elements() == [1, 2] && v.Capacity() == 2;
    v.PushBack(3);
    assert v.Elements() == [1, 2, 3];
    assert v.Size() == 3 && v.Capacity() == 4;
  }

  /** Inserting into [1, 2, 3] with capacity 4 keeps the block and the
      capacity. */
  method InsertWithSpareRoom()
  {
    var v := new Vector<int>.OfSize(3, 0);
    v.Set(0, 1);
    v.Set(1, 2);
    v.Set(2, 3);
    assert v.Elements() == [1, 2, 3] && v.Capacity() == 3;
    v.Reserve(4);
    assert v.Elements() == [1, 2, 3] && v.Capacity() == 4;
    ghost var block := v.Repr;
    var it := v.Insert(1, 9);
    assert v.Repr == block && v.Capacity() == 4;
    assert it == 1 && v.Get(it) == 9;
    assert v.Elements() == Inserted([1, 2, 3], 1, 9);
    assert Inserted([1, 2, 3], 1, 9) == [1, 9, 2, 3];
  }

  /** Inserting into a full [1, 2, 3] of capacity 3 moves to 6 slots. */
  method InsertIntoFull()
  {
    var v := new Vector<int>.OfSize(3, 0);
    v.Set(0, 1);
    v.Set(1, 2);
    v.Set(2, 3);
    assert v.Elements() == [1, 2, 3] && v.Capacity() == 3;
    var it := v.Insert(1, 9);
    assert v.Elements() == [1, 9, 2, 3];
    assert v.Capacity() == 6;
  }

  /** Erasing the front of [1, 2, 3] leaves [2, 3]. */
  method EraseFront()
  {
    var v := new Vector<int>();
    v.PushBack(1);
    assert v.Elements() == [1] && v.Capacity() == 1;
    v.PushBack(2);
    assert v.Elements() == [1, 2] && v.Capacity() == 2;
    v.PushBack(3);
    assert v.Elements() == [1, 2, 3];
    var it := v.Erase(0);
    assert v.Elements() == Erased([1, 2, 3], 0) == [2, 3] && it == 0;
  }

  /** Copy-assigning two elements over five reuses the five-slot block. */
  method AssignSmallerOverLarger()
  {
    var dst := new Vector<int>.OfSize(5, 7);
    var src := new Vector<int>();
    src.PushBack(1);
    src.PushBack(2);
    assert src.Elements() == [1, 2];
    assert dst.Size() == 5 && dst.Capacity() == 5;
    dst.CopyAssignAsWritten(src);
    assert dst.Elements() == [1, 2];
    assert dst.Size() == 2 && dst.Capacity() == 5;
  }

  /** Moving out of a vector leaves it empty with no block; both vectors
      stay usable and independent afterwards. */
  method MoveLeavesSourceEmpty()
  {
    var src := new Vector<int>();
    src.PushBack(4);
    var dst := new Vector<int>.Move(src);
    assert dst.Elements() == [4];
    assert src.Size() == 0 && src.Capacity() == 0;
    assert dst.Repr !! src.Repr;
    dst.PushBack(5);
    assert dst.Elements() == [4, 5];
    assert dst.Repr !! src.Repr;
    src.PushBack(7);
    assert src.Elements() == [7];
    assert dst.Elements() == [4, 5];
  }

  /** Move assignment trades contents; both vectors stay usable. */
  method MoveAssignTrades()
  {
    var a := new Vector<int>();
    var b := new Vector<int>();
    b.PushBack(2);
    assert a.Repr !! b.Repr;
    a.MoveAssign(b);
    assert a.Elements() == [2] && b.Elements() == [] && b.Capacity() == 0;
    assert a.Repr !! b.Repr;
    b.PushBack(3);
    assert b.Elements() == [3];
    assert a.Elements() == [2];
  }
}
