/** Value-level vocabulary for the vector: what the element sequence and the
    capacity become under each mutator, and the facts proved about them. */
module VectorSpec {

  function Max(a: nat, b: nat): (m: nat)
    ensures a <= m && b <= m && (m == a || m == b)
  {
    if a < b then b else a
  }

  /** Capacity chosen when a full vector must grow: 1 for an empty vector,
      otherwise twice the current size. */
  function GrowthCapacity(size: nat): (c: nat)
    ensures size < c <= 2 * size + 1
  {
    if size == 0 then 1 else 2 * size
  }

  /** Capacity after one element is added at the end or in the middle:
      spare room is used when there is some, otherwise the vector grows. */
  function NextCapacity(size: nat, capacity: nat): (c: nat)
    requires size <= capacity
    ensures size < c && capacity <= c
    ensures c <= Max(capacity, 2 * size + 1)
  {
    if capacity > size then capacity else GrowthCapacity(size)
  }

  /** Capacity after `k` successive appends to a vector of the given size and capacity. */
  function CapacityAfterAppends(size: nat, capacity: nat, k: nat): (c: nat)
    requires size <= capacity
    ensures size + k <= c && capacity <= c
    decreases k
  {
    if k == 0 then capacity
    else CapacityAfterAppends(size + 1, NextCapacity(size, capacity), k - 1)
  }

  predicate IsPowerOfTwo(n: nat)
    decreases n
  {
    n == 1 || (2 <= n && n % 2 == 0 && IsPowerOfTwo(n / 2))
  }

  /** A vector grown only by appends has a power-of-two capacity that is less
      than twice its size. */
  lemma {:induction false} AppendsKeepPowerOfTwo(size: nat, capacity: nat, k: nat)
    requires (size == 0 && capacity == 0) || (IsPowerOfTwo(capacity) && size <= capacity < 2 * size)
    ensures size + k == 0 ||
            (IsPowerOfTwo(CapacityAfterAppends(size, capacity, k)) &&
             CapacityAfterAppends(size, capacity, k) < 2 * (size + k))
    decreases k
  {
    if k > 0 {
      var c := NextCapacity(size, capacity);
      if capacity == size {
        assert c == GrowthCapacity(size);
        if size > 0 {
          assert c / 2 == size;
        }
      }
      assert IsPowerOfTwo(c) && size + 1 <= c < 2 * (size + 1);
      AppendsKeepPowerOfTwo(size + 1, c, k - 1);
    }
  }

  /** Starting from an empty vector of capacity 0, after `k > 0` appends the
      capacity is the least power of two that is at least `k`. */
  lemma AppendsFromEmpty(k: nat)
    requires 0 < k
    ensures var c := CapacityAfterAppends(0, 0, k);
            IsPowerOfTwo(c) && k <= c < 2 * k
  {
    AppendsKeepPowerOfTwo(0, 0, k);
  }

  /** `s` with `v` placed at index `i` and the tail moved one slot right. */
  function Inserted<T>(s: seq<T>, i: nat, v: T): (r: seq<T>)
    requires i <= |s|
    ensures |r| == |s| + 1 && r[i] == v
    ensures forall k :: 0 <= k < i ==> r[k] == s[k]
    ensures forall k :: i < k < |r| ==> r[k] == s[k - 1]
  {
    s[..i] + [v] + s[i..]
  }

  /** `s` without its element at index `i`; the tail moves one slot left. */
  function Erased<T>(s: seq<T>, i: nat): (r: seq<T>)
    requires i < |s|
    ensures |r| == |s| - 1
    ensures forall k :: 0 <= k < i ==> r[k] == s[k]
    ensures forall k :: i <= k < |r| ==> r[k] == s[k + 1]
  {
    s[..i] + s[i + 1..]
  }

  /** `s` cut to `n` elements, or extended to `n` elements with `fill`. */
  function Resized<T>(s: seq<T>, n: nat, fill: T): (r: seq<T>)
    ensures |r| == n
    ensures forall k :: 0 <= k < n && k < |s| ==> r[k] == s[k]
    ensures forall k :: |s| <= k < n ==> r[k] == fill
  {
    if n <= |s| then s[..n] else s + seq(n - |s|, _ => fill)
  }

  /** Erasing what was just inserted gives back the original sequence. */
  lemma EraseUndoesInsert<T>(s: seq<T>, i: nat, v: T)
    requires i <= |s|
    ensures Erased(Inserted(s, i, v), i) == s
  {
  }

  /** Inserting at the end position is appending. */
  lemma InsertAtEndAppends<T>(s: seq<T>, v: T)
    ensures Inserted(s, |s|, v) == s + [v]
  {
  }

  /** Insertion adds exactly one occurrence of the new value and loses nothing. */
  lemma InsertedIsPermutation<T>(s: seq<T>, i: nat, v: T)
    requires i <= |s|
    ensures multiset(Inserted(s, i, v)) == multiset(s) + multiset{v}
  {
    assert s == s[..i] + s[i..];
  }

  /** Erasure removes exactly one occurrence of the erased value. */
  lemma ErasedIsPermutation<T>(s: seq<T>, i: nat)
    requires i < |s|
    ensures multiset(Erased(s, i)) + multiset{s[i]} == multiset(s)
  {
    assert s == s[..i] + [s[i]] + s[i + 1..];
  }

  /** Dropping the last element is erasing the last position. */
  lemma DropLastIsEraseLast<T>(s: seq<T>)
    requires 0 < |s|
    ensures s[..|s| - 1] == Erased(s, |s| - 1)
  {
  }

  /** Resizing to the current size changes nothing. */
  lemma ResizeToSameSize<T>(s: seq<T>, fill: T)
    ensures Resized(s, |s|, fill) == s
  {
  }

  /** Resizing to `n` and then to some `m <= n` is resizing to `m` directly;
      in particular growing and shrinking back restores the sequence. */
  lemma ResizeTwice<T>(s: seq<T>, n: nat, m: nat, fill: T)
    requires m <= n
    ensures Resized(Resized(s, n, fill), m, fill) == Resized(s, m, fill)
  {
  }

  /** Elements left by the storage-reusing branch of copy assignment as the
      source writes it: when both sizes are equal no element is copied. */
  function AssignedAsWritten<T>(dst: seq<T>, src: seq<T>): (r: seq<T>)
    ensures |r| == |src|
    ensures r == src || (|dst| == |src| && r == dst)
  {
    if |dst| < |src| then src
    else if |dst| > |src| then src
    else dst
  }

  /** The as-written copy assignment reaches the source's elements exactly
      when the sizes differ or the contents already agree. */
  lemma AssignedAsWrittenCopiesIff<T>(dst: seq<T>, src: seq<T>)
    ensures AssignedAsWritten(dst, src) == src <==> (|dst| != |src| || dst == src)
  {
  }

  /** Concrete witness: assigning [2] to a vector holding [1] leaves [1]. */
  lemma AssignEqualSizesKeepsStale()
    ensures AssignedAsWritten([1], [2]) == [1]
    ensures AssignedAsWritten([1], [2]) != [2]
  {
  }
}
