/** The mutable window: a live sub-range [start, end) of one vector. Every
    mutator forwards to the vector. `Emplace`, `Erase`, `EraseRange` and
    `Reserve` then rebuild both bounds from a size and an offset saved
    before the call; `EmplaceBack` saves only the size, rebuilds `end` from
    the returned position and then `start` from `end`; `PopBack` and
    `Resize` rebuild nothing themselves but go through the others. So the
    window survives the vector moving its storage or shifting its
    elements. */
module VectorViews {
  import opened WindowSpec
  import opened StdVector
  import opened ConstVectorViews

  class VectorView<T> {
    const vec: Vector<T>
    var start: nat
    var end: nat

    /** The window invariant: both bounds are positions of the vector, in
        order. */
    ghost predicate Valid()
      reads this, vec
    {
      vec.Valid() && start <= end <= |vec.elems|
    }

    /** The elements iterated from `begin()` to `end()`. */
    ghost function Contents(): seq<T>
      reads this, vec
      requires Valid()
    {
      vec.elems[start..end]
    }

    /** A view of the whole vector. */
    constructor (v: Vector<T>)
      requires v.Valid()
      ensures vec == v && start == 0 && end == |v.elems|
      ensures Valid() && Contents() == v.elems
    {
      vec := v;
      start := 0;
      end := |v.elems|;
    }

    /** A view of the positions [s, e) of the vector. */
    constructor Range(v: Vector<T>, s: nat, e: nat)
      requires v.Valid() && s <= e <= |v.elems|
      ensures vec == v && start == s && end == e
      ensures Valid() && Contents() == v.elems[s..e]
    {
      vec := v;
      start := s;
      end := e;
    }

    /** The number of elements iterated. */
    function Size(): (n: nat)
      reads this, vec
      requires Valid()
      ensures n == |Contents()|
    {
      end - start
    }

    function Empty(): (b: bool)
      reads this, vec
      requires Valid()
      ensures b <==> Contents() == []
      ensures b <==> start == end
    {
      Size() == 0
    }

    /** `operator[]`: unchecked, so the index must be in the window. */
    function Get(i: nat): (x: T)
      reads this, vec
      requires Valid() && i < Size()
      ensures x == Contents()[i]
    {
      vec.elems[start + i]
    }

    /** `back()`: the last element, for a window that is not empty. */
    function Back(): (x: T)
      reads this, vec
      requires Valid() && 0 < Size()
      ensures x == Contents()[|Contents()| - 1]
      ensures x == vec.elems[end - 1]
    {
      Get(Size() - 1)
    }

    /** A read-only view built from this window's `begin()` and `end()`:
        it shows the same elements. In this model, which captures the
        sequence, it keeps them whatever this window or its vector does
        afterwards; the iterators of the real type dangle once the vector
        relocates. */
    function Snapshot(): (c: ConstVectorView<T>)
      reads this, vec
      requires Valid()
      ensures c.Valid() && c.start == start && c.end == end
      ensures c.Contents() == Contents() && c.Size() == Size()
    {
      FromRange(vec.elems, start, end)
    }

    /** Appends `x` as the new last element of the window, which inserts it
        into the vector at the window's end. */
    method EmplaceBack(x: T)
      requires Valid()
      modifies this, vec
      ensures Valid() && vec.cap >= old(vec.cap)
      ensures vec.elems == Inserted(old(vec.elems), old(end), x)
      ensures start == old(start) && end == old(end) + 1
      ensures Contents() == old(Contents()) + [x] && Back() == x
      ensures vec.elems[..start] == old(vec.elems[..start])
      ensures vec.elems[end..] == old(vec.elems[end..])
    {
      InsertedSplits(vec.elems, start, end, end, x);
      var size := Size();
      var it := vec.Emplace(end, x);
      end := it + 1;
      start := end - (size + 1);
    }

    /** Asks the vector for room to grow the window to `n` elements; the
        bounds are rebuilt from the offset of `start`, so the window keeps
        the same elements. */
    method Reserve(n: nat)
      requires Valid()
      modifies this, vec
      ensures Valid() && vec.elems == old(vec.elems)
      ensures start == old(start) && end == old(end) && vec.cap >= old(vec.cap)
      ensures n > old(Size()) ==> vec.cap >= n - old(Size()) + |vec.elems|
      ensures n <= old(Size()) ==> vec.cap == old(vec.cap)
    {
      if n > Size() {
        // Positions count from the vector's first element, so the offset of
        // `start` from `Vector.begin()` is `start` itself.
        var offset := start;
        var oldSize := Size();
        vec.Reserve(n - Size() + |vec.elems|);
        start := offset;
        end := start + oldSize;
      }
    }

    /** Grows the window to `n` elements by appending `filler` (the
        default-constructed element) or shrinks it by popping its last
        elements with the corrected `PopBack`. */
    method Resize(n: nat, filler: T)
      requires Valid()
      modifies this, vec
      ensures Valid() && start == old(start) && end == start + n && Size() == n
      ensures vec.elems == Resized(old(vec.elems), old(start), old(end), n, filler)
    {
      Reserve(n);
      ghost var v0, e0 := vec.elems, end;
      assert v0 == old(vec.elems) && e0 == old(end);
      while n > Size()
        invariant Valid() && start == old(start) && e0 <= end
        invariant end == e0 || end <= start + n
        invariant vec.elems == Grown(v0, e0, end - e0, filler)
        decreases n - Size()
      {
        ghost var k := end - e0;
        assert e0 + k == end;
        GrowStep(v0, e0, k, filler);
        EmplaceBack(filler);
        assert end - e0 == k + 1;
      }
      ghost var e1 := end;
      while n < Size()
        invariant Valid() && start == old(start) && start + n <= end <= e1
        invariant vec.elems == Erased(Grown(v0, e0, e1 - e0, filler), end, e1)
        decreases Size() - n
      {
        ErasedTwice(Grown(v0, e0, e1 - e0, filler), end - 1, end, e1);
        PopBack();
      }
      ResizeLoopsCompose(v0, start, e0, n, filler, e1, end, vec.elems);
    }

    /** Constructs `x` at position `p` inside the window (or at its end)
        and returns the position of the new element. */
    method Emplace(p: nat, x: T) returns (it: nat)
      requires Valid() && start <= p <= end
      modifies this, vec
      ensures Valid() && vec.cap >= old(vec.cap)
      ensures vec.elems == Inserted(old(vec.elems), p, x)
      ensures it == p && vec.elems[it] == x
      ensures start == old(start) && end == old(end) + 1
      ensures Contents() == old(Contents())[..p - start] + [x] + old(Contents())[p - start..]
    {
      InsertedSplits(vec.elems, start, end, p, x);
      var size := Size();
      var offset := p - start;
      it := vec.Emplace(p, x);
      start := it - offset;
      end := start + (size + 1);
    }

    /** Removes the element at position `p` of the window and returns the
        position of the element that followed it. */
    method Erase(p: nat) returns (it: nat)
      requires Valid() && start <= p < end
      modifies this, vec
      ensures Valid() && vec.cap == old(vec.cap)
      ensures vec.elems == Erased(old(vec.elems), p, p + 1)
      ensures it == p
      ensures start == old(start) && end == old(end) - 1
      ensures Contents() == old(Contents())[..p - start] + old(Contents())[p - start + 1..]
    {
      ErasedSplits(vec.elems, start, end, p, p + 1);
      var size := Size();
      var offset := p - start;
      it := vec.Erase(p);
      start := it - offset;
      end := start + (size - 1);
    }

    /** Removes the positions [first, last) of the window and returns the
        position of the element that followed them. */
    method EraseRange(first: nat, last: nat) returns (it: nat)
      requires Valid() && start <= first <= last <= end
      modifies this, vec
      ensures Valid() && vec.cap == old(vec.cap)
      ensures vec.elems == Erased(old(vec.elems), first, last)
      ensures it == first
      ensures start == old(start) && end == old(end) - (last - first)
      ensures Contents() == old(Contents())[..first - start] + old(Contents())[last - start..]
    {
      ErasedSplits(vec.elems, start, end, first, last);
      var size := Size();
      var offset := first - start;
      var numErased := last - first;
      it := vec.EraseRange(first, last);
      start := it - offset;
      end := start + (size - numErased);
    }

    /** Removes the window's last element. This is the evidently intended
        behaviour: erase at `end - 1`. */
    method PopBack()
      requires Valid() && start < end
      modifies this, vec
      ensures Valid() && vec.cap == old(vec.cap)
      ensures vec.elems == Erased(old(vec.elems), old(end) - 1, old(end))
      ensures start == old(start) && end == old(end) - 1
      ensures Contents() == old(Contents())[..old(Size()) - 1]
    {
      var _ := Erase(end - 1);
    }

    /** `pop_back` as written: it erases at `end` itself, the element just
        past the window, which exists only when the window stops short of
        the vector's end. The window still shrinks by one, so its contents
        look right, but the vector lost an element outside it and the old
        last window element now sits just past the window. */
    method PopBackAsWritten()
      requires Valid() && start < end < |vec.elems|
      modifies this, vec
      ensures Valid() && vec.cap == old(vec.cap)
      ensures vec.elems == Erased(old(vec.elems), old(end), old(end) + 1)
      ensures start == old(start) && end == old(end) - 1
      ensures Contents() == old(Contents())[..old(Size()) - 1]
      ensures vec.elems[end] == old(vec.elems[end - 1])
    {
      // The body of `erase(it)` with `it` at the window's end.
      var size := Size();
      var offset := end - start;
      var it := vec.Erase(end);
      start := it - offset;
      end := start + (size - 1);
    }
  }
}
