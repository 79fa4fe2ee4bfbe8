/** The growable array a window is bound to, reduced to the part of its
    contract the window relies on. Positions are offsets from the vector's
    first element, so a relocation of the storage is invisible here; the
    capacity is kept as a ghost counter only so that `Reserve` can state
    what it guarantees. */
module StdVector {
  import opened WindowSpec

  class Vector<T> {
    var elems: seq<T>
    ghost var cap: nat

    ghost predicate Valid()
      reads this
    {
      |elems| <= cap
    }

    constructor (init: seq<T>)
      ensures Valid() && elems == init && cap == |init|
    {
      elems := init;
      cap := |init|;
    }

    /** Constructs `x` before position `pos` and returns the position of the
        new element. */
    method Emplace(pos: nat, x: T) returns (it: nat)
      requires Valid() && pos <= |elems|
      modifies this
      ensures Valid() && cap >= old(cap)
      ensures elems == Inserted(old(elems), pos, x)
      ensures it == pos && elems[it] == x
    {
      elems := Inserted(elems, pos, x);
      if cap < |elems| {
        cap := 2 * |elems|;
      }
      it := pos;
    }

    /** Removes the element at `pos` and returns the position of the element
        that followed it. */
    method Erase(pos: nat) returns (it: nat)
      requires Valid() && pos < |elems|
      modifies this
      ensures Valid() && cap == old(cap)
      ensures elems == Erased(old(elems), pos, pos + 1)
      ensures it == pos
    {
      elems := Erased(elems, pos, pos + 1);
      it := pos;
    }

    /** Removes the half-open range [first, last) and returns the position of
        the element that followed it. */
    method EraseRange(first: nat, last: nat) returns (it: nat)
      requires Valid() && first <= last <= |elems|
      modifies this
      ensures Valid() && cap == old(cap)
      ensures elems == Erased(old(elems), first, last)
      ensures it == first
    {
      elems := Erased(elems, first, last);
      it := first;
    }

    /** Makes room for at least `n` elements; the values never change. */
    method Reserve(n: nat)
      requires Valid()
      modifies this
      ensures Valid() && elems == old(elems)
      ensures cap >= n && cap >= old(cap)
      ensures n <= old(cap) ==> cap == old(cap)
    {
      if cap < n {
        cap := n;
      }
    }
  }
}
