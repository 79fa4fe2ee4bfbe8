/** The read-only window: a detached pair of positions. It keeps no link to
    the vector it was taken from, so it is modelled as a value holding the
    sequence it was read from together with the two positions; a later
    change to the vector cannot reach it. */
module ConstVectorViews {

  datatype ConstVectorView<T> = ConstVectorView(source: seq<T>, start: nat, end: nat)
  {
    /** Both positions lie in the sequence, in order. */
    ghost predicate Valid() {
      start <= end <= |source|
    }

    /** The elements iterated from `begin()` to `end()`. */
    function Contents(): seq<T>
      requires Valid()
    {
      source[start..end]
    }

    /** The number of elements iterated. */
    function Size(): (n: nat)
      requires Valid()
      ensures n == |Contents()|
    {
      end - start
    }

    function Empty(): (b: bool)
      requires Valid()
      ensures b <==> Contents() == []
      ensures b <==> start == end
    {
      Size() == 0
    }

    /** `operator[]`: unchecked, so the index must be in the window. */
    function Get(i: nat): (x: T)
      requires Valid() && i < Size()
      ensures x == Contents()[i]
    {
      source[start + i]
    }

    /** `back()`: the last element, for a window that is not empty. */
    function Back(): (x: T)
      requires Valid() && 0 < Size()
      ensures x == Contents()[|Contents()| - 1]
      ensures x == source[end - 1]
    {
      Get(Size() - 1)
    }
  }

  /** A view of a whole vector. */
  function FromVector<T>(v: seq<T>): (c: ConstVectorView<T>)
    ensures c.Valid() && c.start == 0 && c.end == |v|
    ensures c.Contents() == v && c.Size() == |v|
  {
    ConstVectorView(v, 0, |v|)
  }

  /** A view of the positions [s, e) of a vector. */
  function FromRange<T>(v: seq<T>, s: nat, e: nat): (c: ConstVectorView<T>)
    requires s <= e <= |v|
    ensures c.Valid() && c.start == s && c.end == e
    ensures c.Contents() == v[s..e] && c.Size() == e - s
  {
    ConstVectorView(v, s, e)
  }
}
