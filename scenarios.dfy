/** Worked scenarios for the mutable window, each checked statically against
    the methods' contracts. */
module Scenarios {
  import opened StdVector
  import opened VectorViews

  /** A whole-vector window gains 60 at its end and then loses it again. */
  method AppendThenPop()
  {
    var v := new Vector([10, 20, 30, 40, 50]);
    var w := new VectorView(v);
    w.EmplaceBack(60);
    assert w.Contents() == [10, 20, 30, 40, 50, 60] && w.Size() == 6;
    w.PopBack();
    assert w.Contents() == [10, 20, 30, 40, 50] && w.Size() == 5;
    assert v.elems == [10, 20, 30, 40, 50];
  }

  /** Erasing the middle element of the window [1, 4) over 1..5. */
  method EraseInsideSubWindow()
  {
    var v := new Vector([1, 2, 3, 4, 5]);
    var w := new VectorView.Range(v, 1, 4);
    assert w.Contents() == [2, 3, 4];
    var it := w.Erase(w.start + 1);
    assert w.Contents() == [2, 4] && w.Size() == 2;
    assert v.elems == [1, 2, 4, 5];
  }

  /** A snapshot taken of the window [2, 5) keeps its three elements after
      the window grows, in this model, which captures the sequence. */
  method SnapshotIsDetached()
  {
    var v := new Vector([0, 1, 2, 3, 4, 5, 6]);
    var w := new VectorView.Range(v, 2, 5);
    var c := w.Snapshot();
    w.EmplaceBack(9);
    assert c.Size() == 3 && c.Contents() == [2, 3, 4];
    assert w.Contents() == [2, 3, 4, 9];
  }

  /** Resizing the window [1, 3) over 1..4 up to four elements and back
      down to one. */
  method ResizeBothWays()
  {
    var v := new Vector([1, 2, 3, 4]);
    var w := new VectorView.Range(v, 1, 3);
    w.Resize(4, 0);
    assert v.elems == [1, 2, 3, 0, 0, 4];
    w.Resize(1, 0);
    assert v.elems == [1, 2, 4];
    assert w.Contents() == [2];
  }
}
