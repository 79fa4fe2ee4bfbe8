/** Pure sequence-level meaning of the operations a window performs on its
    backing vector. The imperative classes elsewhere are proved to leave the
    vector equal to these functions of its old value; the lemmas here say
    what that means for the part before the window, the window itself and
    the part after it. */
module WindowSpec {

  /** The vector after `x` is constructed in place at position `p`. */
  function Inserted<T>(v: seq<T>, p: nat, x: T): (r: seq<T>)
    requires p <= |v|
    ensures |r| == |v| + 1 && r[p] == x
    ensures r[..p] == v[..p] && r[p + 1..] == v[p..]
  {
    v[..p] + [x] + v[p..]
  }

  /** The vector after the half-open range [first, last) is removed. */
  function Erased<T>(v: seq<T>, first: nat, last: nat): (r: seq<T>)
    requires first <= last <= |v|
    ensures |r| == |v| - (last - first)
    ensures r[..first] == v[..first] && r[first..] == v[last..]
  {
    v[..first] + v[last..]
  }

  /** `n` copies of `x`: what `n` default constructions append. */
  function Repeat<T>(x: T, n: nat): (r: seq<T>)
    ensures |r| == n
    ensures forall i :: 0 <= i < n ==> r[i] == x
  {
    if n == 0 then [] else Repeat(x, n - 1) + [x]
  }

  /** Cutting the window [s, e) at `p` gives the same slices as cutting the
      whole sequence there. */
  lemma SlicesOfWindow<T>(v: seq<T>, s: nat, p: nat, e: nat)
    requires s <= p <= e <= |v|
    ensures v[s..p] == v[s..e][..p - s] && v[p..e] == v[s..e][p - s..]
  {
  }

  /** Inserting at `p` inside the window [s, e) grows the window by the new
      element at `p` and shifts everything after the window by one. */
  lemma InsertedSplits<T>(v: seq<T>, s: nat, e: nat, p: nat, x: T)
    requires s <= p <= e <= |v|
    ensures Inserted(v, p, x)[..s] == v[..s]
    ensures Inserted(v, p, x)[s..e + 1] == v[s..p] + [x] + v[p..e]
    ensures Inserted(v, p, x)[s..e + 1] == v[s..e][..p - s] + [x] + v[s..e][p - s..]
    ensures Inserted(v, p, x)[e + 1..] == v[e..]
  {
    var r := Inserted(v, p, x);
    assert r[..s] == r[..p][..s];
    assert r[s..e + 1] == r[s..p] + [x] + r[p + 1..e + 1];
    assert r[s..p] == r[..p][s..];
    assert r[p + 1..e + 1] == r[p + 1..][..e - p];
    assert r[e + 1..] == r[p + 1..][e - p..];
    SlicesOfWindow(v, s, p, e);
  }

  /** Removing [first, last) from inside the window [s, e) keeps the part
      before the window, keeps the window's other elements in order, and
      shifts the part after the window down by the number removed. */
  lemma ErasedSplits<T>(v: seq<T>, s: nat, e: nat, first: nat, last: nat)
    requires s <= first <= last <= e <= |v|
    ensures Erased(v, first, last)[..s] == v[..s]
    ensures Erased(v, first, last)[s..e - (last - first)] == v[s..first] + v[last..e]
    ensures Erased(v, first, last)[s..e - (last - first)]
         == v[s..e][..first - s] + v[s..e][last - s..]
    ensures Erased(v, first, last)[e - (last - first)..] == v[e..]
  {
    var r := Erased(v, first, last);
    var k := e - (last - first);
    assert r[..s] == r[..first][..s];
    assert r[s..first] == r[..first][s..] == v[..first][s..] == v[s..first];
    assert r[first..k] == r[first..][..k - first] == v[last..][..k - first] == v[last..e];
    assert r[s..k] == r[s..first] + r[first..k];
    assert r[k..] == r[first..][k - first..];
    SlicesOfWindow(v, s, first, e);
    SlicesOfWindow(v, s, last, e);
  }

  /** Removing [b, c) and then the range [a, b) just before it removes
      [a, c) in one go. */
  lemma ErasedTwice<T>(v: seq<T>, a: nat, b: nat, c: nat)
    requires a <= b <= c <= |v|
    ensures Erased(Erased(v, b, c), a, b) == Erased(v, a, c)
  {
  }

  /** The vector with `k` fillers constructed at position `e`. */
  function Grown<T>(v: seq<T>, e: nat, k: nat, filler: T): (r: seq<T>)
    requires e <= |v|
    ensures |r| == |v| + k
  {
    v[..e] + Repeat(filler, k) + v[e..]
  }

  /** One more filler constructed at the end of the `k` already there. */
  lemma GrowStep<T>(v: seq<T>, e: nat, k: nat, filler: T)
    requires e <= |v|
    ensures Inserted(Grown(v, e, k, filler), e + k, filler) == Grown(v, e, k + 1, filler)
  {
    var w := Grown(v, e, k, filler);
    assert w[..e + k] == v[..e] + Repeat(filler, k);
    assert w[e + k..] == v[e..];
    assert Repeat(filler, k + 1) == Repeat(filler, k) + [filler];
  }

  /** The vector after the corrected `resize(n)` on the window [s, e), with
      `filler` as the default-constructed element: grow by appending fillers
      at the window end, shrink by popping at `end - 1`, that is by removing
      the window's trailing elements. */
  function Resized<T>(v: seq<T>, s: nat, e: nat, n: nat, filler: T): (r: seq<T>)
    requires s <= e <= |v|
    ensures |r| == |v| - (e - s) + n
    ensures r[..s] == v[..s]
  {
    if e - s <= n then Grown(v, e, n - (e - s), filler)
    else v[..s + n] + v[e..]
  }

  /** What the corrected resize promises: the window has exactly `n` elements, its first
      min(n, old size) elements are the old ones, the rest are fillers, and
      nothing outside the window changes. */
  lemma ResizedSplits<T>(v: seq<T>, s: nat, e: nat, n: nat, filler: T)
    requires s <= e <= |v|
    ensures |Resized(v, s, e, n, filler)| == |v| - (e - s) + n
    ensures Resized(v, s, e, n, filler)[..s] == v[..s]
    ensures Resized(v, s, e, n, filler)[s + n..] == v[e..]
    ensures n <= e - s ==> Resized(v, s, e, n, filler)[s..s + n] == v[s..s + n]
    ensures e - s <= n ==>
      Resized(v, s, e, n, filler)[s..s + n] == v[s..e] + Repeat(filler, n - (e - s))
  {
  }

  /** The vector after `k` calls of the intended pop_back on a window ending
      at `e`: each call removes the element at the current end minus one. */
  function Pops<T>(v: seq<T>, e: nat, k: nat): (r: seq<T>)
    requires k <= e <= |v|
    ensures |r| == |v| - k && r[..e - k] == v[..e - k]
    decreases k
  {
    if k == 0 then v else Pops(Erased(v, e - 1, e), e - 1, k - 1)
  }

  /** The vector after `k` calls of pop_back as written on a window ending at
      `e`: each call removes the element AT the current end, one past the
      window's last element. */
  function PopsAsWritten<T>(v: seq<T>, e: nat, k: nat): (r: seq<T>)
    requires k <= e < |v|
    ensures |r| == |v| - k && r[..e - k + 1] == v[..e - k + 1]
    decreases k
  {
    if k == 0 then v else PopsAsWritten(Erased(v, e, e + 1), e - 1, k - 1)
  }

  /** `k` intended pops remove exactly the `k` elements before `e`. */
  lemma {:induction false} PopsRemovesTail<T>(v: seq<T>, e: nat, k: nat)
    requires k <= e <= |v|
    ensures Pops(v, e, k) == Erased(v, e - k, e)
    decreases k
  {
    if k == 0 {
      assert e - k == e;
      assert v[..e] + v[e..] == v;
    } else {
      var w, e', k', a := Erased(v, e - 1, e), e - 1, k - 1, e - k;
      assert Pops(v, e, k) == Pops(w, e', k');
      PopsRemovesTail(w, e', k');
      assert e' - k' == a;
      assert Pops(v, e, k) == Erased(w, a, e');
      ErasedTwice(v, a, e - 1, e);
    }
  }

  /** The two loops of resize together: after growing the window [s, e)
      to end at `e1` and then shrinking it to end at `end`, the window holds
      `n` elements and the vector is the corrected `Resized`. */
  lemma ResizeLoopsCompose<T>(v: seq<T>, s: nat, e: nat, n: nat, filler: T,
                              e1: nat, end: nat, w: seq<T>)
    requires s <= e <= |v| && e <= e1
    requires e1 == e || e1 <= s + n
    requires e1 - s >= n
    requires s + n <= end <= e1 && end - s <= n
    requires w == Erased(Grown(v, e, e1 - e, filler), end, e1)
    ensures end == s + n
    ensures w == Resized(v, s, e, n, filler)
  {
    var v1 := Grown(v, e, e1 - e, filler);
    if e - s <= n {
      assert end == e1 && w == v1[..e1] + v1[e1..] == v1;
    } else {
      assert Repeat(filler, 0) == [];
      assert v1 == v[..e] + [] + v[e..] == v;
    }
  }

  /** Shrinking by the corrected resize is the same as popping at `end - 1`
      once for each element too many. */
  lemma ResizedIsPops<T>(v: seq<T>, s: nat, e: nat, n: nat, filler: T)
    requires s <= e <= |v| && n < e - s
    ensures Resized(v, s, e, n, filler) == Pops(v, e, e - s - n)
  {
    PopsRemovesTail(v, e, e - s - n);
    assert e - (e - s - n) == s + n;
    assert Resized(v, s, e, n, filler) == v[..s + n] + v[e..] == Erased(v, s + n, e);
  }

  /** `k` pops as written remove the `k` elements ending AT `e` instead:
      the window's old last elements v[e-k+1..e] and the element v[e] just
      past the window. */
  lemma {:induction false} PopsAsWrittenRemoves<T>(v: seq<T>, e: nat, k: nat)
    requires k <= e < |v|
    ensures PopsAsWritten(v, e, k) == Erased(v, e - k + 1, e + 1)
    decreases k
  {
    if k == 0 {
      assert e - k + 1 == e + 1;
      assert v[..e + 1] + v[e + 1..] == v;
    } else {
      var w, e', k', a := Erased(v, e, e + 1), e - 1, k - 1, e - k + 1;
      assert PopsAsWritten(v, e, k) == PopsAsWritten(w, e', k');
      PopsAsWrittenRemoves(w, e', k');
      assert e' - k' + 1 == a && e' + 1 == e;
      assert PopsAsWritten(v, e, k) == Erased(w, a, e);
      ErasedTwice(v, a, e, e + 1);
    }
  }

  /** Shrinking by `k` pops as written leaves the same window contents
      [s, e - k) as the intended pops, but the vector differs: the element
      v[e] after the window is lost and the old window element v[e - k]
      survives just past the new window end. */
  lemma PopsAsWrittenDiffers<T>(v: seq<T>, s: nat, e: nat, k: nat)
    requires s + k <= e < |v| && 0 < k
    ensures Pops(v, e, k)[s..e - k] == PopsAsWritten(v, e, k)[s..e - k] == v[s..e - k]
    ensures Pops(v, e, k)[e - k] == v[e]
    ensures PopsAsWritten(v, e, k)[e - k] == v[e - k]
  {
  }

  /** The concrete case: a window [3, 6) over ten elements 0..9. The intended
      pop_back removes 5, the window's last element; as written it removes 6,
      which lies outside the window. */
  lemma PopBackDefectExample()
    ensures Pops([0, 1, 2, 3, 4, 5, 6, 7, 8, 9], 6, 1) == [0, 1, 2, 3, 4, 6, 7, 8, 9]
    ensures PopsAsWritten([0, 1, 2, 3, 4, 5, 6, 7, 8, 9], 6, 1) == [0, 1, 2, 3, 4, 5, 7, 8, 9]
  {
  }
}
