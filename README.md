# vector_view in Dafny

A model of `vector_view.h`, a header with two window types over a
`std::vector`:

- `vector_view` is a live window `[start, end)` bound to one vector. Its
  mutators (`emplace_back`, `emplace`, both `erase` overloads, `pop_back`,
  `reserve`, `resize`) forward to the vector. `emplace`, both `erase`
  overloads and `reserve` then rebuild both bounds from a size and an offset
  saved before the call. `emplace_back` saves only the size: it rebuilds
  `end` from the position the vector returns, then `start` from `end`.
  `pop_back` and `resize` rebuild nothing themselves; they go through
  `erase`, `emplace_back` and `reserve`. This keeps the window correct when
  the vector moves its storage or shifts its elements.
  Its readers (`size`, `empty`, `operator[]`, `back`, `begin`/`end`) only
  read.
- `const_vector_view` is a detached pair of positions with the same readers
  and no mutators.

Files:

- `window_spec.dfy` (module `WindowSpec`) holds the pure meaning of the
  vector operations: `Inserted`, `Erased`, `Repeat`, `Resized`, and the
  repeated pop functions `Pops` and `PopsAsWritten`. It also holds the
  lemmas that split the vector into the part before the window, the window
  and the part after it.
- `std_vector.dfy` (module `StdVector`) holds class `Vector`. It is the part
  of `std::vector`'s contract the window uses. `elems` is a `seq` that the
  methods reassign, and `cap` is a ghost capacity. `Emplace`, `Erase` and
  `EraseRange` return the index of the inserted element, or of the element
  after the removed range, just as the iterators they model do.
- `vector_view.dfy` (module `VectorViews`) holds class `VectorView`. The
  bounds are two `nat` offsets from the vector's first element. Each mutator
  copies the source's recomputation formulas. Its `ensures` states the new
  vector as a `WindowSpec` function of the old one, states that `start` is
  unchanged and gives the new `end`.
- `const_vector_view.dfy` (module `ConstVectorViews`) holds the datatype
  `ConstVectorView`. It is the captured sequence plus two positions.
- `scenarios.dfy` (module `Scenarios`) holds worked examples. The verifier
  checks them against the contracts.

Iteration from `begin()` to `end()` is the slice `Contents()`. A relocation
of storage cannot be seen when positions are offsets, so `Reserve` changes
only the ghost capacity.

## Model

| member | source | states |
|---|---|---|
| WindowSpec.Inserted | vector_view.h:84 | `emplace` on the vector makes it one longer, puts `x` at `p`, keeps everything before `p` and shifts everything from `p` on by one |
| WindowSpec.Erased | vector_view.h:104 | erasing `[first, last)` shortens the vector by `last - first`, keeps the prefix and moves the elements from `last` on down to `first` |
| WindowSpec.Repeat | vector_view.h:33-35 | `n` default constructions give exactly `n` elements, all equal to the filler |
| WindowSpec.InsertedSplits | vector_view.h:80-88 | inserting at `p` inside `[s, e]` leaves the prefix before `s` alone, makes the new window the old one with `x` at `p`, and shifts the suffix after the window by one |
| WindowSpec.ErasedSplits | vector_view.h:100-108 | erasing `[first, last)` inside the window leaves the prefix alone, keeps the other window elements in order, and shifts the suffix down by `last - first` |
| WindowSpec.ResizedSplits | vector_view.h:31-39 | for the corrected resize (pops at `end - 1`): the window holds exactly `n` elements; growing keeps the old window and appends fillers, shrinking keeps the first `n`; nothing outside the window changes |
| WindowSpec.Grown | vector_view.h:33-35 | the growing loop of resize, `k` fillers constructed at the window end `e`, makes the vector `k` longer |
| WindowSpec.ResizeLoopsCompose | vector_view.h:33-38 | after the growing loop and the corrected shrinking loop, the window ends at `start + n` and the vector is `Resized` of the old one |
| WindowSpec.Resized | vector_view.h:31-39 | the vector after the corrected resize (pops at `end - 1`): its length changes by `n - size()` and the part before the window is kept |
| WindowSpec.ResizedIsPops | vector_view.h:36-38 | shrinking by the corrected resize equals `size() - n` intended pops at `end - 1` |
| WindowSpec.Pops | vector_view.h:36-38 | `k` intended pops shorten the vector by `k` and keep everything before `e - k` |
| WindowSpec.PopsAsWritten | vector_view.h:110-112 | `k` pops as written also shorten by `k` but keep everything up to and including index `e - k` |
| WindowSpec.PopsRemovesTail | vector_view.h:36-38 | `k` intended pops remove exactly the window's last `k` elements |
| WindowSpec.PopsAsWrittenRemoves | vector_view.h:110-112 | `k` pops as written remove the elements from `e - k + 1` up to and including `e`, so `v[e]` outside the window is lost |
| WindowSpec.PopsAsWrittenDiffers | vector_view.h:110-112 | both pop versions leave the same window contents, but only the intended one keeps `v[e]`; as written, the old window element `v[e - k]` is left just past the window |
| WindowSpec.PopBackDefectExample | vector_view.h:110-112 | window `[3, 6)` over 0..9: the intended pop removes 5, the code as written removes 6 |
| StdVector.Vector.Emplace | vector_view.h:84 | the vector call used by `emplace` (and by `emplace_back` at line 16): the vector becomes `Inserted(v, pos, x)` and the returned position is `pos`, holding `x` |
| StdVector.Vector.Erase | vector_view.h:93 | the vector call used by `erase(it)`: the vector loses `v[pos]` and the returned position is `pos`, where the following element now sits |
| StdVector.Vector.EraseRange | vector_view.h:104 | the vector call used by `erase(first, last)`: the vector becomes `v[..first] + v[last..]` and the returned position is `first` |
| StdVector.Vector.Reserve | vector_view.h:25 | the vector call used by `reserve`: the elements are unchanged and the capacity is at least `n` afterwards |
| ConstVectorViews.ConstVectorView.Size | vector_view.h:132-134 | the size is the number of elements iterated from `begin()` to `end()` |
| ConstVectorViews.ConstVectorView.Empty | vector_view.h:135-137 | empty exactly when nothing is iterated, that is when `start == end` |
| ConstVectorViews.ConstVectorView.Get | vector_view.h:140-142 | element `i` of the window, for `i < size()` |
| ConstVectorViews.ConstVectorView.Back | vector_view.h:144-146 | the window's last element, which is `source[end - 1]`, for a non-empty window |
| ConstVectorViews.FromVector | vector_view.h:129 | a view of the whole vector: positions `0` and `|v|`, iterating all of `v` |
| ConstVectorViews.FromRange | vector_view.h:128 | a view of two positions iterates exactly `v[s..e]` |
| VectorViews.VectorView.constructor | vector_view.h:10 | a view of the whole vector: `start = 0`, `end = |v|`, and the window invariant holds |
| VectorViews.VectorView.Range | vector_view.h:11 | a view of `[s, e)` iterates `v[s..e]` |
| VectorViews.VectorView.Size | vector_view.h:41-43 | the size is the number of elements iterated |
| VectorViews.VectorView.Empty | vector_view.h:44-46 | empty exactly when nothing is iterated, that is when `start == end` |
| VectorViews.VectorView.Get | vector_view.h:48-55 | element `i` of the window, for `i < size()` |
| VectorViews.VectorView.Back | vector_view.h:57-63 | the window's last element, `v[end - 1]`, for a non-empty window |
| VectorViews.VectorView.Snapshot | vector_view.h:66-71 | a read-only view built from `begin()`/`end()` has the same bounds, size and contents as the window |
| VectorViews.VectorView.EmplaceBack | vector_view.h:14-19 | inserts `x` at `end`; `start` is kept, `end` grows by one, the contents gain `x` as `back()`, the prefix is untouched and the suffix is shifted by one; the window invariant is kept |
| VectorViews.VectorView.Reserve | vector_view.h:21-29 | vector contents and both bounds are unchanged; the capacity never shrinks; when `n > size()` it is at least `n - size() + |v|`, otherwise it is unchanged too |
| VectorViews.VectorView.Resize | vector_view.h:31-39 | afterwards `size() == n`, `start` is kept, and the vector equals `Resized` of the old vector; both loops terminate on `|n - size()|` |
| VectorViews.VectorView.Emplace | vector_view.h:80-88 | the vector becomes `v[..p] + [x] + v[p..]`; the returned position holds `x`; `start` is kept, `end` grows by one, and the contents gain `x` at offset `p - start` |
| VectorViews.VectorView.Erase | vector_view.h:90-97 | the vector loses `v[p]`; the returned position is `p`; `start` is kept, `end` drops by one, and the contents lose exactly that element |
| VectorViews.VectorView.EraseRange | vector_view.h:100-108 | the vector becomes `v[..first] + v[last..]`; the returned position is `first`; `start` is kept, and `end` and the size drop by `last - first` |
| VectorViews.VectorView.PopBack | vector_view.h:110-112 | the intended behaviour: `v[end - 1]` is removed, `start` is kept, `end` drops by one, and the contents lose their last element |
| VectorViews.VectorView.PopBackAsWritten | vector_view.h:110-112 | the code as written, for `end < |v|`: `v[end]`, which is outside the window, is removed; the window still shrinks by one and the old last window element is left just past it |

## Left out

- Relocation of storage and iterator invalidation are not modelled. Positions are integer offsets, so a relocation cannot be seen. Capacity is a ghost counter used only to state `reserve`.
- `std::vector` itself is not modelled. `StdVector.Vector` states the part of its contract the window uses. When `Emplace` makes the vector longer than its capacity, it sets the capacity to twice the new length; the real growth policy is the library's.
- The `Alloc` parameter, perfect forwarding and variadic arguments are not modelled. `emplace` and `emplace_back` take one `T`. The default-constructed element of `resize` is the parameter `filler`.
- Writing through the `T&` that the non-const `operator[]` and `back()` return is not modelled. `Get` and `Back` only read.
- `begin()` and `end()` are modelled only as the fields `start` and `end`, together with the slice `Contents()`.
- `size_t` width is not modelled. Indices are unbounded. The wrap-around of `size() - 1` on an empty window (in `back`, `erase` and `pop_back`) is undefined behaviour in the source, and the preconditions exclude it.
- `empty()` is declared to return `size_t`. Here it returns a `bool`.
- `const_vector_view` going stale after its vector changes is not modelled. It keeps no link to the vector, so it is modelled as a captured sequence that nothing can change. In the real type its iterators dangle once the vector relocates, for example when `emplace_back` outgrows the capacity.
- `VectorViews.VectorView.Resize` uses the corrected `PopBack`. The shrinking loop as written calls the defective `pop_back`, and that loop is described by `WindowSpec.PopsAsWritten` and the lemmas about it. There is no separate imperative version of it.
- Concurrency is not modelled. The header has no synchronisation.
- The header has no `insert` overloads and no `const_vector_view` constructor that takes a `vector_view`. `Snapshot` is the `(begin(), end())` constructor applied to the window's own positions.

## Findings

| source | as written | input that shows it | evidently intended | confidence | as-written member | corrected member |
|---|---|---|---|---|---|---|
| vector_view.h:110-112 | `pop_back` calls `erase(itEnd)`. That removes the element one past the window's last element, and it is undefined when the window reaches the vector's end. `resize` inherits this when it shrinks. | vector 0..9, window `[3, 6)`: the code removes 6, which is outside the window. The window becomes `[3, 5)` and the vector keeps 5. | erase at `end - 1`, which removes 5 and leaves `[3, 5)` | high (proved; not executed) | VectorViews.VectorView.PopBackAsWritten, WindowSpec.PopBackDefectExample | VectorViews.VectorView.PopBack |
