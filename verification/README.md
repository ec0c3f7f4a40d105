# Img buffer descriptor — a Dafny model

This project models the image buffer descriptor `Img<T, N>` of buddy-mlir
(`frontend/Interfaces/buddy/DIP/ImageContainer.h`). An `Img` is the header that
generated kernels read: `sizes[N]`, `strides[N]`, the element count `size`, the
owning pointer `allocated` (what `delete[]` is applied to) and the access
pointer `aligned`. The model covers every way the header is built or handed
over:

- `create` from a shape, and the shape-only constructor;
- the non-owning view constructor;
- deep copy by constructor and by assignment;
- transfer by move constructor and by move assignment;
- grayscale ingestion from a decoded pixel grid, with optional division by 255;
- `channels()`.

It also covers the shape helpers `product` and `setStrides` that these
operations call.

The model is functional. The files are:

- `memory.dfy` (module `Memory`): the heap. It is a sequence of blocks, and a
  pointer is a block index. `new[]` appends a block, so a fresh buffer is one
  that no earlier pointer can name. A block freed by `delete[]` stays in the
  sequence marked dead. A second `delete[]` of it is therefore an observable
  `DoubleFree`, not undefined behaviour.
- `image_container.dfy` (module `ImageContainer`): descriptors and the
  operations on them. Descriptors live in a `World` keyed by object identity.
  `this == &m` becomes equality of two keys. Each operation maps the world
  before to the world after, and returns `Err` where the C++ would free twice,
  free memory it does not own, read outside a live buffer or fail an `assert`.
  `Valid` is the ownership invariant:
  - every owning descriptor owns a live `new[]` block that is at least `size`
    long and that it also accesses;
  - every access pointer names existing memory;
  - no two descriptors own the same buffer.
- `layout.dfy` (module `Layout`): element count and row-major strides. Each is
  given as a reference definition of what `product` and `setStrides` compute
  (`Product`, `RowMajor`) and as a loop computing the same values
  (`ComputeSize`, `ComputeStrides`). The file also proves the flat-offset
  facts the strides promise.
- `pixels.dfy` (module `Pixels`): the decoded pixel source, reduced to rows,
  columns, a channel count and a sample function `(i, j) -> 0..255`. It holds
  the ingestion loops (`LoadRow`, `LoadGray`).
- `scenario.dfy` (module `Scenario`): the container test's image and values,
  every descriptor the test builds and destroys, and a view over caller
  memory.

Element values are `real`, so normalisation is exact division by 255. Extents
and strides are unbounded naturals.

## Model

| member | source | states |
|---|---|---|
| `Layout.ComputeSize` | frontend/Interfaces/buddy/DIP/ImageContainer.h:169 | the running product over the axes, which `product(sizes)` computes, equals the product of all extents |
| `Layout.RowMajor` | frontend/Interfaces/buddy/DIP/ImageContainer.h:168 | the row-major strides (each stride is the product of the extents after its axis) satisfy the `setStrides` recurrence: the last stride is 1 and `stride[i] == stride[i+1] * sizes[i+1]` |
| `Layout.ComputeStrides` | frontend/Interfaces/buddy/DIP/ImageContainer.h:168 | the loop that fills strides from the innermost axis outwards gives stride `i` = product of the extents after axis `i` |
| `Layout.ProductSnoc` | frontend/Interfaces/buddy/DIP/ImageContainer.h:169 | appending an axis multiplies the element count by its extent (the step of the running product) |
| `Layout.SizeIsLeadingStrideTimesExtent` | frontend/Interfaces/buddy/DIP/ImageContainer.h:168-169 | for rank at least 1, `size == strides[0] * sizes[0]` under the row-major strides |
| `Layout.RowMajorTail` | frontend/Interfaces/buddy/DIP/ImageContainer.h:168 | the strides of a shape without its leading axis are its strides without the leading stride |
| `Layout.OffsetWithinSize` | frontend/Interfaces/buddy/DIP/ImageContainer.h:164-174 | every in-bounds index reaches, through the row-major strides, an element below `size`, i.e. inside the buffer `create` allocates |
| `Layout.OffsetInjective` | frontend/Interfaces/buddy/DIP/ImageContainer.h:164-174 | two distinct in-bounds indices never reach the same element under row-major strides |
| `Layout.Rank2Offset` | frontend/Interfaces/buddy/DIP/ImageContainer.h:233-239 | a rank-2 shape `(rows, cols)` has strides `(cols, 1)`, and element `(i, j)` is at flat index `i * cols + j` |
| `Memory.New` | frontend/Interfaces/buddy/DIP/ImageContainer.h:171 | `new T[n]` yields a live block of exactly `n` cells at an address no existing block has, and leaves every existing block untouched |
| `Memory.Provide` | frontend/Interfaces/buddy/DIP/ImageContainer.h:40-43 | caller-supplied user data is a live block the caller owns, not obtained with `new[]` |
| `Memory.Delete` | frontend/Interfaces/buddy/DIP/ImageContainer.h:146 | `delete[]` succeeds exactly on the null pointer (a no-op) and on live `new[]` blocks, which it marks released and changes nothing else; on a released block it is a `DoubleFree` |
| `Memory.Load` | frontend/Interfaces/buddy/DIP/ImageContainer.h:113-115 | the copy loop's reads of `m.aligned[0..size)` succeed exactly when nothing is read or the block is live and long enough, and yield those cells |
| `Memory.Fill` | frontend/Interfaces/buddy/DIP/ImageContainer.h:193-195 | the element-wise store loop overwrites exactly a prefix of one block with the given values and changes no other block |
| `Memory.NewFilled` | frontend/Interfaces/buddy/DIP/ImageContainer.h:111-115 | allocating and then filling gives a fresh owned block whose contents read back as the values written |
| `Memory.Store` | frontend/Interfaces/buddy/DIP/ImageContainer.h:114 | a single element write `p[k] = v` succeeds exactly inside a live block, sets that cell and changes no other cell or block |
| `ImageContainer.OwnersAtMostOne` | frontend/Interfaces/buddy/DIP/ImageContainer.h:131-133 | in a valid world no buffer has more than one owning descriptor |
| `ImageContainer.Create` | frontend/Interfaces/buddy/DIP/ImageContainer.h:164-174 | the shape is recorded, with `size` its product and row-major strides; a positive size installs a fresh owned buffer of exactly `size` elements with `aligned == allocated`; size 0 leaves the heap and both pointers untouched; no block is freed or altered; other descriptors are unchanged; the invariant is kept |
| `ImageContainer.CreateLeaksOldBuffer` | frontend/Interfaces/buddy/DIP/ImageContainer.h:170-173 | `create` with a positive size on a descriptor that owns a buffer leaves the old buffer live and owned by nobody |
| `ImageContainer.Blank` | frontend/Interfaces/buddy/DIP/ImageContainer.h:88 | `Img()` gives zero extents and strides of the instantiation's rank, size 0 and null pointers; such a header is sound in every heap and its shape describes no elements |
| `ImageContainer.ConstructShape` | frontend/Interfaces/buddy/DIP/ImageContainer.h:94-97 | `Img(sizes)` is a default header followed by `create`; a zero-element shape leaves both pointers null |
| `ImageContainer.ConstructView` | frontend/Interfaces/buddy/DIP/ImageContainer.h:208-216 | `Img(sizes, data)` computes shape, size and strides as `create` does, sets `aligned == data` with `allocated` null, allocates nothing and adds no owner to any buffer |
| `ImageContainer.ViewNeverReleasesItsMemory` | frontend/Interfaces/buddy/DIP/ImageContainer.h:202-216 | building a view and destroying it again gives back exactly the original world: a view never frees what it points at |
| `ImageContainer.Destroy` | frontend/Interfaces/buddy/DIP/ImageContainer.h:146 | releasing a descriptor `delete[]`s its owning pointer; it is a no-op on the heap for a view; in a valid world it never faults and keeps the invariant; every other descriptor that does not read through the released buffer reads the same |
| `ImageContainer.TeardownReleasesEachBufferOnce` | frontend/Interfaces/buddy/DIP/ImageContainer.h:121-124 | from a valid world, destroying any sequence of distinct descriptors never faults and releases every buffer they owned: no double free |
| `ImageContainer.DeepCopy` | frontend/Interfaces/buddy/DIP/ImageContainer.h:186-197 | the deep copy of a header has the same shape, strides and size, a fresh owned buffer with `aligned == allocated`, and the same element values; it fails exactly when the source's elements cannot be read |
| `ImageContainer.CopyConstruct` | frontend/Interfaces/buddy/DIP/ImageContainer.h:104-116 | the copy has the source's sizes, strides and size, a fresh buffer distinct from every existing one, equal elements, and leaves the source and all others unchanged; every other descriptor whose elements could be read reads the same |
| `ImageContainer.CopyIsIndependent` | frontend/Interfaces/buddy/DIP/ImageContainer.h:104-116 | writing an element of a copy stores it in the copy and leaves the original's elements unchanged |
| `ImageContainer.CopyAssign` | frontend/Interfaces/buddy/DIP/ImageContainer.h:181-200 | self-assignment returns the world unchanged; otherwise the target gets the source's metadata and a fresh, element-wise equal buffer, and no block is released |
| `ImageContainer.CopyAssignLeaksOldBuffer` | frontend/Interfaces/buddy/DIP/ImageContainer.h:190-197 | copy-assigning over an owning descriptor leaves its previous buffer live and owned by nobody |
| `ImageContainer.MoveConstruct` | frontend/Interfaces/buddy/DIP/ImageContainer.h:125-134 | the target takes the source's pointers, size, sizes and strides, and the heap is untouched (no element copied); the source keeps its size but has null pointers and default sizes and strides; the moved buffer has exactly one owner, the target |
| `ImageContainer.CopyOfMovedFromFaults` | frontend/Interfaces/buddy/DIP/ImageContainer.h:125-134 | a moved-from descriptor with a positive size cannot be copied: the copy loop reads through its null access pointer |
| `ImageContainer.MoveAssign` | frontend/Interfaces/buddy/DIP/ImageContainer.h:143-158 | self-assignment is a no-op; otherwise the target's owned buffer is released, the target takes the source's header and the source gets the target's old metadata with null pointers; in a valid world it never faults (no double free), keeps the invariant, makes the target the single owner and carries the elements over unless the source reads through the target's own buffer, which :146 releases (`MoveAssignHandsOver`) |
| `ImageContainer.MoveAssignOntoOwnViewDangles` | frontend/Interfaces/buddy/DIP/ImageContainer.h:143-158 | moving a view of the target's own buffer into the target is accepted in a valid world, but leaves the target reading through the buffer :146 released |
| `ImageContainer.MoveConstructKeepsOwnership` | frontend/Interfaces/buddy/DIP/ImageContainer.h:125-134 | the world the move constructor builds keeps the invariant, and the moved buffer's only owner is the new descriptor |
| `ImageContainer.MoveAssignKeepsValid` | frontend/Interfaces/buddy/DIP/ImageContainer.h:143-158 | once the target's buffer is released, installing the source's header in the target and nulling the source keeps the invariant |
| `ImageContainer.MoveAssignHandsOver` | frontend/Interfaces/buddy/DIP/ImageContainer.h:143-158 | after move assignment the target is the only owner of the moved buffer, and reads the source's elements unless it had owned them itself |
| `ImageContainer.CheckChannels` | frontend/Interfaces/buddy/DIP/ImageContainer.h:221-230 | a 1-channel source is accepted only at rank 2 and a 3-channel source only at rank 4, each otherwise aborting; every other channel count is logged, not rejected |
| `ImageContainer.IngestGray` | frontend/Interfaces/buddy/DIP/ImageContainer.h:231-255 | at rank 2 the grayscale path fails only for a 3-channel source; otherwise `sizes == [rows, cols]`, `size == rows * cols`, strides `[cols, 1]`, a fresh, live `new[]` buffer of exactly `rows * cols` elements that it owns and accesses, and the elements are the row-major grayscale samples |
| `ImageContainer.IngestedElementIsPixel` | frontend/Interfaces/buddy/DIP/ImageContainer.h:243-255 | ingested element `i * cols + j` equals pixel `(i, j)`, divided by 255 when `norm` is set, and the descriptor's strides map `(i, j)` to that index |
| `ImageContainer.IngestedChannels` | frontend/Interfaces/buddy/DIP/ImageContainer.h:259-264 | an ingested grayscale image reports 1 channel, which agrees with the source exactly when the source has one channel |
| `ImageContainer.Channels` | frontend/Interfaces/buddy/DIP/ImageContainer.h:259-264 | `channels()` ignores the layout: 1 at rank 2, and above rank 2 whatever extent axis 2 of the shape holds, whether or not that axis holds the channels (see `ChannelsAtRankFour`) |
| `ImageContainer.ChannelsOfShape` | frontend/Interfaces/buddy/DIP/ImageContainer.h:259-264 | above rank 2, a descriptor built from a shape reports that shape's axis-2 extent, the descriptor moved into reports the same, and the moved-from one reports 0 |
| `ImageContainer.ChannelsAtRankFour` | frontend/Interfaces/buddy/DIP/ImageContainer.h:259-264 | at rank 4, where the constructor's assert (:224-225) names NHWC and NCHW, `channels()` reports the width of an NHWC shape and the height of an NCHW shape, equal to the channel extent only when that width is |
| `ImageContainer.SetElement` | frontend/Interfaces/buddy/DIP/ImageContainer.h:250 | an element write `aligned[k] = v` succeeds exactly inside a live block; afterwards the descriptor reads `v` at `k`, its other elements are unchanged, and no other block changes |
| `Pixels.NormalisedSampleRoundTrip` | frontend/Interfaces/buddy/DIP/ImageContainer.h:247-251 | a normalised sample lies in [0, 1] and multiplying it by 255 gives back the 8-bit value; without `norm` the value is stored as is |
| `Pixels.RowsAt` | frontend/Interfaces/buddy/DIP/ImageContainer.h:243-255 | in the rows ingested so far, flat element `i * cols + j` is the sample at `(i, j)` |
| `Pixels.GrayCellsIndexing` | frontend/Interfaces/buddy/DIP/ImageContainer.h:243-255 | the ingested sequence has `rows * cols` elements, and pixel `(i, j)` is at flat index `i * cols + j` |
| `Pixels.LoadRow` | frontend/Interfaces/buddy/DIP/ImageContainer.h:246-253 | the inner loop produces the `cols` samples of row `i` in column order |
| `Pixels.LoadGray` | frontend/Interfaces/buddy/DIP/ImageContainer.h:243-255 | the double loop, rows outermost and columns innermost, produces exactly the row-major grayscale elements `GrayCells`, one row after another (their indexing is `GrayCellsIndexing`) |
| `Scenario.IngestTestImage` | tests/Interface/core/ImageContainerTest.cpp:28-67 | the 4x4 test image gives sizes `(4, 4)`, strides `(4, 1)`, size 16, element 0 = 15, element 3 = 60 and element 15 = 240 |
| `Scenario.Ingested` | tests/Interface/core/ImageContainerTest.cpp:43-54 | `testOpenCVConstructor` is descriptor 0 of a valid world and reads 15 at element 0 |
| `Scenario.FirstCopy` | tests/Interface/core/ImageContainerTest.cpp:74-76 | `testCopyConstructor1` reads 15 at element 0, the original still does, and the world stays valid |
| `Scenario.SecondCopy` | tests/Interface/core/ImageContainerTest.cpp:77-79 | `testCopyConstructor2` reads 15 at element 0, and the earlier descriptors still do |
| `Scenario.ThirdCopy` | tests/Interface/core/ImageContainerTest.cpp:80-82 | `testCopyConstructor3` reads 15 at element 0, and the earlier descriptors still do |
| `Scenario.HeapCopy` | tests/Interface/core/ImageContainerTest.cpp:83-86 | the descriptor created with `new` reads 15 at element 0 and accesses a buffer no other descriptor reads through |
| `Scenario.HeapCopyDeleted` | tests/Interface/core/ImageContainerTest.cpp:87 | deleting that descriptor keeps the world valid and `testCopyConstructor1` reading 15 |
| `Scenario.FirstMove` | tests/Interface/core/ImageContainerTest.cpp:93-95 | `testMoveConstructor1` reads 15 at element 0, and `testCopyConstructor1` is left with null pointers |
| `Scenario.SecondMove` | tests/Interface/core/ImageContainerTest.cpp:96-98 | `testMoveConstructor2` reads 15 at element 0, and `testMoveConstructor1` is left with null pointers |
| `Scenario.EndOfScope` | tests/Interface/core/ImageContainerTest.cpp:43-98 | after the whole sequence, the world is valid and holds exactly the six descriptors alive at the end of scope |
| `Scenario.TeardownOfTestImage` | tests/Interface/core/ImageContainerTest.cpp:101-102 | in a valid world holding exactly those six descriptors, destroying them in reverse order of construction never faults and releases every buffer they own |
| `Scenario.ViewOverCallerMemory` | frontend/Interfaces/buddy/DIP/ImageContainer.h:208-216 | a view over caller memory reads the caller's values, and destroying it leaves that memory live |

## Behaviour of the code worth knowing

- Copy assignment never releases the target's previous buffer
  (`ImageContainer.h:190-197`): it overwrites `allocated` and `aligned` with
  the new buffer. `CopyAssignLeaksOldBuffer` states the leak.
- A moved-from descriptor keeps its `size` (`ImageContainer.h:128`; move
  assignment swaps it at `:148`); only its pointers become null. The move
  constructor also swaps the source's `sizes` and `strides` with those of a
  default header. Copying a moved-from descriptor with a positive size
  therefore reads through a null pointer (`CopyOfMovedFromFaults`).
- A source with a channel count other than 1 or 3 is only reported on
  `std::cerr` (`ImageContainer.h:226-230`), and construction carries on. At
  rank 2 such an image is ingested as grayscale and reports one channel
  (`IngestedChannels`).
- `new T[size]` runs even for size 0 in the copy constructor
  (`ImageContainer.h:111`), in copy assignment (`:192`) and in the
  pixel-source constructor (`:240`).
  `create` allocates only when `size > 0` (`:170`).
- Move assignment releases the target's buffer (`ImageContainer.h:146`)
  before taking the source's access pointer (`:150`). When the source is a
  view of the target's own buffer, the target ends up reading through freed
  memory (`MoveAssignOntoOwnViewDangles`).
- At rank 4 `channels()` returns the width of an NHWC shape or the height of
  an NCHW shape (`ImageContainer.h:263`), never the channel axis of either
  layout that the assert at `:224-225` names (`ChannelsAtRankFour`).

## Left out

- `cv::Mat` and `image.at<uchar>`: the foreign image type is modelled as
  `Pixels.PixelGrid`, which holds rows, columns, a channel count and a sample
  function with values in 0..255.
- The explicit `sizes` override of the pixel-source constructor, its N == 4
  RGB path, and its default path at any rank other than 2. These set no shape
  and load no data, so `IngestGray` requires rank 2.
- Base class: `buddy/Core/Container.h` is not part of this model.
  - Its default constructor is taken to give zero sizes and strides, size 0
    and null pointers (`Blank`).
  - Its destructor is taken to `delete[]` the owning pointer (`Destroy`).
  - Its element access is the plain read and write of `Memory.Load` and
    `Memory.Store`.
  - `product` and `setStrides` are modelled as the product of the extents
    and the row-major stride recurrence.
    `ComputeSize` and `ComputeStrides` are loops reconstructed to compute
    those values, not transcriptions of the base class's code.
- Integer widths: `intptr_t` and `size_t` overflow of the element count, and
  negative extents, are not modelled. Extents, strides and counts are
  unbounded naturals.
- Allocation failure (`std::bad_alloc`) is not modelled; every `new[]`
  succeeds.
- `new[]` leaves elements uninitialised. The model fills them with 0, and no
  contract depends on those values.
- Floating-point rounding of the division by 255: values are exact reals.
- The text written to `std::cerr`. A failed `assert` is modelled as an abort
  (`AssertionFailure`), as in a build without `NDEBUG`.
- The test's own calls (`create(4, 4, 2)`, `_size`, `total()`, `.data`) belong
  to a different container variant. Only the values the test asserts are used;
  `Scenario.Ingested` builds descriptor 0 with the grayscale constructor
  instead.
- `Scenario.TeardownOfTestImage` is stated for any valid world holding exactly
  the six descriptors alive at the end of scope, which `Scenario.EndOfScope`
  provides, rather than for that world by name, to keep the proof small.
- `ImageContainer.Channels` requires rank 2, or a rank above 2 with a shape of
  that rank: at ranks 0 and 1 the code reads `sizes[2]` past the end of the
  shape (`ImageContainer.h:263`), which has no defined result to model.
