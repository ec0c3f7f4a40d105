/**
  The image buffer descriptor `Img<T, N>` with `T` = real and `N` = `World.rank`.

  A descriptor is the header the generated kernels read: the extents along
  each axis, the strides, the element count, the owning pointer `allocated`
  (what `delete[]` is applied to) and the access pointer `aligned` (what
  element access goes through). Descriptors live in a `World` under an
  object identity, so that `this == &m` is a comparison of identities and an
  operation on one descriptor can be seen to leave every other one alone.

  Every operation is a function from the world before to the world after;
  where the C++ code would free twice, free foreign memory, read outside a
  live buffer or fail an `assert`, the result is an `Err` naming that fault.
 */
module ImageContainer {
  import opened Layout
  import opened Memory
  import opened Pixels

  datatype Img = Img(sizes: seq<nat>, strides: seq<nat>, size: nat, allocatedPtr: Ptr, alignedPtr: Ptr)

  datatype World = World(rank: nat, heap: Heap, imgs: map<nat, Img>)

  /**
    A default-constructed descriptor: zero extents and strides, no elements,
    no buffer. It is sound in every heap, and a shape with a zero extent
    describes no elements.
   */
  function Blank(rank: nat): (r: Img)
    ensures |r.sizes| == rank && |r.strides| == rank
    ensures forall k :: 0 <= k < rank ==> r.sizes[k] == 0 && r.strides[k] == 0
    ensures r.size == 0 && r.allocatedPtr.Null? && r.alignedPtr.Null?
    ensures rank > 0 ==> Product(r.sizes) == 0
    ensures forall h: Heap :: Sound(h, r, rank)
  {
    Img(seq(rank, _ => 0), seq(rank, _ => 0), 0, Null, Null)
  }

  /**
    One descriptor is sound in a heap: its shape has the instantiation's rank,
    its access pointer names memory that exists, and if it owns a buffer then
    that buffer is a live `new[]` block holding at least `size` elements and is
    also the block it accesses.
   */
  predicate Sound(h: Heap, x: Img, rank: nat)
  {
    && |x.sizes| == rank
    && |x.strides| == rank
    && (x.alignedPtr.Null? || Exists(h, x.alignedPtr))
    && (x.allocatedPtr.Addr? ==>
          && Owned(h, x.allocatedPtr)
          && x.alignedPtr == x.allocatedPtr
          && x.size <= |h.blocks[x.allocatedPtr.a].cells|)
  }

  /** Two distinct descriptors never own the same buffer. */
  predicate SingleOwnership(imgs: map<nat, Img>)
  {
    forall i, j :: i in imgs && j in imgs && i != j && imgs[i].allocatedPtr.Addr? ==>
      imgs[i].allocatedPtr != imgs[j].allocatedPtr
  }

  /** The ownership invariant every operation keeps. */
  predicate Valid(w: World)
  {
    && (forall id :: id in w.imgs ==> Sound(w.heap, w.imgs[id], w.rank))
    && SingleOwnership(w.imgs)
  }

  /** The descriptors responsible for releasing the buffer at `p`. */
  function Owners(w: World, p: Ptr): (r: set<nat>)
  {
    set id | id in w.imgs && w.imgs[id].allocatedPtr == p
  }

  /** A live `new[]` block that no descriptor owns: nothing will ever release it. */
  predicate Leaked(w: World, p: Ptr)
  {
    Owned(w.heap, p) && Owners(w, p) == {}
  }

  /** The element values a descriptor exposes: the first `size` cells at its access pointer. */
  function Elements(w: World, id: nat): (r: Result<seq<real>>)
    requires id in w.imgs
  {
    Load(w.heap, w.imgs[id].alignedPtr, w.imgs[id].size)
  }

  /** In a valid world every buffer has at most one owner. */
  lemma OwnersAtMostOne(w: World, p: Ptr)
    requires Valid(w) && p.Addr?
    ensures |Owners(w, p)| <= 1
  {
    var o := Owners(w, p);
    if o != {} {
      var x :| x in o;
      assert o == {x};
    }
  }

  /** Installing a freshly allocated buffer as the owned buffer of descriptor `id` keeps the invariant. */
  lemma InstallFreshKeepsValid(w: World, h: Heap, id: nat, x: Img)
    requires Valid(w)
    requires forall j :: j in w.imgs && j != id ==> Sound(h, w.imgs[j], w.rank)
    requires Extends(w.heap, h)
    requires Sound(h, x, w.rank)
    requires x.allocatedPtr.Addr? ==> IsFresh(w.heap, x.allocatedPtr)
    requires x.allocatedPtr.Null? ==> id in w.imgs && (w.imgs[id].allocatedPtr.Null? || x.allocatedPtr == w.imgs[id].allocatedPtr)
    ensures Valid(World(w.rank, h, w.imgs[id := x]))
  {
    var imgs := w.imgs[id := x];
    forall i, j | i in imgs && j in imgs && i != j && imgs[i].allocatedPtr.Addr?
      ensures imgs[i].allocatedPtr != imgs[j].allocatedPtr
    {
      if i == id {
        assert Sound(w.heap, w.imgs[j], w.rank);
      } else if j == id {
        assert Sound(w.heap, w.imgs[i], w.rank);
      }
    }
  }

  /**
    `create(sizes)`: records the shape, its row-major strides and its element
    count; when that count is positive, allocates a new buffer of exactly that
    many elements and both owns and accesses it. When the count is zero the
    pointers are left as they were. A previously owned buffer is not released.
   */
  function Create(w: World, id: nat, s: seq<nat>): (r: World)
    requires id in w.imgs && |s| == w.rank
    ensures r.rank == w.rank && r.imgs.Keys == w.imgs.Keys
    ensures forall j :: j in w.imgs && j != id ==> r.imgs[j] == w.imgs[j]
    ensures r.imgs[id].sizes == s && r.imgs[id].size == Product(s) && r.imgs[id].strides == RowMajor(s)
    ensures Product(s) > 0 ==>
      && IsFresh(w.heap, r.imgs[id].allocatedPtr)
      && Owned(r.heap, r.imgs[id].allocatedPtr)
      && |r.heap.blocks[r.imgs[id].allocatedPtr.a].cells| == Product(s)
      && r.imgs[id].alignedPtr == r.imgs[id].allocatedPtr
    ensures Product(s) == 0 ==>
      && r.heap == w.heap
      && r.imgs[id].allocatedPtr == w.imgs[id].allocatedPtr
      && r.imgs[id].alignedPtr == w.imgs[id].alignedPtr
    ensures Extends(w.heap, r.heap)
    ensures Valid(w) ==> Valid(r)
  {
    var x := w.imgs[id];
    var size := Product(s);
    if size > 0 then
      var (h, p) := New(w.heap, size);
      var y := Img(s, RowMajor(s), size, p, p);
      var r := World(w.rank, h, w.imgs[id := y]);
      assert Valid(w) ==> forall j :: j in w.imgs && j != id ==> Sound(h, w.imgs[j], w.rank);
      assert Valid(w) ==> Valid(r) by {
        if Valid(w) {
          InstallFreshKeepsValid(w, h, id, y);
        }
      }
      r
    else
      var y := x.(sizes := s, strides := RowMajor(s), size := 0);
      var r := World(w.rank, w.heap, w.imgs[id := y]);
      assert Valid(w) ==> Valid(r) by {
        if Valid(w) {
          assert Sound(w.heap, x, w.rank);
          assert Sound(w.heap, y, w.rank);
        }
      }
      r
  }

  /** `Img(sizes)`: a default-constructed descriptor followed by `create(sizes)`. */
  function ConstructShape(w: World, id: nat, s: seq<nat>): (r: World)
    requires id !in w.imgs && |s| == w.rank
    ensures r.rank == w.rank && r.imgs.Keys == w.imgs.Keys + {id}
    ensures forall j :: j in w.imgs ==> r.imgs[j] == w.imgs[j]
    ensures r.imgs[id].sizes == s && r.imgs[id].size == Product(s) && r.imgs[id].strides == RowMajor(s)
    ensures Product(s) > 0 ==>
      && IsFresh(w.heap, r.imgs[id].allocatedPtr)
      && Owned(r.heap, r.imgs[id].allocatedPtr)
      && |r.heap.blocks[r.imgs[id].allocatedPtr.a].cells| == Product(s)
      && r.imgs[id].alignedPtr == r.imgs[id].allocatedPtr
    ensures Product(s) == 0 ==> r.heap == w.heap && r.imgs[id].allocatedPtr.Null? && r.imgs[id].alignedPtr.Null?
    ensures Extends(w.heap, r.heap)
    ensures Valid(w) ==> Valid(r)
  {
    var w0 := World(w.rank, w.heap, w.imgs[id := Blank(w.rank)]);
    assert Valid(w) ==> Valid(w0) by {
      if Valid(w) {
        assert Sound(w.heap, Blank(w.rank), w.rank);
      }
    }
    Create(w0, id, s)
  }

  /**
    `Img(sizes, data)`: a header over memory the caller supplies. Shape,
    strides and element count are computed as `create` computes them; the
    access pointer is `data` and the owning pointer stays null, so nothing is
    allocated and the descriptor never releases `data`.
   */
  function ConstructView(w: World, id: nat, s: seq<nat>, data: Ptr): (r: World)
    requires id !in w.imgs && |s| == w.rank
    ensures r.rank == w.rank && r.heap == w.heap && r.imgs.Keys == w.imgs.Keys + {id}
    ensures forall j :: j in w.imgs ==> r.imgs[j] == w.imgs[j]
    ensures r.imgs[id].sizes == s && r.imgs[id].size == Product(s) && r.imgs[id].strides == RowMajor(s)
    ensures r.imgs[id].alignedPtr == data && r.imgs[id].allocatedPtr.Null?
    ensures forall p: Ptr :: p.Addr? ==> Owners(r, p) == Owners(w, p)
    ensures Valid(w) && (data.Null? || Exists(w.heap, data)) ==> Valid(r)
  {
    var r := World(w.rank, w.heap, w.imgs[id := Img(s, RowMajor(s), Product(s), Null, data)]);
    assert forall p: Ptr :: p.Addr? ==> Owners(r, p) == Owners(w, p) by {
      forall p: Ptr | p.Addr?
        ensures Owners(r, p) == Owners(w, p)
      {
        assert forall j :: j in Owners(r, p) ==> j in Owners(w, p);
      }
    }
    r
  }

  /**
    The new header and heap a deep copy of `m` produces: a fresh buffer of
    `m.size` elements, filled from `m`'s access pointer, owned and accessed by
    the copy, with `m`'s shape, strides and element count. `Err` when the
    copy loop would read outside a live buffer.
   */
  function DeepCopy(h: Heap, m: Img): (r: Result<(Heap, Img)>)
    ensures r.Ok? <==> Load(h, m.alignedPtr, m.size).Ok?
    ensures r.Ok? ==>
      var (h', x) := r.value;
      && x.sizes == m.sizes && x.strides == m.strides && x.size == m.size
      && IsFresh(h, x.allocatedPtr) && Owned(h', x.allocatedPtr)
      && x.alignedPtr == x.allocatedPtr
      && |h'.blocks[x.allocatedPtr.a].cells| == m.size
      && Extends(h, h')
      && Load(h', x.alignedPtr, x.size) == Load(h, m.alignedPtr, m.size)
  {
    match Load(h, m.alignedPtr, m.size)
    case Err(f) => Err(f)
    case Ok(cells) =>
      var (h', p) := NewFilled(h, cells);
      Ok((h', Img(m.sizes, m.strides, m.size, p, p)))
  }

  /**
    The copy constructor `Img(const Img &m)`: same shape, strides and element
    count as `m`, a buffer of its own that no other descriptor can alias, and
    element-wise the same values; `m` and every other descriptor are left
    as they were and no buffer is released.
   */
  function CopyConstruct(w: World, id: nat, src: nat): (r: Result<World>)
    requires id !in w.imgs && src in w.imgs
    ensures r.Ok? <==> Elements(w, src).Ok?
    ensures r.Ok? ==>
      && r.value.rank == w.rank
      && r.value.imgs.Keys == w.imgs.Keys + {id}
      && (forall j :: j in w.imgs ==> r.value.imgs[j] == w.imgs[j])
      && r.value.imgs[id].sizes == w.imgs[src].sizes
      && r.value.imgs[id].strides == w.imgs[src].strides
      && r.value.imgs[id].size == w.imgs[src].size
      && IsFresh(w.heap, r.value.imgs[id].allocatedPtr)
      && r.value.imgs[id].alignedPtr == r.value.imgs[id].allocatedPtr
      && Extends(w.heap, r.value.heap)
      && Elements(r.value, id) == Elements(w, src)
      && Elements(r.value, src) == Elements(w, src)
      && (forall j :: j in w.imgs && Elements(w, j).Ok? ==> Elements(r.value, j) == Elements(w, j))
    ensures Valid(w) && r.Ok? ==> Valid(r.value)
  {
    match DeepCopy(w.heap, w.imgs[src])
    case Err(f) => Err(f)
    case Ok((h, x)) =>
      var r := World(w.rank, h, w.imgs[id := x]);
      assert Valid(w) ==> Valid(r) by {
        if Valid(w) {
          assert Sound(w.heap, w.imgs[src], w.rank);
          assert forall j :: j in w.imgs ==> Sound(h, w.imgs[j], w.rank) by {
            forall j | j in w.imgs
              ensures Sound(h, w.imgs[j], w.rank)
            {
              assert Sound(w.heap, w.imgs[j], w.rank);
            }
          }
          InstallFreshKeepsValid(w, h, id, x);
        }
      }
      assert Load(h, w.imgs[src].alignedPtr, w.imgs[src].size) == Load(w.heap, w.imgs[src].alignedPtr, w.imgs[src].size);
      assert forall j :: j in w.imgs && Elements(w, j).Ok? ==> Elements(r, j) == Elements(w, j) by {
        forall j | j in w.imgs && Elements(w, j).Ok?
          ensures Elements(r, j) == Elements(w, j)
        {
          LoadExtends(w.heap, h, w.imgs[j].alignedPtr, w.imgs[j].size);
        }
      }
      Ok(r)
  }

  /**
    Copy assignment `operator=(const Img &m)`: a no-op when assigning a
    descriptor to itself; otherwise the same header and fresh, element-wise
    equal buffer as the copy constructor, installed over the target. The
    buffer the target owned before is not released (see
    `CopyAssignLeaksOldBuffer`).
   */
  function CopyAssign(w: World, dst: nat, src: nat): (r: Result<World>)
    requires dst in w.imgs && src in w.imgs
    ensures dst == src ==> r == Ok(w)
    ensures dst != src ==> (r.Ok? <==> Elements(w, src).Ok?)
    ensures dst != src && r.Ok? ==>
      && r.value.rank == w.rank
      && r.value.imgs.Keys == w.imgs.Keys
      && (forall j :: j in w.imgs && j != dst ==> r.value.imgs[j] == w.imgs[j])
      && r.value.imgs[dst].sizes == w.imgs[src].sizes
      && r.value.imgs[dst].strides == w.imgs[src].strides
      && r.value.imgs[dst].size == w.imgs[src].size
      && IsFresh(w.heap, r.value.imgs[dst].allocatedPtr)
      && r.value.imgs[dst].alignedPtr == r.value.imgs[dst].allocatedPtr
      && Extends(w.heap, r.value.heap)
      && Elements(r.value, dst) == Elements(w, src)
      && Elements(r.value, src) == Elements(w, src)
    ensures Valid(w) && r.Ok? ==> Valid(r.value)
  {
    if dst == src then Ok(w)
    else
      match DeepCopy(w.heap, w.imgs[src])
      case Err(f) => Err(f)
      case Ok((h, x)) =>
        var r := World(w.rank, h, w.imgs[dst := x]);
        assert Valid(w) ==> Valid(r) by {
          if Valid(w) {
            assert Sound(w.heap, w.imgs[src], w.rank);
            assert forall j :: j in w.imgs ==> Sound(h, w.imgs[j], w.rank) by {
              forall j | j in w.imgs
                ensures Sound(h, w.imgs[j], w.rank)
              {
                assert Sound(w.heap, w.imgs[j], w.rank);
              }
            }
            InstallFreshKeepsValid(w, h, dst, x);
          }
        }
        assert Load(h, w.imgs[src].alignedPtr, w.imgs[src].size) == Load(w.heap, w.imgs[src].alignedPtr, w.imgs[src].size);
        Ok(r)
  }

  /**
    The move constructor `Img(Img &&m)`: the new descriptor takes `m`'s
    pointers, element count, shape and strides, and no element is copied
    (the heap is untouched). `m` is left with null pointers and the
    default-constructed shape and strides, but keeps its element count.
   */
  function MoveConstruct(w: World, id: nat, src: nat): (r: World)
    requires id !in w.imgs && src in w.imgs
    ensures r.rank == w.rank && r.heap == w.heap
    ensures r.imgs.Keys == w.imgs.Keys + {id}
    ensures forall j :: j in w.imgs && j != src ==> r.imgs[j] == w.imgs[j]
    ensures r.imgs[id] == w.imgs[src]
    ensures r.imgs[src].allocatedPtr.Null? && r.imgs[src].alignedPtr.Null?
    ensures r.imgs[src].size == w.imgs[src].size
    ensures r.imgs[src].sizes == Blank(w.rank).sizes && r.imgs[src].strides == Blank(w.rank).strides
    ensures Elements(r, id) == Elements(w, src)
    ensures Valid(w) ==> Valid(r)
    ensures Valid(w) && w.imgs[src].allocatedPtr.Addr? ==> Owners(r, w.imgs[src].allocatedPtr) == {id}
  {
    var m := w.imgs[src];
    var blank := Blank(w.rank);
    var left := Img(blank.sizes, blank.strides, m.size, Null, Null);
    var r := World(w.rank, w.heap, w.imgs[src := left][id := m]);
    MoveConstructKeepsOwnership(w, id, src);
    r
  }

  /** The ownership facts behind `MoveConstruct`, for the world it builds. */
  lemma MoveConstructKeepsOwnership(w: World, id: nat, src: nat)
    requires id !in w.imgs && src in w.imgs
    ensures
      var m := w.imgs[src];
      var blank := Blank(w.rank);
      var r := World(w.rank, w.heap, w.imgs[src := Img(blank.sizes, blank.strides, m.size, Null, Null)][id := m]);
      && (Valid(w) ==> Valid(r))
      && (Valid(w) && m.allocatedPtr.Addr? ==> Owners(r, m.allocatedPtr) == {id})
  {
    var m := w.imgs[src];
    var blank := Blank(w.rank);
    var r := World(w.rank, w.heap, w.imgs[src := Img(blank.sizes, blank.strides, m.size, Null, Null)][id := m]);
    if Valid(w) {
      forall i, j | i in r.imgs && j in r.imgs && i != j && r.imgs[i].allocatedPtr.Addr?
        ensures r.imgs[i].allocatedPtr != r.imgs[j].allocatedPtr
      {
        if i == id && j != src {
          assert r.imgs[j] == w.imgs[j];
        } else if j == id && i != src {
          assert r.imgs[i] == w.imgs[i];
        }
      }
      if m.allocatedPtr.Addr? {
        assert forall j :: j in Owners(r, m.allocatedPtr) ==> j == id;
      }
    }
  }

  /**
    Move assignment `operator=(Img &&m)`: a no-op when assigning a descriptor
    to itself. Otherwise the target's owned buffer is released, the target
    takes `m`'s pointers, element count, shape and strides, and `m` receives
    the target's old element count, shape and strides with null pointers. In
    a valid world this never frees any buffer twice and leaves the moved
    buffer with exactly one owner.
   */
  function MoveAssign(w: World, dst: nat, src: nat): (r: Result<World>)
    requires dst in w.imgs && src in w.imgs
    ensures dst == src ==> r == Ok(w)
    ensures dst != src ==> (r.Ok? <==> Delete(w.heap, w.imgs[dst].allocatedPtr).Ok?)
    ensures dst != src && r.Ok? ==>
      && r.value.rank == w.rank
      && r.value.imgs.Keys == w.imgs.Keys
      && (forall j :: j in w.imgs && j != dst && j != src ==> r.value.imgs[j] == w.imgs[j])
      && r.value.imgs[dst] == w.imgs[src]
      && r.value.imgs[src] == Img(w.imgs[dst].sizes, w.imgs[dst].strides, w.imgs[dst].size, Null, Null)
      && r.value.heap == Delete(w.heap, w.imgs[dst].allocatedPtr).value
    ensures Valid(w) ==> r.Ok? && Valid(r.value)
    ensures Valid(w) && dst != src && w.imgs[src].allocatedPtr.Addr? ==>
      Owners(r.value, w.imgs[src].allocatedPtr) == {dst}
    ensures Valid(w) && dst != src && w.imgs[src].alignedPtr != w.imgs[dst].allocatedPtr ==>
      Elements(r.value, dst) == Elements(w, src)
  {
    if dst == src then Ok(w)
    else
      var d := w.imgs[dst];
      var m := w.imgs[src];
      match Delete(w.heap, d.allocatedPtr)
      case Err(f) => Err(f)
      case Ok(h) =>
        var r := World(w.rank, h, w.imgs[src := Img(d.sizes, d.strides, d.size, Null, Null)][dst := m]);
        assert Valid(w) ==> Valid(r) by {
          if Valid(w) {
            MoveAssignKeepsValid(w, dst, src, h);
          }
        }
        assert Valid(w) ==>
          && (m.allocatedPtr.Addr? ==> Owners(r, m.allocatedPtr) == {dst})
          && (m.alignedPtr != d.allocatedPtr ==> Elements(r, dst) == Elements(w, src)) by {
          if Valid(w) {
            MoveAssignHandsOver(w, dst, src, h);
          }
        }
        Ok(r)
  }

  /** The invariant behind `MoveAssign`, for the world it builds once the release succeeded. */
  lemma MoveAssignKeepsValid(w: World, dst: nat, src: nat, h: Heap)
    requires Valid(w) && dst in w.imgs && src in w.imgs && dst != src
    requires Delete(w.heap, w.imgs[dst].allocatedPtr) == Ok(h)
    ensures
      var d := w.imgs[dst];
      Valid(World(w.rank, h, w.imgs[src := Img(d.sizes, d.strides, d.size, Null, Null)][dst := w.imgs[src]]))
  {
    var d := w.imgs[dst];
    var m := w.imgs[src];
    var r := World(w.rank, h, w.imgs[src := Img(d.sizes, d.strides, d.size, Null, Null)][dst := m]);
    forall j | j in r.imgs
      ensures Sound(h, r.imgs[j], r.rank)
    {
      assert j != dst && j != src ==> r.imgs[j] == w.imgs[j];
      assert Sound(w.heap, w.imgs[j], w.rank);
    }
    forall i, j | i in r.imgs && j in r.imgs && i != j && r.imgs[i].allocatedPtr.Addr?
      ensures r.imgs[i].allocatedPtr != r.imgs[j].allocatedPtr
    {
      if i == dst && j != src {
        assert r.imgs[j] == w.imgs[j];
      } else if j == dst && i != src {
        assert r.imgs[i] == w.imgs[i];
      }
    }
  }

  /** Who owns the moved buffer after `MoveAssign`, and what the target then reads. */
  lemma MoveAssignHandsOver(w: World, dst: nat, src: nat, h: Heap)
    requires Valid(w) && dst in w.imgs && src in w.imgs && dst != src
    requires Delete(w.heap, w.imgs[dst].allocatedPtr) == Ok(h)
    ensures
      var d := w.imgs[dst];
      var m := w.imgs[src];
      var r := World(w.rank, h, w.imgs[src := Img(d.sizes, d.strides, d.size, Null, Null)][dst := m]);
      && (m.allocatedPtr.Addr? ==> Owners(r, m.allocatedPtr) == {dst})
      && (m.alignedPtr != d.allocatedPtr ==> Elements(r, dst) == Elements(w, src))
  {
    var d := w.imgs[dst];
    var m := w.imgs[src];
    var r := World(w.rank, h, w.imgs[src := Img(d.sizes, d.strides, d.size, Null, Null)][dst := m]);
    if m.allocatedPtr.Addr? {
      assert forall j :: j in Owners(r, m.allocatedPtr) ==> j == dst;
    }
    if m.alignedPtr != d.allocatedPtr && m.alignedPtr.Addr? {
      assert Sound(w.heap, m, w.rank);
      assert h.blocks[m.alignedPtr.a] == w.heap.blocks[m.alignedPtr.a];
    }
  }

  /**
    A source that views the target's own buffer: move assignment first
    releases that buffer and then hands the target the source's access
    pointer, so the target, although it owns nothing live, reads through
    released memory and its elements can no longer be read.
   */
  lemma MoveAssignOntoOwnViewDangles()
    ensures
      var w0 := ConstructShape(World(1, Heap([]), map[]), 0, [2]);
      var w1 := ConstructView(w0, 1, [2], w0.imgs[0].allocatedPtr);
      && Valid(w1)
      && MoveAssign(w1, 0, 1).Ok?
      && Elements(MoveAssign(w1, 0, 1).value, 0).Err?
  {
    var w0 := ConstructShape(World(1, Heap([]), map[]), 0, [2]);
    assert [2][1..] == [];
    assert Product([2]) == 2;
  }

  /**
    The destructor: `delete[]` of the owning pointer (a no-op when it is
    null), then the descriptor is gone.
   */
  function Destroy(w: World, id: nat): (r: Result<World>)
    requires id in w.imgs
    ensures r.Ok? <==> Delete(w.heap, w.imgs[id].allocatedPtr).Ok?
    ensures r.Ok? ==> r.value.rank == w.rank && r.value.imgs == w.imgs - {id}
    ensures r.Ok? && w.imgs[id].allocatedPtr.Addr? ==>
      Exists(r.value.heap, w.imgs[id].allocatedPtr) && !r.value.heap.blocks[w.imgs[id].allocatedPtr.a].live
    ensures r.Ok? ==>
      && |r.value.heap.blocks| == |w.heap.blocks|
      && forall a :: 0 <= a < |w.heap.blocks| && Addr(a) != w.imgs[id].allocatedPtr ==> r.value.heap.blocks[a] == w.heap.blocks[a]
    ensures w.imgs[id].allocatedPtr.Null? ==> r == Ok(World(w.rank, w.heap, w.imgs - {id}))
    ensures r.Ok? ==> forall j :: j in w.imgs && j != id && w.imgs[j].alignedPtr != w.imgs[id].allocatedPtr ==>
      Elements(r.value, j) == Elements(w, j)
    ensures Valid(w) ==> r.Ok? && Valid(r.value)
  {
    var x := w.imgs[id];
    match Delete(w.heap, x.allocatedPtr)
    case Err(f) => Err(f)
    case Ok(h) =>
      var r := World(w.rank, h, w.imgs - {id});
      assert Valid(w) ==> Valid(r) by {
        if Valid(w) {
          forall j | j in r.imgs
            ensures Sound(h, r.imgs[j], r.rank)
          {
            assert Sound(w.heap, w.imgs[j], w.rank);
          }
        }
      }
      Ok(r)
  }

  /**
    Tearing down a sequence of distinct descriptors, in order, stopping at the
    first fault.
   */
  function DestroyAll(w: World, ids: seq<nat>): (r: Result<World>)
    requires forall k :: 0 <= k < |ids| ==> ids[k] in w.imgs
    requires forall k, l :: 0 <= k < l < |ids| ==> ids[k] != ids[l]
    decreases |ids|
  {
    if |ids| == 0 then Ok(w)
    else
      match Destroy(w, ids[0])
      case Err(f) => Err(f)
      case Ok(w') => DestroyAll(w', ids[1..])
  }

  /**
    No double free: from a valid world, destroying any sequence of distinct
    descriptors never faults, and afterwards every buffer one of them owned has
    been released.
   */
  lemma {:induction false} TeardownReleasesEachBufferOnce(w: World, ids: seq<nat>)
    requires Valid(w)
    requires forall k :: 0 <= k < |ids| ==> ids[k] in w.imgs
    requires forall k, l :: 0 <= k < l < |ids| ==> ids[k] != ids[l]
    ensures DestroyAll(w, ids).Ok?
    ensures |DestroyAll(w, ids).value.heap.blocks| == |w.heap.blocks|
    ensures forall k :: 0 <= k < |ids| && w.imgs[ids[k]].allocatedPtr.Addr? ==>
      !DestroyAll(w, ids).value.heap.blocks[w.imgs[ids[k]].allocatedPtr.a].live
    decreases |ids|
  {
    if |ids| > 0 {
      var w' := Destroy(w, ids[0]).value;
      TeardownReleasesEachBufferOnce(w', ids[1..]);
      var r := DestroyAll(w', ids[1..]).value;
      assert DestroyAll(w, ids) == Ok(r);
      forall k | 0 <= k < |ids| && w.imgs[ids[k]].allocatedPtr.Addr?
        ensures !r.heap.blocks[w.imgs[ids[k]].allocatedPtr.a].live
      {
        if k > 0 {
          assert ids[1..][k - 1] == ids[k];
          assert w'.imgs[ids[k]] == w.imgs[ids[k]];
        } else {
          var a := w.imgs[ids[0]].allocatedPtr.a;
          assert !w'.heap.blocks[a].live;
          DeadStaysDead(w', ids[1..], a);
        }
      }
    }
  }

  /** Tearing down never brings a released block back to life. */
  lemma {:induction false} DeadStaysDead(w: World, ids: seq<nat>, a: nat)
    requires forall k :: 0 <= k < |ids| ==> ids[k] in w.imgs
    requires forall k, l :: 0 <= k < l < |ids| ==> ids[k] != ids[l]
    requires a < |w.heap.blocks| && !w.heap.blocks[a].live
    requires DestroyAll(w, ids).Ok?
    ensures a < |DestroyAll(w, ids).value.heap.blocks| && !DestroyAll(w, ids).value.heap.blocks[a].live
    decreases |ids|
  {
    if |ids| > 0 {
      var w' := Destroy(w, ids[0]).value;
      assert w'.heap.blocks[a] == w.heap.blocks[a];
      DeadStaysDead(w', ids[1..], a);
    }
  }

  /**
    A view never owns its memory: constructing a view over any memory and
    destroying it again gives back exactly the world it started from.
   */
  lemma ViewNeverReleasesItsMemory(w: World, id: nat, s: seq<nat>, data: Ptr)
    requires id !in w.imgs && |s| == w.rank
    ensures Destroy(ConstructView(w, id, s, data), id) == Ok(w)
  {
    var r := ConstructView(w, id, s, data);
    assert r.imgs - {id} == w.imgs;
  }

  /**
    Element write `aligned[k] = v` through descriptor `id`: afterwards the
    descriptor reads `v` at `k` and every other element it exposes is as it
    was; memory outside the written block is untouched.
   */
  function SetElement(w: World, id: nat, k: nat, v: real): (r: Result<World>)
    requires id in w.imgs
    ensures r.Ok? <==> Accessible(w.heap, w.imgs[id].alignedPtr, k + 1)
    ensures r.Ok? ==> r.value.rank == w.rank && r.value.imgs == w.imgs
    ensures r.Ok? ==> (Elements(r.value, id).Ok? <==> Elements(w, id).Ok?)
    ensures r.Ok? && Elements(w, id).Ok? && k < w.imgs[id].size ==>
      && Elements(r.value, id).Ok?
      && Elements(r.value, id).value[k] == v
      && forall i :: 0 <= i < w.imgs[id].size && i != k ==> Elements(r.value, id).value[i] == Elements(w, id).value[i]
    ensures r.Ok? ==>
      && |r.value.heap.blocks| == |w.heap.blocks|
      && forall a :: 0 <= a < |w.heap.blocks| && Addr(a) != w.imgs[id].alignedPtr ==> r.value.heap.blocks[a] == w.heap.blocks[a]
  {
    match Store(w.heap, w.imgs[id].alignedPtr, k, v)
    case Err(f) => Err(f)
    case Ok(h) => Ok(World(w.rank, h, w.imgs))
  }

  /**
    Deep-copy independence: writing an element of a copy succeeds, stores the
    value in the copy, and leaves the elements of the original unchanged.
   */
  lemma CopyIsIndependent(w: World, id: nat, src: nat, k: nat, v: real)
    requires Valid(w) && id !in w.imgs && src in w.imgs
    requires CopyConstruct(w, id, src).Ok?
    requires k < w.imgs[src].size
    ensures SetElement(CopyConstruct(w, id, src).value, id, k, v).Ok?
    ensures Elements(SetElement(CopyConstruct(w, id, src).value, id, k, v).value, src) == Elements(w, src)
    ensures Elements(SetElement(CopyConstruct(w, id, src).value, id, k, v).value, id).Ok?
    ensures Elements(SetElement(CopyConstruct(w, id, src).value, id, k, v).value, id).value[k] == v
  {
    var w1 := CopyConstruct(w, id, src).value;
    var m := w.imgs[src];
    var x := w1.imgs[id];
    assert Valid(w1);
    assert Sound(w1.heap, x, w1.rank);
    var w2 := SetElement(w1, id, k, v).value;
    assert Sound(w.heap, m, w.rank);
    if m.alignedPtr.Addr? {
      assert m.alignedPtr != x.alignedPtr;
      assert w2.heap.blocks[m.alignedPtr.a] == w1.heap.blocks[m.alignedPtr.a];
    }
  }

  /**
    Copy assignment does not release the target's previous buffer: in a valid
    world that buffer is still live afterwards and no descriptor owns it.
   */
  lemma CopyAssignLeaksOldBuffer(w: World, dst: nat, src: nat)
    requires Valid(w) && dst in w.imgs && src in w.imgs && dst != src
    requires w.imgs[dst].allocatedPtr.Addr?
    requires CopyAssign(w, dst, src).Ok?
    ensures Leaked(CopyAssign(w, dst, src).value, w.imgs[dst].allocatedPtr)
  {
    var r := CopyAssign(w, dst, src).value;
    var p := w.imgs[dst].allocatedPtr;
    assert Sound(w.heap, w.imgs[dst], w.rank);
    assert forall j :: j in r.imgs ==> r.imgs[j].allocatedPtr != p;
  }

  /**
    `create` on a descriptor that owns a buffer, with a shape of positive
    element count, leaves the old buffer live and owned by nobody.
   */
  lemma CreateLeaksOldBuffer(w: World, id: nat, s: seq<nat>)
    requires Valid(w) && id in w.imgs && |s| == w.rank
    requires w.imgs[id].allocatedPtr.Addr? && Product(s) > 0
    ensures Leaked(Create(w, id, s), w.imgs[id].allocatedPtr)
  {
    var r := Create(w, id, s);
    var p := w.imgs[id].allocatedPtr;
    assert Sound(w.heap, w.imgs[id], w.rank);
    assert forall j :: j in r.imgs ==> r.imgs[j].allocatedPtr != p;
  }

  /**
    A moved-from descriptor keeps its element count but has a null access
    pointer, so copying it reads through null: with a non-empty source the
    copy faults.
   */
  lemma CopyOfMovedFromFaults(w: World, id: nat, src: nat, other: nat)
    requires id !in w.imgs && src in w.imgs && other !in w.imgs && other != id
    requires w.imgs[src].size > 0
    ensures CopyConstruct(MoveConstruct(w, id, src), other, src) == Err(InvalidAccess)
  {
  }

  /** What the channel check at the head of the pixel-source constructor does. */
  datatype ChannelVerdict = Accepted | Aborted | Logged

  /**
    A 1-channel source asserts rank 2, a 3-channel source asserts rank 4; a
    failed assert aborts. Any other channel count is reported on the error
    stream and construction carries on.
   */
  function CheckChannels(channels: nat, rank: nat): (v: ChannelVerdict)
    ensures v == Accepted <==> (channels == 1 && rank == 2) || (channels == 3 && rank == 4)
    ensures v == Aborted <==> (channels == 1 && rank != 2) || (channels == 3 && rank != 4)
    ensures v == Logged <==> channels != 1 && channels != 3
  {
    if channels == 1 then (if rank == 2 then Accepted else Aborted)
    else if channels == 3 then (if rank == 4 then Accepted else Aborted)
    else Logged
  }

  /**
    `channels()`: 1 for a rank-2 descriptor, otherwise the extent of axis 2.
    Axis 2 must exist, so the rank is at least 2.
   */
  function Channels(x: Img, rank: nat): (r: nat)
    requires rank == 2 || (rank > 2 && |x.sizes| == rank)
    ensures rank == 2 ==> r == 1
    ensures rank > 2 ==> r == x.sizes[2]
  {
    if rank == 2 then 1 else x.sizes[2]
  }

  /**
    Above rank 2 the channel count is read off the shape: a descriptor built
    from a shape reports that shape's axis-2 extent, and a descriptor moved
    from reports 0, its shape being that of a default header.
   */
  lemma ChannelsOfShape(w: World, id: nat, s: seq<nat>, other: nat)
    requires w.rank > 2 && id !in w.imgs && |s| == w.rank && other !in w.imgs && other != id
    ensures Channels(ConstructShape(w, id, s).imgs[id], w.rank) == s[2]
    ensures Channels(MoveConstruct(ConstructShape(w, id, s), other, id).imgs[id], w.rank) == 0
    ensures Channels(MoveConstruct(ConstructShape(w, id, s), other, id).imgs[other], w.rank) == s[2]
  {
  }

  /**
    At rank 4 the constructor accepts RGB sources in NHWC or NCHW layout, but
    `channels()` reads axis 2 in either: it reports the width of an NHWC shape
    and the height of an NCHW shape, and the channel extent only when that
    width or height happens to equal it.
   */
  lemma ChannelsAtRankFour(w: World, id: nat, n: nat, h: nat, wd: nat, c: nat)
    requires w.rank == 4 && id !in w.imgs
    ensures Channels(ConstructShape(w, id, [n, h, wd, c]).imgs[id], 4) == wd
    ensures Channels(ConstructShape(w, id, [n, c, h, wd]).imgs[id], 4) == h
    ensures Channels(ConstructShape(w, id, [n, h, wd, c]).imgs[id], 4) == c <==> wd == c
  {
  }

  /**
    `Img(image, nullptr, norm)` for rank 2, the grayscale path: after the
    channel check, the shape is (rows, cols) with row-major strides, a buffer
    of rows * cols elements is allocated unconditionally and filled row after
    row, element `i * cols + j` holding the sample at (i, j), divided by 255
    when `norm` is set. A 3-channel source fails the rank assert.
   */
  function IngestGray(w: World, id: nat, src: PixelGrid, norm: bool): (r: Result<World>)
    requires id !in w.imgs && w.rank == 2
    ensures r.Err? <==> src.channels == 3
    ensures r.Err? ==> r.fault == AssertionFailure
    ensures r.Ok? ==>
      && r.value.rank == w.rank
      && r.value.imgs.Keys == w.imgs.Keys + {id}
      && (forall j :: j in w.imgs ==> r.value.imgs[j] == w.imgs[j])
      && Extends(w.heap, r.value.heap)
      && r.value.imgs[id].sizes == [src.rows, src.cols]
      && r.value.imgs[id].size == src.rows * src.cols
      && r.value.imgs[id].strides == [src.cols, 1]
      && IsFresh(w.heap, r.value.imgs[id].allocatedPtr)
      && Owned(r.value.heap, r.value.imgs[id].allocatedPtr)
      && |r.value.heap.blocks[r.value.imgs[id].allocatedPtr.a].cells| == src.rows * src.cols
      && r.value.imgs[id].alignedPtr == r.value.imgs[id].allocatedPtr
    ensures r.Ok? ==> Elements(r.value, id) == Ok(GrayCells(src, norm))
    ensures Valid(w) && r.Ok? ==> Valid(r.value)
  {
    if CheckChannels(src.channels, w.rank) == Aborted then Err(AssertionFailure)
    else
      var s := [src.rows, src.cols];
      assert s[1..] == [src.cols] && s[1..][1..] == [];
      var size := Product(s);
      Rank2Offset(0, 0, src.rows, src.cols);
      var cells := GrayCells(src, norm);
      GrayCellsIndexing(src, norm, cells);
      var (h, p) := NewFilled(w.heap, cells);
      var x := Img(s, RowMajor(s), size, p, p);
      var r := World(w.rank, h, w.imgs[id := x]);
      assert Elements(r, id) == Ok(cells);
      assert Valid(w) ==> Valid(r) by {
        if Valid(w) {
          forall j | j in w.imgs
            ensures Sound(h, w.imgs[j], w.rank)
          {
            assert Sound(w.heap, w.imgs[j], w.rank);
          }
          InstallFreshKeepsValid(w, h, id, x);
        }
      }
      Ok(r)
  }

  /**
    Ingested element `k = i * cols + j` is pixel (i, j): the sample itself, or
    the sample divided by 255 when normalising; and under the descriptor's
    own strides (i, j) is that same element.
   */
  lemma IngestedElementIsPixel(w: World, id: nat, src: PixelGrid, norm: bool, i: nat, j: nat)
    requires id !in w.imgs && w.rank == 2
    requires IngestGray(w, id, src, norm).Ok?
    requires i < src.rows && j < src.cols
    ensures Elements(IngestGray(w, id, src, norm).value, id).Ok?
    ensures Offset([i, j], IngestGray(w, id, src, norm).value.imgs[id].strides) == i * src.cols + j
    ensures i * src.cols + j < |Elements(IngestGray(w, id, src, norm).value, id).value|
    ensures Elements(IngestGray(w, id, src, norm).value, id).value[i * src.cols + j] == Sample(src.at(i, j), norm)
  {
    var r := IngestGray(w, id, src, norm).value;
    assert Elements(r, id) == Ok(GrayCells(src, norm));
    assert r.imgs[id].strides == [src.cols, 1];
    RowsAt(src, norm, src.rows, i, j);
    Rank2Offset(i, j, src.rows, src.cols);
  }

  /**
    The channel count an ingested grayscale image reports: always 1, which
    matches the source exactly when the source has one channel. A source
    with any other count but 3 is only logged, so the descriptor then
    reports a channel count the source does not have.
   */
  lemma IngestedChannels(w: World, id: nat, src: PixelGrid, norm: bool)
    requires id !in w.imgs && w.rank == 2
    requires IngestGray(w, id, src, norm).Ok?
    ensures Channels(IngestGray(w, id, src, norm).value.imgs[id], 2) == 1
    ensures Channels(IngestGray(w, id, src, norm).value.imgs[id], 2) == src.channels <==> src.channels == 1
    ensures src.channels != 1 ==> CheckChannels(src.channels, w.rank) == Logged
  {
  }
}
