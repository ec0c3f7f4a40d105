/**
  The raw storage the descriptors point into. A heap is a sequence of blocks
  and a pointer is the index of a block, so an allocation is fresh exactly when
  its address lies beyond every block that existed before it. Freed blocks stay
  in the sequence, marked dead, so that a second `delete[]` of the same address
  is observable as a fault rather than silently reusing memory.
 */
module Memory {

  datatype Ptr = Null | Addr(a: nat)

  /**
    One block of storage: its element cells, whether it is still live, and
    whether it was obtained with `new[]` (as opposed to memory a caller
    supplies, which no descriptor may `delete[]`).
   */
  datatype Block = Block(cells: seq<real>, live: bool, fromNew: bool)

  datatype Heap = Heap(blocks: seq<Block>)

  /** The ways a C++ program of this shape goes wrong, made observable. */
  datatype Fault =
    | DoubleFree(addr: nat)     // delete[] of a block already released
    | InvalidFree(addr: nat)    // delete[] of memory that did not come from new[]
    | InvalidAccess             // reading or writing outside a live block
    | AssertionFailure          // a failed `assert` aborts the program

  datatype Result<T> = Ok(value: T) | Err(fault: Fault)

  /** `p` names a block of the heap (live or not). */
  predicate Exists(h: Heap, p: Ptr)
  {
    p.Addr? && p.a < |h.blocks|
  }

  /** `p` names no block of the heap: nothing so far can alias it. */
  predicate IsFresh(h: Heap, p: Ptr)
  {
    p.Addr? && p.a >= |h.blocks|
  }

  /** `p` names a live block obtained from `new[]`. */
  predicate Owned(h: Heap, p: Ptr)
  {
    Exists(h, p) && h.blocks[p.a].live && h.blocks[p.a].fromNew
  }

  /** The first `n` cells at `p` can be read (or written). */
  predicate Accessible(h: Heap, p: Ptr, n: nat)
  {
    Exists(h, p) && h.blocks[p.a].live && n <= |h.blocks[p.a].cells|
  }

  /** `h'` keeps every block of `h` exactly as it was: nothing freed, nothing written. */
  predicate Extends(h: Heap, h': Heap)
  {
    |h.blocks| <= |h'.blocks| && forall a :: 0 <= a < |h.blocks| ==> h'.blocks[a] == h.blocks[a]
  }

  /**
    `new T[n]`: a live block of exactly `n` cells at an address no existing
    block has. The source leaves the cells uninitialised; they are 0 here
    and no contract depends on them.
   */
  function New(h: Heap, n: nat): (r: (Heap, Ptr))
    ensures IsFresh(h, r.1) && Owned(r.0, r.1)
    ensures |r.0.blocks[r.1.a].cells| == n
    ensures Extends(h, r.0) && |r.0.blocks| == |h.blocks| + 1
  {
    (Heap(h.blocks + [Block(seq(n, _ => 0.0), true, true)]), Addr(|h.blocks|))
  }

  /** Memory a caller owns and hands to a view: live, holding `cells`, not from `new[]`. */
  function Provide(h: Heap, cells: seq<real>): (r: (Heap, Ptr))
    ensures IsFresh(h, r.1) && Accessible(r.0, r.1, |cells|)
    ensures r.0.blocks[r.1.a].cells == cells && !r.0.blocks[r.1.a].fromNew
    ensures Extends(h, r.0)
  {
    (Heap(h.blocks + [Block(cells, true, false)]), Addr(|h.blocks|))
  }

  /**
    `delete[] p`: a no-op on the null pointer; releases a live `new[]` block;
    a fault on anything else.
   */
  function Delete(h: Heap, p: Ptr): (r: Result<Heap>)
    ensures r.Ok? <==> p.Null? || Owned(h, p)
    ensures p.Null? ==> r == Ok(h)
    ensures r.Ok? && p.Addr? ==>
      && |r.value.blocks| == |h.blocks|
      && r.value.blocks[p.a] == h.blocks[p.a].(live := false)
      && forall a :: 0 <= a < |h.blocks| && a != p.a ==> r.value.blocks[a] == h.blocks[a]
    ensures Exists(h, p) && h.blocks[p.a].fromNew && !h.blocks[p.a].live ==> r == Err(DoubleFree(p.a))
  {
    match p
    case Null => Ok(h)
    case Addr(a) =>
      if a >= |h.blocks| || !h.blocks[a].fromNew then Err(InvalidFree(a))
      else if !h.blocks[a].live then Err(DoubleFree(a))
      else Ok(Heap(h.blocks[a := h.blocks[a].(live := false)]))
  }

  /** The `n` cells an element-wise copy loop reads from `p`; reading nothing never faults. */
  function Load(h: Heap, p: Ptr, n: nat): (r: Result<seq<real>>)
    ensures r.Ok? <==> n == 0 || Accessible(h, p, n)
    ensures r.Ok? ==> |r.value| == n
    ensures r.Ok? ==> forall k :: 0 <= k < n ==> r.value[k] == h.blocks[p.a].cells[k]
  {
    if n == 0 then Ok([])
    else if Accessible(h, p, n) then Ok(h.blocks[p.a].cells[..n])
    else Err(InvalidAccess)
  }

  /** Reads that succeed before a heap grows read the same values after. */
  lemma LoadExtends(h: Heap, h': Heap, p: Ptr, n: nat)
    requires Extends(h, h') && Load(h, p, n).Ok?
    ensures Load(h', p, n) == Load(h, p, n)
  {
    if n > 0 {
      assert h'.blocks[p.a] == h.blocks[p.a];
    }
  }

  /** The copy loop `p[i] = cells[i]` for every `i < |cells|`: overwrites a prefix of the block at `p`. */
  function Fill(h: Heap, p: Ptr, cells: seq<real>): (r: Heap)
    requires Accessible(h, p, |cells|)
    ensures |r.blocks| == |h.blocks|
    ensures |r.blocks[p.a].cells| == |h.blocks[p.a].cells|
    ensures r.blocks[p.a].cells[..|cells|] == cells
    ensures r.blocks[p.a].cells[|cells|..] == h.blocks[p.a].cells[|cells|..]
    ensures r.blocks[p.a].live == h.blocks[p.a].live && r.blocks[p.a].fromNew == h.blocks[p.a].fromNew
    ensures forall a :: 0 <= a < |h.blocks| && a != p.a ==> r.blocks[a] == h.blocks[a]
  {
    var b := h.blocks[p.a];
    Heap(h.blocks[p.a := b.(cells := cells + b.cells[|cells|..])])
  }

  /** `new T[n]` followed by a loop storing `cells[i]` at index `i`, with `n == |cells|`. */
  function NewFilled(h: Heap, cells: seq<real>): (r: (Heap, Ptr))
    ensures IsFresh(h, r.1) && Owned(r.0, r.1)
    ensures |r.0.blocks[r.1.a].cells| == |cells|
    ensures Extends(h, r.0)
    ensures Load(r.0, r.1, |cells|) == Ok(cells)
  {
    var (h1, p) := New(h, |cells|);
    var h2 := Fill(h1, p, cells);
    assert h2.blocks[p.a].cells == cells;
    (h2, p)
  }

  /** `p[k] = v`: changes cell `k` of the block at `p` and nothing else. */
  function Store(h: Heap, p: Ptr, k: nat, v: real): (r: Result<Heap>)
    ensures r.Ok? <==> Accessible(h, p, k + 1)
    ensures r.Ok? ==>
      && |r.value.blocks| == |h.blocks|
      && |r.value.blocks[p.a].cells| == |h.blocks[p.a].cells|
      && r.value.blocks[p.a].cells[k] == v
      && r.value.blocks[p.a].live == h.blocks[p.a].live && r.value.blocks[p.a].fromNew == h.blocks[p.a].fromNew
      && (forall i :: 0 <= i < |h.blocks[p.a].cells| && i != k ==> r.value.blocks[p.a].cells[i] == h.blocks[p.a].cells[i])
      && (forall a :: 0 <= a < |h.blocks| && a != p.a ==> r.value.blocks[a] == h.blocks[a])
  {
    if Accessible(h, p, k + 1) then
      var b := h.blocks[p.a];
      Ok(Heap(h.blocks[p.a := b.(cells := b.cells[k := v])]))
    else Err(InvalidAccess)
  }
}
