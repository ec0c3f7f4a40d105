/**
  The container test's scenario: a 4x4 grayscale image whose samples are
  15, 30, ..., 240 in row-major order is ingested without normalisation as
  descriptor 0, copied three times (descriptors 1 to 3) and once more into a
  descriptor on the free store (4) that is deleted again, descriptor 1 is
  moved into 5 and 5 into 6, and the six remaining descriptors are destroyed
  at the end of scope.
 */
module Scenario {
  import opened Layout
  import opened Memory
  import opened Pixels
  import opened ImageContainer

  /** The test image: sample (i, j) is 15 * (4 * i + j + 1) inside the 4x4 grid. */
  function TestImage(): (g: PixelGrid)
  {
    PixelGrid(4, 4, 1, (i: nat, j: nat) => if i < 4 && j < 4 then 15 * (4 * i + j + 1) else 0)
  }

  /** A program start: no descriptors and an empty heap, for `Img<real, 2>`. */
  function Start(): (w: World)
    ensures Valid(w) && w.rank == 2 && w.imgs == map[]
  {
    World(2, Heap([]), map[])
  }

  /**
    Ingesting the test image gives shape (4, 4), strides (4, 1), 16 elements,
    element 0 = 15, element 3 = 60 and element 15 = 240; with normalisation,
    element 0 is 15 / 255.
   */
  lemma IngestTestImage()
    ensures
      var r := IngestGray(Start(), 0, TestImage(), false);
      && r.Ok?
      && r.value.imgs[0].sizes == [4, 4] && r.value.imgs[0].strides == [4, 1] && r.value.imgs[0].size == 16
      && Elements(r.value, 0).Ok?
      && Elements(r.value, 0).value[0] == 15.0
      && Elements(r.value, 0).value[3] == 60.0
      && Elements(r.value, 0).value[15] == 240.0
    ensures Elements(IngestGray(Start(), 0, TestImage(), true).value, 0).value[0] == 15.0 / 255.0
  {
    IngestedElementIsPixel(Start(), 0, TestImage(), false, 0, 0);
    IngestedElementIsPixel(Start(), 0, TestImage(), false, 0, 3);
    IngestedElementIsPixel(Start(), 0, TestImage(), false, 3, 3);
    IngestedElementIsPixel(Start(), 0, TestImage(), true, 0, 0);
  }

  /** Descriptor `id` exists and its element 0 reads `x`. */
  predicate ReadsAtZero(w: World, id: nat, x: real)
  {
    id in w.imgs && Elements(w, id).Ok? && |Elements(w, id).value| > 0 && Elements(w, id).value[0] == x
  }

  /** The test image ingested as descriptor 0 (`testOpenCVConstructor`), without normalisation. */
  function Ingested(): (w: World)
    ensures Valid(w) && w.imgs.Keys == {0}
    ensures ReadsAtZero(w, 0, 15.0)
  {
    IngestTestImage();
    IngestGray(Start(), 0, TestImage(), false).value
  }

  /** `testCopyConstructor1(testOpenCVConstructor)`: descriptor 1, a copy of 0, reads 15 at element 0. */
  function FirstCopy(w0: World): (w: World)
    requires Valid(w0) && w0.imgs.Keys == {0} && ReadsAtZero(w0, 0, 15.0)
    ensures Valid(w) && w.imgs.Keys == {0, 1}
    ensures ReadsAtZero(w, 0, 15.0) && ReadsAtZero(w, 1, 15.0)
  {
    CopyConstruct(w0, 1, 0).value
  }

  /** `testCopyConstructor2 = testOpenCVConstructor`: descriptor 2, another copy of 0. */
  function SecondCopy(w1: World): (w: World)
    requires Valid(w1) && w1.imgs.Keys == {0, 1} && ReadsAtZero(w1, 0, 15.0) && ReadsAtZero(w1, 1, 15.0)
    ensures Valid(w) && w.imgs.Keys == {0, 1, 2}
    ensures ReadsAtZero(w, 0, 15.0) && ReadsAtZero(w, 1, 15.0) && ReadsAtZero(w, 2, 15.0)
  {
    CopyConstruct(w1, 2, 0).value
  }

  /**
    `testCopyConstructor3 = Img<float, 2>(testOpenCVConstructor)`: descriptor 3,
    a copy of 0 initialised directly from the temporary.
   */
  function ThirdCopy(w2: World): (w: World)
    requires Valid(w2) && w2.imgs.Keys == {0, 1, 2}
    requires ReadsAtZero(w2, 0, 15.0) && ReadsAtZero(w2, 1, 15.0) && ReadsAtZero(w2, 2, 15.0)
    ensures Valid(w) && w.imgs.Keys == {0, 1, 2, 3}
    ensures ReadsAtZero(w, 0, 15.0) && ReadsAtZero(w, 1, 15.0) && ReadsAtZero(w, 2, 15.0) && ReadsAtZero(w, 3, 15.0)
  {
    CopyConstruct(w2, 3, 0).value
  }

  /** `new Img<float, 2>(testOpenCVConstructor)`: descriptor 4, a copy of 0 created on the free store. */
  function HeapCopy(w3: World): (w: World)
    requires Valid(w3) && w3.imgs.Keys == {0, 1, 2, 3} && ReadsAtZero(w3, 0, 15.0) && ReadsAtZero(w3, 1, 15.0)
    ensures Valid(w) && w.imgs.Keys == {0, 1, 2, 3, 4}
    ensures ReadsAtZero(w, 1, 15.0) && ReadsAtZero(w, 4, 15.0)
    ensures forall j :: j in w.imgs && j != 4 ==> w.imgs[j].alignedPtr != w.imgs[4].allocatedPtr
  {
    assert forall j :: j in w3.imgs ==> Sound(w3.heap, w3.imgs[j], w3.rank);
    CopyConstruct(w3, 4, 0).value
  }

  /** `delete testCopyConstructor4`: releasing descriptor 4 leaves descriptor 1 reading as before. */
  function HeapCopyDeleted(w4: World): (w: World)
    requires Valid(w4) && w4.imgs.Keys == {0, 1, 2, 3, 4} && ReadsAtZero(w4, 1, 15.0)
    requires w4.imgs[1].alignedPtr != w4.imgs[4].allocatedPtr
    ensures Valid(w) && w.imgs.Keys == {0, 1, 2, 3}
    ensures ReadsAtZero(w, 1, 15.0)
  {
    Destroy(w4, 4).value
  }

  /**
    `testMoveConstructor1(std::move(testCopyConstructor1))`: descriptor 5 takes
    over descriptor 1's buffer and reads 15; descriptor 1 is left with null pointers.
   */
  function FirstMove(w5: World): (w: World)
    requires Valid(w5) && w5.imgs.Keys == {0, 1, 2, 3} && ReadsAtZero(w5, 1, 15.0)
    ensures Valid(w) && w.imgs.Keys == {0, 1, 2, 3, 5}
    ensures ReadsAtZero(w, 5, 15.0)
    ensures w.imgs[1].allocatedPtr.Null? && w.imgs[1].alignedPtr.Null?
  {
    MoveConstruct(w5, 5, 1)
  }

  /**
    `testMoveConstructor2 = std::move(testMoveConstructor1)`: descriptor 6 takes
    over that buffer in turn and reads 15; descriptor 5 is left with null pointers.
   */
  function SecondMove(w6: World): (w: World)
    requires Valid(w6) && w6.imgs.Keys == {0, 1, 2, 3, 5} && ReadsAtZero(w6, 5, 15.0)
    ensures Valid(w) && w.imgs.Keys == {0, 1, 2, 3, 5, 6}
    ensures ReadsAtZero(w, 6, 15.0)
    ensures w.imgs[5].allocatedPtr.Null? && w.imgs[5].alignedPtr.Null?
  {
    MoveConstruct(w6, 6, 5)
  }

  /** The descriptors alive at the test's end of scope, after every construction and the `delete`. */
  function EndOfScope(): (w: World)
    ensures Valid(w) && w.imgs.Keys == {0, 1, 2, 3, 5, 6}
    ensures ReadsAtZero(w, 6, 15.0)
  {
    SecondMove(FirstMove(HeapCopyDeleted(HeapCopy(ThirdCopy(SecondCopy(FirstCopy(Ingested())))))))
  }

  /**
    End of scope: in a valid world holding exactly the six descriptors alive
    there, as `EndOfScope` does, destroying them in reverse order of
    construction never faults, and every buffer one of them owned is released.
   */
  lemma TeardownOfTestImage(w: World)
    requires Valid(w) && w.imgs.Keys == {0, 1, 2, 3, 5, 6}
    ensures DestroyAll(w, [6, 5, 3, 2, 1, 0]).Ok?
    ensures forall k :: 0 <= k < 6 && w.imgs[[6, 5, 3, 2, 1, 0][k]].allocatedPtr.Addr? ==>
      !DestroyAll(w, [6, 5, 3, 2, 1, 0]).value.heap.blocks[w.imgs[[6, 5, 3, 2, 1, 0][k]].allocatedPtr.a].live
  {
    TeardownReleasesEachBufferOnce(w, [6, 5, 3, 2, 1, 0]);
  }

  /**
    A 2x3 view over six elements the caller owns: it reads the caller's
    values through row-major strides (3, 1), and destroying it leaves the
    caller's memory live.
   */
  lemma ViewOverCallerMemory(cells: seq<real>)
    requires |cells| == 6
    ensures
      var (h, p) := Provide(Heap([]), cells);
      var w := ConstructView(World(2, h, map[]), 0, [2, 3], p);
      && Valid(w)
      && w.imgs[0].strides == [3, 1]
      && Elements(w, 0) == Ok(cells)
      && Destroy(w, 0).Ok?
      && Destroy(w, 0).value.heap == h
      && h.blocks[p.a].live
  {
    var (h, p) := Provide(Heap([]), cells);
    Rank2Offset(0, 0, 2, 3);
    assert [2, 3][1..] == [3] && [3][1..] == [];
    var w := ConstructView(World(2, h, map[]), 0, [2, 3], p);
    assert h.blocks[p.a].cells[..6] == cells;
  }
}
