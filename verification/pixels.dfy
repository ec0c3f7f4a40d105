/**
  The decoded pixel source an image descriptor ingests, seen only through what
  the constructor asks of it: a row count, a column count, a channel count and
  the 8-bit sample at (row, column). `GrayCells` is the row-major sequence of
  element values the grayscale path produces; `LoadGray` is its double loop.
 */
module Pixels {

  type Byte = x: nat | x < 256

  datatype PixelGrid = PixelGrid(rows: nat, cols: nat, channels: nat, at: (nat, nat) -> Byte)

  /** One ingested element: the sample itself, or the sample divided by 255 when normalising. */
  function Sample(v: Byte, norm: bool): (r: real)
  {
    if norm then v as real / 255.0 else v as real
  }

  /** Normalisation maps samples into the unit interval and multiplying by 255 undoes it exactly. */
  lemma NormalisedSampleRoundTrip(v: Byte)
    ensures 0.0 <= Sample(v, true) <= 1.0
    ensures Sample(v, true) * 255.0 == v as real
    ensures Sample(v, false) == v as real
  {
  }

  /** The elements ingested from row `i`, in column order. */
  function RowCells(src: PixelGrid, norm: bool, i: nat): (r: seq<real>)
    ensures |r| == src.cols
  {
    seq(src.cols, j requires 0 <= j < src.cols => Sample(src.at(i, j), norm))
  }

  /** The elements ingested from the first `n` rows, row after row. */
  function Rows(src: PixelGrid, norm: bool, n: nat): (r: seq<real>)
    ensures |r| == n * src.cols
  {
    if n == 0 then [] else Rows(src, norm, n - 1) + RowCells(src, norm, n - 1)
  }

  /** All elements the grayscale path ingests. */
  function GrayCells(src: PixelGrid, norm: bool): (r: seq<real>)
  {
    Rows(src, norm, src.rows)
  }

  /** Flat element `i * cols + j` of the ingested rows is the sample at (i, j). */
  lemma {:induction false} RowsAt(src: PixelGrid, norm: bool, n: nat, i: nat, j: nat)
    requires i < n && j < src.cols
    ensures i * src.cols + j < |Rows(src, norm, n)|
    ensures Rows(src, norm, n)[i * src.cols + j] == Sample(src.at(i, j), norm)
  {
    var prefix := Rows(src, norm, n - 1);
    assert |prefix| == (n - 1) * src.cols;
    if i < n - 1 {
      RowsAt(src, norm, n - 1, i, j);
    } else {
      assert i * src.cols + j == |prefix| + j;
    }
  }

  /** Every pixel of the grid is found at its row-major position among the ingested elements. */
  lemma GrayCellsIndexing(src: PixelGrid, norm: bool, cells: seq<real>)
    requires cells == GrayCells(src, norm)
    ensures |cells| == src.rows * src.cols
    ensures forall i: nat, j: nat :: i < src.rows && j < src.cols ==>
      i * src.cols + j < |cells| && cells[i * src.cols + j] == Sample(src.at(i, j), norm)
  {
    forall i: nat, j: nat | i < src.rows && j < src.cols
      ensures i * src.cols + j < |cells| && cells[i * src.cols + j] == Sample(src.at(i, j), norm)
    {
      var k := i * src.cols + j;
      RowsAt(src, norm, src.rows, i, j);
      assert cells[k] == Sample(src.at(i, j), norm);
    }
  }

  /** The inner loop of the ingestion: the columns of row `i`, left to right. */
  method LoadRow(src: PixelGrid, norm: bool, i: nat) returns (row: seq<real>)
    ensures |row| == src.cols
    ensures forall j :: 0 <= j < src.cols ==> row[j] == Sample(src.at(i, j), norm)
  {
    row := [];
    var j := 0;
    while j < src.cols
      invariant 0 <= j <= src.cols
      invariant |row| == j
      invariant forall c :: 0 <= c < j ==> row[c] == Sample(src.at(i, c), norm)
    {
      var v := if norm then src.at(i, j) as real / 255.0 else src.at(i, j) as real;
      row := row + [v];
      j := j + 1;
    }
  }

  /**
    The ingestion loop: rows outermost, columns innermost, each element the
    (optionally normalised) sample at (i, j), stored at the next flat index.
    It produces exactly `GrayCells`, whose indexing `GrayCellsIndexing` states.
   */
  method LoadGray(src: PixelGrid, norm: bool) returns (cells: seq<real>)
    ensures cells == GrayCells(src, norm)
  {
    cells := [];
    var i := 0;
    while i < src.rows
      invariant 0 <= i <= src.rows
      invariant cells == Rows(src, norm, i)
    {
      var row := LoadRow(src, norm, i);
      assert row == RowCells(src, norm, i);
      cells := cells + row;
      i := i + 1;
    }
  }
}
