/**
 * The scenarios of the gtest suite, as client code of `Bitmap`: each method
 * builds a bitmap, drives it with the same loops of `set` and `get` calls,
 * and returns whether every ASSERT of that test would pass; its postcondition
 * says that it does.
 */
module Bitmap2DTests {
  import opened Bits
  import opened Bitmap2D

  /** `bitmap2d<64, 64>` with the default BaseT = size_t, 64 bits wide. */
  function DefaultShape(): Shape
  {
    Shape(64, 64, 64)
  }

  /** The shape of the pattern tests is valid and its storage covers its grid. */
  lemma DefaultShapeFits()
    ensures ValidShape(DefaultShape()) && GridFits(DefaultShape())
  {
    GridFitsIff(DefaultShape());
  }

  /** SizeTest.*: rows(), cols() and size() of seven instantiations. */
  method SizeTests() returns (reports: seq<(nat, nat, nat)>)
    ensures reports == [(1, 1, 1), (4, 4, 1), (16, 16, 8), (1024, 768, 24576),
                        (768, 1024, 12288), (1000, 1000, 125000), (12345, 6789, 5238137)]
  {
    var tiny := new Bitmap(1, 1, 32);
    var small := new Bitmap(4, 4, 32);
    var medium := new Bitmap(16, 16, 32);
    var large := new Bitmap(1024, 768, 32);
    var large1 := new Bitmap(768, 1024, 64);
    var large2 := new Bitmap(1000, 1000, 8);
    var huge := new Bitmap(12345, 6789, 16);
    reports := [(tiny.Rows(), tiny.Cols(), tiny.Size()),
                (small.Rows(), small.Cols(), small.Size()),
                (medium.Rows(), medium.Cols(), medium.Size()),
                (large.Rows(), large.Cols(), large.Size()),
                (large1.Rows(), large1.Cols(), large1.Size()),
                (large2.Rows(), large2.Cols(), large2.Size()),
                (huge.Rows(), huge.Cols(), huge.Size())];
  }

  /** PatternTest.Empty: a fresh bitmap reads false everywhere. */
  method EmptyPattern(s: Shape) returns (passed: bool)
    requires ValidShape(s) && GridFits(s)
    ensures passed
  {
    var a := new Bitmap(s.rows, s.cols, s.width);
    ghost var fresh0 := a.data[..];
    ZerosReadFalse(s);
    passed := true;
    var i := 0;
    while i < a.Rows()
      invariant passed && a.data[..] == fresh0
    {
      var j := 0;
      while j < a.Cols()
        invariant passed && a.data[..] == fresh0
      {
        var g := a.Get(i, j);
        passed := passed && g == Ok(false);
        j := j + 1;
      }
      i := i + 1;
    }
  }

  /** PatternTest.Full: set every cell, then every cell reads true. */
  method FullPattern(s: Shape) returns (passed: bool)
    requires ValidShape(s) && GridFits(s)
    ensures passed
  {
    var a := new Bitmap(s.rows, s.cols, s.width);
    ZerosCellsClear(s);
    var i := 0;
    while i < a.Rows()
      invariant i <= s.rows && a.Valid() && a.Dims() == s
      invariant forall r: nat, c: nat :: InGrid(s, r, c) ==>
                  (CellBit(s, a.data[..], r, c) <==> r < i)
    {
      var j := 0;
      while j < a.Cols()
        invariant j <= s.cols && a.Valid()
        invariant forall r: nat, c: nat :: InGrid(s, r, c) ==>
                    (CellBit(s, a.data[..], r, c) <==> r < i || (r == i && c < j))
      {
        SetCell(s, a.data[..], i, j, true);
        var err := a.SetOn(i, j);
        j := j + 1;
      }
      i := i + 1;
    }
    ghost var full := a.data[..];
    passed := true;
    i := 0;
    while i < a.Rows()
      invariant passed && a.data[..] == full
    {
      var j := 0;
      while j < a.Cols()
        invariant passed && a.data[..] == full
      {
        GetCell(s, full, i, j);
        var g := a.Get(i, j);
        passed := passed && g == Ok(true);
        j := j + 1;
      }
      i := i + 1;
    }
  }

  /** Row and column of (r, c) both have the parity of `first`. */
  predicate OnStride(first: nat, r: nat, c: nat)
  {
    r % 2 == first && c % 2 == first
  }

  /**
   * PatternTest.OneZero (first == 0) and PatternTest.ZeroOne (first == 1):
   * set every cell whose row and column both have the parity of `first`;
   * then the cells of the other parity read false and those cells read true.
   */
  method StridePattern(s: Shape, first: nat) returns (passed: bool)
    requires ValidShape(s) && GridFits(s) && first <= 1
    ensures passed
  {
    var a := new Bitmap(s.rows, s.cols, s.width);
    ZerosCellsClear(s);
    SetStride(a, first);
    var clear := ReadStride(a, 1 - first, false);
    var marked := ReadStride(a, first, true);
    passed := clear && marked;
  }

  /** (r, c) is on the stride and comes before (i, j) in row-major order. */
  predicate StrideDone(first: nat, i: nat, j: nat, r: nat, c: nat)
  {
    OnStride(first, r, c) && (r < i || (r == i && c < j))
  }

  /** Setting (i, j) and stepping j by 2 extends the finished part by one cell. */
  lemma ColumnStep(first: nat, i: nat, j: nat)
    requires first <= 1 && i % 2 == first && j % 2 == first
    ensures forall r: nat, c: nat ::
              StrideDone(first, i, j + 2, r, c) <==> StrideDone(first, i, j, r, c) || (r == i && c == j)
  {
    forall r: nat, c: nat
      ensures StrideDone(first, i, j + 2, r, c) <==> StrideDone(first, i, j, r, c) || (r == i && c == j)
    {
      if r == i && c % 2 == first && j <= c < j + 2 {
        assert c == j;
      }
    }
  }

  /** Once row i is finished, stepping i by 2 skips a row with no stride cell. */
  lemma RowStep(first: nat, i: nat, j: nat, cols: nat)
    requires first <= 1 && i % 2 == first && cols <= j
    ensures forall r: nat, c: nat :: c < cols ==>
              (StrideDone(first, i, j, r, c) <==> StrideDone(first, i + 2, 0, r, c))
  {
  }

  /** The setting loops of OneZero and ZeroOne, on a cleared bitmap. */
  method SetStride(a: Bitmap, first: nat)
    requires a.Valid() && GridFits(a.Dims()) && first <= 1
    requires forall r: nat, c: nat :: InGrid(a.Dims(), r, c) ==> !CellBit(a.Dims(), a.data[..], r, c)
    modifies a.data
    ensures a.Valid()
    ensures forall r: nat, c: nat :: InGrid(a.Dims(), r, c) ==>
              (CellBit(a.Dims(), a.data[..], r, c) <==> OnStride(first, r, c))
  {
    var s := a.Dims();
    var i := first;
    while i < a.Rows()
      invariant i % 2 == first && i <= s.rows + 1 && a.Valid()
      invariant forall r: nat, c: nat :: InGrid(s, r, c) ==>
                  (CellBit(s, a.data[..], r, c) <==> StrideDone(first, i, 0, r, c))
    {
      var j := first;
      while j < a.Cols()
        invariant j % 2 == first && j <= s.cols + 1 && a.Valid()
        invariant forall r: nat, c: nat :: InGrid(s, r, c) ==>
                    (CellBit(s, a.data[..], r, c) <==> StrideDone(first, i, j, r, c))
      {
        SetCell(s, a.data[..], i, j, true);
        var err := a.SetOn(i, j);
        ColumnStep(first, i, j);
        assert (j + 2) % 2 == j % 2;
        j := j + 2;
      }
      RowStep(first, i, j, s.cols);
      assert (i + 2) % 2 == i % 2;
      i := i + 2;
    }
  }

  /** The reading loops of OneZero and ZeroOne: every cell on the stride reads `expected`. */
  method ReadStride(a: Bitmap, first: nat, expected: bool) returns (passed: bool)
    requires a.Valid() && GridFits(a.Dims()) && first <= 1
    requires forall r: nat, c: nat :: InGrid(a.Dims(), r, c) && OnStride(first, r, c) ==>
               (CellBit(a.Dims(), a.data[..], r, c) <==> expected)
    ensures passed
  {
    var s := a.Dims();
    passed := true;
    var i := first;
    while i < a.Rows()
      invariant i % 2 == first && passed
    {
      var j := first;
      while j < a.Cols()
        invariant j % 2 == first && passed
      {
        GetCell(s, a.data[..], i, j);
        var g := a.Get(i, j);
        passed := passed && g == Ok(expected);
        assert (j + 2) % 2 == j % 2;
        j := j + 2;
      }
      assert (i + 2) % 2 == i % 2;
      i := i + 2;
    }
  }

  /**
   * PatternTest.Diagonal: on a square grid, set (i, i) for every i; the grid
   * then reads true exactly on the diagonal; `set(i, i, false)` for every i
   * clears the diagonal again.
   */
  method DiagonalPattern(s: Shape) returns (passed: bool)
    requires ValidShape(s) && GridFits(s) && s.rows == s.cols
    ensures passed
  {
    var a := new Bitmap(s.rows, s.cols, s.width);
    ZerosCellsClear(s);
    var i := 0;
    while i < a.Cols()
      invariant i <= s.cols && a.Valid() && a.Dims() == s
      invariant forall r: nat, c: nat :: InGrid(s, r, c) ==>
                  (CellBit(s, a.data[..], r, c) <==> r == c && r < i)
    {
      SetCell(s, a.data[..], i, i, true);
      var err := a.SetOn(i, i);
      i := i + 1;
    }
    ghost var diagonal := a.data[..];
    passed := true;
    i := 0;
    while i < a.Rows()
      invariant passed && a.data[..] == diagonal
    {
      var j := 0;
      while j < a.Cols()
        invariant passed && a.data[..] == diagonal
      {
        GetCell(s, diagonal, i, j);
        var g := a.Get(i, j);
        passed := passed && g == Ok(i == j);
        j := j + 1;
      }
      i := i + 1;
    }
    i := 0;
    while i < a.Cols()
      invariant i <= s.cols && passed && a.Valid()
      invariant forall r: nat, c: nat :: InGrid(s, r, c) ==>
                  (CellBit(s, a.data[..], r, c) <==> r == c && r >= i)
    {
      SetCell(s, a.data[..], i, i, false);
      var err := a.Set(i, i, false);
      i := i + 1;
    }
    ghost var cleared := a.data[..];
    i := 0;
    while i < a.Cols()
      invariant passed && a.data[..] == cleared
    {
      GetCell(s, cleared, i, i);
      var g := a.Get(i, i);
      passed := passed && g == Ok(false);
      i := i + 1;
    }
  }

  /**
   * The `>` bound check on bitmap2d<64, 64>: a coordinate equal to its
   * dimension passes the check; row 64 then fails at `data_.at`, column 64
   * reads the first cell of the next row; the row is checked before the column.
   */
  lemma BoundaryReads()
    ensures var s, ws := DefaultShape(), Zeros(StorageSize(DefaultShape()));
            && GetWords(s, ws, 64, 0) == Err(WordIndexOutOfRange(64, 64))
            && GetWords(s, ws, 0, 64) == Ok(false)
            && GetWords(s, ws, 65, 0) == Err(CoordinateOutOfRange(Row, 64, 65))
            && GetWords(s, ws, 0, 65) == Err(CoordinateOutOfRange(Col, 64, 65))
            && GetWords(s, ws, 65, 65) == Err(CoordinateOutOfRange(Row, 64, 65))
  {
    TestBitZero(0);
  }
}
