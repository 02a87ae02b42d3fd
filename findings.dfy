/**
 * Two places where `bitmap2d` does not do what its zero-based grid evidently
 * intends.  Each is shown twice: what the code does (on the definitions of
 * module Bitmap2D, which keep the code's behaviour), and a corrected
 * definition with the intended property proved about it.
 */
module Bitmap2DFindings {
  import opened Bits
  import opened Bitmap2D

  // ---------------------------------------------------------------------
  // 1. The bounds check accepts col == Cols (and row == Rows).

  /**
   * As written: `set(row, Cols)` passes the `col > Cols` check and writes the
   * bit of the first cell of the next row, which then reads true.
   */
  lemma ColumnBoundAliasesNextRow(s: Shape, ws: seq<nat>, row: nat)
    requires ValidShape(s) && GridFits(s) && |ws| == StorageSize(s) && WordsFit(s, ws)
    requires row + 1 < s.rows
    ensures CheckBounds(s, row, s.cols) == None
    ensures FlatIndex(s, row, s.cols) == FlatIndex(s, row + 1, 0)
    ensures SetAllowed(s, |ws|, row, s.cols)
    ensures GetWords(s, SetWords(s, ws, row, s.cols, true).value, row + 1, 0) == Ok(true)
  {
    assert FlatIndex(s, row, s.cols) == FlatIndex(s, row + 1, 0);
    assert InGrid(s, row + 1, 0);
    SetThenGet(s, ws, row, s.cols, true);
  }

  /** Corrected: reject a coordinate at or past its dimension. */
  function CheckBoundsStrict(s: Shape, row: nat, col: nat): (e: Option<Error>)
    ensures e == None <==> InGrid(s, row, col)
  {
    if row >= s.rows then Some(CoordinateOutOfRange(Row, s.rows, row))
    else if col >= s.cols then Some(CoordinateOutOfRange(Col, s.cols, col))
    else None
  }

  /**
   * With the corrected check, every accepted coordinate addresses a bit below
   * Rows * Cols, and two accepted coordinates share a bit only when they are
   * the same cell.
   */
  lemma StrictBoundsSeparateCells(s: Shape, r1: nat, c1: nat, r2: nat, c2: nat)
    requires CheckBoundsStrict(s, r1, c1) == None && CheckBoundsStrict(s, r2, c2) == None
    ensures FlatIndex(s, r1, c1) < s.rows * s.cols
    ensures FlatIndex(s, r1, c1) == FlatIndex(s, r2, c2) <==> r1 == r2 && c1 == c2
  {
    FlatIndexInGrid(s, r1, c1);
    FlatIndexInjective(s, r1, c1, r2, c2);
  }

  // ---------------------------------------------------------------------
  // 2. Floor division under-sizes `data_`.

  /**
   * As written: bitmap2d<3, 3, uint8_t> gets one word for nine bits, so
   * `get(2, 2)` of a fresh bitmap fails at `data_.at(1)`.
   */
  lemma FloorSizingLosesLastCell()
    ensures var s := Shape(3, 3, 8);
            && ValidShape(s)
            && StorageSize(s) == 1
            && !GridFits(s)
            && GetWords(s, Zeros(StorageSize(s)), 2, 2) == Err(WordIndexOutOfRange(1, 1))
  {
    GridFitsIff(Shape(3, 3, 8));
  }

  /** Corrected: `max(1, ceil(Rows * Cols / W))` words. */
  function CeilStorageSize(s: Shape): nat
    requires s.width > 0
  {
    Max(1, (s.rows * s.cols + s.width - 1) / s.width)
  }

  /**
   * With ceiling sizing every cell's word is inside the storage, and the
   * storage holds no whole unused word.
   */
  lemma CeilStorageCoversGrid(s: Shape)
    requires ValidShape(s)
    ensures forall row: nat, col: nat :: InGrid(s, row, col) ==>
              WordIndex(s, FlatIndex(s, row, col)) < CeilStorageSize(s)
    ensures (CeilStorageSize(s) - 1) * s.width < s.rows * s.cols
  {
    CeilDivision(s.rows * s.cols, s.width);
    forall row: nat, col: nat | InGrid(s, row, col)
      ensures WordIndex(s, FlatIndex(s, row, col)) < CeilStorageSize(s)
    {
      FlatIndexInGrid(s, row, col);
      DivBelow(FlatIndex(s, row, col), s.width, CeilStorageSize(s));
    }
  }

  /** The two formulas agree exactly when the floor formula covers the grid. */
  lemma CeilAgreesWithFloorIff(s: Shape)
    requires ValidShape(s)
    ensures CeilStorageSize(s) == StorageSize(s) <==> GridFits(s)
  {
    GridFitsIff(s);
    CeilVersusFloor(s.rows * s.cols, s.width);
  }

  lemma CeilVersusFloor(n: nat, w: nat)
    requires n > 0 && w > 0
    ensures Max(1, (n + w - 1) / w) == Max(1, n / w) <==> n % w == 0 || n < w
  {
    if n % w == 0 {
      DivUnique(n + w - 1, w, n / w, w - 1);
    } else if n < w {
      DivUnique(n + w - 1, w, 1, n - 1);
    } else {
      DivUnique(n + w - 1, w, n / w + 1, n % w - 1);
    }
  }

  /** (n + w - 1) / w words hold n bits and waste no whole word. */
  lemma CeilDivision(n: nat, w: nat)
    requires n > 0 && w > 0
    ensures var q := (n + w - 1) / w; q >= 1 && n <= q * w && (q - 1) * w < n
  {
    var q := (n + w - 1) / w;
    assert n + w - 1 == q * w + (n + w - 1) % w;
  }

  /** A value below q * w has a quotient below q. */
  lemma DivBelow(f: nat, w: nat, q: nat)
    requires w > 0 && f < q * w
    ensures f / w < q
  {
    assert (f / w) * w <= f;
    assert (f / w - q) * w == (f / w) * w - q * w;
  }
}
