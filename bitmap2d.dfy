/**
 * The class template `bitmap2d<Rows, Cols, BaseT>`: a Rows x Cols grid of
 * booleans packed into a fixed array of unsigned words.
 *
 * The first half of the module specifies the operations on the word array as
 * pure functions (`GetWords`, `SetWords`) and proves what they promise.  The
 * class `Bitmap` at the end owns the array and implements `set`, `get` and
 * the queries against those functions.
 */
module Bitmap2D {
  import opened Bits

  datatype Option<T> = None | Some(value: T)

  datatype Result<T> = Ok(value: T) | Err(error: Error)

  /** The coordinate that a bounds check rejected. */
  datatype Axis = Row | Col

  /** The two ways `set` and `get` raise `std::out_of_range`. */
  datatype Error =
    | CoordinateOutOfRange(axis: Axis, max: nat, value: nat)  // the explicit row / col checks
    | WordIndexOutOfRange(index: nat, size: nat)               // std::array::at inside get

  /** The template arguments: Rows, Cols and the bit width of BaseT. */
  datatype Shape = Shape(rows: nat, cols: nat, width: nat)

  /** Rows and Cols positive, BaseT an unsigned integral type. */
  predicate ValidShape(s: Shape)
  {
    s.rows > 0 && s.cols > 0 &&
    (s.width == 8 || s.width == 16 || s.width == 32 || s.width == 64)
  }

  function Max(a: nat, b: nat): nat
  {
    if a < b then b else a
  }

  /**
   * Length of `data_`: `max(1, Rows * Cols / W)`, with floor division.
   * The result is the number of whole words in Rows * Cols bits, but never 0.
   */
  function StorageSize(s: Shape): (n: nat)
    requires s.width > 0
    ensures n >= 1
    ensures s.rows * s.cols < s.width ==> n == 1
    ensures s.rows * s.cols >= s.width ==>
              n * s.width <= s.rows * s.cols < n * s.width + s.width
  {
    Max(1, s.rows * s.cols / s.width)
  }

  /** Row-major position of (row, col): `row * Cols + col`. */
  function FlatIndex(s: Shape, row: nat, col: nat): nat
  {
    row * s.cols + col
  }

  /** The word that holds flat index `flat`: `flat / W`. */
  function WordIndex(s: Shape, flat: nat): nat
    requires s.width > 0
  {
    flat / s.width
  }

  /** The position of flat index `flat` inside its word: `flat % W`. */
  function BitOffset(s: Shape, flat: nat): (k: nat)
    requires s.width > 0
    ensures k < s.width
  {
    flat % s.width
  }

  /** Every word is a value of BaseT. */
  ghost predicate WordsFit(s: Shape, ws: seq<nat>)
  {
    forall i :: 0 <= i < |ws| ==> ws[i] < Pow2(s.width)
  }

  /** The logical bit at flat index `flat`. */
  ghost predicate BitAt(s: Shape, ws: seq<nat>, flat: nat)
    requires s.width > 0 && WordIndex(s, flat) < |ws|
  {
    TestBit(ws[WordIndex(s, flat)], BitOffset(s, flat))
  }

  /** Zero-initialised storage of n words. */
  function Zeros(n: nat): (ws: seq<nat>)
    ensures |ws| == n && forall i :: 0 <= i < n ==> ws[i] == 0
  {
    seq(n, i => 0)
  }

  /**
   * The bounds check shared by `set` and `get`: the row first, then the
   * column, each rejected only when STRICTLY greater than its dimension.
   */
  function CheckBounds(s: Shape, row: nat, col: nat): (e: Option<Error>)
    ensures e == None <==> row <= s.rows && col <= s.cols
  {
    if row > s.rows then Some(CoordinateOutOfRange(Row, s.rows, row))
    else if col > s.cols then Some(CoordinateOutOfRange(Col, s.cols, col))
    else None
  }

  /** `get(row, col)` on the words `ws`. */
  function GetWords(s: Shape, ws: seq<nat>, row: nat, col: nat): (r: Result<bool>)
    requires s.width > 0
    ensures row > s.rows ==> r == Err(CoordinateOutOfRange(Row, s.rows, row))
    ensures row <= s.rows && col > s.cols ==> r == Err(CoordinateOutOfRange(Col, s.cols, col))
    ensures row <= s.rows && col <= s.cols ==>
              (r.Ok? <==> WordIndex(s, FlatIndex(s, row, col)) < |ws|)
    ensures row <= s.rows && col <= s.cols && r.Err? ==>
              r.error == WordIndexOutOfRange(WordIndex(s, FlatIndex(s, row, col)), |ws|)
    ensures r.Ok? ==> (r.value <==> BitAt(s, ws, FlatIndex(s, row, col)))
  {
    match CheckBounds(s, row, col)
    case Some(e) => Err(e)
    case None =>
      var flat := FlatIndex(s, row, col);
      var idx := WordIndex(s, flat);
      if idx < |ws| then
        ReadBitMeaning(ws[idx], BitOffset(s, flat));
        Ok(ReadBit(ws[idx], BitOffset(s, flat)))
      else
        Err(WordIndexOutOfRange(idx, |ws|))
  }

  /**
   * The part of `set` that the code does not guard: `data_[idx]` is written
   * without a range check, so the word index of an accepted coordinate must
   * lie inside the storage.
   */
  predicate SetAllowed(s: Shape, n: nat, row: nat, col: nat)
    requires s.width > 0
  {
    CheckBounds(s, row, col) == None ==> WordIndex(s, FlatIndex(s, row, col)) < n
  }

  /**
   * `set(row, col, val)` on the words `ws`: the new words, or the error.  It
   * fails exactly as `get`'s own bounds check does, row first, and on success
   * rewrites only the word `flat / W`.
   */
  function SetWords(s: Shape, ws: seq<nat>, row: nat, col: nat, val: bool): (r: Result<seq<nat>>)
    requires s.width > 0 && SetAllowed(s, |ws|, row, col)
    ensures r.Err? <==> row > s.rows || col > s.cols
    ensures r.Err? ==> GetWords(s, ws, row, col) == Err(r.error)
    ensures r.Ok? ==> GetWords(s, ws, row, col).Ok? && |r.value| == |ws|
    ensures r.Ok? ==> forall i :: 0 <= i < |ws| && i != WordIndex(s, FlatIndex(s, row, col)) ==>
                        r.value[i] == ws[i]
  {
    match CheckBounds(s, row, col)
    case Some(e) => Err(e)
    case None =>
      var flat := FlatIndex(s, row, col);
      var idx := WordIndex(s, flat);
      var shift := BitOffset(s, flat);
      Ok(ws[idx := if val then SetBit(ws[idx], shift) else ClearBit(ws[idx], shift, s.width)])
  }

  // ---------------------------------------------------------------------
  // What set and get promise

  /** After `set(row, col, val)`, `get(row, col)` returns `val`. */
  lemma SetThenGet(s: Shape, ws: seq<nat>, row: nat, col: nat, val: bool)
    requires ValidShape(s) && WordsFit(s, ws)
    requires SetAllowed(s, |ws|, row, col) && row <= s.rows && col <= s.cols
    ensures GetWords(s, SetWords(s, ws, row, col, val).value, row, col) == Ok(val)
  {
    var flat := FlatIndex(s, row, col);
    var idx, shift := WordIndex(s, flat), BitOffset(s, flat);
    if val {
      SetBitMeaning(ws[idx], shift, shift);
    } else {
      ClearBitMeaning(ws[idx], shift, s.width, shift);
    }
  }

  /**
   * `set(row, col, val)` changes bit `flat % W` of word `flat / W` and nothing
   * else: every other word is untouched, every other bit of that word keeps
   * its value, and so every other flat index reads as before.
   */
  lemma SetFrame(s: Shape, ws: seq<nat>, row: nat, col: nat, val: bool)
    requires ValidShape(s) && WordsFit(s, ws)
    requires SetAllowed(s, |ws|, row, col) && row <= s.rows && col <= s.cols
    ensures var ws' := SetWords(s, ws, row, col, val).value;
            var flat := FlatIndex(s, row, col);
            && |ws'| == |ws|
            && (forall i :: 0 <= i < |ws| && i != WordIndex(s, flat) ==> ws'[i] == ws[i])
            && (forall j :: j != BitOffset(s, flat) ==>
                  (TestBit(ws'[WordIndex(s, flat)], j) <==> TestBit(ws[WordIndex(s, flat)], j)))
            && (forall f: nat :: WordIndex(s, f) < |ws| ==>
                  (BitAt(s, ws', f) <==> if f == flat then val else BitAt(s, ws, f)))
  {
    var ws' := SetWords(s, ws, row, col, val).value;
    var flat := FlatIndex(s, row, col);
    var idx, shift := WordIndex(s, flat), BitOffset(s, flat);
    forall j
      ensures TestBit(ws'[idx], j) <==> if j == shift then val else TestBit(ws[idx], j)
    {
      if val {
        SetBitMeaning(ws[idx], shift, j);
      } else {
        ClearBitMeaning(ws[idx], shift, s.width, j);
      }
    }
    forall f: nat | WordIndex(s, f) < |ws|
      ensures BitAt(s, ws', f) <==> if f == flat then val else BitAt(s, ws, f)
    {
      if WordIndex(s, f) == idx && BitOffset(s, f) == shift {
        FlatIndexSplit(s, f, flat);
      }
    }
  }

  /** Two flat indices in the same word at the same offset are equal. */
  lemma FlatIndexSplit(s: Shape, f: nat, g: nat)
    requires s.width > 0
    requires WordIndex(s, f) == WordIndex(s, g) && BitOffset(s, f) == BitOffset(s, g)
    ensures f == g
  {
    assert f == WordIndex(s, f) * s.width + BitOffset(s, f);
    assert g == WordIndex(s, g) * s.width + BitOffset(s, g);
  }

  /** `set` keeps every word a value of BaseT. */
  lemma SetKeepsWordsFit(s: Shape, ws: seq<nat>, row: nat, col: nat, val: bool)
    requires ValidShape(s) && WordsFit(s, ws) && SetAllowed(s, |ws|, row, col)
    ensures SetWords(s, ws, row, col, val).Ok? ==> WordsFit(s, SetWords(s, ws, row, col, val).value)
  {
    if row <= s.rows && col <= s.cols {
      var flat := FlatIndex(s, row, col);
      var idx, shift := WordIndex(s, flat), BitOffset(s, flat);
      if val {
        SetBitBelow(ws[idx], shift, s.width);
      } else {
        ClearBitAtMost(ws[idx], shift, s.width);
      }
    }
  }

  // ---------------------------------------------------------------------
  // Cells of the grid

  /** (row, col) names a cell of the grid. */
  predicate InGrid(s: Shape, row: nat, col: nat)
  {
    row < s.rows && col < s.cols
  }

  /** Every cell of the grid has its word inside the storage. */
  ghost predicate GridFits(s: Shape)
    requires s.width > 0
  {
    forall row: nat, col: nat :: InGrid(s, row, col) ==>
      WordIndex(s, FlatIndex(s, row, col)) < StorageSize(s)
  }

  /** A cell lies before every cell of a later row. */
  lemma FlatIndexBelow(s: Shape, row: nat, col: nat, later: nat)
    requires col < s.cols && row < later
    ensures FlatIndex(s, row, col) < later * s.cols
  {
    var gap: nat := later - (row + 1);
    assert later * s.cols == (row + 1) * s.cols + gap * s.cols;
    assert (row + 1) * s.cols == row * s.cols + s.cols;
  }

  /** Distinct cells have distinct flat indices. */
  lemma {:induction false} FlatIndexInjective(s: Shape, r1: nat, c1: nat, r2: nat, c2: nat)
    requires c1 < s.cols && c2 < s.cols
    ensures FlatIndex(s, r1, c1) == FlatIndex(s, r2, c2) <==> r1 == r2 && c1 == c2
  {
    if r1 < r2 {
      FlatIndexBelow(s, r1, c1, r2);
    } else if r2 < r1 {
      FlatIndexBelow(s, r2, c2, r1);
    }
  }

  /** A cell's flat index lies below Rows * Cols. */
  lemma FlatIndexInGrid(s: Shape, row: nat, col: nat)
    requires InGrid(s, row, col)
    ensures FlatIndex(s, row, col) < s.rows * s.cols
  {
    FlatIndexBelow(s, row, col, s.rows);
  }

  /**
   * Floor sizing covers the whole grid exactly when Rows * Cols is a multiple
   * of W or fits in the single minimum word; otherwise the last cell's word is
   * past the end of `data_`.
   */
  lemma GridFitsIff(s: Shape)
    requires ValidShape(s)
    ensures GridFits(s) <==> (s.rows * s.cols) % s.width == 0 || s.rows * s.cols < s.width
  {
    if (s.rows * s.cols) % s.width == 0 || s.rows * s.cols < s.width {
      CoveredGridFits(s);
    } else {
      LastCellPastEnd(s);
      assert InGrid(s, s.rows - 1, s.cols - 1);
    }
  }

  lemma CoveredGridFits(s: Shape)
    requires ValidShape(s)
    requires (s.rows * s.cols) % s.width == 0 || s.rows * s.cols < s.width
    ensures GridFits(s)
  {
    forall row: nat, col: nat | InGrid(s, row, col)
      ensures WordIndex(s, FlatIndex(s, row, col)) < StorageSize(s)
    {
      FlatIndexInGrid(s, row, col);
      WordIndexBelow(FlatIndex(s, row, col), s.rows * s.cols, s.width);
    }
  }

  /** Without a whole number of words, the last cell's word is past the end. */
  lemma LastCellPastEnd(s: Shape)
    requires ValidShape(s)
    requires (s.rows * s.cols) % s.width != 0 && s.rows * s.cols >= s.width
    ensures WordIndex(s, FlatIndex(s, s.rows - 1, s.cols - 1)) >= StorageSize(s)
  {
    assert (s.rows - 1) * s.cols + (s.cols - 1) == s.rows * s.cols - 1;
    DivOfPredecessor(s.rows * s.cols, s.width);
  }

  /** Division by w is determined by quotient and remainder. */
  lemma DivUnique(x: nat, w: nat, q: nat, r: nat)
    requires r < w && x == q * w + r
    ensures x / w == q
  {
    var d := x / w - q;
    assert d * w == r - x % w;
  }

  lemma DivOfPredecessor(n: nat, w: nat)
    requires w > 0 && n % w != 0
    ensures (n - 1) / w == n / w
  {
    DivUnique(n - 1, w, n / w, n % w - 1);
  }

  /** Below n, the word index is below n / W when W divides n, and 0 when n < W. */
  lemma WordIndexBelow(f: nat, n: nat, w: nat)
    requires w > 0 && f < n && (n % w == 0 || n < w)
    ensures f / w < Max(1, n / w)
  {
    if n < w {
      assert f / w == 0;
    } else {
      assert (f / w) * w <= f < n == (n / w) * w;
      assert (f / w - n / w) * w == (f / w) * w - (n / w) * w;
    }
  }

  /** The bit of a cell, when the storage covers the grid. */
  ghost predicate CellBit(s: Shape, ws: seq<nat>, row: nat, col: nat)
    requires ValidShape(s) && GridFits(s) && |ws| == StorageSize(s) && InGrid(s, row, col)
  {
    BitAt(s, ws, FlatIndex(s, row, col))
  }

  /** Reading a cell returns its bit. */
  lemma GetCell(s: Shape, ws: seq<nat>, row: nat, col: nat)
    requires ValidShape(s) && GridFits(s) && |ws| == StorageSize(s) && InGrid(s, row, col)
    ensures GetWords(s, ws, row, col) == Ok(CellBit(s, ws, row, col))
  {
  }

  /** Setting a cell changes that cell and no other cell of the grid. */
  lemma SetCell(s: Shape, ws: seq<nat>, row: nat, col: nat, val: bool)
    requires ValidShape(s) && GridFits(s) && |ws| == StorageSize(s) && WordsFit(s, ws)
    requires InGrid(s, row, col)
    ensures SetAllowed(s, |ws|, row, col)
    ensures var ws' := SetWords(s, ws, row, col, val).value;
            |ws'| == |ws| && WordsFit(s, ws') &&
            forall r: nat, c: nat :: InGrid(s, r, c) ==>
              (CellBit(s, ws', r, c) <==> if r == row && c == col then val else CellBit(s, ws, r, c))
  {
    SetFrame(s, ws, row, col, val);
    SetKeepsWordsFit(s, ws, row, col, val);
    var ws' := SetWords(s, ws, row, col, val).value;
    forall r: nat, c: nat | InGrid(s, r, c)
      ensures CellBit(s, ws', r, c) <==> if r == row && c == col then val else CellBit(s, ws, r, c)
    {
      FlatIndexInjective(s, r, c, row, col);
    }
  }

  /** A fresh bitmap never reads true; on a covered grid every cell reads false. */
  lemma ZerosReadFalse(s: Shape)
    requires ValidShape(s)
    ensures forall row: nat, col: nat :: GetWords(s, Zeros(StorageSize(s)), row, col) != Ok(true)
    ensures GridFits(s) ==>
              forall row: nat, col: nat :: InGrid(s, row, col) ==>
                GetWords(s, Zeros(StorageSize(s)), row, col) == Ok(false)
  {
    forall k: nat
      ensures !TestBit(0, k)
    {
      TestBitZero(k);
    }
  }

  /** Every cell of zero-initialised storage is clear. */
  lemma ZerosCellsClear(s: Shape)
    requires ValidShape(s) && GridFits(s)
    ensures forall row: nat, col: nat :: InGrid(s, row, col) ==>
              !CellBit(s, Zeros(StorageSize(s)), row, col)
  {
    forall k: nat
      ensures !TestBit(0, k)
    {
      TestBitZero(k);
    }
  }

  // ---------------------------------------------------------------------
  // The object

  /** One `bitmap2d<Rows, Cols, BaseT>`; `data` is the member array `data_`. */
  class Bitmap {
    const rows: nat
    const cols: nat
    const width: nat
    const data: array<nat>

    function Dims(): Shape
    {
      Shape(rows, cols, width)
    }

    ghost predicate Valid()
      reads data
    {
      ValidShape(Dims()) && data.Length == StorageSize(Dims()) && WordsFit(Dims(), data[..])
    }

    /** The constructor: every word of `data_` is filled with 0. */
    constructor (rows: nat, cols: nat, width: nat)
      requires ValidShape(Shape(rows, cols, width))
      ensures this.rows == rows && this.cols == cols && this.width == width
      ensures Valid() && fresh(data)
      ensures data[..] == Zeros(StorageSize(Dims()))
    {
      var n := StorageSize(Shape(rows, cols, width));
      var a := new nat[n];
      for i := 0 to n
        invariant forall k :: 0 <= k < i ==> a[k] == 0
      {
        a[i] := 0;
      }
      this.rows, this.cols, this.width := rows, cols, width;
      this.data := a;
      new;
      assert data[..] == Zeros(n);
    }

    /** `set(row, col, val)`; the exception becomes the returned error. */
    method Set(row: nat, col: nat, val: bool) returns (err: Option<Error>)
      requires Valid() && SetAllowed(Dims(), data.Length, row, col)
      modifies data
      ensures Valid()
      ensures match SetWords(Dims(), old(data[..]), row, col, val)
              case Ok(ws) => err == None && data[..] == ws
              case Err(e) => err == Some(e) && data[..] == old(data[..])
    {
      if row > rows {
        return Some(CoordinateOutOfRange(Row, rows, row));
      }
      if col > cols {
        return Some(CoordinateOutOfRange(Col, cols, col));
      }
      SetKeepsWordsFit(Dims(), data[..], row, col, val);
      var idx := (row * cols + col) / width;
      var shift := (row * cols + col) % width;
      if val {
        data[idx] := Or(data[idx], Pow2(shift));
      } else {
        Pow2Monotone(shift, width);
        data[idx] := And(data[idx], Complement(Pow2(shift), width));
      }
      return None;
    }

    /** `set(row, col)`: the same as `set(row, col, true)`. */
    method SetOn(row: nat, col: nat) returns (err: Option<Error>)
      requires Valid() && SetAllowed(Dims(), data.Length, row, col)
      modifies data
      ensures Valid()
      ensures match SetWords(Dims(), old(data[..]), row, col, true)
              case Ok(ws) => err == None && data[..] == ws
              case Err(e) => err == Some(e) && data[..] == old(data[..])
    {
      err := Set(row, col, true);
    }

    /** `unset(row, col)`: the same as `set(row, col, false)`. */
    method Unset(row: nat, col: nat) returns (err: Option<Error>)
      requires Valid() && SetAllowed(Dims(), data.Length, row, col)
      modifies data
      ensures Valid()
      ensures match SetWords(Dims(), old(data[..]), row, col, false)
              case Ok(ws) => err == None && data[..] == ws
              case Err(e) => err == Some(e) && data[..] == old(data[..])
    {
      err := Set(row, col, false);
    }

    /** `get(row, col)`: reads `data_` with `.at`, so it also fails past the end. */
    method Get(row: nat, col: nat) returns (r: Result<bool>)
      requires Valid()
      ensures r == GetWords(Dims(), data[..], row, col)
    {
      if row > rows {
        return Err(CoordinateOutOfRange(Row, rows, row));
      }
      if col > cols {
        return Err(CoordinateOutOfRange(Col, cols, col));
      }
      var idx := (row * cols + col) / width;
      var shift := (row * cols + col) % width;
      if idx >= data.Length {
        return Err(WordIndexOutOfRange(idx, data.Length));
      }
      r := Ok(And(data[idx], Pow2(shift)) != 0);
    }

    /** `rows()` */
    function Rows(): (n: nat)
      ensures n == Dims().rows
    {
      rows
    }

    /** `cols()` */
    function Cols(): (n: nat)
      ensures n == Dims().cols
    {
      cols
    }

    /** `size()`: the number of words, fixed by the template arguments. */
    function Size(): (n: nat)
      reads data
      requires Valid()
      ensures n == StorageSize(Dims())
    {
      data.Length
    }

    /** `data()` as a read-only view of the words, in order. */
    function Data(): (ws: seq<nat>)
      reads data
      requires Valid()
      ensures |ws| == Size() && WordsFit(Dims(), ws)
    {
      data[..]
    }
  }
}
