# bitmap2d in Dafny

A model of the C++ class template `bitmap2d<Rows, Cols, BaseT>`. The template is a
fixed Rows x Cols grid of booleans packed into a `std::array` of unsigned words.
Cell `(row, col)` has the flat index `row * Cols + col`. Its bit is bit
`flat % W` of word `flat / W`, where `W` is the bit width of `BaseT`.

Files:

- `bits.dfy` (module `Bits`): an unsigned word is a natural number below `2^W`.
  It defines bitwise OR, bitwise AND and the W-bit complement `~` on naturals and proves each one
  bit by bit against `TestBit` (bit j of x). It also proves the three word
  operations the class uses: setting bit k by OR, `w &= ~(1 << k)` and
  `(w & (1 << k)) != 0`.
- `bitmap2d.dfy` (module `Bitmap2D`): the template arguments as `Shape`, the
  sizing formula of `data_`, the bounds check, and `get` / `set` as pure functions
  on the word sequence (`GetWords`, `SetWords`). It proves the lemmas that set and
  get promise. The class `Bitmap` owns `data_` as an `array<nat>`. Its methods
  `Set`, `SetOn` (the two-argument `set`), `Unset` and `Get` are proved against
  those functions. `Rows`, `Cols`, `Size` and `Data` are read-only queries.
- `bitmap_test.dfy` (module `Bitmap2DTests`): the gtest scenarios. Each test is
  a client method that drives a `Bitmap` with the same loops of `set` / `get`
  calls. Its postcondition says that every ASSERT of the test passes.
- `findings.dfy` (module `Bitmap2DFindings`): the two defects below, each as
  written and corrected.

`std::out_of_range` becomes a returned `Error`. `CoordinateOutOfRange(axis, max,
value)` is the error of the explicit row and column checks, which carries the same
information as the exception message. `WordIndexOutOfRange(index, size)` is the
error that `data_.at` raises inside `get`.

The class keeps the code's behaviour exactly: the `>` bound checks and the
floor-division size of `data_`. The tests depend on the floor sizing
(`SizeTest.Huge` expects 5238137 words, a floor value). The `>` checks are the
header's behaviour, which no test exercises: every test loop stays below
`rows()` and `cols()`. The corrected definitions in `findings.dfy`, with
`>=` checks and ceiling sizing, stand beside the class and do not replace it.

## Model

| member | source | states |
|---|---|---|
| `Bits.TestBitOr` | include/bitmap2d.hpp:37 | every bit of the bitwise OR of x and y is the OR of the bits of x and y |
| `Bits.TestBitAnd` | include/bitmap2d.hpp:41 | every bit of `x & y` is the AND of the bits of x and y |
| `Bits.TestBitComplement` | include/bitmap2d.hpp:41 | below the word width, every bit of the W-bit `~x` is the negation of that bit of x |
| `Bits.SetBitMeaning` | include/bitmap2d.hpp:37 | the OR-assignment of `1 << k` sets bit k and leaves every other bit as it was |
| `Bits.SetBitBelow` | include/bitmap2d.hpp:37 | the OR-assignment of `1 << k` keeps a W-bit word below 2^W when k < W |
| `Bits.ClearBitMeaning` | include/bitmap2d.hpp:41 | `x &= ~(1 << k)` clears bit k and leaves every other bit as it was, including the bits above W |
| `Bits.ClearBitAtMost` | include/bitmap2d.hpp:41 | `x &= ~(1 << k)` never makes a word larger |
| `Bits.ReadBitMeaning` | include/bitmap2d.hpp:69-70 | `(x & (1 << k)) != 0` holds exactly when bit k of x is set |
| `Bitmap2D.StorageSize` | include/bitmap2d.hpp:94 | the length of `data_` is at least 1; it is 1 when Rows*Cols < W; otherwise it is the number of whole W-bit words in Rows*Cols bits (floor) |
| `Bitmap2D.CheckBounds` | include/bitmap2d.hpp:24-31 | the check passes exactly when row <= Rows and col <= Cols |
| `Bitmap2D.GetWords` | include/bitmap2d.hpp:55-71 | get fails with the row error when row > Rows, checked first; then with the col error when col > Cols; then with the `.at` error exactly when word `flat / W` is past the end; otherwise it returns bit `flat % W` of that word |
| `Bitmap2D.Zeros` | include/bitmap2d.hpp:18 | the fresh storage has the requested number of words, every one 0 |
| `Bitmap2D.BitOffset` | include/bitmap2d.hpp:34 | the shift `flat % W` always names a bit inside one word |
| `Bitmap2D.FlatIndexSplit` | include/bitmap2d.hpp:33-34 | the pair (word index `flat / W`, shift `flat % W`) determines the flat index: two flat indices with the same pair are equal |
| `Bitmap2D.SetWords` | include/bitmap2d.hpp:21-43 | set fails exactly when row > Rows or col > Cols, with the same error get reports for that coordinate; on success get of that coordinate succeeds on the old words, the length is unchanged, and every word other than `flat / W` is unchanged (its meaning is completed by `SetThenGet`, `SetFrame` and `SetKeepsWordsFit`) |
| `Bitmap2D.SetThenGet` | include/bitmap2d.hpp:33-42 | after `set(row, col, val)`, `get(row, col)` returns val |
| `Bitmap2D.SetFrame` | include/bitmap2d.hpp:33-42 | set changes only bit `flat % W` of word `flat / W`: every other word is equal, every other bit of that word is equal, and every other flat index reads as before |
| `Bitmap2D.SetKeepsWordsFit` | include/bitmap2d.hpp:35-42 | after set, every word is still a value of BaseT |
| `Bitmap2D.FlatIndexInjective` | include/bitmap2d.hpp:33-34 | two coordinates with col < Cols have the same flat index only when they are the same cell |
| `Bitmap2D.GridFitsIff` | include/bitmap2d.hpp:94 | every cell's word lies inside `data_` if and only if W divides Rows*Cols or Rows*Cols < W |
| `Bitmap2D.GetCell` | include/bitmap2d.hpp:67-70 | when storage covers the grid, get of a cell returns that cell's bit |
| `Bitmap2D.SetCell` | include/bitmap2d.hpp:33-42 | when storage covers the grid, setting a cell changes that cell and no other cell |
| `Bitmap2D.ZerosReadFalse` | include/bitmap2d.hpp:18 | zero-filled storage never reads true; when storage covers the grid, every cell reads false |
| `Bitmap2D.ZerosCellsClear` | include/bitmap2d.hpp:18 | every cell of zero-filled storage is clear |
| `Bitmap2D.Bitmap.constructor` | include/bitmap2d.hpp:13-19 | requires Rows, Cols > 0 and W in {8, 16, 32, 64}; `data_` has `StorageSize` words, all 0 |
| `Bitmap2D.Bitmap.Set` | include/bitmap2d.hpp:21-43 | the new words are `SetWords` of the old ones, or the words are unchanged and the error is returned; the invariant holds |
| `Bitmap2D.Bitmap.SetOn` | include/bitmap2d.hpp:45-48 | behaves as `set(row, col, true)` |
| `Bitmap2D.Bitmap.Unset` | include/bitmap2d.hpp:50-53 | behaves as `set(row, col, false)` |
| `Bitmap2D.Bitmap.Get` | include/bitmap2d.hpp:55-71 | returns `GetWords` of the current words and changes nothing |
| `Bitmap2D.Bitmap.Rows` | include/bitmap2d.hpp:73-76 | returns Rows |
| `Bitmap2D.Bitmap.Cols` | include/bitmap2d.hpp:78-81 | returns Cols |
| `Bitmap2D.Bitmap.Size` | include/bitmap2d.hpp:88-91 | returns `max(1, Rows*Cols / W)`; set never changes it, because `data_` is a fixed array |
| `Bitmap2D.Bitmap.Data` | include/bitmap2d.hpp:83-86 | a read-only view of `size()` words, each a value of BaseT |
| `Bitmap2DTests.DefaultShapeFits` | bitmap_test.cpp:82 | `bitmap2d<64, 64>` with a 64-bit size_t is valid and its storage covers its grid |
| `Bitmap2DTests.SizeTests` | bitmap_test.cpp:10-71 | rows(), cols() and size() of the seven SizeTest instantiations, for example 1024x768 of uint32_t has 24576 words |
| `Bitmap2DTests.EmptyPattern` | bitmap_test.cpp:80-90 | a fresh bitmap reads false at every cell |
| `Bitmap2DTests.FullPattern` | bitmap_test.cpp:92-109 | after setting every cell, every cell reads true |
| `Bitmap2DTests.StridePattern` | bitmap_test.cpp:111-161 | after setting the cells whose row and column are both even (or both odd), the cells of the other parity read false and the set cells read true |
| `Bitmap2DTests.SetStride` | bitmap_test.cpp:114-120 | the stepping-by-2 set loops leave exactly the cells of the chosen parity set |
| `Bitmap2DTests.ReadStride` | bitmap_test.cpp:121-134 | the stepping-by-2 get loops read the expected value at every cell of the stride |
| `Bitmap2DTests.DiagonalPattern` | bitmap_test.cpp:163-191 | on a square grid, after setting (i, i), the grid is true exactly on the diagonal; after `set(i, i, false)` the diagonal reads false again |
| `Bitmap2DTests.BoundaryReads` | include/bitmap2d.hpp:58-69 | on 64x64: get(64, 0) passes the check and fails at `.at`; get(0, 64) reads false; a row or column above 64 is rejected, and the row is checked first |
| `Bitmap2DFindings.ColumnBoundAliasesNextRow` | include/bitmap2d.hpp:28-37 | `set(row, Cols)` passes the check and makes `get(row + 1, 0)` return true |
| `Bitmap2DFindings.CheckBoundsStrict` | include/bitmap2d.hpp:24-31 | the corrected check passes exactly for cells of the grid |
| `Bitmap2DFindings.StrictBoundsSeparateCells` | include/bitmap2d.hpp:24-34 | under the corrected check, accepted coordinates address bits below Rows*Cols, and distinct cells address distinct bits |
| `Bitmap2DFindings.FloorSizingLosesLastCell` | include/bitmap2d.hpp:94 | `bitmap2d<3, 3, uint8_t>` has one word, so get(2, 2) of a fresh bitmap fails at `.at(1)` |
| `Bitmap2DFindings.CeilStorageCoversGrid` | include/bitmap2d.hpp:94 | with ceiling sizing, every cell's word lies inside the storage and no whole word is unused |
| `Bitmap2DFindings.CeilAgreesWithFloorIff` | include/bitmap2d.hpp:94 | ceiling and floor sizing agree if and only if floor sizing covers the grid |

## Left out

- The `BITMAP_UNCHECKED` build mode: it removes the row and column checks, and out-of-range use is then undefined behaviour. Only the checked mode is modelled.
- The exception message text built with `std::to_string`. The error value carries the axis, the maximum and the offending value instead.
- The `static_assert`s on BaseT being integral and unsigned have no Dafny counterpart. The constructor instead requires Rows > 0, Cols > 0 and a width of 8, 16, 32 or 64 bits.
- `BaseT = bool` passes both `static_assert`s but is not an 8-bit word: `|=` collapses to true and only shift 0 is visible. The model's widths are 8, 16, 32 and 64 bits, so `bool` is excluded.
- `data()` returns a raw pointer. `Bitmap.Data` gives the words as a read-only sequence instead.
- `clear()` and `operator()(row, col)` are not defined in the header, so neither is modelled. The last read of the Diagonal test, `a(i, i)`, is modelled with `get`.
- `size_t` is platform-dependent. The default BaseT of the pattern tests is taken to be 64 bits wide. Overflow of `row * Cols + col` in `size_t` is not modelled: flat indices are unbounded integers.
- C++ promotes `uint8_t` and `uint16_t` to `int` in `1 << shift` and `~`. After conversion back to BaseT the stored value is the same, so the model computes directly in W bits.
- Bitmap2D.Bitmap.Set: requires that the word of an accepted coordinate lies inside `data_`. The code writes there with `operator[]` and no check, and a write past the end is undefined behaviour.
- Bitmap2D.Bitmap.SetOn: has the same requirement as `Set`, for the same reason.
- Bitmap2D.Bitmap.Unset: has the same requirement as `Set`, for the same reason.
- The gtest harness, its iostream messages and the heap allocation in the Huge test. Only the scenarios are kept.

## Findings

| source | as written | input that shows it | evidently intended | confidence | as-written member | corrected member |
|---|---|---|---|---|---|---|
| include/bitmap2d.hpp:24-31 | `row > Rows` and `col > Cols` accept `col == Cols`, whose flat index is that of the first cell of the next row | on `bitmap2d<64, 64>`, `set(0, 64)` then `get(1, 0)` returns true | reject `row >= Rows` and `col >= Cols` | high; not executed | `Bitmap2DFindings.ColumnBoundAliasesNextRow` | `Bitmap2DFindings.StrictBoundsSeparateCells` |
| include/bitmap2d.hpp:94 | `max(1, Rows*Cols / W)` uses floor division and drops the partial last word | on `bitmap2d<3, 3, uint8_t>`, `get(2, 2)` on a fresh bitmap throws out_of_range; `set(2, 2)` writes past the array | `max(1, ceil(Rows*Cols / W))` words | high; not executed | `Bitmap2DFindings.FloorSizingLosesLastCell` | `Bitmap2DFindings.CeilStorageCoversGrid` |
