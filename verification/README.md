# Sparse matrix multiplication in CSR and CSC form

This project models the two sparse-matrix engines of the SparseMatrixMul
repository in Dafny and proves properties of them. It also models the CSR
multiplication and the Matrix Market loader's row-pointer bookkeeping from the
Williams benchmark harness.

- **The CSR engine** stores a matrix as `values`, `columnIndices` and
  `rowPointers`. The entries of row `i` sit at positions
  `rowPointers[i] .. rowPointers[i+1]-1`.
  - `convertToCSR` scans a dense matrix row by row and keeps the non-zero
    cells.
  - `multiply` builds each row of `A x B` in a dense accumulator. For every
    stored `A[i][colA]`, it adds `valA` times the stored entries of row
    `colA` of `B`. It then saves the accumulator's non-zero cells, left to
    right.
  - `printDenseMatrix` rebuilds the dense matrix. It writes each stored entry,
    in storage order, into a zeroed matrix.
- **The CSC engine** is the mirror image over columns: `values`,
  `rowIndices` and `colPointers`. Its multiplication builds column `jB` of
  `A x B` from the stored entries of column `jB` of `B` and the matching
  columns of `A`.
- **The Williams harness** has two parts in scope.
  - A line-for-line copy of the CSR `multiply`.
  - `loadMatrixFromMTX`, whose pointer back-filling turns 1-based
    `(row, col, value)` lines into CSR form.

## Modules

- **`Dense`**: dense matrices (`seq<seq<int>>`), the inner product, the
  matrix product `MatMul` and the transpose.
- **`Slices`**: one row (CSR) or one column (CSC) as parallel index and value
  sequences. It defines two readings of a slice:
  - `Lookup`: the display routine's last-write-wins write-back.
  - `Sum`: the accumulator's additive reading.

  It also defines `Compress`, the non-zero scan that both conversions and
  both save steps perform.
- **`Compressed`**: the pointer/index/value layout the two formats share.
  - `WellFormed`: pointer length `n+1`, first pointer 0, pointers
    non-decreasing, last pointer equal to the number of entries, and every
    index in range.
  - `Canonical`: additionally, indices strictly ascending in every slice and
    no stored zero.
  - `Build`: the scan of a sequence of vectors, slice by slice. It is the
    functional reference for the conversions and for the multiplications'
    result.
  - The shared save loop `AppendNonZeros`, and the loop invariants of the
    scatter loops.
- **`CSR`**, **`CSC`** and **`Williams`** follow the three source files.
  **`Scenarios`** holds worked examples: the `main` demonstrations, a
  cancelling product, identity and zero products, and two loader inputs.

**Abstraction functions.** `ToDense` is the display routine's rebuild
(last write wins). `Summed` is what the accumulator sees: stored entries that
share an index add up. The two agree when no slice repeats an index.

**Multiplication contract.** For every pair of valid operands:
- `multiply` fails exactly when `A.cols != B.rows`.
- Otherwise it returns `FromDense(MatMul(Summed(A), Summed(B)))`: the
  conversion of the dense product, which is canonical.
- For operands with no repeated index within a slice, this expands to
  `MatMul(ToDense(A), ToDense(B))`.

**Loader with unsorted rows.** Nothing in the loader checks that the entries
are sorted by row. For any input, pointer `p` (from 1 on) is the position of
the first entry whose 0-based row is at least `p`. So for entries listed in
another order, entries are attributed to the wrong rows. `Scenarios.LoadOutOfOrder`
shows this for a column-ordered file. A row beyond the header's row count
has one of two effects, depending on how far beyond it is:
- A 1-based row of exactly `rows + 1` leaves `rows + 1` pointers. Its entry
  is stored after the last row closes, so the last pointer is below the
  number of entries and the entry lies in no row
  (`Scenarios.LoadRowPastHeader`).
- A larger row makes the pointer sequence longer than `rows + 1`
  (`Scenarios.LoadRowBeyondHeader`).

Entries whose rows lie within `1..rows`, in any order, always give
`rows + 1` pointers ending at the number of entries.

**Conversion input.** The model follows the code:
- The column count is read from row 0.
- Later rows longer than row 0 are silently cut to its width.
- Shorter rows make the source throw. The model excludes them by precondition.
- A matrix whose row 0 is empty converts to a matrix with no columns.

Entries are `int`. The exact-zero tests (`!= 0`, `!= 0.0`) keep their
meaning, and products can cancel to an exact zero that is not stored.

## Model

| member | source | states |
|---|---|---|
| Slices.CompressCanonical | SparseMatrixMul/src/main/java/CSR/SparseMatrixCSRMul.java:115-123 | The non-zero scan of a vector stores only indices in `[0, len)`, strictly ascending, with no zero value. |
| Slices.CompressLookup | SparseMatrixMul/src/main/java/CSR/SparseMatrixCSRMul.java:117-123 | Writing the scanned entries back gives the vector's value at each of its positions and 0 elsewhere. |
| Slices.CompressExpands | SparseMatrixMul/src/main/java/CSR/SparseMatrixCSRMul.java:117-123 | Expanding the scan of a vector to its own length gives the vector back. |
| Slices.CompressExpand | SparseMatrixMul/src/main/java/CSR/SparseMatrixCSRMul.java:117-123 | Conversely, an in-range slice with strictly ascending indices and no zero value is the scan of its own expansion, so the canonical slice of a vector is unique. |
| Slices.LookupDistinct | SparseMatrixMul/src/main/java/CSR/SparseMatrixCSRMul.java:38-40 | When a slice repeats no index, the display write-back puts every stored value at its own index. |
| Slices.SumIsLookup | SparseMatrixMul/src/main/java/CSR/SparseMatrixCSRMul.java:74-78 | When a slice repeats no index, the accumulator's additive reading equals the display's last-write reading. |
| Slices.AddScaledAppend | SparseMatrixMul/src/main/java/CSR/SparseMatrixCSRMul.java:77 | One more stored entry `(k, v)` changes exactly one accumulator cell, cell `k`, by `a * v`. |
| Slices.WeightedRowAppend | SparseMatrixMul/src/main/java/CSR/SparseMatrixCSRMul.java:69-79 | Adding an entry `(k, v)` to the left operand's slice adds `v` times slice `k` of the right operand to the combination. |
| Slices.WeightedIsDot | SparseMatrixMul/src/main/java/CSR/SparseMatrixCSRMul.java:69-79 | Combining the right operand's rows with the weights of a slice gives, per column, the inner product of the slice's dense form with that column. |
| Compressed.AppendNonZeros | SparseMatrixMul/src/main/java/CSR/SparseMatrixCSRMul.java:82-91 | The save step appends exactly the non-zero cells of the vector, left to right with their indices, and one pointer equal to the previous last pointer plus their count. |
| Compressed.Clear | SparseMatrixMul/src/main/java/CSR/SparseMatrixCSRMul.java:66 | After clearing, every accumulator cell is 0. |
| Compressed.Build | SparseMatrixMul/src/main/java/CSR/SparseMatrixCSRMul.java:112-125 | The scan of `n` vectors starts at pointer 0, has `n+1` pointers, and its last pointer is the number of indices and of values. |
| Compressed.BuildStep | SparseMatrixMul/src/main/java/CSR/SparseMatrixCSRMul.java:115-125 | Scanning one more vector appends that vector's scan and one pointer. |
| Compressed.PushSlices | SparseMatrixMul/src/main/java/CSR/SparseMatrixCSRMul.java:115-125 | Appending a vector's scan leaves every earlier slice unchanged, and the new slice is the scan. |
| Compressed.BuildSlices | SparseMatrixMul/src/main/java/CSR/SparseMatrixCSRMul.java:112-125 | The scan of `n` vectors of one width has `n+1` pointers, first 0, non-decreasing, last equal to the number of values and of indices, and every index in range. Slice `p` is the scan of vector `p`. |
| Compressed.BuildCanonical | SparseMatrixMul/src/main/java/CSR/SparseMatrixCSRMul.java:112-125 | The scan of `n` vectors is also canonical: indices strictly ascending within every slice and no stored zero. |
| Compressed.BuildExpands | SparseMatrixMul/src/main/java/CSR/SparseMatrixCSRMul.java:35-41 | Expanding the scan of a sequence of vectors gives the vectors back. |
| Compressed.ExpandBuilds | SparseMatrixMul/src/main/java/CSR/SparseMatrixCSRMul.java:35-41 | Every canonical layout is the scan of its own expansion. |
| Compressed.AccumulatedIsExpand | SparseMatrixMul/src/main/java/CSR/SparseMatrixCSRMul.java:74-78 | With no repeated index in any slice, the accumulator's reading of a layout equals the display's. |
| Compressed.CanonicalHasNoDuplicates | SparseMatrixMul/src/main/java/CSR/SparseMatrixCSRMul.java:115-123 | Strictly ascending indices never repeat. |
| Compressed.ScatterIsProduct | SparseMatrixMul/src/main/java/CSR/SparseMatrixCSRMul.java:69-79 | Combining the right operand's slices with the weights of the left operand's slice `i` gives row `i` of the dense product of the accumulated operands. |
| Compressed.ScatteredPartStep | SparseMatrixMul/src/main/java/CSR/SparseMatrixCSRMul.java:74-78 | One pass of the innermost loop writes in range and keeps the invariant: the accumulator is its value before the loop plus `valA` times the part of the right operand's slice scanned so far. |
| Compressed.ScatteredPartEnd | SparseMatrixMul/src/main/java/CSR/SparseMatrixCSRMul.java:74-78 | When the innermost loop ends, the accumulator has gained `valA` times the whole slice. |
| Compressed.ScatteredRowStart | SparseMatrixMul/src/main/java/CSR/SparseMatrixCSRMul.java:66-69 | A cleared accumulator is the empty combination. |
| Compressed.ScatteredRowStep | SparseMatrixMul/src/main/java/CSR/SparseMatrixCSRMul.java:69-79 | One pass of the middle loop adds the scaled slice of the right operand, which extends the combination by the next stored entry of the left slice. |
| Compressed.ScatteredRowEnd | SparseMatrixMul/src/main/java/CSR/SparseMatrixCSRMul.java:64-79 | When the middle loop ends, the accumulator holds row `i` of the dense product. |
| CSR.ToDense | SparseMatrixMul/src/main/java/CSR/SparseMatrixCSRMul.java:35-41 | The displayed matrix is `rows x cols`, and each cell holds the last value stored for its column in its row, or 0 when none is stored. |
| CSR.FromDense | SparseMatrixMul/src/main/java/CSR/SparseMatrixCSRMul.java:112-125 | Scanning a matrix row by row gives as many rows as `m`, the given column count and a canonical CSR matrix. |
| CSR.ToDenseEntries | SparseMatrixMul/src/main/java/CSR/SparseMatrixCSRMul.java:35-41 | In the displayed matrix, each stored entry of a row with no repeated column sits at its row and column, and every other cell of that row is 0. |
| CSR.FromDenseToDense | SparseMatrixMul/src/main/java/CSR/SparseMatrixCSRMul.java:104-133 | Converting a rectangular matrix gives a canonical CSR matrix that expands back to it. |
| CSR.ToDenseFromDense | SparseMatrixMul/src/main/java/CSR/SparseMatrixCSRMul.java:35-41 | Every canonical CSR matrix is the conversion of its own expansion. |
| CSR.SummedIsToDense | SparseMatrixMul/src/main/java/CSR/SparseMatrixCSRMul.java:74-78 | For a matrix with no repeated column in a row, or a canonical one, the accumulator's reading equals the displayed matrix. |
| CSR.ConvertToCSR | SparseMatrixMul/src/main/java/CSR/SparseMatrixCSRMul.java:104-133 | The result has `matrix.length` rows and `matrix[0].length` columns and is canonical. It expands to the matrix cut to row 0's width, which is the matrix itself when it is rectangular. |
| CSR.ScatterEntry | SparseMatrixMul/src/main/java/CSR/SparseMatrixCSRMul.java:74-78 | The innermost loop adds `valA` times row `colA` of `B` to the accumulator. |
| CSR.ScatterRow | SparseMatrixMul/src/main/java/CSR/SparseMatrixCSRMul.java:69-79 | The middle loop leaves the accumulator at the combination of `B`'s rows weighted by the whole of row `i` of `A`. |
| CSR.AccumulateRow | SparseMatrixMul/src/main/java/CSR/SparseMatrixCSRMul.java:64-79 | After clearing and scattering, the accumulator holds row `i` of the dense product. |
| CSR.MultiplyRow | SparseMatrixMul/src/main/java/CSR/SparseMatrixCSRMul.java:64-92 | One pass of the row loop extends the result to the scan of the product's first `i+1` rows. |
| CSR.MultiplyRows | SparseMatrixMul/src/main/java/CSR/SparseMatrixCSRMul.java:55-92 | After the row loop, the result sequences are the scan of the whole dense product. |
| CSR.ProductFacts | SparseMatrixMul/src/main/java/CSR/SparseMatrixCSRMul.java:82-99 | The product's conversion has the dimensions `(A.rows, B.cols)`, is canonical and expands to the product. For operands without repeated columns, that is the product of their dense expansions. |
| CSR.Multiply | SparseMatrixMul/src/main/java/CSR/SparseMatrixCSRMul.java:50-100 | Fails with the dimension error exactly when `A.cols != B.rows`. Otherwise it returns a canonical `A.rows x B.cols` matrix equal to the conversion of the dense product; for operands without repeated columns, its expansion is `toDense(A) x toDense(B)`. |
| CSC.ToDense | SparseMatrixMul/src/main/java/CSC/SparseMatrixCSCMul.java:35-41 | The displayed matrix is `rows x cols`, and each cell holds the last value stored for its row in its column, or 0 when none is stored. |
| CSC.FromDense | SparseMatrixMul/src/main/java/CSC/SparseMatrixCSCMul.java:112-125 | Scanning a matrix column by column gives as many rows as `m`, the given column count and a canonical CSC matrix. |
| CSC.ToDenseEntries | SparseMatrixMul/src/main/java/CSC/SparseMatrixCSCMul.java:35-41 | In the displayed matrix, each stored entry of a column with no repeated row sits at its row and column, and every other cell of that column is 0. |
| CSC.FromDenseToDense | SparseMatrixMul/src/main/java/CSC/SparseMatrixCSCMul.java:104-133 | Converting a rectangular matrix gives a canonical CSC matrix that expands back to it. |
| CSC.ToDenseFromDense | SparseMatrixMul/src/main/java/CSC/SparseMatrixCSCMul.java:35-41 | Every canonical CSC matrix is the conversion of its own expansion. |
| CSC.SummedIsToDense | SparseMatrixMul/src/main/java/CSC/SparseMatrixCSCMul.java:74-78 | For a matrix with no repeated row in a column, or a canonical one, the accumulator's reading equals the displayed matrix. |
| CSC.ProductColumns | SparseMatrixMul/src/main/java/CSC/SparseMatrixCSCMul.java:64-92 | Column `jB` of the product is the combination of the columns of `A` weighted by column `jB` of `B`, that is, the product transposed. |
| CSC.ConvertToCSC | SparseMatrixMul/src/main/java/CSC/SparseMatrixCSCMul.java:104-133 | The result has `matrix.length` rows and `matrix[0].length` columns and is canonical. It expands to the matrix cut to row 0's width, which is the matrix itself when it is rectangular. |
| CSC.ScatterEntry | SparseMatrixMul/src/main/java/CSC/SparseMatrixCSCMul.java:74-78 | The innermost loop adds `valB` times column `rowB` of `A` to the accumulator. |
| CSC.ScatterColumn | SparseMatrixMul/src/main/java/CSC/SparseMatrixCSCMul.java:69-79 | The middle loop leaves the accumulator at the combination of `A`'s columns weighted by the whole of column `jB` of `B`. |
| CSC.ScatteredColumnIsProduct | SparseMatrixMul/src/main/java/CSC/SparseMatrixCSCMul.java:64-79 | That combination is column `jB` of the dense product. |
| CSC.AccumulateColumn | SparseMatrixMul/src/main/java/CSC/SparseMatrixCSCMul.java:64-79 | After clearing and scattering, the accumulator holds column `jB` of the dense product. |
| CSC.ProductFacts | SparseMatrixMul/src/main/java/CSC/SparseMatrixCSCMul.java:82-99 | The product's conversion has the dimensions `(A.rows, B.cols)`, is canonical and expands to the product. For operands without repeated rows in a column, that is the product of their dense expansions. |
| CSC.MultiplyColumn | SparseMatrixMul/src/main/java/CSC/SparseMatrixCSCMul.java:64-92 | One pass of the column loop extends the result to the scan of the product's first `jB+1` columns. |
| CSC.MultiplyColumns | SparseMatrixMul/src/main/java/CSC/SparseMatrixCSCMul.java:55-92 | After the column loop, the result sequences are the scan of the product's columns. |
| CSC.Multiply | SparseMatrixMul/src/main/java/CSC/SparseMatrixCSCMul.java:50-100 | Fails with the dimension error exactly when `A.cols != B.rows`. Otherwise it returns a canonical `A.rows x B.cols` matrix equal to the CSC conversion of the dense product; for operands without repeated rows, its expansion is `toDense(A) x toDense(B)`. |
| Williams.Multiply | SparseMatrixMul/src/test/java/testBenchmarkSparseMatrixWilliam/SparseMatrixCSRMulWilliams.java:33-71 | Returns the dimension error exactly when `A.cols != B.rows`, and otherwise the CSR conversion of the dense product. These are the values `CSR.Multiply` is proved to return (see `Scenarios.CopiesAgree`). |
| Williams.Pad | SparseMatrixMul/src/test/java/testBenchmarkSparseMatrixWilliam/SparseMatrixCSRMulWilliams.java:95-97 | The back-fill loop appends the current entry count until there is a pointer at index `row`, and changes nothing else. |
| Williams.LoadEntry | SparseMatrixMul/src/test/java/testBenchmarkSparseMatrixWilliam/SparseMatrixCSRMulWilliams.java:91-100 | Handling one more entry keeps the loader's invariant: one pointer more than the largest row seen, and each pointer from 1 on at the first entry that reaches its row. |
| Williams.LoadEntries | SparseMatrixMul/src/test/java/testBenchmarkSparseMatrixWilliam/SparseMatrixCSRMulWilliams.java:89-106 | Values and 0-based columns come out in input order. Pointer 0 is 0, and pointer `p` is the position of the first entry whose 0-based row reaches `p`; there are `max(rows+1, largest row)` pointers and they never decrease. For rows within `1..rows`, in any order, there are `rows+1` pointers and the last is the number of entries; with the columns within `1..cols` too, the result is a valid CSR matrix. If the entries are also sorted by row, pointer `r` counts the entries above row `r`. |
| Williams.FirstIs | SparseMatrixMul/src/test/java/testBenchmarkSparseMatrixWilliam/SparseMatrixCSRMulWilliams.java:95-97 | A position before which every entry's row is below `p`, and at which the row reaches `p`, is the first such position. |
| Williams.FirstMonotone | SparseMatrixMul/src/test/java/testBenchmarkSparseMatrixWilliam/SparseMatrixCSRMulWilliams.java:95-106 | The first position reaching a row never decreases as the row grows. |
| Williams.SortedFirstIsCount | SparseMatrixMul/src/test/java/testBenchmarkSparseMatrixWilliam/SparseMatrixCSRMulWilliams.java:95-106 | For entries sorted by row, the first entry reaching row `r` comes right after the entries above row `r`. |
| Williams.LoadedMonotone | SparseMatrixMul/src/test/java/testBenchmarkSparseMatrixWilliam/SparseMatrixCSRMulWilliams.java:95-106 | Pointers of the loader's shape never decrease. |
| Williams.LoadedShape | SparseMatrixMul/src/test/java/testBenchmarkSparseMatrixWilliam/SparseMatrixCSRMulWilliams.java:95-106 | For rows within the header's count, in any order, the pointers number `rows+1` and the last one is the number of entries. |
| Williams.LoadedCounts | SparseMatrixMul/src/test/java/testBenchmarkSparseMatrixWilliam/SparseMatrixCSRMulWilliams.java:95-106 | For entries sorted by row within the header's count, the pointers number `rows+1`, count the entries above each row, and end at the number of entries. |
| Scenarios.CSRConvertMultiply | SparseMatrixMul/src/main/java/CSR/SparseMatrixCSRMul.java:153-169 | Converting two conformable dense matrices and multiplying them yields the CSR conversion of their dense product. |
| Scenarios.CSCConvertMultiply | SparseMatrixMul/src/main/java/CSC/SparseMatrixCSCMul.java:153-169 | Converting two conformable dense matrices and multiplying them yields the CSC conversion of their dense product. |
| Scenarios.CSRDemo | SparseMatrixMul/src/main/java/CSR/SparseMatrixCSRMul.java:137-169 | The demonstration product is stored as values `[1,4,12,4,15]`, column indices `[2,0,1,2,3]` and row pointers `[0,1,2,3,5]`. |
| Scenarios.CSCDemo | SparseMatrixMul/src/main/java/CSC/SparseMatrixCSCMul.java:137-169 | The same product in CSC form is stored as values `[4,12,1,4,15]`, row indices `[1,2,0,3,3]` and column pointers `[0,1,2,4,5]`. |
| Scenarios.DemoProduct | SparseMatrixMul/src/main/java/CSR/SparseMatrixCSRMul.java:137-150 | The dense product of the demonstration matrices. |
| Scenarios.CSRTimesIdentity | SparseMatrixMul/src/main/java/CSR/SparseMatrixCSRMul.java:50-100 | Multiplying a canonical matrix by the converted identity returns the same matrix, storage included. |
| Scenarios.CSRTimesZero | SparseMatrixMul/src/main/java/CSR/SparseMatrixCSRMul.java:82-91 | Multiplying every well-formed matrix, including one with unsorted or repeated columns or stored zeros, by a converted zero matrix stores nothing, and every row pointer is 0. |
| Scenarios.CSCTimesIdentity | SparseMatrixMul/src/main/java/CSC/SparseMatrixCSCMul.java:50-100 | Multiplying a canonical CSC matrix by the converted identity returns the same matrix, storage included. |
| Scenarios.CSCTimesZero | SparseMatrixMul/src/main/java/CSC/SparseMatrixCSCMul.java:82-91 | Multiplying every well-formed CSC matrix, including one with unsorted or repeated rows or stored zeros, by a converted zero matrix stores nothing, and every column pointer is 0. |
| Scenarios.CopiesAgree | SparseMatrixMul/src/test/java/testBenchmarkSparseMatrixWilliam/SparseMatrixCSRMulWilliams.java:33-71 | On every pair of well-formed operands the harness's copy of the CSR multiplication returns the same result as the original, the dimension error included. |
| Scenarios.OrientationsAgree | SparseMatrixMul/src/main/java/CSC/SparseMatrixCSCMul.java:50-100 | The CSR and CSC multiplications of the same dense operands both succeed, with the same dimensions, and display the same matrix: the dense product. |
| Scenarios.ZerosStoreNothing | SparseMatrixMul/src/main/java/CSR/SparseMatrixCSRMul.java:115-125 | Scanning vectors that are all zeros stores no index and no value, and every pointer is 0. |
| Scenarios.NothingStoredByColumn | SparseMatrixMul/src/main/java/CSC/SparseMatrixCSCMul.java:35-41 | A canonical CSC matrix that displays as all zeros stores no entry. |
| Scenarios.NothingStored | SparseMatrixMul/src/main/java/CSR/SparseMatrixCSRMul.java:35-41 | A canonical matrix that displays as all zeros stores no entry. |
| Scenarios.CancellingRow | SparseMatrixMul/src/main/java/CSR/SparseMatrixCSRMul.java:82-89 | `[[1,-1]] x [[1],[1]]` cancels to an exact 0, which the save step does not store: the row is empty. |
| Scenarios.LoadWithEmptyRow | SparseMatrixMul/src/test/java/testBenchmarkSparseMatrixWilliam/SparseMatrixCSRMulWilliams.java:95-106 | A 3-row file with entries in rows 1 and 3 gives row pointers `[0,1,1,2]`: the empty middle row is back-filled. |
| Scenarios.LoadRowPastHeader | SparseMatrixMul/src/test/java/testBenchmarkSparseMatrixWilliam/SparseMatrixCSRMulWilliams.java:95-106 | A 1-row header with an entry in row 2 gives row pointers `[0,0]`: the entry is stored but lies in no row. |
| Scenarios.LoadRowBeyondHeader | SparseMatrixMul/src/test/java/testBenchmarkSparseMatrixWilliam/SparseMatrixCSRMulWilliams.java:95-106 | A 1-row header with an entry in row 3 gives three row pointers `[0,0,0]`. |
| Scenarios.LoadOutOfOrder | SparseMatrixMul/src/test/java/testBenchmarkSparseMatrixWilliam/SparseMatrixCSRMulWilliams.java:91-106 | Entries listed with row 2 before row 1 give row pointers `[0,0,2]`: the loader attributes both entries to row 2. |

## Left out

- Floating point: entries are `int`, so `double` rounding and the sign of zero are not modelled. The exact-zero test is kept.
- Java `int` overflow of indices and counts: integers are unbounded here. Arrays large enough to overflow are out of reach in practice.
- Console output: `printCSRDetails`, `printCSCDetails`, the printing half of `printDenseMatrix`, and the `main` routines' printing. The `main` computations are modelled in `Scenarios`.
- The list-to-array stream conversions: Java plumbing with no behaviour of its own. The model keeps the result as sequences.
- File reading, comment skipping, line splitting, number parsing, timing and memory measurement in the Williams harness. The loader is modelled from already-parsed header counts and data lines.
- Header detection (`rows == 0 && parts.length == 3`): the header's counts are given separately. This leaves out that a header declaring 0 rows would make the next 3-field line a header again.
- The JMH benchmark classes, their random matrix generation, and the OpenCL row/column-major wrapper.
- Williams.LoadEntries: the header's row and column counts are `nat`. A negative count from a malformed header is not modelled.
- CSR.ConvertToCSR, CSC.ConvertToCSC: require at least one row and every row at least as long as row 0. The source reads `matrix[0]` and indexes every row up to row 0's length, so it throws otherwise. Longer rows are cut to row 0's width, as the source reads no further.
- CSR.Multiply, CSC.Multiply, Williams.Multiply: require both operands to be well-formed (pointer and index bounds). The source does not check this. The model excludes malformed operands; the source ignores some malformations (pointers beyond `rows + 1`, values past the last pointer) and throws on others (an index or pointer out of range).
- The array methods that touch the accumulator (`CSR.ScatterEntry`, `CSR.ScatterRow`, `CSR.AccumulateRow`, `CSR.MultiplyRow`, `Compressed.Clear` and the CSC counterparts) state their effect through `old` and `modifies`. Their callers' pure contracts carry the properties.
