/** The CSR engine: dense-to-CSR conversion, CSR x CSR multiplication with a
    per-row dense accumulator, and the dense expansion used for display. */
module CSR {
  import Dense
  import Slices
  import Compressed
  import opened Outcome

  /** A matrix in Compressed Sparse Row form: the entries of row `i` are
      positions rowPointers[i] .. rowPointers[i + 1] - 1 of the parallel
      `values` and `columnIndices` sequences. */
  datatype CSRMatrix = CSRMatrix(values: seq<int>, columnIndices: seq<int>, rowPointers: seq<int>, rows: nat, cols: nat)

  /** Rows are the slices; column indices are the secondary indices. */
  function Layout(A: CSRMatrix): (L: Compressed.Layout)
  {
    Compressed.Layout(A.rowPointers, A.columnIndices, A.values)
  }

  predicate Valid(A: CSRMatrix)
  {
    Compressed.WellFormed(Layout(A), A.rows, A.cols)
  }

  predicate Canonical(A: CSRMatrix)
  {
    Compressed.Canonical(Layout(A), A.rows, A.cols)
  }

  predicate NoDuplicates(A: CSRMatrix)
  {
    Compressed.NoDuplicates(Layout(A), A.rows, A.cols)
  }

  /** The entries of row `i`. */
  function Row(A: CSRMatrix, i: nat): (s: Slices.Slice)
    requires Valid(A) && i < A.rows
  {
    Compressed.Slice(Layout(A), i)
  }

  /** The dense matrix the display routine rebuilds: a zeroed rows x cols
      matrix into which every stored entry is written, row by row, in
      storage order. */
  function ToDense(A: CSRMatrix): (m: seq<seq<int>>)
    requires Valid(A)
    ensures Dense.IsMatrix(m, A.rows, A.cols)
    ensures forall i, j :: 0 <= i < A.rows && 0 <= j < A.cols ==> m[i][j] == Slices.Lookup(Row(A, i), j)
  {
    Compressed.Expand(Layout(A), A.rows, A.cols)
  }

  /** The dense matrix the multiplication's accumulator sees: stored entries
      of a row that share a column add up. */
  function Summed(A: CSRMatrix): (m: seq<seq<int>>)
    requires Valid(A)
    ensures Dense.IsMatrix(m, A.rows, A.cols)
  {
    Compressed.Accumulated(Layout(A), A.rows, A.cols)
  }

  /** The dense product of two CSR matrices as the accumulator sees them. */
  function Product(A: CSRMatrix, B: CSRMatrix): (m: seq<seq<int>>)
    requires Valid(A) && Valid(B) && A.cols == B.rows
    ensures Dense.IsMatrix(m, A.rows, B.cols)
  {
    Dense.MatMul(Summed(A), Summed(B), B.cols)
  }

  /** The CSR matrix that scanning `m` row by row, keeping the non-zero
      cells, produces. */
  function FromDense(m: seq<seq<int>>, cols: nat): (r: CSRMatrix)
    requires Dense.IsMatrix(m, |m|, cols)
    ensures r.rows == |m| && r.cols == cols && Canonical(r)
  {
    Compressed.BuildCanonical(m, cols);
    var L := Compressed.Build(m);
    CSRMatrix(L.values, L.indices, L.pointers, |m|, cols)
  }

  /** What the display routine shows: each stored entry sits at its row and
      column when no column repeats within a row, and every other cell is 0. */
  lemma ToDenseEntries(A: CSRMatrix, i: nat)
    requires Valid(A) && i < A.rows && Slices.Distinct(Row(A, i).indices)
    ensures forall k :: A.rowPointers[i] <= k < A.rowPointers[i + 1] ==> ToDense(A)[i][A.columnIndices[k]] == A.values[k]
    ensures forall c :: 0 <= c < A.cols && c !in A.columnIndices[A.rowPointers[i]..A.rowPointers[i + 1]] ==> ToDense(A)[i][c] == 0
  {
    var s := Row(A, i);
    var lo := A.rowPointers[i];
    forall k | lo <= k < A.rowPointers[i + 1]
      ensures ToDense(A)[i][A.columnIndices[k]] == A.values[k]
    {
      assert s.indices[k - lo] == A.columnIndices[k];
      Slices.LookupDistinct(s, k - lo);
    }
    forall c | 0 <= c < A.cols && c !in A.columnIndices[lo..A.rowPointers[i + 1]]
      ensures ToDense(A)[i][c] == 0
    {
      Slices.LookupAbsent(s, c);
    }
  }

  /** Round trip: converting a rectangular matrix and expanding the result
      gives the matrix back, and the conversion is canonical. */
  lemma FromDenseToDense(m: seq<seq<int>>, cols: nat)
    requires Dense.IsMatrix(m, |m|, cols)
    ensures Canonical(FromDense(m, cols))
    ensures ToDense(FromDense(m, cols)) == m
  {
    Compressed.BuildCanonical(m, cols);
    Compressed.BuildExpands(m, cols);
  }

  /** The other round trip: a canonical CSR matrix is exactly the conversion
      of its own dense expansion. */
  lemma ToDenseFromDense(A: CSRMatrix)
    requires Canonical(A)
    ensures FromDense(ToDense(A), A.cols) == A
  {
    Compressed.ExpandBuilds(Layout(A), A.rows, A.cols);
  }

  /** With no column repeated within a row, the accumulator's view of a
      matrix is its dense expansion; canonical matrices qualify. */
  lemma SummedIsToDense(A: CSRMatrix)
    requires Valid(A) && (NoDuplicates(A) || Canonical(A))
    ensures Summed(A) == ToDense(A)
  {
    if Canonical(A) {
      Compressed.CanonicalHasNoDuplicates(Layout(A), A.rows, A.cols);
    }
    Compressed.AccumulatedIsExpand(Layout(A), A.rows, A.cols);
  }

  /** Dense to CSR conversion. The column count is the length of the first
      row; every row is scanned up to that many cells. */
  method ConvertToCSR(matrix: seq<seq<int>>) returns (r: CSRMatrix)
    requires |matrix| >= 1 && forall i :: 0 <= i < |matrix| ==> |matrix[i]| >= |matrix[0]|
    ensures r.rows == |matrix| && r.cols == |matrix[0]|
    ensures Canonical(r)
    ensures ToDense(r) == Dense.Truncate(matrix, |matrix[0]|)
    ensures Dense.IsMatrix(matrix, |matrix|, |matrix[0]|) ==> ToDense(r) == matrix
    ensures r == FromDense(Dense.Truncate(matrix, |matrix[0]|), |matrix[0]|)
  {
    var valuesList: seq<int> := [];
    var columnIndicesList: seq<int> := [];
    var rowPointersList: seq<int> := [0];
    var rows := |matrix|;
    var cols := |matrix[0]|;
    ghost var scanned := Dense.Truncate(matrix, cols);
    var i := 0;
    while i < rows
      invariant 0 <= i <= rows
      invariant Compressed.Layout(rowPointersList, columnIndicesList, valuesList) == Compressed.Build(scanned[..i])
    {
      rowPointersList, columnIndicesList, valuesList :=
        Compressed.AppendNonZeros(matrix[i][..cols], rowPointersList, columnIndicesList, valuesList);
      Compressed.BuildStep(scanned, i);
      i := i + 1;
    }
    assert scanned[..rows] == scanned;
    r := CSRMatrix(valuesList, columnIndicesList, rowPointersList, rows, cols);
    FromDenseToDense(scanned, cols);
    if Dense.IsMatrix(matrix, rows, cols) {
      Dense.TruncateRectangular(matrix, cols);
    }
  }

  /** Adds `valA` times each entry of row `colA` of `B` into the accumulator
      cell of that entry's column: the innermost loop of the multiplication. */
  method ScatterEntry(B: CSRMatrix, colA: int, valA: int, rowResult: array<int>)
    requires Valid(B) && 0 <= colA < B.rows && rowResult.Length == B.cols
    modifies rowResult
    ensures rowResult[..] == Slices.AddScaled(old(rowResult[..]), valA, Row(B, colA))
  {
    ghost var before := rowResult[..];
    var k := B.rowPointers[colA];
    Compressed.ScatteredPartStart(Layout(B), B.rows, B.cols, colA, valA, before);
    while k < B.rowPointers[colA + 1]
      invariant B.rowPointers[colA] <= k <= B.rowPointers[colA + 1]
      invariant Compressed.ScatteredPart(Layout(B), B.rows, B.cols, colA, valA, before, k, rowResult[..])
    {
      var colB := B.columnIndices[k];
      var valB := B.values[k];
      Compressed.ScatteredPartStep(Layout(B), B.rows, B.cols, colA, valA, before, k, rowResult[..]);
      rowResult[colB] := rowResult[colB] + valA * valB;
      k := k + 1;
    }
    Compressed.ScatteredPartEnd(Layout(B), B.rows, B.cols, colA, valA, before, rowResult[..]);
  }

  /** Row `i` of the product, computed as the multiplication does it: clear
      the accumulator, then for every entry (colA, valA) of row `i` of `A`
      add valA times each entry of row colA of `B` into the accumulator
      cell of that entry's column. */
  method AccumulateRow(A: CSRMatrix, B: CSRMatrix, i: nat, rowResult: array<int>)
    requires Valid(A) && Valid(B) && A.cols == B.rows && i < A.rows
    requires rowResult.Length == B.cols
    modifies rowResult
    ensures rowResult[..] == Product(A, B)[i]
  {
    Compressed.Clear(rowResult);
    ScatterRow(A, B, i, rowResult);
    Compressed.ScatteredRowEnd(Layout(A), A.rows, A.cols, Layout(B), B.cols, i, rowResult[..]);
  }

  /** The middle loop of the multiplication: for every entry (colA, valA) of
      row `i` of `A`, scatters valA times row colA of `B` into the cleared
      accumulator. */
  method ScatterRow(A: CSRMatrix, B: CSRMatrix, i: nat, rowResult: array<int>)
    requires Valid(A) && Valid(B) && A.cols == B.rows && i < A.rows
    requires rowResult.Length == B.cols && rowResult[..] == seq(B.cols, c => 0)
    modifies rowResult
    ensures Compressed.ScatteredRow(Layout(A), A.rows, A.cols, Layout(B), B.cols, i, A.rowPointers[i + 1], rowResult[..])
  {
    var j := A.rowPointers[i];
    Compressed.ScatteredRowStart(Layout(A), A.rows, A.cols, Layout(B), B.cols, i);
    while j < A.rowPointers[i + 1]
      invariant A.rowPointers[i] <= j <= A.rowPointers[i + 1]
      invariant Compressed.ScatteredRow(Layout(A), A.rows, A.cols, Layout(B), B.cols, i, j, rowResult[..])
    {
      var colA := A.columnIndices[j];
      var valA := A.values[j];
      Compressed.ScatteredRowStep(Layout(A), A.rows, A.cols, Layout(B), B.cols, i, j, rowResult[..]);
      ScatterEntry(B, colA, valA, rowResult);
      j := j + 1;
    }
  }

  /** What the conversion of the dense product is: canonical, of the product's
      shape, and expanding back to the product; the product of the dense
      expansions when neither operand repeats a column within a row. */
  lemma ProductFacts(A: CSRMatrix, B: CSRMatrix, C: CSRMatrix)
    requires Valid(A) && Valid(B) && A.cols == B.rows
    requires C == FromDense(Product(A, B), B.cols)
    ensures C.rows == A.rows && C.cols == B.cols && Canonical(C)
    ensures ToDense(C) == Product(A, B)
    ensures NoDuplicates(A) && NoDuplicates(B) ==> ToDense(C) == Dense.MatMul(ToDense(A), ToDense(B), B.cols)
  {
    FromDenseToDense(Product(A, B), B.cols);
    if NoDuplicates(A) && NoDuplicates(B) {
      SummedIsToDense(A);
      SummedIsToDense(B);
    }
  }

  /** One pass of the row loop: accumulates row `i` of the product and saves
      it after the rows before it. */
  method MultiplyRow(A: CSRMatrix, B: CSRMatrix, i: nat, rowResult: array<int>,
                     values: seq<int>, columnIndices: seq<int>, rowPointers: seq<int>)
    returns (values': seq<int>, columnIndices': seq<int>, rowPointers': seq<int>)
    requires Valid(A) && Valid(B) && A.cols == B.rows && i < A.rows
    requires rowResult.Length == B.cols
    requires Compressed.Layout(rowPointers, columnIndices, values) == Compressed.Build(Product(A, B)[..i])
    modifies rowResult
    ensures Compressed.Layout(rowPointers', columnIndices', values') == Compressed.Build(Product(A, B)[..i + 1])
  {
    AccumulateRow(A, B, i, rowResult);
    rowPointers', columnIndices', values' := Compressed.AppendNonZeros(rowResult[..], rowPointers, columnIndices, values);
    Compressed.BuildStep(Product(A, B), i);
  }

  /** The row loop of the multiplication: accumulates and saves every row of
      the product in turn, so that the result sequences are the layout the
      conversion of the dense product has. */
  method MultiplyRows(A: CSRMatrix, B: CSRMatrix)
    returns (resultValues: seq<int>, resultColumnIndices: seq<int>, resultRowPointers: seq<int>)
    requires Valid(A) && Valid(B) && A.cols == B.rows
    ensures Compressed.Layout(resultRowPointers, resultColumnIndices, resultValues) == Compressed.Build(Product(A, B))
  {
    resultValues, resultColumnIndices, resultRowPointers := [], [], [0];
    var rowResult := new int[B.cols];
    var i := 0;
    while i < A.rows
      invariant 0 <= i <= A.rows
      invariant rowResult.Length == B.cols
      invariant Compressed.Layout(resultRowPointers, resultColumnIndices, resultValues) == Compressed.Build(Product(A, B)[..i])
    {
      resultValues, resultColumnIndices, resultRowPointers :=
        MultiplyRow(A, B, i, rowResult, resultValues, resultColumnIndices, resultRowPointers);
      i := i + 1;
    }
    assert Product(A, B)[..A.rows] == Product(A, B);
  }

  /** CSR x CSR multiplication. Fails, producing nothing, exactly when the
      left operand's column count differs from the right operand's row count.
      Otherwise the result is the canonical CSR form of the dense product of
      the operands as the accumulator sees them; for operands without a
      repeated column in a row that is the product of their dense expansions. */
  method Multiply(A: CSRMatrix, B: CSRMatrix) returns (r: Result<CSRMatrix>)
    requires Valid(A) && Valid(B)
    ensures r.Err? <==> A.cols != B.rows
    ensures r.Err? ==> r.error == DimensionMismatch
    ensures r.Ok? ==> r.value.rows == A.rows && r.value.cols == B.cols && Canonical(r.value)
    ensures r.Ok? ==> r.value == FromDense(Product(A, B), B.cols)
    ensures r.Ok? ==> ToDense(r.value) == Product(A, B)
    ensures r.Ok? && NoDuplicates(A) && NoDuplicates(B) ==> ToDense(r.value) == Dense.MatMul(ToDense(A), ToDense(B), B.cols)
  {
    if A.cols != B.rows {
      return Err(DimensionMismatch);
    }
    var resultValues, resultColumnIndices, resultRowPointers := MultiplyRows(A, B);
    var C := CSRMatrix(resultValues, resultColumnIndices, resultRowPointers, A.rows, B.cols);
    ProductFacts(A, B, C);
    r := Ok(C);
  }
}
