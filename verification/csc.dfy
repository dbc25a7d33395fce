/** The CSC engine: dense-to-CSC conversion, CSC x CSC multiplication with a
    per-column dense accumulator, and the dense expansion used for display.
    It mirrors the CSR engine with the roles of rows and columns swapped. */
module CSC {
  import Dense
  import Slices
  import Compressed
  import opened Outcome

  /** A matrix in Compressed Sparse Column form: the entries of column `j`
      are positions colPointers[j] .. colPointers[j + 1] - 1 of the parallel
      `values` and `rowIndices` sequences. */
  datatype CSCMatrix = CSCMatrix(values: seq<int>, rowIndices: seq<int>, colPointers: seq<int>, rows: nat, cols: nat)

  /** Columns are the slices; row indices are the secondary indices. */
  function Layout(A: CSCMatrix): (L: Compressed.Layout)
  {
    Compressed.Layout(A.colPointers, A.rowIndices, A.values)
  }

  predicate Valid(A: CSCMatrix)
  {
    Compressed.WellFormed(Layout(A), A.cols, A.rows)
  }

  predicate Canonical(A: CSCMatrix)
  {
    Compressed.Canonical(Layout(A), A.cols, A.rows)
  }

  predicate NoDuplicates(A: CSCMatrix)
  {
    Compressed.NoDuplicates(Layout(A), A.cols, A.rows)
  }

  /** The entries of column `j`. */
  function Column(A: CSCMatrix, j: nat): (s: Slices.Slice)
    requires Valid(A) && j < A.cols
  {
    Compressed.Slice(Layout(A), j)
  }

  /** The dense matrix the display routine rebuilds: a zeroed rows x cols
      matrix into which every stored entry is written, column by column, in
      storage order. */
  function ToDense(A: CSCMatrix): (m: seq<seq<int>>)
    requires Valid(A)
    ensures Dense.IsMatrix(m, A.rows, A.cols)
    ensures forall i, j :: 0 <= i < A.rows && 0 <= j < A.cols ==> m[i][j] == Slices.Lookup(Column(A, j), i)
  {
    Dense.Transpose(Compressed.Expand(Layout(A), A.cols, A.rows), A.rows)
  }

  /** The dense matrix the multiplication's accumulator sees: stored entries
      of a column that share a row add up. */
  function Summed(A: CSCMatrix): (m: seq<seq<int>>)
    requires Valid(A)
    ensures Dense.IsMatrix(m, A.rows, A.cols)
  {
    Dense.Transpose(Compressed.Accumulated(Layout(A), A.cols, A.rows), A.rows)
  }

  /** The dense product of two CSC matrices as the accumulator sees them. */
  function Product(A: CSCMatrix, B: CSCMatrix): (m: seq<seq<int>>)
    requires Valid(A) && Valid(B) && A.cols == B.rows
    ensures Dense.IsMatrix(m, A.rows, B.cols)
  {
    Dense.MatMul(Summed(A), Summed(B), B.cols)
  }

  /** The CSC matrix that scanning `m` column by column, keeping the non-zero
      cells, produces. */
  function FromDense(m: seq<seq<int>>, cols: nat): (r: CSCMatrix)
    requires Dense.IsMatrix(m, |m|, cols)
    ensures r.rows == |m| && r.cols == cols && Canonical(r)
  {
    Compressed.BuildCanonical(Dense.Transpose(m, cols), |m|);
    var L := Compressed.Build(Dense.Transpose(m, cols));
    CSCMatrix(L.values, L.indices, L.pointers, |m|, cols)
  }

  /** What the display routine shows: each stored entry sits at its row and
      column when no row repeats within a column, and every other cell is 0. */
  lemma ToDenseEntries(A: CSCMatrix, j: nat)
    requires Valid(A) && j < A.cols && Slices.Distinct(Column(A, j).indices)
    ensures forall k :: A.colPointers[j] <= k < A.colPointers[j + 1] ==> ToDense(A)[A.rowIndices[k]][j] == A.values[k]
    ensures forall r :: 0 <= r < A.rows && r !in A.rowIndices[A.colPointers[j]..A.colPointers[j + 1]] ==> ToDense(A)[r][j] == 0
  {
    var s := Column(A, j);
    var lo := A.colPointers[j];
    forall k | lo <= k < A.colPointers[j + 1]
      ensures ToDense(A)[A.rowIndices[k]][j] == A.values[k]
    {
      assert s.indices[k - lo] == A.rowIndices[k];
      Slices.LookupDistinct(s, k - lo);
    }
    forall r | 0 <= r < A.rows && r !in A.rowIndices[lo..A.colPointers[j + 1]]
      ensures ToDense(A)[r][j] == 0
    {
      Slices.LookupAbsent(s, r);
    }
  }

  /** Round trip: converting a rectangular matrix and expanding the result
      gives the matrix back, and the conversion is canonical. */
  lemma FromDenseToDense(m: seq<seq<int>>, cols: nat)
    requires Dense.IsMatrix(m, |m|, cols)
    ensures Canonical(FromDense(m, cols))
    ensures ToDense(FromDense(m, cols)) == m
  {
    var t := Dense.Transpose(m, cols);
    Compressed.BuildCanonical(t, |m|);
    Compressed.BuildExpands(t, |m|);
    Dense.TransposeTwice(m, cols);
  }

  /** The other round trip: a canonical CSC matrix is exactly the conversion
      of its own dense expansion. */
  lemma ToDenseFromDense(A: CSCMatrix)
    requires Canonical(A)
    ensures FromDense(ToDense(A), A.cols) == A
  {
    var e := Compressed.Expand(Layout(A), A.cols, A.rows);
    Dense.TransposeTwice(e, A.rows);
    Compressed.ExpandBuilds(Layout(A), A.cols, A.rows);
  }

  /** With no row repeated within a column, the accumulator's view of a
      matrix is its dense expansion; canonical matrices qualify. */
  lemma SummedIsToDense(A: CSCMatrix)
    requires Valid(A) && (NoDuplicates(A) || Canonical(A))
    ensures Summed(A) == ToDense(A)
  {
    if Canonical(A) {
      Compressed.CanonicalHasNoDuplicates(Layout(A), A.cols, A.rows);
    }
    Compressed.AccumulatedIsExpand(Layout(A), A.cols, A.rows);
  }

  /** Column `jB` of the product is row `jB` of the product of the operands'
      per-column expansions taken in the other order: the identity that lets
      the column-by-column accumulator compute A x B. */
  lemma ProductColumns(A: CSCMatrix, B: CSCMatrix)
    requires Valid(A) && Valid(B) && A.cols == B.rows
    ensures Dense.Transpose(Product(A, B), B.cols)
         == Dense.MatMul(Compressed.Accumulated(Layout(B), B.cols, B.rows), Compressed.Accumulated(Layout(A), A.cols, A.rows), A.rows)
  {
    var accA := Compressed.Accumulated(Layout(A), A.cols, A.rows);
    var accB := Compressed.Accumulated(Layout(B), B.cols, B.rows);
    Dense.MatMulTranspose(Summed(A), Summed(B), B.cols);
    Dense.TransposeTwice(accA, A.rows);
    Dense.TransposeTwice(accB, B.rows);
  }

  /** Dense to CSC conversion. The column count is the length of the first
      row; every row is read up to that many cells. */
  method ConvertToCSC(matrix: seq<seq<int>>) returns (r: CSCMatrix)
    requires |matrix| >= 1 && forall i :: 0 <= i < |matrix| ==> |matrix[i]| >= |matrix[0]|
    ensures r.rows == |matrix| && r.cols == |matrix[0]|
    ensures Canonical(r)
    ensures ToDense(r) == Dense.Truncate(matrix, |matrix[0]|)
    ensures Dense.IsMatrix(matrix, |matrix|, |matrix[0]|) ==> ToDense(r) == matrix
    ensures r == FromDense(Dense.Truncate(matrix, |matrix[0]|), |matrix[0]|)
  {
    var valuesList: seq<int> := [];
    var rowIndicesList: seq<int> := [];
    var colPointersList: seq<int> := [0];
    var rows := |matrix|;
    var cols := |matrix[0]|;
    ghost var scanned := Dense.Truncate(matrix, cols);
    ghost var columns := Dense.Transpose(scanned, cols);
    var j := 0;
    while j < cols
      invariant 0 <= j <= cols
      invariant Compressed.Layout(colPointersList, rowIndicesList, valuesList) == Compressed.Build(columns[..j])
    {
      assert Dense.Column(matrix, j) == columns[j];
      colPointersList, rowIndicesList, valuesList :=
        Compressed.AppendNonZeros(Dense.Column(matrix, j), colPointersList, rowIndicesList, valuesList);
      Compressed.BuildStep(columns, j);
      j := j + 1;
    }
    assert columns[..cols] == columns;
    r := CSCMatrix(valuesList, rowIndicesList, colPointersList, rows, cols);
    FromDenseToDense(scanned, cols);
    if Dense.IsMatrix(matrix, rows, cols) {
      Dense.TruncateRectangular(matrix, cols);
    }
  }

  /** Adds `valB` times each entry of column `rowB` of `A` into the
      accumulator cell of that entry's row: the innermost loop of the
      multiplication. */
  method ScatterEntry(A: CSCMatrix, rowB: int, valB: int, colResult: array<int>)
    requires Valid(A) && 0 <= rowB < A.cols && colResult.Length == A.rows
    modifies colResult
    ensures colResult[..] == Slices.AddScaled(old(colResult[..]), valB, Column(A, rowB))
  {
    ghost var before := colResult[..];
    var i := A.colPointers[rowB];
    Compressed.ScatteredPartStart(Layout(A), A.cols, A.rows, rowB, valB, before);
    while i < A.colPointers[rowB + 1]
      invariant A.colPointers[rowB] <= i <= A.colPointers[rowB + 1]
      invariant Compressed.ScatteredPart(Layout(A), A.cols, A.rows, rowB, valB, before, i, colResult[..])
    {
      var rowA := A.rowIndices[i];
      var valA := A.values[i];
      Compressed.ScatteredPartStep(Layout(A), A.cols, A.rows, rowB, valB, before, i, colResult[..]);
      assert valB * valA == valA * valB;
      colResult[rowA] := colResult[rowA] + valA * valB;
      i := i + 1;
    }
    Compressed.ScatteredPartEnd(Layout(A), A.cols, A.rows, rowB, valB, before, colResult[..]);
  }

  /** Column `jB` of the product, computed as the multiplication does it:
      clear the accumulator, then for every entry (rowB, valB) of column `jB`
      of `B` add valB times each entry of column rowB of `A` into the
      accumulator cell of that entry's row. */
  method AccumulateColumn(A: CSCMatrix, B: CSCMatrix, jB: nat, colResult: array<int>)
    requires Valid(A) && Valid(B) && A.cols == B.rows && jB < B.cols
    requires colResult.Length == A.rows
    modifies colResult
    ensures colResult[..] == Dense.Transpose(Product(A, B), B.cols)[jB]
  {
    Compressed.Clear(colResult);
    ScatterColumn(A, B, jB, colResult);
    ScatteredColumnIsProduct(A, B, jB, colResult[..]);
  }

  /** The middle loop of the multiplication: for every entry (rowB, valB) of
      column `jB` of `B`, scatters valB times column rowB of `A` into the
      cleared accumulator. */
  method ScatterColumn(A: CSCMatrix, B: CSCMatrix, jB: nat, colResult: array<int>)
    requires Valid(A) && Valid(B) && A.cols == B.rows && jB < B.cols
    requires colResult.Length == A.rows && colResult[..] == seq(A.rows, r => 0)
    modifies colResult
    ensures Compressed.ScatteredRow(Layout(B), B.cols, B.rows, Layout(A), A.rows, jB, B.colPointers[jB + 1], colResult[..])
  {
    var k := B.colPointers[jB];
    Compressed.ScatteredRowStart(Layout(B), B.cols, B.rows, Layout(A), A.rows, jB);
    while k < B.colPointers[jB + 1]
      invariant B.colPointers[jB] <= k <= B.colPointers[jB + 1]
      invariant Compressed.ScatteredRow(Layout(B), B.cols, B.rows, Layout(A), A.rows, jB, k, colResult[..])
    {
      var rowB := B.rowIndices[k];
      var valB := B.values[k];
      Compressed.ScatteredRowStep(Layout(B), B.cols, B.rows, Layout(A), A.rows, jB, k, colResult[..]);
      ScatterEntry(A, rowB, valB, colResult);
      k := k + 1;
    }
  }

  /** Once every entry of column `jB` of `B` is scattered, the accumulator
      holds column `jB` of the product. */
  lemma ScatteredColumnIsProduct(A: CSCMatrix, B: CSCMatrix, jB: nat, acc: seq<int>)
    requires Valid(A) && Valid(B) && A.cols == B.rows && jB < B.cols
    requires Compressed.ScatteredRow(Layout(B), B.cols, B.rows, Layout(A), A.rows, jB, B.colPointers[jB + 1], acc)
    ensures acc == Dense.Transpose(Product(A, B), B.cols)[jB]
  {
    Compressed.ScatteredRowEnd(Layout(B), B.cols, B.rows, Layout(A), A.rows, jB, acc);
    ProductColumns(A, B);
  }

  /** What the conversion of the dense product is: canonical, of the product's
      shape, and expanding back to the product; the product of the dense
      expansions when neither operand repeats a row within a column. */
  lemma ProductFacts(A: CSCMatrix, B: CSCMatrix, C: CSCMatrix)
    requires Valid(A) && Valid(B) && A.cols == B.rows
    requires C == FromDense(Product(A, B), B.cols)
    ensures C.rows == A.rows && C.cols == B.cols && Canonical(C)
    ensures ToDense(C) == Product(A, B)
    ensures NoDuplicates(A) && NoDuplicates(B) ==> ToDense(C) == Dense.MatMul(ToDense(A), ToDense(B), B.cols)
  {
    FromDenseToDense(Product(A, B), B.cols);
    if NoDuplicates(A) && NoDuplicates(B) {
      SummedIsToDense(A);
      SummedIsToDense(B);
    }
  }

  /** One pass of the column loop: accumulates column `jB` of the product
      and saves it after the columns before it. */
  method MultiplyColumn(A: CSCMatrix, B: CSCMatrix, jB: nat, colResult: array<int>,
                        values: seq<int>, rowIndices: seq<int>, colPointers: seq<int>)
    returns (values': seq<int>, rowIndices': seq<int>, colPointers': seq<int>)
    requires Valid(A) && Valid(B) && A.cols == B.rows && jB < B.cols
    requires colResult.Length == A.rows
    requires Compressed.Layout(colPointers, rowIndices, values) == Compressed.Build(Dense.Transpose(Product(A, B), B.cols)[..jB])
    modifies colResult
    ensures Compressed.Layout(colPointers', rowIndices', values') == Compressed.Build(Dense.Transpose(Product(A, B), B.cols)[..jB + 1])
  {
    AccumulateColumn(A, B, jB, colResult);
    colPointers', rowIndices', values' := Compressed.AppendNonZeros(colResult[..], colPointers, rowIndices, values);
    Compressed.BuildStep(Dense.Transpose(Product(A, B), B.cols), jB);
  }

  /** The column loop of the multiplication: accumulates and saves every
      column of the product in turn, so that the result sequences are the
      layout the conversion of the dense product has. */
  method MultiplyColumns(A: CSCMatrix, B: CSCMatrix)
    returns (resultValues: seq<int>, resultRowIndices: seq<int>, resultColPointers: seq<int>)
    requires Valid(A) && Valid(B) && A.cols == B.rows
    ensures Compressed.Layout(resultColPointers, resultRowIndices, resultValues) == Compressed.Build(Dense.Transpose(Product(A, B), B.cols))
  {
    resultValues, resultRowIndices, resultColPointers := [], [], [0];
    var colResult := new int[A.rows];
    var jB := 0;
    while jB < B.cols
      invariant 0 <= jB <= B.cols
      invariant colResult.Length == A.rows
      invariant Compressed.Layout(resultColPointers, resultRowIndices, resultValues) == Compressed.Build(Dense.Transpose(Product(A, B), B.cols)[..jB])
    {
      resultValues, resultRowIndices, resultColPointers :=
        MultiplyColumn(A, B, jB, colResult, resultValues, resultRowIndices, resultColPointers);
      jB := jB + 1;
    }
    assert Dense.Transpose(Product(A, B), B.cols)[..B.cols] == Dense.Transpose(Product(A, B), B.cols);
  }

  /** CSC x CSC multiplication. Fails, producing nothing, exactly when the
      left operand's column count differs from the right operand's row count.
      Otherwise the result is the canonical CSC form of the dense product of
      the operands as the accumulator sees them; for operands without a
      repeated row in a column that is the product of their dense expansions. */
  method Multiply(A: CSCMatrix, B: CSCMatrix) returns (r: Result<CSCMatrix>)
    requires Valid(A) && Valid(B)
    ensures r.Err? <==> A.cols != B.rows
    ensures r.Err? ==> r.error == DimensionMismatch
    ensures r.Ok? ==> r.value.rows == A.rows && r.value.cols == B.cols && Canonical(r.value)
    ensures r.Ok? ==> r.value == FromDense(Product(A, B), B.cols)
    ensures r.Ok? ==> ToDense(r.value) == Product(A, B)
    ensures r.Ok? && NoDuplicates(A) && NoDuplicates(B) ==> ToDense(r.value) == Dense.MatMul(ToDense(A), ToDense(B), B.cols)
  {
    if A.cols != B.rows {
      return Err(DimensionMismatch);
    }
    var resultValues, resultRowIndices, resultColPointers := MultiplyColumns(A, B);
    var C := CSCMatrix(resultValues, resultRowIndices, resultColPointers, A.rows, B.cols);
    ProductFacts(A, B, C);
    r := Ok(C);
  }
}
