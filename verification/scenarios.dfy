/** Worked examples of the engines: the demonstration matrices of the two
    `main` routines, and a product whose terms cancel. */
module Scenarios {
  import Dense
  import Slices
  import Compressed
  import CSR
  import CSC
  import Williams
  import opened Outcome

  /** What the `main` routines do: convert two conformable dense matrices,
      multiply them, and obtain the canonical compressed form of their dense
      product. */
  method CSRConvertMultiply(a: seq<seq<int>>, b: seq<seq<int>>) returns (r: Result<CSR.CSRMatrix>)
    requires |a| >= 1 && |b| >= 1
    requires Dense.IsMatrix(a, |a|, |b|) && Dense.IsMatrix(b, |b|, |b[0]|)
    ensures r == Ok(CSR.FromDense(Dense.MatMul(a, b, |b[0]|), |b[0]|))
  {
    var A := CSR.ConvertToCSR(a);
    var B := CSR.ConvertToCSR(b);
    Compressed.CanonicalHasNoDuplicates(CSR.Layout(A), A.rows, A.cols);
    Compressed.CanonicalHasNoDuplicates(CSR.Layout(B), B.rows, B.cols);
    r := CSR.Multiply(A, B);
    CSR.ToDenseFromDense(r.value);
  }

  method CSCConvertMultiply(a: seq<seq<int>>, b: seq<seq<int>>) returns (r: Result<CSC.CSCMatrix>)
    requires |a| >= 1 && |b| >= 1
    requires Dense.IsMatrix(a, |a|, |b|) && Dense.IsMatrix(b, |b|, |b[0]|)
    ensures r == Ok(CSC.FromDense(Dense.MatMul(a, b, |b[0]|), |b[0]|))
  {
    var A := CSC.ConvertToCSC(a);
    var B := CSC.ConvertToCSC(b);
    Compressed.CanonicalHasNoDuplicates(CSC.Layout(A), A.cols, A.rows);
    Compressed.CanonicalHasNoDuplicates(CSC.Layout(B), B.cols, B.rows);
    r := CSC.Multiply(A, B);
    CSC.ToDenseFromDense(r.value);
  }

  /** Multiplying a canonical CSR matrix by the conversion of the identity
      gives the same matrix back, storage included. */
  method CSRTimesIdentity(A: CSR.CSRMatrix) returns (r: Result<CSR.CSRMatrix>)
    requires CSR.Canonical(A)
    ensures r == Ok(A)
  {
    var I := CSR.FromDense(Dense.Identity(A.cols), A.cols);
    CSR.FromDenseToDense(Dense.Identity(A.cols), A.cols);
    Compressed.CanonicalHasNoDuplicates(CSR.Layout(A), A.rows, A.cols);
    Compressed.CanonicalHasNoDuplicates(CSR.Layout(I), I.rows, I.cols);
    r := CSR.Multiply(A, I);
    Dense.MatMulIdentity(CSR.ToDense(A), A.cols);
    CSR.ToDenseFromDense(r.value);
    CSR.ToDenseFromDense(A);
  }

  /** Multiplying any well-formed matrix, repeated or unsorted columns and
      stored zeros included, by the conversion of a zero matrix stores
      nothing: every row pointer is 0. */
  method CSRTimesZero(A: CSR.CSRMatrix, p: nat) returns (r: Result<CSR.CSRMatrix>)
    requires CSR.Valid(A)
    ensures r.Ok? && r.value.rows == A.rows && r.value.cols == p
    ensures r.value.values == [] && r.value.columnIndices == []
    ensures forall i :: 0 <= i < |r.value.rowPointers| ==> r.value.rowPointers[i] == 0
  {
    var Z := CSR.FromDense(Dense.Zero(A.cols, p), p);
    CSR.FromDenseToDense(Dense.Zero(A.cols, p), p);
    CSR.SummedIsToDense(Z);
    r := CSR.Multiply(A, Z);
    Dense.MatMulZero(CSR.Summed(A), A.cols, p);
    NothingStored(r.value);
  }

  /** The CSC counterpart: multiplying a canonical CSC matrix by the
      conversion of the identity gives the same matrix back. */
  method CSCTimesIdentity(A: CSC.CSCMatrix) returns (r: Result<CSC.CSCMatrix>)
    requires CSC.Canonical(A)
    ensures r == Ok(A)
  {
    var I := CSC.FromDense(Dense.Identity(A.cols), A.cols);
    CSC.FromDenseToDense(Dense.Identity(A.cols), A.cols);
    Compressed.CanonicalHasNoDuplicates(CSC.Layout(A), A.cols, A.rows);
    Compressed.CanonicalHasNoDuplicates(CSC.Layout(I), I.cols, I.rows);
    r := CSC.Multiply(A, I);
    Dense.MatMulIdentity(CSC.ToDense(A), A.cols);
    CSC.ToDenseFromDense(r.value);
    CSC.ToDenseFromDense(A);
  }

  /** Multiplying any well-formed CSC matrix by the conversion of a zero
      matrix stores nothing: every column pointer is 0. */
  method CSCTimesZero(A: CSC.CSCMatrix, p: nat) returns (r: Result<CSC.CSCMatrix>)
    requires CSC.Valid(A)
    ensures r.Ok? && r.value.rows == A.rows && r.value.cols == p
    ensures r.value.values == [] && r.value.rowIndices == []
    ensures forall j :: 0 <= j < |r.value.colPointers| ==> r.value.colPointers[j] == 0
  {
    var Z := CSC.FromDense(Dense.Zero(A.cols, p), p);
    CSC.FromDenseToDense(Dense.Zero(A.cols, p), p);
    CSC.SummedIsToDense(Z);
    r := CSC.Multiply(A, Z);
    Dense.MatMulZero(CSC.Summed(A), A.cols, p);
    NothingStoredByColumn(r.value);
  }

  /** The harness's copy of the CSR multiplication and the original return
      the same result on every pair of well-formed operands. */
  method CopiesAgree(A: CSR.CSRMatrix, B: CSR.CSRMatrix)
    returns (r1: Result<CSR.CSRMatrix>, r2: Result<CSR.CSRMatrix>)
    requires CSR.Valid(A) && CSR.Valid(B)
    ensures r1 == r2
    ensures r1.Err? <==> A.cols != B.rows
  {
    r1 := CSR.Multiply(A, B);
    r2 := Williams.Multiply(A, B);
  }

  /** The two engines agree: multiplying the same dense operands row by row
      and column by column stores the same matrix, their common expansion
      being the dense product. */
  method OrientationsAgree(a: seq<seq<int>>, b: seq<seq<int>>)
    returns (r: Result<CSR.CSRMatrix>, c: Result<CSC.CSCMatrix>)
    requires |a| >= 1 && |b| >= 1
    requires Dense.IsMatrix(a, |a|, |b|) && Dense.IsMatrix(b, |b|, |b[0]|)
    ensures r.Ok? && c.Ok? && CSR.Canonical(r.value) && CSC.Canonical(c.value)
    ensures r.value.rows == c.value.rows == |a| && r.value.cols == c.value.cols == |b[0]|
    ensures CSR.ToDense(r.value) == CSC.ToDense(c.value) == Dense.MatMul(a, b, |b[0]|)
  {
    r := CSRConvertMultiply(a, b);
    c := CSCConvertMultiply(a, b);
    CSR.FromDenseToDense(Dense.MatMul(a, b, |b[0]|), |b[0]|);
    CSC.FromDenseToDense(Dense.MatMul(a, b, |b[0]|), |b[0]|);
  }

  /** A canonical CSR matrix whose expansion is all zeros stores nothing. */
  lemma NothingStored(C: CSR.CSRMatrix)
    requires CSR.Canonical(C) && CSR.ToDense(C) == Dense.Zero(C.rows, C.cols)
    ensures C.values == [] && C.columnIndices == []
    ensures forall i :: 0 <= i < |C.rowPointers| ==> C.rowPointers[i] == 0
  {
    CSR.ToDenseFromDense(C);
    ZerosStoreNothing(Dense.Zero(C.rows, C.cols), C.cols);
  }

  /** A canonical CSC matrix whose expansion is all zeros stores nothing. */
  lemma NothingStoredByColumn(C: CSC.CSCMatrix)
    requires CSC.Canonical(C) && CSC.ToDense(C) == Dense.Zero(C.rows, C.cols)
    ensures C.values == [] && C.rowIndices == []
    ensures forall j :: 0 <= j < |C.colPointers| ==> C.colPointers[j] == 0
  {
    CSC.ToDenseFromDense(C);
    ZerosStoreNothing(Dense.Transpose(Dense.Zero(C.rows, C.cols), C.cols), C.rows);
  }

  /** Compressing vectors that are all zeros stores nothing: every pointer
      is 0. */
  lemma ZerosStoreNothing(vecs: seq<seq<int>>, width: nat)
    requires forall i :: 0 <= i < |vecs| ==> |vecs[i]| == width
    requires forall i, c :: 0 <= i < |vecs| && 0 <= c < width ==> vecs[i][c] == 0
    ensures Compressed.Build(vecs).values == [] && Compressed.Build(vecs).indices == []
    ensures forall i :: 0 <= i <= |vecs| ==> Compressed.Build(vecs).pointers[i] == 0
  {
    var L := Compressed.Build(vecs);
    Compressed.BuildSlices(vecs, width);
    forall i | 0 <= i < |vecs|
      ensures L.pointers[i] == L.pointers[i + 1]
    {
      CompressZeros(vecs[i]);
    }
    Flat(L.pointers);
  }

  /** The non-zero scan of an all-zero vector keeps nothing. */
  lemma {:induction false} CompressZeros(v: seq<int>)
    requires forall c :: 0 <= c < |v| ==> v[c] == 0
    ensures Slices.Compress(v) == Slices.Slice([], [])
    decreases |v|
  {
    if |v| > 0 {
      CompressZeros(v[..|v| - 1]);
    }
  }

  lemma {:induction false} Flat(ptr: seq<int>)
    requires |ptr| >= 1 && ptr[0] == 0
    requires forall i :: 0 <= i < |ptr| - 1 ==> ptr[i] == ptr[i + 1]
    ensures forall i :: 0 <= i < |ptr| ==> ptr[i] == 0
    decreases |ptr|
  {
    if |ptr| > 1 {
      var init := ptr[..|ptr| - 1];
      Flat(init);
      assert ptr[|ptr| - 1] == init[|ptr| - 2];
    }
  }

  /** [[1, -1]] x [[1], [1]] is [[0]]: the two products cancel in the
      accumulator and the exact-zero filter stores nothing for the row. */
  method CancellingRow() returns (r: Result<CSR.CSRMatrix>)
    ensures r == Ok(CSR.CSRMatrix([], [], [0, 0], 1, 1))
  {
    var a: seq<seq<int>> := [[1, -1]];
    var b: seq<seq<int>> := [[1], [1]];
    assert Dense.IsMatrix(a, 1, 2) && Dense.IsMatrix(b, 2, 1);
    r := CSRConvertMultiply(a, b);
    Cancels();
    EmptyRow();
  }

  lemma Cancels()
    ensures Dense.MatMul([[1, -1]], [[1], [1]], 1) == [[0]]
  {
    assert Dense.Column([[1], [1]], 0) == [1, 1];
    assert Dense.Dot([1, -1], [1, 1]) == 0 by {
      assert [1, -1][..1] == [1] && [1, 1][..1] == [1];
      assert Dense.Dot([1], [1]) == 1 by {
        assert [1][..0] == [];
      }
    }
    var c := Dense.MatMul([[1, -1]], [[1], [1]], 1);
    assert c[0][0] == 0;
    assert c[0] == [0];
  }

  lemma EmptyRow()
    ensures CSR.FromDense([[0]], 1) == CSR.CSRMatrix([], [], [0, 0], 1, 1)
  {
    assert [0][..0] == [];
    assert Slices.Compress([0]) == Slices.Slice([], []);
    assert [[0]][..0] == [];
  }

  /** The demonstration operands of both `main` routines and their product. */
  const DemoA: seq<seq<int>> := [[1, 0, 0, 0], [0, 2, 0, 0], [0, 0, 0, 3], [4, 0, 5, 0]]
  const DemoB: seq<seq<int>> := [[0, 0, 1, 0], [2, 0, 0, 0], [0, 0, 0, 3], [0, 4, 0, 0]]
  const DemoC: seq<seq<int>> := [[0, 0, 1, 0], [4, 0, 0, 0], [0, 12, 0, 0], [0, 0, 4, 15]]

  lemma {:induction false} DotFour(a: seq<int>, b: seq<int>)
    requires |a| == |b| == 4
    ensures Dense.Dot(a, b) == a[0] * b[0] + a[1] * b[1] + a[2] * b[2] + a[3] * b[3]
  {
    var a3, a2, a1 := a[..3], a[..2], a[..1];
    var b3, b2, b1 := b[..3], b[..2], b[..1];
    assert a3[..2] == a2 && a2[..1] == a1 && b3[..2] == b2 && b2[..1] == b1;
    assert Dense.Dot(a1, b1) == a[0] * b[0] by {
      assert a1[..0] == [] && b1[..0] == [];
    }
    assert Dense.Dot(a2, b2) == Dense.Dot(a1, b1) + a[1] * b[1];
    assert Dense.Dot(a3, b3) == Dense.Dot(a2, b2) + a[2] * b[2];
  }

  lemma DemoProduct()
    ensures Dense.MatMul(DemoA, DemoB, 4) == DemoC
  {
    var c := Dense.MatMul(DemoA, DemoB, 4);
    forall i, j | 0 <= i < 4 && 0 <= j < 4
      ensures c[i][j] == DemoC[i][j]
    {
      DotFour(DemoA[i], Dense.Column(DemoB, j));
    }
    assert forall i | 0 <= i < 4 :: c[i] == DemoC[i];
  }

  lemma CompressFour(v: seq<int>)
    requires |v| == 4
    ensures Slices.Compress(v) == Slices.Keep(Slices.Keep(Slices.Keep(Slices.Keep(Slices.Slice([], []), 0, v[0]), 1, v[1]), 2, v[2]), 3, v[3])
  {
    var v3, v2, v1 := v[..3], v[..2], v[..1];
    assert v3[..2] == v2 && v2[..1] == v1;
    var empty := Slices.Slice([], []);
    assert Slices.Compress(v1) == Slices.Keep(empty, 0, v[0]) by {
      assert v1[..0] == [];
    }
    assert Slices.Compress(v2) == Slices.Keep(Slices.Compress(v1), 1, v[1]);
    assert Slices.Compress(v3) == Slices.Keep(Slices.Compress(v2), 2, v[2]);
  }

  lemma BuildFour(m: seq<seq<int>>)
    requires |m| == 4
    ensures Compressed.Build(m) == Compressed.Push(Compressed.Push(Compressed.Push(Compressed.Push(Compressed.Layout([0], [], []), m[0]), m[1]), m[2]), m[3])
  {
    var m3, m2, m1 := m[..3], m[..2], m[..1];
    assert m3[..2] == m2 && m2[..1] == m1;
    assert Compressed.Build(m1) == Compressed.Push(Compressed.Layout([0], [], []), m[0]) by {
      assert m1[..0] == [];
    }
    assert Compressed.Build(m2) == Compressed.Push(Compressed.Build(m1), m[1]);
    assert Compressed.Build(m3) == Compressed.Push(Compressed.Build(m2), m[2]);
  }

  lemma DemoCSR()
    ensures CSR.FromDense(DemoC, 4) == CSR.CSRMatrix([1, 4, 12, 4, 15], [2, 0, 1, 2, 3], [0, 1, 2, 3, 5], 4, 4)
  {
    BuildFour(DemoC);
    CompressFour(DemoC[0]);
    CompressFour(DemoC[1]);
    CompressFour(DemoC[2]);
    CompressFour(DemoC[3]);
  }

  const DemoCColumns: seq<seq<int>> := [[0, 4, 0, 0], [0, 0, 12, 0], [1, 0, 0, 4], [0, 0, 0, 15]]

  lemma DemoTranspose()
    ensures Dense.Transpose(DemoC, 4) == DemoCColumns
  {
    var t := Dense.Transpose(DemoC, 4);
    assert forall j | 0 <= j < 4 :: t[j] == DemoCColumns[j];
  }

  lemma DemoCSC()
    ensures CSC.FromDense(DemoC, 4) == CSC.CSCMatrix([4, 12, 1, 4, 15], [1, 2, 0, 3, 3], [0, 1, 2, 4, 5], 4, 4)
  {
    DemoTranspose();
    DemoColumnsLayout();
  }

  lemma DemoColumnsLayout()
    ensures Compressed.Build(DemoCColumns) == Compressed.Layout([0, 1, 2, 4, 5], [1, 2, 0, 3, 3], [4, 12, 1, 4, 15])
  {
    BuildFour(DemoCColumns);
    CompressFour(DemoCColumns[0]);
    CompressFour(DemoCColumns[1]);
    CompressFour(DemoCColumns[2]);
    CompressFour(DemoCColumns[3]);
  }

  /** The CSR engine's demonstration: both operands converted, then
      multiplied. */
  method CSRDemo() returns (r: Result<CSR.CSRMatrix>)
    ensures r == Ok(CSR.CSRMatrix([1, 4, 12, 4, 15], [2, 0, 1, 2, 3], [0, 1, 2, 3, 5], 4, 4))
  {
    assert Dense.IsMatrix(DemoA, 4, 4) && Dense.IsMatrix(DemoB, 4, 4);
    r := CSRConvertMultiply(DemoA, DemoB);
    DemoProduct();
    DemoCSR();
  }

  /** The CSC engine's demonstration: the same operands and the same product,
      stored column by column. */
  method CSCDemo() returns (r: Result<CSC.CSCMatrix>)
    ensures r == Ok(CSC.CSCMatrix([4, 12, 1, 4, 15], [1, 2, 0, 3, 3], [0, 1, 2, 4, 5], 4, 4))
  {
    assert Dense.IsMatrix(DemoA, 4, 4) && Dense.IsMatrix(DemoB, 4, 4);
    r := CSCConvertMultiply(DemoA, DemoB);
    DemoProduct();
    DemoCSC();
  }

  /** A 3 x 3 file with entries in rows 1 and 3 only: the empty middle row
      gets a pointer equal to its successor's start. */
  method LoadWithEmptyRow() returns (A: CSR.CSRMatrix)
    ensures A == CSR.CSRMatrix([5, 7], [0, 1], [0, 1, 1, 2], 3, 3)
  {
    var entries := [Williams.Entry(1, 1, 5), Williams.Entry(3, 2, 7)];
    A := Williams.LoadEntries(3, 3, entries);
    assert entries[..1] == [entries[0]];
    assert A.rowPointers == [0, 1, 1, 2];
  }

  /** Entries listed column by column, row 2 before row 1, as many Matrix
      Market files order them: the loader does not sort, so the entry of row 1
      is counted in row 2 and row 1 is left empty. */
  method LoadOutOfOrder() returns (A: CSR.CSRMatrix)
    ensures A == CSR.CSRMatrix([5, 7], [0, 0], [0, 0, 2], 2, 2)
  {
    var entries := [Williams.Entry(2, 1, 5), Williams.Entry(1, 1, 7)];
    A := Williams.LoadEntries(2, 2, entries);
    assert entries[..1] == [entries[0]];
    assert A.rowPointers == [0, 0, 2];
  }

  /** A 1 x 1 header with an entry in row 2: the entry is stored, but the
      pointer sequence keeps its two pointers and closes the only row before
      it, so the entry lies in no row. */
  method LoadRowPastHeader() returns (A: CSR.CSRMatrix)
    ensures A == CSR.CSRMatrix([5], [0], [0, 0], 1, 1)
  {
    var entries := [Williams.Entry(2, 1, 5)];
    A := Williams.LoadEntries(1, 1, entries);
    assert A.rowPointers == [0, 0];
  }

  /** A 1 x 1 header with an entry in row 3: the back-fill runs past the
      header, leaving three pointers instead of two. */
  method LoadRowBeyondHeader() returns (A: CSR.CSRMatrix)
    ensures A == CSR.CSRMatrix([5], [0], [0, 0, 0], 1, 1)
  {
    var entries := [Williams.Entry(3, 1, 5)];
    A := Williams.LoadEntries(1, 1, entries);
    assert A.rowPointers == [0, 0, 0];
  }
}
