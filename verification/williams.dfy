/** The benchmark harness's copy of the CSR engine: its multiplication, a
    line-for-line duplicate of the CSR one, and the row-pointer bookkeeping of
    its Matrix Market loader, applied to entries that are already parsed. */
module Williams {
  import CSR
  import Dense
  import opened Outcome

  /** CSR x CSR multiplication as the harness copy performs it. The result is
      fully determined: the dimension error exactly when the left operand's
      column count differs from the right operand's row count, and otherwise
      the canonical CSR form of the product. The CSR engine's `Multiply`
      promises that same value, so the two agree on every input. */
  method Multiply(A: CSR.CSRMatrix, B: CSR.CSRMatrix) returns (r: Result<CSR.CSRMatrix>)
    requires CSR.Valid(A) && CSR.Valid(B)
    ensures r == if A.cols != B.rows then Err(DimensionMismatch)
                 else Ok(CSR.FromDense(CSR.Product(A, B), B.cols))
    ensures r.Ok? ==> r.value.rows == A.rows && r.value.cols == B.cols && CSR.Canonical(r.value)
    ensures r.Ok? && CSR.NoDuplicates(A) && CSR.NoDuplicates(B) ==>
              CSR.ToDense(r.value) == Dense.MatMul(CSR.ToDense(A), CSR.ToDense(B), B.cols)
  {
    if A.cols != B.rows {
      return Err(DimensionMismatch);
    }
    var resultValues, resultColumnIndices, resultRowPointers := CSR.MultiplyRows(A, B);
    var C := CSR.CSRMatrix(resultValues, resultColumnIndices, resultRowPointers, A.rows, B.cols);
    CSR.ProductFacts(A, B, C);
    r := Ok(C);
  }

  /** One parsed data line of a Matrix Market file: a 1-based row and column
      and the value stored there. */
  datatype Entry = Entry(row: int, col: int, value: int)

  /** The largest 1-based row among the entries, or 0 when there are none. */
  function Top(entries: seq<Entry>): (top: int)
    ensures top >= 0
    ensures forall k :: 0 <= k < |entries| ==> entries[k].row <= top
  {
    if |entries| == 0 then 0
    else
      var t := Top(entries[..|entries| - 1]);
      if entries[|entries| - 1].row > t then entries[|entries| - 1].row else t
  }

  /** Position of the first entry whose 0-based row is at least `p`, or the
      number of entries when there is none. */
  function First(entries: seq<Entry>, p: int): (k: nat)
    ensures k <= |entries|
  {
    if |entries| == 0 then 0
    else if entries[0].row - 1 >= p then 0
    else 1 + First(entries[1..], p)
  }

  /** The number of entries whose 0-based row is below `r`. */
  function Count(entries: seq<Entry>, r: int): (n: nat)
    ensures n <= |entries|
  {
    if |entries| == 0 then 0
    else (if entries[0].row - 1 < r then 1 else 0) + Count(entries[1..], r)
  }

  predicate RowSorted(entries: seq<Entry>)
  {
    forall j, k :: 0 <= j < k < |entries| ==> entries[j].row <= entries[k].row
  }

  /** Every 1-based row lies in 1 .. rows. */
  predicate RowsInRange(entries: seq<Entry>, rows: nat)
  {
    forall k :: 0 <= k < |entries| ==> 1 <= entries[k].row <= rows
  }

  /** Every 1-based column lies in 1 .. cols. */
  predicate ColsInRange(entries: seq<Entry>, cols: nat)
  {
    forall k :: 0 <= k < |entries| ==> 1 <= entries[k].col <= cols
  }

  /** `First` is the only position before which every row is below `p` and at
      which, if it is an entry, the row reaches `p`. */
  lemma {:induction false} FirstIs(entries: seq<Entry>, p: int, k: nat)
    requires k <= |entries|
    requires forall j :: 0 <= j < k ==> entries[j].row - 1 < p
    requires k < |entries| ==> entries[k].row - 1 >= p
    ensures First(entries, p) == k
    decreases k
  {
    if k > 0 {
      FirstIs(entries[1..], p, k - 1);
    }
  }

  lemma {:induction false} FirstMonotone(entries: seq<Entry>, p: int, q: int)
    requires p <= q
    ensures First(entries, p) <= First(entries, q)
    decreases |entries|
  {
    if |entries| > 0 && entries[0].row - 1 < p {
      FirstMonotone(entries[1..], p, q);
    }
  }

  /** For entries sorted by row, the first entry at or beyond row `r` comes
      right after all the entries before row `r`. */
  lemma {:induction false} SortedFirstIsCount(entries: seq<Entry>, r: int)
    requires RowSorted(entries)
    ensures First(entries, r) == Count(entries, r)
    decreases |entries|
  {
    if |entries| > 0 {
      assert RowSorted(entries[1..]) by {
        forall j, k | 0 <= j < k < |entries| - 1
          ensures entries[1..][j].row <= entries[1..][k].row
        {
          assert entries[1..][j] == entries[j + 1] && entries[1..][k] == entries[k + 1];
        }
      }
      if entries[0].row - 1 >= r {
        CountNone(entries, r);
      } else {
        SortedFirstIsCount(entries[1..], r);
      }
    }
  }

  lemma {:induction false} CountNone(entries: seq<Entry>, r: int)
    requires forall k :: 0 <= k < |entries| ==> entries[k].row - 1 >= r
    ensures Count(entries, r) == 0
    decreases |entries|
  {
    if |entries| > 0 {
      assert forall k :: 0 <= k < |entries| - 1 ==> entries[1..][k] == entries[k + 1];
      CountNone(entries[1..], r);
    }
  }

  /** The state of the loader after the first `i` entries: one pointer more
      than the largest row seen (at least the initial 0), and pointer `p` the
      position of the first entry reaching row `p`. */
  predicate Filled(entries: seq<Entry>, i: nat, rowPointers: seq<int>)
    requires i <= |entries|
  {
    var top := Top(entries[..i]);
    && |rowPointers| == (if top > 1 then top else 1)
    && rowPointers[0] == 0
    && (forall p :: 1 <= p < |rowPointers| ==> rowPointers[p] == First(entries, p))
  }

  /** The back-fill loop: appends `n` until there is a pointer at index `row`. */
  method Pad(rowPointers: seq<int>, row: int, n: int) returns (rowPointers': seq<int>)
    ensures |rowPointers'| == if row + 1 > |rowPointers| then row + 1 else |rowPointers|
    ensures rowPointers'[..|rowPointers|] == rowPointers
    ensures forall p :: |rowPointers| <= p < |rowPointers'| ==> rowPointers'[p] == n
  {
    rowPointers' := rowPointers;
    while |rowPointers'| <= row
      invariant |rowPointers| <= |rowPointers'|
      invariant |rowPointers'| <= (if row + 1 > |rowPointers| then row + 1 else |rowPointers|)
      invariant rowPointers'[..|rowPointers|] == rowPointers
      invariant forall p :: |rowPointers| <= p < |rowPointers'| ==> rowPointers'[p] == n
      decreases row - |rowPointers'|
    {
      rowPointers' := rowPointers' + [n];
    }
  }

  /** Entry `i` as the loader handles it: pointers back-filled up to its
      0-based row with the number of entries stored so far, then its value and
      0-based column appended. */
  method LoadEntry(entries: seq<Entry>, i: nat, rowPointers: seq<int>)
    returns (rowPointers': seq<int>)
    requires i < |entries| && Filled(entries, i, rowPointers)
    ensures Filled(entries, i + 1, rowPointers')
  {
    var row := entries[i].row - 1;
    rowPointers' := Pad(rowPointers, row, i);
    assert entries[..i + 1][..i] == entries[..i];
    forall p | |rowPointers| <= p < |rowPointers'|
      ensures rowPointers'[p] == First(entries, p)
    {
      forall j | 0 <= j < i
        ensures entries[j].row - 1 < p
      {
        assert entries[..i][j] == entries[j];
      }
      FirstIs(entries, p, i);
    }
  }

  /** The row-pointer bookkeeping of the Matrix Market loader, given the
      header's row and column counts and the data lines already parsed. Column
      indices become 0-based and, with the values, keep the input order. Each
      pointer `p` from 1 on is the position of the first entry whose 0-based
      row reaches `p`; the pointers run one past the larger of the header's row
      count and the largest row seen. When the entries are sorted by row and
      their rows lie within the header's count, pointer `r` counts the entries
      above row `r`. Whenever the rows and columns lie within the header's
      counts, sorted or not, there are rows + 1 pointers, the last is the
      number of entries and the result is a valid CSR matrix. */
  method LoadEntries(rows: nat, cols: nat, entries: seq<Entry>) returns (A: CSR.CSRMatrix)
    ensures A.rows == rows && A.cols == cols
    ensures |A.values| == |A.columnIndices| == |entries|
    ensures forall k :: 0 <= k < |entries| ==> A.values[k] == entries[k].value && A.columnIndices[k] == entries[k].col - 1
    ensures |A.rowPointers| == if Top(entries) > rows + 1 then Top(entries) else rows + 1
    ensures A.rowPointers[0] == 0
    ensures forall p :: 1 <= p < |A.rowPointers| ==> A.rowPointers[p] == First(entries, p)
    ensures forall p, q :: 0 <= p <= q < |A.rowPointers| ==> A.rowPointers[p] <= A.rowPointers[q]
    ensures RowSorted(entries) && RowsInRange(entries, rows) ==>
              && |A.rowPointers| == rows + 1
              && (forall r :: 0 <= r <= rows ==> A.rowPointers[r] == Count(entries, r))
              && A.rowPointers[rows] == |entries|
    ensures RowsInRange(entries, rows) && ColsInRange(entries, cols) ==> CSR.Valid(A)
  {
    var rowPointers: seq<int> := [0];
    var values: seq<int> := [];
    var columnIndices: seq<int> := [];
    var i := 0;
    while i < |entries|
      invariant 0 <= i <= |entries|
      invariant |values| == |columnIndices| == i
      invariant forall k :: 0 <= k < i ==> values[k] == entries[k].value && columnIndices[k] == entries[k].col - 1
      invariant Filled(entries, i, rowPointers)
    {
      rowPointers := LoadEntry(entries, i, rowPointers);
      values := values + [entries[i].value];
      columnIndices := columnIndices + [entries[i].col - 1];
      i := i + 1;
    }
    assert entries[..i] == entries;
    var filled := rowPointers;
    rowPointers := Pad(rowPointers, rows, |values|);
    forall p | |filled| <= p < |rowPointers|
      ensures rowPointers[p] == First(entries, p)
    {
      FirstIs(entries, p, |entries|);
    }
    A := CSR.CSRMatrix(values, columnIndices, rowPointers, rows, cols);
    LoadedMonotone(entries, A.rowPointers);
    if RowsInRange(entries, rows) {
      LoadedShape(rows, entries, A.rowPointers);
      if RowSorted(entries) {
        LoadedCounts(rows, entries, A.rowPointers);
      }
    }
  }

  /** Pointers characterised as the loader leaves them never decrease. */
  lemma LoadedMonotone(entries: seq<Entry>, rowPointers: seq<int>)
    requires |rowPointers| >= 1 && rowPointers[0] == 0
    requires forall p :: 1 <= p < |rowPointers| ==> rowPointers[p] == First(entries, p)
    ensures forall p, q :: 0 <= p <= q < |rowPointers| ==> rowPointers[p] <= rowPointers[q]
  {
    forall p, q | 0 <= p <= q < |rowPointers|
      ensures rowPointers[p] <= rowPointers[q]
    {
      if p >= 1 {
        FirstMonotone(entries, p, q);
      }
    }
  }

  /** For entries whose rows lie within the header's row count, in any order,
      the loader leaves exactly rows + 1 pointers, the last one closing the
      last row at the number of entries. */
  lemma LoadedShape(rows: nat, entries: seq<Entry>, rowPointers: seq<int>)
    requires RowsInRange(entries, rows)
    requires |rowPointers| == if Top(entries) > rows + 1 then Top(entries) else rows + 1
    requires rowPointers[0] == 0
    requires forall p :: 1 <= p < |rowPointers| ==> rowPointers[p] == First(entries, p)
    ensures |rowPointers| == rows + 1
    ensures rowPointers[rows] == |entries|
  {
    if Top(entries) > rows + 1 {
      TopAttained(entries);
    }
    FirstIs(entries, rows, |entries|);
  }

  /** For entries sorted by row within the header's row count, the pointers
      the loader leaves are the row counts the CSR layout needs. */
  lemma LoadedCounts(rows: nat, entries: seq<Entry>, rowPointers: seq<int>)
    requires RowSorted(entries) && RowsInRange(entries, rows)
    requires |rowPointers| == if Top(entries) > rows + 1 then Top(entries) else rows + 1
    requires rowPointers[0] == 0
    requires forall p :: 1 <= p < |rowPointers| ==> rowPointers[p] == First(entries, p)
    ensures |rowPointers| == rows + 1
    ensures forall r :: 0 <= r <= rows ==> rowPointers[r] == Count(entries, r)
  {
    LoadedShape(rows, entries, rowPointers);
    forall r | 0 <= r <= rows
      ensures rowPointers[r] == Count(entries, r)
    {
      SortedFirstIsCount(entries, r);
      if r == 0 {
        FirstIs(entries, 0, 0);
      }
    }
  }

  /** A positive `Top` is the row of some entry. */
  lemma {:induction false} TopAttained(entries: seq<Entry>)
    requires Top(entries) > 0
    ensures exists k :: 0 <= k < |entries| && entries[k].row == Top(entries)
    decreases |entries|
  {
    var n := |entries|;
    if entries[n - 1].row <= Top(entries[..n - 1]) {
      TopAttained(entries[..n - 1]);
      var k :| 0 <= k < n - 1 && entries[..n - 1][k].row == Top(entries[..n - 1]);
      assert entries[k] == entries[..n - 1][k];
    }
  }
}
