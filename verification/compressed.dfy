/** The compressed layout shared by both formats: a pointer sequence that cuts
    parallel index and value sequences into one slice per primary index (rows
    for CSR, columns for CSC). `primary` is the number of slices, `secondary`
    the length of the vector each slice stands for. */
module Compressed {
  import Dense
  import Slices

  datatype Layout = Layout(pointers: seq<int>, indices: seq<int>, values: seq<int>)

  /** The data-model invariant: one pointer per slice plus one, starting at 0,
      non-decreasing, ending at the number of stored entries; every stored
      index a valid secondary position. */
  predicate WellFormed(L: Layout, primary: nat, secondary: nat)
  {
    && |L.pointers| == primary + 1
    && L.pointers[0] == 0
    && (forall p, q :: 0 <= p <= q <= primary ==> L.pointers[p] <= L.pointers[q])
    && L.pointers[primary] == |L.indices| == |L.values|
    && (forall k :: 0 <= k < |L.indices| ==> 0 <= L.indices[k] < secondary)
  }

  /** The entries stored for primary index `p`: positions pointers[p] up to,
      but not including, pointers[p + 1]. */
  function Slice(L: Layout, p: nat): (s: Slices.Slice)
    requires p + 1 < |L.pointers|
    requires 0 <= L.pointers[p] <= L.pointers[p + 1] <= |L.indices| == |L.values|
    ensures Slices.Valid(s)
    ensures |s.indices| == L.pointers[p + 1] - L.pointers[p]
  {
    Slices.Slice(L.indices[L.pointers[p]..L.pointers[p + 1]], L.values[L.pointers[p]..L.pointers[p + 1]])
  }

  /** The entries of slice `p` stored before absolute position `upto`: the
      part of the slice a loop over it has visited so far. */
  function Partial(L: Layout, p: nat, upto: int): (s: Slices.Slice)
    requires p + 1 < |L.pointers|
    requires 0 <= L.pointers[p] <= upto <= L.pointers[p + 1] <= |L.indices| == |L.values|
    ensures Slices.Valid(s)
  {
    Slices.Slice(L.indices[L.pointers[p]..upto], L.values[L.pointers[p]..upto])
  }

  lemma PartialStep(L: Layout, p: nat, upto: int)
    requires p + 1 < |L.pointers|
    requires 0 <= L.pointers[p] <= upto < L.pointers[p + 1] <= |L.indices| == |L.values|
    ensures Partial(L, p, upto + 1) == Slices.Append(Partial(L, p, upto), L.indices[upto], L.values[upto])
  {
    assert L.indices[L.pointers[p]..upto + 1] == L.indices[L.pointers[p]..upto] + [L.indices[upto]];
    assert L.values[L.pointers[p]..upto + 1] == L.values[L.pointers[p]..upto] + [L.values[upto]];
  }

  lemma SliceInRange(L: Layout, primary: nat, secondary: nat, p: nat)
    requires WellFormed(L, primary, secondary) && p < primary
    ensures Slices.InRange(Slice(L, p), secondary)
  {
  }

  /** The canonical form the conversions and the multiplications produce:
      indices strictly increasing within every slice and no stored zero. */
  predicate Canonical(L: Layout, primary: nat, secondary: nat)
  {
    && WellFormed(L, primary, secondary)
    && (forall p :: 0 <= p < primary ==> Slices.StrictlyIncreasing(Slice(L, p).indices))
    && Slices.NonZero(L.values)
  }

  /** No slice stores the same secondary index twice. */
  predicate NoDuplicates(L: Layout, primary: nat, secondary: nat)
  {
    && WellFormed(L, primary, secondary)
    && (forall p :: 0 <= p < primary ==> Slices.Distinct(Slice(L, p).indices))
  }

  /** One dense vector per slice, entries written in storage order into zeroed
      vectors (a later duplicate overwrites an earlier one). */
  function Expand(L: Layout, primary: nat, secondary: nat): (m: seq<seq<int>>)
    requires WellFormed(L, primary, secondary)
    ensures Dense.IsMatrix(m, primary, secondary)
    ensures forall p, s :: 0 <= p < primary && 0 <= s < secondary ==> m[p][s] == Slices.Lookup(Slice(L, p), s)
  {
    seq(primary, p requires 0 <= p < primary => Slices.Expand(Slice(L, p), secondary))
  }

  /** One dense vector per slice, entries added into zeroed accumulators
      (duplicates add up). */
  function Accumulated(L: Layout, primary: nat, secondary: nat): (m: seq<seq<int>>)
    requires WellFormed(L, primary, secondary)
    ensures Dense.IsMatrix(m, primary, secondary)
    ensures forall p, s :: 0 <= p < primary && 0 <= s < secondary ==> m[p][s] == Slices.Sum(Slice(L, p), s)
  {
    seq(primary, p requires 0 <= p < primary => Slices.Densify(Slice(L, p), secondary))
  }

  /** Appends the non-zero scan of `v` as a new last slice, its pointer being
      the previous last pointer plus the number of non-zeros found. */
  function Push(L: Layout, v: seq<int>): (pushed: Layout)
    requires |L.pointers| > 0
  {
    var s := Slices.Compress(v);
    Layout(L.pointers + [L.pointers[|L.pointers| - 1] + |s.indices|], L.indices + s.indices, L.values + s.values)
  }

  /** The non-zero scan as the conversions and the multiplications run it:
      appends the non-zero entries of `v`, left to right, with their
      positions, and closes the new slice with a pointer that is the previous
      last pointer plus the number of entries appended. */
  method AppendNonZeros(v: seq<int>, pointers: seq<int>, indices: seq<int>, values: seq<int>)
    returns (pointers': seq<int>, indices': seq<int>, values': seq<int>)
    requires |pointers| > 0
    ensures Layout(pointers', indices', values') == Push(Layout(pointers, indices, values), v)
  {
    indices', values' := indices, values;
    var nonZeroCount := 0;
    var j := 0;
    while j < |v|
      invariant 0 <= j <= |v|
      invariant indices' == indices + Slices.Compress(v[..j]).indices
      invariant values' == values + Slices.Compress(v[..j]).values
      invariant nonZeroCount == |Slices.Compress(v[..j]).indices|
    {
      Slices.CompressStep(v, j);
      if v[j] != 0 {
        values' := values' + [v[j]];
        indices' := indices' + [j];
        nonZeroCount := nonZeroCount + 1;
      }
      j := j + 1;
    }
    assert v[..j] == v;
    pointers' := pointers + [pointers[|pointers| - 1] + nonZeroCount];
  }

  /** Pushing a vector whose non-zero scan is known to be `s`. */
  lemma PushScanned(L: Layout, v: seq<int>, s: Slices.Slice)
    requires |L.pointers| > 0 && Slices.Compress(v) == s
    ensures Push(L, v) == Layout(L.pointers + [L.pointers[|L.pointers| - 1] + |s.indices|], L.indices + s.indices, L.values + s.values)
  {
  }

  /** Clears an accumulator (the library fill with 0). */
  method Clear(acc: array<int>)
    modifies acc
    ensures acc[..] == seq(acc.Length, c => 0)
  {
    forall c | 0 <= c < acc.Length {
      acc[c] := 0;
    }
  }

  /** The layout that compressing `vecs` one after another produces, starting
      from the single pointer 0. */
  function Build(vecs: seq<seq<int>>): (L: Layout)
    ensures |L.pointers| == |vecs| + 1
    ensures L.pointers[0] == 0 && L.pointers[|vecs|] == |L.indices| == |L.values|
    decreases |vecs|
  {
    if |vecs| == 0 then Layout([0], [], [])
    else Push(Build(vecs[..|vecs| - 1]), vecs[|vecs| - 1])
  }

  lemma BuildStep(vecs: seq<seq<int>>, i: nat)
    requires i < |vecs|
    ensures Build(vecs[..i + 1]) == Push(Build(vecs[..i]), vecs[i])
  {
    assert vecs[..i + 1][..i] == vecs[..i];
  }

  lemma PushWellFormed(L: Layout, n: nat, width: nat, v: seq<int>)
    requires WellFormed(L, n, width) && |v| == width
    ensures WellFormed(Push(L, v), n + 1, width)
  {
    var s := Slices.Compress(v);
    Slices.CompressCanonical(v);
    var L2 := Push(L, v);
    var m := |L.indices|;
    forall p, q | 0 <= p <= q <= n + 1
      ensures L2.pointers[p] <= L2.pointers[q]
    {
      if q <= n {
        assert L2.pointers[p] == L.pointers[p] && L2.pointers[q] == L.pointers[q];
      } else if p <= n {
        assert L2.pointers[p] == L.pointers[p] <= L.pointers[n];
      }
    }
    forall k | 0 <= k < |L2.indices|
      ensures 0 <= L2.indices[k] < width
    {
      if k >= m {
        assert L2.indices[k] == s.indices[k - m];
      } else {
        assert L2.indices[k] == L.indices[k];
      }
    }
  }

  /** Slices that end within a common prefix of two layouts' storage are the
      same in both. */
  lemma SlicePrefix(big: Layout, small: Layout, p: nat)
    requires p + 1 < |big.pointers| && p + 1 < |small.pointers|
    requires big.pointers[p] == small.pointers[p] && big.pointers[p + 1] == small.pointers[p + 1]
    requires 0 <= small.pointers[p] <= small.pointers[p + 1] <= |small.indices| == |small.values|
    requires |small.indices| <= |big.indices| == |big.values|
    requires small.indices == big.indices[..|small.indices|] && small.values == big.values[..|small.values|]
    ensures Slice(big, p) == Slice(small, p)
  {
    var lo, hi := small.pointers[p], small.pointers[p + 1];
    forall k | lo <= k < hi
      ensures big.indices[k] == small.indices[k] && big.values[k] == small.values[k]
    {
      assert small.indices[k] == big.indices[..|small.indices|][k];
      assert small.values[k] == big.values[..|small.values|][k];
    }
    assert big.indices[lo..hi] == small.indices[lo..hi];
    assert big.values[lo..hi] == small.values[lo..hi];
  }

  /** Pushing keeps the existing slices and adds the non-zero scan of `v` as the last one. */
  lemma PushSlices(L: Layout, n: nat, width: nat, v: seq<int>)
    requires WellFormed(L, n, width) && |v| == width
    ensures WellFormed(Push(L, v), n + 1, width)
    ensures forall p :: 0 <= p < n ==> Slice(Push(L, v), p) == Slice(L, p)
    ensures Slice(Push(L, v), n) == Slices.Compress(v)
  {
    PushWellFormed(L, n, width, v);
    var L2 := Push(L, v);
    var m := |L.indices|;
    assert L.indices == L2.indices[..m] && L.values == L2.values[..m];
    forall p | 0 <= p < n
      ensures Slice(L2, p) == Slice(L, p)
    {
      SlicePrefix(L2, L, p);
    }
    assert L2.indices[m..] == Slices.Compress(v).indices;
    assert L2.values[m..] == Slices.Compress(v).values;
  }

  lemma PushCanonical(L: Layout, n: nat, width: nat, v: seq<int>)
    requires Canonical(L, n, width) && |v| == width
    ensures Canonical(Push(L, v), n + 1, width)
  {
    PushSlices(L, n, width, v);
    var s := Slices.Compress(v);
    Slices.CompressCanonical(v);
    var L2 := Push(L, v);
    var m := |L.values|;
    forall p | 0 <= p <= n
      ensures Slices.StrictlyIncreasing(Slice(L2, p).indices)
    {
      if p < n {
        assert Slice(L2, p) == Slice(L, p);
      }
    }
    forall k | 0 <= k < |L2.values|
      ensures L2.values[k] != 0
    {
      if k >= m {
        assert L2.values[k] == s.values[k - m];
      } else {
        assert L2.values[k] == L.values[k];
      }
    }
  }

  /** Building from equal-length vectors gives a canonical layout. */
  lemma {:induction false} BuildCanonical(vecs: seq<seq<int>>, width: nat)
    requires forall i :: 0 <= i < |vecs| ==> |vecs[i]| == width
    ensures Canonical(Build(vecs), |vecs|, width)
    decreases |vecs|
  {
    var n := |vecs|;
    if n > 0 {
      var init := vecs[..n - 1];
      assert Build(vecs) == Push(Build(init), vecs[n - 1]);
      BuildCanonical(init, width);
      PushCanonical(Build(init), n - 1, width, vecs[n - 1]);
    }
  }

  /** Slice `p` of the built layout is the non-zero scan of `vecs[p]`. */
  lemma {:induction false} BuildSlices(vecs: seq<seq<int>>, width: nat)
    requires forall i :: 0 <= i < |vecs| ==> |vecs[i]| == width
    ensures WellFormed(Build(vecs), |vecs|, width)
    ensures forall p :: 0 <= p < |vecs| ==> Slice(Build(vecs), p) == Slices.Compress(vecs[p])
    decreases |vecs|
  {
    var n := |vecs|;
    if n > 0 {
      var init := vecs[..n - 1];
      var L := Build(init);
      assert Build(vecs) == Push(L, vecs[n - 1]);
      BuildSlices(init, width);
      PushSlices(L, n - 1, width, vecs[n - 1]);
      forall p | 0 <= p < n - 1
        ensures Slice(Build(vecs), p) == Slices.Compress(vecs[p])
      {
        assert init[p] == vecs[p];
      }
    }
  }

  /** Round trip: expanding the built layout gives the vectors back. */
  lemma BuildExpands(vecs: seq<seq<int>>, width: nat)
    requires forall i :: 0 <= i < |vecs| ==> |vecs[i]| == width
    ensures WellFormed(Build(vecs), |vecs|, width)
    ensures Expand(Build(vecs), |vecs|, width) == vecs
  {
    BuildSlices(vecs, width);
    var m := Expand(Build(vecs), |vecs|, width);
    forall p | 0 <= p < |vecs|
      ensures m[p] == vecs[p]
    {
      Slices.CompressExpands(vecs[p]);
    }
  }

  /** The layout with its last slice removed. */
  function DropLast(L: Layout, n: nat): (dropped: Layout)
    requires |L.pointers| == n + 1 && n > 0
    requires 0 <= L.pointers[n - 1] <= |L.indices| && L.pointers[n - 1] <= |L.values|
  {
    Layout(L.pointers[..n], L.indices[..L.pointers[n - 1]], L.values[..L.pointers[n - 1]])
  }

  lemma DropLastCanonical(L: Layout, n: nat, secondary: nat)
    requires Canonical(L, n, secondary) && n > 0
    ensures Canonical(DropLast(L, n), n - 1, secondary)
    ensures forall p :: 0 <= p < n - 1 ==> Slice(DropLast(L, n), p) == Slice(L, p)
  {
    var L' := DropLast(L, n);
    var cut := L.pointers[n - 1];
    forall p | 0 <= p < n - 1
      ensures Slice(L', p) == Slice(L, p)
    {
      assert L.pointers[p + 1] <= cut;
      SlicePrefix(L, L', p);
    }
    forall k | 0 <= k < |L'.indices|
      ensures 0 <= L'.indices[k] < secondary
    {
      assert L'.indices[k] == L.indices[k];
    }
    forall k | 0 <= k < |L'.values|
      ensures L'.values[k] != 0
    {
      assert L'.values[k] == L.values[k];
    }
  }

  /** A well-formed layout is its last slice appended to the rest. */
  lemma DropLastAppend(L: Layout, n: nat, secondary: nat)
    requires WellFormed(L, n, secondary) && n > 0
    ensures L.indices == DropLast(L, n).indices + Slice(L, n - 1).indices
    ensures L.values == DropLast(L, n).values + Slice(L, n - 1).values
    ensures L.pointers == DropLast(L, n).pointers + [L.pointers[n - 1] + |Slice(L, n - 1).indices|]
  {
  }

  /** Every slice of a canonical layout is a canonical slice. */
  lemma SliceCanonical(L: Layout, n: nat, secondary: nat, p: nat)
    requires Canonical(L, n, secondary) && p < n
    ensures Slices.InRange(Slice(L, p), secondary)
    ensures Slices.StrictlyIncreasing(Slice(L, p).indices) && Slices.NonZero(Slice(L, p).values)
  {
    var s := Slice(L, p);
    forall k | 0 <= k < |s.values|
      ensures s.values[k] != 0
    {
      assert s.values[k] == L.values[L.pointers[p] + k];
    }
  }

  /** A canonical layout is its last slice's expansion pushed onto the rest. */
  lemma PushDropLast(L: Layout, n: nat, secondary: nat)
    requires WellFormed(L, n, secondary) && n > 0
    requires Slices.StrictlyIncreasing(Slice(L, n - 1).indices) && Slices.NonZero(Slice(L, n - 1).values)
    ensures Push(DropLast(L, n), Slices.Expand(Slice(L, n - 1), secondary)) == L
  {
    var last := Slice(L, n - 1);
    var D := DropLast(L, n);
    var v := Slices.Expand(last, secondary);
    SliceInRange(L, n, secondary, n - 1);
    Slices.CompressExpand(last, secondary);
    DropLastAppend(L, n, secondary);
    PushScanned(D, v, last);
    assert D.pointers[|D.pointers| - 1] == L.pointers[n - 1];
    assert L == Layout(L.pointers, L.indices, L.values);
  }

  /** The other round trip: a canonical layout is rebuilt exactly from its
      expansion, so a canonical layout is determined by the vectors it spells. */
  lemma {:induction false} ExpandBuilds(L: Layout, primary: nat, secondary: nat)
    requires Canonical(L, primary, secondary)
    ensures Build(Expand(L, primary, secondary)) == L
    decreases primary
  {
    var n := primary;
    var m := Expand(L, n, secondary);
    if n == 0 {
      assert L.pointers == [0];
    } else {
      var L' := DropLast(L, n);
      DropLastCanonical(L, n, secondary);
      assert Expand(L', n - 1, secondary) == m[..n - 1];
      ExpandBuilds(L', n - 1, secondary);
      assert Build(m) == Push(L', m[n - 1]);
      SliceCanonical(L, n, secondary, n - 1);
      PushDropLast(L, n, secondary);
    }
  }

  /** Without duplicate indices, the accumulating and the overwriting expansions agree. */
  lemma AccumulatedIsExpand(L: Layout, primary: nat, secondary: nat)
    requires NoDuplicates(L, primary, secondary)
    ensures Accumulated(L, primary, secondary) == Expand(L, primary, secondary)
  {
    var a, e := Accumulated(L, primary, secondary), Expand(L, primary, secondary);
    forall p | 0 <= p < primary
      ensures a[p] == e[p]
    {
      forall s | 0 <= s < secondary
        ensures a[p][s] == e[p][s]
      {
        Slices.SumIsLookup(Slice(L, p), s);
      }
    }
  }

  lemma CanonicalHasNoDuplicates(L: Layout, primary: nat, secondary: nat)
    requires Canonical(L, primary, secondary)
    ensures NoDuplicates(L, primary, secondary)
  {
    forall p | 0 <= p < primary
      ensures Slices.Distinct(Slice(L, p).indices)
    {
      Slices.StrictlyIncreasingIsDistinct(Slice(L, p).indices);
    }
  }

  /** Scattering slice `i` of `X` against the accumulated expansion of `Y`
      yields row `i` of the dense product of the two accumulated expansions.
      Both multiplications rest on this. */
  lemma ScatterIsProduct(X: Layout, xp: nat, xs: nat, Y: Layout, ys: nat, i: nat)
    requires WellFormed(X, xp, xs) && WellFormed(Y, xs, ys) && i < xp
    ensures Slices.InRange(Slice(X, i), xs)
    ensures Slices.WeightedRow(Slice(X, i), Accumulated(Y, xs, ys), ys)
         == Dense.MatMul(Accumulated(X, xp, xs), Accumulated(Y, xs, ys), ys)[i]
  {
    SliceInRange(X, xp, xs, i);
    var y := Accumulated(Y, xs, ys);
    forall c | 0 <= c < ys
      ensures Slices.WeightedRow(Slice(X, i), y, ys)[c] == Dense.MatMul(Accumulated(X, xp, xs), y, ys)[i][c]
    {
      Slices.WeightedIsDot(Slice(X, i), Dense.Column(y, c));
    }
  }

  /* The two accumulator loops of a multiplication, stated once for both
     formats. The outer operand `X` supplies slice `i` entry by entry; each
     entry (q, a) scatters `a` times slice `q` of the inner operand `Y`. */

  /** The innermost loop has added `a` times the entries of slice `q` of `Y`
      stored before position `k` into `before`, giving `acc`. */
  predicate ScatteredPart(Y: Layout, yp: nat, ys: nat, q: nat, a: int, before: seq<int>, k: int, acc: seq<int>)
    requires WellFormed(Y, yp, ys) && q < yp
  {
    && |before| == ys
    && Y.pointers[q] <= k <= Y.pointers[q + 1]
    && acc == Slices.AddScaled(before, a, Partial(Y, q, k))
  }

  lemma ScatteredPartStart(Y: Layout, yp: nat, ys: nat, q: nat, a: int, before: seq<int>)
    requires WellFormed(Y, yp, ys) && q < yp && |before| == ys
    ensures ScatteredPart(Y, yp, ys, q, a, before, Y.pointers[q], before)
  {
    assert Partial(Y, q, Y.pointers[q]) == Slices.Slice([], []);
    Slices.AddScaledEmpty(before, a);
  }

  /** One pass of the innermost loop: entry `k` adds `a` times its value into
      the cell of its index and nowhere else (in either order of the factors). */
  lemma ScatteredPartStep(Y: Layout, yp: nat, ys: nat, q: nat, a: int, before: seq<int>, k: int, acc: seq<int>)
    requires WellFormed(Y, yp, ys) && q < yp
    requires k < Y.pointers[q + 1] && ScatteredPart(Y, yp, ys, q, a, before, k, acc)
    ensures 0 <= Y.indices[k] < |acc|
    ensures ScatteredPart(Y, yp, ys, q, a, before, k + 1, acc[Y.indices[k] := acc[Y.indices[k]] + a * Y.values[k]])
  {
    PartialStep(Y, q, k);
    Slices.AddScaledAppend(before, a, Partial(Y, q, k), Y.indices[k], Y.values[k]);
  }

  lemma ScatteredPartEnd(Y: Layout, yp: nat, ys: nat, q: nat, a: int, before: seq<int>, acc: seq<int>)
    requires WellFormed(Y, yp, ys) && q < yp
    requires ScatteredPart(Y, yp, ys, q, a, before, Y.pointers[q + 1], acc)
    ensures acc == Slices.AddScaled(before, a, Slice(Y, q))
  {
    assert Partial(Y, q, Y.pointers[q + 1]) == Slice(Y, q);
  }

  /** The middle loop has scattered the entries of slice `i` of `X` stored
      before position `j`: `acc` is their weighted row against `Y`. */
  predicate ScatteredRow(X: Layout, xp: nat, xs: nat, Y: Layout, ys: nat, i: nat, j: int, acc: seq<int>)
    requires WellFormed(X, xp, xs) && WellFormed(Y, xs, ys) && i < xp
  {
    && X.pointers[i] <= j <= X.pointers[i + 1]
    && Slices.InRange(Partial(X, i, j), xs)
    && acc == Slices.WeightedRow(Partial(X, i, j), Accumulated(Y, xs, ys), ys)
  }

  lemma ScatteredRowStart(X: Layout, xp: nat, xs: nat, Y: Layout, ys: nat, i: nat)
    requires WellFormed(X, xp, xs) && WellFormed(Y, xs, ys) && i < xp
    ensures ScatteredRow(X, xp, xs, Y, ys, i, X.pointers[i], seq(ys, c => 0))
  {
    assert Partial(X, i, X.pointers[i]) == Slices.Slice([], []);
    Slices.WeightedRowEmpty(Accumulated(Y, xs, ys), ys);
  }

  /** One pass of the middle loop: entry `j` of slice `i` of `X`, scattered
      against its slice of `Y`, extends the weighted row by that entry. */
  lemma ScatteredRowStep(X: Layout, xp: nat, xs: nat, Y: Layout, ys: nat, i: nat, j: int, acc: seq<int>)
    requires WellFormed(X, xp, xs) && WellFormed(Y, xs, ys) && i < xp
    requires j < X.pointers[i + 1] && ScatteredRow(X, xp, xs, Y, ys, i, j, acc)
    ensures 0 <= X.indices[j] < xs && |acc| == ys
    ensures ScatteredRow(X, xp, xs, Y, ys, i, j + 1, Slices.AddScaled(acc, X.values[j], Slice(Y, X.indices[j])))
  {
    var seen := Partial(X, i, j);
    PartialStep(X, i, j);
    Slices.WeightedRowAppend(seen, Accumulated(Y, xs, ys), ys, X.indices[j], X.values[j], Slice(Y, X.indices[j]));
  }

  /** When the middle loop is done, the accumulator holds row `i` of the
      product of the accumulated expansions. */
  lemma ScatteredRowEnd(X: Layout, xp: nat, xs: nat, Y: Layout, ys: nat, i: nat, acc: seq<int>)
    requires WellFormed(X, xp, xs) && WellFormed(Y, xs, ys) && i < xp
    requires ScatteredRow(X, xp, xs, Y, ys, i, X.pointers[i + 1], acc)
    ensures acc == Dense.MatMul(Accumulated(X, xp, xs), Accumulated(Y, xs, ys), ys)[i]
  {
    assert Partial(X, i, X.pointers[i + 1]) == Slice(X, i);
    ScatterIsProduct(X, xp, xs, Y, ys, i);
  }
}
