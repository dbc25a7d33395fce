/** Dense integer matrices: the abstract meaning of both compressed formats.
    A matrix is a sequence of rows; `IsMatrix` fixes its shape. */
module Dense {

  predicate IsMatrix(m: seq<seq<int>>, rows: nat, cols: nat)
  {
    |m| == rows && forall i :: 0 <= i < |m| ==> |m[i]| == cols
  }

  /** Column `j` of a matrix whose rows all have more than `j` entries. */
  function Column(m: seq<seq<int>>, j: nat): (col: seq<int>)
    requires forall i :: 0 <= i < |m| ==> j < |m[i]|
    ensures |col| == |m|
    ensures forall i :: 0 <= i < |m| ==> col[i] == m[i][j]
  {
    seq(|m|, i requires 0 <= i < |m| => m[i][j])
  }

  /** The first `cols` entries of every row of a matrix whose rows are all
      at least that long. */
  function Truncate(m: seq<seq<int>>, cols: nat): (t: seq<seq<int>>)
    requires forall i :: 0 <= i < |m| ==> |m[i]| >= cols
    ensures IsMatrix(t, |m|, cols)
    ensures forall i, j :: 0 <= i < |m| && 0 <= j < cols ==> t[i][j] == m[i][j]
  {
    seq(|m|, i requires 0 <= i < |m| => m[i][..cols])
  }

  /** Inner product, summed from the first position to the last. */
  function Dot(a: seq<int>, b: seq<int>): (d: int)
    requires |a| == |b|
  {
    if |a| == 0 then 0
    else Dot(a[..|a| - 1], b[..|b| - 1]) + a[|a| - 1] * b[|b| - 1]
  }

  /** The dense product of an r x n matrix `a` and an n x p matrix `b`. */
  function MatMul(a: seq<seq<int>>, b: seq<seq<int>>, p: nat): (c: seq<seq<int>>)
    requires IsMatrix(a, |a|, |b|) && IsMatrix(b, |b|, p)
    ensures IsMatrix(c, |a|, p)
    ensures forall i, j :: 0 <= i < |a| && 0 <= j < p ==> c[i][j] == Dot(a[i], Column(b, j))
  {
    seq(|a|, i requires 0 <= i < |a| => seq(p, j requires 0 <= j < p => Dot(a[i], Column(b, j))))
  }

  /** The `width` x |m| transpose of an |m| x `width` matrix. */
  function Transpose(m: seq<seq<int>>, width: nat): (t: seq<seq<int>>)
    requires IsMatrix(m, |m|, width)
    ensures IsMatrix(t, width, |m|)
    ensures forall j, i :: 0 <= j < width && 0 <= i < |m| ==> t[j][i] == m[i][j]
  {
    seq(width, j requires 0 <= j < width => Column(m, j))
  }

  function Identity(n: nat): (id: seq<seq<int>>)
    ensures IsMatrix(id, n, n)
    ensures forall i, j :: 0 <= i < n && 0 <= j < n ==> id[i][j] == (if i == j then 1 else 0)
  {
    seq(n, i requires 0 <= i < n => seq(n, j requires 0 <= j < n => if i == j then 1 else 0))
  }

  function Zero(rows: nat, cols: nat): (z: seq<seq<int>>)
    ensures IsMatrix(z, rows, cols)
    ensures forall i, j :: 0 <= i < rows && 0 <= j < cols ==> z[i][j] == 0
  {
    seq(rows, i => seq(cols, j => 0))
  }

  /** Truncating a matrix to its own width changes nothing. */
  lemma TruncateRectangular(m: seq<seq<int>>, cols: nat)
    requires IsMatrix(m, |m|, cols)
    ensures Truncate(m, cols) == m
  {
    forall i | 0 <= i < |m|
      ensures Truncate(m, cols)[i] == m[i]
    {
      assert m[i][..cols] == m[i];
    }
  }

  lemma {:induction false} TransposeTwice(m: seq<seq<int>>, width: nat)
    requires IsMatrix(m, |m|, width)
    ensures Transpose(Transpose(m, width), |m|) == m
  {
    var t := Transpose(Transpose(m, width), |m|);
    assert |t| == |m|;
    forall i | 0 <= i < |m|
      ensures t[i] == m[i]
    {
      assert |t[i]| == width == |m[i]|;
    }
  }

  lemma {:induction false} DotSymmetric(a: seq<int>, b: seq<int>)
    requires |a| == |b|
    ensures Dot(a, b) == Dot(b, a)
    decreases |a|
  {
    if |a| > 0 {
      DotSymmetric(a[..|a| - 1], b[..|b| - 1]);
    }
  }

  /** Adding `v` at position `k` of one operand adds `v * b[k]` to the inner product. */
  lemma {:induction false} DotUpdate(a: seq<int>, b: seq<int>, k: nat, v: int)
    requires |a| == |b| && k < |a|
    ensures Dot(a[k := a[k] + v], b) == Dot(a, b) + v * b[k]
    decreases |a|
  {
    var n := |a|;
    var a' := a[k := a[k] + v];
    if k == n - 1 {
      assert a'[..n - 1] == a[..n - 1];
      calc {
        Dot(a', b);
        Dot(a[..n - 1], b[..n - 1]) + (a[n - 1] + v) * b[n - 1];
        { assert (a[n - 1] + v) * b[n - 1] == a[n - 1] * b[n - 1] + v * b[n - 1]; }
        Dot(a, b) + v * b[k];
      }
    } else {
      assert a'[..n - 1] == a[..n - 1][k := a[k] + v];
      DotUpdate(a[..n - 1], b[..n - 1], k, v);
    }
  }

  /** The inner product with a unit vector picks out one entry. */
  lemma {:induction false} DotUnit(a: seq<int>, e: seq<int>, j: nat)
    requires |a| == |e| && j < |a|
    requires forall t :: 0 <= t < |e| ==> e[t] == (if t == j then 1 else 0)
    ensures Dot(a, e) == a[j]
    decreases |a|
  {
    var n := |a|;
    if j < n - 1 {
      DotUnit(a[..n - 1], e[..n - 1], j);
    } else {
      DotZero(a[..n - 1], e[..n - 1]);
    }
  }

  lemma {:induction false} DotZero(a: seq<int>, z: seq<int>)
    requires |a| == |z|
    requires forall t :: 0 <= t < |z| ==> z[t] == 0
    ensures Dot(a, z) == 0
    decreases |a|
  {
    if |a| > 0 {
      DotZero(a[..|a| - 1], z[..|z| - 1]);
    }
  }

  /** The transpose of a product is the product of the transposes, in the
      other order. */
  lemma MatMulTranspose(a: seq<seq<int>>, b: seq<seq<int>>, p: nat)
    requires IsMatrix(a, |a|, |b|) && IsMatrix(b, |b|, p)
    ensures MatMul(Transpose(b, p), Transpose(a, |b|), |a|) == Transpose(MatMul(a, b, p), p)
  {
    var bt, at := Transpose(b, p), Transpose(a, |b|);
    var lhs, rhs := MatMul(bt, at, |a|), Transpose(MatMul(a, b, p), p);
    forall j | 0 <= j < p
      ensures lhs[j] == rhs[j]
    {
      forall i | 0 <= i < |a|
        ensures lhs[j][i] == rhs[j][i]
      {
        assert bt[j] == Column(b, j);
        assert Column(at, i) == a[i];
        DotSymmetric(a[i], Column(b, j));
      }
    }
  }

  /** Multiplying by the identity on the right gives the matrix back. */
  lemma MatMulIdentity(m: seq<seq<int>>, n: nat)
    requires IsMatrix(m, |m|, n)
    ensures MatMul(m, Identity(n), n) == m
  {
    var c := MatMul(m, Identity(n), n);
    forall i | 0 <= i < |m|
      ensures c[i] == m[i]
    {
      forall j | 0 <= j < n
        ensures c[i][j] == m[i][j]
      {
        DotUnit(m[i], Column(Identity(n), j), j);
      }
    }
  }

  /** Multiplying by a zero matrix gives a zero matrix. */
  lemma MatMulZero(m: seq<seq<int>>, n: nat, p: nat)
    requires IsMatrix(m, |m|, n)
    ensures MatMul(m, Zero(n, p), p) == Zero(|m|, p)
  {
    var c := MatMul(m, Zero(n, p), p);
    forall i | 0 <= i < |m|
      ensures c[i] == Zero(|m|, p)[i]
    {
      forall j | 0 <= j < p
        ensures c[i][j] == 0
      {
        DotZero(m[i], Column(Zero(n, p), j));
      }
    }
  }
}
