/** One primary slice of a compressed matrix: a row of a CSR matrix or a
    column of a CSC matrix, held as parallel sequences of secondary indices
    and values. */
module Slices {
  import Dense

  datatype Slice = Slice(indices: seq<int>, values: seq<int>)

  predicate Valid(s: Slice)
  {
    |s.indices| == |s.values|
  }

  /** Every stored index is a position of a vector of length `n`. */
  predicate InRange(s: Slice, n: int)
  {
    forall k :: 0 <= k < |s.indices| ==> 0 <= s.indices[k] < n
  }

  predicate StrictlyIncreasing(ks: seq<int>)
  {
    forall a, b :: 0 <= a < b < |ks| ==> ks[a] < ks[b]
  }

  predicate Distinct(ks: seq<int>)
  {
    forall a, b :: 0 <= a < b < |ks| ==> ks[a] != ks[b]
  }

  predicate NonZero(vs: seq<int>)
  {
    forall k :: 0 <= k < |vs| ==> vs[k] != 0
  }

  /** The slice without its last entry. */
  function Init(s: Slice): (t: Slice)
    requires Valid(s) && |s.indices| > 0
  {
    Slice(s.indices[..|s.indices| - 1], s.values[..|s.values| - 1])
  }

  function Append(s: Slice, k: int, v: int): (t: Slice)
  {
    Slice(s.indices + [k], s.values + [v])
  }

  /** Value at position `c` when the entries are written, in order, into a
      zeroed vector: a later entry with the same index overwrites an earlier one. */
  function Lookup(s: Slice, c: int): (x: int)
    requires Valid(s)
    decreases |s.indices|
  {
    if |s.indices| == 0 then 0
    else if s.indices[|s.indices| - 1] == c then s.values[|s.values| - 1]
    else Lookup(Init(s), c)
  }

  /** Value at position `c` when the entries are added, in order, into a
      zeroed accumulator: entries with the same index add up. */
  function Sum(s: Slice, c: int): (x: int)
    requires Valid(s)
    decreases |s.indices|
  {
    if |s.indices| == 0 then 0
    else Sum(Init(s), c) + (if s.indices[|s.indices| - 1] == c then s.values[|s.values| - 1] else 0)
  }

  /** The dense vector of length `n` that the slice spells with last-write semantics. */
  function Expand(s: Slice, n: nat): (v: seq<int>)
    requires Valid(s)
    ensures |v| == n && forall c :: 0 <= c < n ==> v[c] == Lookup(s, c)
  {
    seq(n, c => Lookup(s, c))
  }

  /** The dense vector of length `n` that the slice spells with additive semantics. */
  function Densify(s: Slice, n: nat): (v: seq<int>)
    requires Valid(s)
    ensures |v| == n && forall c :: 0 <= c < n ==> v[c] == Sum(s, c)
  {
    seq(n, c => Sum(s, c))
  }

  /** Sum over the entries of value times `col` at the entry's index: what the
      accumulator holds after scattering every entry against one column. */
  function Weighted(s: Slice, col: seq<int>): (x: int)
    requires Valid(s) && InRange(s, |col|)
    decreases |s.indices|
  {
    if |s.indices| == 0 then 0
    else Weighted(Init(s), col) + s.values[|s.values| - 1] * col[s.indices[|s.indices| - 1]]
  }

  /** The accumulator `acc` after `a` times every entry of `s` has been added
      into the cell of the entry's index. */
  function AddScaled(acc: seq<int>, a: int, s: Slice): (r: seq<int>)
    requires Valid(s)
    ensures |r| == |acc|
  {
    seq(|acc|, c requires 0 <= c < |acc| => acc[c] + a * Sum(s, c))
  }

  /** Each column of `m` weighted by the slice: the accumulator row after
      every entry (k, v) of `s` has added v times row `k` of `m`. */
  function WeightedRow(s: Slice, m: seq<seq<int>>, width: nat): (r: seq<int>)
    requires Valid(s) && InRange(s, |m|) && Dense.IsMatrix(m, |m|, width)
    ensures |r| == width
  {
    seq(width, c requires 0 <= c < width => Weighted(s, Dense.Column(m, c)))
  }

  /** One step of the non-zero scan: cell `k` holding `x` is kept unless `x`
      is 0. */
  function Keep(s: Slice, k: int, x: int): (t: Slice)
  {
    if x != 0 then Append(s, k, x) else s
  }

  /** The non-zero scan of a dense vector, left to right: the entries it
      stores, with their positions. Zeros are skipped and the stored indices
      come out strictly increasing. */
  function Compress(v: seq<int>): (s: Slice)
    ensures Valid(s) && |s.indices| <= |v|
    decreases |v|
  {
    if |v| == 0 then Slice([], [])
    else Keep(Compress(v[..|v| - 1]), |v| - 1, v[|v| - 1])
  }

  lemma LookupAppend(s: Slice, k: int, v: int, c: int)
    requires Valid(s)
    ensures Lookup(Append(s, k, v), c) == if c == k then v else Lookup(s, c)
    ensures Sum(Append(s, k, v), c) == Sum(s, c) + if c == k then v else 0
  {
    assert Init(Append(s, k, v)) == s;
  }

  lemma AddScaledEmpty(acc: seq<int>, a: int)
    ensures AddScaled(acc, a, Slice([], [])) == acc
  {
  }

  /** Adding one more entry (k, v) into the accumulator touches cell `k` only. */
  lemma AddScaledAppend(acc: seq<int>, a: int, s: Slice, k: int, v: int)
    requires Valid(s) && 0 <= k < |acc|
    ensures AddScaled(acc, a, Append(s, k, v)) == AddScaled(acc, a, s)[k := AddScaled(acc, a, s)[k] + a * v]
  {
    forall c {
      LookupAppend(s, k, v, c);
    }
    assert a * (Sum(s, k) + v) == a * Sum(s, k) + a * v;
  }

  lemma WeightedRowEmpty(m: seq<seq<int>>, width: nat)
    requires Dense.IsMatrix(m, |m|, width)
    ensures WeightedRow(Slice([], []), m, width) == seq(width, c => 0)
  {
  }

  /** Scattering one more entry (k, v) adds v times row `k` of `m`, which is
      the additive expansion of the slice `t`. */
  lemma WeightedRowAppend(s: Slice, m: seq<seq<int>>, width: nat, k: int, v: int, t: Slice)
    requires Valid(s) && InRange(s, |m|) && Dense.IsMatrix(m, |m|, width) && 0 <= k < |m|
    requires Valid(t) && forall c :: 0 <= c < width ==> m[k][c] == Sum(t, c)
    ensures InRange(Append(s, k, v), |m|)
    ensures WeightedRow(Append(s, k, v), m, width) == AddScaled(WeightedRow(s, m, width), v, t)
  {
    assert Init(Append(s, k, v)) == s;
  }

  /** One more step of the non-zero scan: position `j` is stored exactly when it is non-zero. */
  lemma CompressStep(v: seq<int>, j: nat)
    requires j < |v|
    ensures Compress(v[..j + 1]) == if v[j] != 0 then Append(Compress(v[..j]), j, v[j]) else Compress(v[..j])
  {
    assert v[..j + 1][..j] == v[..j];
  }

  /** Lookup finds the value stored under an index that occurs once. */
  lemma {:induction false} LookupDistinct(s: Slice, t: nat)
    requires Valid(s) && Distinct(s.indices) && t < |s.indices|
    ensures Lookup(s, s.indices[t]) == s.values[t]
    decreases |s.indices|
  {
    var n := |s.indices|;
    if t < n - 1 {
      assert s.indices[n - 1] != s.indices[t];
      LookupDistinct(Init(s), t);
    }
  }

  /** The non-zero scan is canonical: its indices are positions of `v`, in
      strictly increasing order, and it stores no zero. */
  lemma {:induction false} CompressCanonical(v: seq<int>)
    ensures InRange(Compress(v), |v|)
    ensures StrictlyIncreasing(Compress(v).indices) && NonZero(Compress(v).values)
    decreases |v|
  {
    if |v| > 0 {
      var n := |v|;
      var s := Compress(v[..n - 1]);
      CompressCanonical(v[..n - 1]);
      if v[n - 1] != 0 {
        var t := Append(s, n - 1, v[n - 1]);
        assert forall k :: 0 <= k < |s.indices| ==> t.indices[k] == s.indices[k] < n - 1;
      }
    }
  }

  /** Reading position `c` of the non-zero scan of `v` gives `v[c]`, and 0
      outside `v`. */
  lemma {:induction false} CompressLookup(v: seq<int>, c: int)
    ensures Lookup(Compress(v), c) == if 0 <= c < |v| then v[c] else 0
    decreases |v|
  {
    if |v| > 0 {
      var n := |v|;
      var w := v[..n - 1];
      CompressLookup(w, c);
      if v[n - 1] != 0 {
        LookupAppend(Compress(w), n - 1, v[n - 1], c);
      }
      if 0 <= c < n - 1 {
        assert w[c] == v[c];
      }
    }
  }

  /** The slice the non-zero scan produces spells the scanned vector back. */
  lemma CompressExpands(v: seq<int>)
    ensures Expand(Compress(v), |v|) == v
  {
    forall c | 0 <= c < |v|
      ensures Expand(Compress(v), |v|)[c] == v[c]
    {
      CompressLookup(v, c);
    }
  }

  lemma {:induction false} LookupAbsent(s: Slice, c: int)
    requires Valid(s)
    requires forall k :: 0 <= k < |s.indices| ==> s.indices[k] != c
    ensures Lookup(s, c) == 0 && Sum(s, c) == 0
    decreases |s.indices|
  {
    if |s.indices| > 0 {
      LookupAbsent(Init(s), c);
    }
  }

  /** Without a repeated index, adding the entries and overwriting with them agree. */
  lemma {:induction false} SumIsLookup(s: Slice, c: int)
    requires Valid(s) && Distinct(s.indices)
    ensures Sum(s, c) == Lookup(s, c)
    decreases |s.indices|
  {
    if |s.indices| > 0 {
      var n := |s.indices|;
      SumIsLookup(Init(s), c);
      if s.indices[n - 1] == c {
        LookupAbsent(Init(s), c);
      }
    }
  }

  lemma StrictlyIncreasingIsDistinct(ks: seq<int>)
    requires StrictlyIncreasing(ks)
    ensures Distinct(ks)
  {
  }

  /** Scattering the entries against a column equals the inner product of the
      slice's additive expansion with that column: the reordering that turns
      the accumulator loop into the textbook row-times-column sum. */
  lemma {:induction false} WeightedIsDot(s: Slice, col: seq<int>)
    requires Valid(s) && InRange(s, |col|)
    ensures Weighted(s, col) == Dense.Dot(Densify(s, |col|), col)
    decreases |s.indices|
  {
    if |s.indices| > 0 {
      var n := |s.indices|;
      var k, v := s.indices[n - 1], s.values[n - 1];
      var d := Densify(Init(s), |col|);
      WeightedIsDot(Init(s), col);
      AppendInit(s);
      forall c | 0 <= c < |col|
        ensures Sum(s, c) == d[k := d[k] + v][c]
      {
        LookupAppend(Init(s), k, v, c);
      }
      assert Densify(s, |col|) == d[k := d[k] + v];
      Dense.DotUpdate(d, col, k, v);
    } else {
      Dense.DotSymmetric(Densify(s, |col|), col);
      Dense.DotZero(col, Densify(s, |col|));
    }
  }

  /** A non-empty slice is its last entry appended to the rest. */
  lemma AppendInit(s: Slice)
    requires Valid(s) && |s.indices| > 0
    ensures Append(Init(s), s.indices[|s.indices| - 1], s.values[|s.values| - 1]) == s
  {
    assert Init(s).indices + [s.indices[|s.indices| - 1]] == s.indices;
    assert Init(s).values + [s.values[|s.values| - 1]] == s.values;
  }

  /** A canonical slice with its last entry removed is canonical, and its
      indices lie below that last entry's index. */
  lemma InitCanonical(s: Slice, n: nat)
    requires Valid(s) && InRange(s, n) && StrictlyIncreasing(s.indices) && NonZero(s.values)
    requires |s.indices| > 0 && s.indices[|s.indices| - 1] == n - 1
    ensures InRange(Init(s), n - 1) && StrictlyIncreasing(Init(s).indices) && NonZero(Init(s).values)
  {
    var m := |s.indices|;
    forall k | 0 <= k < m - 1
      ensures Init(s).indices[k] < n - 1
    {
      assert s.indices[k] < s.indices[m - 1];
    }
  }

  /** A strictly increasing slice in range `n` that does not store index
      `n - 1` is in range `n - 1`. */
  lemma BelowLast(s: Slice, n: nat)
    requires Valid(s) && InRange(s, n) && StrictlyIncreasing(s.indices) && n > 0
    requires |s.indices| == 0 || s.indices[|s.indices| - 1] != n - 1
    ensures InRange(s, n - 1)
  {
    var m := |s.indices|;
    forall k | 0 <= k < m
      ensures s.indices[k] < n - 1
    {
      assert s.indices[k] <= s.indices[m - 1];
    }
  }

  /** Expanding to one position fewer drops the last cell. */
  lemma ExpandShorter(s: Slice, n: nat)
    requires Valid(s) && n > 0
    ensures Expand(s, n)[..n - 1] == Expand(s, n - 1)
  {
  }

  /** The only canonical slice (strictly increasing, no zeros, in range) that
      spells a given vector is the one the non-zero scan produces. */
  lemma {:induction false} CompressExpand(s: Slice, n: nat)
    requires Valid(s) && InRange(s, n)
    requires StrictlyIncreasing(s.indices) && NonZero(s.values)
    ensures Compress(Expand(s, n)) == s
    decreases n
  {
    if n == 0 {
      assert |s.indices| == 0;
    } else {
      var v := Expand(s, n);
      var m := |s.indices|;
      ExpandShorter(s, n);
      assert Compress(v) == if v[n - 1] != 0 then Append(Compress(v[..n - 1]), n - 1, v[n - 1]) else Compress(v[..n - 1]);
      if m > 0 && s.indices[m - 1] == n - 1 {
        var s' := Init(s);
        InitCanonical(s, n);
        assert Expand(s', n - 1) == Expand(s, n - 1) by {
          forall c | 0 <= c < n - 1
            ensures Lookup(s', c) == Lookup(s, c)
          {
          }
        }
        CompressExpand(s', n - 1);
        assert v[n - 1] == s.values[m - 1] != 0;
        AppendInit(s);
      } else {
        BelowLast(s, n);
        LookupAbsent(s, n - 1);
        CompressExpand(s, n - 1);
      }
    }
  }
}
