/**
 * Row-major array plumbing of numpy as used by the raster code: a 2-D array is
 * a sequence of equally long rows, `reshape` fills rows in order from a flat
 * sequence, flattening reads rows in order, and `.T` swaps the two indices.
 */
module Arrays {

  /** True when `a` is an m-by-n array: m rows of n entries each. */
  predicate IsMatrix<A>(a: seq<seq<A>>, m: nat, n: nat) {
    |a| == m && forall i :: 0 <= i < m ==> |a[i]| == n
  }

  /** Quotient and remainder of `q*n + r` by `n` when `r` is a valid remainder. */
  lemma DivModOfSum(q: nat, r: nat, n: nat)
    requires r < n
    ensures (q * n + r) / n == q
    ensures (q * n + r) % n == r
  {
    var k := q * n + r;
    var d := k / n - q;
    assert d * n == r - k % n;
  }

  /** Every row-major index `k` below `m*n` splits into a row below `m` and a column below `n`. */
  lemma RowMajorSplit(k: nat, m: nat, n: nat)
    requires k < m * n
    ensures n > 0
    ensures k / n < m && k % n < n
    ensures k == (k / n) * n + k % n
  {
  }

  /** `i*n + j` lies inside an m-by-n array when `i < m` and `j < n`. */
  lemma RowMajorBound(i: nat, j: nat, m: nat, n: nat)
    requires i < m && j < n
    ensures i * n + j < m * n
  {
    assert i * n + j < i * n + n == (i + 1) * n;
    assert (i + 1) * n <= m * n;
  }

  lemma NextRow(i: nat, j: nat, n: nat)
    requires i >= 1
    ensures (i - 1) * n + j + n == i * n + j
  {
  }

  /** The row-major flattening of an array whose rows have n entries (numpy `ravel`). */
  function Flatten<A>(a: seq<seq<A>>, n: nat): (r: seq<A>)
    requires IsMatrix(a, |a|, n)
    ensures |r| == |a| * n
  {
    if |a| == 0 then []
    else
      var rest := Flatten(a[1..], n);
      assert |a| * n == n + (|a| - 1) * n;
      a[0] + rest
  }

  /** Cell `(i, j)` of an array sits at position `i*n + j` of its flattening. */
  lemma {:induction false} FlattenCell<A>(a: seq<seq<A>>, n: nat, i: nat, j: nat)
    requires IsMatrix(a, |a|, n)
    requires i < |a| && j < n
    ensures i * n + j < |Flatten(a, n)|
    ensures Flatten(a, n)[i * n + j] == a[i][j]
  {
    RowMajorBound(i, j, |a|, n);
    if i > 0 {
      FlattenCell(a[1..], n, i - 1, j);
      NextRow(i, j, n);
    }
  }

  /** Entry `k` of a flattened array is the entry at row `k / n`, column `k % n`. */
  lemma FlattenIndex<A>(a: seq<seq<A>>, n: nat, k: nat)
    requires IsMatrix(a, |a|, n)
    requires k < |a| * n
    ensures n > 0 && k / n < |a| && k % n < n
    ensures Flatten(a, n)[k] == a[k / n][k % n]
  {
    RowMajorSplit(k, |a|, n);
    FlattenCell(a, n, k / n, k % n);
  }

  /** Reshapes a flat sequence of m*n entries into an m-by-n array, filling rows in order. */
  function Reshape<A>(s: seq<A>, m: nat, n: nat): (r: seq<seq<A>>)
    requires |s| == m * n
    ensures IsMatrix(r, m, n)
  {
    if m == 0 then []
    else
      assert m * n == n + (m - 1) * n;
      [s[..n]] + Reshape(s[n..], m - 1, n)
  }

  /** Cell `(i, j)` of a reshaped sequence is its entry `i*n + j`. */
  lemma {:induction false} ReshapeIndex<A>(s: seq<A>, m: nat, n: nat, i: nat, j: nat)
    requires |s| == m * n
    requires i < m && j < n
    ensures i * n + j < |s|
    ensures Reshape(s, m, n)[i][j] == s[i * n + j]
  {
    RowMajorBound(i, j, m, n);
    assert m * n == n + (m - 1) * n;
    var r := Reshape(s, m, n);
    if i == 0 {
      assert r[0] == s[..n];
    } else {
      assert r[i] == Reshape(s[n..], m - 1, n)[i - 1];
      ReshapeIndex(s[n..], m - 1, n, i - 1, j);
      NextRow(i, j, n);
    }
  }

  /** Flattening an array and reshaping it back to the same shape gives the array back. */
  lemma {:induction false} ReshapeFlatten<A>(a: seq<seq<A>>, n: nat)
    requires IsMatrix(a, |a|, n)
    ensures Reshape(Flatten(a, n), |a|, n) == a
  {
    if |a| > 0 {
      var s := Flatten(a, n);
      assert s[..n] == a[0];
      assert s[n..] == Flatten(a[1..], n);
      ReshapeFlatten(a[1..], n);
      assert a == [a[0]] + a[1..];
    }
  }

  /** Reshaping a flat sequence and flattening the result gives the sequence back. */
  lemma {:induction false} FlattenReshape<A>(s: seq<A>, m: nat, n: nat)
    requires |s| == m * n
    ensures Flatten(Reshape(s, m, n), n) == s
  {
    if m > 0 {
      assert m * n == n + (m - 1) * n;
      var r := Reshape(s, m, n);
      assert r[1..] == Reshape(s[n..], m - 1, n);
      FlattenReshape(s[n..], m - 1, n);
      assert s == s[..n] + s[n..];
    }
  }

  /** Two m-by-n arrays that agree cell by cell are equal. */
  lemma MatrixExtensionality<A>(a: seq<seq<A>>, b: seq<seq<A>>, m: nat, n: nat)
    requires IsMatrix(a, m, n) && IsMatrix(b, m, n)
    requires forall i, j :: 0 <= i < m && 0 <= j < n ==> a[i][j] == b[i][j]
    ensures a == b
  {
    forall i | 0 <= i < m
      ensures a[i] == b[i]
    {
      assert forall j :: 0 <= j < n ==> a[i][j] == b[i][j];
    }
  }

  /** The transpose (numpy `.T`) of an m-by-n array. */
  function Transpose<A>(a: seq<seq<A>>, m: nat, n: nat): (r: seq<seq<A>>)
    requires IsMatrix(a, m, n)
    ensures IsMatrix(r, n, m)
    ensures forall j, i :: 0 <= j < n && 0 <= i < m ==> r[j][i] == a[i][j]
  {
    seq(n, j requires 0 <= j < n => seq(m, i requires 0 <= i < m => a[i][j]))
  }

  /** Transposing twice gives the array back, so `.T` loses and invents nothing. */
  lemma TransposeInvolution<A>(a: seq<seq<A>>, m: nat, n: nat)
    requires IsMatrix(a, m, n)
    ensures Transpose(Transpose(a, m, n), n, m) == a
  {
    var t := Transpose(Transpose(a, m, n), n, m);
    MatrixExtensionality(t, a, m, n);
  }
}
