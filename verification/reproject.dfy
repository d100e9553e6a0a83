/**
 * The batch reprojection adapter `convert_xy_projection`: a 2-by-m-by-n array
 * of (x, y) coordinates is flattened row-major into m*n points, the points go
 * through one coordinate transformation in a single batch call, and the first
 * two components of every transformed point are reshaped back to m-by-n.
 *
 * The transformation itself (GDAL/OSR) is not modelled: it is the parameter
 * `t`, which maps one (x, y) point to an (x, y, z) point.
 */
module Reproject {
  import opened Wrappers
  import opened Arrays

  type Point2 = (real, real)
  type Point3 = (real, real, real)

  /** An array plane: one coordinate per grid cell. */
  type Plane = seq<seq<real>>

  datatype ProjectionError =
    /** An empty grid: the transformed batch has no columns to select, so indexing raises. */
    EmptyGrid

  /** True when `xy` is a numpy array of shape (2, m, n). */
  predicate IsCoordinateArray(xy: seq<Plane>, m: nat, n: nat) {
    |xy| == 2 && IsMatrix(xy[0], m, n) && IsMatrix(xy[1], m, n)
  }

  /**
   * The batch call of the coordinate transformation, applied to every point of
   * the batch in order.
   */
  function TransformPoints(t: (real, real) -> Point3, pts: seq<Point2>): (r: seq<Point3>)
    ensures |r| == |pts|
    ensures forall k :: 0 <= k < |pts| ==> r[k] == t(pts[k].0, pts[k].1)
  {
    if |pts| == 0 then []
    else [t(pts[0].0, pts[0].1)] + TransformPoints(t, pts[1..])
  }

  /** Swapping two points of a batch swaps their results and moves no other result. */
  lemma TransformPointsSwap(t: (real, real) -> Point3, pts: seq<Point2>, a: nat, b: nat)
    requires a < |pts| && b < |pts|
    ensures TransformPoints(t, pts[a := pts[b]][b := pts[a]])
         == TransformPoints(t, pts)[a := TransformPoints(t, pts)[b]][b := TransformPoints(t, pts)[a]]
  {
    var swapped := pts[a := pts[b]][b := pts[a]];
    var out := TransformPoints(t, pts);
    var lhs := TransformPoints(t, swapped);
    var rhs := out[a := out[b]][b := out[a]];
    assert |lhs| == |rhs|;
    forall k | 0 <= k < |lhs|
      ensures lhs[k] == rhs[k]
    {
      if k == b {
        assert swapped[k] == pts[a];
      } else if k == a {
        assert swapped[k] == pts[b];
      } else {
        assert swapped[k] == pts[k];
      }
    }
  }

  /** Pairs up two equally long rows: the transpose of a 2-by-size array. */
  function Zip(xs: seq<real>, ys: seq<real>): (r: seq<Point2>)
    requires |xs| == |ys|
    ensures |r| == |xs|
    ensures forall k :: 0 <= k < |xs| ==> r[k].0 == xs[k] && r[k].1 == ys[k]
  {
    if |xs| == 0 then [] else [(xs[0], ys[0])] + Zip(xs[1..], ys[1..])
  }

  /** Column `c` (0 or 1) of a batch of transformed points (numpy `xy_target[:, c]`). */
  function Column(pts: seq<Point3>, c: nat): (r: seq<real>)
    requires c < 2
    ensures |r| == |pts|
    ensures forall k :: 0 <= k < |pts| ==> r[k] == if c == 0 then pts[k].0 else pts[k].1
  {
    if |pts| == 0 then []
    else [if c == 0 then pts[0].0 else pts[0].1] + Column(pts[1..], c)
  }

  /**
   * The batch handed to the transformation: the whole (2, m, n) array read
   * row-major, reshaped to (2, m*n) and transposed into m*n (x, y) pairs.
   */
  function BatchPoints(xy: seq<Plane>, m: nat, n: nat): (r: seq<Point2>)
    requires IsCoordinateArray(xy, m, n)
    ensures |r| == m * n
  {
    var size := m * n;
    var rows := Reshape(Flatten(xy[0], n) + Flatten(xy[1], n), 2, size);
    Zip(rows[0], rows[1])
  }

  /** Point `k` of the batch is cell (k / n, k % n) of both planes: row-major order. */
  lemma BatchPointOrder(xy: seq<Plane>, m: nat, n: nat, k: nat)
    requires IsCoordinateArray(xy, m, n)
    requires k < m * n
    ensures n > 0 && k / n < m && k % n < n
    ensures BatchPoints(xy, m, n)[k] == (xy[0][k / n][k % n], xy[1][k / n][k % n])
  {
    var size := m * n;
    var flat := Flatten(xy[0], n) + Flatten(xy[1], n);
    ReshapeIndex(flat, 2, size, 0, k);
    ReshapeIndex(flat, 2, size, 1, k);
    FlattenIndex(xy[0], n, k);
    FlattenIndex(xy[1], n, k);
  }

  /**
   * `convert_xy_projection`: reprojects every cell of a (2, m, n) coordinate
   * array with `t`; the result is the pair (x_out, y_out) of m-by-n planes.
   */
  function ConvertXYProjection(xy: seq<Plane>, m: nat, n: nat, t: (real, real) -> Point3)
    : (r: Result<(Plane, Plane), ProjectionError>)
    requires IsCoordinateArray(xy, m, n)
    ensures r.Failure? <==> m * n == 0
    ensures r.Success? ==> IsMatrix(r.value.0, m, n) && IsMatrix(r.value.1, m, n)
  {
    var target := TransformPoints(t, BatchPoints(xy, m, n));
    if |target| == 0 then Failure(EmptyGrid)
    else Success((Reshape(Column(target, 0), m, n), Reshape(Column(target, 1), m, n)))
  }

  /**
   * Every output cell is the transformation of the same input cell: x_out takes
   * component 0, y_out component 1, and component 2 is dropped.
   */
  lemma ConvertPointwise(xy: seq<Plane>, m: nat, n: nat, t: (real, real) -> Point3, i: nat, j: nat)
    requires IsCoordinateArray(xy, m, n)
    requires i < m && j < n
    ensures ConvertXYProjection(xy, m, n, t).Success?
    ensures ConvertXYProjection(xy, m, n, t).value.0[i][j] == t(xy[0][i][j], xy[1][i][j]).0
    ensures ConvertXYProjection(xy, m, n, t).value.1[i][j] == t(xy[0][i][j], xy[1][i][j]).1
  {
    RowMajorBound(i, j, m, n);
    var k := i * n + j;
    var pts := BatchPoints(xy, m, n);
    var target := TransformPoints(t, pts);
    var c0, c1 := Column(target, 0), Column(target, 1);
    assert ConvertXYProjection(xy, m, n, t) == Success((Reshape(c0, m, n), Reshape(c1, m, n)));
    ReshapeIndex(c0, m, n, i, j);
    ReshapeIndex(c1, m, n, i, j);
    assert c0[k] == target[k].0 && c1[k] == target[k].1;
    assert target[k] == t(pts[k].0, pts[k].1);
    BatchPointOrder(xy, m, n, k);
    DivModOfSum(i, j, n);
    assert pts[k] == (xy[0][i][j], xy[1][i][j]);
  }

  /** When the transformation keeps (x, y), the two output planes are the input planes. */
  lemma ConvertIdentity(xy: seq<Plane>, m: nat, n: nat, t: (real, real) -> Point3)
    requires IsCoordinateArray(xy, m, n)
    requires m * n > 0
    requires forall x: real, y: real :: t(x, y).0 == x && t(x, y).1 == y
    ensures ConvertXYProjection(xy, m, n, t) == Success((xy[0], xy[1]))
  {
    var r := ConvertXYProjection(xy, m, n, t);
    forall i, j | 0 <= i < m && 0 <= j < n
      ensures r.value.0[i][j] == xy[0][i][j] && r.value.1[i][j] == xy[1][i][j]
    {
      ConvertPointwise(xy, m, n, t, i, j);
      var x, y := xy[0][i][j], xy[1][i][j];
      assert t(x, y).0 == x && t(x, y).1 == y;
    }
    MatrixExtensionality(r.value.0, xy[0], m, n);
    MatrixExtensionality(r.value.1, xy[1], m, n);
  }

  /**
   * Points are independent: two coordinate arrays that differ only in cell
   * (i0, j0) give outputs that differ at most in cell (i0, j0).
   */
  lemma ConvertLocality(xy: seq<Plane>, xy': seq<Plane>, m: nat, n: nat, t: (real, real) -> Point3,
                        i0: nat, j0: nat)
    requires IsCoordinateArray(xy, m, n) && IsCoordinateArray(xy', m, n)
    requires forall p, i, j :: 0 <= p < 2 && 0 <= i < m && 0 <= j < n && (i, j) != (i0, j0) ==>
               xy[p][i][j] == xy'[p][i][j]
    ensures ConvertXYProjection(xy, m, n, t).Success? == ConvertXYProjection(xy', m, n, t).Success?
    ensures ConvertXYProjection(xy, m, n, t).Success? ==>
              forall i, j :: 0 <= i < m && 0 <= j < n && (i, j) != (i0, j0) ==>
                ConvertXYProjection(xy, m, n, t).value.0[i][j] == ConvertXYProjection(xy', m, n, t).value.0[i][j]
                && ConvertXYProjection(xy, m, n, t).value.1[i][j] == ConvertXYProjection(xy', m, n, t).value.1[i][j]
  {
    forall i, j | 0 <= i < m && 0 <= j < n && (i, j) != (i0, j0)
      ensures ConvertXYProjection(xy, m, n, t).value.0[i][j] == ConvertXYProjection(xy', m, n, t).value.0[i][j]
      ensures ConvertXYProjection(xy, m, n, t).value.1[i][j] == ConvertXYProjection(xy', m, n, t).value.1[i][j]
    {
      ConvertPointwise(xy, m, n, t, i, j);
      ConvertPointwise(xy', m, n, t, i, j);
      assert xy[0][i][j] == xy'[0][i][j];
      assert xy[1][i][j] == xy'[1][i][j];
    }
  }
}
