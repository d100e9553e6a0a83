/**
 * The coordinate mesh of a north-up raster, as geotiff_to_map.py builds it:
 * bounds from the geotransform and raster size, a half-open `np.mgrid` over
 * them, the projection centre, and the pairing of the reprojected mesh with
 * the transposed first band for plotting. Arithmetic is exact (`real`).
 */
module GeoGrid {
  import opened Wrappers
  import opened Arrays
  import Reproject

  /**
   * GDAL's six geotransform coefficients. For a pixel/line position (p, l) the
   * georeferenced point is (originX + p*pixelWidth + l*rowRotation,
   * originY + p*columnRotation + l*pixelHeight).
   */
  datatype GeoTransform = GeoTransform(
    originX: real, pixelWidth: real, rowRotation: real,
    originY: real, columnRotation: real, pixelHeight: real)

  /** The georeferenced point of a (fractional) pixel/line position under the full affine geotransform. */
  function Georeference(gt: GeoTransform, p: real, l: real): (real, real) {
    (gt.originX + p * gt.pixelWidth + l * gt.rowRotation,
     gt.originY + p * gt.columnRotation + l * gt.pixelHeight)
  }

  /** A north-up raster has no rotation terms. */
  predicate NorthUp(gt: GeoTransform) {
    gt.rowRotation == 0.0 && gt.columnRotation == 0.0
  }

  /** The bounds `xmin, xmax, ymin, ymax` the map script derives. */
  datatype Bounds = Bounds(xmin: real, xmax: real, ymin: real, ymax: real)

  /**
   * The bounds `xmin, xmax, ymin, ymax` of geotiff_to_map.py. Each pair is
   * centred on the raster's middle, and the x-pair spans one pixel less than
   * the raster while the y-pair spans one pixel more.
   */
  function RasterBounds(gt: GeoTransform, width: nat, height: nat): (b: Bounds)
    ensures b.xmin + b.xmax == 2.0 * gt.originX + gt.pixelWidth * width as real
    ensures b.ymin + b.ymax == 2.0 * gt.originY + gt.pixelHeight * height as real
    ensures b.xmax - b.xmin == gt.pixelWidth * width as real - gt.pixelWidth
    ensures b.ymin - b.ymax == gt.pixelHeight * height as real + gt.pixelHeight
  {
    var xres := gt.pixelWidth;
    var yres := gt.pixelHeight;
    Bounds(gt.originX + xres * 0.5,
           gt.originX + xres * width as real - xres * 0.5,
           gt.originY + yres * height as real + yres * 0.5,
           gt.originY - yres * 0.5)
  }

  /**
   * The x-bounds are the centres of the first and last pixel columns, while
   * the y-bounds are the centres of the rows just outside the raster: row -1
   * (ymax) and row `height` (ymin). So the x-bounds span `width - 1` pixels and
   * the y-bounds `height + 1`.
   */
  lemma RasterBoundsMeaning(gt: GeoTransform, width: nat, height: nat)
    requires NorthUp(gt)
    ensures var b := RasterBounds(gt, width, height);
      && b.xmin == Georeference(gt, 0.5, 0.0).0
      && b.xmax == Georeference(gt, width as real - 0.5, 0.0).0
      && b.ymax == Georeference(gt, 0.0, -0.5).1
      && b.ymin == Georeference(gt, 0.0, height as real + 0.5).1
      && b.xmax - b.xmin == gt.pixelWidth * (width as real - 1.0)
      && b.ymin - b.ymax == gt.pixelHeight * (height as real + 1.0)
  {
    var xres, yres := gt.pixelWidth, gt.pixelHeight;
    var w, h := width as real, height as real;
    assert (w - 0.5) * xres == xres * w - xres * 0.5;
    assert (h + 0.5) * yres == yres * h + yres * 0.5;
    assert xres * (w - 1.0) == xres * w - xres;
    assert yres * (h + 1.0) == yres * h + yres;
  }

  /** The least integer not below `x`. */
  function Ceil(x: real): (c: int)
    ensures c as real - 1.0 < x <= c as real
  {
    -((-x).Floor)
  }

  datatype GridError =
    /** A zero step: numpy divides by the step to size the axis. */
    ZeroStep
    /** A negative axis size: numpy refuses negative dimensions. */
  | NegativeDimension

  /**
   * One axis `start:stop:step` of `np.mgrid`: `ceil((stop - start) / step)`
   * samples `start + k*step`.
   */
  function Arange(start: real, stop: real, step: real): (r: Result<seq<real>, GridError>)
    ensures step == 0.0 <==> r == Failure(ZeroStep)
    ensures r.Failure? <==> step == 0.0 || Ceil((stop - start) / step) < 0
    ensures r.Success? ==> |r.value| == Ceil((stop - start) / step)
    ensures r.Success? ==> forall k :: 0 <= k < |r.value| ==> r.value[k] == start + k as real * step
  {
    if step == 0.0 then Failure(ZeroStep)
    else
      var size := Ceil((stop - start) / step);
      if size < 0 then Failure(NegativeDimension)
      else Success(seq(size, k requires 0 <= k < size => start + k as real * step))
  }

  /**
   * The axis is exactly the half-open range: every sample lies strictly before
   * `stop` in the direction of the step, and one more step would reach `stop`.
   */
  lemma ArangeHalfOpen(start: real, stop: real, step: real)
    requires step != 0.0
    requires Arange(start, stop, step).Success?
    ensures var s := Arange(start, stop, step).value;
      && (forall k :: 0 <= k < |s| ==> (if step > 0.0 then s[k] < stop else s[k] > stop))
      && (if step > 0.0 then start + |s| as real * step >= stop else start + |s| as real * step <= stop)
  {
    var s := Arange(start, stop, step).value;
    var q := (stop - start) / step;
    assert stop - start == q * step;
    var n := |s|;
    assert n as real - 1.0 < q <= n as real;
    forall k | 0 <= k < n
      ensures if step > 0.0 then s[k] < stop else s[k] > stop
    {
      assert (k as real) < q;
      if step > 0.0 {
        assert k as real * step < q * step;
      } else {
        assert k as real * step > q * step;
      }
    }
    if step > 0.0 {
      assert n as real * step >= q * step;
    } else {
      assert n as real * step <= q * step;
    }
  }

  /** An axis whose span is `count` whole steps has exactly `count` samples. */
  lemma ArangeWholeSteps(start: real, stop: real, step: real, count: nat)
    requires step != 0.0
    requires stop == start + step * count as real
    ensures Arange(start, stop, step).Success?
    ensures |Arange(start, stop, step).value| == count
  {
    var q := (stop - start) / step;
    assert q * step == step * count as real;
    assert q == count as real;
  }

  /** `np.mgrid` over two axes: an array of shape (2, |xs|, |ys|). */
  function MGrid(xs: seq<real>, ys: seq<real>): (g: seq<Reproject.Plane>)
    ensures Reproject.IsCoordinateArray(g, |xs|, |ys|)
    ensures forall i, j :: 0 <= i < |xs| && 0 <= j < |ys| ==> g[0][i][j] == xs[i] && g[1][i][j] == ys[j]
  {
    [seq(|xs|, i requires 0 <= i < |xs| => seq(|ys|, j => xs[i])),
     seq(|xs|, i requires 0 <= i < |xs| => ys)]
  }

  /**
   * `np.mgrid[xmin:xmax + xres:xres, ymax + yres:ymin:yres]` over the bounds of
   * the raster.
   */
  function BuildMesh(gt: GeoTransform, width: nat, height: nat): (r: Result<seq<Reproject.Plane>, GridError>)
    ensures r.Success? <==> gt.pixelWidth != 0.0 && gt.pixelHeight != 0.0
    ensures r.Success? ==> Reproject.IsCoordinateArray(r.value, width, height)
  {
    var b := RasterBounds(gt, width, height);
    var xres := gt.pixelWidth;
    var yres := gt.pixelHeight;
    match Arange(b.xmin, b.xmax + xres, xres)
    case Failure(e) => Failure(e)
    case Success(xs) =>
      XAxisSamples(gt, width, height);
      match Arange(b.ymax + yres, b.ymin, yres)
      case Failure(e) =>
        assert yres == 0.0 by {
          if yres != 0.0 {
            YAxisSamples(gt, width, height);
          }
        }
        Failure(e)
      case Success(ys) =>
        YAxisSamples(gt, width, height);
        Success(MGrid(xs, ys))
  }

  /**
   * With non-zero resolutions the x-axis has exactly `width` samples
   * `xmin + k*xres`, the last of which is `xmax`.
   */
  lemma XAxisSamples(gt: GeoTransform, width: nat, height: nat)
    requires gt.pixelWidth != 0.0
    ensures var b := RasterBounds(gt, width, height);
      var xs := Arange(b.xmin, b.xmax + gt.pixelWidth, gt.pixelWidth);
      && xs.Success? && |xs.value| == width
      && (forall k :: 0 <= k < width ==> xs.value[k] == b.xmin + k as real * gt.pixelWidth)
      && (width > 0 ==> xs.value[width - 1] == b.xmax)
  {
    var b := RasterBounds(gt, width, height);
    ArangeWholeSteps(b.xmin, b.xmax + gt.pixelWidth, gt.pixelWidth, width);
  }

  /**
   * With non-zero resolutions the y-axis, which starts one step past `ymax`,
   * has exactly `height` samples, the centres `originY + yres*(k + 1/2)` of the
   * raster's rows.
   */
  lemma YAxisSamples(gt: GeoTransform, width: nat, height: nat)
    requires gt.pixelHeight != 0.0
    ensures var b := RasterBounds(gt, width, height);
      var ys := Arange(b.ymax + gt.pixelHeight, b.ymin, gt.pixelHeight);
      && ys.Success? && |ys.value| == height
      && (forall k :: 0 <= k < height ==>
            ys.value[k] == gt.originY + gt.pixelHeight * (k as real + 0.5))
  {
    var b := RasterBounds(gt, width, height);
    var start := b.ymax + gt.pixelHeight;
    ArangeWholeSteps(start, b.ymin, gt.pixelHeight, height);
  }

  /**
   * A successful mesh has cell (i, j) holding the georeferenced centre of the
   * pixel in column i and row j.
   */
  lemma MeshIsPixelCentres(gt: GeoTransform, width: nat, height: nat, i: nat, j: nat)
    requires NorthUp(gt)
    requires BuildMesh(gt, width, height).Success?
    requires i < width && j < height
    ensures var g := BuildMesh(gt, width, height).value;
      (g[0][i][j], g[1][i][j]) == Georeference(gt, i as real + 0.5, j as real + 0.5)
  {
    var b := RasterBounds(gt, width, height);
    var g := BuildMesh(gt, width, height).value;
    assert g[0][i][j] == b.xmin + i as real * gt.pixelWidth
        && g[1][i][j] == gt.originY + gt.pixelHeight * (j as real + 0.5) by {
      XAxisSamples(gt, width, height);
      YAxisSamples(gt, width, height);
      var xs := Arange(b.xmin, b.xmax + gt.pixelWidth, gt.pixelWidth).value;
      var ys := Arange(b.ymax + gt.pixelHeight, b.ymin, gt.pixelHeight).value;
      assert g == MGrid(xs, ys);
      assert g[0][i][j] == xs[i];
      assert g[1][i][j] == ys[j];
    }
    var p, l := i as real + 0.5, j as real + 0.5;
    assert l * gt.rowRotation == 0.0 && p * gt.columnRotation == 0.0;
    assert p * gt.pixelWidth == i as real * gt.pixelWidth + gt.pixelWidth * 0.5;
    assert l * gt.pixelHeight == gt.pixelHeight * (j as real + 0.5);
    var geo := Georeference(gt, p, l);
    assert geo.0 == g[0][i][j];
    assert geo.1 == g[1][i][j];
  }

  /** The centre of the orthographic map: the midpoints of the two bound pairs, inside the box when the pairs are ordered. */
  function ProjectionCentre(b: Bounds): (c: (real, real))
    ensures 2.0 * c.0 == b.xmin + b.xmax && 2.0 * c.1 == b.ymin + b.ymax
    ensures b.xmin <= b.xmax ==> b.xmin <= c.0 <= b.xmax
    ensures b.ymin <= b.ymax ==> b.ymin <= c.1 <= b.ymax
  {
    (b.xmin + (b.xmax - b.xmin) / 2.0, b.ymin + (b.ymax - b.ymin) / 2.0)
  }

  /**
   * Although the y-bounds lie half a pixel outside the raster, they do so
   * symmetrically, so the projection centre is the georeferenced centre of the
   * raster, pixel/line position (width/2, height/2).
   */
  lemma ProjectionCentreIsRasterCentre(gt: GeoTransform, width: nat, height: nat)
    requires NorthUp(gt)
    ensures ProjectionCentre(RasterBounds(gt, width, height))
         == Georeference(gt, width as real / 2.0, height as real / 2.0)
    ensures ProjectionCentre(RasterBounds(gt, width, height))
         == (gt.originX + gt.pixelWidth * width as real / 2.0, gt.originY + gt.pixelHeight * height as real / 2.0)
  {
    var b := RasterBounds(gt, width, height);
    var xres, yres := gt.pixelWidth, gt.pixelHeight;
    var w, h := width as real, height as real;
    var c := ProjectionCentre(b);
    var g := Georeference(gt, w / 2.0, h / 2.0);
    assert b.xmin + b.xmax == 2.0 * gt.originX + xres * w;
    assert b.ymin + b.ymax == 2.0 * gt.originY + yres * h;
    assert c.0 == gt.originX + xres * w / 2.0;
    assert c.1 == gt.originY + yres * h / 2.0;
    assert (h / 2.0) * gt.rowRotation == 0.0;
    assert (w / 2.0) * gt.columnRotation == 0.0;
    assert g.0 == gt.originX + (w / 2.0) * xres;
    assert g.1 == gt.originY + (h / 2.0) * yres;
    assert (w / 2.0) * xres == xres * w / 2.0;
    assert (h / 2.0) * yres == yres * h / 2.0;
    assert c == g;
    assert c == (gt.originX + xres * w / 2.0, gt.originY + yres * h / 2.0);
    assert gt.pixelWidth * width as real / 2.0 == xres * w / 2.0;
    assert gt.pixelHeight * height as real / 2.0 == yres * h / 2.0;
  }

  /** Why plotting fails: the mesh cannot be built, or the grid is empty. */
  datatype PlotError = Mesh(grid: GridError) | Projection(projection: Reproject.ProjectionError)

  /**
   * What geotiff_to_map.py hands to `pcolormesh`: the reprojected mesh planes
   * and the transposed first band. `band` is the first band as read, `height`
   * rows of `width` pixels.
   */
  function PlotInputs(gt: GeoTransform, width: nat, height: nat, band: seq<seq<real>>,
                      t: (real, real) -> Reproject.Point3)
    : (r: Result<(Reproject.Plane, Reproject.Plane, seq<seq<real>>), PlotError>)
    requires IsMatrix(band, height, width)
    ensures r.Failure? <==> gt.pixelWidth == 0.0 || gt.pixelHeight == 0.0 || width * height == 0
    ensures r.Failure? ==> (r.error.Mesh? <==> gt.pixelWidth == 0.0 || gt.pixelHeight == 0.0)
    ensures r.Success? ==> r.value.2 == Transpose(band, height, width)
  {
    match BuildMesh(gt, width, height)
    case Failure(e) => Failure(Mesh(e))
    case Success(mesh) =>
      match Reproject.ConvertXYProjection(mesh, width, height, t)
      case Failure(e) => Failure(Projection(e))
      case Success(planes) => Success((planes.0, planes.1, Transpose(band, height, width)))
  }

  /**
   * Plotting inputs exist exactly for non-zero resolutions and a non-empty
   * raster, and then all three arrays are width-by-height.
   */
  lemma PlotInputsShape(gt: GeoTransform, width: nat, height: nat, band: seq<seq<real>>,
                        t: (real, real) -> Reproject.Point3)
    requires IsMatrix(band, height, width)
    ensures PlotInputs(gt, width, height, band, t).Success?
        <==> gt.pixelWidth != 0.0 && gt.pixelHeight != 0.0 && width > 0 && height > 0
    ensures PlotInputs(gt, width, height, band, t).Success? ==>
      var r := PlotInputs(gt, width, height, band, t).value;
      IsMatrix(r.0, width, height) && IsMatrix(r.1, width, height) && IsMatrix(r.2, width, height)
  {
    if BuildMesh(gt, width, height).Success? {
      if width > 0 && height > 0 {
        assert width * height > 0;
      } else {
        assert width * height == 0;
      }
    }
  }

  /**
   * Cell (i, j) of the plotting inputs pairs the value of the pixel in column i,
   * row j with the transformed centre of that same pixel.
   */
  lemma PlotInputsPairPixels(gt: GeoTransform, width: nat, height: nat, band: seq<seq<real>>,
                             t: (real, real) -> Reproject.Point3, i: nat, j: nat)
    requires NorthUp(gt)
    requires IsMatrix(band, height, width)
    requires gt.pixelWidth != 0.0 && gt.pixelHeight != 0.0
    requires i < width && j < height
    ensures PlotInputs(gt, width, height, band, t).Success?
    ensures var r := PlotInputs(gt, width, height, band, t).value;
      var centre := Georeference(gt, i as real + 0.5, j as real + 0.5);
      && r.0[i][j] == t(centre.0, centre.1).0
      && r.1[i][j] == t(centre.0, centre.1).1
      && r.2[i][j] == band[j][i]
  {
    RowMajorBound(i, j, width, height);
    var mesh := BuildMesh(gt, width, height).value;
    Reproject.ConvertPointwise(mesh, width, height, t, i, j);
    MeshIsPixelCentres(gt, width, height, i, j);
  }

  /**
   * A 4-by-4 raster at origin (10, 5) with unit pixels: the y-bounds 0.5 and
   * 5.5 lie outside the row centres 4.5 .. 1.5, which the y-axis still
   * enumerates exactly.
   */
  lemma FourByFourMesh()
    ensures var gt := GeoTransform(10.0, 1.0, 0.0, 5.0, 0.0, -1.0);
      && RasterBounds(gt, 4, 4) == Bounds(10.5, 13.5, 0.5, 5.5)
      && BuildMesh(gt, 4, 4).Success?
      && BuildMesh(gt, 4, 4).value[0][3] == [13.5, 13.5, 13.5, 13.5]
      && BuildMesh(gt, 4, 4).value[1][0] == [4.5, 3.5, 2.5, 1.5]
  {
    var gt := GeoTransform(10.0, 1.0, 0.0, 5.0, 0.0, -1.0);
    XAxisSamples(gt, 4, 4);
    YAxisSamples(gt, 4, 4);
  }
}
