/** The bookkeeping of cell detection in a table image. OpenCV supplies, per
    kept contour, the number of vertices of its polygon approximation, the
    four turn angles of that polygon, the contour's moments and the polygon's
    bounding rectangle; these arrive here as data. The model covers which
    contours become cells, the ids the cells get, the table extent, the
    order of the output lists, and the colour-mask rule of the image clean-up. */
module CellDetection {
  import opened Common
  import opened StableSort
  import Grid

  /** One contour as OpenCV describes it. An angle is None when a side of
      the polygon has zero length, where the source computes NaN. */
  datatype Contour = Contour(corners: nat, angles: seq<Option<real>>, m00: real, m10: real, m01: real,
                             x: int, y: int, w: int, h: int)

  /** A detected cell: its id, bounding rectangle and centroid. */
  datatype Detected = Detected(id: int, x: int, y: int, w: int, h: int, cx: int, cy: int)

  datatype Centroid = Centroid(id: int, cx: int, cy: int)

  /** A bound that starts at `float('inf')`. */
  datatype Bound = Infinite | Finite(v: int)

  /** `(xt1, xt2, yt1, yt2)`. */
  datatype Extent = Extent(left: Bound, right: int, top: Bound, bottom: int)

  const NoExtent := Extent(Infinite, 0, Infinite, 0)

  predicate RightAngle(a: Option<real>) { a.Some? && 80.0 <= a.value <= 100.0 }

  /** Four vertices, every turn angle in [80, 100] degrees, non-zero area moment. */
  predicate Accept(c: Contour) {
    c.corners == 4 && |c.angles| == 4 && (forall i | 0 <= i < 4 :: RightAngle(c.angles[i])) && c.m00 != 0.0
  }

  /** The cell a contour becomes; `int()` truncates the centroid toward zero. */
  function MakeCell(c: Contour, id: int): Detected
    requires c.m00 != 0.0
  {
    Detected(id, c.x, c.y, c.w, c.h, TruncToInt(c.m10 / c.m00), TruncToInt(c.m01 / c.m00))
  }

  /** The cells in acceptance order, numbered from 1. */
  function Accepted(cs: seq<Contour>): (r: seq<Detected>)
    ensures |r| <= |cs|
    ensures forall k | 0 <= k < |r| :: r[k].id == k + 1
    decreases |cs|
  {
    if |cs| == 0 then []
    else
      var init := Accepted(cs[..|cs| - 1]);
      var c := cs[|cs| - 1];
      if Accept(c) then init + [MakeCell(c, |init| + 1)] else init
  }

  function Lower(b: Bound, v: int): Bound {
    if b.Infinite? || v < b.v then Finite(v) else b
  }

  function Upper(u: int, v: int): int { if v > u then v else u }

  function Grow(e: Extent, d: Detected): Extent {
    Extent(Lower(e.left, d.x), Upper(e.right, d.x + d.w), Lower(e.top, d.y), Upper(e.bottom, d.y + d.h))
  }

  function ExtentOf(cells: seq<Detected>): Extent
    decreases |cells|
  {
    if |cells| == 0 then NoExtent else Grow(ExtentOf(cells[..|cells| - 1]), cells[|cells| - 1])
  }

  /** The key as `sort_cropped_images` writes it: `(centroide[1],
      centroide[0])` of `centroide == (id_celda, cX, cY)`, that is the
      centroid's x and then the id, where its comment announces `(cY, cX)`. */
  function WrittenKey(d: Detected): (real, real) { (d.cx as real, d.id as real) }

  /** The sort key `(cY, cX)` that `sort_cropped_images` announces, top to
      bottom and then left to right. */
  function CentreKey(d: Detected): (real, real) { (d.cy as real, d.cx as real) }

  datatype Detection = Detection(coords: seq<Grid.CellBox>, centres: seq<Centroid>, extent: Extent)

  function Boxes(cells: seq<Detected>): seq<Grid.CellBox> {
    seq(|cells|, k requires 0 <= k < |cells| => Grid.CellBox(cells[k].id, cells[k].x, cells[k].y, cells[k].w, cells[k].h))
  }

  function Centroids(cells: seq<Detected>): seq<Centroid> {
    seq(|cells|, k requires 0 <= k < |cells| => Centroid(cells[k].id, cells[k].cx, cells[k].cy))
  }

  /** The four running bounds of the detection loop, widened by an
      accepted cell's box. */
  method Widen(xt1: Bound, xt2: int, yt1: Bound, yt2: int, d: Detected)
    returns (x1: Bound, x2: int, y1: Bound, y2: int)
    ensures Extent(x1, x2, y1, y2) == Grow(Extent(xt1, xt2, yt1, yt2), d)
  {
    x1, x2, y1, y2 := xt1, xt2, yt1, yt2;
    if xt1.Infinite? || d.x < xt1.v {
      x1 := Finite(d.x);
    }
    if yt1.Infinite? || d.y < yt1.v {
      y1 := Finite(d.y);
    }
    if d.x + d.w > xt2 {
      x2 := d.x + d.w;
    }
    if d.y + d.h > yt2 {
      y2 := d.y + d.h;
    }
  }

  /** One more accepted cell grows the extent by its box. */
  lemma ExtentSnoc(cells: seq<Detected>, d: Detected)
    ensures ExtentOf(cells + [d]) == Grow(ExtentOf(cells), d)
  {
    assert (cells + [d])[..|cells|] == cells;
  }

  /** What `detectar_celdas` returns, given the contours it keeps: the cells
      sorted by the key as written. */
  function Detect(cs: seq<Contour>): Detection {
    var cells := Accepted(cs);
    var sorted := Sort(cells, WrittenKey);
    Detection(Boxes(sorted), Centroids(sorted), ExtentOf(cells))
  }

  /** The detection the comment of `sort_cropped_images` announces: the same
      cells and extent, sorted top to bottom and then left to right. */
  function DetectIntended(cs: seq<Contour>): Detection {
    var cells := Accepted(cs);
    var sorted := Sort(cells, CentreKey);
    Detection(Boxes(sorted), Centroids(sorted), ExtentOf(cells))
  }

  method DetectCells(contours: seq<Contour>) returns (r: Detection)
    ensures r == Detect(contours)
  {
    var cells: seq<Detected> := [];
    var id := 1;
    var xt1, yt1 := Infinite, Infinite;
    var xt2, yt2 := 0, 0;
    for i := 0 to |contours|
      invariant cells == Accepted(contours[..i]) && id == |cells| + 1
      invariant Extent(xt1, xt2, yt1, yt2) == ExtentOf(cells)
    {
      var c := contours[i];
      assert contours[..i + 1] == contours[..i] + [c];
      AcceptedStep(contours[..i], c);
      if Accept(c) {
        var d := MakeCell(c, id);
        xt1, xt2, yt1, yt2 := Widen(xt1, xt2, yt1, yt2, d);
        ExtentSnoc(cells, d);
        cells := cells + [d];
        id := id + 1;
      }
    }
    assert contours[..|contours|] == contours;
    var sorted := Sort(cells, WrittenKey);
    r := Detection(Boxes(sorted), Centroids(sorted), Extent(xt1, xt2, yt1, yt2));
  }

  /** The extent is the bounding box of the cells: the least left and top
      edge, the greatest right and bottom edge (never below 0, its start),
      and `(inf, 0, inf, 0)` when there is no cell. */
  lemma {:induction false} ExtentBounds(cells: seq<Detected>)
    ensures var e := ExtentOf(cells);
            (|cells| == 0 ==> e == NoExtent) &&
            (|cells| > 0 ==> e.left.Finite? && e.top.Finite?) &&
            (forall k | 0 <= k < |cells| ::
               e.left.Finite? && e.left.v <= cells[k].x && e.top.Finite? && e.top.v <= cells[k].y &&
               cells[k].x + cells[k].w <= e.right && cells[k].y + cells[k].h <= e.bottom) &&
            (e.left.Finite? ==> exists k | 0 <= k < |cells| :: cells[k].x == e.left.v) &&
            (e.top.Finite? ==> exists k | 0 <= k < |cells| :: cells[k].y == e.top.v) &&
            0 <= e.right && (e.right == 0 || exists k | 0 <= k < |cells| :: cells[k].x + cells[k].w == e.right) &&
            0 <= e.bottom && (e.bottom == 0 || exists k | 0 <= k < |cells| :: cells[k].y + cells[k].h == e.bottom)
    decreases |cells|
  {
    if |cells| > 0 {
      var init := cells[..|cells| - 1];
      ExtentBounds(init);
      var e0 := ExtentOf(init);
      var e := ExtentOf(cells);
      var d := cells[|cells| - 1];
      assert e == Grow(e0, d);
      forall k | 0 <= k < |cells|
        ensures e.left.Finite? && e.left.v <= cells[k].x && e.top.Finite? && e.top.v <= cells[k].y &&
                cells[k].x + cells[k].w <= e.right && cells[k].y + cells[k].h <= e.bottom
      {
        if k < |init| { assert cells[k] == init[k]; }
      }
      if e.left.Finite? && e.left != Finite(d.x) {
        var k :| 0 <= k < |init| && init[k].x == e.left.v;
        assert cells[k] == init[k];
      }
      if e.top.Finite? && e.top != Finite(d.y) {
        var k :| 0 <= k < |init| && init[k].y == e.top.v;
        assert cells[k] == init[k];
      }
      if e.right != 0 && e.right != d.x + d.w {
        var k :| 0 <= k < |init| && init[k].x + init[k].w == e.right;
        assert cells[k] == init[k];
      }
      if e.bottom != 0 && e.bottom != d.y + d.h {
        var k :| 0 <= k < |init| && init[k].y + init[k].h == e.bottom;
        assert cells[k] == init[k];
      }
    }
  }

  /** A rejected contour consumes no id; an accepted one gets the next. */
  lemma AcceptedStep(cs: seq<Contour>, c: Contour)
    ensures Accept(c) ==> Accepted(cs + [c]) == Accepted(cs) + [MakeCell(c, |Accepted(cs)| + 1)]
    ensures !Accept(c) ==> Accepted(cs + [c]) == Accepted(cs)
  {
    assert (cs + [c])[..|cs|] == cs;
  }

  /** Contour `c`, accepted, becomes cell `d` with id `id`. */
  predicate Yields(c: Contour, id: int, d: Detected) {
    Accept(c) && d == MakeCell(c, id)
  }

  /** Every cell comes from an accepted contour. */
  lemma {:induction false} AcceptedFromContours(cs: seq<Contour>)
    ensures forall k | 0 <= k < |Accepted(cs)| :: exists i | 0 <= i < |cs| :: Yields(cs[i], k + 1, Accepted(cs)[k])
    decreases |cs|
  {
    if |cs| > 0 {
      var init := cs[..|cs| - 1];
      AcceptedFromContours(init);
      var last := cs[|cs| - 1];
      assert Accepted(cs) == Accepted(init) + (if Accept(last) then [MakeCell(last, |Accepted(init)| + 1)] else []);
      forall k | 0 <= k < |Accepted(cs)|
        ensures exists i | 0 <= i < |cs| :: Yields(cs[i], k + 1, Accepted(cs)[k])
      {
        if k < |Accepted(init)| {
          var i :| 0 <= i < |init| && Yields(init[i], k + 1, Accepted(init)[k]);
          assert cs[i] == init[i];
          assert Accepted(cs)[k] == Accepted(init)[k];
          assert Yields(cs[i], k + 1, Accepted(cs)[k]);
        } else {
          var i := |cs| - 1;
          assert Yields(cs[i], k + 1, Accepted(cs)[k]);
        }
      }
    } else {
      assert Accepted(cs) == [];
    }
  }

  function BoxIds(bs: seq<Grid.CellBox>): seq<int> {
    seq(|bs|, k requires 0 <= k < |bs| => bs[k].id)
  }

  /** A reordering of cells numbered 1..n only carries ids in 1..n. */
  lemma PermIdsInRange(cells: seq<Detected>, sorted: seq<Detected>)
    requires multiset(sorted) == multiset(cells)
    requires forall k | 0 <= k < |cells| :: cells[k].id == k + 1
    ensures forall k | 0 <= k < |sorted| :: 1 <= sorted[k].id <= |cells|
  {
    forall k | 0 <= k < |sorted| ensures 1 <= sorted[k].id <= |cells| {
      assert sorted[k] in multiset(cells);
      var m :| 0 <= m < |cells| && cells[m] == sorted[k];
    }
  }

  /** A reordering of cells numbered 1..n carries every id in 1..n. */
  lemma PermIdsPresent(cells: seq<Detected>, sorted: seq<Detected>)
    requires multiset(sorted) == multiset(cells)
    requires forall k | 0 <= k < |cells| :: cells[k].id == k + 1
    ensures forall id | 1 <= id <= |cells| :: id in BoxIds(Boxes(sorted))
  {
    forall id | 1 <= id <= |cells| ensures id in BoxIds(Boxes(sorted)) {
      assert cells[id - 1] in multiset(sorted);
      var k :| 0 <= k < |sorted| && sorted[k] == cells[id - 1];
      assert BoxIds(Boxes(sorted))[k] == id;
    }
  }

  /** The cells sorted by any key are the accepted ones: ids 1..n, each
      present. */
  lemma SortedIds(cs: seq<Contour>, key: Detected -> (real, real))
    ensures var sorted := Sort(Accepted(cs), key);
            var n := |Accepted(cs)|;
            |sorted| == n &&
            (forall k | 0 <= k < n :: 1 <= sorted[k].id <= n) &&
            (forall id | 1 <= id <= n :: id in BoxIds(Boxes(sorted)))
  {
    var cells := Accepted(cs);
    SortFacts(cells, key);
    PermIdsInRange(cells, Sort(cells, key));
    PermIdsPresent(cells, Sort(cells, key));
  }

  /** As written, the two output lists are parallel, ordered by centroid x
      with ties by id, and carry exactly the ids 1..n of the n accepted
      contours; the extent is that of the cells. */
  lemma DetectWrittenOrderAndIds(cs: seq<Contour>)
    ensures var r := Detect(cs);
            var n := |Accepted(cs)|;
            |r.coords| == |r.centres| == n &&
            (forall k | 0 <= k < n :: r.coords[k].id == r.centres[k].id) &&
            (forall i, j | 0 <= i < j < n ::
               KeyLe((r.centres[i].cx as real, r.centres[i].id as real), (r.centres[j].cx as real, r.centres[j].id as real))) &&
            (forall k | 0 <= k < n :: 1 <= r.coords[k].id <= n) &&
            (forall id | 1 <= id <= n :: id in BoxIds(r.coords)) &&
            r.extent == ExtentOf(Accepted(cs))
  {
    var sorted := Sort(Accepted(cs), WrittenKey);
    SortFacts(Accepted(cs), WrittenKey);
    SortedIds(cs, WrittenKey);
    var cents := Centroids(sorted);
    forall i, j | 0 <= i < j < |sorted|
      ensures KeyLe((cents[i].cx as real, cents[i].id as real), (cents[j].cx as real, cents[j].id as real))
    {
      assert KeyLe(WrittenKey(sorted[i]), WrittenKey(sorted[j]));
    }
  }

  /** The intended detection: the two output lists are parallel, ordered by
      centroid `(cY, cX)` with ties in acceptance order, and carry exactly the
      ids 1..n of the n accepted contours. */
  lemma DetectOrderAndIds(cs: seq<Contour>)
    ensures var r := DetectIntended(cs);
            var n := |Accepted(cs)|;
            |r.coords| == |r.centres| == n &&
            (forall k | 0 <= k < n :: r.coords[k].id == r.centres[k].id) &&
            (forall i, j | 0 <= i < j < n ::
               KeyLe((r.centres[i].cy as real, r.centres[i].cx as real), (r.centres[j].cy as real, r.centres[j].cx as real))) &&
            (forall k | 0 <= k < n :: 1 <= r.coords[k].id <= n) &&
            (forall id | 1 <= id <= n :: id in BoxIds(r.coords))
  {
    var sorted := Sort(Accepted(cs), CentreKey);
    SortFacts(Accepted(cs), CentreKey);
    SortedIds(cs, CentreKey);
    var cents := Centroids(sorted);
    forall i, j | 0 <= i < j < |sorted|
      ensures KeyLe((cents[i].cy as real, cents[i].cx as real), (cents[j].cy as real, cents[j].cx as real))
    {
      assert KeyLe(CentreKey(sorted[i]), CentreKey(sorted[j]));
    }
  }

  /** Two accepted cells: the first high up on the right, the second lower
      down on the left. */
  function UpperRightFirst(): seq<Detected> {
    [Detected(1, 40, 0, 20, 20, 50, 10), Detected(2, 0, 40, 20, 20, 10, 50)]
  }

  /** As written, the lower-left cell is listed before the upper-right one
      although its centroid lies 40 pixels lower; by centroid `(cY, cX)` the
      upper cell comes first. */
  lemma WrittenKeyReordersRows()
    ensures Sort(UpperRightFirst(), WrittenKey) == [UpperRightFirst()[1], UpperRightFirst()[0]]
    ensures Sort(UpperRightFirst(), CentreKey) == UpperRightFirst()
  {
    var cs := UpperRightFirst();
    assert cs[..1][..0] == [];
    assert Sort(cs[..1], WrittenKey) == [cs[0]];
    assert Sort(cs[..1], CentreKey) == [cs[0]];
    assert cs[..|cs| - 1] == cs[..1];
    assert !KeyLe(WrittenKey(cs[0]), WrittenKey(cs[1]));
    assert Insert(cs[1], [cs[0]], WrittenKey) == Insert(cs[1], [], WrittenKey) + [cs[0]];
    assert KeyLe(CentreKey(cs[0]), CentreKey(cs[1]));
  }

  /** Two square contours that the detection accepts: the first with its
      centroid at (50, 10), the second at (10, 50). */
  function UpperRightFirstContours(): seq<Contour> {
    var square := [Some(90.0), Some(90.0), Some(90.0), Some(90.0)];
    [Contour(4, square, 1.0, 50.0, 10.0, 40, 0, 20, 20), Contour(4, square, 1.0, 10.0, 50.0, 0, 40, 20, 20)]
  }

  /** Each of the two contours is accepted and becomes its cell. */
  lemma UpperRightFirstCells()
    ensures Accept(UpperRightFirstContours()[0]) && Accept(UpperRightFirstContours()[1])
    ensures MakeCell(UpperRightFirstContours()[0], 1) == UpperRightFirst()[0]
    ensures MakeCell(UpperRightFirstContours()[1], 2) == UpperRightFirst()[1]
  {
    assert TruncToInt(50.0 / 1.0) == 50 && TruncToInt(10.0 / 1.0) == 10;
  }

  /** Both contours are accepted, in order, as the two cells above. */
  lemma AcceptedUpperRightFirst()
    ensures Accepted(UpperRightFirstContours()) == UpperRightFirst()
  {
    var cs := UpperRightFirstContours();
    UpperRightFirstCells();
    AcceptedPair(cs[0], cs[1]);
    assert cs == [cs[0], cs[1]];
  }

  /** Two accepted contours become cells 1 and 2, in order. */
  lemma AcceptedPair(c0: Contour, c1: Contour)
    requires Accept(c0) && Accept(c1)
    ensures Accepted([c0, c1]) == [MakeCell(c0, 1), MakeCell(c1, 2)]
  {
    assert [c0][..0] == [];
    assert Accepted([c0]) == [MakeCell(c0, 1)];
    assert [c0, c1][..1] == [c0];
  }

  /** On those two contours the detection as written lists the lower-left
      cell 2 first, where the intended order lists the upper-right cell 1
      first. */
  lemma WrittenDetectionReordersRows()
    ensures Detect(UpperRightFirstContours()).centres == [Centroid(2, 10, 50), Centroid(1, 50, 10)]
    ensures DetectIntended(UpperRightFirstContours()).centres == [Centroid(1, 50, 10), Centroid(2, 10, 50)]
  {
    AcceptedUpperRightFirst();
    WrittenKeyReordersRows();
    var u := UpperRightFirst();
    assert Centroids([u[1], u[0]]) == [Centroid(2, 10, 50), Centroid(1, 50, 10)];
    assert Centroids(u) == [Centroid(1, 50, 10), Centroid(2, 10, 50)];
  }

  // ---------------------------------------------------------------------------
  // `limpiar_imagen`
  // ---------------------------------------------------------------------------

  /** A pixel's three colour channels, each 0..255. */
  datatype Colour = Colour(b: int, g: int, r: int)

  predicate IsByteColour(c: Colour) { 0 <= c.b <= 255 && 0 <= c.g <= 255 && 0 <= c.r <= 255 }

  const White := Colour(255, 255, 255)

  /** `(c * a/255 + 255 * (1 - a/255)).astype(uint8)` on one channel. */
  function Flatten(c: int, a: int): int
    requires 0 <= a <= 255
  {
    TruncToInt(c as real * (a as real / 255.0) + 255.0 * (1.0 - a as real / 255.0))
  }

  /** Compositing over white never darkens a channel and keeps it a byte. */
  lemma FlattenBetween(c: int, a: int)
    requires 0 <= c <= 255 && 0 <= a <= 255
    ensures c <= Flatten(c, a) <= 255
    ensures a == 255 ==> Flatten(c, a) == c
    ensures a == 0 ==> Flatten(c, a) == 255
  {
    var t := a as real / 255.0;
    var x := c as real;
    var v := x * t + 255.0 * (1.0 - t);
    assert 0.0 <= t <= 1.0;
    assert 255.0 * (1.0 - t) == 255.0 - 255.0 * t;
    assert (255.0 - x) * t == 255.0 * t - x * t;
    assert (255.0 - x) * (1.0 - t) == 255.0 - 255.0 * t - x + x * t;
    ProductNonNegative(255.0 - x, 1.0 - t);
    ProductNonNegative(255.0 - x, t);
  }

  lemma ProductNonNegative(p: real, q: real)
    requires 0.0 <= p && 0.0 <= q
    ensures 0.0 <= p * q
  {
  }

  /** The cleaned pixel: white where the colour mask is set, the
      (alpha-flattened) pixel elsewhere. */
  function CleanPixel(p: Colour, mask: int): Colour {
    if mask == 0 then p else White
  }

  method CleanImage(img: array2<Colour>, mask: array2<int>) returns (res: array2<Colour>)
    requires mask.Length0 == img.Length0 && mask.Length1 == img.Length1
    ensures fresh(res) && res.Length0 == img.Length0 && res.Length1 == img.Length1
    ensures forall i, j | 0 <= i < img.Length0 && 0 <= j < img.Length1 :: res[i, j] == CleanPixel(img[i, j], mask[i, j])
  {
    res := new Colour[img.Length0, img.Length1]((i, j) => White);
    for i := 0 to img.Length0
      invariant forall p, q | 0 <= p < i && 0 <= q < img.Length1 :: res[p, q] == CleanPixel(img[p, q], mask[p, q])
      invariant forall p, q | i <= p < img.Length0 && 0 <= q < img.Length1 :: res[p, q] == White
    {
      for j := 0 to img.Length1
        invariant forall p, q | 0 <= p < i && 0 <= q < img.Length1 :: res[p, q] == CleanPixel(img[p, q], mask[p, q])
        invariant forall q | 0 <= q < j :: res[i, q] == CleanPixel(img[i, q], mask[i, q])
        invariant forall p, q | i <= p < img.Length0 && 0 <= q < img.Length1 && (p > i || q >= j) :: res[p, q] == White
      {
        if mask[i, j] == 0 {
          res[i, j] := img[i, j];
        }
      }
    }
  }

  /** Cleaning changes a pixel only where the mask is set, and then to
      white; cleaning again changes nothing; a cleaned pixel of a byte image
      is a byte pixel. */
  lemma CleanPixelRule(p: Colour, mask: int)
    requires IsByteColour(p)
    ensures CleanPixel(p, mask) != p ==> mask != 0 && CleanPixel(p, mask) == White
    ensures CleanPixel(CleanPixel(p, mask), mask) == CleanPixel(p, mask)
    ensures IsByteColour(CleanPixel(p, mask))
  {
  }
}
