/** Region tests used while cutting a page into header, columns, footer and
    exception areas: rectangles in page-image coordinates, rendered pages,
    NumPy's indexing and slicing rules, the all-white test of a region, the
    half-open exception test and the perimeter test. */
module CropRegions {
  import opened Common
  import CellDetection

  type Colour = CellDetection.Colour

  /** A selected area `(left, top, right, bottom)` as the selector reports it. */
  datatype Rect = Rect(left: real, top: real, right: real, bottom: real)

  /** A rendered page: `px(y, x)` is the colour of row `y`, column `x`. */
  datatype Raster = Raster(h: nat, w: nat, px: (int, int) -> Colour)

  // ---------------------------------------------------------------------------
  // NumPy indexing and slicing
  // ---------------------------------------------------------------------------

  /** A single NumPy index into an axis of length `n`: negative indices count
      from the end, and anything outside `-n .. n-1` is an IndexError. */
  function NpIndex(n: nat, i: int): (r: Option<int>)
    ensures r.Some? <==> -(n as int) <= i < n
    ensures r.Some? ==> 0 <= r.value < n && (r.value == i || r.value == i + n)
  {
    if 0 <= i < n then Some(i) else if -(n as int) <= i < 0 then Some(i + n) else None
  }

  /** `image[y, x]` on a rendered page. */
  function NpAt(img: Raster, y: int, x: int): Option<Colour> {
    match (NpIndex(img.h, y), NpIndex(img.w, x))
    case (Some(r), Some(c)) => Some(img.px(r, c))
    case _ => None
  }

  /** One bound of a slice `a[start:stop]` on an axis of length `n`. */
  function SliceBound(n: nat, i: int): (r: nat)
    ensures r <= n
    ensures 0 <= i <= n ==> r == i
  {
    if i < 0 then (if i + n < 0 then 0 else i + n) else if i > n then n else i
  }

  /** The indices a slice `start:stop` selects: `lo .. hi-1`, empty when the
      bounds cross. */
  function Slice(n: nat, start: int, stop: int): (r: (nat, nat))
    ensures r.0 <= r.1 <= n
  {
    var lo := SliceBound(n, start);
    var hi := SliceBound(n, stop);
    (lo, if hi < lo then lo else hi)
  }

  // ---------------------------------------------------------------------------
  // is_region_white
  // ---------------------------------------------------------------------------

  const WhiteThreshold := 250

  predicate AtLeast(c: Colour, threshold: int) {
    c.b >= threshold && c.g >= threshold && c.r >= threshold
  }

  /** Every channel of every pixel in rows `top:bottom` and columns
      `left:right` (coordinates truncated toward zero, NumPy slice rules)
      reaches the threshold; vacuously so for an empty region. */
  predicate RegionWhite(img: Raster, rect: Rect, threshold: int) {
    var rows := Slice(img.h, TruncToInt(rect.top), TruncToInt(rect.bottom));
    var cols := Slice(img.w, TruncToInt(rect.left), TruncToInt(rect.right));
    forall y, x | rows.0 <= y < rows.1 && cols.0 <= x < cols.1 :: AtLeast(img.px(y, x), threshold)
  }

  /** For a rectangle whose truncated corners lie inside the page, the region
      is white exactly when every pixel with `left <= x < right` and
      `top <= y < bottom` is. */
  lemma RegionWhiteInside(img: Raster, rect: Rect, threshold: int)
    requires 0 <= TruncToInt(rect.left) <= TruncToInt(rect.right) <= img.w
    requires 0 <= TruncToInt(rect.top) <= TruncToInt(rect.bottom) <= img.h
    ensures RegionWhite(img, rect, threshold) <==>
      forall y, x | TruncToInt(rect.top) <= y < TruncToInt(rect.bottom) && TruncToInt(rect.left) <= x < TruncToInt(rect.right) ::
        AtLeast(img.px(y, x), threshold)
  {
    assert Slice(img.h, TruncToInt(rect.top), TruncToInt(rect.bottom)) == (TruncToInt(rect.top), TruncToInt(rect.bottom));
    assert Slice(img.w, TruncToInt(rect.left), TruncToInt(rect.right)) == (TruncToInt(rect.left), TruncToInt(rect.right));
  }

  /** A region whose truncated right edge is not past its left edge selects no
      pixel and counts as white. */
  lemma EmptyRegionWhite(img: Raster, rect: Rect, threshold: int)
    requires 0 <= TruncToInt(rect.right) <= TruncToInt(rect.left)
    ensures RegionWhite(img, rect, threshold)
  {
    var cols := Slice(img.w, TruncToInt(rect.left), TruncToInt(rect.right));
    assert cols.0 == cols.1;
  }

  // ---------------------------------------------------------------------------
  // is_pixel_in_exception
  // ---------------------------------------------------------------------------

  /** The pixel lies in the page's exception area, which includes its left and
      top edges but not its right and bottom ones; pages without an exception
      have none. */
  predicate InException(x: int, y: int, page: int, exceptions: map<int, Rect>) {
    page in exceptions
    && exceptions[page].left <= x as real < exceptions[page].right
    && exceptions[page].top <= y as real < exceptions[page].bottom
  }

  lemma InExceptionHalfOpen(x: int, y: int, page: int, exceptions: map<int, Rect>)
    ensures page !in exceptions ==> !InException(x, y, page, exceptions)
    ensures page in exceptions && exceptions[page] == Rect(x as real, y as real, x as real + 1.0, y as real + 1.0) ==>
      InException(x, y, page, exceptions) && !InException(x + 1, y, page, exceptions) && !InException(x, y + 1, page, exceptions)
  {
  }

  // ---------------------------------------------------------------------------
  // check_perimeter
  // ---------------------------------------------------------------------------

  /** `(x, row)` for `x` in `range(lo, hi)`. */
  function RowPoints(lo: int, hi: int, row: int): (r: seq<(int, int)>)
    ensures |r| == if hi <= lo then 0 else hi - lo
    ensures forall k | 0 <= k < |r| :: r[k] == (lo + k, row)
    decreases hi - lo
  {
    if hi <= lo then [] else [(lo, row)] + RowPoints(lo + 1, hi, row)
  }

  /** `(col, y)` for `y` in `range(lo, hi)`. */
  function ColPoints(col: int, lo: int, hi: int): (r: seq<(int, int)>)
    ensures |r| == if hi <= lo then 0 else hi - lo
    ensures forall k | 0 <= k < |r| :: r[k] == (col, lo + k)
    decreases hi - lo
  {
    if hi <= lo then [] else [(col, lo)] + ColPoints(col, lo + 1, hi)
  }

  /** A coordinate as the perimeter test reads it: negatives become 0, the
      rest are truncated. */
  function Clamp(v: real): (r: int)
    ensures r >= 0
  {
    if v >= 0.0 then TruncToInt(v) else 0
  }

  /** The rectangle inset by one pixel on every side. */
  datatype Inset = Inset(l: int, t: int, r: int, b: int)

  function InsetOf(rect: Rect): Inset {
    Inset(Clamp(rect.left) + 1, Clamp(rect.top) + 1, Clamp(rect.right) - 1, Clamp(rect.bottom) - 1)
  }

  /** How a rectangle relates to the special areas: the left header half has
      no right side examined, the right half no left side, and the mobile
      footer only its top row. */
  datatype Role = Role(leftHeader: bool, rightHeader: bool, mobileFooter: bool)

  /** The perimeter pixels `(x, y)` in the order examined: top row, bottom
      row, left column, right column. */
  function PerimeterPoints(rect: Rect, role: Role): seq<(int, int)> {
    var i := InsetOf(rect);
    RowPoints(i.l, i.r, i.t)
    + (if role.mobileFooter then [] else RowPoints(i.l, i.r, i.b + 1))
    + (if role.rightHeader || role.mobileFooter then [] else ColPoints(i.l, i.t, i.b))
    + (if role.leftHeader || role.mobileFooter then [] else ColPoints(i.r, i.t, i.b))
  }

  /** A pixel whose channel mean is not 255. */
  predicate NotWhite(c: Colour) { c.b + c.g + c.r != 3 * 255 }

  /** Scans the points in order: exception pixels are skipped, the first
      other pixel that is not white gives `Some(true)`, an index outside the
      page raises (None), and a scan that finds nothing gives `Some(false)`. */
  function PerimeterScan(img: Raster, pts: seq<(int, int)>, page: int, exceptions: map<int, Rect>): Option<bool>
    decreases |pts|
  {
    if |pts| == 0 then Some(false)
    else
      var (x, y) := pts[0];
      if InException(x, y, page, exceptions) then PerimeterScan(img, pts[1..], page, exceptions)
      else match NpAt(img, y, x)
        case None => None
        case Some(c) => if NotWhite(c) then Some(true) else PerimeterScan(img, pts[1..], page, exceptions)
  }

  /** `check_perimeter`: a skipped page never reports a problem. */
  function Perimeter(img: Raster, rect: Rect, page: int, exceptions: map<int, Rect>, skipped: set<int>, role: Role): Option<bool> {
    if page in skipped then Some(false) else PerimeterScan(img, PerimeterPoints(rect, role), page, exceptions)
  }

  /** Every point is within the page when each coordinate lies in range. */
  predicate AllIndexable(img: Raster, pts: seq<(int, int)>) {
    forall k | 0 <= k < |pts| :: 0 <= pts[k].1 < img.h && 0 <= pts[k].0 < img.w
  }

  /** With every point on the page, the scan reports a problem exactly when
      some point outside the exception area is not white. */
  lemma {:induction false} PerimeterScanIff(img: Raster, pts: seq<(int, int)>, page: int, exceptions: map<int, Rect>)
    requires AllIndexable(img, pts)
    ensures PerimeterScan(img, pts, page, exceptions).Some?
    ensures PerimeterScan(img, pts, page, exceptions) == Some(true) <==>
      exists k | 0 <= k < |pts| :: !InException(pts[k].0, pts[k].1, page, exceptions) && NotWhite(img.px(pts[k].1, pts[k].0))
    decreases |pts|
  {
    if |pts| > 0 {
      assert AllIndexable(img, pts[1..]) by {
        forall k | 0 <= k < |pts[1..]| ensures 0 <= pts[1..][k].1 < img.h && 0 <= pts[1..][k].0 < img.w {
          assert pts[1..][k] == pts[k + 1];
        }
      }
      PerimeterScanIff(img, pts[1..], page, exceptions);
      var (x, y) := pts[0];
      assert NpAt(img, y, x) == Some(img.px(y, x));
      if exists k | 0 <= k < |pts[1..]| :: !InException(pts[1..][k].0, pts[1..][k].1, page, exceptions) && NotWhite(img.px(pts[1..][k].1, pts[1..][k].0)) {
        var k :| 0 <= k < |pts[1..]| && !InException(pts[1..][k].0, pts[1..][k].1, page, exceptions) && NotWhite(img.px(pts[1..][k].1, pts[1..][k].0));
        assert pts[k + 1] == pts[1..][k];
      }
      if exists k | 0 <= k < |pts| :: !InException(pts[k].0, pts[k].1, page, exceptions) && NotWhite(img.px(pts[k].1, pts[k].0)) {
        var k :| 0 <= k < |pts| && !InException(pts[k].0, pts[k].1, page, exceptions) && NotWhite(img.px(pts[k].1, pts[k].0));
        if k > 0 {
          assert pts[1..][k - 1] == pts[k];
        }
      }
    }
  }

  /** Pages whose collision check the user switched off are never flagged. */
  lemma SkippedPageClean(img: Raster, rect: Rect, page: int, exceptions: map<int, Rect>, skipped: set<int>, role: Role)
    requires page in skipped
    ensures Perimeter(img, rect, page, exceptions, skipped, role) == Some(false)
  {
  }

  /** The left header half never examines the column it shares with the right
      half, the right half examines its left column only on the top and bottom
      rows, and the mobile footer examines its top row alone. */
  lemma PerimeterOmitsSharedSides(rect: Rect, role: Role)
    ensures var i := InsetOf(rect); var pts := PerimeterPoints(rect, role);
      && (role.leftHeader ==> forall k | 0 <= k < |pts| && pts[k].0 == i.r :: i.l == i.r)
      && (role.rightHeader ==> forall k | 0 <= k < |pts| && pts[k].0 == i.l && i.l != i.r :: pts[k].1 == i.t || pts[k].1 == i.b + 1)
      && (role.mobileFooter ==> forall k | 0 <= k < |pts| :: pts[k].1 == i.t)
  {
    var i := InsetOf(rect);
    var top := RowPoints(i.l, i.r, i.t);
    var bottom := if role.mobileFooter then [] else RowPoints(i.l, i.r, i.b + 1);
    var left := if role.rightHeader || role.mobileFooter then [] else ColPoints(i.l, i.t, i.b);
    var right := if role.leftHeader || role.mobileFooter then [] else ColPoints(i.r, i.t, i.b);
    var pts := PerimeterPoints(rect, role);
    assert pts == top + bottom + left + right;
    forall k | 0 <= k < |pts|
      ensures pts[k] in top || pts[k] in bottom || pts[k] in left || pts[k] in right
    {
      if k < |top| { assert pts[k] == top[k]; }
      else if k < |top| + |bottom| { assert pts[k] == bottom[k - |top|]; }
      else if k < |top| + |bottom| + |left| { assert pts[k] == left[k - |top| - |bottom|]; }
      else { assert pts[k] == right[k - |top| - |bottom| - |left|]; }
    }
  }
}
