/** Closing a table image before its cells are detected: on each side of the
    image the outer band of 20 rows (top, bottom) or columns (left, right) is
    searched for dark pixels, and a black line is drawn along the side through
    the dark row or column closest to that edge, spanning the dark pixels'
    extent along the side. The image
    is an `array2` of colours that the sides update in place, one after the
    other. */
module TableClosing {
  import opened Common
  import CellDetection

  type Colour = CellDetection.Colour

  /** Rows (top, bottom) or columns (left, right) searched on each side. */
  const BandWidth := 20

  /** A pixel is dark when its HSV value, the largest of the three channels,
      is at most 115; hue and saturation are unconstrained. */
  predicate IsDark(c: Colour) {
    0 <= c.b <= 115 && 0 <= c.g <= 115 && 0 <= c.r <= 115
  }

  const Black := CellDetection.Colour(0, 0, 0)

  datatype Side = Top | Bottom | Left | Right

  /** The axis names the drawing routine understands; any other is ignored. */
  function ParseSide(axis: string): (r: Option<Side>)
    ensures r.Some? <==> axis in ["top", "bottom", "left", "right"]
  {
    if axis == "top" then Some(Top)
    else if axis == "bottom" then Some(Bottom)
    else if axis == "left" then Some(Left)
    else if axis == "right" then Some(Right)
    else None
  }

  predicate Horizontal(side: Side) { side.Top? || side.Bottom? }

  /** Number of image rows or columns perpendicular to the side, for an
      image of `rows` by `cols` pixels. */
  function Extent(rows: nat, cols: nat, side: Side): nat {
    if Horizontal(side) then rows else cols
  }

  /** Length of the side itself. */
  function Along(rows: nat, cols: nat, side: Side): nat {
    if Horizontal(side) then cols else rows
  }

  /** Depth of the band: 20, or the whole image when it is thinner. */
  function Depth(rows: nat, cols: nat, side: Side): (d: nat)
    ensures d <= BandWidth && d <= Extent(rows, cols, side)
    ensures d == BandWidth || d == Extent(rows, cols, side)
  {
    if Extent(rows, cols, side) < BandWidth then Extent(rows, cols, side) else BandWidth
  }

  /** Image row (top, bottom) or column (left, right) of depth `a` in the band. */
  function Coord(rows: nat, cols: nat, side: Side, a: int): int {
    if side.Top? || side.Left? then a else Extent(rows, cols, side) - Depth(rows, cols, side) + a
  }

  /** The image's pixels at one moment, `px[i][j]` at row `i` and column `j`. */
  datatype Picture = Picture(rows: nat, cols: nat, px: seq<seq<Colour>>)

  const White := CellDetection.Colour(255, 255, 255)

  /** The colour at row `i` and column `j`; positions outside the picture are
      never asked for and read as white. */
  function Get(p: Picture, i: int, j: int): Colour {
    if 0 <= i < |p.px| && 0 <= j < |p.px[i]| then p.px[i][j] else White
  }

  /** The picture the image holds now. */
  ghost function Snapshot(img: array2<Colour>): (p: Picture)
    reads img
    ensures p.rows == img.Length0 && p.cols == img.Length1
    ensures forall i, j | 0 <= i < img.Length0 && 0 <= j < img.Length1 :: Get(p, i, j) == img[i, j]
  {
    Picture(img.Length0, img.Length1,
      seq(img.Length0, i requires 0 <= i < img.Length0 reads img =>
        seq(img.Length1, j requires 0 <= j < img.Length1 reads img => img[i, j])))
  }

  /** The pixel at depth `a` into the band and position `b` along the side. */
  function Pixel(p: Picture, side: Side, a: int, b: int): Colour {
    var c := Coord(p.rows, p.cols, side, a);
    if Horizontal(side) then Get(p, c, b) else Get(p, b, c)
  }

  predicate DarkAt(p: Picture, side: Side, a: int, b: int) {
    0 <= a < Depth(p.rows, p.cols, side) && 0 <= b < Along(p.rows, p.cols, side)
    && IsDark(Pixel(p, side, a, b))
  }

  ghost predicate AnyDark(p: Picture, side: Side) {
    exists a, b :: DarkAt(p, side, a, b)
  }

  /** The smallest and largest band depth and position of the dark pixels. */
  datatype Scan = Scan(aMin: int, aMax: int, bMin: int, bMax: int)

  /** `s` holds the extremes of the band's dark pixels: each bound holds for
      every dark pixel and is attained by one. */
  ghost predicate Extremes(p: Picture, side: Side, s: Scan) {
    (forall a, b :: DarkAt(p, side, a, b) ==> s.aMin <= a <= s.aMax && s.bMin <= b <= s.bMax)
    && (exists b :: DarkAt(p, side, s.aMin, b))
    && (exists b :: DarkAt(p, side, s.aMax, b))
    && (exists a :: DarkAt(p, side, a, s.bMin))
    && (exists a :: DarkAt(p, side, a, s.bMax))
  }

  /** The extremes of a band are unique: two scans that both hold them agree. */
  lemma ExtremesUnique(p: Picture, side: Side, s: Scan, t: Scan)
    requires Extremes(p, side, s) && Extremes(p, side, t)
    ensures s == t
  {
    var b1 :| DarkAt(p, side, s.aMin, b1);
    var b2 :| DarkAt(p, side, t.aMin, b2);
    var b3 :| DarkAt(p, side, s.aMax, b3);
    var b4 :| DarkAt(p, side, t.aMax, b4);
    var a1 :| DarkAt(p, side, a1, s.bMin);
    var a2 :| DarkAt(p, side, a2, t.bMin);
    var a3 :| DarkAt(p, side, a3, s.bMax);
    var a4 :| DarkAt(p, side, a4, t.bMax);
  }

  /** Dark pixel `(a, b)` lies inside the bounds of `s`. */
  predicate Within(s: Scan, a: int, b: int) {
    s.aMin <= a <= s.aMax && s.bMin <= b <= s.bMax
  }

  /** Each bound of `s` is attained by the dark pixel its witness names. */
  predicate Attained(p: Picture, side: Side, s: Scan, w: Scan) {
    DarkAt(p, side, s.aMin, w.aMin) && DarkAt(p, side, s.aMax, w.aMax)
    && DarkAt(p, side, w.bMin, s.bMin) && DarkAt(p, side, w.bMax, s.bMax)
  }

  /** Band positions before `(a, b)` in row-by-row reading order. */
  predicate Before(a: int, b: int, a': int, b': int) {
    0 <= a' < a || (a' == a && 0 <= b' < b)
  }

  /** One more dark pixel taken into the bounds: each bound moves only to
      include it, and its witness with it. */
  method Absorb(ghost p: Picture, side: Side, s: Scan, ghost w: Scan, a: int, b: int)
    returns (s': Scan, ghost w': Scan)
    requires Attained(p, side, s, w) && DarkAt(p, side, a, b)
    ensures Attained(p, side, s', w') && Within(s', a, b)
    ensures forall a', b' | Within(s, a', b') :: Within(s', a', b')
  {
    s', w' := s, w;
    if a < s.aMin { s', w' := s'.(aMin := a), w'.(aMin := b); }
    if a > s.aMax { s', w' := s'.(aMax := a), w'.(aMax := b); }
    if b < s.bMin { s', w' := s'.(bMin := b), w'.(bMin := a); }
    if b > s.bMax { s', w' := s'.(bMax := b), w'.(bMax := a); }
  }

  /** What the scan knows once every band position before `(a, b)` is read:
      no dark pixel so far, or bounds holding every dark pixel so far, each
      attained. */
  ghost predicate ScannedTo(p: Picture, side: Side, a: int, b: int, found: bool, s: Scan, w: Scan) {
    (!found ==> forall a', b' | Before(a, b, a', b') :: !DarkAt(p, side, a', b'))
    && (found ==> (forall a', b' | Before(a, b, a', b') && DarkAt(p, side, a', b') :: Within(s, a', b'))
                  && Attained(p, side, s, w))
  }

  /** The image's pixel at depth `a` into the band and position `b` along the
      side, read in place. */
  function ImagePixel(img: array2<Colour>, side: Side, a: int, b: int): (c: Colour)
    requires 0 <= a < Depth(img.Length0, img.Length1, side)
    requires 0 <= b < Along(img.Length0, img.Length1, side)
    reads img
    ensures c == Pixel(Snapshot(img), side, a, b)
  {
    var c := Coord(img.Length0, img.Length1, side, a);
    if Horizontal(side) then img[c, b] else img[b, c]
  }

  /** A position that is not dark leaves what the scan knows unchanged. */
  lemma ScannedPastLight(p: Picture, side: Side, a: int, b: int, found: bool, s: Scan, w: Scan)
    requires ScannedTo(p, side, a, b, found, s, w) && !DarkAt(p, side, a, b)
    ensures ScannedTo(p, side, a, b + 1, found, s, w)
  {
  }

  /** The first dark position starts the bounds at itself. */
  lemma ScannedFirstDark(p: Picture, side: Side, a: int, b: int, s: Scan, w: Scan)
    requires ScannedTo(p, side, a, b, false, s, w) && DarkAt(p, side, a, b)
    ensures ScannedTo(p, side, a, b + 1, true, Scan(a, a, b, b), Scan(b, b, a, a))
  {
  }

  /** A later dark position is taken into bounds that grow to hold it. */
  lemma ScannedMoreDark(p: Picture, side: Side, a: int, b: int, s: Scan, w: Scan, s': Scan, w': Scan)
    requires ScannedTo(p, side, a, b, true, s, w)
    requires Attained(p, side, s', w') && Within(s', a, b)
    requires forall a', b' | Within(s, a', b') :: Within(s', a', b')
    ensures ScannedTo(p, side, a, b + 1, true, s', w')
  {
  }

  /** One band position read: a dark pixel starts the bounds or is taken
      into them. */
  method ScanPixel(img: array2<Colour>, side: Side, a: int, b: int, found: bool, s: Scan, ghost w: Scan)
    returns (found': bool, s': Scan, ghost w': Scan)
    requires 0 <= a < Depth(img.Length0, img.Length1, side)
    requires 0 <= b < Along(img.Length0, img.Length1, side)
    requires ScannedTo(Snapshot(img), side, a, b, found, s, w)
    ensures ScannedTo(Snapshot(img), side, a, b + 1, found', s', w')
  {
    ghost var p := Snapshot(img);
    found', s', w' := found, s, w;
    if IsDark(ImagePixel(img, side, a, b)) {
      assert DarkAt(p, side, a, b);
      if !found' {
        found' := true;
        s', w' := Scan(a, a, b, b), Scan(b, b, a, a);
        ScannedFirstDark(p, side, a, b, s, w);
      } else {
        s', w' := Absorb(p, side, s', w', a, b);
        ScannedMoreDark(p, side, a, b, s, w, s', w');
      }
    } else {
      assert !DarkAt(p, side, a, b);
      ScannedPastLight(p, side, a, b, found, s, w);
    }
  }

  /** The inner loop: one band row (or column) read, position by position. */
  method ScanRow(img: array2<Colour>, side: Side, a: int, found: bool, s: Scan, ghost w: Scan)
    returns (found': bool, s': Scan, ghost w': Scan)
    requires 0 <= a < Depth(img.Length0, img.Length1, side)
    requires ScannedTo(Snapshot(img), side, a, 0, found, s, w)
    ensures ScannedTo(Snapshot(img), side, a + 1, 0, found', s', w')
  {
    found', s', w' := found, s, w;
    for b := 0 to Along(img.Length0, img.Length1, side)
      invariant ScannedTo(Snapshot(img), side, a, b, found', s', w')
    {
      found', s', w' := ScanPixel(img, side, a, b, found', s', w');
    }
  }

  /** Reads the band of one side, as the dark-pixel mask and its index
      minimum and maximum do; nothing is found in a band without dark pixels. */
  method ScanBand(img: array2<Colour>, side: Side) returns (s: Option<Scan>)
    ensures s.None? <==> !AnyDark(Snapshot(img), side)
    ensures s.Some? ==> Extremes(Snapshot(img), side, s.value)
  {
    var found := false;
    var sc := Scan(0, 0, 0, 0);
    ghost var w := Scan(0, 0, 0, 0);
    for a := 0 to Depth(img.Length0, img.Length1, side)
      invariant ScannedTo(Snapshot(img), side, a, 0, found, sc, w)
    {
      found, sc, w := ScanRow(img, side, a, found, sc, w);
    }
    ScannedWhole(Snapshot(img), side, found, sc, w);
    if found {
      s := Some(sc);
    } else {
      s := None;
    }
  }

  /** Once the whole band is read, the scan has found a dark pixel exactly
      when there is one, and its bounds are their extremes. */
  lemma ScannedWhole(p: Picture, side: Side, found: bool, s: Scan, w: Scan)
    requires ScannedTo(p, side, Depth(p.rows, p.cols, side), 0, found, s, w)
    ensures found <==> AnyDark(p, side)
    ensures found ==> Extremes(p, side, s)
  {
    if found {
      assert DarkAt(p, side, s.aMin, w.aMin);
    }
  }

  /** An axis-parallel line: along row `at` from column `lo` to `hi` when
      horizontal, along column `at` from row `lo` to `hi` otherwise. */
  datatype Line = Line(horizontal: bool, at: int, lo: int, hi: int)

  predicate OnLine(l: Line, row: int, col: int) {
    if l.horizontal then row == l.at && l.lo <= col <= l.hi
    else col == l.at && l.lo <= row <= l.hi
  }

  /** The far-side position as the source computes it, `extent - (20 - aMax)`,
      which assumes the band is 20 deep. */
  function AsWrittenFarCoord(extent: int, aMax: int): int {
    extent - (BandWidth - aMax)
  }

  /** The line drawn for a side, as the code places it: at the smallest dark
      band depth for the top and left sides, at `extent - (20 - aMax)` for the
      bottom and right sides, spanning the dark pixels' extent along the side. */
  function EdgeLine(rows: nat, cols: nat, side: Side, s: Scan): Line {
    Line(Horizontal(side),
         if side.Top? || side.Left? then s.aMin else AsWrittenFarCoord(Extent(rows, cols, side), s.aMax),
         s.bMin, s.bMax)
  }

  /** The line the drawing evidently intends: through the image row or column
      of the nearest dark band depth to the edge on every side. */
  function IntendedEdgeLine(rows: nat, cols: nat, side: Side, s: Scan): Line {
    Line(Horizontal(side),
         if side.Top? || side.Left? then Coord(rows, cols, side, s.aMin) else Coord(rows, cols, side, s.aMax),
         s.bMin, s.bMax)
  }

  /** The line as written sits `20 - depth` rows or columns nearer the start
      of the image than the intended one on the bottom and right sides, and
      nowhere else differs; so the two agree on images at least 20 deep. */
  lemma EdgeLineShift(rows: nat, cols: nat, side: Side, s: Scan)
    ensures var shortfall := if side.Top? || side.Left? then 0 else BandWidth - Depth(rows, cols, side);
      EdgeLine(rows, cols, side, s)
        == IntendedEdgeLine(rows, cols, side, s).(at := IntendedEdgeLine(rows, cols, side, s).at - shortfall)
    ensures Extent(rows, cols, side) >= BandWidth ==> EdgeLine(rows, cols, side, s) == IntendedEdgeLine(rows, cols, side, s)
  {
  }

  /** A 10-row image whose bottom band (all ten rows) has its lowest dark pixel
      in row 9: the line as written is at row -1, outside the image, so it
      paints nothing, while the intended line is at row 9. */
  lemma AsWrittenFarCoordEscapes(cols: nat, s: Scan)
    requires s.aMax == 9
    ensures Depth(10, cols, Bottom) == 10
    ensures IntendedEdgeLine(10, cols, Bottom, s).at == 9
    ensures EdgeLine(10, cols, Bottom, s).at == -1
    ensures forall i, j | 0 <= i < 10 :: !OnLine(EdgeLine(10, cols, Bottom, s), i, j)
  {
  }

  /** The intended line lies in the image, inside the side's band, crosses a
      dark pixel at its own row or column, and spans from the first to the last
      dark position along the side. */
  lemma EdgeLinePlacement(p: Picture, side: Side, s: Scan)
    requires Extremes(p, side, s)
    ensures var l := IntendedEdgeLine(p.rows, p.cols, side, s);
      && l.horizontal == Horizontal(side)
      && 0 <= l.lo <= l.hi < Along(p.rows, p.cols, side)
      && (side.Top? || side.Left? ==> 0 <= l.at < Depth(p.rows, p.cols, side))
      && (side.Bottom? || side.Right? ==>
            Extent(p.rows, p.cols, side) - Depth(p.rows, p.cols, side) <= l.at < Extent(p.rows, p.cols, side))
      && exists a, b :: DarkAt(p, side, a, b) && Coord(p.rows, p.cols, side, a) == l.at
  {
    var b1 :| DarkAt(p, side, s.aMin, b1);
    var b2 :| DarkAt(p, side, s.aMax, b2);
    assert s.aMin <= s.aMax;
    var l := IntendedEdgeLine(p.rows, p.cols, side, s);
    if side.Top? || side.Left? {
      assert DarkAt(p, side, s.aMin, b1) && Coord(p.rows, p.cols, side, s.aMin) == l.at;
    } else {
      assert DarkAt(p, side, s.aMax, b2) && Coord(p.rows, p.cols, side, s.aMax) == l.at;
    }
  }

  /** Paints the line black, leaving every other pixel as it was; parts of the
      line outside the image are clipped. */
  method DrawLine(img: array2<Colour>, l: Line)
    modifies img
    ensures forall i, j | 0 <= i < img.Length0 && 0 <= j < img.Length1 ::
      img[i, j] == if OnLine(l, i, j) then Black else old(img[i, j])
  {
    for i := 0 to img.Length0
      invariant forall p, q | 0 <= p < img.Length0 && 0 <= q < img.Length1 ::
        img[p, q] == if p < i && OnLine(l, p, q) then Black else old(img[p, q])
    {
      for j := 0 to img.Length1
        invariant forall p, q | 0 <= p < img.Length0 && 0 <= q < img.Length1 ::
          img[p, q] == if (p < i || (p == i && q < j)) && OnLine(l, p, q) then Black else old(img[p, q])
      {
        if OnLine(l, i, j) {
          img[i, j] := Black;
        }
      }
    }
  }

  /** Pixel `(i, j)` lies on a line that was drawn. */
  predicate Drawn(l: Option<Line>, i: int, j: int) {
    l.Some? && OnLine(l.value, i, j)
  }

  /** `q` is `p` with the drawn line, if any, painted black. */
  ghost predicate PaintedFrom(p: Picture, l: Option<Line>, q: Picture) {
    q.rows == p.rows && q.cols == p.cols
    && forall i, j | 0 <= i < p.rows && 0 <= j < p.cols ::
         Get(q, i, j) == if Drawn(l, i, j) then Black else Get(p, i, j)
  }

  /** What one side draws on picture `p`: nothing exactly when its band has no
      dark pixel, otherwise the as-written line through the band's extremes. */
  ghost predicate SideResult(p: Picture, side: Side, l: Option<Line>) {
    (l.None? <==> !AnyDark(p, side))
    && (l.Some? ==> exists s :: Extremes(p, side, s) && l.value == EdgeLine(p.rows, p.cols, side, s))
  }

  /** What a side draws is determined by the picture it is drawn on. */
  lemma SideResultUnique(p: Picture, side: Side, l: Option<Line>, m: Option<Line>)
    requires SideResult(p, side, l) && SideResult(p, side, m)
    ensures l == m
  {
    if l.Some? {
      var s :| Extremes(p, side, s) && l.value == EdgeLine(p.rows, p.cols, side, s);
      var t :| Extremes(p, side, t) && m.value == EdgeLine(p.rows, p.cols, side, t);
      ExtremesUnique(p, side, s, t);
    }
  }

  /** One side: nothing happens for an unknown axis name or a band without a
      dark pixel; otherwise the side's line is drawn and returned. */
  method DetectDarkEdge(img: array2<Colour>, axis: string) returns (drawn: Option<Line>)
    modifies img
    ensures ParseSide(axis).None? ==> drawn.None?
    ensures ParseSide(axis).Some? ==> SideResult(old(Snapshot(img)), ParseSide(axis).value, drawn)
    ensures PaintedFrom(old(Snapshot(img)), drawn, Snapshot(img))
  {
    ghost var before := Snapshot(img);
    var side := ParseSide(axis);
    if side.None? {
      return None;
    }
    var s := ScanBand(img, side.value);
    if s.None? {
      return None;
    }
    var l := EdgeLine(img.Length0, img.Length1, side.value, s.value);
    assert Extremes(before, side.value, s.value);
    DrawLine(img, l);
    drawn := Some(l);
  }

  /** The sides in the order the table is closed. */
  const SideOrder: seq<Side> := [Top, Bottom, Left, Right]

  /** Side `k` drew `lines[k]` on the picture the earlier sides left, giving
      the next picture. */
  ghost predicate SideStep(stages: seq<Picture>, lines: seq<Option<Line>>, k: int)
    requires 0 <= k < 4 && |stages| == 5 && |lines| == 4
  {
    SideResult(stages[k], SideOrder[k], lines[k]) && PaintedFrom(stages[k], lines[k], stages[k + 1])
  }

  /** The four sides in the order top, bottom, left, right, each acting on the
      image the previous ones left; `stages` are the pictures before the first
      side, between sides and after the last. */
  method CloseTable(img: array2<Colour>) returns (lines: seq<Option<Line>>, ghost stages: seq<Picture>)
    modifies img
    ensures |lines| == 4 && |stages| == 5
    ensures stages[0] == old(Snapshot(img)) && stages[4] == Snapshot(img)
    ensures forall k | 0 <= k < 4 :: SideStep(stages, lines, k)
  {
    ghost var p0 := Snapshot(img);
    var top := DetectDarkEdge(img, "top");
    ghost var p1 := Snapshot(img);
    var bottom := DetectDarkEdge(img, "bottom");
    ghost var p2 := Snapshot(img);
    var left := DetectDarkEdge(img, "left");
    ghost var p3 := Snapshot(img);
    var right := DetectDarkEdge(img, "right");
    lines := [top, bottom, left, right];
    stages := [p0, p1, p2, p3, Snapshot(img)];
    assert SideStep(stages, lines, 0);
    assert SideStep(stages, lines, 1);
    assert SideStep(stages, lines, 2);
    assert SideStep(stages, lines, 3);
  }

  /** After the four sides, a pixel is black if it lies on any drawn line and
      otherwise keeps its first colour. */
  lemma ClosedPicture(stages: seq<Picture>, lines: seq<Option<Line>>, i: int, j: int)
    requires |lines| == 4 && |stages| == 5
    requires forall k | 0 <= k < 4 :: SideStep(stages, lines, k)
    requires 0 <= i < stages[0].rows && 0 <= j < stages[0].cols
    ensures stages[4].rows == stages[0].rows && stages[4].cols == stages[0].cols
    ensures Get(stages[4], i, j)
      == if Drawn(lines[0], i, j) || Drawn(lines[1], i, j) || Drawn(lines[2], i, j) || Drawn(lines[3], i, j)
         then Black else Get(stages[0], i, j)
  {
    assert SideStep(stages, lines, 0);
    assert SideStep(stages, lines, 1);
    assert SideStep(stages, lines, 2);
    assert SideStep(stages, lines, 3);
  }
}
