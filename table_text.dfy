/** Putting the page's text back into a detected table: the cells found in
    the cropped table image are mapped to page coordinates, each text
    fragment goes to the first cell whose box holds its centre, and the
    fragments of a cell are ordered top to bottom, left to right and joined
    into the cell's content. Also the filter that discards a table lying
    inside another one. */
module TableText {
  import opened Common
  import opened StableSort
  import Grid
  import TableStructure

  // ---------------------------------------------------------------------------
  // `convertir_coordenadas_imagen_a_pdf`
  // ---------------------------------------------------------------------------

  /** A rectangle given by its edges, as pdfplumber's `bbox`. */
  datatype BBox = BBox(x0: real, top: real, x1: real, bottom: real)

  /** A cell in page coordinates. */
  datatype PdfBox = PdfBox(id: int, x: real, y: real, w: real, h: real)

  datatype Margins = Margins(left: real, top: real, right: real, bottom: real)

  /** The default margins, which are also those the table image was cropped with. */
  const CropMargins := Margins(3.0, 4.0, 6.0, 4.0)

  /** The page area the crop covered: the table area grown by the margins. */
  function EffectiveRect(area: BBox, m: Margins): BBox {
    BBox(area.x0 - m.left, area.top - m.top, area.x1 + m.right, area.bottom + m.bottom)
  }

  function ToPdf(c: Grid.CellBox, r: BBox, sx: real, sy: real): PdfBox {
    PdfBox(c.id, r.x0 + c.x as real * sx, r.top + c.y as real * sy, c.w as real * sx, c.h as real * sy)
  }

  function MapCells(cells: seq<Grid.CellBox>, r: BBox, sx: real, sy: real): (out: seq<PdfBox>)
    ensures |out| == |cells|
    ensures forall k | 0 <= k < |cells| :: out[k].id == cells[k].id
    decreases |cells|
  {
    if |cells| == 0 then [] else MapCells(cells[..|cells| - 1], r, sx, sy) + [ToPdf(cells[|cells| - 1], r, sx, sy)]
  }

  /** The converted cells and the effective rectangle; None is the
      ZeroDivisionError of an image with no width or no height. */
  function Converted(cells: seq<Grid.CellBox>, area: BBox, width: int, height: int, m: Margins): Option<(seq<PdfBox>, BBox)> {
    if width == 0 || height == 0 then None
    else
      var r := EffectiveRect(area, m);
      Some((MapCells(cells, r, (r.x1 - r.x0) / width as real, (r.bottom - r.top) / height as real), r))
  }

  method ConvertCoordinates(cells: seq<Grid.CellBox>, area: BBox, width: int, height: int, m: Margins)
    returns (r: Option<(seq<PdfBox>, BBox)>)
    ensures r == Converted(cells, area, width, height, m)
  {
    if width == 0 || height == 0 {
      return None;
    }
    var left, top := area.x0 - m.left, area.top - m.top;
    var right, bottom := area.x1 + m.right, area.bottom + m.bottom;
    var sx := (right - left) / width as real;
    var sy := (bottom - top) / height as real;
    var rect := BBox(left, top, right, bottom);
    assert rect == EffectiveRect(area, m);
    var adjusted: seq<PdfBox> := [];
    for k := 0 to |cells|
      invariant adjusted == MapCells(cells[..k], rect, sx, sy)
    {
      assert cells[..k + 1][..k] == cells[..k];
      var c := cells[k];
      var b := PdfBox(c.id, left + c.x as real * sx, top + c.y as real * sy, c.w as real * sx, c.h as real * sy);
      assert b == ToPdf(c, rect, sx, sy);
      adjusted := adjusted + [b];
    }
    assert cells[..|cells|] == cells;
    r := Some((adjusted, rect));
  }

  /** The inverse map, from page back to image coordinates. */
  function ToImage(b: PdfBox, r: BBox, sx: real, sy: real): (real, real, real, real)
    requires sx != 0.0 && sy != 0.0
  {
    ((b.x - r.x0) / sx, (b.y - r.top) / sy, b.w / sx, b.h / sy)
  }

  /** Each converted cell keeps its id and place in the list, and maps back
      onto its image box whenever the effective rectangle is not degenerate. */
  lemma ConvertedInverse(cells: seq<Grid.CellBox>, area: BBox, width: int, height: int, m: Margins)
    requires width != 0 && height != 0
    ensures var r := EffectiveRect(area, m);
            var sx := (r.x1 - r.x0) / width as real;
            var sy := (r.bottom - r.top) / height as real;
            var out := Converted(cells, area, width, height, m).value.0;
            |out| == |cells| && Converted(cells, area, width, height, m).value.1 == r &&
            (sx != 0.0 && sy != 0.0 ==>
               forall k | 0 <= k < |cells| ::
                 out[k].id == cells[k].id &&
                 ToImage(out[k], r, sx, sy) == (cells[k].x as real, cells[k].y as real, cells[k].w as real, cells[k].h as real))
  {
    var r := EffectiveRect(area, m);
    var sx := (r.x1 - r.x0) / width as real;
    var sy := (r.bottom - r.top) / height as real;
    var out := MapCells(cells, r, sx, sy);
    if sx != 0.0 && sy != 0.0 {
      forall k | 0 <= k < |cells|
        ensures ToImage(out[k], r, sx, sy) == (cells[k].x as real, cells[k].y as real, cells[k].w as real, cells[k].h as real)
      {
        MapCellsAt(cells, r, sx, sy, k);
        var b := out[k];
        assert b.x == r.x0 + cells[k].x as real * sx && b.y == r.top + cells[k].y as real * sy;
        assert b.w == cells[k].w as real * sx && b.h == cells[k].h as real * sy;
        ScaleBack(cells[k].x as real, r.x0, sx);
        ScaleBack(cells[k].y as real, r.top, sy);
        ScaleBack(cells[k].w as real, 0.0, sx);
        ScaleBack(cells[k].h as real, 0.0, sy);
        assert (b.x - r.x0) / sx == cells[k].x as real;
        assert (b.y - r.top) / sy == cells[k].y as real;
        assert b.w / sx == cells[k].w as real;
        assert b.h / sy == cells[k].h as real;
      }
    }
  }

  lemma ScaleBack(a: real, base: real, s: real)
    requires s != 0.0
    ensures ((base + a * s) - base) / s == a
    ensures (a * s) / s == a
  {
    assert (base + a * s) - base == a * s;
  }

  lemma {:induction false} MapCellsAt(cells: seq<Grid.CellBox>, r: BBox, sx: real, sy: real, k: nat)
    requires k < |cells|
    ensures MapCells(cells, r, sx, sy)[k] == ToPdf(cells[k], r, sx, sy)
    decreases |cells|
  {
    if k < |cells| - 1 {
      MapCellsAt(cells[..|cells| - 1], r, sx, sy, k);
    }
  }

  /** The whole image maps exactly onto the effective rectangle. */
  lemma WholeImageMapsOntoRect(id: int, area: BBox, width: nat, height: nat, m: Margins)
    requires width > 0 && height > 0
    ensures var r := EffectiveRect(area, m);
            var b := Converted([Grid.CellBox(id, 0, 0, width, height)], area, width, height, m).value.0[0];
            b.x == r.x0 && b.y == r.top && b.x + b.w == r.x1 && b.y + b.h == r.bottom
  {
    var r := EffectiveRect(area, m);
    MapCellsAt([Grid.CellBox(id, 0, 0, width, height)], r, (r.x1 - r.x0) / width as real, (r.bottom - r.top) / height as real, 0);
  }

  /** A cell inside the image lands inside the effective rectangle. */
  lemma InsideImageMapsInsideRect(c: Grid.CellBox, area: BBox, width: nat, height: nat, m: Margins)
    requires width > 0 && height > 0
    requires 0 <= c.x && 0 <= c.w && c.x + c.w <= width && 0 <= c.y && 0 <= c.h && c.y + c.h <= height
    requires EffectiveRect(area, m).x0 <= EffectiveRect(area, m).x1
    requires EffectiveRect(area, m).top <= EffectiveRect(area, m).bottom
    ensures var r := EffectiveRect(area, m);
            var b := Converted([c], area, width, height, m).value.0[0];
            r.x0 <= b.x && b.x + b.w <= r.x1 && r.top <= b.y && b.y + b.h <= r.bottom
  {
    var r := EffectiveRect(area, m);
    var sx := (r.x1 - r.x0) / width as real;
    var sy := (r.bottom - r.top) / height as real;
    MapCellsAt([c], r, sx, sy, 0);
    AxisInside(c.x as real, c.w as real, width as real, r.x0, r.x1);
    AxisInside(c.y as real, c.h as real, height as real, r.top, r.bottom);
  }

  /** Along one axis, a span inside the image lands inside `[lo, hi]`. */
  lemma AxisInside(x: real, w: real, size: real, lo: real, hi: real)
    requires 0.0 <= x && 0.0 <= w && x + w <= size && 0.0 < size && lo <= hi
    ensures var s := (hi - lo) / size;
      lo <= lo + x * s && lo + x * s + w * s <= hi
  {
    var s := (hi - lo) / size;
    assert s * size == hi - lo;
    assert 0.0 <= s;
    assert (x + w) * s <= size * s;
  }

  // ---------------------------------------------------------------------------
  // `asignar_texto_a_estructura` and `asignar_texto_a_estructura_new`
  // ---------------------------------------------------------------------------

  /** A text fragment with the point that places it. */
  datatype Placed = Placed(y: real, x: real, text: string)

  /** A word as pdfplumber reports it. */
  datatype Word = Word(text: string, x0: real, x1: real, top: real, bottom: real)

  function Centre(w: Word): Placed {
    Placed((w.top + w.bottom) / 2.0, (w.x0 + w.x1) / 2.0, w.text)
  }

  function Centres(ws: seq<Word>): seq<Placed> {
    seq(|ws|, k requires 0 <= k < |ws| => Centre(ws[k]))
  }

  /** The sort key: `(y, x)`. */
  function YX(p: Placed): (real, real) { (p.y, p.x) }

  /** Words whose `y` differ by at most this much share a line. */
  const LineTolerance: real := 5.0

  predicate Encloses(b: PdfBox, x: real, y: real) {
    b.x <= x <= b.x + b.w && b.y <= y <= b.y + b.h
  }

  /** The id of the first cell, in list order, whose closed box holds the point. */
  function Owner(boxes: seq<PdfBox>, p: Placed): Option<int>
    decreases |boxes|
  {
    if |boxes| == 0 then None
    else if Encloses(boxes[0], p.x, p.y) then Some(boxes[0].id)
    else Owner(boxes[1..], p)
  }

  lemma {:induction false} OwnerFirst(boxes: seq<PdfBox>, p: Placed)
    ensures Owner(boxes, p).None? <==> forall k | 0 <= k < |boxes| :: !Encloses(boxes[k], p.x, p.y)
    ensures Owner(boxes, p).Some? ==>
              exists k | 0 <= k < |boxes| ::
                Encloses(boxes[k], p.x, p.y) && boxes[k].id == Owner(boxes, p).value &&
                forall l | 0 <= l < k :: !Encloses(boxes[l], p.x, p.y)
    decreases |boxes|
  {
    if |boxes| > 0 && !Encloses(boxes[0], p.x, p.y) {
      OwnerFirst(boxes[1..], p);
      if Owner(boxes, p).Some? {
        var k :| 0 <= k < |boxes[1..]| && Encloses(boxes[1..][k], p.x, p.y) && boxes[1..][k].id == Owner(boxes, p).value &&
                 forall l | 0 <= l < k :: !Encloses(boxes[1..][l], p.x, p.y);
        assert forall l | 0 <= l < k + 1 :: !Encloses(boxes[l], p.x, p.y) by {
          forall l | 0 <= l < k + 1 ensures !Encloses(boxes[l], p.x, p.y) {
            if l > 0 { assert boxes[l] == boxes[1..][l - 1]; }
          }
        }
        assert boxes[k + 1] == boxes[1..][k];
      } else {
        forall k | 0 <= k < |boxes| ensures !Encloses(boxes[k], p.x, p.y) {
          if k > 0 { assert boxes[k] == boxes[1..][k - 1]; }
        }
      }
    }
  }

  function Ids(boxes: seq<PdfBox>): set<int> {
    set k | 0 <= k < |boxes| :: boxes[k].id
  }

  lemma {:induction false} OwnerIsId(boxes: seq<PdfBox>, p: Placed)
    requires Owner(boxes, p).Some?
    ensures Owner(boxes, p).value in Ids(boxes)
  {
    OwnerFirst(boxes, p);
  }

  /** The fragments that go to cell `id`, in their original order. */
  function Bucket(boxes: seq<PdfBox>, ps: seq<Placed>, id: int): seq<Placed>
    decreases |ps|
  {
    if |ps| == 0 then []
    else Bucket(boxes, ps[..|ps| - 1], id) + (if Owner(boxes, ps[|ps| - 1]) == Some(id) then [ps[|ps| - 1]] else [])
  }

  /** The dict's keys in insertion order: the cell ids in order of first appearance. */
  function KeyOrder(boxes: seq<PdfBox>): (keys: seq<int>)
    ensures forall j | 0 <= j < |keys| :: keys[j] in Ids(boxes)
    ensures forall k | 0 <= k < |boxes| :: boxes[k].id in keys
    ensures forall i, j | 0 <= i < j < |keys| :: keys[i] != keys[j]
    decreases |boxes|
  {
    if |boxes| == 0 then []
    else
      var init := KeyOrder(boxes[..|boxes| - 1]);
      assert forall j | 0 <= j < |init| :: init[j] in Ids(boxes) by {
        forall j | 0 <= j < |init| ensures init[j] in Ids(boxes) {
          var k :| 0 <= k < |boxes| - 1 && boxes[..|boxes| - 1][k].id == init[j];
          assert boxes[k].id == init[j];
        }
      }
      assert forall k | 0 <= k < |boxes| - 1 :: boxes[k].id in init by {
        forall k | 0 <= k < |boxes| - 1 ensures boxes[k].id in init {
          assert boxes[..|boxes| - 1][k] == boxes[k];
        }
      }
      if boxes[|boxes| - 1].id in init then init else init + [boxes[|boxes| - 1].id]
  }

  /** The inner loop: the first cell holding the point. */
  method FindOwner(boxes: seq<PdfBox>, p: Placed) returns (r: Option<int>)
    ensures r == Owner(boxes, p)
  {
    var j := 0;
    while j < |boxes|
      invariant j <= |boxes| && Owner(boxes[j..], p) == Owner(boxes, p)
    {
      if Encloses(boxes[j], p.x, p.y) {
        return Some(boxes[j].id);
      }
      assert boxes[j..][1..] == boxes[j + 1..];
      j := j + 1;
    }
    return None;
  }

  method CollectFragments(boxes: seq<PdfBox>, ps: seq<Placed>) returns (buckets: map<int, seq<Placed>>)
    ensures forall id :: id in buckets <==> id in Ids(boxes)
    ensures forall id | id in buckets :: buckets[id] == Bucket(boxes, ps, id)
  {
    buckets := map id | id in Ids(boxes) :: [];
    for i := 0 to |ps|
      invariant buckets.Keys == Ids(boxes)
      invariant forall id | id in buckets :: buckets[id] == Bucket(boxes, ps[..i], id)
    {
      assert ps[..i + 1][..i] == ps[..i];
      var owner := FindOwner(boxes, ps[i]);
      if owner.Some? {
        OwnerIsId(boxes, ps[i]);
        buckets := buckets[owner.value := buckets[owner.value] + [ps[i]]];
      }
    }
    assert ps[..|ps|] == ps;
  }

  /** A fragment goes to the bucket of its owner and to no other. */
  lemma FragmentGoesToOwner(boxes: seq<PdfBox>, ps: seq<Placed>, p: Placed, id: int)
    ensures Bucket(boxes, ps + [p], id) == Bucket(boxes, ps, id) + (if Owner(boxes, p) == Some(id) then [p] else [])
  {
    assert (ps + [p])[..|ps|] == ps;
  }

  // Joining a cell's fragments

  function Texts(ps: seq<Placed>): seq<string> {
    seq(|ps|, k requires 0 <= k < |ps| => ps[k].text)
  }

  /** The reading lines of `ps`: a fragment starts a new line when its `y`
      differs from that of the fragment before it by more than the tolerance. */
  function Lines(ps: seq<Placed>): seq<seq<Placed>>
    decreases |ps|
  {
    if |ps| == 0 then [] else AddToLines(Lines(ps[..|ps| - 1]), ps[|ps| - 1])
  }

  /** `e` joins the last line when close enough to its last fragment, and
      starts a new line otherwise. */
  function AddToLines(g: seq<seq<Placed>>, e: Placed): seq<seq<Placed>> {
    if |g| > 0 && |g[|g| - 1]| > 0 && Abs(e.y - g[|g| - 1][|g[|g| - 1]| - 1].y) <= LineTolerance
    then g[..|g| - 1] + [g[|g| - 1] + [e]]
    else g + [[e]]
  }

  function Flatten(gs: seq<seq<Placed>>): seq<Placed>
    decreases |gs|
  {
    if |gs| == 0 then [] else Flatten(gs[..|gs| - 1]) + gs[|gs| - 1]
  }

  /** Consecutive fragments of a line are within the tolerance of each other. */
  predicate Tight(g: seq<Placed>) {
    forall k | 0 < k < |g| :: Abs(g[k].y - g[k - 1].y) <= LineTolerance
  }

  /** The first fragment of `b` is further than the tolerance from the last of `a`. */
  predicate Apart(a: seq<Placed>, b: seq<Placed>) {
    |a| > 0 && |b| > 0 && Abs(b[0].y - a[|a| - 1].y) > LineTolerance
  }

  predicate LinesOf(gs: seq<seq<Placed>>, ps: seq<Placed>) {
    Flatten(gs) == ps &&
    (forall i | 0 <= i < |gs| :: |gs[i]| > 0 && Tight(gs[i])) &&
    (forall i | 0 < i < |gs| :: Apart(gs[i - 1], gs[i]))
  }

  lemma FlattenSnoc(gs: seq<seq<Placed>>, x: seq<Placed>)
    ensures Flatten(gs + [x]) == Flatten(gs) + x
  {
    assert (gs + [x])[..|gs|] == gs;
  }

  /** A fragment close enough to the last one joins the last line. */
  lemma LinesExtend(g: seq<seq<Placed>>, ps: seq<Placed>, e: Placed)
    requires LinesOf(g, ps) && |g| > 0
    requires Abs(e.y - g[|g| - 1][|g[|g| - 1]| - 1].y) <= LineTolerance
    ensures LinesOf(g[..|g| - 1] + [g[|g| - 1] + [e]], ps + [e])
  {
    var init := g[..|g| - 1];
    var last := g[|g| - 1];
    var r: seq<seq<Placed>> := init + [last + [e]];
    FlattenSnoc(init, last);
    FlattenSnoc(init, last + [e]);
    assert init + [last] == g;
    assert Tight(last + [e]) by {
      assert Tight(last);
      forall k | 0 < k < |last + [e]| ensures Abs((last + [e])[k].y - (last + [e])[k - 1].y) <= LineTolerance {
        if k < |last| { assert (last + [e])[k] == last[k] && (last + [e])[k - 1] == last[k - 1]; }
      }
    }
    forall i | 0 <= i < |r| ensures |r[i]| > 0 && Tight(r[i]) {
      if i < |init| { assert r[i] == g[i]; }
    }
    forall i | 0 < i < |r| ensures Apart(r[i - 1], r[i]) {
      assert r[i - 1] == g[i - 1];
      assert Apart(g[i - 1], g[i]);
      assert r[i][0] == g[i][0];
    }
  }

  /** A fragment far from the last one starts a new line. */
  lemma LinesStart(g: seq<seq<Placed>>, ps: seq<Placed>, e: Placed)
    requires LinesOf(g, ps)
    requires |g| > 0 ==> Abs(e.y - g[|g| - 1][|g[|g| - 1]| - 1].y) > LineTolerance
    ensures LinesOf(g + [[e]], ps + [e])
  {
    FlattenSnoc(g, [e]);
    var r: seq<seq<Placed>> := g + [[e]];
    forall i | 0 <= i < |r| ensures |r[i]| > 0 && Tight(r[i]) {
      if i < |g| { assert r[i] == g[i]; }
    }
    forall i | 0 < i < |r| ensures Apart(r[i - 1], r[i]) {
      assert r[i - 1] == g[i - 1];
      if i < |g| { assert r[i] == g[i]; }
    }
  }

  /** The lines split the fragments, in order, exactly at the gaps wider than the tolerance. */
  lemma {:induction false} LinesSplitAtGaps(ps: seq<Placed>)
    ensures LinesOf(Lines(ps), ps)
    decreases |ps|
  {
    if |ps| > 0 {
      var init := ps[..|ps| - 1];
      var e := ps[|ps| - 1];
      LinesSplitAtGaps(init);
      LinesAdd(Lines(init), init, e);
      assert init + [e] == ps;
    }
  }

  /** Adding one fragment to lines of `ps` gives lines of `ps + [e]`. */
  lemma LinesAdd(g: seq<seq<Placed>>, ps: seq<Placed>, e: Placed)
    requires LinesOf(g, ps)
    ensures LinesOf(AddToLines(g, e), ps + [e])
  {
    if |g| > 0 && |g[|g| - 1]| > 0 && Abs(e.y - g[|g| - 1][|g[|g| - 1]| - 1].y) <= LineTolerance {
      LinesExtend(g, ps, e);
    } else {
      LinesStart(g, ps, e);
    }
  }

  /** `" ".join` of each line. */
  function LineTexts(gs: seq<seq<Placed>>): seq<string> {
    seq(|gs|, i requires 0 <= i < |gs| => Join(Texts(gs[i]), " "))
  }

  /** The content of a cell from its fragments: ordered by `(y, x)`, then
      joined by spaces (`lined` false) or into lines (`lined` true), and stripped. */
  function CellText(ps: seq<Placed>, lined: bool): string {
    var sorted := Sort(ps, YX);
    if lined then Strip(Join(LineTexts(Lines(sorted)), "\n")) else Strip(Join(Texts(sorted), " "))
  }

  method GroupLines(ps: seq<Placed>) returns (groups: seq<seq<Placed>>)
    ensures groups == Lines(ps)
  {
    groups := [];
    var current: seq<Placed> := [];
    for i := 0 to |ps|
      invariant |current| == 0 <==> i == 0
      invariant forall k | 0 <= k < |groups| :: |groups[k]| > 0
      invariant Lines(ps[..i]) == if |current| == 0 then groups else groups + [current]
    {
      var e := ps[i];
      assert ps[..i + 1] == ps[..i] + [e];
      LinesStep(ps[..i], e, groups, current);
      if |current| == 0 {
        current := [e];
      } else if Abs(e.y - current[|current| - 1].y) <= LineTolerance {
        current := current + [e];
      } else {
        groups := groups + [current];
        current := [e];
      }
    }
    if |current| > 0 {
      groups := groups + [current];
    }
    assert ps[..|ps|] == ps;
  }

  /** One step of the line grouping: `e` joins the open line or starts one. */
  lemma LinesStep(ps: seq<Placed>, e: Placed, groups: seq<seq<Placed>>, current: seq<Placed>)
    requires |current| == 0 <==> |ps| == 0
    requires Lines(ps) == if |current| == 0 then groups else groups + [current]
    ensures Lines(ps + [e])
      == if |current| > 0 && Abs(e.y - current[|current| - 1].y) <= LineTolerance then groups + [current + [e]]
         else (if |current| == 0 then groups else groups + [current]) + [[e]]
  {
    LinesSnoc(ps, e);
    var g := Lines(ps);
    if |current| > 0 {
      assert g[|g| - 1] == current;
      assert g[..|g| - 1] == groups;
    }
  }

  lemma LinesSnoc(ps: seq<Placed>, e: Placed)
    ensures Lines(ps + [e]) == AddToLines(Lines(ps), e)
  {
    assert (ps + [e])[..|ps|] == ps;
  }

  /** The text of one cell: `list.sort` of its bucket, then the join. */
  method JoinCell(ps: seq<Placed>, lined: bool) returns (text: string)
    ensures text == CellText(ps, lined)
  {
    var sorted := Sort(ps, YX);
    if lined {
      var groups := GroupLines(sorted);
      text := Strip(Join(LineTexts(groups), "\n"));
    } else {
      text := Strip(Join(Texts(sorted), " "));
    }
  }

  /** Every entry of `texts` is the text of the bucket with its id. */
  predicate TextsAgree(texts: map<int, string>, buckets: map<int, seq<Placed>>, lined: bool) {
    forall id | id in texts :: id in buckets && texts[id] == CellText(buckets[id], lined)
  }

  /** The per-cell loop over the buckets, in key order. */
  method CellTexts(buckets: map<int, seq<Placed>>, keys: seq<int>, lined: bool) returns (texts: map<int, string>)
    requires forall j | 0 <= j < |keys| :: keys[j] in buckets
    requires forall id | id in buckets :: id in keys
    ensures forall id :: id in texts <==> id in buckets
    ensures forall id | id in texts :: texts[id] == CellText(buckets[id], lined)
  {
    texts := map[];
    for i := 0 to |keys|
      invariant TextsAgree(texts, buckets, lined)
      invariant forall j | 0 <= j < i :: keys[j] in texts
    {
      var id := keys[i];
      var text := JoinCell(buckets[id], lined);
      PutAgrees(texts, id, text, buckets, lined);
      texts := texts[id := text];
    }
    assert TextsAgree(texts, buckets, lined);
  }

  /** Adding the text of one more cell keeps every entry the text of its
      bucket. */
  lemma PutAgrees(texts: map<int, string>, id: int, text: string, buckets: map<int, seq<Placed>>, lined: bool)
    requires id in buckets && text == CellText(buckets[id], lined)
    requires TextsAgree(texts, buckets, lined)
    ensures TextsAgree(texts[id := text], buckets, lined)
  {
  }

  // Writing the contents into the table

  /** `contenido_por_celda.get(id, "")`; a cell without id has none. */
  function Lookup(texts: map<int, string>, id: Option<int>): string {
    if id.Some? && id.value in texts then texts[id.value] else ""
  }

  predicate Shown(c: TableStructure.TCell) { c.rowspan > 0 && c.colspan > 0 }

  function FillCell(c: TableStructure.TCell, texts: map<int, string>): TableStructure.TCell {
    if Shown(c) then c.(content := Lookup(texts, c.id)) else c
  }

  function FillRow(row: seq<TableStructure.TCell>, texts: map<int, string>): seq<TableStructure.TCell> {
    seq(|row|, j requires 0 <= j < |row| => FillCell(row[j], texts))
  }

  function Filled(t: seq<seq<TableStructure.TCell>>, texts: map<int, string>): seq<seq<TableStructure.TCell>> {
    seq(|t|, i requires 0 <= i < |t| => FillRow(t[i], texts))
  }

  method FillContents(t: seq<seq<TableStructure.TCell>>, texts: map<int, string>) returns (r: seq<seq<TableStructure.TCell>>)
    ensures r == Filled(t, texts)
  {
    r := [];
    for i := 0 to |t|
      invariant r == Filled(t[..i], texts)
    {
      var row: seq<TableStructure.TCell> := [];
      for j := 0 to |t[i]|
        invariant row == FillRow(t[i][..j], texts)
      {
        var c := t[i][j];
        if c.rowspan > 0 && c.colspan > 0 {
          c := c.(content := Lookup(texts, c.id));
        }
        row := row + [c];
      }
      assert t[i][..|t[i]|] == t[i];
      r := r + [row];
    }
    assert t[..|t|] == t;
  }

  /** Only the content of shown cells changes; it becomes the text of the
      cell's id, or "" when the id has none. Covered cells are untouched. */
  lemma FilledChangesOnlyShownContent(t: seq<seq<TableStructure.TCell>>, texts: map<int, string>)
    ensures var r := Filled(t, texts);
            |r| == |t| &&
            forall i | 0 <= i < |t| ::
              |r[i]| == |t[i]| &&
              forall j | 0 <= j < |t[i]| ::
                r[i][j] == t[i][j].(content := r[i][j].content) &&
                (Shown(t[i][j]) ==> r[i][j].content == Lookup(texts, t[i][j].id)) &&
                (!Shown(t[i][j]) ==> r[i][j] == t[i][j])
  {
  }

  /** Filling twice with the same texts is filling once. */
  lemma FilledIdempotent(t: seq<seq<TableStructure.TCell>>, texts: map<int, string>)
    ensures Filled(Filled(t, texts), texts) == Filled(t, texts)
  {
    var r := Filled(t, texts);
    forall i | 0 <= i < |t| ensures FillRow(r[i], texts) == r[i] {
      forall j | 0 <= j < |t[i]| ensures FillCell(r[i][j], texts) == r[i][j] {
        assert Shown(r[i][j]) == Shown(t[i][j]);
      }
    }
  }

  /** The content of each cell id: its bucket, sorted and joined. */
  function CellContents(boxes: seq<PdfBox>, ps: seq<Placed>, lined: bool): map<int, string> {
    map id | id in Ids(boxes) :: CellText(Bucket(boxes, ps, id), lined)
  }

  /** The table after assigning the fragments `ps` to the cells `boxes`. */
  function AssignedText(t: seq<seq<TableStructure.TCell>>, boxes: seq<PdfBox>, ps: seq<Placed>, lined: bool): seq<seq<TableStructure.TCell>> {
    Filled(t, CellContents(boxes, ps, lined))
  }

  lemma LookupAgrees(m1: map<int, string>, m2: map<int, string>, o: Option<int>)
    requires forall id :: id in m1 <==> id in m2
    requires forall id | id in m1 :: m1[id] == m2[id]
    ensures Lookup(m1, o) == Lookup(m2, o)
  {
    if o.Some? {
      var k := o.value;
      assert k in m1 <==> k in m2;
    }
  }

  /** Filling depends only on what each id maps to. */
  lemma FilledAgrees(t: seq<seq<TableStructure.TCell>>, m1: map<int, string>, m2: map<int, string>)
    requires forall id :: id in m1 <==> id in m2
    requires forall id | id in m1 :: m1[id] == m2[id]
    ensures Filled(t, m1) == Filled(t, m2)
  {
    forall i | 0 <= i < |t| ensures FillRow(t[i], m1) == FillRow(t[i], m2) {
      forall j | 0 <= j < |t[i]| ensures FillCell(t[i][j], m1) == FillCell(t[i][j], m2) {
        LookupAgrees(m1, m2, t[i][j].id);
      }
    }
  }

  method Assign(t: seq<seq<TableStructure.TCell>>, boxes: seq<PdfBox>, ps: seq<Placed>, lined: bool)
    returns (r: seq<seq<TableStructure.TCell>>)
    ensures r == AssignedText(t, boxes, ps, lined)
  {
    var buckets := CollectFragments(boxes, ps);
    var contents := CellTexts(buckets, KeyOrder(boxes), lined);
    r := FillContents(t, contents);
    FilledAgrees(t, contents, CellContents(boxes, ps, lined));
  }

  /** `asignar_texto_a_estructura`: fragments placed at their given point,
      a cell's fragments joined by spaces. */
  method AssignText(t: seq<seq<TableStructure.TCell>>, boxes: seq<PdfBox>, texts: seq<Placed>)
    returns (r: seq<seq<TableStructure.TCell>>)
    ensures r == AssignedText(t, boxes, texts, false)
  {
    r := Assign(t, boxes, texts, false);
  }

  /** `asignar_texto_a_estructura_new`: words placed at their centre, a
      cell's words joined into reading lines. */
  method AssignWords(t: seq<seq<TableStructure.TCell>>, boxes: seq<PdfBox>, words: seq<Word>)
    returns (r: seq<seq<TableStructure.TCell>>)
    ensures r == AssignedText(t, boxes, Centres(words), true)
  {
    r := Assign(t, boxes, Centres(words), true);
  }

  /** A fragment outside every cell does not change the table. */
  lemma StrayFragmentNoEffect(t: seq<seq<TableStructure.TCell>>, boxes: seq<PdfBox>, ps: seq<Placed>, p: Placed, lined: bool)
    requires Owner(boxes, p).None?
    ensures AssignedText(t, boxes, ps + [p], lined) == AssignedText(t, boxes, ps, lined)
  {
    forall id | id in Ids(boxes) ensures Bucket(boxes, ps + [p], id) == Bucket(boxes, ps, id) {
      FragmentGoesToOwner(boxes, ps, p, id);
    }
    FilledAgrees(t, CellContents(boxes, ps + [p], lined), CellContents(boxes, ps, lined));
  }

  /** A cell's content depends only on the fragments with equal `(y, x)`
      taken in order: the sorted fragments are the bucket reordered by `(y, x)`,
      with ties in bucket order. */
  lemma CellOrder(ps: seq<Placed>)
    ensures SortedBy(Sort(ps, YX), YX)
    ensures multiset(Sort(ps, YX)) == multiset(ps)
    ensures forall k :: WithKey(Sort(ps, YX), YX, k) == WithKey(ps, YX, k)
  {
    SortFacts(ps, YX);
  }

  // ---------------------------------------------------------------------------
  // The contained-table filter
  // ---------------------------------------------------------------------------

  /** `is_inside`: closed containment, with the inner box's edges in order. */
  predicate Inside(inner: BBox, outer: BBox) {
    outer.x0 <= inner.x0 <= inner.x1 <= outer.x1 && outer.top <= inner.top <= inner.bottom <= outer.bottom
  }

  predicate Contained(bs: seq<BBox>, i: nat)
    requires i < |bs|
  {
    exists j | 0 <= j < |bs| :: j != i && Inside(bs[i], bs[j])
  }

  /** The indices of the tables that survive, in order. */
  function KeptIndices(bs: seq<BBox>, n: nat): seq<nat>
    requires n <= |bs|
  {
    if n == 0 then [] else KeptIndices(bs, n - 1) + (if Contained(bs, n - 1) then [] else [n - 1])
  }

  function Pick(bs: seq<BBox>, ix: seq<nat>): seq<BBox>
    requires forall k | 0 <= k < |ix| :: ix[k] < |bs|
  {
    seq(|ix|, k requires 0 <= k < |ix| => bs[ix[k]])
  }

  lemma {:induction false} KeptIndicesSpec(bs: seq<BBox>, n: nat)
    requires n <= |bs|
    ensures forall k | 0 <= k < |KeptIndices(bs, n)| :: KeptIndices(bs, n)[k] < n
    ensures forall k, l | 0 <= k < l < |KeptIndices(bs, n)| :: KeptIndices(bs, n)[k] < KeptIndices(bs, n)[l]
    ensures forall i | 0 <= i < n :: i in KeptIndices(bs, n) <==> !Contained(bs, i)
  {
    if n > 0 {
      KeptIndicesSpec(bs, n - 1);
    }
  }

  /** The tables that are not inside another one, in their original order. */
  function KeptTables(bs: seq<BBox>): seq<BBox> {
    KeptIndicesSpec(bs, |bs|);
    Pick(bs, KeptIndices(bs, |bs|))
  }

  lemma PickSnoc(bs: seq<BBox>, ix: seq<nat>, i: nat)
    requires i < |bs| && forall k | 0 <= k < |ix| :: ix[k] < |bs|
    ensures Pick(bs, ix + [i]) == Pick(bs, ix) + [bs[i]]
  {
  }

  /** The nested loops of the filter: the set of tables found inside another. */
  method MarkContained(tables: seq<BBox>) returns (contained: set<nat>)
    ensures forall k | k in contained :: k < |tables|
    ensures forall k | 0 <= k < |tables| :: k in contained <==> Contained(tables, k)
  {
    contained := {};
    for i := 0 to |tables|
      invariant forall k | k in contained :: k < i
      invariant forall k | 0 <= k < i :: k in contained <==> Contained(tables, k)
    {
      for j := 0 to |tables|
        invariant forall k | k in contained :: k <= i
        invariant forall k | 0 <= k < i :: k in contained <==> Contained(tables, k)
        invariant i in contained <==> exists l | 0 <= l < j :: l != i && Inside(tables[i], tables[l])
      {
        if i != j && Inside(tables[i], tables[j]) {
          contained := contained + {i};
        }
      }
    }
  }

  method FilterContained(tables: seq<BBox>) returns (kept: seq<BBox>)
    ensures kept == KeptTables(tables)
  {
    var contained := MarkContained(tables);
    kept := [];
    ghost var ix: seq<nat> := [];
    for i := 0 to |tables|
      invariant ix == KeptIndices(tables, i)
      invariant forall k | 0 <= k < |ix| :: ix[k] < i
      invariant kept == Pick(tables, ix)
    {
      if i !in contained {
        PickSnoc(tables, ix, i);
        ix := ix + [i];
        kept := kept + [tables[i]];
      }
    }
  }

  /** Two tables with the same well-formed bbox discard each other. */
  lemma IdenticalTablesBothDiscarded(bs: seq<BBox>, i: nat, j: nat)
    requires i < |bs| && j < |bs| && i != j && bs[i] == bs[j]
    requires bs[i].x0 <= bs[i].x1 && bs[i].top <= bs[i].bottom
    ensures i !in KeptIndices(bs, |bs|) && j !in KeptIndices(bs, |bs|)
  {
    KeptIndicesSpec(bs, |bs|);
    assert Inside(bs[i], bs[j]) && Inside(bs[j], bs[i]);
  }

  function Size(b: BBox): real { (b.x1 - b.x0) + (b.bottom - b.top) }

  function Largest(bs: seq<BBox>, n: nat): (m: nat)
    requires 0 < n <= |bs|
    ensures m < n && forall k | 0 <= k < n :: Size(bs[k]) <= Size(bs[m])
  {
    if n == 1 then 0
    else
      var m := Largest(bs, n - 1);
      if Size(bs[n - 1]) > Size(bs[m]) then n - 1 else m
  }

  /** Containment between different boxes strictly grows the size. */
  lemma InsideGrows(a: BBox, b: BBox)
    requires Inside(a, b) && a != b
    ensures Size(a) < Size(b)
  {
  }

  /** When no two tables share a bbox, the filter keeps at least one of a
      non-empty list: the largest table is inside no other. */
  lemma DistinctTablesKeepOne(bs: seq<BBox>)
    requires |bs| > 0
    requires forall i, j | 0 <= i < j < |bs| :: bs[i] != bs[j]
    ensures |KeptTables(bs)| > 0
  {
    var m := Largest(bs, |bs|);
    KeptIndicesSpec(bs, |bs|);
    if Contained(bs, m) {
      var j :| 0 <= j < |bs| && j != m && Inside(bs[m], bs[j]);
      assert bs[m] != bs[j];
      InsideGrows(bs[m], bs[j]);
      assert false;
    }
    assert m in KeptIndices(bs, |bs|);
  }
}
