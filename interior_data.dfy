/** Removal of everything outside each crop area (EliminarDatosInternosFisicos.py):
    its `elemento_en_area` is the negation of containment, so the shared line
    filter drops the lines whose reference point lies OUTSIDE the area and
    strips the `Do` of images placed outside it. Each crop area yields its own
    copy of the original page. */
module InteriorData {
  import opened Common
  import opened StreamLines
  import opened Pages

  /** `elemento_en_area` of this pass: true when the point is not in the area. */
  predicate Outside(x: real, y: real, a: Area) {
    !(a.x1 <= x <= a.x2 && a.y1 <= y <= a.y2)
  }

  /** The filter of one area: drop and strip what lies outside it. */
  function OutsideOf(r: Rect, height: real): (real, real) -> bool {
    (x, y) => Outside(x, y, Flip(r, height))
  }

  // ---------------------------------------------------------------------------
  // The two passes against each other
  // ---------------------------------------------------------------------------

  /** The position a line leaves does not depend on the area test, so the
      trace either fails for every test or succeeds with the same positions. */
  lemma {:induction false} TracePositions(lines: seq<string>, scan: Scanner, h1: (real, real) -> bool, h2: (real, real) -> bool)
    ensures Trace(lines, scan, h1).Some? <==> Trace(lines, scan, h2).Some?
    ensures Trace(lines, scan, h1).Some? ==>
      forall k | 0 <= k < |lines| :: Trace(lines, scan, h1).value[k].pos == Trace(lines, scan, h2).value[k].pos
    decreases |lines|
  {
    if |lines| > 0 {
      var n := |lines| - 1;
      TracePositions(lines[..n], scan, h1, h2);
      TraceSnoc(lines, scan, h1);
      TraceSnoc(lines, scan, h2);
      var t1, t2 := Trace(lines[..n], scan, h1), Trace(lines[..n], scan, h2);
      if t1.Some? {
        assert LastPos(t1.value) == LastPos(t2.value);
        StepPositions(LastPos(t1.value), lines[n], scan, h1, h2);
        var s1, s2 := Step(LastPos(t1.value), lines[n], scan, h1), Step(LastPos(t2.value), lines[n], scan, h2);
        if s1.Some? {
          var r1, r2 := t1.value + [s1.value], t2.value + [s2.value];
          forall k | 0 <= k < |lines| ensures r1[k].pos == r2[k].pos {
            if k < n {
              assert r1[k] == t1.value[k] && r2[k] == t2.value[k];
            }
          }
        }
      }
    }
  }

  /** The area test decides only the drop flag of a line, never whether
      its operands convert nor the position after it. */
  lemma StepPositions(pos: Pos, line: string, scan: Scanner, h1: (real, real) -> bool, h2: (real, real) -> bool)
    ensures Step(pos, line, scan, h1).Some? <==> Step(pos, line, scan, h2).Some?
    ensures Step(pos, line, scan, h1).Some? ==> Step(pos, line, scan, h1).value.pos == Step(pos, line, scan, h2).value.pos
  {
  }

  /** Two complementary area tests split the lines that carry a position
      check: each such line is dropped under exactly one of them, and a line
      without one under neither. */
  lemma ComplementaryTests(lines: seq<string>, scan: Scanner, hIn: (real, real) -> bool, hOut: (real, real) -> bool)
    requires forall x, y :: hOut(x, y) == !hIn(x, y)
    requires Trace(lines, scan, hIn).Some?
    ensures Trace(lines, scan, hOut).Some?
    ensures forall k | 0 <= k < |lines| ::
      var rs := Trace(lines, scan, hIn).value;
      var p := BeforeChecks(LastPos(rs[..k]), scan(lines[k]));
      p.Some? && CheckPoints(lines[k], scan(lines[k]), p.value).Some?
      && !(rs[k].drop && Trace(lines, scan, hOut).value[k].drop)
      && ((rs[k].drop || Trace(lines, scan, hOut).value[k].drop) <==> |CheckPoints(lines[k], scan(lines[k]), p.value).value| > 0)
  {
    TracePositions(lines, scan, hIn, hOut);
    TraceDrops(lines, scan, hIn);
    TraceDrops(lines, scan, hOut);
    var rsIn := Trace(lines, scan, hIn).value;
    var rsOut := Trace(lines, scan, hOut).value;
    forall k | 0 <= k < |lines|
      ensures var p := BeforeChecks(LastPos(rsIn[..k]), scan(lines[k]));
        p.Some? && CheckPoints(lines[k], scan(lines[k]), p.value).Some?
        && !(rsIn[k].drop && rsOut[k].drop)
        && ((rsIn[k].drop || rsOut[k].drop) <==> |CheckPoints(lines[k], scan(lines[k]), p.value).value| > 0)
    {
      if k > 0 {
        assert rsIn[..k][k - 1] == rsIn[k - 1] && rsOut[..k][k - 1] == rsOut[k - 1];
      }
      assert LastPos(rsIn[..k]) == LastPos(rsOut[..k]);
    }
  }

  /** Against the same area, the table pass (drop inside) and the interior
      pass (drop outside) split the lines that carry a position check: each
      such line is dropped by exactly one of them, and a line without one is
      dropped by neither. */
  lemma Complementary(lines: seq<string>, scan: Scanner, a: Area)
    requires Trace(lines, scan, (x, y) => InArea(x, y, a)).Some?
    ensures Trace(lines, scan, (x, y) => Outside(x, y, a)).Some?
    ensures forall k | 0 <= k < |lines| ::
      var rIn := Trace(lines, scan, (x, y) => InArea(x, y, a)).value[k];
      var rOut := Trace(lines, scan, (x, y) => Outside(x, y, a)).value[k];
      var rs := Trace(lines, scan, (x, y) => InArea(x, y, a)).value;
      var p := BeforeChecks(LastPos(rs[..k]), scan(lines[k]));
      p.Some? && CheckPoints(lines[k], scan(lines[k]), p.value).Some?
      && !(rIn.drop && rOut.drop)
      && ((rIn.drop || rOut.drop) <==> |CheckPoints(lines[k], scan(lines[k]), p.value).value| > 0)
  {
    ComplementaryTests(lines, scan, (x, y) => InArea(x, y, a), (x, y) => Outside(x, y, a));
  }

  // ---------------------------------------------------------------------------
  // eliminar_elementos_area
  // ---------------------------------------------------------------------------

  /** The pages crop_data names, each once, in order of first appearance
      (the key order of the `page_areas` dictionary). */
  function PageOrder(cropData: seq<(int, Rect)>): (r: seq<int>)
    ensures forall i, j | 0 <= i < j < |r| :: r[i] != r[j]
    ensures forall k | 0 <= k < |cropData| :: cropData[k].0 in r
    ensures forall q | q in r :: exists k | 0 <= k < |cropData| :: cropData[k].0 == q
  {
    if |cropData| == 0 then []
    else
      var prev := PageOrder(cropData[..|cropData| - 1]);
      var p := cropData[|cropData| - 1].0;
      if p in prev then prev else prev + [p]
  }

  /** The rectangles crop_data lists for page `p`, in crop_data order. */
  function AreasOf(cropData: seq<(int, Rect)>, p: int): seq<Rect> {
    if |cropData| == 0 then []
    else
      var last := cropData[|cropData| - 1];
      AreasOf(cropData[..|cropData| - 1], p) + (if last.0 == p then [last.1] else [])
  }

  /** Python indexing of the page list: a negative page counts from the end
      (the footer area is recorded on page -1, the last page). */
  function PageAt(pages: seq<Page>, p: int): Page
    requires -|pages| <= p < |pages|
  {
    if p < 0 then pages[p + |pages|] else pages[p]
  }

  /** `pdf.pages[p]` finds a page: Python accepts `-len <= p < len`. */
  predicate PageExists(pages: seq<Page>, p: int) {
    -|pages| <= p < |pages|
  }

  /** Every page crop_data names exists. */
  predicate PagesExist(pages: seq<Page>, cropData: seq<(int, Rect)>) {
    forall k | 0 <= k < |cropData| :: PageExists(pages, cropData[k].0)
  }

  /** Every page of a key list exists. */
  predicate KeysExist(pages: seq<Page>, keys: seq<int>) {
    forall i | 0 <= i < |keys| :: PageExists(pages, keys[i])
  }

  /** The grouped pages all exist exactly when every crop entry's page does. */
  lemma PageOrderExists(pages: seq<Page>, cropData: seq<(int, Rect)>)
    ensures KeysExist(pages, PageOrder(cropData)) <==> PagesExist(pages, cropData)
  {
    var keys := PageOrder(cropData);
    if KeysExist(pages, keys) {
      forall k | 0 <= k < |cropData|
        ensures PageExists(pages, cropData[k].0)
      {
        var i :| 0 <= i < |keys| && keys[i] == cropData[k].0;
      }
    }
    if PagesExist(pages, cropData) {
      forall i | 0 <= i < |keys|
        ensures PageExists(pages, keys[i])
      {
        assert keys[i] in keys;
        var k :| 0 <= k < |cropData| && cropData[k].0 == keys[i];
      }
    }
  }

  /** One entry of a fresh copy of the page: a decodable stream whose
      filtered text differs is replaced; an error leaves it as it was. */
  function FilterEntry(e: Entry, r: Rect, height: real, scan: Scanner): Entry {
    match e
    case OtherObject => e
    case ContentStream(None) => e
    case ContentStream(Some(data)) =>
      match Filtered(data, scan, OutsideOf(r, height))
      case None => e
      case Some(text) => if text == data then e else ContentStream(Some(text))
  }

  /** The copy of the original page made for one area. */
  function FilterPage(pg: Page, r: Rect, scan: Scanner): Page {
    pg.(entries := seq(|pg.entries|, k requires 0 <= k < |pg.entries| => FilterEntry(pg.entries[k], r, pg.height, scan)))
  }

  /** One filtered copy of a page per area, in order. */
  function PageCopies(pg: Page, areas: seq<Rect>, scan: Scanner): (r: seq<Page>)
    ensures |r| == |areas| && forall k | 0 <= k < |areas| :: r[k] == FilterPage(pg, areas[k], scan)
  {
    seq(|areas|, k requires 0 <= k < |areas| => FilterPage(pg, areas[k], scan))
  }

  /** The output: for every page in `keys`, one filtered copy of the
      original page per area, in crop_data order. */
  function Copies(pages: seq<Page>, cropData: seq<(int, Rect)>, keys: seq<int>, scan: Scanner): (r: seq<Page>)
    requires KeysExist(pages, keys)
    decreases |keys|
  {
    if |keys| == 0 then []
    else
      var p := keys[|keys| - 1];
      var areas := AreasOf(cropData, p);
      Copies(pages, cropData, keys[..|keys| - 1], scan)
        + PageCopies(PageAt(pages, p), areas, scan)
  }

  /** Sum of the number of areas of the given pages. */
  function AreaCount(cropData: seq<(int, Rect)>, keys: seq<int>): nat
    decreases |keys|
  {
    if |keys| == 0 then 0 else AreaCount(cropData, keys[..|keys| - 1]) + |AreasOf(cropData, keys[|keys| - 1])|
  }

  lemma {:induction false} CopiesLength(pages: seq<Page>, cropData: seq<(int, Rect)>, keys: seq<int>, scan: Scanner)
    requires KeysExist(pages, keys)
    ensures |Copies(pages, cropData, keys, scan)| == AreaCount(cropData, keys)
    decreases |keys|
  {
    if |keys| > 0 {
      CopiesLength(pages, cropData, keys[..|keys| - 1], scan);
    }
  }

  /** A page that crop_data never names has no areas. */
  lemma {:induction false} AreasOfAbsent(cropData: seq<(int, Rect)>, p: int)
    requires p !in PageOrder(cropData)
    ensures AreasOf(cropData, p) == []
    decreases |cropData|
  {
    if |cropData| > 0 {
      AreasOfAbsent(cropData[..|cropData| - 1], p);
    }
  }

  /** Adding one crop entry adds one to the area count of a list of distinct
      pages exactly when the list holds the entry's page. */
  lemma {:induction false} AreaCountExtend(cropData: seq<(int, Rect)>, x: (int, Rect), keys: seq<int>)
    requires forall i, j | 0 <= i < j < |keys| :: keys[i] != keys[j]
    ensures AreaCount(cropData + [x], keys) == AreaCount(cropData, keys) + (if x.0 in keys then 1 else 0)
    decreases |keys|
  {
    var c := cropData + [x];
    assert c[..|c| - 1] == cropData;
    if |keys| > 0 {
      var n := |keys| - 1;
      AreaCountExtend(cropData, x, keys[..n]);
      assert x.0 in keys <==> x.0 in keys[..n] || x.0 == keys[n];
      assert keys[n] in keys[..n] ==> false;
    }
  }

  /** Every crop entry yields exactly one page of output. */
  lemma {:induction false} AreaCountAll(cropData: seq<(int, Rect)>)
    ensures AreaCount(cropData, PageOrder(cropData)) == |cropData|
    decreases |cropData|
  {
    if |cropData| > 0 {
      var n := |cropData| - 1;
      var prev := cropData[..n];
      var x := cropData[n];
      assert cropData == prev + [x];
      AreaCountAll(prev);
      var keys := PageOrder(prev);
      AreaCountExtend(prev, x, keys);
      if x.0 !in keys {
        AreasOfAbsent(prev, x.0);
        assert (keys + [x.0])[..|keys|] == keys;
      }
    }
  }

  /** The `page_areas` dictionary as a key order and a map. */
  method GroupByPage(cropData: seq<(int, Rect)>) returns (keys: seq<int>, pageAreas: map<int, seq<Rect>>)
    ensures keys == PageOrder(cropData)
    ensures forall q | q in keys :: q in pageAreas && pageAreas[q] == AreasOf(cropData, q)
  {
    keys := [];
    pageAreas := map[];
    for k := 0 to |cropData|
      invariant keys == PageOrder(cropData[..k])
      invariant forall q :: q in pageAreas <==> q in keys
      invariant forall q | q in keys :: pageAreas[q] == AreasOf(cropData[..k], q)
    {
      var (p, rect) := cropData[k];
      assert cropData[..k + 1][..k] == cropData[..k];
      if p !in pageAreas {
        AreasOfAbsent(cropData[..k], p);
        keys := keys + [p];
        pageAreas := pageAreas[p := []];
      }
      pageAreas := pageAreas[p := pageAreas[p] + [rect]];
    }
    assert cropData[..|cropData|] == cropData;
  }

  /** The body of the loop over the page's entries. */
  method FilterStream(e: Entry, r: Rect, height: real, scan: Scanner) returns (res: Entry)
    ensures res == FilterEntry(e, r, height, scan)
  {
    res := e;
    if e.ContentStream? && e.data.Some? {
      var text := FilterContent(e.data.value, scan, OutsideOf(r, height));
      if text.Some? && text.value != e.data.value {
        res := ContentStream(Some(text.value));
      }
    }
  }

  /** One area's copy of the page: every stream filtered from the original. */
  method FilterCopy(pg: Page, r: Rect, scan: Scanner) returns (res: Page)
    ensures res == FilterPage(pg, r, scan)
  {
    var entries := pg.entries;
    for e := 0 to |entries|
      invariant |entries| == |pg.entries|
      invariant forall k | 0 <= k < e :: entries[k] == FilterEntry(pg.entries[k], r, pg.height, scan)
      invariant forall k | e <= k < |entries| :: entries[k] == pg.entries[k]
    {
      var entry := FilterStream(entries[e], r, pg.height, scan);
      entries := entries[e := entry];
    }
    res := pg.(entries := entries);
  }

  /** The loop over the areas of one page: a fresh copy per area. */
  method CopiesOfPage(original: Page, areas: seq<Rect>, scan: Scanner) returns (copies: seq<Page>)
    ensures copies == PageCopies(original, areas, scan)
  {
    copies := [];
    for a := 0 to |areas|
      invariant copies == seq(a, k requires 0 <= k < a => FilterPage(original, areas[k], scan))
    {
      var copy := FilterCopy(original, areas[a], scan);
      copies := copies + [copy];
    }
  }

  /** The loop over the grouped pages: the copies of each page, in order;
      the first page beyond the document is an IndexError that ends the
      whole pass. */
  method CopyGroups(pages: seq<Page>, cropData: seq<(int, Rect)>, keys: seq<int>, pageAreas: map<int, seq<Rect>>, scan: Scanner)
    returns (out: Option<seq<Page>>)
    requires forall q | q in keys :: q in pageAreas && pageAreas[q] == AreasOf(cropData, q)
    ensures out.None? <==> !KeysExist(pages, keys)
    ensures out.Some? ==> KeysExist(pages, keys) && out.value == Copies(pages, cropData, keys, scan)
  {
    var acc := [];
    for i := 0 to |keys|
      invariant KeysExist(pages, keys[..i])
      invariant acc == Copies(pages, cropData, keys[..i], scan)
    {
      var p := keys[i];
      if !PageExists(pages, p) {
        return None;
      }
      var copies := CopiesOfPage(PageAt(pages, p), pageAreas[p], scan);
      acc := acc + copies;
      assert keys[..i + 1][..i] == keys[..i];
    }
    assert keys[..|keys|] == keys;
    out := Some(acc);
  }

  /** `eliminar_elementos_area` of this pass: one copy of the original page
      per crop entry, grouped by page in order of first appearance. A page
      index outside the document is an uncaught IndexError: no document. */
  method KeepInterior(pages: seq<Page>, cropData: seq<(int, Rect)>, scan: Scanner) returns (out: Option<seq<Page>>)
    ensures out.None? <==> !PagesExist(pages, cropData)
    ensures out.Some? ==>
              && KeysExist(pages, PageOrder(cropData))
              && out.value == Copies(pages, cropData, PageOrder(cropData), scan)
              && |out.value| == |cropData|
  {
    var keys, pageAreas := GroupByPage(cropData);
    out := CopyGroups(pages, cropData, keys, pageAreas, scan);
    PageOrderExists(pages, cropData);
    if out.Some? {
      CopiesLength(pages, cropData, keys, scan);
      AreaCountAll(cropData);
    }
  }
}
