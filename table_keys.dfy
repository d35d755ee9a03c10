/** Removal of detected tables from the page content and insertion of a
    text key in their place (EliminarYEscribirLlavesDeTablas.py). Every line
    whose reference point lies inside a table's area is dropped, image
    invocations placed inside it lose their `Do`, and a small text object
    showing `(Llave_Unica_Tabla_<page>_<table>)` is appended to the stream. */
module TableKeys {
  import opened Common
  import opened StreamLines
  import opened Pages

  /** A table area as recorded in crop_data: the table's index on its page
      and its rectangle. */
  datatype TableRect = TableRect(index: nat, area: Rect)

  // ---------------------------------------------------------------------------
  // agregar_texto_a_pagina
  // ---------------------------------------------------------------------------

  const DefaultFont := "/F1"
  const DefaultSize := "8.04"
  const DefaultColor := "0 G"

  /** The lines of the text object `agregar_texto_a_pagina` returns, with
      the position already formatted: an empty first line, one line per
      operator indented by four spaces, and an indented empty last line. */
  function TextBlockLines(font: string, size: string, x: string, y: string, color: string, texto: string): seq<string> {
    ["", "    q", "    BT", "    " + font + " " + size + " Tf", "    1 0 0 1 " + x + " " + y + " Tm",
     "    " + color, "    [" + texto + "] TJ", "    ET", "    Q", "    "]
  }

  function TextBlock(font: string, size: string, x: string, y: string, color: string, texto: string): string {
    Join(TextBlockLines(font, size, x, y, color, texto), "\n")
  }

  /** The block splits back into its operator lines, the `Tm` line sixth from
      the end and the text-showing line fourth from the end. */
  lemma TextBlockSplits(font: string, size: string, x: string, y: string, color: string, texto: string)
    requires '\n' !in font && '\n' !in size && '\n' !in x && '\n' !in y && '\n' !in color && '\n' !in texto
    ensures Split(TextBlock(font, size, x, y, color, texto), '\n') == TextBlockLines(font, size, x, y, color, texto)
  {
    var ls := TextBlockLines(font, size, x, y, color, texto);
    assert forall k | 0 <= k < |ls| :: '\n' !in ls[k];
    SplitJoin(ls, '\n');
  }

  /** The key text of table `tableIndex` (0-based) on page `page` (0-based). */
  function TableKeyText(page: nat, tableIndex: nat): string {
    "(Llave_Unica_Tabla_" + NatToString(page + 1) + "_" + NatToString(tableIndex + 1) + ")"
  }

  /** Where the key of a table is written: its left edge, half-way down. */
  function KeyPoint(r: TableRect, height: real): Pos {
    var a := Flip(r.area, height);
    Pos(a.x1, a.y1 + (a.y2 - a.y1) / 2.0)
  }

  /** The key of an ordered table area lies inside the area it replaces. */
  lemma KeyPointInside(r: TableRect, height: real)
    requires r.area.left <= r.area.right && r.area.top <= r.area.bottom
    ensures InArea(KeyPoint(r, height).x, KeyPoint(r, height).y, Flip(r.area, height))
  {
  }

  function KeyBlock(r: TableRect, page: nat, height: real, show: real -> string): string {
    var p := KeyPoint(r, height);
    TextBlock(DefaultFont, DefaultSize, show(p.x), show(p.y), DefaultColor, TableKeyText(page, r.index))
  }

  // ---------------------------------------------------------------------------
  // eliminar_elementos_area
  // ---------------------------------------------------------------------------

  /** The stream text after the first `|rects|` areas: each area filters the
      running text and then appends its key block. */
  function ApplyAreas(data: string, rects: seq<TableRect>, page: nat, height: real,
                      scan: Scanner, show: real -> string): Option<string>
    decreases |rects|
  {
    if |rects| == 0 then Some(data)
    else
      var r := rects[|rects| - 1];
      var before :- ApplyAreas(data, rects[..|rects| - 1], page, height, scan, show);
      var filtered :- Filtered(before, scan, (x, y) => InArea(x, y, Flip(r.area, height)));
      Some(filtered + KeyBlock(r, page, height, show))
  }

  /** A decodable stream is replaced when the areas go through and change
      its text; an error, an undecodable stream and any other object leave
      the entry as it is. */
  function MarkEntry(e: Entry, rects: seq<TableRect>, page: nat, height: real,
                     scan: Scanner, show: real -> string): Entry
  {
    match e
    case OtherObject => e
    case ContentStream(None) => e
    case ContentStream(Some(data)) =>
      match ApplyAreas(data, rects, page, height, scan, show)
      case None => e
      case Some(text) => if text == data then e else ContentStream(Some(text))
  }

  /** The page as it is appended to the output: unchanged without areas. */
  function MarkPage(pg: Page, rects: seq<TableRect>, page: nat, scan: Scanner, show: real -> string): Page {
    if |rects| == 0 then pg
    else pg.(entries := seq(|pg.entries|, k requires 0 <= k < |pg.entries| =>
      MarkEntry(pg.entries[k], rects, page, pg.height, scan, show)))
  }

  /** The areas crop_data lists for page `p`, in crop_data order. */
  function AreasOf(cropData: seq<(nat, TableRect)>, p: nat): seq<TableRect> {
    if |cropData| == 0 then []
    else
      var last := cropData[|cropData| - 1];
      AreasOf(cropData[..|cropData| - 1], p) + (if last.0 == p then [last.1] else [])
  }

  /** The loop over the areas of one page applied to one decoded stream. */
  method MarkStream(data: string, rects: seq<TableRect>, page: nat, height: real,
                    scan: Scanner, show: real -> string) returns (r: Option<string>)
    ensures r == ApplyAreas(data, rects, page, height, scan, show)
  {
    var decoded := data;
    var a := 0;
    while a < |rects|
      invariant 0 <= a <= |rects|
      invariant ApplyAreas(data, rects[..a], page, height, scan, show) == Some(decoded)
    {
      var rect := rects[a];
      assert rects[..a + 1][..a] == rects[..a];
      var filtered := FilterContent(decoded, scan, (x, y) => InArea(x, y, Flip(rect.area, height)));
      if filtered.None? {
        ApplyAreasNoneStays(data, rects, a + 1, page, height, scan, show);
        return None;
      }
      decoded := filtered.value + KeyBlock(rect, page, height, show);
      a := a + 1;
    }
    assert rects[..a] == rects;
    return Some(decoded);
  }

  lemma ApplyAreasNoneStays(data: string, rects: seq<TableRect>, a: nat, page: nat, height: real,
                            scan: Scanner, show: real -> string)
    requires a <= |rects|
    requires ApplyAreas(data, rects[..a], page, height, scan, show).None?
    ensures ApplyAreas(data, rects, page, height, scan, show).None?
    decreases |rects| - a
  {
    if a < |rects| {
      assert rects[..a + 1][..a] == rects[..a];
      ApplyAreasNoneStays(data, rects, a + 1, page, height, scan, show);
    } else {
      assert rects[..a] == rects;
    }
  }

  /** Every page crop_data names is one of the document's pages. */
  predicate PagesKnown(pageCount: nat, cropData: seq<(nat, TableRect)>) {
    forall k | 0 <= k < |cropData| :: cropData[k].0 < pageCount
  }

  /** The `page_areas` dictionary: an empty list for every page, then each
      crop_data entry appended to its page's list; a page beyond the
      document is a KeyError. */
  method GroupByPage(pageCount: nat, cropData: seq<(nat, TableRect)>) returns (r: Option<map<nat, seq<TableRect>>>)
    ensures r.None? <==> !PagesKnown(pageCount, cropData)
    ensures r.Some? ==> forall p: nat :: p in r.value <==> p < pageCount
    ensures r.Some? ==> forall p: nat | p < pageCount :: r.value[p] == AreasOf(cropData, p)
  {
    var pageAreas: map<nat, seq<TableRect>> := map[];
    for i := 0 to pageCount
      invariant forall p: nat :: p in pageAreas <==> p < i
      invariant forall p: nat | p < i :: pageAreas[p] == []
    {
      pageAreas := pageAreas[i := []];
    }
    for k := 0 to |cropData|
      invariant PagesKnown(pageCount, cropData[..k])
      invariant forall p: nat :: p in pageAreas <==> p < pageCount
      invariant forall p: nat | p < pageCount :: pageAreas[p] == AreasOf(cropData[..k], p)
    {
      var (p, rect) := cropData[k];
      if p !in pageAreas {
        return None;
      }
      assert cropData[..k + 1][..k] == cropData[..k];
      pageAreas := pageAreas[p := pageAreas[p] + [rect]];
    }
    assert cropData[..|cropData|] == cropData;
    r := Some(pageAreas);
  }

  /** The copy of a page with areas: every decodable content stream run
      through the areas and replaced when its text changed. */
  method MarkEntries(pg: Page, areas: seq<TableRect>, page: nat, scan: Scanner, show: real -> string)
    returns (res: Page)
    requires |areas| > 0
    ensures res == MarkPage(pg, areas, page, scan, show)
  {
    var entries := pg.entries;
    for e := 0 to |entries|
      invariant |entries| == |pg.entries|
      invariant forall k | 0 <= k < e :: entries[k] == MarkEntry(pg.entries[k], areas, page, pg.height, scan, show)
      invariant forall k | e <= k < |entries| :: entries[k] == pg.entries[k]
    {
      var marked := MarkOne(entries[e], areas, page, pg.height, scan, show);
      entries := entries[e := marked];
    }
    res := pg.(entries := entries);
  }

  /** One entry of a page with areas: a decodable content stream is run
      through the areas and replaced when its text changed. */
  method MarkOne(e: Entry, areas: seq<TableRect>, page: nat, height: real, scan: Scanner, show: real -> string)
    returns (r: Entry)
    ensures r == MarkEntry(e, areas, page, height, scan, show)
  {
    r := e;
    if e.ContentStream? && e.data.Some? {
      var data := e.data.value;
      var text := MarkStream(data, areas, page, height, scan, show);
      if text.Some? && text.value != data {
        r := ContentStream(Some(text.value));
      }
    }
  }

  /** `eliminar_elementos_area`: group the areas by page, then rebuild every
      page in order, filtering the content streams of the pages with areas.
      A crop_data page beyond the document is a KeyError while grouping:
      no document. */
  method RemoveTables(pages: seq<Page>, cropData: seq<(nat, TableRect)>, scan: Scanner, show: real -> string)
    returns (r: Option<seq<Page>>)
    ensures r.None? <==> !PagesKnown(|pages|, cropData)
    ensures r.Some? ==> |r.value| == |pages|
    ensures r.Some? ==> forall p | 0 <= p < |pages| :: r.value[p] == MarkPage(pages[p], AreasOf(cropData, p), p, scan, show)
  {
    var grouped := GroupByPage(|pages|, cropData);
    if grouped.None? {
      return None;
    }
    var pageAreas := grouped.value;
    var out := [];
    for p := 0 to |pages|
      invariant |out| == p
      invariant forall q | 0 <= q < p :: out[q] == MarkPage(pages[q], AreasOf(cropData, q), q, scan, show)
    {
      var areas := pageAreas[p];
      var page := pages[p];
      if |areas| > 0 {
        page := MarkEntries(page, areas, p, scan, show);
      }
      out := out + [page];
    }
    r := Some(out);
  }

  /** Pages without table areas come out exactly as they went in, and every
      page keeps its height and number of entries. */
  lemma MarkPageShape(pg: Page, rects: seq<TableRect>, page: nat, scan: Scanner, show: real -> string)
    ensures |rects| == 0 ==> MarkPage(pg, rects, page, scan, show) == pg
    ensures MarkPage(pg, rects, page, scan, show).height == pg.height
    ensures |MarkPage(pg, rects, page, scan, show).entries| == |pg.entries|
    ensures forall k | 0 <= k < |pg.entries| && !pg.entries[k].ContentStream? ::
      MarkPage(pg, rects, page, scan, show).entries[k] == pg.entries[k]
  {
  }

  /** With at least one area, a stream that goes through ends with the key
      block of the page's last area: the text is never left unmarked. */
  lemma {:induction false} LastKeyWritten(data: string, rects: seq<TableRect>, page: nat, height: real,
                                          scan: Scanner, show: real -> string)
    requires |rects| > 0
    requires ApplyAreas(data, rects, page, height, scan, show).Some?
    ensures EndsWith(ApplyAreas(data, rects, page, height, scan, show).value,
                     KeyBlock(rects[|rects| - 1], page, height, show))
  {
    var r := rects[|rects| - 1];
    var before := ApplyAreas(data, rects[..|rects| - 1], page, height, scan, show).value;
    var filtered := Filtered(before, scan, (x, y) => InArea(x, y, Flip(r.area, height))).value;
    var out := filtered + KeyBlock(r, page, height, show);
    assert out[|out| - |KeyBlock(r, page, height, show)|..] == KeyBlock(r, page, height, show);
  }

  // ---------------------------------------------------------------------------
  // A later area of the same page against an earlier key
  // ---------------------------------------------------------------------------

  /** The key line `    [(key)] TJ` is a bracketed text-showing array. */
  lemma KeyLineShowsText(key: string)
    requires ')' !in key && ']' !in key
    ensures HasBracketShow("    [(" + key + ")] TJ")
  {
    var s := "    [(" + key + ")] TJ";
    var q := 6 + |key|;
    assert s[4] == '[' && s[5] == '(' && s[q] == ')' && s[q + 1] == ']';
    assert forall k | 6 <= k < q :: s[k] == key[k - 6];
    assert FindChar(s, ')', 6) == Some(q);
    assert FindChar(s, ']', q + 1) == Some(q + 1);
    assert s[q + 2] == ' ' && s[q + 3] == 'T' && s[q + 4] == 'J';
    assert BracketShowAt(s, 4);
  }

  /** A line whose only operator is `1 0 0 1 x y Tm` moves the position to (x, y). */
  lemma TmLineStep(pos: Pos, line: string, scan: Scanner, hit: (real, real) -> bool,
                   x: string, y: string, px: real, py: real)
    requires scan(line) == NoOperators.(tm := Some(Six("1", "0", "0", "1", x, y)))
    requires ParseFloat(x) == Some(px) && ParseFloat(y) == Some(py)
    ensures Step(pos, line, scan, hit).Some? && Step(pos, line, scan, hit).value.pos == Pos(px, py)
  {
    assert ParseFloat("1") == Some(1.0) by { assert DigitRun("1", 0) == 1; }
    assert ParseFloat("0") == Some(0.0) by { assert DigitRun("0", 0) == 1; }
  }

  /** A line with no position operator keeps the position; a text-showing
      one is dropped exactly when that position is hit. */
  lemma QuietLineStep(pos: Pos, line: string, scan: Scanner, hit: (real, real) -> bool)
    requires scan(line) == NoOperators
    ensures Step(pos, line, scan, hit).Some? && Step(pos, line, scan, hit).value.pos == pos
    ensures HasBracketShow(line) ==> Step(pos, line, scan, hit).value.drop == hit(pos.x, pos.y)
  {
  }

  /** Areas of a page are applied one after another to the same text, so the
      key written for an earlier table is itself filtered by the later areas:
      when the scanner reads the key block's `Tm` line as its six operands and
      finds no operator on the colour and key lines, the key line is dropped
      exactly when the later area contains the earlier key's point. */
  lemma KeyLineAgainstLaterArea(lines: seq<string>, j: nat, scan: Scanner, hit: (real, real) -> bool,
                                x: string, y: string, key: string, px: real, py: real)
    requires j + 2 < |lines|
    requires lines[j + 2] == "    [(" + key + ")] TJ"
    requires ')' !in key && ']' !in key
    requires scan(lines[j]) == NoOperators.(tm := Some(Six("1", "0", "0", "1", x, y)))
    requires scan(lines[j + 1]) == NoOperators && scan(lines[j + 2]) == NoOperators
    requires ParseFloat(x) == Some(px) && ParseFloat(y) == Some(py)
    requires Trace(lines, scan, hit).Some?
    ensures Trace(lines, scan, hit).value[j + 2].drop == hit(px, py)
  {
    TraceSteps(lines, scan, hit);
    var rs := Trace(lines, scan, hit).value;
    TmLineStep(LastPos(rs[..j]), lines[j], scan, hit, x, y, px, py);
    assert rs[j].pos == Pos(px, py);
    assert LastPos(rs[..j + 1]) == rs[j].pos;
    QuietLineStep(rs[j].pos, lines[j + 1], scan, hit);
    assert LastPos(rs[..j + 2]) == rs[j + 1].pos;
    KeyLineShowsText(key);
    QuietLineStep(rs[j + 1].pos, lines[j + 2], scan, hit);
  }
}
