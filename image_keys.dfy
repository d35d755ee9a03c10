/** Removal of image invocations and insertion of image keys
    (EliminarYEscribirImagenes.py). Every line of a content stream that
    invokes an XObject with `Do` is preceded by a comment naming it, loses
    its `/Name Do` tokens and gets a text object showing
    `(Llave_Unica_Imagen_<page>_<n>)` at the position the last `cm` set;
    page index 1 is left alone. */
module ImageKeys {
  import opened Common
  import opened StreamLines
  import opened Pages
  import TableKeys

  /** The running position of the image pass: the integer origin it starts
      from, or the translation of the last `cm`. */
  datatype Cursor = Origin | At(p: Pos)

  /** How the source formats the position: the initial integers print as
      `0`, a float through `show`. */
  function CoordText(c: Cursor, show: real -> string): (string, string) {
    match c
    case Origin => ("0", "0")
    case At(p) => (show(p.x), show(p.y))
  }

  /** The key text of the `n`-th image removed from page `page` (0-based). */
  function ImageKeyText(page: nat, n: nat): string {
    "(Llave_Unica_Imagen_" + NatToString(page + 1) + "_" + NatToString(n) + ")"
  }

  function ImageKeyBlock(c: Cursor, page: nat, n: nat, show: real -> string): string {
    var (x, y) := CoordText(c, show);
    TableKeys.TextBlock(TableKeys.DefaultFont, TableKeys.DefaultSize, x, y, TableKeys.DefaultColor, ImageKeyText(page, n))
  }

  /** The page whose images are never touched. */
  const SparedPage := 1

  /** The state after some lines of a stream: the chunks emitted, the page's
      image counter, the cursor, and whether a conversion raised (which
      abandons the stream but keeps the counter). */
  datatype Run = Run(chunks: seq<string>, count: nat, cur: Cursor, failed: bool)

  /** One line: `cm` moves the cursor, then a `Do` line off the spared page
      becomes a comment and the stripped line with its key block appended. */
  function LineStep(st: Run, line: string, page: nat, scan: Scanner, show: real -> string): Run {
    if st.failed then st
    else
      var m := scan(line).cm;
      if m.Some? && SixTranslation(m.value).None? then st.(failed := true)
      else
        var cur := if m.Some? then At(SixTranslation(m.value).value) else st.cur;
        if HasDo(line) && page != SparedPage then
          var n := st.count + 1;
          Run(st.chunks + ["% Imagen eliminada: " + DoName(line), StripDo(line) + ImageKeyBlock(cur, page, n, show)], n, cur, false)
        else
          Run(st.chunks + [line], st.count, cur, false)
  }

  /** The lines of one stream from a given counter. */
  function RunLines(lines: seq<string>, count: nat, page: nat, scan: Scanner, show: real -> string): Run
    decreases |lines|
  {
    if |lines| == 0 then Run([], count, Origin, false)
    else LineStep(RunLines(lines[..|lines| - 1], count, page, scan, show), lines[|lines| - 1], page, scan, show)
  }

  /** How many lines invoke an XObject. */
  function DoLines(lines: seq<string>): nat
    decreases |lines|
  {
    if |lines| == 0 then 0 else DoLines(lines[..|lines| - 1]) + (if HasDo(lines[|lines| - 1]) then 1 else 0)
  }

  /** A stream that goes through emits one chunk per line plus one comment
      per handled `Do` line, and the counter rises by the number of handled
      lines: every `Do` line off the spared page, none on it. */
  lemma {:induction false} RunCounts(lines: seq<string>, count: nat, page: nat, scan: Scanner, show: real -> string)
    ensures var r := RunLines(lines, count, page, scan, show);
      !r.failed ==>
        r.count == count + (if page == SparedPage then 0 else DoLines(lines))
        && |r.chunks| == |lines| + (r.count - count)
    ensures RunLines(lines, count, page, scan, show).count >= count
    decreases |lines|
  {
    if |lines| > 0 {
      RunCounts(lines[..|lines| - 1], count, page, scan, show);
    }
  }

  /** On the spared page a stream that goes through is emitted line for line. */
  lemma {:induction false} SparedPageVerbatim(lines: seq<string>, count: nat, scan: Scanner, show: real -> string)
    ensures var r := RunLines(lines, count, SparedPage, scan, show);
      !r.failed ==> r.chunks == lines && r.count == count
    decreases |lines|
  {
    if |lines| > 0 {
      SparedPageVerbatim(lines[..|lines| - 1], count, scan, show);
      assert lines[..|lines| - 1] + [lines[|lines| - 1]] == lines;
    }
  }

  /** The keys of a stream that goes through are numbered on from the
      counter: the `k`-th handled `Do` line carries the key `count + k`. */
  lemma KeyNumbers(st: Run, line: string, page: nat, scan: Scanner, show: real -> string)
    requires !LineStep(st, line, page, scan, show).failed
    requires HasDo(line) && page != SparedPage
    ensures var r := LineStep(st, line, page, scan, show);
      r.count == st.count + 1
      && r.chunks[|r.chunks| - 2] == "% Imagen eliminada: " + DoName(line)
      && r.chunks[|r.chunks| - 1] == StripDo(line) + ImageKeyBlock(r.cur, page, st.count + 1, show)
  {
  }

  // ---------------------------------------------------------------------------
  // The pass as the source runs it
  // ---------------------------------------------------------------------------

  /** The loop over one stream's lines. */
  method ProcessLines(lines: seq<string>, count: nat, page: nat, scan: Scanner, show: real -> string)
    returns (chunks: seq<string>, newCount: nat, failed: bool)
    ensures var r := RunLines(lines, count, page, scan, show);
      chunks == r.chunks && newCount == r.count && failed == r.failed
  {
    chunks, newCount, failed := [], count, false;
    var cur := Origin;
    var i := 0;
    while i < |lines| && !failed
      invariant 0 <= i <= |lines|
      invariant RunLines(lines[..i], count, page, scan, show) == Run(chunks, newCount, cur, failed)
      invariant failed ==> RunLines(lines, count, page, scan, show) == Run(chunks, newCount, cur, failed)
    {
      assert lines[..i + 1][..i] == lines[..i];
      chunks, newCount, cur, failed := ProcessLine(chunks, newCount, cur, lines[i], page, scan, show);
      if failed {
        FailedStays(lines, i + 1, count, page, scan, show);
      }
      i := i + 1;
    }
    if !failed {
      assert lines[..i] == lines;
    }
  }

  /** The body of the loop for one line. */
  method ProcessLine(chunks: seq<string>, count: nat, cur: Cursor, line: string, page: nat, scan: Scanner, show: real -> string)
    returns (chunks': seq<string>, count': nat, cur': Cursor, failed: bool)
    ensures Run(chunks', count', cur', failed) == LineStep(Run(chunks, count, cur, false), line, page, scan, show)
  {
    var m := scan(line).cm;
    if m.Some? && SixTranslation(m.value).None? {
      chunks', count', cur', failed := chunks, count, cur, true;
      return;
    }
    cur' := if m.Some? then At(SixTranslation(m.value).value) else cur;
    failed := false;
    if HasDo(line) && page != SparedPage {
      count' := count + 1;
      var key := ImageKeyBlock(cur', page, count', show);
      chunks' := chunks + ["% Imagen eliminada: " + DoName(line), StripDo(line) + key];
    } else {
      count' := count;
      chunks' := chunks + [line];
    }
  }

  lemma FailedStays(lines: seq<string>, i: nat, count: nat, page: nat, scan: Scanner, show: real -> string)
    requires i <= |lines|
    requires RunLines(lines[..i], count, page, scan, show).failed
    ensures RunLines(lines, count, page, scan, show) == RunLines(lines[..i], count, page, scan, show)
    decreases |lines| - i
  {
    if i < |lines| {
      assert lines[..i + 1][..i] == lines[..i];
      FailedStays(lines, i + 1, count, page, scan, show);
    } else {
      assert lines[..i] == lines;
    }
  }

  /** One entry: a decodable stream is rewritten as the join of its chunks
      unless a conversion raised; the counter goes on either way. */
  function EntryStep(e: Entry, count: nat, page: nat, scan: Scanner, show: real -> string): (Entry, nat) {
    match e
    case OtherObject => (e, count)
    case ContentStream(None) => (e, count)
    case ContentStream(Some(data)) =>
      var r := RunLines(Split(data, '\n'), count, page, scan, show);
      if r.failed then (e, r.count) else (ContentStream(Some(Join(r.chunks, "\n"))), r.count)
  }

  /** The entries of a page after the pass, threading the page's counter. */
  function MarkEntries(es: seq<Entry>, page: nat, scan: Scanner, show: real -> string): (r: (seq<Entry>, nat))
    ensures |r.0| == |es|
    decreases |es|
  {
    if |es| == 0 then ([], 0)
    else
      var (prev, count) := MarkEntries(es[..|es| - 1], page, scan, show);
      var (e, count') := EntryStep(es[|es| - 1], count, page, scan, show);
      (prev + [e], count')
  }

  function MarkPage(pg: Page, page: nat, scan: Scanner, show: real -> string): Page {
    pg.(entries := MarkEntries(pg.entries, page, scan, show).0)
  }

  /** The body of the entry loop: a decodable stream goes through the line
      pass and is replaced by the join of its chunks unless a conversion raised. */
  method ProcessEntry(entry: Entry, count: nat, page: nat, scan: Scanner, show: real -> string)
    returns (res: Entry, newCount: nat)
    ensures (res, newCount) == EntryStep(entry, count, page, scan, show)
  {
    res, newCount := entry, count;
    if entry.ContentStream? && entry.data.Some? {
      var chunks, c, failed := ProcessLines(Split(entry.data.value, '\n'), count, page, scan, show);
      if !failed {
        res := ContentStream(Some(Join(chunks, "\n")));
      }
      newCount := c;
    }
  }

  /** The loop over one page's entries, with `img_count` starting at 0. */
  method ProcessPage(pg: Page, page: nat, scan: Scanner, show: real -> string) returns (res: Page)
    ensures res == MarkPage(pg, page, scan, show)
  {
    var entries := pg.entries;
    var count := 0;
    for e := 0 to |entries|
      invariant |entries| == |pg.entries|
      invariant (entries[..e], count) == MarkEntries(pg.entries[..e], page, scan, show)
      invariant entries[e..] == pg.entries[e..]
    {
      assert pg.entries[..e + 1][..e] == pg.entries[..e];
      assert entries[e] == pg.entries[e];
      var entry, newCount := ProcessEntry(entries[e], count, page, scan, show);
      ghost var before := entries;
      entries := entries[e := entry];
      count := newCount;
      assert entries[..e] == before[..e];
      assert entries[..e + 1] == entries[..e] + [entry];
    }
    assert entries[..|entries|] == entries && pg.entries[..|pg.entries|] == pg.entries;
    res := pg.(entries := entries);
  }

  /** `eliminar_imagenes_y_agregar_llaves`: every page, in order, after the pass. */
  method RemoveImages(pages: seq<Page>, scan: Scanner, show: real -> string) returns (out: seq<Page>)
    ensures |out| == |pages|
    ensures forall p | 0 <= p < |pages| :: out[p] == MarkPage(pages[p], p, scan, show)
  {
    out := [];
    for p := 0 to |pages|
      invariant |out| == p
      invariant forall q | 0 <= q < p :: out[q] == MarkPage(pages[q], q, scan, show)
    {
      var page := ProcessPage(pages[p], p, scan, show);
      out := out + [page];
    }
  }

  /** The spared page keeps the text of every stream: each is rewritten to
      the join of its own split, which is the text itself. */
  lemma {:induction false} SparedPageUnchanged(es: seq<Entry>, scan: Scanner, show: real -> string)
    ensures MarkEntries(es, SparedPage, scan, show).0 == es
    decreases |es|
  {
    if |es| > 0 {
      var n := |es| - 1;
      SparedPageUnchanged(es[..n], scan, show);
      var count := MarkEntries(es[..n], SparedPage, scan, show).1;
      if es[n].ContentStream? && es[n].data.Some? {
        var data := es[n].data.value;
        SparedPageVerbatim(Split(data, '\n'), count, scan, show);
        JoinSplit(data, '\n');
      }
      assert es[..n] + [es[n]] == es;
    }
  }
}
