/** The HTML serialisation of a table structure (`generar_html_tabla` in
    RenderizarTablaHTML.py) and the name of the file it is saved under
    (`guardar_tabla`). */
module HtmlTable {
  import opened Common
  import opened TableStructure

  /** Only cells with a positive rowspan and colspan get a `<td>`. */
  predicate Shown(x: TCell) {
    x.rowspan > 0 && x.colspan > 0
  }

  /** The `<td>` of a cell; the content is copied verbatim, unescaped. */
  function Td(x: TCell): string {
    "    <td rowspan='" + NatToString(x.rowspan) + "' colspan='" + NatToString(x.colspan)
    + "' style='white-space: pre-line;'>" + x.content + "</td>\n"
  }

  /** The concatenation of the pieces the serialiser appends. */
  function Concat(parts: seq<string>): string {
    if |parts| == 0 then "" else Concat(parts[..|parts| - 1]) + parts[|parts| - 1]
  }

  /** The pieces the inner loop appends for the cells of a row. */
  function CellPieces(row: seq<TCell>): seq<string> {
    if |row| == 0 then []
    else CellPieces(row[..|row| - 1]) + (if Shown(row[|row| - 1]) then [Td(row[|row| - 1])] else [])
  }

  /** The pieces the outer loop appends for the rows. */
  function RowPieces(t: seq<seq<TCell>>): seq<string> {
    if |t| == 0 then []
    else RowPieces(t[..|t| - 1]) + [TrOpen] + CellPieces(t[|t| - 1]) + [TrClose]
  }

  const HtmlOpen := "<html><body>"
  const TableOpen := "<table" + " border='1' style='border-collapse: collapse; text-align: center; width: 100%;'>\n"
  const TrOpen := "  <tr>\n"
  const TrClose := "  </tr>\n"
  const TableClose := "</table>"
  const HtmlClose := "</body></html>"
  const Head := [HtmlOpen, TableOpen]
  const Tail := [TableClose, HtmlClose]

  function Pieces(t: seq<seq<TCell>>): seq<string> {
    Head + RowPieces(t) + Tail
  }

  /** The document `generar_html_tabla` returns. */
  function TableHtml(t: seq<seq<TCell>>): string {
    Concat(Pieces(t))
  }

  lemma ConcatSnoc(parts: seq<string>, p: string)
    ensures Concat(parts + [p]) == Concat(parts) + p
  {
    assert (parts + [p])[..|parts|] == parts;
  }

  /** The inner loop of `generar_html_tabla` over the cells of one row. */
  method AppendCells(html: string, row: seq<TCell>, ghost parts: seq<string>)
    returns (html': string, ghost parts': seq<string>)
    requires html == Concat(parts)
    ensures html' == Concat(parts') && parts' == parts + CellPieces(row)
  {
    html', parts' := html, parts;
    for j := 0 to |row|
      invariant html' == Concat(parts') && parts' == parts + CellPieces(row[..j])
    {
      var celda := row[j];
      assert row[..j + 1][..j] == row[..j];
      if celda.rowspan > 0 && celda.colspan > 0 {
        ConcatSnoc(parts', Td(celda));
        html', parts' := html' + Td(celda), parts' + [Td(celda)];
      }
    }
    assert row[..|row|] == row;
  }

  /** `generar_html_tabla`. */
  method GenerateHtml(t: seq<seq<TCell>>) returns (html: string)
    ensures html == TableHtml(t)
  {
    ghost var parts: seq<string> := [];
    html := "";
    ConcatSnoc(parts, HtmlOpen);
    html, parts := html + HtmlOpen, parts + [HtmlOpen];
    ConcatSnoc(parts, TableOpen);
    html, parts := html + TableOpen, parts + [TableOpen];
    assert parts == Head + RowPieces(t[..0]);
    for i := 0 to |t|
      invariant html == Concat(parts) && parts == Head + RowPieces(t[..i])
    {
      ConcatSnoc(parts, TrOpen);
      html, parts := html + TrOpen, parts + [TrOpen];
      html, parts := AppendCells(html, t[i], parts);
      ConcatSnoc(parts, TrClose);
      html, parts := html + TrClose, parts + [TrClose];
      assert t[..i + 1][..i] == t[..i];
    }
    assert t[..|t|] == t;
    ConcatSnoc(parts, TableClose);
    html, parts := html + TableClose, parts + [TableClose];
    ConcatSnoc(parts, HtmlClose);
    html, parts := html + HtmlClose, parts + [HtmlClose];
    assert parts == Pieces(t);
  }

  // ---------------------------------------------------------------------------
  // A reference reading: filter the shown cells, then print them
  // ---------------------------------------------------------------------------

  /** The shown cells of a row, in order. */
  function ShownCells(row: seq<TCell>): (r: seq<TCell>)
    ensures |r| <= |row|
    ensures forall x :: x in r <==> x in row && Shown(x)
  {
    if |row| == 0 then []
    else ShownCells(row[..|row| - 1]) + (if Shown(row[|row| - 1]) then [row[|row| - 1]] else [])
  }

  /** The `<tr>` block of a row. */
  function Block(row: seq<TCell>): seq<string> {
    [TrOpen] + seq(|ShownCells(row)|, k requires 0 <= k < |ShownCells(row)| => Td(ShownCells(row)[k])) + [TrClose]
  }

  function Blocks(t: seq<seq<TCell>>): seq<string> {
    if |t| == 0 then [] else Block(t[0]) + Blocks(t[1..])
  }

  /** A row prints exactly the `<td>` of each shown cell, in order. */
  lemma {:induction false} CellPiecesShown(row: seq<TCell>)
    ensures CellPieces(row) == seq(|ShownCells(row)|, k requires 0 <= k < |ShownCells(row)| => Td(ShownCells(row)[k]))
  {
    if |row| > 0 {
      CellPiecesShown(row[..|row| - 1]);
    }
  }

  lemma {:induction false} BlocksAppend(t: seq<seq<TCell>>, row: seq<TCell>)
    ensures Blocks(t + [row]) == Blocks(t) + Block(row)
  {
    if |t| > 0 {
      assert (t + [row])[1..] == t[1..] + [row];
      BlocksAppend(t[1..], row);
    } else {
      assert (t + [row])[1..] == [];
    }
  }

  /** One `<tr>` block per row, in row order, each listing the `<td>` of
      the row's shown cells. */
  lemma {:induction false} RowPiecesBlocks(t: seq<seq<TCell>>)
    ensures RowPieces(t) == Blocks(t)
  {
    if |t| > 0 {
      var init := t[..|t| - 1];
      assert t == init + [t[|t| - 1]];
      RowPiecesBlocks(init);
      CellPiecesShown(t[|t| - 1]);
      BlocksAppend(init, t[|t| - 1]);
    }
  }

  /** The number of cells that get a `<td>`. */
  function ShownCount(t: seq<seq<TCell>>): nat {
    if |t| == 0 then 0 else ShownCount(t[..|t| - 1]) + |ShownCells(t[|t| - 1])|
  }

  /** The document is the head, two pieces per row and one `<td>` per shown
      cell, and the tail. */
  lemma {:induction false} PiecesCount(t: seq<seq<TCell>>)
    ensures |RowPieces(t)| == 2 * |t| + ShownCount(t)
  {
    if |t| > 0 {
      PiecesCount(t[..|t| - 1]);
      CellPiecesShown(t[|t| - 1]);
    }
  }

  lemma StartsWithTrans(s: string, h: string, p: string)
    requires StartsWith(s, h) && StartsWith(h, p)
    ensures StartsWith(s, p)
  {
    assert s[..|p|] == s[..|h|][..|p|];
  }

  lemma HeadText()
    ensures StartsWith(Concat(Head), "<html><body><table")
  {
    assert Head[..1] == [HtmlOpen] && Head[..1][..0] == [];
    assert Concat(Head[..1]) == "" + HtmlOpen;
    assert Concat(Head) == Concat(Head[..1]) + TableOpen;
    var s := HtmlOpen + TableOpen;
    assert |HtmlOpen| == 12;
    assert TableOpen[..6] == "<table";
    assert s[..18] == HtmlOpen + "<table";
  }

  lemma TailText(s: string)
    ensures EndsWith(s + TableClose + HtmlClose, "</table></body></html>")
  {
  }

  /** The document opens with the table and closes it. */
  lemma TableHtmlFrame(t: seq<seq<TCell>>)
    ensures StartsWith(TableHtml(t), "<html><body><table")
    ensures EndsWith(TableHtml(t), "</table></body></html>")
  {
    var mid := Head + RowPieces(t);
    assert Pieces(t) == Head + (RowPieces(t) + Tail);
    ConcatPrefix(Head, RowPieces(t) + Tail);
    HeadText();
    StartsWithTrans(TableHtml(t), Concat(Head), "<html><body><table");
    assert Pieces(t) == mid + [TableClose] + [HtmlClose];
    ConcatSnoc(mid + [TableClose], HtmlClose);
    ConcatSnoc(mid, TableClose);
    TailText(Concat(mid));
  }

  /** A concatenation starts with the concatenation of any prefix of its
      pieces. */
  lemma {:induction false} ConcatPrefix(a: seq<string>, b: seq<string>)
    ensures StartsWith(Concat(a + b), Concat(a))
  {
    if |b| > 0 {
      var init := b[..|b| - 1];
      assert (a + b)[..|a + b| - 1] == a + init;
      ConcatPrefix(a, init);
    } else {
      assert a + b == a;
    }
  }

  /** A row with no shown cell prints an empty `<tr>` block. */
  lemma EmptyRow(row: seq<TCell>)
    requires forall k | 0 <= k < |row| :: !Shown(row[k])
    ensures Block(row) == [TrOpen, TrClose]
  {
    if |ShownCells(row)| > 0 {
      assert ShownCells(row)[0] in ShownCells(row);
      assert false;
    }
  }

  // ---------------------------------------------------------------------------
  // guardar_tabla
  // ---------------------------------------------------------------------------

  function LastOf(parts: seq<string>): string
    requires |parts| >= 1
  {
    parts[|parts| - 1]
  }

  /** `tabla_actual.split("\\")[-1].split(".")[0] + ".html"`. */
  function HtmlFileName(name: string): (r: string)
    ensures EndsWith(r, ".html")
    ensures '\\' !in r[..|r| - 5] && '.' !in r[..|r| - 5]
  {
    var stem := Split(LastOf(Split(name, '\\')), '.')[0];
    assert '\\' !in stem by {
      if '\\' in stem {
        var k :| 0 <= k < |stem| && stem[k] == '\\';
        SplitPieceChars(LastOf(Split(name, '\\')), '.', 0, k);
      }
    }
    var r := stem + ".html";
    assert r[..|r| - 5] == stem;
    r
  }

  /** The characters of a piece of a split come from the string split. */
  lemma {:induction false} SplitPieceChars(s: string, sep: char, p: nat, k: nat)
    requires p < |Split(s, sep)| && k < |Split(s, sep)[p]|
    ensures Split(s, sep)[p][k] in s
    decreases |s|
  {
    match FindChar(s, sep, 0)
    case None =>
    case Some(i) =>
      if p > 0 {
        SplitPieceChars(s[i + 1..], sep, p - 1, k);
      }
  }

  /** A name `dir\stem.ext` whose stem has no dot and no backslash saves as
      `stem.html`, whatever the directory part and the extension. */
  lemma HtmlFileNameOf(dir: string, stem: string, ext: string)
    requires '\\' !in stem && '.' !in stem && '\\' !in ext
    ensures HtmlFileName(dir + "\\" + stem + "." + ext) == stem + ".html"
  {
    var name := dir + "\\" + stem + "." + ext;
    var base := stem + "." + ext;
    LastPieceAfter(dir, base, '\\');
    assert name == dir + ['\\'] + base;
    assert FindChar(base, '.', 0) == Some(|stem|) by {
      assert base[|stem|] == '.';
      FindCharFirst(base, '.', |stem|);
    }
    assert base[..|stem|] == stem;
  }

  /** `FindChar` from 0 finds the first occurrence. */
  lemma FindCharFirst(s: string, c: char, i: nat)
    requires i < |s| && s[i] == c && forall k | 0 <= k < i :: s[k] != c
    ensures FindChar(s, c, 0) == Some(i)
  {
    match FindChar(s, c, 0)
    case None =>
    case Some(j) =>
  }

  /** A separator at `i` is found at or before `i`. */
  lemma FindCharSome(s: string, c: char, i: nat)
    requires i < |s| && s[i] == c
    ensures FindChar(s, c, 0).Some? && FindChar(s, c, 0).value <= i
  {
  }

  /** The last piece of `a + [sep] + b` is the last piece of `b` when `b` has no
      separator. */
  lemma {:induction false} LastPieceAfter(a: string, b: string, sep: char)
    requires sep !in b
    ensures LastOf(Split(a + [sep] + b, sep)) == b
    decreases |a|
  {
    var s := a + [sep] + b;
    FindCharSome(s, sep, |a|);
    var i := FindChar(s, sep, 0).value;
    if i < |a| {
      assert s[i + 1..] == a[i + 1..] + [sep] + b;
      LastPieceAfter(a[i + 1..], b, sep);
    } else {
      assert s[i + 1..] == b;
      assert FindChar(b, sep, 0) == None;
    }
  }
}
