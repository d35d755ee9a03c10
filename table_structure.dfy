/** The table structure of `generar_estructura_tabla`
    (ExtraerEstructuraDeTabla.py): every grid cell whose origin is close to
    a detected cell becomes an anchor that spans to the right and downwards
    over the grid cells that match no detected cell; the other cells of its
    rectangle are marked as covered. The flag `guarded` selects between the
    loops as written (`false`), which grow spans over cells an earlier anchor
    already covers, and the corrected loops (`true`), which stop there. */
module TableStructure {
  import opened Common
  import opened Grid

  /** One cell of the table: `id_celda` and `centro` exist only on cells an
      anchor wrote. */
  datatype TCell = TCell(id: Option<int>, content: string, rowspan: nat, colspan: nat, center: Option<(real, real)>)

  /** The initial value of every cell. */
  const Blank := TCell(None, "", 1, 1, None)

  /** The inputs of the builder: the grid, the detected cells, the table
      dimensions and the matching thresholds. */
  datatype Layout = Layout(grid: seq<seq<GridCell>>, cells: seq<CellBox>, rows: nat, cols: nat, tx: real, ty: real)

  /** The grid has the table's dimensions (the builder indexes it so). */
  predicate Shaped(L: Layout) {
    |L.grid| == L.rows && forall i | 0 <= i < L.rows :: |L.grid[i]| == L.cols
  }

  predicate TableShaped(t: seq<seq<TCell>>, rows: nat, cols: nat) {
    |t| == rows && forall i | 0 <= i < rows :: |t[i]| == cols
  }

  // ---------------------------------------------------------------------------
  // Matching grid cells with detected cells
  // ---------------------------------------------------------------------------

  predicate Near(c: CellBox, x: int, y: int, tx: real, ty: real) {
    Abs((x - c.x) as real) <= tx && Abs((y - c.y) as real) <= ty
  }

  /** `esta_dentro_de_celdas_originales`: the id of the first detected cell
      close to `(x, y)`. */
  function MatchAt(cells: seq<CellBox>, x: int, y: int, tx: real, ty: real): (r: Option<int>)
    ensures r.Some? ==> |cells| > 0
  {
    if |cells| == 0 then None
    else if Near(cells[0], x, y, tx, ty) then Some(cells[0].id)
    else MatchAt(cells[1..], x, y, tx, ty)
  }

  /** The match is the id of the first detected cell within both
      thresholds, and there is none exactly when no cell is within them. */
  lemma {:induction false} MatchFirst(cells: seq<CellBox>, x: int, y: int, tx: real, ty: real)
    ensures var r := MatchAt(cells, x, y, tx, ty);
      (r.None? <==> forall k | 0 <= k < |cells| :: !Near(cells[k], x, y, tx, ty))
      && (r.Some? ==> exists k | 0 <= k < |cells| ::
            Near(cells[k], x, y, tx, ty) && cells[k].id == r.value
            && forall l | 0 <= l < k :: !Near(cells[l], x, y, tx, ty))
  {
    if |cells| > 0 && !Near(cells[0], x, y, tx, ty) {
      MatchFirst(cells[1..], x, y, tx, ty);
      assert forall k | 1 <= k < |cells| :: cells[k] == cells[1..][k - 1];
      if MatchAt(cells, x, y, tx, ty).Some? {
        var k :| 0 <= k < |cells[1..]| && Near(cells[1..][k], x, y, tx, ty) && cells[1..][k].id == MatchAt(cells, x, y, tx, ty).value
          && forall l | 0 <= l < k :: !Near(cells[1..][l], x, y, tx, ty);
        assert Near(cells[k + 1], x, y, tx, ty);
      }
    }
  }

  function Match(L: Layout, i: nat, j: nat): Option<int>
    requires Shaped(L) && i < L.rows && j < L.cols
  {
    MatchAt(L.cells, L.grid[i][j].x, L.grid[i][j].y, L.tx, L.ty)
  }

  /** The span loops stop at a grid cell whose match is truthy in Python
      (an id other than 0) and, when guarded, at a cell already taken. */
  predicate Stops(L: Layout, taken: set<(int, int)>, i: nat, j: nat, guarded: bool)
    requires Shaped(L) && i < L.rows && j < L.cols
  {
    var m := Match(L, i, j);
    (m.Some? && m.value != 0) || (guarded && (i, j) in taken)
  }

  // ---------------------------------------------------------------------------
  // Spans
  // ---------------------------------------------------------------------------

  /** The colspan loop from `colspan == k`. */
  function ColSpanFrom(L: Layout, taken: set<(int, int)>, f: nat, c: nat, k: nat, guarded: bool): (r: nat)
    requires Shaped(L) && f < L.rows && 1 <= k && c + k <= L.cols
    ensures k <= r && c + r <= L.cols
    decreases L.cols - c - k
  {
    if c + k == L.cols || Stops(L, taken, f, c + k, guarded) then k
    else ColSpanFrom(L, taken, f, c, k + 1, guarded)
  }

  /** The rowspan loop from `rowspan == k`, in the anchor's column only. */
  function RowSpanFrom(L: Layout, taken: set<(int, int)>, f: nat, c: nat, k: nat, guarded: bool): (r: nat)
    requires Shaped(L) && c < L.cols && 1 <= k && f + k <= L.rows
    ensures k <= r && f + r <= L.rows
    decreases L.rows - f - k
  {
    if f + k == L.rows || Stops(L, taken, f + k, c, guarded) then k
    else RowSpanFrom(L, taken, f, c, k + 1, guarded)
  }

  /** The colspan loop passes only cells where it does not stop, and stops
      at the table's edge or at a cell where it stops. */
  lemma {:induction false} ColSpanStops(L: Layout, taken: set<(int, int)>, f: nat, c: nat, k: nat, guarded: bool)
    requires Shaped(L) && f < L.rows && 1 <= k && c + k <= L.cols
    ensures var r := ColSpanFrom(L, taken, f, c, k, guarded);
      (forall j | c + k <= j < c + r :: !Stops(L, taken, f, j, guarded))
      && (c + r < L.cols ==> Stops(L, taken, f, c + r, guarded))
    decreases L.cols - c - k
  {
    if !(c + k == L.cols || Stops(L, taken, f, c + k, guarded)) {
      ColSpanStops(L, taken, f, c, k + 1, guarded);
    }
  }

  /** The rowspan loop passes only cells where it does not stop, and stops
      at the table's edge or at a cell where it stops. */
  lemma {:induction false} RowSpanStops(L: Layout, taken: set<(int, int)>, f: nat, c: nat, k: nat, guarded: bool)
    requires Shaped(L) && c < L.cols && 1 <= k && f + k <= L.rows
    ensures var r := RowSpanFrom(L, taken, f, c, k, guarded);
      (forall i | f + k <= i < f + r :: !Stops(L, taken, i, c, guarded))
      && (f + r < L.rows ==> Stops(L, taken, f + r, c, guarded))
    decreases L.rows - f - k
  {
    if !(f + k == L.rows || Stops(L, taken, f + k, c, guarded)) {
      RowSpanStops(L, taken, f, c, k + 1, guarded);
    }
  }

  function ColSpan(L: Layout, taken: set<(int, int)>, f: nat, c: nat, guarded: bool): nat
    requires Shaped(L) && f < L.rows && c < L.cols
  {
    ColSpanFrom(L, taken, f, c, 1, guarded)
  }

  function RowSpan(L: Layout, taken: set<(int, int)>, f: nat, c: nat, guarded: bool): nat
    requires Shaped(L) && f < L.rows && c < L.cols
  {
    RowSpanFrom(L, taken, f, c, 1, guarded)
  }

  // ---------------------------------------------------------------------------
  // One visit and the whole pass
  // ---------------------------------------------------------------------------

  predicate InRect(i: int, j: int, f: int, c: int, rs: int, cs: int) {
    f <= i < f + rs && c <= j < c + cs
  }

  function Rect(f: nat, c: nat, rs: nat, cs: nat): (r: set<(int, int)>)
    ensures forall i, j :: (i, j) in r <==> InRect(i, j, f, c, rs, cs)
  {
    set i, j | f <= i < f + rs && c <= j < c + cs :: (i, j)
  }

  /** Row `i` of the table after writing `anchor` at `(f, c)` and `covered`
      at the rest of the rectangle. */
  function PaintRow(row: seq<TCell>, i: int, f: nat, c: nat, rs: nat, cs: nat, anchor: TCell, covered: TCell): (r: seq<TCell>)
    ensures |r| == |row|
  {
    seq(|row|, j requires 0 <= j < |row| =>
      if i == f && j == c then anchor
      else if InRect(i, j, f, c, rs, cs) then covered
      else row[j])
  }

  /** The table after writing `anchor` at `(f, c)` and `covered` at the rest
      of the rectangle. */
  function Paint(t: seq<seq<TCell>>, f: nat, c: nat, rs: nat, cs: nat, anchor: TCell, covered: TCell): (r: seq<seq<TCell>>)
    ensures |r| == |t| && forall i | 0 <= i < |t| :: |r[i]| == |t[i]|
  {
    seq(|t|, i requires 0 <= i < |t| => PaintRow(t[i], i, f, c, rs, cs, anchor, covered))
  }

  /** `f"Celda ({fila},{columna})"`. */
  function Label(f: nat, c: nat): string {
    "Celda (" + NatToString(f) + "," + NatToString(c) + ")"
  }

  /** `(x + w * colspan / 2, y + h * rowspan / 2)` of the anchor's grid cell. */
  function Center(g: GridCell, rs: nat, cs: nat): (real, real) {
    (g.x as real + (g.w * cs) as real / 2.0, g.y as real + (g.h * rs) as real / 2.0)
  }

  datatype State = State(table: seq<seq<TCell>>, taken: set<(int, int)>)

  /** The visit of grid position `(f, c)`. */
  function Step(L: Layout, st: State, f: nat, c: nat, guarded: bool): (r: State)
    requires Shaped(L) && f < L.rows && c < L.cols
    requires TableShaped(st.table, L.rows, L.cols)
    ensures TableShaped(r.table, L.rows, L.cols)
  {
    if (f, c) in st.taken then st
    else
      var m := Match(L, f, c);
      if m.None? then st
      else
        var cs := ColSpan(L, st.taken, f, c, guarded);
        var rs := RowSpan(L, st.taken + (Rect(f, c, 1, cs) - {(f, c)}), f, c, guarded);
        var center := Center(L.grid[f][c], rs, cs);
        State(Paint(st.table, f, c, rs, cs, TCell(m, Label(f, c), rs, cs, Some(center)), TCell(m, "", 0, 0, Some(center))),
              st.taken + (Rect(f, c, rs, cs) - {(f, c)}))
  }

  /** The visits of row `f` up to column `c`. */
  function RowPass(L: Layout, st: State, f: nat, c: nat, guarded: bool): (r: State)
    requires Shaped(L) && f < L.rows && c <= L.cols
    requires TableShaped(st.table, L.rows, L.cols)
    ensures TableShaped(r.table, L.rows, L.cols)
  {
    if c == 0 then st else Step(L, RowPass(L, st, f, c - 1, guarded), f, c - 1, guarded)
  }

  function Initial(L: Layout): (r: State)
    ensures TableShaped(r.table, L.rows, L.cols)
  {
    State(seq(L.rows, i => seq(L.cols, j => Blank)), {})
  }

  /** The visits of the first `f` rows, row by row. */
  function Pass(L: Layout, f: nat, guarded: bool): (r: State)
    requires Shaped(L) && f <= L.rows
    ensures TableShaped(r.table, L.rows, L.cols)
  {
    if f == 0 then Initial(L) else RowPass(L, Pass(L, f - 1, guarded), f - 1, L.cols, guarded)
  }

  function Structure(L: Layout, guarded: bool): seq<seq<TCell>>
    requires Shaped(L)
  {
    Pass(L, L.rows, guarded).table
  }

  // ---------------------------------------------------------------------------
  // The builder as the source runs it
  // ---------------------------------------------------------------------------

  /** The colspan loop, adding the cells it passes to `celdas_asignadas`. */
  method GrowRight(L: Layout, taken: set<(int, int)>, f: nat, c: nat, guarded: bool)
    returns (colspan: nat, taken': set<(int, int)>)
    requires Shaped(L) && f < L.rows && c < L.cols && (f, c) !in taken
    ensures colspan == ColSpan(L, taken, f, c, guarded)
    ensures taken' == taken + (Rect(f, c, 1, colspan) - {(f, c)})
  {
    colspan, taken' := 1, taken;
    while c + colspan < L.cols
      invariant 1 <= colspan && c + colspan <= L.cols
      invariant ColSpanFrom(L, taken, f, c, colspan, guarded) == ColSpan(L, taken, f, c, guarded)
      invariant taken' == taken + (Rect(f, c, 1, colspan) - {(f, c)})
      decreases L.cols - c - colspan
    {
      var m := MatchAt(L.cells, L.grid[f][c + colspan].x, L.grid[f][c + colspan].y, L.tx, L.ty);
      if m.Some? && m.value != 0 {
        break;
      }
      if guarded && (f, c + colspan) in taken' {
        break;
      }
      taken' := taken' + {(f, c + colspan)};
      colspan := colspan + 1;
    }
  }

  /** The rowspan loop, adding the cells it passes to `celdas_asignadas`. */
  method GrowDown(L: Layout, taken: set<(int, int)>, f: nat, c: nat, guarded: bool)
    returns (rowspan: nat, taken': set<(int, int)>)
    requires Shaped(L) && f < L.rows && c < L.cols
    ensures rowspan == RowSpan(L, taken, f, c, guarded)
    ensures taken' == taken + (Rect(f, c, rowspan, 1) - {(f, c)})
  {
    rowspan, taken' := 1, taken;
    while f + rowspan < L.rows
      invariant 1 <= rowspan && f + rowspan <= L.rows
      invariant RowSpanFrom(L, taken, f, c, rowspan, guarded) == RowSpan(L, taken, f, c, guarded)
      invariant taken' == taken + (Rect(f, c, rowspan, 1) - {(f, c)})
      decreases L.rows - f - rowspan
    {
      var m := MatchAt(L.cells, L.grid[f + rowspan][c].x, L.grid[f + rowspan][c].y, L.tx, L.ty);
      if m.Some? && m.value != 0 {
        break;
      }
      if guarded && (f + rowspan, c) in taken' {
        break;
      }
      taken' := taken' + {(f + rowspan, c)};
      rowspan := rowspan + 1;
    }
  }

  /** The inner loop of the painting: cells `lo` to `hi - 1` of row `i`
      become `covered` and are taken. */
  method CoverCells(row: seq<TCell>, taken: set<(int, int)>, i: nat, lo: nat, hi: nat, covered: TCell)
    returns (row': seq<TCell>, taken': set<(int, int)>)
    requires lo <= hi <= |row|
    ensures |row'| == |row|
    ensures forall j | 0 <= j < |row| :: row'[j] == if lo <= j < hi then covered else row[j]
    ensures taken' == taken + Rect(i, lo, 1, hi - lo)
  {
    row', taken' := row, taken;
    for k := lo to hi
      invariant |row'| == |row|
      invariant forall j | 0 <= j < |row| :: row'[j] == if lo <= j < k then covered else row[j]
      invariant taken' == taken + Rect(i, lo, 1, k - lo)
    {
      row' := row'[k := covered];
      taken' := taken' + {(i, k)};
    }
  }

  /** Writing the anchor and the covered cells of its rectangle; the source's
      skip of the anchor position starts the first row's loop one cell on. */
  method PaintRect(t: seq<seq<TCell>>, taken: set<(int, int)>, f: nat, c: nat, rs: nat, cs: nat, anchor: TCell, covered: TCell)
    returns (t': seq<seq<TCell>>, taken': set<(int, int)>)
    requires f < |t| && c < |t[f]| && 1 <= rs && 1 <= cs
    requires f + rs <= |t| && forall i | 0 <= i < |t| :: c + cs <= |t[i]|
    ensures t' == Paint(t, f, c, rs, cs, anchor, covered)
    ensures taken' == taken + (Rect(f, c, rs, cs) - {(f, c)})
  {
    t' := t[f := t[f][c := anchor]];
    taken' := taken;
    for r := 0 to rs
      invariant |t'| == |t|
      invariant forall i | 0 <= i < |t| :: t'[i] == PaintRow(t[i], i, f, c, r, cs, anchor, covered)
      invariant taken' == taken + (Rect(f, c, r, cs) - {(f, c)})
    {
      var skip := if r == 0 then 1 else 0;
      var row;
      row, taken' := CoverCells(t'[f + r], taken', f + r, c + skip, c + cs, covered);
      RectGrows(f, c, r, cs);
      PaintRowGrows(t[f + r], t'[f + r], row, f, c, r, cs, anchor, covered);
      t' := t'[f + r := row];
    }
  }

  /** The rectangle less its anchor grows by row `f + r`, less the anchor on the first row. */
  lemma RectGrows(f: nat, c: nat, r: nat, cs: nat)
    requires 1 <= cs
    ensures var skip := if r == 0 then 1 else 0;
      Rect(f, c, r + 1, cs) - {(f, c)} == (Rect(f, c, r, cs) - {(f, c)}) + Rect(f + r, c + skip, 1, cs - skip)
  {
  }

  /** Covering row `f + r` of the rectangle turns the row painted for `r` rows into the row painted for `r + 1`. */
  lemma PaintRowGrows(orig: seq<TCell>, cur: seq<TCell>, row: seq<TCell>, f: nat, c: nat, r: nat, cs: nat, anchor: TCell, covered: TCell)
    requires c + cs <= |orig| && c < |orig| && 1 <= cs
    requires cur == PaintRow(orig, f + r, f, c, r, cs, anchor, covered)
    requires |row| == |cur|
    requires forall j | 0 <= j < |cur| :: row[j] == if c + (if r == 0 then 1 else 0) <= j < c + cs then covered else cur[j]
    ensures row == PaintRow(orig, f + r, f, c, r + 1, cs, anchor, covered)
  {
  }

  /** The visit of one grid position. */
  method Visit(L: Layout, t: seq<seq<TCell>>, taken: set<(int, int)>, f: nat, c: nat, guarded: bool)
    returns (t': seq<seq<TCell>>, taken': set<(int, int)>)
    requires Shaped(L) && f < L.rows && c < L.cols && TableShaped(t, L.rows, L.cols)
    ensures State(t', taken') == Step(L, State(t, taken), f, c, guarded)
  {
    t', taken' := t, taken;
    if (f, c) in taken {
      return;
    }
    var g := L.grid[f][c];
    var id := MatchAt(L.cells, g.x, g.y, L.tx, L.ty);
    if id.None? {
      return;
    }
    var colspan, a1 := GrowRight(L, taken, f, c, guarded);
    var rowspan, a2 := GrowDown(L, a1, f, c, guarded);
    var center := (g.x as real + (g.w * colspan) as real / 2.0, g.y as real + (g.h * rowspan) as real / 2.0);
    var anchor := TCell(id, "Celda (" + NatToString(f) + "," + NatToString(c) + ")", rowspan, colspan, Some(center));
    var covered := TCell(id, "", 0, 0, Some(center));
    t', taken' := PaintRect(t, a2, f, c, rowspan, colspan, anchor, covered);
    assert a2 + (Rect(f, c, rowspan, colspan) - {(f, c)}) == taken + (Rect(f, c, rowspan, colspan) - {(f, c)});
  }

  /** `generar_estructura_tabla` without its drawing: the grid positions are
      visited row by row. */
  method BuildStructure(L: Layout, guarded: bool) returns (table: seq<seq<TCell>>)
    requires Shaped(L)
    ensures table == Structure(L, guarded)
  {
    table := seq(L.rows, i => seq(L.cols, j => Blank));
    var taken: set<(int, int)> := {};
    for f := 0 to L.rows
      invariant State(table, taken) == Pass(L, f, guarded)
    {
      table, taken := VisitRow(L, table, taken, f, guarded);
    }
  }

  /** The inner loop of the builder: every column of row `f`, left to right. */
  method VisitRow(L: Layout, t: seq<seq<TCell>>, taken: set<(int, int)>, f: nat, guarded: bool)
    returns (t': seq<seq<TCell>>, taken': set<(int, int)>)
    requires Shaped(L) && f < L.rows && TableShaped(t, L.rows, L.cols)
    ensures State(t', taken') == RowPass(L, State(t, taken), f, L.cols, guarded)
  {
    t', taken' := t, taken;
    for c := 0 to L.cols
      invariant State(t', taken') == RowPass(L, State(t, taken), f, c, guarded)
    {
      t', taken' := Visit(L, t', taken', f, c, guarded);
    }
  }
}
