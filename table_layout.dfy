/** What the table structure means for the HTML built from it: every cell is
    blank, an anchor of a rectangle inside the table, or covered by an
    anchor's rectangle; with the corrected span loops, rectangles never
    overlap and each one is filled by its own covered cells. */
module TableLayout {
  import opened Common
  import opened Grid
  import opened TableStructure

  predicate IsAnchor(x: TCell) {
    x.id.Some? && x.rowspan >= 1 && x.colspan >= 1
  }

  predicate IsCovered(x: TCell) {
    x.id.Some? && x.rowspan == 0 && x.colspan == 0 && x.content == ""
  }

  /** The anchor at `(i, j)` records its own position, the id matched there,
      a rectangle inside the table and the rectangle's center. */
  predicate AnchorOk(L: Layout, t: seq<seq<TCell>>, i: nat, j: nat)
    requires Shaped(L) && TableShaped(t, L.rows, L.cols) && i < L.rows && j < L.cols
  {
    var x := t[i][j];
    x.content == Label(i, j) && x.id == Match(L, i, j)
    && i + x.rowspan <= L.rows && j + x.colspan <= L.cols
    && x.center == Some(Center(L.grid[i][j], x.rowspan, x.colspan))
  }

  predicate CellsOk(L: Layout, t: seq<seq<TCell>>)
    requires Shaped(L) && TableShaped(t, L.rows, L.cols)
  {
    forall i, j | 0 <= i < L.rows && 0 <= j < L.cols ::
      t[i][j] == Blank || (IsAnchor(t[i][j]) && AnchorOk(L, t, i, j)) || IsCovered(t[i][j])
  }

  /** Cell `(i, j)` lies in the rectangle of the anchor at `(a, b)`. */
  predicate Owns(t: seq<seq<TCell>>, a: int, b: int, i: int, j: int) {
    0 <= a < |t| && 0 <= b < |t[a]| && IsAnchor(t[a][b])
    && InRect(i, j, a, b, t[a][b].rowspan, t[a][b].colspan)
  }

  /** Every covered cell lies in the rectangle of an anchor that carries its
      id and center. */
  ghost predicate CoveredOwned(t: seq<seq<TCell>>) {
    forall i, j | 0 <= i < |t| && 0 <= j < |t[i]| && IsCovered(t[i][j]) ::
      exists a, b :: Owns(t, a, b, i, j) && t[a][b].id == t[i][j].id && t[a][b].center == t[i][j].center
  }

  /** Anchors sit at positions visited before `(f, c)`. */
  predicate AnchorsBefore(t: seq<seq<TCell>>, f: int, c: int) {
    forall a, b | 0 <= a < |t| && 0 <= b < |t[a]| && IsAnchor(t[a][b]) :: a < f || (a == f && b < c)
  }

  /** Two rectangles never share a cell. */
  ghost predicate Disjoint(t: seq<seq<TCell>>) {
    forall a, b, a', b', i, j | Owns(t, a, b, i, j) && Owns(t, a', b', i, j) :: a == a' && b == b'
  }

  /** Every cell of an anchor's rectangle other than the anchor is covered,
      with the anchor's id and center, and is in `taken`. */
  ghost predicate Filled(t: seq<seq<TCell>>, taken: set<(int, int)>) {
    forall a, b, i, j | Owns(t, a, b, i, j) && (i, j) != (a, b) ::
      0 <= i < |t| && 0 <= j < |t[i]| && (i, j) in taken
      && IsCovered(t[i][j]) && t[i][j].id == t[a][b].id && t[i][j].center == t[a][b].center
  }

  ghost predicate Inv(L: Layout, st: State, f: int, c: int)
    requires Shaped(L) && TableShaped(st.table, L.rows, L.cols)
  {
    CellsOk(L, st.table) && AnchorsBefore(st.table, f, c) && CoveredOwned(st.table)
  }

  ghost predicate GuardedInv(st: State) {
    Disjoint(st.table) && Filled(st.table, st.taken)
  }

  // ---------------------------------------------------------------------------
  // One visit
  // ---------------------------------------------------------------------------

  /** The anchor and covered values a visit writes at `(f, c)`. */
  predicate Writes(L: Layout, f: nat, c: nat, rs: nat, cs: nat, anchor: TCell, covered: TCell)
    requires Shaped(L) && f < L.rows && c < L.cols
  {
    anchor.rowspan == rs && anchor.colspan == cs && 1 <= rs && 1 <= cs
    && f + rs <= L.rows && c + cs <= L.cols
    && anchor.id.Some? && anchor.id == Match(L, f, c) && anchor.content == Label(f, c)
    && anchor.center == Some(Center(L.grid[f][c], rs, cs))
    && IsCovered(covered) && covered.id == anchor.id && covered.center == anchor.center
  }

  lemma PaintKeepsCells(L: Layout, t: seq<seq<TCell>>, f: nat, c: nat, rs: nat, cs: nat, anchor: TCell, covered: TCell)
    requires Shaped(L) && f < L.rows && c < L.cols && TableShaped(t, L.rows, L.cols)
    requires Writes(L, f, c, rs, cs, anchor, covered)
    requires CellsOk(L, t) && AnchorsBefore(t, f, c)
    ensures var t' := Paint(t, f, c, rs, cs, anchor, covered);
      TableShaped(t', L.rows, L.cols) && CellsOk(L, t') && AnchorsBefore(t', f, c + 1)
  {
  }

  lemma PaintKeepsOwned(L: Layout, t: seq<seq<TCell>>, f: nat, c: nat, rs: nat, cs: nat, anchor: TCell, covered: TCell)
    requires Shaped(L) && f < L.rows && c < L.cols && TableShaped(t, L.rows, L.cols)
    requires Writes(L, f, c, rs, cs, anchor, covered)
    requires AnchorsBefore(t, f, c) && CoveredOwned(t)
    ensures CoveredOwned(Paint(t, f, c, rs, cs, anchor, covered))
  {
    var t' := Paint(t, f, c, rs, cs, anchor, covered);
    forall i, j | 0 <= i < |t'| && 0 <= j < |t'[i]| && IsCovered(t'[i][j])
      ensures exists a, b :: Owns(t', a, b, i, j) && t'[a][b].id == t'[i][j].id && t'[a][b].center == t'[i][j].center
    {
      if InRect(i, j, f, c, rs, cs) {
        assert Owns(t', f, c, i, j);
      } else {
        assert t'[i][j] == t[i][j];
        var a, b :| Owns(t, a, b, i, j) && t[a][b].id == t[i][j].id && t[a][b].center == t[i][j].center;
        assert a < f || (a == f && b < c);
        assert t'[a][b] == t[a][b];
        assert Owns(t', a, b, i, j);
      }
    }
  }

  lemma StepKeeps(L: Layout, st: State, f: nat, c: nat, guarded: bool)
    requires Shaped(L) && f < L.rows && c < L.cols && TableShaped(st.table, L.rows, L.cols)
    requires Inv(L, st, f, c)
    ensures Inv(L, Step(L, st, f, c, guarded), f, c + 1)
  {
    if (f, c) in st.taken || Match(L, f, c).None? {
      return;
    }
    var m := Match(L, f, c);
    var cs := ColSpan(L, st.taken, f, c, guarded);
    var rs := RowSpan(L, st.taken + (Rect(f, c, 1, cs) - {(f, c)}), f, c, guarded);
    var center := Center(L.grid[f][c], rs, cs);
    var anchor, covered := TCell(m, Label(f, c), rs, cs, Some(center)), TCell(m, "", 0, 0, Some(center));
    assert Step(L, st, f, c, guarded).table == Paint(st.table, f, c, rs, cs, anchor, covered);
    PaintKeepsCells(L, st.table, f, c, rs, cs, anchor, covered);
    PaintKeepsOwned(L, st.table, f, c, rs, cs, anchor, covered);
  }

  /** The corrected colspan loop passes no taken cell. */
  lemma ColSpanPassesFree(L: Layout, taken: set<(int, int)>, f: nat, c: nat, j: int)
    requires Shaped(L) && f < L.rows && c < L.cols
    requires c < j < c + ColSpan(L, taken, f, c, true)
    ensures (f, j) !in taken
  {
    ColSpanStops(L, taken, f, c, 1, true);
    assert !Stops(L, taken, f, j, true);
  }

  /** The heart of the corrected loops: the new rectangle meets no earlier
      one. An earlier rectangle reaching it would contain either the new
      anchor, which is then taken, or a cell of the anchor's row that the
      colspan loop passed, which it does not do over taken cells. */
  lemma NewRectDisjoint(L: Layout, st: State, f: nat, c: nat, rs: nat, a: nat, b: nat, i: int, j: int)
    requires Shaped(L) && f < L.rows && c < L.cols && TableShaped(st.table, L.rows, L.cols)
    requires AnchorsBefore(st.table, f, c) && Filled(st.table, st.taken)
    requires (f, c) !in st.taken
    requires Owns(st.table, a, b, i, j)
    ensures !InRect(i, j, f, c, rs, ColSpan(L, st.taken, f, c, true))
  {
    var t := st.table;
    var cs := ColSpan(L, st.taken, f, c, true);
    if InRect(i, j, f, c, rs, cs) {
      assert a < f || (a == f && b < c);
      if b <= c {
        assert Owns(t, a, b, f, c);
        assert false;
      } else {
        assert Owns(t, a, b, f, b) && (f, b) != (a, b);
        ColSpanPassesFree(L, st.taken, f, c, b);
        assert false;
      }
    }
  }

  /** The anchors of the painted table other than the new one are the old
      anchors, with the same rectangles, which the new one does not meet. */
  lemma PaintedOwners(L: Layout, t: seq<seq<TCell>>, f: nat, c: nat, rs: nat, cs: nat, anchor: TCell, covered: TCell)
    requires Shaped(L) && f < L.rows && c < L.cols && TableShaped(t, L.rows, L.cols)
    requires Writes(L, f, c, rs, cs, anchor, covered)
    requires AnchorsBefore(t, f, c)
    requires forall a, b, i, j | Owns(t, a, b, i, j) :: !InRect(i, j, f, c, rs, cs)
    ensures var t' := Paint(t, f, c, rs, cs, anchor, covered);
      forall a, b, i, j | Owns(t', a, b, i, j) && (a, b) != (f, c) ::
        Owns(t, a, b, i, j) && t'[a][b] == t[a][b] && !InRect(i, j, f, c, rs, cs)
  {
    var t' := Paint(t, f, c, rs, cs, anchor, covered);
    forall a, b, i, j | Owns(t', a, b, i, j) && (a, b) != (f, c)
      ensures Owns(t, a, b, i, j) && t'[a][b] == t[a][b]
    {
      assert !InRect(a, b, f, c, rs, cs);
    }
  }

  lemma PaintKeepsDisjoint(L: Layout, t: seq<seq<TCell>>, f: nat, c: nat, rs: nat, cs: nat, anchor: TCell, covered: TCell)
    requires Shaped(L) && f < L.rows && c < L.cols && TableShaped(t, L.rows, L.cols)
    requires Writes(L, f, c, rs, cs, anchor, covered)
    requires AnchorsBefore(t, f, c) && Disjoint(t)
    requires forall a, b, i, j | Owns(t, a, b, i, j) :: !InRect(i, j, f, c, rs, cs)
    ensures Disjoint(Paint(t, f, c, rs, cs, anchor, covered))
  {
    PaintedOwners(L, t, f, c, rs, cs, anchor, covered);
  }

  lemma PaintKeepsFilled(L: Layout, t: seq<seq<TCell>>, taken: set<(int, int)>, f: nat, c: nat, rs: nat, cs: nat, anchor: TCell, covered: TCell)
    requires Shaped(L) && f < L.rows && c < L.cols && TableShaped(t, L.rows, L.cols)
    requires Writes(L, f, c, rs, cs, anchor, covered)
    requires AnchorsBefore(t, f, c) && Filled(t, taken)
    requires forall a, b, i, j | Owns(t, a, b, i, j) :: !InRect(i, j, f, c, rs, cs)
    ensures Filled(Paint(t, f, c, rs, cs, anchor, covered), taken + (Rect(f, c, rs, cs) - {(f, c)}))
  {
    var t' := Paint(t, f, c, rs, cs, anchor, covered);
    PaintedOwners(L, t, f, c, rs, cs, anchor, covered);
    forall a, b, i, j | Owns(t', a, b, i, j) && (i, j) != (a, b) && (a, b) != (f, c)
      ensures t'[i][j] == t[i][j]
    {
    }
  }

  lemma StepKeepsGuarded(L: Layout, st: State, f: nat, c: nat)
    requires Shaped(L) && f < L.rows && c < L.cols && TableShaped(st.table, L.rows, L.cols)
    requires Inv(L, st, f, c) && GuardedInv(st)
    ensures GuardedInv(Step(L, st, f, c, true))
  {
    if (f, c) in st.taken || Match(L, f, c).None? {
      return;
    }
    var m := Match(L, f, c);
    var cs := ColSpan(L, st.taken, f, c, true);
    var rs := RowSpan(L, st.taken + (Rect(f, c, 1, cs) - {(f, c)}), f, c, true);
    var center := Center(L.grid[f][c], rs, cs);
    var anchor, covered := TCell(m, Label(f, c), rs, cs, Some(center)), TCell(m, "", 0, 0, Some(center));
    assert Step(L, st, f, c, true) == State(Paint(st.table, f, c, rs, cs, anchor, covered), st.taken + (Rect(f, c, rs, cs) - {(f, c)}));
    forall a, b, i, j | Owns(st.table, a, b, i, j)
      ensures !InRect(i, j, f, c, rs, cs)
    {
      NewRectDisjoint(L, st, f, c, rs, a, b, i, j);
    }
    PaintKeepsDisjoint(L, st.table, f, c, rs, cs, anchor, covered);
    PaintKeepsFilled(L, st.table, st.taken, f, c, rs, cs, anchor, covered);
  }

  // ---------------------------------------------------------------------------
  // The whole pass
  // ---------------------------------------------------------------------------

  lemma {:induction false} RowPassKeeps(L: Layout, st: State, f: nat, c: nat, guarded: bool)
    requires Shaped(L) && f < L.rows && c <= L.cols && TableShaped(st.table, L.rows, L.cols)
    requires Inv(L, st, f, 0)
    requires guarded ==> GuardedInv(st)
    ensures Inv(L, RowPass(L, st, f, c, guarded), f, c)
    ensures guarded ==> GuardedInv(RowPass(L, st, f, c, guarded))
  {
    if c > 0 {
      RowPassKeeps(L, st, f, c - 1, guarded);
      StepKeeps(L, RowPass(L, st, f, c - 1, guarded), f, c - 1, guarded);
      if guarded {
        StepKeepsGuarded(L, RowPass(L, st, f, c - 1, guarded), f, c - 1);
      }
    }
  }

  lemma {:induction false} PassKeeps(L: Layout, f: nat, guarded: bool)
    requires Shaped(L) && f <= L.rows
    ensures Inv(L, Pass(L, f, guarded), f, 0)
    ensures guarded ==> GuardedInv(Pass(L, f, guarded))
  {
    if f > 0 {
      PassKeeps(L, f - 1, guarded);
      RowPassKeeps(L, Pass(L, f - 1, guarded), f - 1, L.cols, guarded);
    }
  }

  /** Both versions of the loops give a table of anchors that record their
      position, id, rectangle and center, of covered cells that each belong
      to an anchor with the same id and center, and of blank cells. */
  lemma StructureCells(L: Layout, guarded: bool)
    requires Shaped(L)
    ensures var t := Structure(L, guarded);
      TableShaped(t, L.rows, L.cols) && CellsOk(L, t) && CoveredOwned(t)
  {
    PassKeeps(L, L.rows, guarded);
  }

  /** With the corrected loops, rectangles never overlap and every cell of a
      rectangle other than its anchor is covered with the anchor's id and
      center: the rowspans and colspans describe a consistent table. */
  lemma GuardedStructureTiles(L: Layout)
    requires Shaped(L)
    ensures var t := Structure(L, true);
      Disjoint(t)
      && forall a, b, i, j | Owns(t, a, b, i, j) && (i, j) != (a, b) ::
           0 <= i < |t| && 0 <= j < |t[i]| && IsCovered(t[i][j])
           && t[i][j].id == t[a][b].id && t[i][j].center == t[a][b].center
  {
    PassKeeps(L, L.rows, true);
  }

  // ---------------------------------------------------------------------------
  // The loops as written
  // ---------------------------------------------------------------------------

  /** A 2x2 grid of 10-pixel cells whose top-left, top-right and bottom-left
      cells were detected and whose bottom-right cell was not. */
  function Overlapping(): (L: Layout)
    ensures Shaped(L)
  {
    Layout([[GridCell(0, 0, 10, 10), GridCell(10, 0, 10, 10)], [GridCell(0, 10, 10, 10), GridCell(10, 10, 10, 10)]],
           [CellBox(1, 0, 0, 10, 10), CellBox(2, 10, 0, 10, 10), CellBox(3, 0, 10, 10, 10)],
           2, 2, 1.0, 1.0)
  }

  /** As written, the colspan loop of the bottom-left anchor grows over the
      bottom-right cell that the top-right anchor's rowspan already covers:
      both rectangles own that cell, so the HTML table has one cell too many
      in its second row. */
  lemma AsWrittenOverlap()
    ensures var t := Structure(Overlapping(), false);
      Owns(t, 0, 1, 1, 1) && Owns(t, 1, 0, 1, 1) && !Disjoint(t)
  {
    var L := Overlapping();
    assert Match(L, 0, 0) == Some(1);
    assert Match(L, 0, 1) == Some(2);
    assert Match(L, 1, 0) == Some(3);
    assert Match(L, 1, 1) == None;
    var st0 := Initial(L);
    var st1 := Step(L, st0, 0, 0, false);
    assert ColSpan(L, {}, 0, 0, false) == 1;
    assert RowSpan(L, {}, 0, 0, false) == 1;
    assert st1.taken == {};
    var st2 := Step(L, st1, 0, 1, false);
    assert ColSpan(L, {}, 0, 1, false) == 1;
    assert RowSpan(L, {}, 0, 1, false) == 2;
    assert st2.taken == {(1, 1)};
    assert st2.table[0][1].rowspan == 2 && st2.table[0][1].colspan == 1;
    var st3 := Step(L, st2, 1, 0, false);
    assert ColSpan(L, {(1, 1)}, 1, 0, false) == 2;
    assert st3.table[0][1] == st2.table[0][1];
    assert st3.table[1][0].rowspan == 1 && st3.table[1][0].colspan == 2;
    var st4 := Step(L, st3, 1, 1, false);
    assert (1, 1) in st3.taken;
    assert Pass(L, 2, false) == st4;
    assert Owns(st4.table, 0, 1, 1, 1) && Owns(st4.table, 1, 0, 1, 1);
  }
}
