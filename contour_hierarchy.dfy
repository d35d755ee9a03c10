/** The contour selection of `cargar_imagen` (DibujarContornosCuadrados.py):
    the area filter, the re-indexing of the contour hierarchy to the kept
    contours, and the choice of the contours without children. The contour
    areas are given; computing them is the image library's job. */
module ContourHierarchy {
  import opened Contours
  import opened Common


  /** The indices of the contours whose area reaches the minimum, in order. */
  function KeptIndices(areas: seq<real>, minArea: real): (r: seq<nat>)
    ensures forall k | 0 <= k < |r| :: r[k] < |areas|
    ensures forall k, l | 0 <= k < l < |r| :: r[k] < r[l]
    decreases |areas|
  {
    if |areas| == 0 then []
    else
      var prev := KeptIndices(areas[..|areas| - 1], minArea);
      if areas[|areas| - 1] >= minArea then prev + [|areas| - 1] else prev
  }

  /** Every kept contour's area reaches the minimum. */
  lemma {:induction false} KeptSound(areas: seq<real>, minArea: real)
    ensures forall k | 0 <= k < |KeptIndices(areas, minArea)| :: areas[KeptIndices(areas, minArea)[k]] >= minArea
    decreases |areas|
  {
    if |areas| > 0 {
      var prefix := areas[..|areas| - 1];
      KeptSound(prefix, minArea);
      forall k | 0 <= k < |KeptIndices(prefix, minArea)|
        ensures areas[KeptIndices(prefix, minArea)[k]] >= minArea
      {
        assert prefix[KeptIndices(prefix, minArea)[k]] == areas[KeptIndices(prefix, minArea)[k]];
      }
    }
  }

  /** Every contour whose area reaches the minimum is kept. */
  lemma {:induction false} KeptComplete(areas: seq<real>, minArea: real, j: nat)
    requires j < |areas| && areas[j] >= minArea
    ensures j in KeptIndices(areas, minArea)
    decreases |areas|
  {
    if j < |areas| - 1 {
      assert areas[..|areas| - 1][j] == areas[j];
      KeptComplete(areas[..|areas| - 1], minArea, j);
    }
  }

  /** The new index of an old one: its position among the kept, or -1 for
      -1 and for a filtered-out contour. */
  function Reindex(kept: seq<nat>, v: int): int {
    if v != -1 && v >= 0 && v in kept then IndexIn(kept, v) else -1
  }

  function IndexIn(kept: seq<nat>, v: nat): (r: nat)
    requires v in kept
    ensures r < |kept| && kept[r] == v
  {
    if kept[0] == v then 0 else 1 + IndexIn(kept[1..], v)
  }

  /** A hierarchy row: next, previous, first child, parent. */
  type Row = s: seq<int> | |s| == 4 witness [-1, -1, -1, -1]

  /** The kept rows with every link re-indexed. */
  function Remapped(hierarchy: seq<Row>, kept: seq<nat>): seq<Row>
    requires forall k | 0 <= k < |kept| :: kept[k] < |hierarchy|
  {
    seq(|kept|, k requires 0 <= k < |kept| =>
      var row := hierarchy[kept[k]];
      [Reindex(kept, row[0]), Reindex(kept, row[1]), Reindex(kept, row[2]), Reindex(kept, row[3])])
  }

  /** `filtered_hierarchy` as the loop builds it: the rows of the kept
      contours, in order. */
  function RowsOf(hierarchy: seq<Row>, kept: seq<nat>): (r: seq<Row>)
    requires forall k | 0 <= k < |kept| :: kept[k] < |hierarchy|
    ensures |r| == |kept| && forall k | 0 <= k < |kept| :: r[k] == hierarchy[kept[k]]
    decreases |kept|
  {
    if |kept| == 0 then [] else RowsOf(hierarchy, kept[..|kept| - 1]) + [hierarchy[kept[|kept| - 1]]]
  }

  /** `area_min`: a two-thousandth of the image area. */
  function MinArea(height: nat, width: nat): real {
    (height * width) as real / 2000.0
  }

  /** One more contour considered by the filtering loop. */
  lemma KeptStep(areas: seq<real>, minArea: real, i: nat)
    requires i < |areas|
    ensures KeptIndices(areas[..i + 1], minArea)
      == if areas[i] >= minArea then KeptIndices(areas[..i], minArea) + [i] else KeptIndices(areas[..i], minArea)
  {
    assert areas[..i + 1][..i] == areas[..i];
  }

  /** One more kept contour: its map entry and its row are appended. */
  lemma AppendStep(hierarchy: seq<Row>, kept: seq<nat>, i: nat)
    requires i < |hierarchy| && forall k | 0 <= k < |kept| :: kept[k] < |hierarchy|
    ensures IndexMap(kept + [i]) == IndexMap(kept)[i := |kept|]
    ensures RowsOf(hierarchy, kept + [i]) == RowsOf(hierarchy, kept) + [hierarchy[i]]
  {
    assert (kept + [i])[..|kept|] == kept;
  }

  /** The filtering loop: kept contours, their index map and their rows. */
  method FilterByArea(areas: seq<real>, hierarchy: seq<Row>, minArea: real)
    returns (kept: seq<nat>, indexMap: map<int, nat>, rows: seq<Row>)
    requires |hierarchy| == |areas|
    ensures kept == KeptIndices(areas, minArea)
    ensures indexMap == IndexMap(kept)
    ensures rows == RowsOf(hierarchy, kept)
  {
    kept, indexMap, rows := [], map[], [];
    for i := 0 to |areas|
      invariant kept == KeptIndices(areas[..i], minArea)
      invariant indexMap == IndexMap(kept)
      invariant rows == RowsOf(hierarchy, kept)
    {
      KeptStep(areas, minArea, i);
      if areas[i] >= minArea {
        AppendStep(hierarchy, kept, i);
        indexMap := indexMap[i := |kept|];
        kept := kept + [i];
        rows := rows + [hierarchy[i]];
      }
    }
    assert areas[..|areas|] == areas;
  }

  /** `index_map` stays the inverse of the kept list when an index above
      all kept ones is appended. */
  ghost predicate IndexMapOf(indexMap: map<int, nat>, kept: seq<nat>) {
    (forall v :: v in indexMap <==> v >= 0 && v in kept)
    && (forall v | v in indexMap :: indexMap[v] < |kept| && kept[indexMap[v]] == v)
  }

  /** `index_map` as the loop builds it: each kept index maps to its
      position. */
  function IndexMap(kept: seq<nat>): map<int, nat>
    decreases |kept|
  {
    if |kept| == 0 then map[]
    else IndexMap(kept[..|kept| - 1])[kept[|kept| - 1] := |kept| - 1]
  }

  /** For increasing indices the map is the inverse of the kept list. */
  lemma {:induction false} IndexMapInverse(kept: seq<nat>)
    requires forall k, l | 0 <= k < l < |kept| :: kept[k] < kept[l]
    ensures IndexMapOf(IndexMap(kept), kept)
    decreases |kept|
  {
    if |kept| > 0 {
      var n := |kept| - 1;
      var prev := kept[..n];
      IndexMapInverse(prev);
      var m := IndexMap(prev);
      var m' := m[kept[n] := n];
      forall v
        ensures v in m' <==> v >= 0 && v in kept
      {
        assert kept == prev + [kept[n]];
        assert v in kept <==> v in prev || v == kept[n];
      }
      forall v | v in m'
        ensures m'[v] < |kept| && kept[m'[v]] == v
      {
        if v != kept[n] {
          assert prev[m[v]] == kept[m[v]];
        }
      }
    }
  }

  /** The in-place re-indexing of the kept rows. */
  method RemapRows(rows: seq<Row>, kept: seq<nat>, indexMap: map<int, nat>, hierarchy: seq<Row>)
    returns (remapped: seq<Row>)
    requires forall k | 0 <= k < |kept| :: kept[k] < |hierarchy|
    requires forall k, l | 0 <= k < l < |kept| :: kept[k] < kept[l]
    requires IndexMapOf(indexMap, kept)
    requires rows == RowsOf(hierarchy, kept)
    ensures remapped == Remapped(hierarchy, kept)
  {
    remapped := rows;
    for i := 0 to |remapped|
      invariant |remapped| == |kept|
      invariant forall k | 0 <= k < i :: remapped[k] == Remapped(hierarchy, kept)[k]
      invariant forall k | i <= k < |remapped| :: remapped[k] == rows[k]
    {
      var row := RemapRow(remapped[i], kept, indexMap);
      assert row == Remapped(hierarchy, kept)[i];
      remapped := remapped[i := row];
    }
  }

  /** The four links of one row, each mapped through `index_map` or set to -1. */
  method RemapRow(links: Row, kept: seq<nat>, indexMap: map<int, nat>) returns (row: Row)
    requires forall k, l | 0 <= k < l < |kept| :: kept[k] < kept[l]
    requires IndexMapOf(indexMap, kept)
    ensures row == [Reindex(kept, links[0]), Reindex(kept, links[1]), Reindex(kept, links[2]), Reindex(kept, links[3])]
  {
    row := links;
    for j := 0 to 4
      invariant |row| == 4
      invariant forall l | 0 <= l < j :: row[l] == Reindex(kept, links[l])
      invariant forall l | j <= l < 4 :: row[l] == links[l]
    {
      var v := row[j];
      if v != -1 && v in indexMap {
        DistinctIndex(kept, v, indexMap[v]);
        row := row[j := indexMap[v]];
      } else {
        row := row[j := -1];
      }
    }
  }

  lemma DistinctIndex(kept: seq<nat>, v: nat, p: nat)
    requires forall k, l | 0 <= k < l < |kept| :: kept[k] < kept[l]
    requires p < |kept| && kept[p] == v
    ensures IndexIn(kept, v) == p
  {
    assert kept[IndexIn(kept, v)] == v;
  }

  /** Every re-indexed link is -1 or the index of a kept contour. */
  lemma RemappedLinksValid(hierarchy: seq<Row>, kept: seq<nat>)
    requires forall k | 0 <= k < |kept| :: kept[k] < |hierarchy|
    ensures forall k, j | 0 <= k < |kept| && 0 <= j < 4 ::
      Remapped(hierarchy, kept)[k][j] == -1 || 0 <= Remapped(hierarchy, kept)[k][j] < |kept|
  {
  }

  /** The contours kept for simplification: those without a first child
      after re-indexing (all of them when none passed the area filter). */
  function Leaves(contours: seq<seq<Point>>, remapped: seq<Row>): (r: seq<seq<Point>>)
    requires |remapped| == |contours|
    ensures |r| <= |contours|
    decreases |contours|
  {
    if |contours| == 0 then []
    else
      var n := |contours| - 1;
      Leaves(contours[..n], remapped[..n]) + (if remapped[n][2] == -1 then [contours[n]] else [])
  }

  /** The loop that keeps the contours without a first child. */
  method KeepLeaves(contours: seq<seq<Point>>, remapped: seq<Row>) returns (leaves: seq<seq<Point>>)
    requires |remapped| == |contours|
    ensures leaves == Leaves(contours, remapped)
  {
    leaves := [];
    for i := 0 to |contours|
      invariant leaves == Leaves(contours[..i], remapped[..i])
    {
      assert contours[..i + 1][..i] == contours[..i] && remapped[..i + 1][..i] == remapped[..i];
      if remapped[i][2] == -1 {
        leaves := leaves + [contours[i]];
      }
    }
    assert contours[..|contours|] == contours && remapped[..|remapped|] == remapped;
  }

  /** The contours that pass the area filter, in order. */
  function Filtered(contours: seq<seq<Point>>, kept: seq<nat>): (r: seq<seq<Point>>)
    requires forall k | 0 <= k < |kept| :: kept[k] < |contours|
    ensures |r| == |kept|
  {
    seq(|kept|, k requires 0 <= k < |kept| => contours[kept[k]])
  }

  /** The contour selection of `cargar_imagen`, before simplification. */
  method SelectContours(contours: seq<seq<Point>>, areas: seq<real>, hierarchy: seq<Row>, height: nat, width: nat)
    returns (leaves: seq<seq<Point>>)
    requires |areas| == |contours| && |hierarchy| == |contours|
    ensures var kept := KeptIndices(areas, MinArea(height, width));
      leaves == Leaves(Filtered(contours, kept), Remapped(hierarchy, kept))
  {
    var kept, indexMap, rows := FilterByArea(areas, hierarchy, MinArea(height, width));
    IndexMapInverse(kept);
    var remapped := RemapRows(rows, kept, indexMap, hierarchy);
    leaves := KeepLeaves(Filtered(contours, kept), remapped);
  }

  /** `r` is what `eliminar_vertices_alineados` with the defaults of
      `cargar_imagen` returns for the contour `c`, with the shape that result
      has. */
  ghost predicate SimplificationOf(r: seq<Point>, c: seq<Point>, between: AngleOf) {
    r == Simplify(c, 10, 170.0, between)
    && (|c| < 3 ==> r == c)
    && (|c| >= 3 ==> |r| >= 2 && |c| - |r| <= (|c| + 1) / 2)
    && exists idx: seq<nat> :: SubseqBy(r, c, idx)
  }

  /** The first `done` contours of `result` are the simplifications of
      those of `leaves`, the rest still the leaves themselves. */
  ghost predicate SimplifiedUpTo(result: seq<seq<Point>>, leaves: seq<seq<Point>>, done: nat, between: AngleOf) {
    |result| == |leaves| && done <= |leaves|
    && (forall k | 0 <= k < done :: SimplificationOf(result[k], leaves[k], between))
    && (forall k | done <= k < |leaves| :: result[k] == leaves[k])
  }

  /** One leaf replaced in place by its simplification. */
  method SimplifyLeaf(result: seq<seq<Point>>, leaves: seq<seq<Point>>, idx: nat, between: AngleOf)
    returns (result': seq<seq<Point>>)
    requires idx < |leaves| && SimplifiedUpTo(result, leaves, idx, between)
    ensures SimplifiedUpTo(result', leaves, idx + 1, between)
  {
    var simplified := RemoveAlignedVertices(result[idx], 10, 170.0, between);
    result' := result[idx := simplified];
  }

  /** `cargar_imagen` after the contours are found: the selection, then each
      leaf replaced in place by its simplification with the default
      threshold of 170 degrees and minimum distance of 10 pixels. */
  method LoadContours(contours: seq<seq<Point>>, areas: seq<real>, hierarchy: seq<Row>,
                      height: nat, width: nat, between: AngleOf)
    returns (result: seq<seq<Point>>)
    requires |areas| == |contours| && |hierarchy| == |contours|
    ensures var kept := KeptIndices(areas, MinArea(height, width));
      var leaves := Leaves(Filtered(contours, kept), Remapped(hierarchy, kept));
      |result| == |leaves| && forall k | 0 <= k < |leaves| :: SimplificationOf(result[k], leaves[k], between)
  {
    var leaves := SelectContours(contours, areas, hierarchy, height, width);
    result := leaves;
    for idx := 0 to |leaves|
      invariant SimplifiedUpTo(result, leaves, idx, between)
    {
      result := SimplifyLeaf(result, leaves, idx, between);
    }
  }
}
