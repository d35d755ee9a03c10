/** The mesh of a table image (`generar_malla` in ExtraerEstructuraDeTabla.py
    and the `cuadricula` of RenderizarTablaHTML.py): the x and y coordinates
    of the detected cells are sorted without repetition, grouped into runs of
    close values, and every run becomes one grid line at the truncated mean
    of the run; the grid cells lie between consecutive lines. Drawing the
    mesh image is not modelled. */
module Grid {
  import opened Common

  /** A detected cell: its id and bounding box in pixels. */
  datatype CellBox = CellBox(id: int, x: int, y: int, w: int, h: int)

  // ---------------------------------------------------------------------------
  // Thresholds
  // ---------------------------------------------------------------------------

  function MinOf(s: seq<int>): (r: int)
    requires |s| > 0
    ensures r in s && forall k | 0 <= k < |s| :: r <= s[k]
  {
    if |s| == 1 then s[0]
    else
      var m := MinOf(s[1..]);
      if s[0] <= m then s[0] else m
  }

  function Widths(cells: seq<CellBox>): (r: seq<int>)
    ensures |r| == |cells| && forall k | 0 <= k < |cells| :: r[k] == cells[k].w
  {
    seq(|cells|, k requires 0 <= k < |cells| => cells[k].w)
  }

  function Heights(cells: seq<CellBox>): (r: seq<int>)
    ensures |r| == |cells| && forall k | 0 <= k < |cells| :: r[k] == cells[k].h
  {
    seq(|cells|, k requires 0 <= k < |cells| => cells[k].h)
  }

  /** `umbral_x`: half the narrowest cell, or 5 without cells. */
  function ThresholdX(cells: seq<CellBox>): (r: real)
    ensures |cells| == 0 ==> r == 5.0
    ensures forall k | 0 <= k < |cells| :: r <= cells[k].w as real / 2.0
    ensures |cells| > 0 ==> exists k | 0 <= k < |cells| :: r == cells[k].w as real / 2.0
  {
    (if |cells| == 0 then 10 else MinOf(Widths(cells))) as real / 2.0
  }

  /** `umbral_y`: half the lowest cell, or 5 without cells. */
  function ThresholdY(cells: seq<CellBox>): (r: real)
    ensures |cells| == 0 ==> r == 5.0
    ensures forall k | 0 <= k < |cells| :: r <= cells[k].h as real / 2.0
    ensures |cells| > 0 ==> exists k | 0 <= k < |cells| :: r == cells[k].h as real / 2.0
  {
    (if |cells| == 0 then 10 else MinOf(Heights(cells))) as real / 2.0
  }

  // ---------------------------------------------------------------------------
  // sorted(set(...))
  // ---------------------------------------------------------------------------

  predicate StrictlyIncreasing(s: seq<int>) {
    forall k, l | 0 <= k < l < |s| :: s[k] < s[l]
  }

  /** Inserts `v` into an increasing sequence unless it is there already. */
  function Insert(s: seq<int>, v: int): (r: seq<int>)
    requires StrictlyIncreasing(s)
    ensures StrictlyIncreasing(r)
    ensures forall u :: u in r <==> u in s || u == v
  {
    if |s| == 0 then [v]
    else if v < s[0] then [v] + s
    else if v == s[0] then s
    else
      var rest := Insert(s[1..], v);
      assert s == [s[0]] + s[1..];
      assert forall u | u in s[1..] :: s[0] < u;
      ConsIncreasing(s[0], rest);
      [s[0]] + rest
  }

  lemma ConsIncreasing(x: int, rest: seq<int>)
    requires StrictlyIncreasing(rest) && forall u | u in rest :: x < u
    ensures StrictlyIncreasing([x] + rest)
  {
    var r := [x] + rest;
    forall k, l | 0 <= k < l < |r|
      ensures r[k] < r[l]
    {
      assert r[l] == rest[l - 1];
      if k > 0 {
        assert r[k] == rest[k - 1];
      } else {
        assert rest[l - 1] in rest;
      }
    }
  }

  /** `sorted(set(xs))`. */
  function SortedDistinct(xs: seq<int>): (r: seq<int>)
    ensures StrictlyIncreasing(r)
    ensures forall u :: u in r <==> u in xs
    ensures |r| <= |xs|
    decreases |xs|
  {
    if |xs| == 0 then []
    else
      var prev := SortedDistinct(xs[..|xs| - 1]);
      assert xs == xs[..|xs| - 1] + [xs[|xs| - 1]];
      var r := Insert(prev, xs[|xs| - 1]);
      DistinctBound(r, xs);
      r
  }

  /** A strictly increasing sequence is no longer than any sequence holding
      all its elements. */
  lemma DistinctBound(r: seq<int>, xs: seq<int>)
    requires StrictlyIncreasing(r)
    requires forall u | u in r :: u in xs
    ensures |r| <= |xs|
  {
    var f := set k | 0 <= k < |r| :: r[k];
    var g := set k | 0 <= k < |xs| :: xs[k];
    forall u | u in f
      ensures u in g
    {
      var k :| 0 <= k < |r| && r[k] == u;
      assert u in r;
      var j :| 0 <= j < |xs| && xs[j] == u;
    }
    CardinalityOfDistinct(r);
    SetOfSeqBound(xs);
    SubsetCardinality(f, g);
  }

  lemma {:induction false} CardinalityOfDistinct(r: seq<int>)
    requires StrictlyIncreasing(r)
    ensures |set k | 0 <= k < |r| :: r[k]| == |r|
    decreases |r|
  {
    if |r| > 0 {
      var n := |r| - 1;
      CardinalityOfDistinct(r[..n]);
      var before := set k | 0 <= k < n :: r[..n][k];
      assert (set k | 0 <= k < |r| :: r[k]) == before + {r[n]};
      assert r[n] !in before;
    }
  }

  lemma {:induction false} SetOfSeqBound(xs: seq<int>)
    ensures |set k | 0 <= k < |xs| :: xs[k]| <= |xs|
    decreases |xs|
  {
    if |xs| > 0 {
      var n := |xs| - 1;
      SetOfSeqBound(xs[..n]);
      assert (set k | 0 <= k < |xs| :: xs[k]) == (set k | 0 <= k < n :: xs[..n][k]) + {xs[n]};
    }
  }

  lemma SubsetCardinality(f: set<int>, g: set<int>)
    requires f <= g
    ensures |f| <= |g|
  {
    assert g == f + (g - f);
  }

  // ---------------------------------------------------------------------------
  // agrupar_coordenadas
  // ---------------------------------------------------------------------------

  function Last(s: seq<int>): int
    requires |s| > 0
  {
    s[|s| - 1]
  }

  /** `abs(a - b) <= umbral`. */
  predicate Close(a: int, b: int, threshold: real) {
    Abs((a - b) as real) <= threshold
  }

  /** The runs as the loop builds them: a value joins the current run when
      it is within the threshold of the run's last value. */
  function Groups(coords: seq<int>, threshold: real): (r: seq<seq<int>>)
    ensures |r| <= |coords| && (|coords| > 0 <==> |r| > 0)
    ensures forall g | g in r :: |g| > 0
    decreases |coords|
  {
    if |coords| == 0 then []
    else AddToRuns(Groups(coords[..|coords| - 1], threshold), coords[|coords| - 1], threshold)
  }

  /** One step of the loop: `v` extends the last run when it is close to
      that run's last value, and starts a new run otherwise. */
  function AddToRuns(prev: seq<seq<int>>, v: int, threshold: real): (r: seq<seq<int>>)
    requires forall g | g in prev :: |g| > 0
    ensures |r| > 0 && |r| <= |prev| + 1 && forall g | g in r :: |g| > 0
  {
    if |prev| == 0 then [[v]]
    else if Close(v, Last(prev[|prev| - 1]), threshold) then prev[..|prev| - 1] + [prev[|prev| - 1] + [v]]
    else prev + [[v]]
  }

  function Flatten(gs: seq<seq<int>>): seq<int>
    decreases |gs|
  {
    if |gs| == 0 then [] else Flatten(gs[..|gs| - 1]) + gs[|gs| - 1]
  }

  lemma FlattenSnoc(gs: seq<seq<int>>, g: seq<int>)
    ensures Flatten(gs + [g]) == Flatten(gs) + g
  {
    assert (gs + [g])[..|gs|] == gs;
  }

  /** A value added to the runs, to the last one or as a run of its own,
      lands at the end of the flattened runs. */
  lemma FlattenAdd(prev: seq<seq<int>>, v: int, threshold: real)
    requires forall g | g in prev :: |g| > 0
    ensures Flatten(AddToRuns(prev, v, threshold)) == Flatten(prev) + [v]
  {
    if |prev| > 0 && Close(v, Last(prev[|prev| - 1]), threshold) {
      var m := |prev| - 1;
      assert Flatten(prev) == Flatten(prev[..m]) + prev[m];
      FlattenSnoc(prev[..m], prev[m] + [v]);
    } else {
      FlattenSnoc(prev, [v]);
    }
  }

  /** Together the runs are the input, in order. */
  lemma {:induction false} GroupsFlatten(coords: seq<int>, threshold: real)
    ensures Flatten(Groups(coords, threshold)) == coords
    decreases |coords|
  {
    if |coords| > 0 {
      var n := |coords| - 1;
      GroupsFlatten(coords[..n], threshold);
      FlattenAdd(Groups(coords[..n], threshold), coords[n], threshold);
      assert coords == coords[..n] + [coords[n]];
    }
  }

  /** The last value of the last run is the last input value. */
  lemma GroupsLast(coords: seq<int>, threshold: real)
    requires |coords| > 0
    ensures var gs := Groups(coords, threshold); Last(gs[|gs| - 1]) == Last(coords)
  {
  }

  /** Within a run every value is within the threshold of the one before
      it. */
  predicate CloseWithinRuns(gs: seq<seq<int>>, threshold: real) {
    forall k, j | 0 <= k < |gs| && 0 < j < |gs[k]| :: Close(gs[k][j], gs[k][j - 1], threshold)
  }

  /** A step of the loop keeps every run's values close to their
      predecessors: `v` only joins a run when it is close to its last value. */
  lemma WithinAdd(prev: seq<seq<int>>, v: int, threshold: real)
    requires forall g | g in prev :: |g| > 0
    requires CloseWithinRuns(prev, threshold)
    ensures CloseWithinRuns(AddToRuns(prev, v, threshold), threshold)
  {
    var gs := AddToRuns(prev, v, threshold);
    if |prev| > 0 && Close(v, Last(prev[|prev| - 1]), threshold) {
      var m := |prev| - 1;
      forall k, j | 0 <= k < |gs| && 0 < j < |gs[k]|
        ensures Close(gs[k][j], gs[k][j - 1], threshold)
      {
        if k < m {
          assert gs[k] == prev[k];
        } else {
          assert gs[k] == prev[m] + [v];
          if j < |prev[m]| {
            assert gs[k][j] == prev[m][j] && gs[k][j - 1] == prev[m][j - 1];
          } else {
            assert gs[k][j] == v && gs[k][j - 1] == Last(prev[m]);
          }
        }
      }
    } else if |prev| > 0 {
      forall k, j | 0 <= k < |gs| && 0 < j < |gs[k]|
        ensures Close(gs[k][j], gs[k][j - 1], threshold)
      {
        assert gs[k] == prev[k];
      }
    }
  }

  lemma {:induction false} GroupsWithin(coords: seq<int>, threshold: real)
    ensures CloseWithinRuns(Groups(coords, threshold), threshold)
    decreases |coords|
  {
    if |coords| > 0 {
      var n := |coords| - 1;
      GroupsWithin(coords[..n], threshold);
      WithinAdd(Groups(coords[..n], threshold), coords[n], threshold);
    }
  }

  /** The first value of run `j + 1` is farther than the threshold from
      the last value of run `j`. */
  predicate ApartAt(gs: seq<seq<int>>, j: int, threshold: real)
    requires 0 <= j < |gs| - 1
  {
    |gs[j]| > 0 && |gs[j + 1]| > 0 && !Close(gs[j + 1][0], Last(gs[j]), threshold)
  }

  /** The first value of a run is farther than the threshold from the last
      value of the run before. */
  predicate ApartBetweenRuns(gs: seq<seq<int>>, threshold: real) {
    forall j | 0 <= j < |gs| - 1 :: ApartAt(gs, j, threshold)
  }

  /** A step of the loop keeps consecutive runs apart: `v` starts a new run
      only when it is not close to the last value of the last run. */
  lemma ApartAdd(prev: seq<seq<int>>, v: int, threshold: real)
    requires forall g | g in prev :: |g| > 0
    requires ApartBetweenRuns(prev, threshold)
    ensures ApartBetweenRuns(AddToRuns(prev, v, threshold), threshold)
  {
    var gs := AddToRuns(prev, v, threshold);
    if |prev| > 0 {
      var m := |prev| - 1;
      forall j | 0 <= j < |gs| - 1 ensures ApartAt(gs, j, threshold) {
        assert gs[j] == prev[j];
        if j + 1 < m {
          assert ApartAt(prev, j, threshold);
          assert gs[j + 1] == prev[j + 1];
        } else if j + 1 == m {
          assert ApartAt(prev, j, threshold);
          assert gs[j + 1][0] == prev[m][0];
        } else {
          assert gs[j + 1] == [v];
        }
      }
    }
  }

  lemma {:induction false} GroupsApart(coords: seq<int>, threshold: real)
    ensures ApartBetweenRuns(Groups(coords, threshold), threshold)
    decreases |coords|
  {
    if |coords| > 0 {
      var n := |coords| - 1;
      GroupsApart(coords[..n], threshold);
      ApartAdd(Groups(coords[..n], threshold), coords[n], threshold);
    }
  }

  function Sum(s: seq<int>): int
    decreases |s|
  {
    if |s| == 0 then 0 else Sum(s[..|s| - 1]) + s[|s| - 1]
  }

  /** `int(np.mean(run))`: the mean truncated toward zero. */
  function TruncMean(g: seq<int>): int
    requires |g| > 0
  {
    TruncToInt(Sum(g) as real / |g| as real)
  }

  function Lines(gs: seq<seq<int>>): (r: seq<int>)
    requires forall g | g in gs :: |g| > 0
    ensures |r| == |gs|
  {
    seq(|gs|, k requires 0 <= k < |gs| => TruncMean(gs[k]))
  }

  lemma GroupsStep(coords: seq<int>, i: nat, threshold: real)
    requires i < |coords|
    ensures Groups(coords[..i + 1], threshold) == AddToRuns(Groups(coords[..i], threshold), coords[i], threshold)
  {
    assert coords[..i + 1][..i] == coords[..i];
  }

  /** The loop of `agrupar_coordenadas`, with the mean of every run. */
  method GroupCoordinates(coords: seq<int>, threshold: real) returns (lines: seq<int>)
    ensures lines == Lines(Groups(coords, threshold))
  {
    if |coords| == 0 {
      return [];
    }
    var groups := [[coords[0]]];
    assert coords[..1][..0] == [];
    for i := 1 to |coords|
      invariant groups == Groups(coords[..i], threshold)
    {
      GroupsStep(coords, i, threshold);
      var coord := coords[i];
      var last := groups[|groups| - 1];
      if Abs((coord - last[|last| - 1]) as real) <= threshold {
        groups := groups[..|groups| - 1] + [last + [coord]];
      } else {
        groups := groups + [[coord]];
      }
    }
    assert coords[..|coords|] == coords;
    lines := RunMeans(groups);
  }

  /** The list comprehension over the runs: the truncated mean of each. */
  method RunMeans(groups: seq<seq<int>>) returns (lines: seq<int>)
    requires forall g | g in groups :: |g| > 0
    ensures lines == Lines(groups)
  {
    lines := [];
    for k := 0 to |groups|
      invariant |lines| == k
      invariant forall j | 0 <= j < k :: lines[j] == TruncMean(groups[j])
    {
      lines := lines + [TruncMean(groups[k])];
    }
  }

  /** The sum of an increasing run lies between its length times its first
      and its length times its last value. */
  lemma {:induction false} SumBounds(g: seq<int>)
    requires |g| > 0 && StrictlyIncreasing(g)
    ensures |g| * g[0] <= Sum(g) <= |g| * Last(g)
    decreases |g|
  {
    if |g| > 1 {
      var n := |g| - 1;
      SumBounds(g[..n]);
      assert g[..n][0] == g[0] && Last(g[..n]) == g[n - 1];
    }
  }

  /** For non-negative coordinates the line of a run lies between the run's
      first and last values. */
  lemma MeanWithinRun(g: seq<int>)
    requires |g| > 0 && StrictlyIncreasing(g) && g[0] >= 0
    ensures g[0] <= TruncMean(g) <= Last(g)
  {
    SumBounds(g);
    var n := |g| as real;
    MulCast(|g|, g[0]);
    MulCast(|g|, Last(g));
    DivBetween(Sum(g) as real, n, g[0] as real, Last(g) as real);
    TruncBetween(Sum(g) as real / n, g[0], Last(g));
  }

  lemma MulCast(a: int, b: int)
    ensures (a * b) as real == b as real * a as real
  {
  }

  lemma TruncBetween(x: real, lo: int, hi: int)
    requires 0 <= lo && lo as real <= x <= hi as real
    ensures lo <= TruncToInt(x) <= hi
  {
  }

  lemma DivBetween(s: real, n: real, lo: real, hi: real)
    requires n > 0.0 && lo * n <= s <= hi * n
    ensures lo <= s / n <= hi
  {
    var q := s / n;
    assert q * n == s;
    assert (q - lo) * n >= 0.0 && (hi - q) * n >= 0.0;
  }

  lemma AppendIncreasing(s: seq<int>, v: int)
    requires StrictlyIncreasing(s) && (|s| > 0 ==> Last(s) < v)
    ensures StrictlyIncreasing(s + [v])
  {
  }

  /** Every run is non-empty, strictly increasing and lies between `lo` and
      `hi`. */
  ghost predicate RunsWithin(gs: seq<seq<int>>, lo: int, hi: int) {
    forall k | 0 <= k < |gs| :: |gs[k]| > 0 && StrictlyIncreasing(gs[k]) && lo <= gs[k][0] && Last(gs[k]) <= hi
  }

  /** Run `j + 1` starts after run `j` ends. */
  predicate FollowsAt(gs: seq<seq<int>>, j: int)
    requires 0 <= j < |gs| - 1
  {
    |gs[j]| > 0 && |gs[j + 1]| > 0 && Last(gs[j]) < gs[j + 1][0]
  }

  /** Every run starts after the previous one ends. */
  predicate RunsFollow(gs: seq<seq<int>>) {
    forall j | 0 <= j < |gs| - 1 :: FollowsAt(gs, j)
  }

  /** The runs of a strictly increasing input are strictly increasing and
      lie between its first and last values. */
  lemma {:induction false} GroupsIncreasing(coords: seq<int>, threshold: real)
    requires StrictlyIncreasing(coords) && |coords| > 0
    ensures RunsWithin(Groups(coords, threshold), coords[0], Last(coords))
    decreases |coords|
  {
    if |coords| > 1 {
      var n := |coords| - 1;
      var prefix := coords[..n];
      GroupsIncreasing(prefix, threshold);
      GroupsLast(prefix, threshold);
      assert prefix[0] == coords[0] && Last(prefix) < coords[n];
      IncreasingAdd(Groups(prefix, threshold), coords[n], coords[0], threshold);
      assert coords == prefix + [coords[n]];
    }
  }

  /** Adding a value above the last run's end keeps the runs increasing and
      between the first value and the new one. */
  lemma IncreasingAdd(prev: seq<seq<int>>, v: int, lo: int, threshold: real)
    requires |prev| > 0 && forall g | g in prev :: |g| > 0
    requires RunsWithin(prev, lo, Last(prev[|prev| - 1])) && Last(prev[|prev| - 1]) < v
    ensures RunsWithin(AddToRuns(prev, v, threshold), lo, v)
  {
    var m := |prev| - 1;
    AppendIncreasing(prev[m], v);
    var r := AddToRuns(prev, v, threshold);
    forall k | 0 <= k < |r|
      ensures |r[k]| > 0 && StrictlyIncreasing(r[k]) && lo <= r[k][0] && Last(r[k]) <= v
    {
      if k < m {
        assert r[k] == prev[k];
      } else if k == m {
        assert r[k] == prev[m] || r[k] == prev[m] + [v];
      }
    }
  }

  /** A value above the last run's end keeps the runs following each other,
      whether it extends the last run or starts a new one. */
  lemma FollowExtend(prev: seq<seq<int>>, v: int)
    requires |prev| > 0 && RunsFollow(prev) && |prev[|prev| - 1]| > 0
    requires Last(prev[|prev| - 1]) < v
    ensures RunsFollow(prev[..|prev| - 1] + [prev[|prev| - 1] + [v]])
    ensures RunsFollow(prev + [[v]])
  {
    var m := |prev| - 1;
    var gs := prev[..m] + [prev[m] + [v]];
    forall j | 0 <= j < |gs| - 1 ensures FollowsAt(gs, j) {
      assert FollowsAt(prev, j);
      assert gs[j] == prev[j];
      if j + 1 < m {
        assert gs[j + 1] == prev[j + 1];
      } else {
        assert gs[j + 1] == prev[m] + [v];
      }
    }
    var hs := prev + [[v]];
    forall j | 0 <= j < |hs| - 1 ensures FollowsAt(hs, j) {
      assert hs[j] == prev[j];
      if j + 1 < |prev| {
        assert FollowsAt(prev, j);
        assert hs[j + 1] == prev[j + 1];
      } else {
        assert hs[j + 1] == [v];
      }
    }
  }

  /** Each run follows the previous one. */
  lemma {:induction false} GroupsOrdered(coords: seq<int>, threshold: real)
    requires StrictlyIncreasing(coords)
    ensures RunsFollow(Groups(coords, threshold))
    decreases |coords|
  {
    if |coords| > 1 {
      var n := |coords| - 1;
      var prefix := coords[..n];
      GroupsOrdered(prefix, threshold);
      GroupsLast(prefix, threshold);
      var prev := Groups(prefix, threshold);
      assert Last(prefix) < coords[n];
      FollowExtend(prev, coords[n]);
    }
  }

  lemma LastOfFlatten(gs: seq<seq<int>>)
    requires |gs| > 0 && forall g | g in gs :: |g| > 0
    ensures |Flatten(gs)| > 0 && Last(Flatten(gs)) == Last(gs[|gs| - 1])
  {
  }

  /** For non-negative, strictly increasing input the grid lines are
      strictly increasing, lie between the first and the last coordinate,
      and are no more than the coordinates. */
  lemma LinesIncreasing(coords: seq<int>, threshold: real)
    requires StrictlyIncreasing(coords) && (|coords| > 0 ==> coords[0] >= 0)
    ensures var lines := Lines(Groups(coords, threshold));
      StrictlyIncreasing(lines) && |lines| <= |coords|
      && forall k | 0 <= k < |lines| :: coords[0] <= lines[k] <= Last(coords)
  {
    var gs := Groups(coords, threshold);
    if |coords| > 0 {
      GroupsIncreasing(coords, threshold);
      GroupsOrdered(coords, threshold);
      var lines := Lines(gs);
      forall k | 0 <= k < |gs|
        ensures gs[k][0] <= lines[k] <= Last(gs[k])
      {
        MeanWithinRun(gs[k]);
      }
      forall k, l | 0 <= k < l < |lines|
        ensures lines[k] < lines[l]
      {
        RunsOrdered(gs, coords[0], Last(coords), k, l);
      }
    }
  }

  lemma {:induction false} RunsOrdered(gs: seq<seq<int>>, lo: int, hi: int, k: nat, l: nat)
    requires RunsWithin(gs, lo, hi) && RunsFollow(gs)
    requires k < l < |gs|
    ensures Last(gs[k]) < gs[l][0]
    decreases l - k
  {
    if k + 1 < l {
      RunsOrdered(gs, lo, hi, k, l - 1);
      assert gs[l - 1][0] <= Last(gs[l - 1]);
      assert FollowsAt(gs, l - 1);
    }
  }

  // ---------------------------------------------------------------------------
  // generar_malla
  // ---------------------------------------------------------------------------

  datatype Mesh = Mesh(linesX: seq<int>, linesY: seq<int>, rows: nat, cols: nat, thresholdX: real, thresholdY: real)

  /** `generar_malla` without the mesh image: the lines, the row and column
      counts (one row per horizontal line, one column per vertical line) and
      the thresholds. */
  method MakeMesh(cells: seq<CellBox>) returns (m: Mesh)
    ensures m.thresholdX == ThresholdX(cells) && m.thresholdY == ThresholdY(cells)
    ensures m.linesX == Lines(Groups(SortedDistinct(Xs(cells)), m.thresholdX))
    ensures m.linesY == Lines(Groups(SortedDistinct(Ys(cells)), m.thresholdY))
    ensures m.cols == |m.linesX| && m.rows == |m.linesY|
  {
    var tx, ty := ThresholdX(cells), ThresholdY(cells);
    var lx := GroupCoordinates(SortedDistinct(Xs(cells)), tx);
    var ly := GroupCoordinates(SortedDistinct(Ys(cells)), ty);
    m := Mesh(lx, ly, |ly|, |lx|, tx, ty);
  }

  function Xs(cells: seq<CellBox>): (r: seq<int>)
    ensures |r| == |cells| && forall k | 0 <= k < |cells| :: r[k] == cells[k].x
  {
    seq(|cells|, k requires 0 <= k < |cells| => cells[k].x)
  }

  function Ys(cells: seq<CellBox>): (r: seq<int>)
    ensures |r| == |cells| && forall k | 0 <= k < |cells| :: r[k] == cells[k].y
  {
    seq(|cells|, k requires 0 <= k < |cells| => cells[k].y)
  }

  /** With non-negative cell coordinates every vertical line lies between
      the smallest and the largest cell x, the lines increase, and there are
      no more lines than distinct x values (likewise for y). */
  lemma MeshLinesWithinCells(cells: seq<CellBox>)
    requires forall k | 0 <= k < |cells| :: cells[k].x >= 0 && cells[k].y >= 0
    ensures var xs := SortedDistinct(Xs(cells));
      var lines := Lines(Groups(xs, ThresholdX(cells)));
      StrictlyIncreasing(lines) && |lines| <= |xs|
      && forall k | 0 <= k < |lines| :: exists a, b | 0 <= a < |cells| && 0 <= b < |cells| ::
           cells[a].x <= lines[k] <= cells[b].x
  {
    var xs := SortedDistinct(Xs(cells));
    if |xs| > 0 {
      assert xs[0] in Xs(cells) && Last(xs) in Xs(cells);
      var a :| 0 <= a < |cells| && Xs(cells)[a] == xs[0];
      LinesIncreasing(xs, ThresholdX(cells));
      var b :| 0 <= b < |cells| && Xs(cells)[b] == Last(xs);
      var lines := Lines(Groups(xs, ThresholdX(cells)));
      forall k | 0 <= k < |lines|
        ensures exists a, b | 0 <= a < |cells| && 0 <= b < |cells| :: cells[a].x <= lines[k] <= cells[b].x
      {
        assert cells[a].x <= lines[k] <= cells[b].x;
      }
    } else {
      LinesIncreasing(xs, ThresholdX(cells));
    }
  }

  // ---------------------------------------------------------------------------
  // The cuadricula of image_to_HTML
  // ---------------------------------------------------------------------------

  datatype GridCell = GridCell(x: int, y: int, w: int, h: int)

  /** The extent from line `k` to the next line, or to the image edge after
      the last line. */
  function Extent(lines: seq<int>, k: nat, edge: int): int
    requires k < |lines|
  {
    if k < |lines| - 1 then lines[k + 1] - lines[k] else edge - lines[k]
  }

  function CellAt(linesX: seq<int>, linesY: seq<int>, i: nat, j: nat, width: int, height: int): GridCell
    requires i < |linesY| && j < |linesX|
  {
    GridCell(linesX[j], linesY[i], Extent(linesX, j, width), Extent(linesY, i, height))
  }

  /** The nested loops building the grid, one row per horizontal line. */
  method BuildGrid(linesX: seq<int>, linesY: seq<int>, width: int, height: int) returns (grid: seq<seq<GridCell>>)
    ensures |grid| == |linesY|
    ensures forall i | 0 <= i < |grid| :: |grid[i]| == |linesX|
    ensures forall i, j | 0 <= i < |linesY| && 0 <= j < |linesX| :: grid[i][j] == CellAt(linesX, linesY, i, j, width, height)
  {
    grid := [];
    for i := 0 to |linesY|
      invariant |grid| == i
      invariant forall r | 0 <= r < i :: |grid[r]| == |linesX|
      invariant forall r, j | 0 <= r < i && 0 <= j < |linesX| :: grid[r][j] == CellAt(linesX, linesY, r, j, width, height)
    {
      var row := [];
      for j := 0 to |linesX|
        invariant |row| == j
        invariant forall c | 0 <= c < j :: row[c] == CellAt(linesX, linesY, i, c, width, height)
      {
        var x := linesX[j];
        var y := linesY[i];
        var w := if j < |linesX| - 1 then linesX[j + 1] - x else width - x;
        var h := if i < |linesY| - 1 then linesY[i + 1] - y else height - y;
        row := row + [GridCell(x, y, w, h)];
      }
      grid := grid + [row];
    }
  }

  function SumExtents(lines: seq<int>, k: nat, edge: int): int
    requires k <= |lines|
    decreases |lines| - k
  {
    if k == |lines| then 0 else Extent(lines, k, edge) + SumExtents(lines, k + 1, edge)
  }

  /** For strictly increasing lines before the image edge every extent is
      positive and the extents from line `k` on add up to the distance from
      that line to the edge. */
  lemma {:induction false} ExtentsTile(lines: seq<int>, k: nat, edge: int)
    requires StrictlyIncreasing(lines) && |lines| > 0 && Last(lines) < edge
    requires k < |lines|
    ensures SumExtents(lines, k, edge) == edge - lines[k]
    ensures forall j | k <= j < |lines| :: Extent(lines, j, edge) > 0
    decreases |lines| - k
  {
    if k < |lines| - 1 {
      ExtentsTile(lines, k + 1, edge);
    }
  }

  /** The widths of each grid row tile the image from the first line to the
      right edge, all of them positive. */
  lemma RowWidthsTile(linesX: seq<int>, linesY: seq<int>, width: int, height: int, i: nat)
    requires StrictlyIncreasing(linesX) && |linesX| > 0 && Last(linesX) < width
    requires i < |linesY|
    ensures forall j | 0 <= j < |linesX| :: CellAt(linesX, linesY, i, j, width, height).w > 0
    ensures SumExtents(linesX, 0, width) == width - linesX[0]
  {
    ExtentsTile(linesX, 0, width);
  }
}
