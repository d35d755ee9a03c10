/** Contour cleanup (DibujarContornosCuadrados.py): the circular removal of
    nearly collinear vertices from a cell contour, and the area filter and
    hierarchy re-indexing that picks the contours without children. Pixel
    coordinates are integers; every `norm(...) < min_distance` test is the
    same comparison on squared distances. The arccos of the turn angle is an
    abstract function into [0, 180]. */
module Contours {
  import opened Common

  datatype Point = Point(x: int, y: int)

  function Sub(p: Point, q: Point): Point { Point(p.x - q.x, p.y - q.y) }

  /** The squared Euclidean distance (`calcular_distancia`, squared). */
  function SqDist(p: Point, q: Point): nat {
    (p.x - q.x) * (p.x - q.x) + (p.y - q.y) * (p.y - q.y)
  }

  /** `norm(p - q) < minDistance` for a non-negative bound. */
  predicate Near(p: Point, q: Point, minDistance: nat) {
    SqDist(p, q) < minDistance * minDistance
  }

  type Degrees = r: real | 0.0 <= r <= 180.0

  /** `degrees(arccos(clip(cos θ, -1, 1)))` of two non-zero vectors. */
  type AngleOf = (Point, Point) -> Degrees

  /** `calcular_angulo`: the angle at `p2` between the vectors to `p1` and
      `p3`, and 180 when one of them is zero. */
  function AngleAt(p1: Point, p2: Point, p3: Point, between: AngleOf): (r: Degrees)
    ensures (p1 == p2 || p3 == p2) ==> r == 180.0
    ensures p1 != p2 && p3 != p2 ==> r == between(Sub(p1, p2), Sub(p3, p2))
  {
    if Sub(p1, p2) == Point(0, 0) || Sub(p3, p2) == Point(0, 0) then 180.0
    else between(Sub(p1, p2), Sub(p3, p2))
  }

  // ---------------------------------------------------------------------------
  // eliminar_vertices_alineados
  // ---------------------------------------------------------------------------

  /** Python's `contour[i - 1]`: the previous vertex, the last one for `i == 0`. */
  function Prev(c: seq<Point>, i: nat): Point
    requires i < |c|
  {
    if i == 0 then c[|c| - 1] else c[i - 1]
  }

  /** Python's `(i + k) % n` for `i < n` and `0 <= k <= n`. */
  function Wrap(i: nat, k: nat, n: nat): (r: nat)
    requires i < n && k <= n
    ensures r < n
  {
    if i + k < n then i + k else i + k - n
  }

  /** Stepping one vertex on with `% n`. */
  lemma NextMod(x: nat, n: nat)
    requires x < n
    ensures (x + 1) % n == if x + 1 == n then 0 else x + 1
  {
  }

  /** An index at most one past the end, taken `% n`. */
  lemma WrapMod(x: nat, n: nat)
    requires 0 < n && x <= n
    ensures x % n == if x == n then 0 else x
  {
  }

  /** The vertex `m` steps after `i`, going round. */
  function Ahead(c: seq<Point>, i: nat, m: nat): Point
    requires i < |c| && m <= |c|
  {
    c[Wrap(i, m, |c|)]
  }

  /** The successor scan from step `k`: how many steps after `i` the scan
      stops, at the first vertex not near vertex `i`, or after going round
      (`|c|` steps, back at `i`). */
  function SuccessorSteps(c: seq<Point>, i: nat, k: nat, minDistance: nat): (r: nat)
    requires i < |c| && 1 <= k <= |c|
    ensures k <= r <= |c|
    decreases |c| - k
  {
    if k == |c| || !Near(Ahead(c, i, k), c[i], minDistance) then k
    else SuccessorSteps(c, i, k + 1, minDistance)
  }

  /** `next_index`: the vertex the scan stops at. */
  function Successor(c: seq<Point>, i: nat, minDistance: nat): (r: nat)
    requires i < |c|
    ensures r < |c|
  {
    Wrap(i, SuccessorSteps(c, i, 1, minDistance), |c|)
  }

  /** The scan stops at a vertex far enough from `i`, or back at `i`; every
      vertex it steps over is near `i`. */
  lemma {:induction false} SuccessorFirstFar(c: seq<Point>, i: nat, k: nat, minDistance: nat)
    requires i < |c| && 1 <= k <= |c|
    ensures var r := SuccessorSteps(c, i, k, minDistance);
      r == |c| || !Near(Ahead(c, i, r), c[i], minDistance)
    ensures forall m | k <= m < SuccessorSteps(c, i, k, minDistance) :: Near(Ahead(c, i, m), c[i], minDistance)
    decreases |c| - k
  {
    if !(k == |c| || !Near(Ahead(c, i, k), c[i], minDistance)) {
      SuccessorFirstFar(c, i, k + 1, minDistance);
    }
  }

  /** Whether the evaluation of vertex `i` removes it. */
  predicate Removes(c: seq<Point>, i: nat, minDistance: nat, threshold: real, between: AngleOf)
    requires i < |c|
  {
    var next := Successor(c, i, minDistance);
    var v0, v1, v2 := Prev(c, i), c[i], c[next];
    next != i
    && !Near(v1, v0, minDistance)
    && Sub(v1, v0) != Point(0, 0) && Sub(v2, v1) != Point(0, 0)
    && (between(Sub(v1, v0), Sub(v2, v1)) >= threshold || between(Sub(v1, v0), Sub(v2, v1)) <= 10.0)
  }

  /** A vertex is removed only when its predecessor and the chosen successor
      are both at least `minDistance` away, every vertex between it and the
      successor is nearer than that, and the turn is at least the threshold
      or at most 10 degrees. */
  lemma RemovalCriterion(c: seq<Point>, i: nat, minDistance: nat, threshold: real, between: AngleOf)
    requires i < |c|
    requires Removes(c, i, minDistance, threshold, between)
    ensures var steps := SuccessorSteps(c, i, 1, minDistance);
      var next := Successor(c, i, minDistance);
      steps < |c| && next == Wrap(i, steps, |c|)
      && !Near(c[i], Prev(c, i), minDistance) && !Near(c[next], c[i], minDistance)
      && (forall m | 1 <= m < steps :: Near(Ahead(c, i, m), c[i], minDistance))
      && (between(Sub(c[i], Prev(c, i)), Sub(c[next], c[i])) >= threshold
          || between(Sub(c[i], Prev(c, i)), Sub(c[next], c[i])) <= 10.0)
  {
    SuccessorFirstFar(c, i, 1, minDistance);
  }

  /** The successor scan of the loop (`next_index`). */
  method ScanSuccessor(c: seq<Point>, i: nat, minDistance: nat) returns (next: nat)
    requires 3 <= |c| && i < |c|
    ensures next == Successor(c, i, minDistance)
  {
    NextMod(i, |c|);
    next := (i + 1) % |c|;
    var k := 1;
    while next != i && Near(c[next], c[i], minDistance)
      invariant 1 <= k <= |c|
      invariant next == Wrap(i, k, |c|)
      invariant (next == i) == (k == |c|)
      invariant SuccessorSteps(c, i, k, minDistance) == SuccessorSteps(c, i, 1, minDistance)
      decreases |c| - k
    {
      NextMod(next, |c|);
      next := (next + 1) % |c|;
      k := k + 1;
    }
  }

  /** One evaluation of the loop: the successor scan and the tests. */
  method EvaluateVertex(c: seq<Point>, i: nat, minDistance: nat, threshold: real, between: AngleOf)
    returns (remove: bool)
    requires 3 <= |c| && i < |c|
    ensures remove == Removes(c, i, minDistance, threshold, between)
  {
    var v0 := if i == 0 then c[|c| - 1] else c[i - 1];
    var v1 := c[i];
    var next := ScanSuccessor(c, i, minDistance);
    if next == i {
      return false;
    }
    var v2 := c[next];
    if Near(v1, v0, minDistance) {
      return false;
    }
    var vec1, vec2 := Sub(v1, v0), Sub(v2, v1);
    if vec1 == Point(0, 0) || vec2 == Point(0, 0) {
      return false;
    }
    var angle := between(vec1, vec2);
    remove := angle >= threshold || angle <= 10.0;
  }

  /** `r` is `s` with some elements left out, order kept: `idx` picks the
      kept positions in increasing order. */
  predicate SubseqBy(r: seq<Point>, s: seq<Point>, idx: seq<nat>) {
    |idx| == |r|
    && (forall k | 0 <= k < |idx| :: idx[k] < |s| && r[k] == s[idx[k]])
    && (forall k, l | 0 <= k < l < |idx| :: idx[k] < idx[l])
  }

  lemma SubseqByRemove(r: seq<Point>, s: seq<Point>, idx: seq<nat>, i: nat)
    requires SubseqBy(r, s, idx) && i < |r|
    ensures SubseqBy(r[..i] + r[i + 1..], s, idx[..i] + idx[i + 1..])
  {
    var idx' := idx[..i] + idx[i + 1..];
    forall k, l | 0 <= k < l < |idx'|
      ensures idx'[k] < idx'[l]
    {
      var ok := if k < i then k else k + 1;
      var ol := if l < i then l else l + 1;
      assert idx'[k] == idx[ok] && idx'[l] == idx[ol];
    }
  }

  /** One evaluation of the loop: the vertex list as it stood, the index
      evaluated and whether the vertex there was removed. */
  datatype Evaluation = Evaluation(list: seq<Point>, at: nat, removed: bool)

  /** A test deciding whether the vertex at an index of a list is removed. */
  type RemovalRule = (seq<Point>, nat) -> bool

  /** The removal test of the loop, for the given distance and threshold. */
  function RemovalTest(minDistance: nat, threshold: real, between: AngleOf): RemovalRule {
    (c: seq<Point>, i: nat) => i < |c| && Removes(c, i, minDistance, threshold, between)
  }

  /** The list after the evaluation: the vertex popped, or unchanged. */
  function Dropped(e: Evaluation): seq<Point>
    requires e.at < |e.list|
  {
    if e.removed then e.list[..e.at] + e.list[e.at + 1..] else e.list
  }

  /** The index evaluated next, `i % len` after a removal and `(i + 1) % len`
      otherwise: the same index or the next one, back to 0 past the end. */
  function NextAt(e: Evaluation): (r: nat)
    requires e.at < |e.list| && 2 <= |e.list|
    ensures r < |Dropped(e)|
  {
    var j := if e.removed then e.at else e.at + 1;
    if j < |Dropped(e)| then j else 0
  }

  /** The loop goes on: fewer removals than vertices, fewer than twice as
      many evaluations as vertices, and at least three vertices left. */
  predicate Continues(r: seq<Point>, removals: nat, evaluations: nat) {
    removals < |r| && evaluations < 2 * |r| && 3 <= |r|
  }

  /** The evaluation of vertex `i` of `r`. */
  function Evaluate(r: seq<Point>, i: nat, removes: RemovalRule): (e: Evaluation)
    ensures e.list == r && e.at == i && e.removed == removes(r, i)
  {
    Evaluation(r, i, removes(r, i))
  }

  /** The removal count after evaluation `e`. */
  function Counted(removals: nat, e: Evaluation): nat {
    removals + if e.removed then 1 else 0
  }

  /** The loop from the state `r`, `i`, `removals`, `evaluations` on: the
      list it returns. */
  function SimplifyFrom(r: seq<Point>, i: nat, removals: nat, evaluations: nat, removes: RemovalRule): seq<Point>
    requires i < |r|
    decreases if evaluations < 2 * |r| then 2 * |r| - evaluations else 0
  {
    if !Continues(r, removals, evaluations) then r
    else
      var e := Evaluate(r, i, removes);
      SimplifyFrom(Dropped(e), NextAt(e), Counted(removals, e), evaluations + 1, removes)
  }

  /** The evaluations the loop makes from that state on, in order. */
  function Evals(r: seq<Point>, i: nat, removals: nat, evaluations: nat, removes: RemovalRule): seq<Evaluation>
    requires i < |r|
    decreases if evaluations < 2 * |r| then 2 * |r| - evaluations else 0
  {
    if !Continues(r, removals, evaluations) then []
    else
      var e := Evaluate(r, i, removes);
      [e] + Evals(Dropped(e), NextAt(e), Counted(removals, e), evaluations + 1, removes)
  }

  /** `eliminar_vertices_alineados` as a function of its input. */
  function Simplify(contour: seq<Point>, minDistance: nat, threshold: real, between: AngleOf): seq<Point> {
    if |contour| < 3 then contour
    else SimplifyFrom(contour, 0, 0, 0, RemovalTest(minDistance, threshold, between))
  }

  /** The evaluations `eliminar_vertices_alineados` makes on its input. */
  function Trace(contour: seq<Point>, minDistance: nat, threshold: real, between: AngleOf): seq<Evaluation> {
    if |contour| < 3 then []
    else Evals(contour, 0, 0, 0, RemovalTest(minDistance, threshold, between))
  }

  /** The evaluation removed its vertex exactly when the rule holds on the
      list as it stood then. */
  predicate FollowsRule(e: Evaluation, removes: RemovalRule) {
    e.at < |e.list| && 3 <= |e.list| && e.removed == removes(e.list, e.at)
  }

  /** Evaluation `k + 1` works on the list evaluation `k` left, at the index
      it moved to. */
  predicate Linked(ev: seq<Evaluation>, k: nat)
    requires k + 1 < |ev|
  {
    ev[k].at < |ev[k].list| && 2 <= |ev[k].list|
    && ev[k + 1].list == Dropped(ev[k]) && ev[k + 1].at == NextAt(ev[k])
  }

  /** `result` is what a run with evaluations `ev` returns when started on
      `r`: `r` itself without evaluations, otherwise the list the last one
      left. */
  predicate EndsWith(ev: seq<Evaluation>, r: seq<Point>, result: seq<Point>) {
    if |ev| == 0 then result == r
    else ev[|ev| - 1].at < |ev[|ev| - 1].list| && result == Dropped(ev[|ev| - 1])
  }

  /** Every evaluation from a state on follows the rule. */
  lemma {:induction false} EvalsFollowRule(r: seq<Point>, i: nat, removals: nat, evaluations: nat, removes: RemovalRule)
    requires i < |r|
    ensures var ev := Evals(r, i, removals, evaluations, removes);
      forall k | 0 <= k < |ev| :: FollowsRule(ev[k], removes)
    decreases if evaluations < 2 * |r| then 2 * |r| - evaluations else 0
  {
    if Continues(r, removals, evaluations) {
      var e := Evaluate(r, i, removes);
      var rest := Evals(Dropped(e), NextAt(e), Counted(removals, e), evaluations + 1, removes);
      var ev := Evals(r, i, removals, evaluations, removes);
      EvalsFollowRule(Dropped(e), NextAt(e), Counted(removals, e), evaluations + 1, removes);
      assert Evals(Dropped(e), NextAt(e), Counted(removals, e), evaluations + 1, removes) == rest;
      assert forall k | 0 <= k < |rest| :: FollowsRule(rest[k], removes);
      assert ev == [e] + rest;
      assert FollowsRule(e, removes);
      forall k | 0 <= k < |ev|
        ensures FollowsRule(ev[k], removes)
      {
        if k > 0 {
          assert ev[k] == rest[k - 1];
        } else {
          assert ev[k] == e;
        }
      }
    }
  }

  /** There are no evaluations from a state exactly when the loop stops
      there at once; otherwise the first is that of the state's vertex. */
  lemma EvalsStart(r: seq<Point>, i: nat, removals: nat, evaluations: nat, removes: RemovalRule)
    requires i < |r|
    ensures var ev := Evals(r, i, removals, evaluations, removes);
      && (|ev| == 0 <==> !Continues(r, removals, evaluations))
      && (|ev| > 0 ==> ev[0] == Evaluate(r, i, removes))
  {
  }

  /** Each evaluation from a state on works on the list the previous one
      left, at the index it moved to. */
  lemma {:induction false} EvalsLinked(r: seq<Point>, i: nat, removals: nat, evaluations: nat, removes: RemovalRule)
    requires i < |r|
    ensures var ev := Evals(r, i, removals, evaluations, removes);
      forall k | 0 <= k < |ev| - 1 :: Linked(ev, k)
    decreases if evaluations < 2 * |r| then 2 * |r| - evaluations else 0
  {
    if Continues(r, removals, evaluations) {
      var e := Evaluate(r, i, removes);
      var r', i', rem' := Dropped(e), NextAt(e), Counted(removals, e);
      var rest := Evals(r', i', rem', evaluations + 1, removes);
      var ev := Evals(r, i, removals, evaluations, removes);
      EvalsLinked(r', i', rem', evaluations + 1, removes);
      assert Evals(r', i', rem', evaluations + 1, removes) == rest;
      assert forall k | 0 <= k < |rest| - 1 :: Linked(rest, k);
      EvalsStart(r', i', rem', evaluations + 1, removes);
      assert ev == [e] + rest;
      forall k | 0 <= k < |ev| - 1
        ensures Linked(ev, k)
      {
        if k == 0 {
          assert ev[1] == rest[0];
        } else {
          assert Linked(rest, k - 1);
          assert ev[k] == rest[k - 1] && ev[k + 1] == rest[k];
        }
      }
    }
  }

  /** The loop returns the list the last evaluation left, or the list it
      started from when it makes none. */
  lemma {:induction false} EvalsEnd(r: seq<Point>, i: nat, removals: nat, evaluations: nat, removes: RemovalRule)
    requires i < |r|
    ensures EndsWith(Evals(r, i, removals, evaluations, removes), r, SimplifyFrom(r, i, removals, evaluations, removes))
    decreases if evaluations < 2 * |r| then 2 * |r| - evaluations else 0
  {
    if Continues(r, removals, evaluations) {
      var e := Evaluate(r, i, removes);
      var r', i', rem' := Dropped(e), NextAt(e), Counted(removals, e);
      var rest := Evals(r', i', rem', evaluations + 1, removes);
      var ev := Evals(r, i, removals, evaluations, removes);
      EvalsEnd(r', i', rem', evaluations + 1, removes);
      assert ev == [e] + rest;
      assert SimplifyFrom(r, i, removals, evaluations, removes) == SimplifyFrom(r', i', rem', evaluations + 1, removes);
      if |rest| > 0 {
        assert ev[|ev| - 1] == rest[|rest| - 1];
      }
    }
  }

  /** The loop makes at most `2 * |r| - evaluations` more evaluations. */
  lemma {:induction false} EvalsBound(r: seq<Point>, i: nat, removals: nat, evaluations: nat, removes: RemovalRule)
    requires i < |r|
    ensures |Evals(r, i, removals, evaluations, removes)| == 0
            || evaluations + |Evals(r, i, removals, evaluations, removes)| <= 2 * |r|
    decreases if evaluations < 2 * |r| then 2 * |r| - evaluations else 0
  {
    if Continues(r, removals, evaluations) {
      var e := Evaluate(r, i, removes);
      EvalsBound(Dropped(e), NextAt(e), Counted(removals, e), evaluations + 1, removes);
    }
  }

  /** What `eliminar_vertices_alineados` does, as a trace: it starts at
      vertex 0 of its input, each evaluation removes its vertex exactly when
      the removal test holds on the list as it stood then, each works on the
      list the previous one left, there are at most twice as many
      evaluations as vertices, and the result is the list the last one left
      (the input itself when nothing was evaluated). */
  lemma SimplifyTrace(contour: seq<Point>, minDistance: nat, threshold: real, between: AngleOf)
    ensures var ev := Trace(contour, minDistance, threshold, between);
      && (|ev| > 0 ==> ev[0].list == contour && ev[0].at == 0)
      && (forall k | 0 <= k < |ev| :: ev[k].at < |ev[k].list| && 3 <= |ev[k].list|
            && (ev[k].removed <==> Removes(ev[k].list, ev[k].at, minDistance, threshold, between)))
      && (forall k | 0 <= k < |ev| - 1 :: Linked(ev, k))
      && |ev| <= 2 * |contour|
      && EndsWith(ev, contour, Simplify(contour, minDistance, threshold, between))
  {
    if |contour| >= 3 {
      var rule := RemovalTest(minDistance, threshold, between);
      var ev := Trace(contour, minDistance, threshold, between);
      EvalsFollowRule(contour, 0, 0, 0, rule);
      EvalsStart(contour, 0, 0, 0, rule);
      EvalsLinked(contour, 0, 0, 0, rule);
      EvalsEnd(contour, 0, 0, 0, rule);
      EvalsBound(contour, 0, 0, 0, rule);
      forall k | 0 <= k < |ev|
        ensures ev[k].at < |ev[k].list| && 3 <= |ev[k].list|
          && (ev[k].removed <==> Removes(ev[k].list, ev[k].at, minDistance, threshold, between))
      {
        assert FollowsRule(ev[k], rule);
      }
    }
  }

  /** `rule` is the removal test for the given distance and threshold. */
  ghost predicate Decides(rule: RemovalRule, minDistance: nat, threshold: real, between: AngleOf) {
    forall c: seq<Point>, j: nat {:trigger Removes(c, j, minDistance, threshold, between)} | j < |c| ::
      rule(c, j) == Removes(c, j, minDistance, threshold, between)
  }

  /** One pass of the loop body: the vertex at `i` evaluated, popped when
      the test holds, and the index moved on. */
  method EvaluateAndStep(r: seq<Point>, i: nat, minDistance: nat, threshold: real, between: AngleOf,
                         ghost rule: RemovalRule)
    returns (r': seq<Point>, i': nat, removed: bool)
    requires 3 <= |r| && i < |r|
    requires Decides(rule, minDistance, threshold, between)
    ensures var e := Evaluate(r, i, rule);
      removed == e.removed && r' == Dropped(e) && i' == NextAt(e)
  {
    removed := EvaluateVertex(r, i, minDistance, threshold, between);
    if removed {
      r' := r[..i] + r[i + 1..];
      WrapMod(i, |r'|);
      i' := i % |r'|;
    } else {
      r' := r;
      NextMod(i, |r|);
      i' := (i + 1) % |r|;
    }
  }

  /** Every list is a subsequence of itself, by the identity selection. */
  lemma SubseqByIdentity(s: seq<Point>)
    ensures SubseqBy(s, s, seq(|s|, k => k))
  {
  }

  /** One pass of the loop with its counters: the list, index and removal
      count move on as the loop from that state prescribes, and the kept
      vertices stay a subsequence of the contour. */
  method LoopStep(contour: seq<Point>, r: seq<Point>, i: nat, removals: nat, evaluations: nat, ghost idx: seq<nat>,
                  minDistance: nat, threshold: real, between: AngleOf, ghost rule: RemovalRule)
    returns (r': seq<Point>, i': nat, removals': nat, ghost idx': seq<nat>)
    requires i < |r| && Continues(r, removals, evaluations)
    requires |r| + removals == |contour| && SubseqBy(r, contour, idx)
    requires Decides(rule, minDistance, threshold, between)
    ensures i' < |r'| && |r'| + removals' == |contour| && SubseqBy(r', contour, idx')
    ensures removals' == removals || (removals' == removals + 1 && |r'| == |r| - 1)
    ensures SimplifyFrom(r', i', removals', evaluations + 1, rule) == SimplifyFrom(r, i, removals, evaluations, rule)
  {
    var remove;
    r', i', remove := EvaluateAndStep(r, i, minDistance, threshold, between, rule);
    removals', idx' := removals, idx;
    if remove {
      SubseqByRemove(r, contour, idx, i);
      idx' := idx[..i] + idx[i + 1..];
      removals' := removals + 1;
    }
  }

  /** The loop of `eliminar_vertices_alineados` on a contour of at least
      three vertices, `rule` being its removal test; `idx` names the kept
      positions. */
  method RemoveAlignedLoop(contour: seq<Point>, minDistance: nat, threshold: real, between: AngleOf,
                           ghost rule: RemovalRule)
    returns (r: seq<Point>, ghost idx: seq<nat>)
    requires |contour| >= 3
    requires Decides(rule, minDistance, threshold, between)
    ensures r == SimplifyFrom(contour, 0, 0, 0, rule)
    ensures |r| >= 2 && |contour| - |r| <= (|contour| + 1) / 2
    ensures SubseqBy(r, contour, idx)
  {
    r := contour;
    var i: nat := 0;
    var removals: nat := 0;
    var evaluations: nat := 0;
    idx := seq(|contour|, k => k);
    SubseqByIdentity(contour);
    // The source's `n` is `len(contour)` throughout; its two `break`s, on
    // fewer than three vertices and on `evaluaciones >= n * 2`, are the last
    // two conjuncts of the guard.
    while removals < |r| && evaluations < |r| * 2 && 3 <= |r|
      invariant |r| + removals == |contour|
      invariant |r| >= 2 && 0 <= i < |r|
      invariant 2 * removals <= |contour| + 1
      invariant SubseqBy(r, contour, idx)
      invariant SimplifyFrom(r, i, removals, evaluations, rule) == SimplifyFrom(contour, 0, 0, 0, rule)
      decreases 2 * |r| - evaluations
    {
      r, i, removals, idx := LoopStep(contour, r, i, removals, evaluations, idx, minDistance, threshold, between, rule);
      evaluations := evaluations + 1;
    }
    assert !Continues(r, removals, evaluations);
  }

  /** `eliminar_vertices_alineados`: the simplified contour; inputs under
      three vertices come back as they are; otherwise the result keeps at
      least two vertices, in their order, having removed at most half of
      them (rounded up). */
  method RemoveAlignedVertices(contour: seq<Point>, minDistance: nat, threshold: real, between: AngleOf)
    returns (r: seq<Point>)
    ensures r == Simplify(contour, minDistance, threshold, between)
    ensures |contour| < 3 ==> r == contour
    ensures |contour| >= 3 ==> |r| >= 2 && |contour| - |r| <= (|contour| + 1) / 2
    ensures exists idx :: SubseqBy(r, contour, idx)
  {
    if |contour| < 3 {
      SubseqByIdentity(contour);
      return contour;
    }
    ghost var idx;
    r, idx := RemoveAlignedLoop(contour, minDistance, threshold, between, RemovalTest(minDistance, threshold, between));
  }
}
