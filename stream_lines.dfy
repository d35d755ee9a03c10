/** The line-oriented reading of a decoded PDF content stream that the
    filters share: the running text/graphics position, the operator tests
    made on each line (text showing, section 9.4.3 of ISO 32000-1; path
    construction, section 8.5.2; XObject invocation, section 8.8) and the
    line filter itself, parametrised by the point test `hit`.

    The numeric-operand regular expressions (`... Tm`, `... Td`, `... m`,
    `... l`, `... re`, `... cm`) are represented by a `Scanner`: for a line
    it yields the operand strings each expression captures at its leftmost
    match. Converting them with Python's `float` is modelled (Common.ParseFloat),
    including the ValueError a malformed operand raises. The `Do`, bracketed
    text array and parenthesised-string expressions are simple enough to be
    modelled exactly, below. */
module StreamLines {
  import opened Common

  datatype Pos = Pos(x: real, y: real)

  datatype Pair = Pair(x: string, y: string)
  datatype Quad = Quad(x: string, y: string, w: string, h: string)
  datatype Six = Six(a: string, b: string, c: string, d: string, e: string, f: string)

  /** Captures of the leftmost match of each numeric-operand expression on a line. */
  datatype OperatorScan = OperatorScan(
    tm: Option<Six>,       // ([-0-9.]+) x6 Tm
    td: Option<Pair>,      // ([-0-9.]+) ([-0-9.]+) Td
    moveTo: Option<Pair>,  // ([-0-9.]+) ([-0-9.]+) m
    lineTo: Option<Pair>,  // ([-0-9.]+) ([-0-9.]+) l
    rect: Option<Quad>,    // ([-0-9.]+) x4 re
    cm: Option<Six>)       // ([-0-9.]+) x6 cm

  type Scanner = string -> OperatorScan

  /** The scan of a line on which none of the numeric expressions matches. */
  const NoOperators := OperatorScan(None, None, None, None, None, None)

  // ---------------------------------------------------------------------------
  // float() conversions of the captures; None is a ValueError
  // ---------------------------------------------------------------------------

  function PairPoint(p: Pair): Option<Pos> {
    var x :- ParseFloat(p.x);
    var y :- ParseFloat(p.y);
    Some(Pos(x, y))
  }

  function QuadCorner(q: Quad): Option<Pos> {
    var x :- ParseFloat(q.x);
    var y :- ParseFloat(q.y);
    var _ :- ParseFloat(q.w);
    var _ :- ParseFloat(q.h);
    Some(Pos(x, y))
  }

  /** All six operands are converted; the position becomes the last two. */
  function SixTranslation(s: Six): Option<Pos> {
    var _ :- ParseFloat(s.a);
    var _ :- ParseFloat(s.b);
    var _ :- ParseFloat(s.c);
    var _ :- ParseFloat(s.d);
    var e :- ParseFloat(s.e);
    var f :- ParseFloat(s.f);
    Some(Pos(e, f))
  }

  /** `Tm` and `cm` both set the position to operands 5 and 6. */
  function SetBySix(pos: Pos, m: Option<Six>): Option<Pos> {
    if m.None? then Some(pos) else SixTranslation(m.value)
  }

  /** `Td` adds its operands to the position. */
  function ShiftByPair(pos: Pos, m: Option<Pair>): Option<Pos> {
    if m.None? then Some(pos)
    else
      var d :- PairPoint(m.value);
      Some(Pos(pos.x + d.x, pos.y + d.y))
  }

  // ---------------------------------------------------------------------------
  // `/([A-Za-z0-9]+)\s+Do`
  // ---------------------------------------------------------------------------

  function AlnumRun(s: string, from: nat): (r: nat)
    ensures from + r <= |s| || (from >= |s| && r == 0)
    decreases |s| - from
  {
    if from < |s| && IsAlnum(s[from]) then 1 + AlnumRun(s, from + 1) else 0
  }

  function SpaceRun(s: string, from: nat): (r: nat)
    ensures from + r <= |s| || (from >= |s| && r == 0)
    ensures forall k | from <= k < from + r :: IsSpace(s[k])
    ensures from + r < |s| ==> !IsSpace(s[from + r])
    decreases |s| - from
  {
    if from < |s| && IsSpace(s[from]) then 1 + SpaceRun(s, from + 1) else 0
  }

  /** End of the `Do` invocation that starts at `i`, if one does. The runs
      are maximal because the character after each must be outside its class. */
  function DoMatchAt(s: string, i: nat): (r: Option<nat>)
    ensures r.Some? ==> i + 4 <= r.value <= |s|
  {
    if i < |s| && s[i] == '/' then
      var j := i + 1 + AlnumRun(s, i + 1);
      var k := j + SpaceRun(s, j);
      if j > i + 1 && k > j && k + 2 <= |s| && s[k] == 'D' && s[k + 1] == 'o' then Some(k + 2) else None
    else None
  }

  /** Start of the leftmost `Do` invocation at or after `from`. */
  function FirstDo(s: string, from: nat): (r: Option<nat>)
    ensures r.Some? ==> from <= r.value < |s| && DoMatchAt(s, r.value).Some?
    ensures r.None? ==> forall j | from <= j < |s| :: DoMatchAt(s, j).None?
    decreases |s| - from
  {
    if from >= |s| then None
    else if DoMatchAt(s, from).Some? then Some(from)
    else FirstDo(s, from + 1)
  }

  predicate HasDo(s: string) { FirstDo(s, 0).Some? }

  /** Group 1 of the leftmost `Do` match: the XObject name. */
  function DoName(s: string): string
    requires HasDo(s)
  {
    var i := FirstDo(s, 0).value;
    s[i + 1..i + 1 + AlnumRun(s, i + 1)]
  }

  /** `re.sub(r'/([A-Za-z0-9]+)\s+Do', '', s[from..])` */
  function StripDoFrom(s: string, from: nat): string
    decreases |s| - from
  {
    if from >= |s| then ""
    else match DoMatchAt(s, from)
      case Some(e) => StripDoFrom(s, e)
      case None => [s[from]] + StripDoFrom(s, from + 1)
  }

  function StripDo(s: string): string { StripDoFrom(s, 0) }

  lemma {:induction false} StripDoFromShape(s: string, from: nat)
    requires from <= |s|
    ensures |StripDoFrom(s, from)| <= |s| - from
    ensures FirstDo(s, from).None? ==> StripDoFrom(s, from) == s[from..]
    ensures FirstDo(s, from).Some? ==> |StripDoFrom(s, from)| < |s| - from
    decreases |s| - from
  {
    if from < |s| {
      match DoMatchAt(s, from)
      case Some(e) =>
        StripDoFromShape(s, e);
        assert StripDoFrom(s, from) == StripDoFrom(s, e);
        assert FirstDo(s, from) == Some(from);
      case None =>
        StripDoFromShape(s, from + 1);
        var rest := StripDoFrom(s, from + 1);
        assert StripDoFrom(s, from) == [s[from]] + rest;
        assert FirstDo(s, from) == FirstDo(s, from + 1);
        assert s[from..] == [s[from]] + s[from + 1..];
    }
  }

  /** Removing the `Do` invocations changes a line exactly when it has one. */
  lemma StripDoChangesIffDo(s: string)
    ensures StripDo(s) == s <==> !HasDo(s)
  {
    StripDoFromShape(s, 0);
  }

  // ---------------------------------------------------------------------------
  // `\[((?:\([^)]*\)|<[^>]+>)[^]]*)\] T[Jj]`
  // ---------------------------------------------------------------------------

  /** Whether a bracketed text-showing array starts at `i`. The expression
      has no real choice points: the group ends at the first `)` (or `>`),
      the array at the first `]` after it, which must be followed by ` TJ`
      or ` Tj`. */
  predicate BracketShowAt(s: string, i: nat) {
    i + 1 < |s| && s[i] == '[' &&
    var groupEnd :=
      if s[i + 1] == '(' then
        (match FindChar(s, ')', i + 2) case Some(k) => Some(k + 1) case None => None)
      else if s[i + 1] == '<' then
        (match FindChar(s, '>', i + 2) case Some(k) => (if k > i + 2 then Some(k + 1) else None) case None => None)
      else None;
    groupEnd.Some? &&
    match FindChar(s, ']', groupEnd.value)
    case None => false
    case Some(e) => e + 3 < |s| && s[e + 1] == ' ' && s[e + 2] == 'T' && (s[e + 3] == 'J' || s[e + 3] == 'j')
  }

  predicate HasBracketShow(s: string) { exists i | 0 <= i < |s| :: BracketShowAt(s, i) }

  // ---------------------------------------------------------------------------
  // `re.findall(r'\((.*?)\)', s)`
  // ---------------------------------------------------------------------------

  /** The non-greedy parenthesised groups of `s` from `from` on, left to right. */
  function ParenGroups(s: string, from: nat): seq<string>
    decreases |s| - from
  {
    match FindChar(s, '(', from)
    case None => []
    case Some(p) =>
      match FindChar(s, ')', p + 1)
      case None => []
      case Some(q) => [s[p + 1..q]] + ParenGroups(s, q + 1)
  }

  /** The parenthesised-TJ test: some `(...)` group and "TJ" somewhere on the line. */
  predicate HasParenTJ(s: string) { |ParenGroups(s, 0)| > 0 && Contains(s, "TJ") }

  // ---------------------------------------------------------------------------
  // The per-line step of `filtrar_contenido`
  // ---------------------------------------------------------------------------

  /** What one line turns into: the position after the line, whether the line
      is dropped, and its (possibly `Do`-stripped) text. */
  datatype LineResult = LineResult(pos: Pos, drop: bool, text: string)

  /** `Some(None)` when the capture is absent, `Some(Some(p))` for its point, `None` on ValueError. */
  function PairMatch(m: Option<Pair>): Option<Option<Pos>> {
    if m.None? then Some(None)
    else
      var p :- PairPoint(m.value);
      Some(Some(p))
  }

  function QuadMatch(m: Option<Quad>): Option<Option<Pos>> {
    if m.None? then Some(None)
    else
      var p :- QuadCorner(m.value);
      Some(Some(p))
  }

  /** The drop decision: each matching check, in the source's order,
      overwrites the flag with the test of its reference point. */
  function Decide(line: string, sc: OperatorScan, pos: Pos, hit: (real, real) -> bool): Option<bool> {
    var e1 := if HasBracketShow(line) then hit(pos.x, pos.y) else false;
    var e2 := if HasParenTJ(line) then hit(pos.x, pos.y) else e1;
    var m :- PairMatch(sc.moveTo);
    var e3 := if m.Some? then hit(m.value.x, m.value.y) else e2;
    var l :- PairMatch(sc.lineTo);
    var e4 := if l.Some? then hit(l.value.x, l.value.y) else e3;
    var r :- QuadMatch(sc.rect);
    var e5 := if r.Some? then hit(r.value.x, r.value.y) else e4;
    Some(e5)
  }

  /** The position the checks of a line use: Tm sets it, then Td shifts it. */
  function BeforeChecks(pos: Pos, sc: OperatorScan): Option<Pos> {
    var p1 :- SetBySix(pos, sc.tm);
    ShiftByPair(p1, sc.td)
  }

  /** One line: Tm sets, Td shifts, the checks decide, then cm sets the
      position, and a `Do` at the resulting position is stripped. */
  function Step(pos: Pos, line: string, scan: Scanner, hit: (real, real) -> bool): Option<LineResult> {
    var sc := scan(line);
    var p2 :- BeforeChecks(pos, sc);
    var drop :- Decide(line, sc, p2, hit);
    var p3 :- SetBySix(p2, sc.cm);
    var text := if HasDo(line) && hit(p3.x, p3.y) then StripDo(line) else line;
    Some(LineResult(p3, drop, text))
  }

  /** The step of every line, threading the position from (0, 0); `None`
      when some operand conversion raised. */
  function Trace(lines: seq<string>, scan: Scanner, hit: (real, real) -> bool): (r: Option<seq<LineResult>>)
    ensures r.Some? ==> |r.value| == |lines|
    decreases |lines|
  {
    if |lines| == 0 then Some([])
    else
      var prev :- Trace(lines[..|lines| - 1], scan, hit);
      var r :- Step(LastPos(prev), lines[|lines| - 1], scan, hit);
      Some(prev + [r])
  }

  function LastPos(rs: seq<LineResult>): Pos {
    if |rs| == 0 then Pos(0.0, 0.0) else rs[|rs| - 1].pos
  }

  /** The texts of the lines that are not dropped, in order. */
  function Kept(rs: seq<LineResult>): (r: seq<string>)
    ensures |r| <= |rs|
  {
    if |rs| == 0 then [] else Kept(rs[..|rs| - 1]) + (if rs[|rs| - 1].drop then [] else [rs[|rs| - 1].text])
  }

  /** The whole filter: split on newlines, step every line, join what is kept. */
  function Filtered(data: string, scan: Scanner, hit: (real, real) -> bool): Option<string> {
    var rs :- Trace(Split(data, '\n'), scan, hit);
    Some(Join(Kept(rs), "\n"))
  }

  // ---------------------------------------------------------------------------
  // The filter as the source runs it
  // ---------------------------------------------------------------------------

  /** Tm then Td, as the loop body applies them. */
  method PositionForChecks(pos: Pos, sc: OperatorScan) returns (res: Option<Pos>)
    ensures res == BeforeChecks(pos, sc)
  {
    var cur := pos;
    if sc.tm.Some? {
      var t := SixTranslation(sc.tm.value);
      if t.None? { return None; }
      cur := t.value;
    }
    if sc.td.Some? {
      var d := PairPoint(sc.td.value);
      if d.None? { return None; }
      cur := Pos(cur.x + d.value.x, cur.y + d.value.y);
    }
    return Some(cur);
  }

  /** The checks of the loop body, each overwriting `eliminar`. */
  method DecideLine(line: string, sc: OperatorScan, cur: Pos, hit: (real, real) -> bool) returns (res: Option<bool>)
    ensures res == Decide(line, sc, cur, hit)
  {
    var eliminar := false;
    if HasBracketShow(line) {
      eliminar := hit(cur.x, cur.y);
    }
    if HasParenTJ(line) {
      eliminar := hit(cur.x, cur.y);
    }
    if sc.moveTo.Some? {
      var p := PairPoint(sc.moveTo.value);
      if p.None? { return None; }
      eliminar := hit(p.value.x, p.value.y);
    }
    if sc.lineTo.Some? {
      var p := PairPoint(sc.lineTo.value);
      if p.None? { return None; }
      eliminar := hit(p.value.x, p.value.y);
    }
    if sc.rect.Some? {
      var p := QuadCorner(sc.rect.value);
      if p.None? { return None; }
      eliminar := hit(p.value.x, p.value.y);
    }
    return Some(eliminar);
  }

  /** The body of the line loop: position, checks, then `cm` and `Do`. */
  method FilterLine(pos: Pos, line: string, scan: Scanner, hit: (real, real) -> bool)
    returns (res: Option<LineResult>)
    ensures res == Step(pos, line, scan, hit)
  {
    var sc := scan(line);
    var cur := PositionForChecks(pos, sc);
    if cur.None? { return None; }
    var eliminar := DecideLine(line, sc, cur.value, hit);
    if eliminar.None? { return None; }
    var after := cur.value;
    if sc.cm.Some? {
      var t := SixTranslation(sc.cm.value);
      if t.None? { return None; }
      after := t.value;
    }
    var text := line;
    if HasDo(line) && hit(after.x, after.y) {
      text := StripDo(line);
    }
    return Some(LineResult(after, eliminar.value, text));
  }

  /** A failed prefix fails the trace with one more line. */
  /** The trace of a non-empty sequence of lines, one line at a time. */
  lemma TraceSnoc(ls: seq<string>, scan: Scanner, hit: (real, real) -> bool)
    requires |ls| > 0
    ensures var prev := Trace(ls[..|ls| - 1], scan, hit);
      Trace(ls, scan, hit) ==
        if prev.None? then None
        else
          var s := Step(LastPos(prev.value), ls[|ls| - 1], scan, hit);
          if s.None? then None else Some(prev.value + [s.value])
  {
  }

  lemma TraceSnocNone(ls: seq<string>, scan: Scanner, hit: (real, real) -> bool)
    requires |ls| > 0 && Trace(ls[..|ls| - 1], scan, hit).None?
    ensures Trace(ls, scan, hit).None?
  {
  }

  /** Once a prefix of the lines fails, the whole trace fails. */
  lemma {:induction false} TraceNoneStays(lines: seq<string>, i: nat, scan: Scanner, hit: (real, real) -> bool)
    requires i <= |lines|
    requires Trace(lines[..i], scan, hit).None?
    ensures Trace(lines, scan, hit).None?
    decreases |lines| - i
  {
    if i < |lines| {
      var ls := lines[..i + 1];
      assert ls[..|ls| - 1] == lines[..i];
      TraceSnocNone(ls, scan, hit);
      TraceNoneStays(lines, i + 1, scan, hit);
    } else {
      assert lines[..i] == lines;
    }
  }

  /** `filtrar_contenido`: one forward pass over the lines with a running
      position; `None` is the ValueError of a malformed operand. */
  method FilterContent(data: string, scan: Scanner, hit: (real, real) -> bool) returns (r: Option<string>)
    ensures r == Filtered(data, scan, hit)
  {
    var lines := Split(data, '\n');
    var chunks: seq<string> := [];
    var pos := Pos(0.0, 0.0);
    ghost var rs: seq<LineResult> := [];
    var i := 0;
    while i < |lines|
      invariant 0 <= i <= |lines|
      invariant Trace(lines[..i], scan, hit) == Some(rs)
      invariant pos == LastPos(rs)
      invariant chunks == Kept(rs)
    {
      var res := FilterLine(pos, lines[i], scan, hit);
      assert lines[..i + 1][..i] == lines[..i];
      if res.None? {
        TraceNoneStays(lines, i + 1, scan, hit);
        return None;
      }
      if !res.value.drop {
        chunks := chunks + [res.value.text];
      }
      pos := res.value.pos;
      rs := rs + [res.value];
      assert rs[..|rs| - 1] == rs[..|rs| - 1];
      i := i + 1;
    }
    assert lines[..i] == lines;
    return Some(Join(chunks, "\n"));
  }

  // ---------------------------------------------------------------------------
  // Properties of the filter
  // ---------------------------------------------------------------------------

  /** The reference points of the checks that match on a line, in the
      order the source evaluates them. */
  function CheckPoints(line: string, sc: OperatorScan, pos: Pos): Option<seq<Pos>> {
    var m :- PairMatch(sc.moveTo);
    var l :- PairMatch(sc.lineTo);
    var r :- QuadMatch(sc.rect);
    Some((if HasBracketShow(line) then [pos] else [])
      + (if HasParenTJ(line) then [pos] else [])
      + (if m.Some? then [m.value] else [])
      + (if l.Some? then [l.value] else [])
      + (if r.Some? then [r.value] else []))
  }

  /** A line is dropped exactly when the last of its matching checks finds
      its point by `hit`; with no matching check it is kept. */
  lemma DecideIsLastCheck(line: string, sc: OperatorScan, pos: Pos, hit: (real, real) -> bool)
    ensures Decide(line, sc, pos, hit).Some? <==> CheckPoints(line, sc, pos).Some?
    ensures Decide(line, sc, pos, hit).Some? ==>
      var pts := CheckPoints(line, sc, pos).value;
      Decide(line, sc, pos, hit).value == (|pts| > 0 && hit(pts[|pts| - 1].x, pts[|pts| - 1].y))
  {
  }

  /** The `cm` of a line does not take part in that line's drop decision:
      two scans that differ only in `cm` decide alike. */
  lemma CmAfterChecks(pos: Pos, line: string, scan1: Scanner, scan2: Scanner, hit: (real, real) -> bool)
    requires scan1(line).(cm := None) == scan2(line).(cm := None)
    requires Step(pos, line, scan1, hit).Some? && Step(pos, line, scan2, hit).Some?
    ensures Step(pos, line, scan1, hit).value.drop == Step(pos, line, scan2, hit).value.drop
  {
    var a, b := scan1(line), scan2(line);
    assert a.tm == b.tm && a.td == b.td && a.moveTo == b.moveTo && a.lineTo == b.lineTo && a.rect == b.rect;
  }

  /** The trace is the step of every line from the position the previous
      lines left. */
  lemma {:induction false} TraceSteps(lines: seq<string>, scan: Scanner, hit: (real, real) -> bool)
    requires Trace(lines, scan, hit).Some?
    ensures forall k | 0 <= k < |lines| ::
      Step(LastPos(Trace(lines, scan, hit).value[..k]), lines[k], scan, hit) == Some(Trace(lines, scan, hit).value[k])
    decreases |lines|
  {
    if |lines| > 0 {
      var n := |lines| - 1;
      TraceSteps(lines[..n], scan, hit);
      var prev := Trace(lines[..n], scan, hit).value;
      var rs := Trace(lines, scan, hit).value;
      assert rs == prev + [Step(LastPos(prev), lines[n], scan, hit).value];
      forall k | 0 <= k < |lines|
        ensures Step(LastPos(rs[..k]), lines[k], scan, hit) == Some(rs[k])
      {
        if k < n {
          assert rs[..k] == prev[..k];
          assert lines[..n][k] == lines[k];
        } else {
          assert rs[..k] == prev;
        }
      }
    }
  }

  /** One step keeps its line or removes the `Do` invocations from it, and
      only when the line has one and the position after the line passes `hit`. */
  lemma StepText(pos: Pos, line: string, scan: Scanner, hit: (real, real) -> bool)
    requires Step(pos, line, scan, hit).Some?
    ensures var r := Step(pos, line, scan, hit).value;
      r.text == line || (HasDo(line) && hit(r.pos.x, r.pos.y) && r.text == StripDo(line))
  {
  }

  /** One step drops its line exactly when the last matching check hits. */
  lemma StepDrop(pos: Pos, line: string, scan: Scanner, hit: (real, real) -> bool)
    requires Step(pos, line, scan, hit).Some?
    ensures BeforeChecks(pos, scan(line)).Some?
    ensures CheckPoints(line, scan(line), BeforeChecks(pos, scan(line)).value).Some?
    ensures Step(pos, line, scan, hit).value.drop
      == LastHits(CheckPoints(line, scan(line), BeforeChecks(pos, scan(line)).value).value, hit)
  {
    DecideIsLastCheck(line, scan(line), BeforeChecks(pos, scan(line)).value, hit);
  }

  /** Every output line is its input line, or that line with its `Do`
      invocations removed (when it has one and its position passes `hit`). */
  lemma TraceTexts(lines: seq<string>, scan: Scanner, hit: (real, real) -> bool)
    requires Trace(lines, scan, hit).Some?
    ensures forall k | 0 <= k < |lines| ::
      var r := Trace(lines, scan, hit).value[k];
      r.text == lines[k] || (HasDo(lines[k]) && hit(r.pos.x, r.pos.y) && r.text == StripDo(lines[k]))
  {
    TraceSteps(lines, scan, hit);
    var rs := Trace(lines, scan, hit).value;
    forall k | 0 <= k < |lines|
      ensures rs[k].text == lines[k] || (HasDo(lines[k]) && hit(rs[k].pos.x, rs[k].pos.y) && rs[k].text == StripDo(lines[k]))
    {
      StepText(LastPos(rs[..k]), lines[k], scan, hit);
    }
  }

  /** Every line is dropped exactly when the last of its checks, made at the
      position the previous lines and its own Tm/Td left, hits. */
  lemma TraceDrops(lines: seq<string>, scan: Scanner, hit: (real, real) -> bool)
    requires Trace(lines, scan, hit).Some?
    ensures forall k | 0 <= k < |lines| ::
      var rs := Trace(lines, scan, hit).value;
      var p := BeforeChecks(LastPos(rs[..k]), scan(lines[k]));
      p.Some? && CheckPoints(lines[k], scan(lines[k]), p.value).Some?
      && rs[k].drop == LastHits(CheckPoints(lines[k], scan(lines[k]), p.value).value, hit)
  {
    TraceSteps(lines, scan, hit);
    var rs := Trace(lines, scan, hit).value;
    forall k | 0 <= k < |lines|
      ensures var p := BeforeChecks(LastPos(rs[..k]), scan(lines[k]));
        p.Some? && CheckPoints(lines[k], scan(lines[k]), p.value).Some?
        && rs[k].drop == LastHits(CheckPoints(lines[k], scan(lines[k]), p.value).value, hit)
    {
      StepDrop(LastPos(rs[..k]), lines[k], scan, hit);
    }
  }

  /** Whether the last of a line's check points passes `hit`. */
  predicate LastHits(pts: seq<Pos>, hit: (real, real) -> bool) {
    |pts| > 0 && hit(pts[|pts| - 1].x, pts[|pts| - 1].y)
  }

  /** A line with no text-showing array, no parenthesised TJ and no m, l or
      re operands is never dropped, whatever its position (a plain `(x) Tj`
      line or a `Do`-only line, say). */
  lemma UnrecognisedLineKept(pos: Pos, line: string, scan: Scanner, hit: (real, real) -> bool)
    requires !HasBracketShow(line) && !HasParenTJ(line)
    requires scan(line).moveTo.None? && scan(line).lineTo.None? && scan(line).rect.None?
    requires Step(pos, line, scan, hit).Some?
    ensures !Step(pos, line, scan, hit).value.drop
  {
  }

  lemma {:induction false} KeptAll(rs: seq<LineResult>)
    requires forall k | 0 <= k < |rs| :: !rs[k].drop
    ensures Kept(rs) == seq(|rs|, k requires 0 <= k < |rs| => rs[k].text)
    decreases |rs|
  {
    if |rs| > 0 {
      KeptAll(rs[..|rs| - 1]);
    }
  }

  /** A stream in which no line is dropped and no `Do` is stripped comes back
      unchanged: the filter is the identity on such input. */
  lemma FilterIdentity(data: string, scan: Scanner, hit: (real, real) -> bool)
    requires Trace(Split(data, '\n'), scan, hit).Some?
    requires forall k | 0 <= k < |Split(data, '\n')| ::
      !Trace(Split(data, '\n'), scan, hit).value[k].drop
      && Trace(Split(data, '\n'), scan, hit).value[k].text == Split(data, '\n')[k]
    ensures Filtered(data, scan, hit) == Some(data)
  {
    var lines := Split(data, '\n');
    var rs := Trace(lines, scan, hit).value;
    KeptAll(rs);
    assert Kept(rs) == lines;
    JoinSplit(data, '\n');
  }
}
