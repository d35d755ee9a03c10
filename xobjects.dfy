/** Inlining of form XObjects (InyectarXObjects.py): the page content is
    tokenised, a small interpreter tracks the current transformation matrix
    through `q`, `Q` and `cm` (sections 8.4.2 and 8.4.4 of ISO 32000-1) and
    records it at every `Do`; each recorded non-image XObject with a usable
    `/BBox` is then appended to the page wrapped in `q`, a `cm` that maps its
    box onto where it lands, and `Q`. */
module XObjects {
  import opened Common

  // ---------------------------------------------------------------------------
  // make_matrix, apply_matrix
  // ---------------------------------------------------------------------------

  /** The affine matrix with rows [a b e], [c d f], [0 0 1]. */
  datatype Matrix = Matrix(a: real, b: real, c: real, d: real, e: real, f: real)

  const Identity := Matrix(1.0, 0.0, 0.0, 1.0, 0.0, 0.0)

  /** The matrix product M·N of the two 3x3 matrices. */
  function Mul(m: Matrix, n: Matrix): Matrix {
    Matrix(m.a * n.a + m.b * n.c, m.a * n.b + m.b * n.d,
           m.c * n.a + m.d * n.c, m.c * n.b + m.d * n.d,
           m.a * n.e + m.b * n.f + m.e, m.c * n.e + m.d * n.f + m.f)
  }

  /** M applied to the column vector (x, y, 1). */
  function Apply(m: Matrix, x: real, y: real): (real, real) {
    (m.a * x + m.b * y + m.e, m.c * x + m.d * y + m.f)
  }

  /** The identity fixes every point and is neutral on both sides. */
  lemma IdentityNeutral(m: Matrix, x: real, y: real)
    ensures Apply(Identity, x, y) == (x, y)
    ensures Mul(Identity, m) == m && Mul(m, Identity) == m
  {
  }

  /** One row of the product applied to a point is that row applied to the
      right factor's image of the point. */
  lemma RowCompose(p: real, q: real, r: real, n: Matrix, x: real, y: real)
    ensures (p * n.a + q * n.c) * x + (p * n.b + q * n.d) * y + (p * n.e + q * n.f + r)
         == p * (n.a * x + n.b * y + n.e) + q * (n.c * x + n.d * y + n.f) + r
  {
    assert (p * n.a + q * n.c) * x == p * (n.a * x) + q * (n.c * x);
    assert (p * n.b + q * n.d) * y == p * (n.b * y) + q * (n.d * y);
    assert p * (n.a * x + n.b * y + n.e) == p * (n.a * x) + p * (n.b * y) + p * n.e;
    assert q * (n.c * x + n.d * y + n.f) == q * (n.c * x) + q * (n.d * y) + q * n.f;
  }

  /** Applying a product applies the right factor first. */
  lemma ApplyMul(m: Matrix, n: Matrix, x: real, y: real)
    ensures Apply(Mul(m, n), x, y) == Apply(m, Apply(n, x, y).0, Apply(n, x, y).1)
  {
    var (nx, ny) := Apply(n, x, y);
    RowCompose(m.a, m.b, m.e, n, x, y);
    RowCompose(m.c, m.d, m.f, n, x, y);
    assert Apply(Mul(m, n), x, y).0 == Apply(m, nx, ny).0;
    assert Apply(Mul(m, n), x, y).1 == Apply(m, nx, ny).1;
  }

  // ---------------------------------------------------------------------------
  // tokenize_content
  // ---------------------------------------------------------------------------

  /** `/[^\s]+`: a slash and the non-space run after it. */
  function NonSpaceRun(s: string, from: nat): (r: nat)
    ensures from + r <= |s| || (from >= |s| && r == 0)
    ensures forall k | from <= k < from + r :: !IsSpace(s[k])
    decreases |s| - from
  {
    if from < |s| && !IsSpace(s[from]) then 1 + NonSpaceRun(s, from + 1) else 0
  }

  /** The end of `[+-]?\d*\.\d+|[+-]?\d+` matched at `i`, if it matches. */
  function NumberEnd(s: string, i: nat): (r: Option<nat>)
    ensures r.Some? ==> i < r.value <= |s|
  {
    if i >= |s| then None
    else
      var j := if s[i] == '+' || s[i] == '-' then i + 1 else i;
      var k := j + DigitRun(s, j);
      if k + 1 < |s| && s[k] == '.' && IsDigit(s[k + 1]) then Some(k + 1 + DigitRun(s, k + 1))
      else if k > j then Some(k)
      else None
  }

  /** The token the pattern matches at `i` and where it ends: a name first,
      then a numeral, then one of the four operators. */
  function TokenAt(s: string, i: nat): (r: Option<(string, nat)>)
    ensures r.Some? ==> i < r.value.1 <= |s| && r.value.0 == s[i..r.value.1]
  {
    if i >= |s| then None
    else if s[i] == '/' && NonSpaceRun(s, i + 1) > 0 then
      var e := i + 1 + NonSpaceRun(s, i + 1);
      Some((s[i..e], e))
    else if NumberEnd(s, i).Some? then
      var e := NumberEnd(s, i).value;
      Some((s[i..e], e))
    else if s[i] == 'q' || s[i] == 'Q' then Some((s[i..i + 1], i + 1))
    else if OccursAt(s, "cm", i) || OccursAt(s, "Do", i) then Some((s[i..i + 2], i + 2))
    else None
  }

  /** `re.finditer` from `i`: a match resumes after its end, no match moves on one. */
  function Tokens(s: string, i: nat): seq<string>
    decreases |s| - i
  {
    if i >= |s| then []
    else match TokenAt(s, i)
      case Some((t, e)) => [t] + Tokens(s, e)
      case None => Tokens(s, i + 1)
  }

  /** A signed integer or decimal numeral. */
  predicate IsNumeral(t: string) {
    var j := if |t| > 0 && (t[0] == '+' || t[0] == '-') then 1 else 0;
    |t| > j
    && (forall k | j <= k < |t| :: IsDigit(t[k]) || t[k] == '.')
    && (forall k, l | j <= k < l < |t| && t[k] == '.' :: t[l] != '.')
    && IsDigit(t[|t| - 1])
  }

  /** The tokens the pattern can produce: `/`-names, numerals, q, Q, cm, Do. */
  predicate IsToken(t: string) {
    (|t| >= 2 && t[0] == '/' && forall k | 1 <= k < |t| :: !IsSpace(t[k]))
    || IsNumeral(t)
    || t == "q" || t == "Q" || t == "cm" || t == "Do"
  }

  lemma NumberWellFormed(s: string, i: nat)
    requires NumberEnd(s, i).Some?
    ensures IsNumeral(s[i..NumberEnd(s, i).value])
  {
    var t := s[i..NumberEnd(s, i).value];
    var j := if s[i] == '+' || s[i] == '-' then i + 1 else i;
    var k := j + DigitRun(s, j);
    var jt := j - i;
    assert forall p | 0 <= p < |t| :: t[p] == s[i + p];
    if k + 1 < |s| && s[k] == '.' && IsDigit(s[k + 1]) {
      assert forall p | jt <= p < |t| && p != k - i :: IsDigit(t[p]);
      assert forall p | jt <= p < |t| && t[p] == '.' :: p == k - i;
    } else {
      assert forall p | jt <= p < |t| :: IsDigit(t[p]);
    }
  }

  lemma TokenAtWellFormed(s: string, i: nat)
    requires TokenAt(s, i).Some?
    ensures IsToken(TokenAt(s, i).value.0)
  {
    if !(s[i] == '/' && NonSpaceRun(s, i + 1) > 0) && NumberEnd(s, i).Some? {
      NumberWellFormed(s, i);
    }
  }

  /** Every token is a name, a numeral or one of the four operators, and
      every token occurs in the content. */
  lemma {:induction false} TokensWellFormed(s: string, i: nat)
    ensures forall k | 0 <= k < |Tokens(s, i)| :: IsToken(Tokens(s, i)[k]) && Contains(s, Tokens(s, i)[k])
    decreases |s| - i
  {
    if i < |s| {
      match TokenAt(s, i)
      case Some((t, e)) =>
        TokensWellFormed(s, e);
        TokenAtWellFormed(s, i);
        assert OccursAt(s, t, i);
        assert Tokens(s, i) == [t] + Tokens(s, e);
      case None =>
        TokensWellFormed(s, i + 1);
    }
  }

  /** `tokenize_content` as the source runs it. */
  method Tokenize(content: string) returns (tokens: seq<string>)
    ensures tokens == Tokens(content, 0)
  {
    tokens := [];
    var i := 0;
    while i < |content|
      invariant 0 <= i <= |content|
      invariant tokens + Tokens(content, i) == Tokens(content, 0)
      decreases |content| - i
    {
      var m := TokenAt(content, i);
      if m.Some? {
        tokens := tokens + [m.value.0];
        i := m.value.1;
      } else {
        i := i + 1;
      }
    }
  }

  // ---------------------------------------------------------------------------
  // process_tokens
  // ---------------------------------------------------------------------------

  datatype Usage = Usage(name: string, ctm: Matrix)

  datatype Machine = Machine(stack: seq<Matrix>, results: seq<Usage>)

  /** `float()` of six tokens, or `None` when one is not a numeral. */
  function SixNumbers(ts: seq<string>): Option<Matrix>
    requires |ts| == 6
  {
    var a :- ParseFloat(ts[0]);
    var b :- ParseFloat(ts[1]);
    var c :- ParseFloat(ts[2]);
    var d :- ParseFloat(ts[3]);
    var e :- ParseFloat(ts[4]);
    var f :- ParseFloat(ts[5]);
    Some(Matrix(a, b, c, d, e, f))
  }

  /** The interpreter's step on token `i`. */
  function TokenStep(tokens: seq<string>, i: nat, m: Machine): Machine
    requires i < |tokens| && |m.stack| >= 1
  {
    var top := m.stack[|m.stack| - 1];
    var t := tokens[i];
    if t == "q" then m.(stack := m.stack + [top])
    else if t == "Q" then (if |m.stack| > 1 then m.(stack := m.stack[..|m.stack| - 1]) else m)
    else if t == "cm" then
      if i < 6 then m
      else match SixNumbers(tokens[i - 6..i])
        case None => m
        case Some(n) => m.(stack := m.stack[|m.stack| - 1 := Mul(top, n)])
    else if t == "Do" then
      if i == 0 then m else m.(results := m.results + [Usage(tokens[i - 1], top)])
    else m
  }

  /** The machine after the first `n` tokens, from a stack holding the identity. */
  function Exec(tokens: seq<string>, n: nat): (r: Machine)
    requires n <= |tokens|
    ensures |r.stack| >= 1
  {
    if n == 0 then Machine([Identity], [])
    else TokenStep(tokens, n - 1, Exec(tokens, n - 1))
  }

  /** `process_tokens` as the source runs it. */
  method ProcessTokens(tokens: seq<string>) returns (results: seq<Usage>)
    ensures results == Exec(tokens, |tokens|).results
  {
    var stack := [Identity];
    results := [];
    var i := 0;
    while i < |tokens|
      invariant 0 <= i <= |tokens|
      invariant Exec(tokens, i) == Machine(stack, results)
    {
      stack, results := ProcessToken(tokens, i, stack, results);
      i := i + 1;
    }
  }

  /** The body of the loop for token `i`. */
  method ProcessToken(tokens: seq<string>, i: nat, stack: seq<Matrix>, results: seq<Usage>)
    returns (stack': seq<Matrix>, results': seq<Usage>)
    requires i < |tokens| && |stack| >= 1
    ensures Machine(stack', results') == TokenStep(tokens, i, Machine(stack, results))
  {
    stack', results' := stack, results;
    var token := tokens[i];
    if token == "q" {
      stack' := stack + [stack[|stack| - 1]];
    } else if token == "Q" {
      if |stack| > 1 {
        stack' := stack[..|stack| - 1];
      }
    } else if token == "cm" {
      if i >= 6 {
        var nums := SixNumbers(tokens[i - 6..i]);
        if nums.Some? {
          stack' := stack[|stack| - 1 := Mul(stack[|stack| - 1], nums.value)];
        }
      }
    } else if token == "Do" {
      if i > 0 {
        results' := results + [Usage(tokens[i - 1], stack[|stack| - 1])];
      }
    }
  }

  /** Only a `Do` with a predecessor adds a usage: the name before it, with
      the matrix on top of the stack. */
  lemma StepResults(tokens: seq<string>, i: nat, m: Machine)
    requires i < |tokens| && |m.stack| >= 1
    ensures TokenStep(tokens, i, m).results
      == m.results + if tokens[i] == "Do" && i > 0 then [Usage(tokens[i - 1], m.stack[|m.stack| - 1])] else []
  {
  }

  /** How many `Do` tokens among the first `n` have a predecessor. */
  function DoCount(tokens: seq<string>, n: nat): nat
    requires n <= |tokens|
  {
    if n == 0 then 0 else DoCount(tokens, n - 1) + (if tokens[n - 1] == "Do" && n - 1 > 0 then 1 else 0)
  }

  /** One usage per `Do` after the first token, in stream order, each naming
      the token before it. */
  lemma {:induction false} UsagesPerDo(tokens: seq<string>, n: nat)
    requires n <= |tokens|
    ensures |Exec(tokens, n).results| == DoCount(tokens, n)
    ensures forall u | 0 <= u < |Exec(tokens, n).results| ::
      exists i | 0 < i < n :: tokens[i] == "Do" && Exec(tokens, n).results[u].name == tokens[i - 1]
  {
    if n > 0 {
      UsagesPerDo(tokens, n - 1);
      StepResults(tokens, n - 1, Exec(tokens, n - 1));
      var prev := Exec(tokens, n - 1).results;
      var cur := Exec(tokens, n).results;
      var added := if tokens[n - 1] == "Do" && n - 1 > 0 then 1 else 0;
      assert Exec(tokens, n) == TokenStep(tokens, n - 1, Exec(tokens, n - 1));
      assert |cur| == |prev| + added;
      assert DoCount(tokens, n) == DoCount(tokens, n - 1) + added;
      forall u | 0 <= u < |cur|
        ensures exists i | 0 < i < n :: tokens[i] == "Do" && cur[u].name == tokens[i - 1]
      {
        if u < |prev| {
          var i :| 0 < i < n - 1 && tokens[i] == "Do" && prev[u].name == tokens[i - 1];
          assert cur[u] == prev[u];
          assert 0 < i < n && tokens[i] == "Do" && cur[u].name == tokens[i - 1];
        } else {
          assert tokens[n - 1] == "Do" && n - 1 > 0;
          assert cur[u].name == tokens[n - 2];
          assert 0 < n - 1 < n && tokens[n - 1] == "Do" && cur[u].name == tokens[(n - 1) - 1];
        }
      }
    }
  }

  /** The balance of `q` over `Q` in `tokens[a..b]`. */
  function Net(tokens: seq<string>, a: nat, b: nat): int
    requires a <= b <= |tokens|
    decreases b - a
  {
    if a == b then 0 else Net(tokens, a, b - 1) + (if tokens[b - 1] == "q" then 1 else if tokens[b - 1] == "Q" then -1 else 0)
  }

  /** No prefix of `tokens[a..b]` closes more than it opens, and the whole closes all it opens. */
  predicate Balanced(tokens: seq<string>, a: nat, b: nat)
    requires a <= b <= |tokens|
  {
    (forall k | a <= k <= b :: Net(tokens, a, k) >= 0) && Net(tokens, a, b) == 0
  }

  /** Within a segment that never closes below its start, the stack grows by
      the balance and nothing under the segment's starting top changes. */
  lemma {:induction false} SegmentKeepsBelow(tokens: seq<string>, a: nat, k: nat)
    requires a <= k <= |tokens|
    requires forall j | a <= j <= k :: Net(tokens, a, j) >= 0
    ensures |Exec(tokens, k).stack| == |Exec(tokens, a).stack| + Net(tokens, a, k)
    ensures Exec(tokens, k).stack[..|Exec(tokens, a).stack| - 1] == Exec(tokens, a).stack[..|Exec(tokens, a).stack| - 1]
    decreases k - a
  {
    if k > a {
      SegmentKeepsBelow(tokens, a, k - 1);
    }
  }

  /** A `q` and the `Q` that closes it leave the whole stack as it was before
      the `q`, whatever the `cm`s between them did. */
  lemma QRestoresStack(tokens: seq<string>, i: nat, j: nat)
    requires i < j < |tokens|
    requires tokens[i] == "q" && tokens[j] == "Q"
    requires Balanced(tokens, i + 1, j)
    ensures Exec(tokens, j + 1).stack == Exec(tokens, i).stack
  {
    SegmentKeepsBelow(tokens, i + 1, j);
    var before := Exec(tokens, i).stack;
    var inner := Exec(tokens, j).stack;
    assert Exec(tokens, i + 1).stack == before + [before[|before| - 1]];
    assert |inner| == |before| + 1;
    assert inner[..|before|] == before;
  }

  /** A `cm` with six numerals before it makes the new top map a point
      through its own matrix first and then through the old top. */
  lemma CmConcatenates(tokens: seq<string>, i: nat, x: real, y: real)
    requires 6 <= i < |tokens| && tokens[i] == "cm"
    requires SixNumbers(tokens[i - 6..i]).Some?
    ensures var before := Exec(tokens, i).stack;
      var after := Exec(tokens, i + 1).stack;
      var n := SixNumbers(tokens[i - 6..i]).value;
      |after| == |before|
      && Apply(after[|after| - 1], x, y)
         == Apply(before[|before| - 1], Apply(n, x, y).0, Apply(n, x, y).1)
  {
    var before := Exec(tokens, i).stack;
    ApplyMul(before[|before| - 1], SixNumbers(tokens[i - 6..i]).value, x, y);
  }

  // ---------------------------------------------------------------------------
  // BBox to cm, and the page injection
  // ---------------------------------------------------------------------------

  datatype BBox = BBox(x0: real, y0: real, x1: real, y1: real)

  function Min4(a: real, b: real, c: real, d: real): real {
    var m1 := if a <= b then a else b;
    var m2 := if m1 <= c then m1 else c;
    if m2 <= d then m2 else d
  }

  function Max4(a: real, b: real, c: real, d: real): real {
    var m1 := if a >= b then a else b;
    var m2 := if m1 >= c then m1 else c;
    if m2 >= d then m2 else d
  }

  /** The box of the four corners of `b` under `m`. */
  function FinalBox(m: Matrix, b: BBox): BBox {
    var p00 := Apply(m, b.x0, b.y0);
    var p01 := Apply(m, b.x0, b.y1);
    var p10 := Apply(m, b.x1, b.y0);
    var p11 := Apply(m, b.x1, b.y1);
    BBox(Min4(p00.0, p01.0, p10.0, p11.0), Min4(p00.1, p01.1, p10.1, p11.1),
         Max4(p00.0, p01.0, p10.0, p11.0), Max4(p00.1, p01.1, p10.1, p11.1))
  }

  /** The injected transformation `sx 0 0 sy tx ty`: `None` for a box of
      zero width or height. */
  function Injected(ctm: Matrix, internal: Option<Matrix>, b: BBox): Option<Matrix> {
    var fin := Mul(ctm, if internal.Some? then internal.value else Identity);
    BoxMap(b, FinalBox(fin, b))
  }

  /** The scale-and-translate matrix taking box `b` to box `fb`. */
  function BoxMap(b: BBox, fb: BBox): Option<Matrix> {
    if b.x1 - b.x0 == 0.0 || b.y1 - b.y0 == 0.0 then None
    else
      var sx := (fb.x1 - fb.x0) / (b.x1 - b.x0);
      var sy := (fb.y1 - fb.y0) / (b.y1 - b.y0);
      Some(Matrix(sx, 0.0, 0.0, sy, fb.x0 - b.x0 * sx, fb.y0 - b.y0 * sy))
  }

  lemma ScaleMapsRange(lo: real, hi: real, flo: real, fhi: real)
    requires hi - lo != 0.0
    ensures var s := (fhi - flo) / (hi - lo);
      s * lo + (flo - lo * s) == flo && s * hi + (flo - lo * s) == fhi
  {
    var s := (fhi - flo) / (hi - lo);
    assert s * (hi - lo) == fhi - flo;
  }

  /** The injected matrix maps the corners (x0, y0) and (x1, y1) of the
      XObject's box onto the corners of the box it lands in. */
  lemma InjectedMapsBox(ctm: Matrix, internal: Option<Matrix>, b: BBox)
    requires Injected(ctm, internal, b).Some?
    ensures var fb := FinalBox(Mul(ctm, if internal.Some? then internal.value else Identity), b);
      var t := Injected(ctm, internal, b).value;
      Apply(t, b.x0, b.y0) == (fb.x0, fb.y0) && Apply(t, b.x1, b.y1) == (fb.x1, fb.y1)
  {
    BoxMapMaps(b, FinalBox(Mul(ctm, if internal.Some? then internal.value else Identity), b));
  }

  lemma BoxMapMaps(b: BBox, fb: BBox)
    requires BoxMap(b, fb).Some?
    ensures Apply(BoxMap(b, fb).value, b.x0, b.y0) == (fb.x0, fb.y0)
    ensures Apply(BoxMap(b, fb).value, b.x1, b.y1) == (fb.x1, fb.y1)
  {
    var t := BoxMap(b, fb).value;
    ScaleMapsRange(b.x0, b.x1, fb.x0, fb.x1);
    ScaleMapsRange(b.y0, b.y1, fb.y0, fb.y1);
    assert t.b * b.y0 == 0.0 && t.c * b.x0 == 0.0 && t.b * b.y1 == 0.0 && t.c * b.x1 == 0.0;
    assert t.a * b.x0 + t.e == fb.x0 && t.a * b.x1 + t.e == fb.x1;
    assert t.d * b.y0 + t.f == fb.y0 && t.d * b.y1 + t.f == fb.y1;
    assert Apply(t, b.x0, b.y0).0 == fb.x0;
    assert Apply(t, b.x0, b.y0).1 == fb.y0;
    assert Apply(t, b.x1, b.y1).0 == fb.x1;
    assert Apply(t, b.x1, b.y1).1 == fb.y1;
  }

  /** An entry of the page's `/XObject` resources. */
  datatype XObject = XObject(isImage: bool, bbox: Option<BBox>, matrix: Option<Matrix>, content: Option<string>)

  /** The piece one usage contributes, if any. */
  function Piece(u: Usage, xobjects: map<string, XObject>, show: real -> string): Option<string> {
    if u.name !in xobjects then None
    else
      var x := xobjects[u.name];
      if x.isImage || x.bbox.None? then None
      else
        var t :- Injected(u.ctm, x.matrix, x.bbox.value);
        var body :- x.content;
        Some("q\n" + show(t.a) + " 0 0 " + show(t.d) + " " + show(t.e) + " " + show(t.f) + " cm\n" + body + "\nQ\n")
  }

  /** The concatenated pieces of the usages. */
  function Pieces(us: seq<Usage>, xobjects: map<string, XObject>, show: real -> string): string
    decreases |us|
  {
    if |us| == 0 then ""
    else
      var last := match Piece(us[|us| - 1], xobjects, show) case None => "" case Some(p) => p;
      Pieces(us[..|us| - 1], xobjects, show) + last
  }

  /** The page contents: one stream, or an array whose parts may fail to read. */
  datatype Contents = NoContents | Single(text: string) | Parts(parts: seq<Option<string>>)

  /** The content of an array: each readable part followed by a newline. */
  function ArrayText(parts: seq<Option<string>>): string
    decreases |parts|
  {
    if |parts| == 0 then ""
    else
      var last := match parts[|parts| - 1] case None => "" case Some(t) => t + "\n";
      ArrayText(parts[..|parts| - 1]) + last
  }

  datatype XPage = XPage(contents: Contents, xobjects: Option<map<string, XObject>>)

  /** The page after injection: unchanged without contents, without
      `/XObject` resources or when no piece was produced; otherwise one
      stream holding the original text, a newline and the pieces. */
  function InjectPage(pg: XPage, show: real -> string): XPage {
    if pg.contents.NoContents? || pg.xobjects.None? then pg
    else
      var original := if pg.contents.Single? then pg.contents.text else ArrayText(pg.contents.parts);
      var usages := Exec(Tokens(original, 0), |Tokens(original, 0)|).results;
      var inline := Pieces(usages, pg.xobjects.value, show);
      if inline == "" then pg else pg.(contents := Single(original + "\n" + inline))
  }

  /** The loop over the usages of one page. */
  method InlinePieces(usages: seq<Usage>, xobjects: map<string, XObject>, show: real -> string) returns (inline: string)
    ensures inline == Pieces(usages, xobjects, show)
  {
    inline := "";
    for k := 0 to |usages|
      invariant inline == Pieces(usages[..k], xobjects, show)
    {
      assert usages[..k + 1][..k] == usages[..k];
      var piece := Piece(usages[k], xobjects, show);
      if piece.Some? {
        inline := inline + piece.value;
      }
    }
    assert usages[..|usages|] == usages;
  }

  /** The concatenation of an array's readable parts. */
  method ReadParts(parts: seq<Option<string>>) returns (text: string)
    ensures text == ArrayText(parts)
  {
    text := "";
    for k := 0 to |parts|
      invariant text == ArrayText(parts[..k])
    {
      assert parts[..k + 1][..k] == parts[..k];
      if parts[k].Some? {
        text := text + parts[k].value + "\n";
      }
    }
    assert parts[..|parts|] == parts;
  }

  /** `inline_xobjects_with_transform`: every page in turn. */
  method InlineXObjects(pages: seq<XPage>, show: real -> string) returns (out: seq<XPage>)
    ensures |out| == |pages|
    ensures forall p | 0 <= p < |pages| :: out[p] == InjectPage(pages[p], show)
  {
    out := [];
    for p := 0 to |pages|
      invariant |out| == p
      invariant forall q | 0 <= q < p :: out[q] == InjectPage(pages[q], show)
    {
      var pg := InlinePage(pages[p], show);
      out := out + [pg];
    }
  }

  /** The loop body for one page: its streams read, interpreted, and the
      inlined forms appended when there are any. */
  method InlinePage(page: XPage, show: real -> string) returns (pg: XPage)
    ensures pg == InjectPage(page, show)
  {
    pg := page;
    if !pg.contents.NoContents? && pg.xobjects.Some? {
      var original;
      if pg.contents.Single? {
        original := pg.contents.text;
      } else {
        original := ReadParts(pg.contents.parts);
      }
      var tokens := Tokenize(original);
      var usages := ProcessTokens(tokens);
      var inline := InlinePieces(usages, pg.xobjects.value, show);
      if inline != "" {
        pg := pg.(contents := Single(original + "\n" + inline));
      }
    }
  }

  /** Injection only appends: a changed page's content starts with its
      original text and a newline. */
  lemma InjectionAppends(pg: XPage, show: real -> string)
    requires InjectPage(pg, show) != pg
    ensures pg.contents.Single? ==> StartsWith(InjectPage(pg, show).contents.text, pg.contents.text + "\n")
    ensures pg.contents.Parts? ==> StartsWith(InjectPage(pg, show).contents.text, ArrayText(pg.contents.parts) + "\n")
  {
    var original := if pg.contents.Single? then pg.contents.text else ArrayText(pg.contents.parts);
    var t := InjectPage(pg, show).contents.text;
    assert t[..|original + "\n"|] == original + "\n";
  }
}
