/** Plain text of a page's content streams, and a first Markdown rendering
    of its lines.

    `extraer_texto` walks a decoded content stream line by line: lines that
    mention marked-content artifacts or text-object delimiters are skipped, a
    `Tm` sets the text position to its last two operands and a `Td` adds its
    two operands to it (section 9.4.2 of ISO 32000-1), and each line holding
    a parenthesised string and `TJ` records its strung-together text at the
    current height, once per distinct text. The records are then ordered top
    of page first (a stable sort by height, descending) and joined with
    spaces.

    `extraer_atributos_pikepdf` marks each decoded line as a numbered item, a
    bullet item or, when its font is bold or black, bold text, and ends each
    page that has contents with a blank line. */
module PlainText {
  import opened Common
  import opened StableSort
  import StreamLines

  type Pos = StreamLines.Pos

  // ---------------------------------------------------------------------------
  // extraer_texto: collection phase
  // ---------------------------------------------------------------------------

  /** Lines mentioning `/Artifact`, `BT` or `ET` anywhere are ignored whole,
      position operators included. */
  predicate Ignored(line: string) {
    Contains(line, "/Artifact") || Contains(line, "BT") || Contains(line, "ET")
  }

  /** The position after a line: `Tm` first sets it, then `Td` shifts it.
      None is the ValueError of a malformed operand. */
  function Move(pos: Pos, line: string, scan: StreamLines.Scanner): Option<Pos> {
    var p :- StreamLines.SetBySix(pos, scan(line).tm);
    StreamLines.ShiftByPair(p, scan(line).td)
  }

  /** The text a line shows: its parenthesised groups run together, stripped. */
  function LineText(line: string): string {
    Strip(Join(StreamLines.ParenGroups(line, 0), ""))
  }

  /** Whether a line contributes text, given the texts already recorded. */
  predicate Contributes(line: string, seen: set<string>) {
    StreamLines.HasParenTJ(line) && LineText(line) != "" && LineText(line) !in seen
  }

  /** The running state: position, texts seen, and `(height, text)` records. */
  datatype Collect = Collect(pos: Pos, seen: set<string>, recorded: seq<(real, string)>)

  const Start := Collect(StreamLines.Pos(0.0, 0.0), {}, [])

  function CollectLine(acc: Collect, line: string, scan: StreamLines.Scanner): Option<Collect> {
    if Ignored(line) then Some(acc)
    else
      var pos :- Move(acc.pos, line, scan);
      if Contributes(line, acc.seen) then
        Some(Collect(pos, acc.seen + {LineText(line)}, acc.recorded + [(pos.y, LineText(line))]))
      else Some(acc.(pos := pos))
  }

  /** The state after the lines, or None once a malformed operand raises. */
  function Collected(lines: seq<string>, scan: StreamLines.Scanner): Option<Collect>
    decreases |lines|
  {
    if |lines| == 0 then Some(Start)
    else
      var acc :- Collected(lines[..|lines| - 1], scan);
      CollectLine(acc, lines[|lines| - 1], scan)
  }

  function TextsOf(rs: seq<(real, string)>): (r: seq<string>)
    ensures |r| == |rs|
    ensures forall k | 0 <= k < |rs| :: r[k] == rs[k].1
    decreases |rs|
  {
    if |rs| == 0 then [] else TextsOf(rs[..|rs| - 1]) + [rs[|rs| - 1].1]
  }

  /** Sort key that puts greater heights first. */
  function ByHeight(r: (real, string)): (real, real) { (-r.0, 0.0) }

  /** The records ordered top of page first, ties in recording order. */
  function Ordered(rs: seq<(real, string)>): seq<(real, string)> {
    Sort(rs, ByHeight)
  }

  /** The text of a decoded stream before the final clean-up substitutions. */
  function StreamText(decoded: string, scan: StreamLines.Scanner): Option<string> {
    var c :- Collected(Split(decoded, '\n'), scan);
    Some(Join(TextsOf(Ordered(c.recorded)), " "))
  }

  /** `extraer_texto` up to the join: the loop over the lines, then the
      stable sort by height and the join. */
  method ExtractText(decoded: string, scan: StreamLines.Scanner) returns (r: Option<string>)
    ensures r == StreamText(decoded, scan)
  {
    var lines := Split(decoded, '\n');
    var pos := StreamLines.Pos(0.0, 0.0);
    var seen: set<string> := {};
    var recorded: seq<(real, string)> := [];
    for i := 0 to |lines|
      invariant Collected(lines[..i], scan) == Some(Collect(pos, seen, recorded))
    {
      assert lines[..i + 1][..i] == lines[..i];
      var next := CollectStep(pos, seen, recorded, lines[i], scan);
      if next.None? {
        Failing(lines, scan, i + 1);
        return None;
      }
      pos, seen, recorded := next.value.pos, next.value.seen, next.value.recorded;
    }
    assert lines[..|lines|] == lines;
    r := Some(Join(TextsOf(Ordered(recorded)), " "));
  }

  /** The body of the line loop: skip ignored lines, move the position, and
      record a new non-empty text at the new height. */
  method CollectStep(pos: Pos, seen: set<string>, recorded: seq<(real, string)>, line: string, scan: StreamLines.Scanner)
    returns (r: Option<Collect>)
    ensures r == CollectLine(Collect(pos, seen, recorded), line, scan)
  {
    if Ignored(line) {
      return Some(Collect(pos, seen, recorded));
    }
    var next := Move(pos, line, scan);
    if next.None? {
      return None;
    }
    var seen', recorded' := seen, recorded;
    if StreamLines.HasParenTJ(line) {
      var text := LineText(line);
      if text != "" && text !in seen {
        seen' := seen + {text};
        recorded' := recorded + [(next.value.y, text)];
      }
    }
    return Some(Collect(next.value, seen', recorded'));
  }

  /** Once a prefix fails, so do all the lines. */
  lemma {:induction false} Failing(lines: seq<string>, scan: StreamLines.Scanner, i: nat)
    requires i <= |lines| && Collected(lines[..i], scan) == None
    ensures Collected(lines, scan) == None
    decreases |lines| - i
  {
    if i < |lines| {
      assert lines[..i + 1][..i] == lines[..i];
      Failing(lines, scan, i + 1);
    } else {
      assert lines[..i] == lines;
    }
  }

  /** `procesar_stream`: a stream that cannot be decoded yields no text. */
  function StreamOrEmpty(decoded: Option<string>, scan: StreamLines.Scanner): (r: Option<string>)
    ensures decoded.None? ==> r == Some("")
    ensures decoded.Some? ==> r == StreamText(decoded.value, scan)
  {
    if decoded.None? then Some("") else StreamText(decoded.value, scan)
  }

  // ---------------------------------------------------------------------------
  // Properties of the collection
  // ---------------------------------------------------------------------------

  predicate Distinct(rs: seq<(real, string)>) {
    forall i, j | 0 <= i < j < |rs| :: rs[i].1 != rs[j].1
  }

  /** What the collection keeps: the seen set is exactly the recorded texts,
      which are non-empty and pairwise distinct, one per line at most. */
  predicate WellCollected(c: Collect) {
    && Distinct(c.recorded)
    && (forall k | 0 <= k < |c.recorded| :: c.recorded[k].1 != "" && c.recorded[k].1 in c.seen)
    && (forall t | t in c.seen :: exists k | 0 <= k < |c.recorded| :: c.recorded[k].1 == t)
  }

  /** Recording a new non-empty text keeps the collection well formed. */
  lemma WellAdd(acc: Collect, pos: Pos, t: string)
    requires WellCollected(acc) && t != "" && t !in acc.seen
    ensures WellCollected(Collect(pos, acc.seen + {t}, acc.recorded + [(pos.y, t)]))
  {
    var c := Collect(pos, acc.seen + {t}, acc.recorded + [(pos.y, t)]);
    forall u | u in c.seen ensures exists k | 0 <= k < |c.recorded| :: c.recorded[k].1 == u {
      if u == t {
        assert c.recorded[|acc.recorded|].1 == u;
      } else {
        var k :| 0 <= k < |acc.recorded| && acc.recorded[k].1 == u;
        assert c.recorded[k] == acc.recorded[k];
      }
    }
  }

  /** One line keeps the collection well formed and records at most one text. */
  lemma WellStep(acc: Collect, line: string, scan: StreamLines.Scanner)
    requires WellCollected(acc) && CollectLine(acc, line, scan).Some?
    ensures WellCollected(CollectLine(acc, line, scan).value)
    ensures |CollectLine(acc, line, scan).value.recorded| <= |acc.recorded| + 1
  {
    if !Ignored(line) && Contributes(line, acc.seen) {
      WellAdd(acc, Move(acc.pos, line, scan).value, LineText(line));
    }
  }

  lemma {:induction false} CollectedWell(lines: seq<string>, scan: StreamLines.Scanner)
    requires Collected(lines, scan).Some?
    ensures WellCollected(Collected(lines, scan).value)
    ensures |Collected(lines, scan).value.recorded| <= |lines|
    decreases |lines|
  {
    if |lines| > 0 {
      var init := lines[..|lines| - 1];
      CollectedWell(init, scan);
      WellStep(Collected(init, scan).value, lines[|lines| - 1], scan);
    }
  }

  /** An ignored line changes nothing, not even the position. */
  lemma IgnoredLineNoEffect(lines: seq<string>, line: string, scan: StreamLines.Scanner)
    requires Ignored(line)
    ensures Collected(lines + [line], scan) == Collected(lines, scan)
  {
    assert (lines + [line])[..|lines|] == lines;
  }

  /** A line that is not ignored records a text exactly when it holds a
      parenthesised string and `TJ`, its text is non-empty, and no earlier
      line recorded the same text; the record carries the height after the
      line's own `Tm` and `Td`. */
  lemma RecordsIffNew(lines: seq<string>, line: string, scan: StreamLines.Scanner)
    requires Collected(lines, scan).Some? && !Ignored(line)
    requires Collected(lines + [line], scan).Some?
    ensures var before := Collected(lines, scan).value;
      var after := Collected(lines + [line], scan).value;
      && after.pos == Move(before.pos, line, scan).value
      && (|after.recorded| == |before.recorded| + 1 <==>
            StreamLines.HasParenTJ(line) && LineText(line) != ""
            && forall k | 0 <= k < |before.recorded| :: before.recorded[k].1 != LineText(line))
      && (|after.recorded| == |before.recorded| + 1 ==> after.recorded == before.recorded + [(after.pos.y, LineText(line))])
      && (|after.recorded| != |before.recorded| + 1 ==> after.recorded == before.recorded)
  {
    assert (lines + [line])[..|lines|] == lines;
    var before := Collected(lines, scan).value;
    CollectedWell(lines, scan);
    if LineText(line) in before.seen {
      var k :| 0 <= k < |before.recorded| && before.recorded[k].1 == LineText(line);
    }
  }

  /** The joined texts run from the top of the page down: ordered by height,
      descending, a rearrangement of the records, and records at the same
      height keep the order in which they were found. */
  lemma OrderedTopDown(rs: seq<(real, string)>)
    ensures |Ordered(rs)| == |rs| && multiset(Ordered(rs)) == multiset(rs)
    ensures forall i, j | 0 <= i < j < |Ordered(rs)| :: Ordered(rs)[i].0 >= Ordered(rs)[j].0
    ensures forall k :: WithKey(Ordered(rs), ByHeight, k) == WithKey(rs, ByHeight, k)
  {
    SortFacts(rs, ByHeight);
    forall i, j | 0 <= i < j < |Ordered(rs)| ensures Ordered(rs)[i].0 >= Ordered(rs)[j].0 {
      assert KeyLe(ByHeight(Ordered(rs)[i]), ByHeight(Ordered(rs)[j]));
    }
  }

  // ---------------------------------------------------------------------------
  // extraer_atributos_pikepdf: per-line Markdown
  // ---------------------------------------------------------------------------

  predicate IsFontChar(c: char) { IsAlnum(c) || c == '#' }

  /** Length of the run of font-name characters from `from`. */
  function FontRun(s: string, from: nat): (r: nat)
    ensures from + r <= |s| || (from >= |s| && r == 0)
    ensures forall k | from <= k < from + r :: IsFontChar(s[k])
    ensures from + r < |s| ==> !IsFontChar(s[from + r])
    decreases |s| - from
  {
    if from < |s| && IsFontChar(s[from]) then 1 + FontRun(s, from + 1) else 0
  }

  /** `/Name Tf` starts at `i`: the name is the longest run after the slash,
      as no shorter run can be followed by a space. */
  predicate FontAt(s: string, i: nat) {
    i < |s| && s[i] == '/' && FontRun(s, i + 1) > 0 && OccursAt(s, " Tf", i + 1 + FontRun(s, i + 1))
  }

  /** The name of the leftmost `/Name Tf` from `from` on. */
  function FontFrom(s: string, from: nat): (r: Option<string>)
    ensures r.Some? ==> exists i | from <= i < |s| :: FontAt(s, i) && r.value == s[i + 1..i + 1 + FontRun(s, i + 1)]
    ensures r.None? ==> forall i | from <= i < |s| :: !FontAt(s, i)
    decreases |s| - from
  {
    if from >= |s| then None
    else if FontAt(s, from) then Some(s[from + 1..from + 1 + FontRun(s, from + 1)])
    else FontFrom(s, from + 1)
  }

  /** The line's font is bold when its name mentions Bold or Black; a line
      without a font selection is not bold. */
  predicate IsBold(line: string) {
    var f := FontFrom(line, 0);
    f.Some? && (Contains(f.value, "Bold") || Contains(f.value, "Black"))
  }

  predicate IsAsciiLetter(c: char) { 'a' <= c <= 'z' || 'A' <= c <= 'Z' }

  /** `[a-z]` under `re.IGNORECASE`: the ASCII letters of either case and the
      four characters Python's case-insensitive matching folds onto one of
      them: dotted capital I, dotless small i, long s and the Kelvin sign. */
  predicate CaselessLetter(c: char) {
    IsAsciiLetter(c) || c == '\U{130}' || c == '\U{131}' || c == '\U{17F}' || c == '\U{212A}'
  }

  /** Digits, a dot and a whitespace character at the start of the line. */
  predicate Numbered(line: string) {
    var n := DigitRun(line, 0);
    n > 0 && n + 1 < |line| && line[n] == '.' && IsSpace(line[n + 1])
  }

  /** One letter of either case, `)` and a whitespace character at the start. */
  predicate Lettered(line: string) {
    |line| >= 3 && CaselessLetter(line[0]) && line[1] == ')' && IsSpace(line[2])
  }

  predicate Bulleted(line: string) { '•' in line || '○' in line }

  /** The Markdown for one line. */
  function MarkdownLine(line: string): string {
    if Numbered(line) then "1. " + line + "\n"
    else if Lettered(line) || Bulleted(line) then "- " + line + "\n"
    else if IsBold(line) then "**" + line + "**" + "\n"
    else line + "\n"
  }

  /** Each line comes out once, whole, on its own output line, behind the
      marker of the first test it passes, in the order numbered, lettered or
      bulleted, bold. */
  lemma MarkdownLineShape(line: string)
    ensures exists pre, post ::
      && MarkdownLine(line) == pre + line + post + "\n"
      && (pre == "1. " <==> Numbered(line))
      && (pre == "- " <==> !Numbered(line) && (Lettered(line) || Bulleted(line)))
      && (pre == "**" <==> !Numbered(line) && !Lettered(line) && !Bulleted(line) && IsBold(line))
      && (pre == "" <==> !Numbered(line) && !Lettered(line) && !Bulleted(line) && !IsBold(line))
      && (post == "**" <==> pre == "**") && (post == "" <==> pre != "**")
  {
    if Numbered(line) {
      assert MarkdownLine(line) == "1. " + line + "" + "\n";
    } else if Lettered(line) || Bulleted(line) {
      assert MarkdownLine(line) == "- " + line + "" + "\n";
    } else if IsBold(line) {
      assert MarkdownLine(line) == "**" + line + "**" + "\n";
    } else {
      assert MarkdownLine(line) == "" + line + "" + "\n";
    }
  }

  /** A page's `/Contents`: absent, or its objects, each either a stream
      (already decoded) or something else, which is skipped. */
  datatype PageContents = NoContents | Objects(objs: seq<Option<string>>)

  /** The concatenation of `f` over the lines. */
  function ConcatMap(lines: seq<string>, f: string -> string): string
    decreases |lines|
  {
    if |lines| == 0 then "" else ConcatMap(lines[..|lines| - 1], f) + f(lines[|lines| - 1])
  }

  function LinesMarkdown(lines: seq<string>): string {
    ConcatMap(lines, MarkdownLine)
  }

  function ObjectsMarkdown(objs: seq<Option<string>>): string
    decreases |objs|
  {
    if |objs| == 0 then ""
    else
      var last := objs[|objs| - 1];
      ObjectsMarkdown(objs[..|objs| - 1]) + (if last.None? then "" else LinesMarkdown(Split(last.value, '\n')))
  }

  function PageMarkdown(p: PageContents): string {
    if p.NoContents? then "" else ObjectsMarkdown(p.objs) + "\n\n"
  }

  function DocumentMarkdown(pages: seq<PageContents>): string
    decreases |pages|
  {
    if |pages| == 0 then "" else DocumentMarkdown(pages[..|pages| - 1]) + PageMarkdown(pages[|pages| - 1])
  }

  lemma ObjectsStep(objs: seq<Option<string>>, o: nat)
    requires o < |objs|
    ensures objs[o].None? ==> ObjectsMarkdown(objs[..o + 1]) == ObjectsMarkdown(objs[..o])
    ensures objs[o].Some? ==> ObjectsMarkdown(objs[..o + 1]) == ObjectsMarkdown(objs[..o]) + LinesMarkdown(Split(objs[o].value, '\n'))
  {
    assert objs[..o + 1][..o] == objs[..o];
  }

  /** Appends `f` of each line of one stream. */
  method AppendLines(acc: string, lines: seq<string>, f: string -> string) returns (out: string)
    ensures out == acc + ConcatMap(lines, f)
  {
    out := acc;
    for l := 0 to |lines|
      invariant out == acc + ConcatMap(lines[..l], f)
    {
      assert lines[..l + 1][..l] == lines[..l];
      out := out + f(lines[l]);
    }
    assert lines[..|lines|] == lines;
  }

  /** Appends the Markdown of each stream of one page, skipping other objects. */
  method AppendObjects(acc: string, objs: seq<Option<string>>) returns (out: string)
    ensures out == acc + ObjectsMarkdown(objs)
  {
    out := acc;
    for o := 0 to |objs|
      invariant out == acc + ObjectsMarkdown(objs[..o])
    {
      ObjectsStep(objs, o);
      if objs[o].Some? {
        out := AppendLines(out, Split(objs[o].value, '\n'), MarkdownLine);
      }
    }
    assert objs[..|objs|] == objs;
  }

  /** `extraer_atributos_pikepdf`: appends each line's Markdown, page by page. */
  method AttributesMarkdown(pages: seq<PageContents>) returns (out: string)
    ensures out == DocumentMarkdown(pages)
  {
    out := "";
    for p := 0 to |pages|
      invariant out == DocumentMarkdown(pages[..p])
    {
      assert pages[..p + 1][..p] == pages[..p];
      if pages[p].Objects? {
        out := AppendObjects(out, pages[p].objs);
        out := out + "\n\n";
      }
    }
    assert pages[..|pages|] == pages;
  }

  /** Pages contribute in order: pages without contents add nothing, and
      every other page's lines are followed by a blank line. */
  lemma {:induction false} DocumentPages(pages: seq<PageContents>, p: PageContents)
    ensures DocumentMarkdown(pages + [p]) == DocumentMarkdown(pages) + PageMarkdown(p)
    ensures p.NoContents? ==> DocumentMarkdown(pages + [p]) == DocumentMarkdown(pages)
    ensures p.Objects? ==> EndsWith(DocumentMarkdown(pages + [p]), "\n\n")
  {
    assert (pages + [p])[..|pages|] == pages;
    if p.Objects? {
      var s := DocumentMarkdown(pages + [p]);
      assert s[|s| - 2..] == "\n\n";
    } else {
      assert PageMarkdown(p) == "";
    }
  }
}
