/** The text-free copy of a page that table detection works on: every
    text-showing operator (`Tj` and `TJ`, section 9.4.3 of ISO 32000-1) is
    cut out of each line of a decoded content stream, while the
    `Td`/`Tm` positioning of the line is still read with Python's `float`. */
module TextRemoval {
  import opened Common
  import StreamLines

  // ---------------------------------------------------------------------------
  // `re.sub(r'\((.*?)\)\s*Tj|\[(.*?)\]\s*TJ', "", line)`
  // ---------------------------------------------------------------------------

  /** End of the lazily closed group begun before `k`: the first `close` at or
      after `k` that is followed by optional whitespace and `op`. */
  function CloseEnd(s: string, k: nat, close: char, op: string): (r: Option<nat>)
    requires |op| == 2
    ensures r.Some? ==> k < r.value <= |s|
    decreases |s| - k
  {
    if k >= |s| then None
    else
      var j := k + 1 + StreamLines.SpaceRun(s, k + 1);
      if s[k] == close && j + 2 <= |s| && s[j..j + 2] == op then Some(j + 2)
      else CloseEnd(s, k + 1, close, op)
  }

  /** End of the text-showing match that starts at `i`, if one does. The
      first alternative needs `(`, the second `[`, so at most one applies. */
  function ShowMatchAt(s: string, i: nat): (r: Option<nat>)
    ensures r.Some? ==> i < r.value <= |s|
  {
    if i < |s| && s[i] == '(' then CloseEnd(s, i + 1, ')', "Tj")
    else if i < |s| && s[i] == '[' then CloseEnd(s, i + 1, ']', "TJ")
    else None
  }

  /** Start of the leftmost match at or after `from`. */
  function FirstShow(s: string, from: nat): (r: Option<nat>)
    ensures r.Some? ==> from <= r.value < |s| && ShowMatchAt(s, r.value).Some?
    ensures r.None? ==> forall j | from <= j < |s| :: ShowMatchAt(s, j).None?
    decreases |s| - from
  {
    if from >= |s| then None
    else if ShowMatchAt(s, from).Some? then Some(from)
    else FirstShow(s, from + 1)
  }

  predicate HasShow(s: string) { FirstShow(s, 0).Some? }

  /** The substitution on `s[from..]`: a match is cut out and the scan resumes
      after it; any other character is kept. */
  function StripShowFrom(s: string, from: nat): string
    decreases |s| - from
  {
    if from >= |s| then ""
    else match ShowMatchAt(s, from)
      case Some(e) => StripShowFrom(s, e)
      case None => [s[from]] + StripShowFrom(s, from + 1)
  }

  function StripShow(s: string): string { StripShowFrom(s, 0) }

  lemma {:induction false} StripShowFromShape(s: string, from: nat)
    requires from <= |s|
    ensures |StripShowFrom(s, from)| <= |s| - from
    ensures FirstShow(s, from).None? ==> StripShowFrom(s, from) == s[from..]
    ensures FirstShow(s, from).Some? ==> |StripShowFrom(s, from)| < |s| - from
    ensures forall c | c in StripShowFrom(s, from) :: c in s[from..]
    decreases |s| - from
  {
    if from < |s| {
      match ShowMatchAt(s, from)
      case Some(e) =>
        StripShowFromShape(s, e);
        forall c | c in StripShowFrom(s, e) ensures c in s[from..] {
          assert s[e..] == s[from..][e - from..];
        }
      case None =>
        StripShowFromShape(s, from + 1);
        assert s[from..] == [s[from]] + s[from + 1..];
    }
  }

  /** Cutting the text out changes a line exactly when it shows text. */
  lemma StripShowChangesIffShow(s: string)
    ensures StripShow(s) == s <==> !HasShow(s)
  {
    StripShowFromShape(s, 0);
  }

  /** The cut never brings in a character, so a line stays a line. */
  lemma StripShowKeepsChars(s: string, c: char)
    requires c !in s
    ensures c !in StripShow(s)
  {
    StripShowFromShape(s, 0);
  }

  // ---------------------------------------------------------------------------
  // `procesar_contenido`
  // ---------------------------------------------------------------------------

  /** The captures of the leftmost `x y Td` or `x y Tm` match of a line
      (`([-0-9.]+)\s+([-0-9.]+)\s+Td|([-0-9.]+)\s+([-0-9.]+)\s+Tm`). */
  type PositionScanner = string -> Option<StreamLines.Pair>

  /** The position after a line: either operator SETS it to its two operands.
      None is the ValueError `float` raises on a malformed operand. */
  function NextPosition(pos: StreamLines.Pos, line: string, scan: PositionScanner): Option<StreamLines.Pos> {
    if scan(line).None? then Some(pos) else StreamLines.PairPoint(scan(line).value)
  }

  /** The position after the lines and the lines with their text cut out. */
  function Processed(lines: seq<string>, scan: PositionScanner): Option<(StreamLines.Pos, seq<string>)>
    decreases |lines|
  {
    if |lines| == 0 then Some((StreamLines.Pos(0.0, 0.0), []))
    else
      var acc :- Processed(lines[..|lines| - 1], scan);
      var pos :- NextPosition(acc.0, lines[|lines| - 1], scan);
      Some((pos, acc.1 + [StripShow(lines[|lines| - 1])]))
  }

  /** What `procesar_contenido` returns for a decoded stream. */
  function ContentWithoutText(content: string, scan: PositionScanner): Option<string> {
    var acc :- Processed(Split(content, '\n'), scan);
    Some(Join(acc.1, "\n"))
  }

  predicate Malformed(line: string, scan: PositionScanner) {
    scan(line).Some? && StreamLines.PairPoint(scan(line).value).None?
  }

  method ProcessContent(content: string, scan: PositionScanner) returns (r: Option<string>)
    ensures r == ContentWithoutText(content, scan)
  {
    var lines := Split(content, '\n');
    var current := StreamLines.Pos(0.0, 0.0);
    var kept: seq<string> := [];
    for i := 0 to |lines|
      invariant Processed(lines[..i], scan) == Some((current, kept))
    {
      assert lines[..i + 1][..i] == lines[..i];
      var m := scan(lines[i]);
      if m.Some? {
        var p := StreamLines.PairPoint(m.value);
        if p.None? {
          TraceFails(lines, i + 1, scan);
          return None;
        }
        current := p.value;
      }
      kept := kept + [StripShow(lines[i])];
    }
    assert lines[..|lines|] == lines;
    r := Some(Join(kept, "\n"));
  }

  lemma {:induction false} TraceFails(lines: seq<string>, i: nat, scan: PositionScanner)
    requires i <= |lines| && Processed(lines[..i], scan).None?
    ensures Processed(lines, scan).None?
    decreases |lines| - i
  {
    if i < |lines| {
      assert lines[..i + 1][..i] == lines[..i];
      TraceFails(lines, i + 1, scan);
    } else {
      assert lines[..i] == lines;
    }
  }

  /** The run fails exactly when some line carries a malformed operand; when
      it succeeds there is one output line per input line, each the input
      line with its text cut out. */
  lemma {:induction false} ProcessedLines(lines: seq<string>, scan: PositionScanner)
    ensures Processed(lines, scan).None? <==> exists k | 0 <= k < |lines| :: Malformed(lines[k], scan)
    ensures Processed(lines, scan).Some? ==>
              |Processed(lines, scan).value.1| == |lines| &&
              forall k | 0 <= k < |lines| :: Processed(lines, scan).value.1[k] == StripShow(lines[k])
    decreases |lines|
  {
    if |lines| > 0 {
      var init := lines[..|lines| - 1];
      ProcessedLines(init, scan);
      if Processed(init, scan).None? {
        var k :| 0 <= k < |init| && Malformed(init[k], scan);
        assert lines[k] == init[k];
      } else {
        var acc := Processed(init, scan).value;
        if Malformed(lines[|lines| - 1], scan) {
        } else {
          assert NextPosition(acc.0, lines[|lines| - 1], scan).Some?;
          forall k | 0 <= k < |lines| ensures !Malformed(lines[k], scan) {
            if k < |init| { assert lines[k] == init[k]; }
          }
        }
      }
    }
  }

  /** A stream keeps its line count, and each line loses exactly its text. */
  lemma ContentKeepsLines(content: string, scan: PositionScanner)
    requires ContentWithoutText(content, scan).Some?
    ensures var out := Split(ContentWithoutText(content, scan).value, '\n');
            var lines := Split(content, '\n');
            |out| == |lines| && forall k | 0 <= k < |lines| :: out[k] == StripShow(lines[k])
  {
    var lines := Split(content, '\n');
    ProcessedLines(lines, scan);
    var kept := Processed(lines, scan).value.1;
    forall k | 0 <= k < |kept| ensures '\n' !in kept[k] {
      StripShowKeepsChars(lines[k], '\n');
    }
    SplitJoin(kept, '\n');
  }

  /** A stream that shows no text and has well-formed positioning comes back as it was. */
  lemma ContentWithoutTextUnchanged(content: string, scan: PositionScanner)
    requires forall k | 0 <= k < |Split(content, '\n')| ::
               !HasShow(Split(content, '\n')[k]) && !Malformed(Split(content, '\n')[k], scan)
    ensures ContentWithoutText(content, scan) == Some(content)
  {
    var lines := Split(content, '\n');
    ProcessedLines(lines, scan);
    var kept := Processed(lines, scan).value.1;
    forall k | 0 <= k < |lines| ensures kept[k] == lines[k] {
      StripShowChangesIffShow(lines[k]);
    }
    assert kept == lines;
    JoinSplit(content, '\n');
  }
}
