/** `limpiar_texto`: the substitutions applied to a page's extracted text
    before it is converted to Markdown, each a left-to-right, non-overlapping
    regular-expression substitution over the whole string, then a strip.

    1. runs of two or more underscores are deleted;
    2. runs of two or more newlines become one newline;
    3. `Pagina`, one whitespace character and digits get the prefix `# `;
    4. a word-bounded `OFERTA ` and the rest of its line (cut back to the last
       word boundary), or `POLÍTICAS GENERALES`, get the prefix `## `;
    5. a hyphen and one whitespace character become `* `. */
module TextCleanup {
  import opened Common

  datatype Pattern = Underscores | Newlines | Pagina | Heading | Hyphen

  /** `\w` for the characters the documents use: ASCII letters and digits,
      the underscore and the Latin-1 letters. */
  predicate IsWord(c: char) {
    IsAlnum(c) || c == '_' || c == 'ª' || c == 'µ' || c == 'º'
    || ('À' <= c <= 'ÿ' && c != '×' && c != '÷')
  }

  /** `\b` at position `e`: a word character on exactly one side. */
  predicate Boundary(s: string, e: nat)
    requires e <= |s|
  {
    (e > 0 && IsWord(s[e - 1])) != (e < |s| && IsWord(s[e]))
  }

  /** Length of the run of `c` starting at `i`. */
  function Run(s: string, i: nat, c: char): (r: nat)
    ensures i + r <= |s| || (i >= |s| && r == 0)
    ensures forall k | i <= k < i + r :: s[k] == c
    ensures i + r < |s| ==> s[i + r] != c
    decreases |s| - i
  {
    if i < |s| && s[i] == c then 1 + Run(s, i + 1, c) else 0
  }

  /** Where the line holding position `from` ends: its newline, or the end. */
  function LineEnd(s: string, from: nat): (r: nat)
    ensures from <= |s| ==> from <= r <= |s|
    ensures forall k | from <= k < r && k < |s| :: s[k] != '\n'
    ensures r < |s| ==> s[r] == '\n'
  {
    match FindChar(s, '\n', from)
    case Some(k) => k
    case None => if from <= |s| then |s| else from
  }

  /** The last word boundary in `lo..e`, which is where a greedy `.+` followed
      by `\b` stops after backtracking from the end of the line. */
  function LastBoundary(s: string, lo: nat, e: nat): (r: Option<nat>)
    requires e <= |s|
    ensures r.Some? ==> lo <= r.value <= e && Boundary(s, r.value)
    ensures r.Some? ==> forall k | r.value < k <= e :: !Boundary(s, k)
    ensures r.None? ==> forall k | lo <= k <= e :: !Boundary(s, k)
    decreases e
  {
    if e < lo then None
    else if Boundary(s, e) then Some(e)
    else if e == 0 then None
    else LastBoundary(s, lo, e - 1)
  }

  const Oferta := "OFERTA "
  const Politicas := "POLÍTICAS GENERALES"

  function PaginaLen(s: string, i: nat): nat {
    if OccursAt(s, "Pagina", i) && i + 6 < |s| && IsSpace(s[i + 6]) && DigitRun(s, i + 7) > 0
    then 7 + DigitRun(s, i + 7) else 0
  }

  function OfertaLen(s: string, i: nat): nat {
    if OccursAt(s, Oferta, i) && i + 8 <= LineEnd(s, i + 7) then
      match LastBoundary(s, i + 8, LineEnd(s, i + 7))
      case Some(e) => e - i
      case None => 0
    else 0
  }

  function HeadingLen(s: string, i: nat): nat {
    if i >= |s| || !Boundary(s, i) then 0
    else if OfertaLen(s, i) > 0 then OfertaLen(s, i)
    else if OccursAt(s, Politicas, i) && Boundary(s, i + 19) then 19
    else 0
  }

  /** Length of the match of the pattern at `i`, 0 for none (no pattern
      matches the empty string). */
  function MatchLen(p: Pattern, s: string, i: nat): (n: nat)
    ensures n > 0 ==> i + n <= |s|
  {
    match p
    case Underscores => if Run(s, i, '_') >= 2 then Run(s, i, '_') else 0
    case Newlines => if Run(s, i, '\n') >= 2 then Run(s, i, '\n') else 0
    case Pagina => PaginaLen(s, i)
    case Heading => HeadingLen(s, i)
    case Hyphen => if i + 1 < |s| && s[i] == '-' && IsSpace(s[i + 1]) then 2 else 0
  }

  /** What a replacement writes in front of the matched text. */
  function Inserted(p: Pattern): string {
    match p
    case Underscores => ""
    case Newlines => "\n"
    case Pagina => "# "
    case Heading => "## "
    case Hyphen => "* "
  }

  /** Whether the matched text is written back (`\1`) after the insertion. */
  predicate Keeps(p: Pattern) { p.Pagina? || p.Heading? }

  /** What replaces a match `m`: the insertion, then `m` itself when it is
      written back. */
  function Rep(ins: string, keeps: bool, m: string): string {
    ins + (if keeps then m else "")
  }

  function Replacement(p: Pattern, m: string): string {
    Rep(Inserted(p), Keeps(p), m)
  }

  /** The match lengths never run past the end of `s`. */
  ghost predicate Bounded(len: (string, nat) -> nat, s: string) {
    forall j: nat :: len(s, j) > 0 ==> j + len(s, j) <= |s|
  }

  /** `re.sub` from position `i`, for the match lengths `len`: at each
      position either a match starts, its replacement is written and the
      scan resumes after it, or the character is copied. */
  function SubBy(len: (string, nat) -> nat, ins: string, keeps: bool, s: string, i: nat): string
    requires Bounded(len, s)
    decreases |s| - i
  {
    if i >= |s| then ""
    else if len(s, i) > 0 then Rep(ins, keeps, s[i..i + len(s, i)]) + SubBy(len, ins, keeps, s, i + len(s, i))
    else [s[i]] + SubBy(len, ins, keeps, s, i + 1)
  }

  /** The match lengths of a pattern. */
  function Len(p: Pattern): (string, nat) -> nat {
    (s: string, i: nat) => MatchLen(p, s, i)
  }

  /** The lambda of a pattern applies its match length. */
  lemma LenApplies(p: Pattern)
    ensures forall s: string, i: nat :: Len(p)(s, i) == MatchLen(p, s, i)
  {
  }

  lemma LenBounded(p: Pattern, s: string)
    ensures Bounded(Len(p), s)
  {
    forall j: nat ensures Len(p)(s, j) > 0 ==> j + Len(p)(s, j) <= |s| {
      assert Len(p)(s, j) == MatchLen(p, s, j);
    }
  }

  /** `re.sub` of the pattern `p` from position `i`. */
  function Sub(p: Pattern, s: string, i: nat): string {
    LenBounded(p, s);
    SubBy(Len(p), Inserted(p), Keeps(p), s, i)
  }

  function Substitute(p: Pattern, s: string): string { Sub(p, s, 0) }

  /** `limpiar_texto`. */
  function CleanText(t: string): string {
    Strip(Substituted(t))
  }

  /** The five substitutions of `limpiar_texto`, before the strip. */
  function Substituted(t: string): string {
    var t1 := Substitute(Underscores, t);
    var t2 := Substitute(Newlines, t1);
    var t3 := Substitute(Pagina, t2);
    var t4 := Substitute(Heading, t3);
    Substitute(Hyphen, t4)
  }

  // ---------------------------------------------------------------------------
  // No doubled underscores or newlines
  // ---------------------------------------------------------------------------

  /** No two consecutive characters are both `c`. */
  predicate NoPair(s: string, c: char) {
    forall k | 0 <= k < |s| - 1 :: !PairAt(s, k, c)
  }

  /** The characters at `k` and `k + 1` are both `c`. */
  predicate PairAt(s: string, k: nat, c: char)
    requires k + 1 < |s|
  {
    s[k] == c && s[k + 1] == c
  }

  lemma NoPairConcat(a: string, b: string, c: char)
    requires NoPair(a, c) && NoPair(b, c)
    requires |a| > 0 && |b| > 0 ==> !(a[|a| - 1] == c && b[0] == c)
    ensures NoPair(a + b, c)
  {
    forall k | 0 <= k < |a + b| - 1 ensures !PairAt(a + b, k, c) {
      if k + 1 < |a| {
        assert (a + b)[k] == a[k] && (a + b)[k + 1] == a[k + 1];
        assert !PairAt(a, k, c);
      } else if k >= |a| {
        assert (a + b)[k] == b[k - |a|] && (a + b)[k + 1] == b[k + 1 - |a|];
        assert !PairAt(b, k - |a|, c);
      }
    }
  }

  lemma NoPairSlice(s: string, c: char, i: nat, j: nat)
    requires i <= j <= |s| && NoPair(s, c)
    ensures NoPair(s[i..j], c)
  {
    forall k | 0 <= k < j - i - 1 ensures !PairAt(s[i..j], k, c) {
      assert s[i..j][k] == s[i + k] && s[i..j][k + 1] == s[i + k + 1];
      assert !PairAt(s, i + k, c);
    }
  }

  /** Deleting or collapsing runs leaves no two `c` side by side, and the
      output can only start with `c` where the input does. */
  lemma CollapseNoPair(p: Pattern, s: string, i: nat)
    requires p.Underscores? || p.Newlines?
    ensures var c := if p.Underscores? then '_' else '\n';
      && NoPair(Sub(p, s, i), c)
      && (|Sub(p, s, i)| > 0 && Sub(p, s, i)[0] == c ==> i < |s| && s[i] == c)
  {
    var c := if p.Underscores? then '_' else '\n';
    LenBounded(p, s);
    forall j: nat | j < |s| ensures RunsAt(Len(p), s, j, c) {
      assert Len(p)(s, j) == MatchLen(p, s, j);
      if s[j] == c {
        assert Run(s, j, c) == 1 + Run(s, j + 1, c);
      }
    }
    CollapseBy(Len(p), Inserted(p), s, i, c);
  }

  /** A match at `j` is a whole run of `c`; without one, a `c` at `j` stands
      alone. */
  predicate RunsAt(len: (string, nat) -> nat, s: string, j: nat, c: char)
    requires j < |s|
  {
    if len(s, j) > 0 then s[j] == c && (j + len(s, j) < |s| ==> s[j + len(s, j)] != c)
    else s[j] == c && j + 1 < |s| ==> s[j + 1] != c
  }

  /** `CollapseNoPair` for any match lengths that take whole runs of `c`,
      replaced by nothing or by one `c`. */
  lemma {:induction false} CollapseBy(len: (string, nat) -> nat, ins: string, s: string, i: nat, c: char)
    requires Bounded(len, s) && (ins == "" || ins == [c])
    requires forall j: nat | j < |s| :: RunsAt(len, s, j, c)
    ensures var r := SubBy(len, ins, false, s, i);
      NoPair(r, c) && (|r| > 0 && r[0] == c ==> i < |s| && s[i] == c)
    decreases |s| - i
  {
    if i < |s| {
      var n := len(s, i);
      assert RunsAt(len, s, i, c);
      if n > 0 {
        CollapseBy(len, ins, s, i + n, c);
        var rest := SubBy(len, ins, false, s, i + n);
        assert Rep(ins, false, s[i..i + n]) == ins;
        NoPairConcat(ins, rest, c);
      } else {
        CollapseBy(len, ins, s, i + 1, c);
        NoPairConcat([s[i]], SubBy(len, ins, false, s, i + 1), c);
      }
    }
  }

  /** A substitution whose inserted text is non-empty and free of `c`
      introduces no two `c` side by side. */
  lemma InsertNoPair(p: Pattern, s: string, i: nat, c: char)
    requires NoPair(s, c)
    requires |Inserted(p)| > 0 && c !in Inserted(p)
    ensures NoPair(Sub(p, s, i), c)
    ensures |Sub(p, s, i)| > 0 && Sub(p, s, i)[0] == c ==> i < |s| && s[i] == c
  {
    LenBounded(p, s);
    InsertBy(Len(p), Inserted(p), Keeps(p), s, i, c);
  }

  /** `InsertNoPair` for any match lengths. */
  lemma {:induction false} InsertBy(len: (string, nat) -> nat, ins: string, keeps: bool, s: string, i: nat, c: char)
    requires Bounded(len, s) && NoPair(s, c) && |ins| > 0 && c !in ins
    ensures var r := SubBy(len, ins, keeps, s, i);
      NoPair(r, c) && (|r| > 0 && r[0] == c ==> i < |s| && s[i] == c)
    decreases |s| - i
  {
    if i < |s| {
      var n := len(s, i);
      if n > 0 {
        InsertBy(len, ins, keeps, s, i + n, c);
        RepNoPair(ins, keeps, s, i, n, c);
        NoPairConcat(Rep(ins, keeps, s[i..i + n]), SubBy(len, ins, keeps, s, i + n), c);
      } else {
        InsertBy(len, ins, keeps, s, i + 1, c);
        if i + 1 < |s| {
          assert !PairAt(s, i, c);
        }
        NoPairConcat([s[i]], SubBy(len, ins, keeps, s, i + 1), c);
      }
    }
  }

  /** The prefixing substitutions keep both kinds of pair out. */
  lemma InsertBoth(p: Pattern, s: string)
    requires p.Pagina? || p.Heading? || p.Hyphen?
    requires NoPair(s, '_') && NoPair(s, '\n')
    ensures NoPair(Substitute(p, s), '_') && NoPair(Substitute(p, s), '\n')
  {
    var ins := Inserted(p);
    assert |ins| == 2 || |ins| == 3;
    assert forall k | 0 <= k < |ins| :: ins[k] != '_' && ins[k] != '\n';
    InsertNoPair(p, s, 0, '_');
    InsertNoPair(p, s, 0, '\n');
  }

  /** The replacement of one match holds no pair of `c`, does not start with
      `c`, and ends with `c` only where the next input character is not. */
  lemma RepNoPair(ins: string, keeps: bool, s: string, i: nat, n: nat, c: char)
    requires NoPair(s, c) && 0 < n && i + n <= |s|
    requires |ins| > 0 && c !in ins
    ensures var x := Rep(ins, keeps, s[i..i + n]);
      |x| > 0 && NoPair(x, c) && x[0] != c
      && (i + n < |s| && x[|x| - 1] == c ==> s[i + n] != c)
  {
    var x := Rep(ins, keeps, s[i..i + n]);
    assert ins[0] in ins && ins[|ins| - 1] in ins;
    forall k | 0 <= k < |ins| ensures ins[k] != c {
      assert ins[k] in ins;
    }
    if keeps {
      NoPairSlice(s, c, i, i + n);
      NoPairConcat(ins, s[i..i + n], c);
      assert x[|x| - 1] == s[i + n - 1];
      if i + n < |s| {
        assert !PairAt(s, i + n - 1, c);
      }
    } else {
      assert x == ins;
    }
  }

  /** The cleaned text never holds two consecutive underscores or two
      consecutive newlines, and neither starts nor ends with whitespace. */
  lemma CleanTextShape(t: string)
    ensures NoPair(CleanText(t), '_') && NoPair(CleanText(t), '\n')
    ensures |CleanText(t)| > 0 ==> !IsSpace(CleanText(t)[0]) && !IsSpace(CleanText(t)[|CleanText(t)| - 1])
  {
    SubstitutedNoPair(t);
    var t5 := Substituted(t);
    StripNoPair(t5, '_');
    StripNoPair(t5, '\n');
  }

  lemma SubstitutedNoPair(t: string)
    ensures NoPair(Substituted(t), '_') && NoPair(Substituted(t), '\n')
  {
    var t1 := Substitute(Underscores, t);
    var t2 := Substitute(Newlines, t1);
    var t3 := Substitute(Pagina, t2);
    var t4 := Substitute(Heading, t3);
    CollapseNoPair(Underscores, t, 0);
    assert Inserted(Newlines) == "\n";
    InsertNoPair(Newlines, t1, 0, '_');
    CollapseNoPair(Newlines, t1, 0);
    InsertBoth(Pagina, t2);
    InsertBoth(Heading, t3);
    InsertBoth(Hyphen, t4);
  }

  lemma StripNoPair(s: string, c: char)
    requires NoPair(s, c)
    ensures NoPair(Strip(s), c)
  {
    var i, j :| 0 <= i <= j <= |s| && Strip(s) == s[i..j];
    NoPairSlice(s, c, i, j);
  }

  // ---------------------------------------------------------------------------
  // Where the replacements land
  // ---------------------------------------------------------------------------

  /** Text in which the pattern matches nowhere comes out unchanged. */
  lemma SubNoMatch(p: Pattern, s: string, i: nat)
    requires i <= |s|
    requires forall k | i <= k < |s| :: MatchLen(p, s, k) == 0
    ensures Sub(p, s, i) == s[i..]
  {
    LenBounded(p, s);
    forall k: nat | i <= k < |s| ensures Len(p)(s, k) == 0 {
      assert Len(p)(s, k) == MatchLen(p, s, k);
    }
    SubNoMatchBy(Len(p), Inserted(p), Keeps(p), s, i);
  }

  lemma {:induction false} SubNoMatchBy(len: (string, nat) -> nat, ins: string, keeps: bool, s: string, i: nat)
    requires Bounded(len, s) && i <= |s|
    requires forall k: nat | i <= k < |s| :: len(s, k) == 0
    ensures SubBy(len, ins, keeps, s, i) == s[i..]
    decreases |s| - i
  {
    if i < |s| {
      SubNoMatchBy(len, ins, keeps, s, i + 1);
      assert s[i..] == [s[i]] + s[i + 1..];
    }
  }

  /** No match starting before `k` (and at or after `i`) runs over `k`. */
  predicate Uncovered(p: Pattern, s: string, i: nat, k: nat) {
    forall j | i <= j < k :: EndsBy(p, s, j, k)
  }

  /** The match at `j`, if any, ends by `k`. */
  predicate EndsBy(p: Pattern, s: string, j: nat, k: nat) {
    MatchLen(p, s, j) == 0 || j + MatchLen(p, s, j) <= k
  }

  lemma ContainsFront(x: string, rest: string)
    ensures Contains(x + rest, x)
  {
    assert OccursAt(x + rest, x, 0);
  }

  lemma ContainsAfter(head: string, rest: string, x: string)
    requires Contains(rest, x)
    ensures Contains(head + rest, x)
  {
    var j :| 0 <= j <= |rest| - |x| && OccursAt(rest, x, j);
    assert (head + rest)[|head| + j..|head| + j + |x|] == rest[j..j + |x|];
    assert OccursAt(head + rest, x, |head| + j);
  }

  /** A match the scan cannot skip over is replaced: its replacement appears
      in the output. */
  lemma ReachedMatch(p: Pattern, s: string, i: nat, k: nat)
    requires i <= k && MatchLen(p, s, k) > 0 && Uncovered(p, s, i, k)
    ensures Contains(Sub(p, s, i), Replacement(p, s[k..k + MatchLen(p, s, k)]))
  {
    SubIsBy(p, s, i);
    UncoveredLen(p, s, i, k);
    ReplacementIsRep(p, s, k);
    ReachedBy(Len(p), Inserted(p), Keeps(p), s, i, k);
  }

  lemma SubIsBy(p: Pattern, s: string, i: nat)
    ensures Bounded(Len(p), s)
    ensures Sub(p, s, i) == SubBy(Len(p), Inserted(p), Keeps(p), s, i)
  {
    LenBounded(p, s);
  }

  lemma ReplacementIsRep(p: Pattern, s: string, k: nat)
    requires MatchLen(p, s, k) > 0
    ensures Len(p)(s, k) == MatchLen(p, s, k)
    ensures Replacement(p, s[k..k + MatchLen(p, s, k)]) == Rep(Inserted(p), Keeps(p), s[k..k + Len(p)(s, k)])
  {
  }

  lemma UncoveredLen(p: Pattern, s: string, i: nat, k: nat)
    requires Uncovered(p, s, i, k)
    ensures forall j: nat | i <= j < k :: Len(p)(s, j) == 0 || j + Len(p)(s, j) <= k
  {
    forall j: nat | i <= j < k ensures Len(p)(s, j) == 0 || j + Len(p)(s, j) <= k {
      assert EndsBy(p, s, j, k);
      assert Len(p)(s, j) == MatchLen(p, s, j);
    }
  }

  /** `ReachedMatch` for any match lengths. */
  lemma {:induction false} ReachedBy(len: (string, nat) -> nat, ins: string, keeps: bool, s: string, i: nat, k: nat)
    requires Bounded(len, s) && i <= k && len(s, k) > 0
    requires forall j: nat | i <= j < k :: len(s, j) == 0 || j + len(s, j) <= k
    ensures Contains(SubBy(len, ins, keeps, s, i), Rep(ins, keeps, s[k..k + len(s, k)]))
    decreases k - i
  {
    var x := Rep(ins, keeps, s[k..k + len(s, k)]);
    if i == k {
      ContainsFront(x, SubBy(len, ins, keeps, s, k + len(s, k)));
    } else {
      var n := len(s, i);
      if n > 0 {
        ReachedBy(len, ins, keeps, s, i + n, k);
        ContainsAfter(Rep(ins, keeps, s[i..i + n]), SubBy(len, ins, keeps, s, i + n), x);
      } else {
        ReachedBy(len, ins, keeps, s, i + 1, k);
        ContainsAfter([s[i]], SubBy(len, ins, keeps, s, i + 1), x);
      }
    }
  }

  /** A `Pagina` match starts with `P` and holds no other `P`. */
  lemma PaginaLetters(s: string, j: nat, m: nat)
    requires PaginaLen(s, j) > 0 && j <= m < j + PaginaLen(s, j)
    ensures s[m] == 'P' <==> m == j
  {
    if m < j + 6 {
      assert s[j..j + 6][m - j] == s[m];
    }
  }

  lemma PaginaUncovered(s: string, k: nat)
    requires PaginaLen(s, k) > 0
    ensures Uncovered(Pagina, s, 0, k)
  {
    PaginaLetters(s, k, k);
    forall j | 0 <= j < k ensures EndsBy(Pagina, s, j, k) {
      if PaginaLen(s, j) > 0 && k < j + PaginaLen(s, j) {
        PaginaLetters(s, j, k);
      }
    }
  }

  /** Every `Pagina`, whitespace, digits is written with `# ` in front. */
  lemma PaginaHeaded(s: string, k: nat)
    requires PaginaLen(s, k) > 0
    ensures Contains(Substitute(Pagina, s), "# " + s[k..k + PaginaLen(s, k)])
  {
    PaginaUncovered(s, k);
    ReachedMatch(Pagina, s, 0, k);
  }

  /** What a substitution that does not write the match back emits at `j`:
      the insertion for a match, the character otherwise. */
  function SubHead(len: (string, nat) -> nat, ins: string, s: string, j: nat): string
    requires j < |s|
  {
    if len(s, j) > 0 then ins else [s[j]]
  }

  /** How far that substitution moves on from `j`. */
  function SubStep(len: (string, nat) -> nat, s: string, j: nat): nat {
    if len(s, j) > 0 then len(s, j) else 1
  }

  /** One step of a substitution that does not write the match back. */
  lemma SubByStep(len: (string, nat) -> nat, ins: string, s: string, j: nat)
    requires Bounded(len, s) && j < |s|
    ensures SubBy(len, ins, false, s, j) == SubHead(len, ins, s, j) + SubBy(len, ins, false, s, j + SubStep(len, s, j))
  {
  }

  /** For a replacement that does not write the match back: the
      substitution of `s` from `j` is that of its prefix `t` followed by that
      of `s` from `|t|`, when the matches between `j` and `|t|` are the same
      in both and none runs past `|t|`. */
  lemma {:induction false} SplitBy(len: (string, nat) -> nat, ins: string, s: string, t: string, j: nat)
    requires j <= |t| <= |s| && Bounded(len, s) && Bounded(len, t)
    requires forall i | 0 <= i < |t| :: t[i] == s[i]
    requires forall i: nat | j <= i < |t| :: len(t, i) == len(s, i) && (len(s, i) == 0 || i + len(s, i) <= |t|)
    ensures SubBy(len, ins, false, s, j) == SubBy(len, ins, false, t, j) + SubBy(len, ins, false, s, |t|)
    decreases |t| - j
  {
    if j < |t| {
      assert len(t, j) == len(s, j) && t[j] == s[j];
      var head, step := SubHead(len, ins, s, j), SubStep(len, s, j);
      assert SubHead(len, ins, t, j) == head && SubStep(len, t, j) == step;
      SubByStep(len, ins, s, j);
      SubByStep(len, ins, t, j);
      SplitBy(len, ins, s, t, j + step);
      var rest, after := SubBy(len, ins, false, t, j + step), SubBy(len, ins, false, s, |t|);
      assert head + (rest + after) == (head + rest) + after;
    }
  }

  /** For a replacement that does not write the match back: the
      substitution of `s` from `m + j` is that of its suffix `t` from `j`,
      when the matches from there on are the same in both. */
  lemma {:induction false} ShiftBy(len: (string, nat) -> nat, ins: string, s: string, t: string, m: nat, j: nat)
    requires m + |t| == |s| && j <= |t| && Bounded(len, s) && Bounded(len, t)
    requires forall i | 0 <= i < |t| :: t[i] == s[m + i]
    requires forall i: nat | j <= i < |t| :: len(t, i) == len(s, m + i)
    ensures SubBy(len, ins, false, s, m + j) == SubBy(len, ins, false, t, j)
    decreases |t| - j
  {
    if j < |t| {
      ShiftStep(len, ins, s, t, m, j);
      ShiftBy(len, ins, s, t, m, j + SubStep(len, t, j));
    }
  }

  /** One step of `ShiftBy`: where `t` and the tail of `s` agree at `j`,
      both substitutions write the same head and move on by the same step. */
  lemma ShiftStep(len: (string, nat) -> nat, ins: string, s: string, t: string, m: nat, j: nat)
    requires m + |t| == |s| && j < |t| && Bounded(len, s) && Bounded(len, t)
    requires t[j] == s[m + j] && len(t, j) == len(s, m + j)
    ensures SubBy(len, ins, false, s, m + j) == SubHead(len, ins, t, j) + SubBy(len, ins, false, s, m + j + SubStep(len, t, j))
    ensures SubBy(len, ins, false, t, j) == SubHead(len, ins, t, j) + SubBy(len, ins, false, t, j + SubStep(len, t, j))
  {
    SubByStep(len, ins, s, m + j);
    SubByStep(len, ins, t, j);
  }

  /** A `-` at `k` cannot end a hyphen match that starts before it, so the
      hyphen substitution splits there. */
  lemma HyphenPrefix(s: string, k: nat)
    requires k < |s| && s[k] == '-'
    ensures Substitute(Hyphen, s) == Substitute(Hyphen, s[..k]) + Sub(Hyphen, s, k)
  {
    var t := s[..k];
    SubIsBy(Hyphen, s, 0);
    SubIsBy(Hyphen, s, k);
    SubIsBy(Hyphen, t, 0);
    forall i: nat | i < k
      ensures MatchLen(Hyphen, t, i) == MatchLen(Hyphen, s, i)
      ensures MatchLen(Hyphen, s, i) == 0 || i + MatchLen(Hyphen, s, i) <= k
    {
      if i + 1 == k {
        assert !IsSpace(s[k]);
      } else {
        assert t[i] == s[i] && t[i + 1] == s[i + 1];
      }
    }
    LenApplies(Hyphen);
    SplitBy(Len(Hyphen), Inserted(Hyphen), s, t, 0);
  }

  /** The hyphen substitution from `m` is that of the text from `m` on. */
  lemma HyphenShift(s: string, m: nat)
    requires m <= |s|
    ensures Sub(Hyphen, s, m) == Substitute(Hyphen, s[m..])
  {
    var t := s[m..];
    SubIsBy(Hyphen, s, m);
    SubIsBy(Hyphen, t, 0);
    forall i: nat | i < |t|
      ensures MatchLen(Hyphen, t, i) == MatchLen(Hyphen, s, m + i)
    {
      if i + 1 < |t| {
        assert t[i] == s[m + i] && t[i + 1] == s[m + i + 1];
      }
    }
    LenApplies(Hyphen);
    ShiftBy(Len(Hyphen), Inserted(Hyphen), s, t, m, 0);
  }

  /** Every hyphen followed by a whitespace character becomes `* `: the
      output is the substitution of the text before it, `* `, and the
      substitution of the text after the whitespace character. */
  lemma HyphenBulleted(s: string, k: nat)
    requires k + 1 < |s| && s[k] == '-' && IsSpace(s[k + 1])
    ensures Substitute(Hyphen, s) == Substitute(Hyphen, s[..k]) + "* " + Substitute(Hyphen, s[k + 2..])
    ensures Contains(Substitute(Hyphen, s), "* ")
  {
    HyphenPrefix(s, k);
    HyphenShift(s, k + 2);
    assert Sub(Hyphen, s, k) == "* " + Sub(Hyphen, s, k + 2) by {
      SubIsBy(Hyphen, s, k);
      SubIsBy(Hyphen, s, k + 2);
      assert Len(Hyphen)(s, k) == 2;
    }
    var before := Substitute(Hyphen, s[..k]);
    ContainsFront("* ", Substitute(Hyphen, s[k + 2..]));
    ContainsAfter(before, "* " + Substitute(Hyphen, s[k + 2..]), "* ");
    assert before + "* " + Substitute(Hyphen, s[k + 2..]) == before + ("* " + Substitute(Hyphen, s[k + 2..]));
  }

  /** A heading match lies within one line. */
  lemma HeadingInLine(s: string, j: nat, m: nat)
    requires HeadingLen(s, j) > 0 && j <= m < j + HeadingLen(s, j)
    ensures s[m] != '\n'
  {
    if OfertaLen(s, j) > 0 {
      if m < j + 7 {
        assert s[j..j + 7][m - j] == s[m];
      }
    } else {
      assert s[j..j + 19][m - j] == s[m];
    }
  }

  /** An `OFERTA …` or `POLÍTICAS GENERALES` heading at the start of a line
      is written with `## ` in front. (A second one later on the same line
      is inside the first match and gets no prefix of its own.) */
  lemma HeadingHeaded(s: string, k: nat)
    requires HeadingLen(s, k) > 0 && (k == 0 || s[k - 1] == '\n')
    ensures Contains(Substitute(Heading, s), "## " + s[k..k + HeadingLen(s, k)])
  {
    forall j | 0 <= j < k && HeadingLen(s, j) > 0 ensures j + HeadingLen(s, j) <= k {
      if k - 1 < j + HeadingLen(s, j) {
        HeadingInLine(s, j, k - 1);
      }
    }
    ReachedMatch(Heading, s, 0, k);
  }
}
