/** The output folder's name, derived from the PDF's file name so that it is a
    valid Windows directory name: forbidden characters become `_`, accents
    are dropped, trailing spaces and dots are removed, device names get a
    suffix, and the length is capped. Unicode compatibility decomposition and
    the combining-mark test are Unicode database lookups, taken here as
    parameters. */
module FolderNames {
  import opened Common

  /** Characters Windows forbids in a file name. */
  const Forbidden: set<char> := {'\\', '/', ':', '*', '?', '"', '<', '>', '|'}

  /** The reserved device names CON, PRN, AUX, NUL, COM1..COM9 and
      LPT1..LPT9. */
  predicate Reserved(u: string) {
    || (|u| == 3 && (u == "CON" || u == "PRN" || u == "AUX" || u == "NUL"))
    || (|u| == 4 && (u[..3] == "COM" || u[..3] == "LPT") && '1' <= u[3] <= '9')
  }

  const MaxLength := 255

  /** Each forbidden character replaced by `_`. */
  function ReplaceForbidden(s: string): (r: string)
    ensures |r| == |s|
    ensures forall k | 0 <= k < |r| :: r[k] !in Forbidden
    ensures forall k | 0 <= k < |r| :: r[k] == if s[k] in Forbidden then '_' else s[k]
    decreases |s|
  {
    if |s| == 0 then []
    else ReplaceForbidden(s[..|s| - 1]) + [if s[|s| - 1] in Forbidden then '_' else s[|s| - 1]]
  }

  /** The characters that are not combining marks, in order. */
  function DropCombining(s: string, combining: char -> bool): (r: string)
    ensures |r| <= |s|
    ensures forall k | 0 <= k < |r| :: r[k] in s && !combining(r[k])
    decreases |s|
  {
    if |s| == 0 then []
    else DropCombining(s[..|s| - 1], combining) + (if combining(s[|s| - 1]) then [] else [s[|s| - 1]])
  }

  function ReplaceEnye(s: string): (r: string)
    ensures |r| == |s|
    ensures forall k | 0 <= k < |r| :: r[k] == if s[k] == 'ñ' then 'n' else if s[k] == 'Ñ' then 'N' else s[k]
    decreases |s|
  {
    if |s| == 0 then []
    else ReplaceEnye(s[..|s| - 1]) + [if s[|s| - 1] == 'ñ' then 'n' else if s[|s| - 1] == 'Ñ' then 'N' else s[|s| - 1]]
  }

  /** Upper-casing of the ASCII letters. */
  function Upper(s: string): (r: string)
    ensures |r| == |s|
    ensures forall k | 0 <= k < |r| :: r[k] == if 'a' <= s[k] <= 'z' then (s[k] as int - 32) as char else s[k]
    decreases |s|
  {
    if |s| == 0 then []
    else Upper(s[..|s| - 1]) + [if 'a' <= s[|s| - 1] <= 'z' then (s[|s| - 1] as int - 32) as char else s[|s| - 1]]
  }

  function Take(s: string, n: nat): (r: string)
    ensures |r| <= n && |r| <= |s| && r == s[..|r|]
    ensures |s| <= n ==> r == s
  {
    if |s| <= n then s else s[..n]
  }

  /** The steps after the accents are gone: trailing spaces and dots dropped,
      reserved device names suffixed, length capped. */
  function Finish(s: string): string {
    var t := RStripChars(s, {' ', '.'});
    Take(if Reserved(Upper(t)) then t + "_safe" else t, MaxLength)
  }

  /** `limpiar_nombre_carpeta` as written: the forbidden characters are
      replaced before the compatibility decomposition. */
  function CleanFolderName(name: string, nfkd: string -> string, combining: char -> bool): string {
    Finish(ReplaceEnye(DropCombining(nfkd(ReplaceForbidden(name)), combining)))
  }

  /** The same steps with the forbidden characters replaced after the
      decomposition, which can produce them. */
  function CleanFolderNameFixed(name: string, nfkd: string -> string, combining: char -> bool): string {
    Finish(ReplaceForbidden(ReplaceEnye(DropCombining(nfkd(name), combining))))
  }

  lemma UpperLength(s: string)
    ensures |Upper(s)| == |s|
  {
  }

  /** The name fits the limit and is never a reserved device name, in any
      letter case. */
  lemma FinishBounded(s: string)
    ensures |Finish(s)| <= MaxLength
    ensures !Reserved(Upper(Finish(s)))
  {
    var t := RStripChars(s, {' ', '.'});
    if Reserved(Upper(t)) {
      assert |Upper(t)| <= 4;
      var u := t + "_safe";
      assert Finish(s) == u;
      assert |Upper(u)| == |t| + 5;
      assert |Upper(u)| >= 8;
    } else if |t| > MaxLength {
      assert |Upper(Finish(s))| == MaxLength;
    } else {
      assert Finish(s) == t;
    }
  }

  /** No step after the replacement introduces a forbidden character. */
  lemma FinishKeepsAllowed(s: string)
    requires forall k | 0 <= k < |s| :: s[k] !in Forbidden
    ensures forall k | 0 <= k < |Finish(s)| :: Finish(s)[k] !in Forbidden
  {
    var t := RStripChars(s, {' ', '.'});
    var u := if Reserved(Upper(t)) then t + "_safe" else t;
    assert forall k | 0 <= k < |t| :: t[k] == s[k];
    assert forall k | 0 <= k < |u| :: u[k] !in Forbidden;
  }

  /** The corrected name never holds a forbidden character, whatever the
      decomposition produces, and obeys the length and device-name rules. */
  lemma CleanFolderNameFixedValid(name: string, nfkd: string -> string, combining: char -> bool)
    ensures var r := CleanFolderNameFixed(name, nfkd, combining);
      && (forall k | 0 <= k < |r| :: r[k] !in Forbidden)
      && |r| <= MaxLength && !Reserved(Upper(r))
  {
    var s := ReplaceForbidden(ReplaceEnye(DropCombining(nfkd(name), combining)));
    FinishKeepsAllowed(s);
    FinishBounded(s);
  }

  /** As written, the name still fits the limit and is never a reserved
      device name. */
  lemma CleanFolderNameBounded(name: string, nfkd: string -> string, combining: char -> bool)
    ensures |CleanFolderName(name, nfkd, combining)| <= MaxLength
    ensures !Reserved(Upper(CleanFolderName(name, nfkd, combining)))
  {
    FinishBounded(ReplaceEnye(DropCombining(nfkd(ReplaceForbidden(name)), combining)));
  }

  /** The part of compatibility decomposition that maps the full-width forms
      U+FF01..U+FF5E onto ASCII U+0021..U+007E. */
  function FullWidthFold(s: string): (r: string)
    ensures |r| == |s|
    ensures forall k | 0 <= k < |s| :: r[k] == if '！' <= s[k] <= '～' then (s[k] as int - 0xFEE0) as char else s[k]
    decreases |s|
  {
    if |s| == 0 then []
    else FullWidthFold(s[..|s| - 1]) + [if '！' <= s[|s| - 1] <= '～' then (s[|s| - 1] as int - 0xFEE0) as char else s[|s| - 1]]
  }

  function NoMarks(c: char): bool { false }

  /** A name that needs no stripping, suffix or cut is kept as it is. */
  lemma FinishUnchanged(s: string)
    requires |s| > 0 && s[|s| - 1] != ' ' && s[|s| - 1] != '.'
    requires |s| <= MaxLength && !Reserved(Upper(s))
    ensures Finish(s) == s
  {
    StripNothing(s);
  }

  lemma StripNothing(s: string)
    requires |s| > 0 && s[|s| - 1] != ' ' && s[|s| - 1] != '.'
    ensures RStripChars(s, {' ', '.'}) == s
  {
  }

  lemma {:induction false} DropNoMarks(s: string)
    ensures DropCombining(s, NoMarks) == s
    decreases |s|
  {
    if |s| > 0 {
      DropNoMarks(s[..|s| - 1]);
      assert s == s[..|s| - 1] + [s[|s| - 1]];
    }
  }

  lemma EnyeFree(s: string)
    requires forall k | 0 <= k < |s| :: s[k] != 'ñ' && s[k] != 'Ñ'
    ensures ReplaceEnye(s) == s
  {
  }

  lemma AllowedKept(s: string)
    requires forall k | 0 <= k < |s| :: s[k] !in Forbidden
    ensures ReplaceForbidden(s) == s
  {
  }

  lemma SolidusReplaced()
    ensures ReplaceForbidden("a/b") == "a_b"
  {
  }

  lemma FoldSolidus()
    ensures FullWidthFold("a／b") == "a/b"
  {
  }

  lemma UpperSamples()
    ensures !Reserved(Upper("a/b")) && !Reserved(Upper("a_b"))
  {
    assert Upper("a/b") == "A/B";
    assert Upper("a_b") == "A_B";
  }

  /** "a／b" with a full-width solidus: the as-written order lets the
      decomposition turn it into a path separator. */
  lemma FullWidthSolidusSlipsThrough()
    ensures CleanFolderName("a／b", FullWidthFold, NoMarks) == "a/b"
  {
    AllowedKept("a／b");
    DecomposedSolidus();
    UpperSamples();
    FinishUnchanged("a/b");
  }

  /** The corrected order turns the same name into "a_b". */
  lemma FullWidthSolidusReplaced()
    ensures CleanFolderNameFixed("a／b", FullWidthFold, NoMarks) == "a_b"
  {
    DecomposedSolidus();
    FinishedSolidus();
  }

  lemma DecomposedSolidus()
    ensures ReplaceEnye(DropCombining(FullWidthFold("a／b"), NoMarks)) == "a/b"
  {
    var t := "a/b";
    FoldSolidus();
    DropNoMarks(t);
    assert DropCombining(FullWidthFold("a／b"), NoMarks) == t;
    assert |t| == 3 && t[0] == 'a' && t[1] == '/' && t[2] == 'b';
    forall k | 0 <= k < |t|
      ensures t[k] != 'ñ' && t[k] != 'Ñ'
    {
      assert k == 0 || k == 1 || k == 2;
    }
    EnyeFree(t);
  }

  lemma FinishedSolidus()
    ensures Finish(ReplaceForbidden("a/b")) == "a_b"
  {
    SolidusReplaced();
    UpperSamples();
    FinishUnchanged("a_b");
  }
}
