/** `extract_policy_data`: the Markdown header of a commercial policy, built
    from its title and the text that follows it. Both are trimmed and their
    whitespace runs collapsed; the identifier (`PTAR`/`PCAM` and a number) is
    looked for in the title; the issue date, version, cities and validity
    period are looked for in the text, each keeping a default when absent;
    the two dates are rewritten when the date parser understands them; and
    the six fields are laid out under the title in a fixed order.

    The version and the identifier are matched here character by character.
    The date and city patterns, and the date parser, are parameters. */
module PolicyHeader {
  import opened Common
  import StreamLines
  import TextCleanup

  // ---------------------------------------------------------------------------
  // Whitespace
  // ---------------------------------------------------------------------------

  /** `re.sub(r'\s+', ' ', s)`: each whitespace run becomes one space. */
  function Squeeze(s: string): string
    decreases |s|
  {
    if |s| == 0 then ""
    else if IsSpace(s[0]) then " " + Squeeze(s[StreamLines.SpaceRun(s, 0)..])
    else [s[0]] + Squeeze(s[1..])
  }

  /** The title and the text are stripped, then squeezed. */
  function Collapse(s: string): string { Squeeze(Strip(s)) }

  /** The characters that are not whitespace, in order. */
  function Visible(s: string): string
    decreases |s|
  {
    if |s| == 0 then "" else (if IsSpace(s[0]) then "" else [s[0]]) + Visible(s[1..])
  }

  lemma {:induction false} VisibleSpaces(s: string)
    requires forall k | 0 <= k < |s| :: IsSpace(s[k])
    ensures Visible(s) == ""
    decreases |s|
  {
    if |s| > 0 {
      VisibleSpaces(s[1..]);
    }
  }

  lemma {:induction false} VisibleConcat(a: string, b: string)
    ensures Visible(a + b) == Visible(a) + Visible(b)
    decreases |a|
  {
    if |a| > 0 {
      assert (a + b)[1..] == a[1..] + b;
      VisibleConcat(a[1..], b);
    } else {
      assert a + b == b;
    }
  }

  /** Squeezing keeps every visible character, in order. */
  lemma {:induction false} SqueezeVisible(s: string)
    ensures Visible(Squeeze(s)) == Visible(s)
    decreases |s|
  {
    if |s| > 0 {
      var n := if IsSpace(s[0]) then StreamLines.SpaceRun(s, 0) else 1;
      var head := if IsSpace(s[0]) then " " else [s[0]];
      var rest := s[n..];
      SqueezeVisible(rest);
      assert Squeeze(s) == head + Squeeze(rest);
      assert s == s[..n] + rest;
      VisibleConcat(s[..n], rest);
      VisibleConcat(head, Squeeze(rest));
      if IsSpace(s[0]) {
        VisibleSpaces(s[..n]);
        VisibleSpaces(head);
      } else {
        assert s[..n] == head;
      }
    }
  }

  /** The squeezed string is empty exactly when the input is, and starts and
      ends with a space exactly when the input starts and ends with
      whitespace. */
  lemma {:induction false} SqueezeEnds(s: string)
    ensures var r := Squeeze(s);
      && (|r| > 0 <==> |s| > 0)
      && (|r| > 0 ==> (IsSpace(r[0]) <==> IsSpace(s[0])))
      && (|r| > 0 ==> (IsSpace(r[|r| - 1]) <==> IsSpace(s[|s| - 1])))
    decreases |s|
  {
    if |s| > 0 {
      var n := if IsSpace(s[0]) then StreamLines.SpaceRun(s, 0) else 1;
      var rest := s[n..];
      SqueezeEnds(rest);
      var r := Squeeze(s);
      if |rest| > 0 {
        assert r[|r| - 1] == Squeeze(rest)[|Squeeze(rest)| - 1];
        assert s[|s| - 1] == rest[|rest| - 1];
      }
    }
  }

  /** The only whitespace the squeezed string holds is the single space. */
  lemma {:induction false} SqueezeSpaces(s: string)
    ensures forall k | 0 <= k < |Squeeze(s)| :: Squeeze(s)[k] == ' ' || !IsSpace(Squeeze(s)[k])
    decreases |s|
  {
    if |s| > 0 {
      var n := if IsSpace(s[0]) then StreamLines.SpaceRun(s, 0) else 1;
      var rest := s[n..];
      SqueezeSpaces(rest);
      var r := Squeeze(s);
      forall k | 0 <= k < |r| ensures r[k] == ' ' || !IsSpace(r[k]) {
        if k > 0 {
          assert r[k] == Squeeze(rest)[k - 1];
        }
      }
    }
  }

  /** No two spaces follow each other in the squeezed string. */
  lemma {:induction false} SqueezeNoPair(s: string)
    ensures TextCleanup.NoPair(Squeeze(s), ' ')
    decreases |s|
  {
    if |s| > 0 {
      var n := if IsSpace(s[0]) then StreamLines.SpaceRun(s, 0) else 1;
      var head := if IsSpace(s[0]) then " " else [s[0]];
      var rest := s[n..];
      SqueezeNoPair(rest);
      SqueezeEnds(rest);
      TextCleanup.NoPairConcat(head, Squeeze(rest), ' ');
    }
  }

  /** Squeezing keeps every visible character, in order, writes no
      whitespace but single spaces, and starts or ends with a space exactly
      when the input starts or ends with whitespace. */
  lemma SqueezeShape(s: string)
    ensures var r := Squeeze(s);
      && Visible(r) == Visible(s)
      && (forall k | 0 <= k < |r| :: r[k] == ' ' || !IsSpace(r[k]))
      && TextCleanup.NoPair(r, ' ')
      && (|r| > 0 <==> |s| > 0)
      && (|r| > 0 ==> (IsSpace(r[0]) <==> IsSpace(s[0])))
      && (|r| > 0 ==> (IsSpace(r[|r| - 1]) <==> IsSpace(s[|s| - 1])))
  {
    SqueezeVisible(s);
    SqueezeSpaces(s);
    SqueezeNoPair(s);
    SqueezeEnds(s);
  }

  /** Whitespace around a text adds no visible character. */
  lemma VisibleAround(a: string, t: string, c: string)
    requires forall k | 0 <= k < |a| :: IsSpace(a[k])
    requires forall k | 0 <= k < |c| :: IsSpace(c[k])
    ensures Visible(a + t + c) == Visible(t)
  {
    VisibleConcat(a + t, c);
    VisibleConcat(a, t);
    VisibleSpaces(a);
    VisibleSpaces(c);
  }

  /** Stripping drops only whitespace. */
  lemma StripVisible(s: string)
    ensures Visible(Strip(s)) == Visible(s)
  {
    var i, j :| 0 <= i <= j <= |s| && Strip(s) == s[i..j]
      && (forall k | 0 <= k < i :: IsSpace(s[k])) && (forall k | j <= k < |s| :: IsSpace(s[k]));
    var a, t, c := s[..i], s[i..j], s[j..];
    assert a + t + c == s;
    VisibleAround(a, t, c);
  }

  /** The cleaned title or text has no surrounding whitespace, no two spaces
      in a row, no whitespace other than the space, and the same visible
      characters as the original. */
  lemma CollapseShape(s: string)
    ensures var r := Collapse(s);
      && Visible(r) == Visible(s)
      && (|r| > 0 ==> !IsSpace(r[0]) && !IsSpace(r[|r| - 1]))
      && TextCleanup.NoPair(r, ' ')
      && (forall k | 0 <= k < |r| :: r[k] == ' ' || !IsSpace(r[k]))
  {
    StripVisible(s);
    SqueezeShape(Strip(s));
  }

  // ---------------------------------------------------------------------------
  // Case-insensitive literals
  // ---------------------------------------------------------------------------

  /** `c` matches the lower-case letter `l` when case is ignored. */
  predicate FoldsTo(c: char, l: char) {
    c == l || ('a' <= l <= 'z' && c as int == l as int - 32)
  }

  /** The lower-case literal `lit` occurs at `i`, case ignored. */
  predicate MatchesAt(s: string, i: nat, lit: string) {
    i + |lit| <= |s| && forall k | 0 <= k < |lit| :: FoldsTo(s[i + k], lit[k])
  }

  /** A word character never precedes position `i`. */
  predicate WordStart(s: string, i: nat)
    requires i <= |s|
  {
    i == 0 || !TextCleanup.IsWord(s[i - 1])
  }

  /** The leftmost position from `from` on, below `n`, where `p` holds:
      the scan that `re.search` makes over its starting points. */
  function First(n: nat, from: nat, p: nat -> bool): (r: Option<nat>)
    ensures r.Some? ==> from <= r.value < n && p(r.value)
    ensures r.Some? ==> forall k | from <= k < r.value :: !p(k)
    ensures r.None? ==> forall k | from <= k < n :: !p(k)
    decreases n - from
  {
    if from >= n then None
    else if p(from) then Some(from)
    else First(n, from + 1, p)
  }

  // ---------------------------------------------------------------------------
  // Nombre: `\b(PTAR|PCAM)\s*\d+`, case ignored
  // ---------------------------------------------------------------------------

  /** Length of the identifier match at `i`, 0 for none. */
  function IdLen(s: string, i: nat): (n: nat)
    ensures n > 0 ==> i + n <= |s|
  {
    if i < |s| && WordStart(s, i) && (MatchesAt(s, i, "ptar") || MatchesAt(s, i, "pcam")) then
      var j := i + 4 + StreamLines.SpaceRun(s, i + 4);
      if DigitRun(s, j) > 0 then j + DigitRun(s, j) - i else 0
    else 0
  }

  /** The leftmost identifier match, as (start, length). */
  function FirstId(s: string): (r: Option<(nat, nat)>)
    ensures r.Some? ==> r.value.1 == IdLen(s, r.value.0) > 0
    ensures r.Some? ==> forall k | 0 <= k < r.value.0 :: IdLen(s, k) == 0
    ensures r.None? ==> forall k | 0 <= k < |s| :: IdLen(s, k) == 0
  {
    var p := (k: nat) => IdLen(s, k) > 0;
    assert forall k: nat :: p(k) == (IdLen(s, k) > 0);
    match First(|s|, 0, p)
    case Some(i) => Some((i, IdLen(s, i)))
    case None => None
  }

  /** `title_id`: the whole first match, as written, or "Desconocido". */
  function TitleId(title: string): string {
    match FirstId(title)
    case Some((i, n)) => title[i..i + n]
    case None => "Desconocido"
  }

  /** An identifier match starts a word with PTAR or PCAM in any letter
      case, goes on with optional whitespace and runs to the last digit of
      the number that follows. */
  lemma IdShape(s: string, i: nat)
    requires IdLen(s, i) > 0
    ensures var n := IdLen(s, i);
      && WordStart(s, i) && (MatchesAt(s, i, "ptar") || MatchesAt(s, i, "pcam"))
      && (forall k | i + 4 <= k < i + n && !IsDigit(s[k]) :: IsSpace(s[k]))
      && IsDigit(s[i + n - 1])
      && (i + n < |s| ==> !IsDigit(s[i + n]))
  {
    var j := i + 4 + StreamLines.SpaceRun(s, i + 4);
    assert i + IdLen(s, i) == j + DigitRun(s, j);
  }

  /** The identifier is "Desconocido" exactly when the title holds no
      match (a match starts with P, so it never reads "Desconocido"). */
  lemma TitleIdMeaning(title: string)
    ensures TitleId(title) == "Desconocido" <==> forall k | 0 <= k < |title| :: IdLen(title, k) == 0
  {
    match FirstId(title)
    case Some((i, n)) =>
      IdShape(title, i);
      assert title[i..i + n][0] == title[i + 0];
      assert "ptar"[0] == 'p' && "pcam"[0] == 'p';
      assert FoldsTo(title[i + 0], 'p');
      assert TitleId(title)[0] != 'D';
    case None =>
  }

  // ---------------------------------------------------------------------------
  // Versión: `(?:versi[oó]n|version|vrsn|vers)\s*:?\s*(\d+)`, case ignored
  // ---------------------------------------------------------------------------

  /** The digits after optional whitespace, an optional colon and optional
      whitespace from `e`; with no digit there, no match. */
  function Digits(s: string, e: nat): (r: Option<string>)
    ensures r.Some? ==> |r.value| > 0 && AllDigits(r.value)
  {
    var j := e + StreamLines.SpaceRun(s, e);
    var k := if j < |s| && s[j] == ':' then j + 1 + StreamLines.SpaceRun(s, j + 1) else j;
    if DigitRun(s, k) > 0 then Some(s[k..k + DigitRun(s, k)]) else None
  }

  predicate OAccent(c: char) { FoldsTo(c, 'o') || c == 'ó' || c == 'Ó' }

  /** The group of the version pattern at `i`: the alternatives are tried in
      order, each with the rest of the pattern. `version` adds nothing to
      `versi[oó]n`, so it is not tried again. */
  function VersionAt(s: string, i: nat): Option<string> {
    var long := MatchesAt(s, i, "versi") && i + 6 < |s| && OAccent(s[i + 5]) && FoldsTo(s[i + 6], 'n');
    if long && Digits(s, i + 7).Some? then Digits(s, i + 7)
    else if MatchesAt(s, i, "vrsn") && Digits(s, i + 4).Some? then Digits(s, i + 4)
    else if MatchesAt(s, i, "vers") then Digits(s, i + 4)
    else None
  }

  /** The group of the leftmost version match: a non-empty run of digits. */
  function FirstVersion(s: string): (r: Option<string>)
    ensures r.Some? <==> exists k | 0 <= k < |s| :: VersionAt(s, k).Some?
    ensures r.Some? ==> |r.value| > 0 && AllDigits(r.value)
  {
    var p := (k: nat) => VersionAt(s, k).Some?;
    assert forall k: nat :: p(k) == VersionAt(s, k).Some?;
    match First(|s|, 0, p)
    case Some(i) => VersionAt(s, i)
    case None => None
  }

  // ---------------------------------------------------------------------------
  // The fields
  // ---------------------------------------------------------------------------

  /** The six keys of the field dictionary. */
  datatype Field = Nombre | Emision | Version | Ciudades | FechaVigencia | FechaActualizacion

  /** The key as the dictionary and the header write it. */
  function Label(f: Field): string {
    match f
    case Nombre => "Nombre"
    case Emision => "Emisión"
    case Version => "Versión"
    case Ciudades => "Ciudades"
    case FechaVigencia => "Fecha Vigencia"
    case FechaActualizacion => "Fecha Actualización"
  }

  const Unknown := "Desconocida"

  /** The fields searched in the text, in the order of the patterns. */
  const SearchedKeys: seq<Field> := [Emision, Version, Ciudades, FechaVigencia]

  /** The fields holding dates. */
  const DateKeys: seq<Field> := [Emision, FechaVigencia]

  /** The first group of the date and city patterns, per field. */
  type Finder = Field -> string -> Option<string>

  /** The date parser's result, already written as day, month and year. */
  type DateParser = string -> Option<string>

  /** The six fields are present. */
  predicate HasFields(d: map<Field, string>) {
    && Nombre in d && Emision in d && Version in d && Ciudades in d
    && FechaVigencia in d && FechaActualizacion in d
  }

  function Defaults(nombre: string): (d: map<Field, string>)
    ensures HasFields(d)
  {
    map[Nombre := nombre, Emision := Unknown, Version := Unknown,
        Ciudades := "No especificadas", FechaVigencia := Unknown,
        FechaActualizacion := "No proporcionada"]
  }

  /** The first group of a field's pattern in the text. */
  function Group(key: Field, text: string, find: Finder): Option<string> {
    if key == Version then FirstVersion(text) else find(key)(text)
  }

  /** The groups of every field's pattern in one text. */
  function Groups(text: string, find: Finder): Field -> Option<string> {
    (key: Field) => Group(key, text, find)
  }

  /** The search loop: a matched field takes its stripped group. */
  function Searched(data: map<Field, string>, keys: seq<Field>, group: Field -> Option<string>): (r: map<Field, string>)
    ensures forall k | k in data :: k in r
    decreases |keys|
  {
    if |keys| == 0 then data
    else
      var d := Searched(data, keys[..|keys| - 1], group);
      var key := keys[|keys| - 1];
      var g := group(key);
      if g.Some? then d[key := Strip(g.value)] else d
  }

  /** One more key of the search loop. */
  lemma SearchedSnoc(data: map<Field, string>, keys: seq<Field>, i: nat, group: Field -> Option<string>)
    requires i < |keys|
    ensures var d := Searched(data, keys[..i], group);
            var g := group(keys[i]);
            Searched(data, keys[..i + 1], group) == if g.Some? then d[keys[i] := Strip(g.value)] else d
  {
    assert keys[..i + 1][..i] == keys[..i];
  }

  /** The date loop: a known date the parser understands is rewritten. */
  function Dated(data: map<Field, string>, keys: seq<Field>, parse: DateParser): (r: map<Field, string>)
    requires forall k | k in keys :: k in data
    ensures forall k | k in data :: k in r
    decreases |keys|
  {
    if |keys| == 0 then data
    else
      var d := Dated(data, keys[..|keys| - 1], parse);
      var key := keys[|keys| - 1];
      if d[key] != Unknown && parse(d[key]).Some? then d[key := parse(d[key]).value] else d
  }

  function Fields(title: string, text: string, find: Finder, parse: DateParser): (r: map<Field, string>)
    ensures HasFields(r)
  {
    var s := Searched(Defaults(TitleId(Collapse(title))), SearchedKeys, Groups(Collapse(text), find));
    Dated(s, DateKeys, parse)
  }

  const Sep := "\n    \n    "

  /** The header between its first `#` and its last field. */
  function Layout(title: string, d: map<Field, string>): string
    requires HasFields(d)
  {
    "#" + title + "." + Sep
    + "**Nombre:** " + d[Nombre] + Sep
    + "**Emisión:** " + d[Emision] + Sep
    + "**Versión:** " + d[Version] + Sep
    + "**Ciudades:** " + d[Ciudades] + Sep
    + "**Fecha Vigencia:** " + d[FechaVigencia] + Sep
    + "**Fecha Actualización:** " + d[FechaActualizacion]
  }

  /** The text of the header, surrounding layout whitespace included. */
  function Template(title: string, d: map<Field, string>): string
    requires HasFields(d)
  {
    "\n    " + Layout(title, d) + "\n    "
  }

  /** `extract_policy_data`: the stripped template over the cleaned title
      and the fields. */
  function PolicyMarkdown(title: string, text: string, find: Finder, parse: DateParser): string {
    Strip(Template(Collapse(title), Fields(title, text, find, parse)))
  }

  /** The search loop of `extract_policy_data`. */
  method SearchFields(data0: map<Field, string>, group: Field -> Option<string>) returns (data: map<Field, string>)
    ensures data == Searched(data0, SearchedKeys, group)
  {
    data := data0;
    for i := 0 to |SearchedKeys|
      invariant data == Searched(data0, SearchedKeys[..i], group)
    {
      SearchedSnoc(data0, SearchedKeys, i, group);
      var key := SearchedKeys[i];
      var g := group(key);
      if g.Some? {
        data := data[key := Strip(g.value)];
      }
    }
    assert SearchedKeys[..|SearchedKeys|] == SearchedKeys;
  }

  /** The date loop of `extract_policy_data`. */
  method ParseDates(data0: map<Field, string>, parse: DateParser) returns (data: map<Field, string>)
    requires HasFields(data0)
    ensures data == Dated(data0, DateKeys, parse)
  {
    data := data0;
    for i := 0 to |DateKeys|
      invariant data == Dated(data0, DateKeys[..i], parse)
    {
      assert DateKeys[..i + 1][..i] == DateKeys[..i];
      var key := DateKeys[i];
      if data[key] != Unknown {
        var parsed := parse(data[key]);
        if parsed.Some? {
          data := data[key := parsed.value];
        }
      }
    }
    assert DateKeys[..|DateKeys|] == DateKeys;
  }

  /** `extract_policy_data`: the field dictionary updated by both loops,
      then written into the template. */
  method ExtractPolicyData(title: string, text: string, find: Finder, parse: DateParser) returns (out: string)
    ensures out == PolicyMarkdown(title, text, find, parse)
  {
    var cleanTitle := Collapse(title);
    var data := Defaults(TitleId(cleanTitle));
    data := SearchFields(data, Groups(Collapse(text), find));
    data := ParseDates(data, parse);
    out := Strip(Template(cleanTitle, data));
  }

  // ---------------------------------------------------------------------------
  // What the header holds
  // ---------------------------------------------------------------------------

  /** The header starts with `#`, the cleaned title and a full stop, and
      lists Nombre, Emisión, Versión, Ciudades, Fecha Vigencia and Fecha
      Actualización in that order, each on its own paragraph. */
  lemma HeaderLayout(title: string, text: string, find: Finder, parse: DateParser)
    ensures PolicyMarkdown(title, text, find, parse) == Layout(Collapse(title), Fields(title, text, find, parse))
  {
    var d := Fields(title, text, find, parse);
    FieldsMeaning(title, text, find, parse, FechaActualizacion);
    assert d[FechaActualizacion] == "No proporcionada";
    TemplateStripped(Collapse(title), d);
  }

  /** Stripping the template leaves exactly the layout. */
  lemma TemplateStripped(title: string, d: map<Field, string>)
    requires HasFields(d) && d[FechaActualizacion] == "No proporcionada"
    ensures Strip(Template(title, d)) == Layout(title, d)
  {
    LayoutEnds(title, d);
    StripAround("\n    ", Layout(title, d), "\n    ");
  }

  /** The layout starts with `#` and, with the update date left at its
      default, ends with the default's last letter. */
  lemma LayoutEnds(title: string, d: map<Field, string>)
    requires HasFields(d) && d[FechaActualizacion] == "No proporcionada"
    ensures var l := Layout(title, d); |l| > 0 && l[0] == '#' && l[|l| - 1] == 'a'
  {
    var l := Layout(title, d);
    var head := "#" + title + "." + Sep + "**Nombre:** " + d[Nombre] + Sep
      + "**Emisión:** " + d[Emision] + Sep + "**Versión:** " + d[Version] + Sep
      + "**Ciudades:** " + d[Ciudades] + Sep + "**Fecha Vigencia:** " + d[FechaVigencia] + Sep
      + "**Fecha Actualización:** ";
    assert l == head + d[FechaActualizacion];
    assert l[0] == head[0] == '#';
    assert "No proporcionada"[|"No proporcionada"| - 1] == 'a';
  }

  /** A field found in the text holds its stripped group, any other keeps
      its default. */
  function Found(g: Option<string>, default: string): string {
    if g.Some? then Strip(g.value) else default
  }

  /** A date other than the default is rewritten when the parser
      understands it. */
  function Reformatted(v: string, parse: DateParser): string {
    if v != Unknown && parse(v).Some? then parse(v).value else v
  }

  /** What each field of the dictionary holds, field by field. */
  function FieldValue(f: Field, nombre: string, group: Field -> Option<string>, parse: DateParser): string {
    match f
    case Nombre => nombre
    case Emision => Reformatted(Found(group(Emision), Unknown), parse)
    case Version => Found(group(Version), Unknown)
    case Ciudades => Found(group(Ciudades), "No especificadas")
    case FechaVigencia => Reformatted(Found(group(FechaVigencia), Unknown), parse)
    case FechaActualizacion => "No proporcionada"
  }

  /** After the search loop, a field holds its stripped group when one of
      the keys names it and its pattern matched, and its old value
      otherwise. */
  lemma {:induction false} SearchedKey(data: map<Field, string>, keys: seq<Field>, group: Field -> Option<string>, key: Field)
    requires key in data
    ensures Searched(data, keys, group)[key] == if key in keys && group(key).Some? then Strip(group(key).value) else data[key]
    decreases |keys|
  {
    if |keys| > 0 {
      var init := keys[..|keys| - 1];
      assert keys == init + [keys[|keys| - 1]];
      assert key in keys <==> key in init || key == keys[|keys| - 1];
      SearchedKey(data, init, group, key);
    }
  }

  /** After the date loop, a date field that is neither the default nor
      unparseable holds the parser's result; every other field is
      unchanged. */
  lemma {:induction false} DatedKey(data: map<Field, string>, keys: seq<Field>, parse: DateParser, key: Field)
    requires forall k | k in keys :: k in data
    requires forall a, b | 0 <= a < b < |keys| :: keys[a] != keys[b]
    requires key in data
    ensures Dated(data, keys, parse)[key] == if key in keys then Reformatted(data[key], parse) else data[key]
    decreases |keys|
  {
    if |keys| > 0 {
      var n := |keys| - 1;
      var init, last := keys[..n], keys[n];
      assert keys == init + [last];
      assert forall k | k in init :: k in keys;
      DatedKey(data, init, parse, key);
      DatedKey(data, init, parse, last);
      var d := Dated(data, init, parse);
      assert Dated(data, keys, parse) == if d[last] != Unknown && parse(d[last]).Some? then d[last := parse(d[last]).value] else d;
      if key != last {
        assert key in keys <==> key in init;
      }
    }
  }

  /** Every field of the dictionary is what `FieldValue` says: Nombre
      comes from the cleaned title, Fecha Actualización never changes, a
      field whose pattern does not match keeps its default, a matched one
      holds its stripped group, and only the two dates go through the
      parser. */
  lemma FieldsMeaning(title: string, text: string, find: Finder, parse: DateParser, f: Field)
    ensures Fields(title, text, find, parse)[f]
      == FieldValue(f, TitleId(Collapse(title)), Groups(Collapse(text), find), parse)
  {
    FieldsOf(TitleId(Collapse(title)), Groups(Collapse(text), find), parse, f);
  }

  /** `FieldsMeaning` for any title identifier and any groups. */
  lemma FieldsOf(nombre: string, group: Field -> Option<string>, parse: DateParser, f: Field)
    ensures Dated(Searched(Defaults(nombre), SearchedKeys, group), DateKeys, parse)[f]
      == FieldValue(f, nombre, group, parse)
  {
    var data := Defaults(nombre);
    SearchedKey(data, SearchedKeys, group, f);
    var searched := Searched(data, SearchedKeys, group);
    KeyLists();
    DatedKey(searched, DateKeys, parse, f);
  }

  /** Which fields the two loops visit. */
  lemma KeyLists()
    ensures forall f: Field :: f in SearchedKeys <==> f != Nombre && f != FechaActualizacion
    ensures forall f: Field :: f in DateKeys <==> f == Emision || f == FechaVigencia
    ensures forall a, b | 0 <= a < b < |DateKeys| :: DateKeys[a] != DateKeys[b]
  {
  }

  /** A run of digits has no surrounding whitespace to strip. */
  lemma StripDigits(d: string)
    requires |d| > 0 && AllDigits(d)
    ensures Strip(d) == d
  {
    assert IsDigit(d[0]) && IsDigit(d[|d| - 1]);
    StripAround("", d, "");
    assert "" + d + "" == d;
  }

  /** Versión is the default or a non-empty run of digits. */
  lemma VersionDigits(title: string, text: string, find: Finder, parse: DateParser)
    ensures var v := Fields(title, text, find, parse)[Version];
      v == Unknown || (|v| > 0 && AllDigits(v))
  {
    FieldsMeaning(title, text, find, parse, Version);
    var g := FirstVersion(Collapse(text));
    assert Groups(Collapse(text), find)(Version) == g;
    if g.Some? {
      StripDigits(g.value);
    }
  }
}
