/** Putting the tables and image texts back into the Markdown: every file in
    the tables folder (`.html`) or the images folder (`.txt`) names the key
    that an earlier stage wrote in the PDF where the table or image was, and
    each occurrence of that key in the Markdown becomes the file's converted
    content between blank lines. The files are taken in directory order, one
    after another, each replacement acting on the result of the previous one.

    The directory listing is a sequence of entries, and the file conversions
    (markdownify, pandoc) are parameters. */
module MarkerReplacement {
  import opened Common
  import opened StableSort
  import TableKeys
  import ImageKeys

  /** A directory entry: the file name and the file's text. */
  datatype Entry = Entry(name: string, content: string)

  /** The entries whose name ends with `ext`, in directory order. */
  function Selected(dir: seq<Entry>, ext: string): (r: seq<Entry>)
    ensures forall k | 0 <= k < |r| :: EndsWith(r[k].name, ext) && r[k] in dir
    ensures forall e | e in dir && EndsWith(e.name, ext) :: e in r
    decreases |dir|
  {
    if |dir| == 0 then []
    else
      var last := dir[|dir| - 1];
      Selected(dir[..|dir| - 1], ext) + (if EndsWith(last.name, ext) then [last] else [])
  }

  /** Python's `x.split(sep)[0]`: `x` up to the first occurrence of `sep`. */
  function BeforeFirst(x: string, sep: string): string {
    match Find(x, sep, 0)
    case Some(i) => x[..i]
    case None => x
  }

  /** `prefix + name[1:].split(ext)[0]`. */
  function KeyFor(prefix: string, name: string, ext: string): string {
    prefix + BeforeFirst(if |name| == 0 then "" else name[1..], ext)
  }

  function TableKey(name: string): string { KeyFor("Llave_Unica_T", name, ".html") }

  function ImageKey(name: string): string { KeyFor("Llave_Unica_I", name, ".txt") }

  /** The first character of a name is dropped and the name is cut at the
      extension: a stem without dots comes back whole. */
  lemma KeyOfStem(prefix: string, c: char, stem: string, ext: string)
    requires '.' !in stem && |ext| > 0 && ext[0] == '.'
    ensures KeyFor(prefix, [c] + stem + ext, ext) == prefix + stem
  {
    var x := stem + ext;
    assert ([c] + stem + ext)[1..] == x;
    assert OccursAt(x, ext, |stem|) by { assert x[|stem|..|stem| + |ext|] == ext; }
    forall k | 0 <= k < |stem| ensures !OccursAt(x, ext, k) {
      assert x[k] == stem[k] && stem[k] in stem;
    }
    match Find(x, ext, 0)
    case Some(i) =>
    case None => assert false;
  }

  lemma NoDotInNumber(n: nat)
    ensures '.' !in NatToString(n)
  {
    var s := NatToString(n);
    assert forall k | 0 <= k < |s| :: s[k] != '.' by {
      assert forall k | 0 <= k < |s| :: IsDigit(s[k]);
    }
  }

  /** Table files are named `tabla_{p}_{t}.html`. */
  function TableFileName(p: string, t: string): string { "tabla_" + p + "_" + t + ".html" }

  /** Image answer files are named `Imagen_{p}_{n}.txt`. */
  function ImageFileName(p: string, n: string): string { "Imagen_" + p + "_" + n + ".txt" }

  /** A name made of a character, a dot-free lead, `p`, `_`, `t` and the
      extension yields the prefix, the lead, `p`, `_` and `t`. */
  lemma StemKey(prefix: string, c: char, lead: string, p: string, t: string, ext: string)
    requires '.' !in lead && '.' !in p && '.' !in t && |ext| > 0 && ext[0] == '.'
    ensures KeyFor(prefix, [c] + lead + p + "_" + t + ext, ext) == prefix + lead + p + "_" + t
  {
    var stem := lead + p + "_" + t;
    assert '.' !in stem;
    assert [c] + lead + p + "_" + t + ext == [c] + stem + ext;
    KeyOfStem(prefix, c, stem, ext);
  }

  lemma TableNameKey(p: string, t: string)
    requires '.' !in p && '.' !in t
    ensures TableKey(TableFileName(p, t)) == "Llave_Unica_Tabla_" + p + "_" + t
  {
    assert "tabla_" == ['t'] + "abla_" && "Llave_Unica_T" + "abla_" == "Llave_Unica_Tabla_";
    assert '.' !in "abla_" && ".html"[0] == '.';
    StemKey("Llave_Unica_T", 't', "abla_", p, t, ".html");
  }

  lemma ImageNameKey(p: string, n: string)
    requires '.' !in p && '.' !in n
    ensures ImageKey(ImageFileName(p, n)) == "Llave_Unica_Imagen_" + p + "_" + n
  {
    assert "Imagen_" == ['I'] + "magen_" && "Llave_Unica_I" + "magen_" == "Llave_Unica_Imagen_";
    assert '.' !in "magen_" && ".txt"[0] == '.';
    StemKey("Llave_Unica_I", 'I', "magen_", p, n, ".txt");
  }

  /** Dropping the parentheses around `head + p + "_" + t`. */
  lemma Unparen(open: string, head: string, p: string, t: string)
    requires open == "(" + head
    ensures var w := open + p + "_" + t + ")";
      |w| >= 2 && w[1..|w| - 1] == head + p + "_" + t
  {
    var inner := head + p + "_" + t;
    assert open + p + "_" + t + ")" == "(" + inner + ")";
  }

  /** The file of table `t` on page `p` (both 1-based) yields exactly the key
      written in the PDF for that table, parentheses aside. */
  lemma TableFileKey(page: nat, tableIndex: nat)
    ensures var written := TableKeys.TableKeyText(page, tableIndex);
      TableKey(TableFileName(NatToString(page + 1), NatToString(tableIndex + 1))) == written[1..|written| - 1]
  {
    var p := NatToString(page + 1);
    var t := NatToString(tableIndex + 1);
    NoDotInNumber(page + 1);
    NoDotInNumber(tableIndex + 1);
    TableNameKey(p, t);
    assert "(Llave_Unica_Tabla_" == "(" + "Llave_Unica_Tabla_";
    Unparen("(Llave_Unica_Tabla_", "Llave_Unica_Tabla_", p, t);
  }

  /** The answer file of the `n`-th image on page `p` yields exactly the key
      written in the PDF where that image was removed, parentheses aside. */
  lemma ImageFileKey(page: nat, n: nat)
    ensures var written := ImageKeys.ImageKeyText(page, n);
      ImageKey(ImageFileName(NatToString(page + 1), NatToString(n))) == written[1..|written| - 1]
  {
    var p := NatToString(page + 1);
    var t := NatToString(n);
    NoDotInNumber(page + 1);
    NoDotInNumber(n);
    ImageNameKey(p, t);
    assert "(Llave_Unica_Imagen_" == "(" + "Llave_Unica_Imagen_";
    Unparen("(Llave_Unica_Imagen_", "Llave_Unica_Imagen_", p, t);
  }

  // ---------------------------------------------------------------------------
  // Sequential replacement
  // ---------------------------------------------------------------------------

  /** What a key is replaced with: the content between blank lines. */
  function Framed(content: string): string { "\n\n" + content + "\n\n" }

  /** The keys replaced one after another, each `(key, content)` pair acting
      on the previous result. */
  predicate KeysNonEmpty(pairs: seq<(string, string)>) {
    forall k | 0 <= k < |pairs| :: |pairs[k].0| > 0
  }

  function ApplyAll(md: string, pairs: seq<(string, string)>): string
    requires KeysNonEmpty(pairs)
    decreases |pairs|
  {
    if |pairs| == 0 then md
    else
      var last := pairs[|pairs| - 1];
      ReplaceAll(ApplyAll(md, pairs[..|pairs| - 1]), last.0, Framed(last.1))
  }

  /** The `(key, converted content)` pairs of the table files. */
  function TablePairs(files: seq<Entry>, toMarkdown: string -> string): (r: seq<(string, string)>)
    ensures |r| == |files| && KeysNonEmpty(r)
    ensures forall k | 0 <= k < |r| :: r[k] == (TableKey(files[k].name), toMarkdown(ReplaceAll(files[k].content, "\n", " ")))
    decreases |files|
  {
    if |files| == 0 then []
    else
      var f := files[|files| - 1];
      var prev := TablePairs(files[..|files| - 1], toMarkdown);
      assert forall k | 0 <= k < |prev| :: files[..|files| - 1][k] == files[k];
      prev + [(TableKey(f.name), toMarkdown(ReplaceAll(f.content, "\n", " ")))]
  }

  /** The `(key, converted content)` pairs of the image text files. */
  function ImagePairs(files: seq<Entry>, toMarkdown: string -> string): (r: seq<(string, string)>)
    ensures |r| == |files| && KeysNonEmpty(r)
    ensures forall k | 0 <= k < |r| :: r[k] == (ImageKey(files[k].name), toMarkdown(files[k].content))
    decreases |files|
  {
    if |files| == 0 then []
    else
      var f := files[|files| - 1];
      var prev := ImagePairs(files[..|files| - 1], toMarkdown);
      assert forall k | 0 <= k < |prev| :: files[..|files| - 1][k] == files[k];
      prev + [(ImageKey(f.name), toMarkdown(f.content))]
  }

  /** `remplazar_tablas_en_md`: each `.html` file's table, converted to
      Markdown after its newlines became spaces, replaces its key. */
  method ReplaceTables(md: string, dir: seq<Entry>, toMarkdown: string -> string) returns (r: string)
    ensures r == ApplyAll(md, TablePairs(Selected(dir, ".html"), toMarkdown))
  {
    var files := Selected(dir, ".html");
    ghost var pairs := TablePairs(files, toMarkdown);
    r := md;
    for i := 0 to |files|
      invariant r == ApplyAll(md, pairs[..i])
    {
      assert pairs[..i + 1][..i] == pairs[..i];
      var tableMd := toMarkdown(ReplaceAll(files[i].content, "\n", " "));
      var key := TableKey(files[i].name);
      r := ReplaceAll(r, key, Framed(tableMd));
    }
    assert pairs[..|files|] == pairs;
  }

  /** `remplazar_imagenes_en_md`: each `.txt` file's text, converted by
      pandoc, replaces its key; the result is also what is written out. */
  method ReplaceImages(md: string, dir: seq<Entry>, toMarkdown: string -> string) returns (r: string)
    ensures r == ApplyAll(md, ImagePairs(Selected(dir, ".txt"), toMarkdown))
  {
    var files := Selected(dir, ".txt");
    ghost var pairs := ImagePairs(files, toMarkdown);
    r := md;
    for i := 0 to |files|
      invariant r == ApplyAll(md, pairs[..i])
    {
      assert pairs[..i + 1][..i] == pairs[..i];
      var text := toMarkdown(files[i].content);
      var key := ImageKey(files[i].name);
      r := ReplaceAll(r, key, Framed(text));
    }
    assert pairs[..|files|] == pairs;
  }

  // ---------------------------------------------------------------------------
  // What one replacement does
  // ---------------------------------------------------------------------------

  lemma ReplaceAllHit(s: string, key: string, rep: string)
    requires |key| > 0 && OccursAt(s, key, 0)
    ensures ReplaceAll(s, key, rep) == rep + ReplaceAll(s[|key|..], key, rep)
  {
  }

  lemma ReplaceAllMiss(s: string, key: string, rep: string)
    requires |key| > 0 && |s| > 0 && !OccursAt(s, key, 0)
    ensures ReplaceAll(s, key, rep) == [s[0]] + ReplaceAll(s[1..], key, rep)
  {
  }

  /** When no occurrence of the key starts inside `a` of `a + key + b`,
      none starts inside `a[1..]` of the text without its first character. */
  lemma NoEarlierInTail(a: string, key: string, b: string)
    requires |a| > 0
    requires forall i | 0 <= i < |a| :: !OccursAt(a + key + b, key, i)
    ensures forall i | 0 <= i < |a| - 1 :: !OccursAt(a[1..] + key + b, key, i)
  {
    var s, t := a + key + b, a[1..] + key + b;
    forall i | 0 <= i < |a| - 1 ensures !OccursAt(t, key, i) {
      assert !OccursAt(s, key, i + 1);
      if i + |key| <= |t| {
        var u, v := s[i + 1..i + 1 + |key|], t[i..i + |key|];
        forall j | 0 <= j < |key| ensures u[j] == v[j] {
          assert s[i + 1 + j] == t[i + j];
        }
        assert u == v;
      }
    }
  }

  /** The first occurrence of the key is replaced and the text before it is
      kept as it is. */
  lemma {:induction false} ReplaceFirst(a: string, key: string, b: string, rep: string)
    requires |key| > 0
    requires forall i | 0 <= i < |a| :: !OccursAt(a + key + b, key, i)
    ensures ReplaceAll(a + key + b, key, rep) == a + rep + ReplaceAll(b, key, rep)
    decreases |a|
  {
    var s := a + key + b;
    if |a| == 0 {
      assert s == key + b && s[|key|..] == b;
      assert s[..|key|] == key;
      ReplaceAllHit(s, key, rep);
    } else {
      var t := a[1..] + key + b;
      assert s[1..] == t;
      ReplaceAllMiss(s, key, rep);
      NoEarlierInTail(a, key, b);
      ReplaceFirst(a[1..], key, b, rep);
      assert a == [a[0]] + a[1..];
      assert s[0] == a[0];
    }
  }

  /** When no key occurs in the text, nothing changes. */
  lemma {:induction false} ApplyAllAbsent(md: string, pairs: seq<(string, string)>)
    requires KeysNonEmpty(pairs)
    requires forall k | 0 <= k < |pairs| :: !Contains(md, pairs[k].0)
    ensures ApplyAll(md, pairs) == md
    decreases |pairs|
  {
    if |pairs| > 0 {
      ApplyAllAbsent(md, pairs[..|pairs| - 1]);
      var last := pairs[|pairs| - 1];
      ReplaceAllAbsent(md, last.0, Framed(last.1));
    }
  }

  // ---------------------------------------------------------------------------
  // A key that is a prefix of another
  // ---------------------------------------------------------------------------

  lemma ShortTail(key: string, d: char, rep: string)
    requires |key| >= 2
    ensures ReplaceAll([d], key, rep) == [d]
  {
  }

  /** As written: `Llave_Unica_Tabla_1_1` is a prefix of
      `Llave_Unica_Tabla_1_10`. When the shorter key's file comes first, as
      `tabla_1_1.html` sorts before `tabla_1_10.html`, the longer marker is
      cut: its first part becomes the other table and the last digit stays
      behind, and the longer key is never found. */
  lemma PrefixKeySplitsMarker(key: string, d: char, shortRep: string, longRep: string)
    requires |key| >= 2
    requires !Contains(Framed(shortRep) + [d], key + [d])
    ensures ApplyAll(key + [d], [(key, shortRep), (key + [d], longRep)]) == Framed(shortRep) + [d]
  {
    ApplyTwo(key + [d], (key, shortRep), (key + [d], longRep));
    ReplaceFirst([], key, [d], Framed(shortRep));
    assert [] + key + [d] == key + [d];
    ShortTail(key, d, Framed(shortRep));
    ReplaceAllAbsent(Framed(shortRep) + [d], key + [d], Framed(longRep));
  }

  /** Longer keys first: a key is never replaced before a key that extends it. */
  function ByKeyLength(p: (string, string)): (real, real) { (-(|p.0| as real), 0.0) }

  function LongestFirst(pairs: seq<(string, string)>): (r: seq<(string, string)>)
    ensures |r| == |pairs| && multiset(r) == multiset(pairs)
    ensures forall k | 0 <= k < |r| :: r[k] in pairs
    ensures KeysNonEmpty(pairs) ==> KeysNonEmpty(r)
  {
    SortFacts(pairs, ByKeyLength);
    var r := Sort(pairs, ByKeyLength);
    assert forall k | 0 <= k < |r| :: r[k] in multiset(r);
    r
  }

  /** The corrected order holds the same pairs, and no key comes before one
      that it is a proper prefix of. */
  lemma LongestFirstOrder(pairs: seq<(string, string)>)
    ensures multiset(LongestFirst(pairs)) == multiset(pairs)
    ensures forall i, j | 0 <= i < j < |LongestFirst(pairs)| ::
      |LongestFirst(pairs)[i].0| >= |LongestFirst(pairs)[j].0|
    ensures forall i, j | 0 <= i < j < |LongestFirst(pairs)| ::
      !(|LongestFirst(pairs)[i].0| < |LongestFirst(pairs)[j].0| && StartsWith(LongestFirst(pairs)[j].0, LongestFirst(pairs)[i].0))
  {
    var s := LongestFirst(pairs);
    SortFacts(pairs, ByKeyLength);
    forall i, j | 0 <= i < j < |s| ensures |s[i].0| >= |s[j].0| {
      assert KeyLe(ByKeyLength(s[i]), ByKeyLength(s[j]));
    }
  }

  lemma LongestFirstTwo(short: (string, string), long: (string, string))
    requires |short.0| < |long.0|
    ensures LongestFirst([short, long]) == [long, short]
  {
    assert [short, long][..1] == [short];
    assert [short][..0] == [];
    assert Sort([short], ByKeyLength) == [short];
    assert !KeyLe(ByKeyLength(short), ByKeyLength(long));
    assert Insert(long, [short], ByKeyLength) == Insert(long, [], ByKeyLength) + [short];
  }

  lemma ApplyOne(md: string, key: string, rep: string)
    requires |key| > 0
    ensures ApplyAll(md, [(key, rep)]) == ReplaceAll(md, key, Framed(rep))
  {
    assert [(key, rep)][..0] == [];
  }

  lemma ApplyTwo(md: string, first: (string, string), second: (string, string))
    requires |first.0| > 0 && |second.0| > 0
    ensures ApplyAll(md, [first, second]) == ReplaceAll(ReplaceAll(md, first.0, Framed(first.1)), second.0, Framed(second.1))
  {
    assert [first, second][..1] == [first];
    ApplyOne(md, first.0, first.1);
  }

  /** In the corrected order the same marker gets its own table whole. */
  lemma LongestFirstKeepsMarker(key: string, d: char, shortRep: string, longRep: string)
    requires |key| >= 2
    requires !Contains(Framed(longRep), key)
    ensures ApplyAll(key + [d], LongestFirst([(key, shortRep), (key + [d], longRep)])) == Framed(longRep)
  {
    var short := (key, shortRep);
    var long := (key + [d], longRep);
    LongestFirstTwo(short, long);
    ApplyTwo(key + [d], long, short);
    ReplaceFirst([], key + [d], [], Framed(longRep));
    assert [] + (key + [d]) + [] == key + [d];
    assert ReplaceAll([], key + [d], Framed(longRep)) == [];
    assert Framed(longRep) + [] == Framed(longRep);
    ReplaceAllAbsent(Framed(longRep), key, Framed(shortRep));
  }

  lemma ApplyStep(md: string, pairs: seq<(string, string)>, i: nat)
    requires KeysNonEmpty(pairs) && i < |pairs|
    ensures KeysNonEmpty(pairs[..i]) && KeysNonEmpty(pairs[..i + 1])
    ensures ApplyAll(md, pairs[..i + 1]) == ReplaceAll(ApplyAll(md, pairs[..i]), pairs[i].0, Framed(pairs[i].1))
  {
    assert pairs[..i + 1][..i] == pairs[..i];
  }

  /** Replaces the keys in the given order. */
  method ReplaceInOrder(md: string, pairs: seq<(string, string)>) returns (r: string)
    requires KeysNonEmpty(pairs)
    ensures r == ApplyAll(md, pairs)
  {
    r := md;
    for i := 0 to |pairs|
      invariant KeysNonEmpty(pairs[..i])
      invariant r == ApplyAll(md, pairs[..i])
    {
      ApplyStep(md, pairs, i);
      r := ReplaceAll(r, pairs[i].0, Framed(pairs[i].1));
    }
    assert pairs[..|pairs|] == pairs;
  }

  /** The corrected table replacement: the same pairs, longest key first. */
  method ReplaceTablesLongestFirst(md: string, dir: seq<Entry>, toMarkdown: string -> string) returns (r: string)
    ensures r == ApplyAll(md, LongestFirst(TablePairs(Selected(dir, ".html"), toMarkdown)))
  {
    var pairs := LongestFirst(TablePairs(Selected(dir, ".html"), toMarkdown));
    r := ReplaceInOrder(md, pairs);
  }

  /** The corrected image replacement: the same pairs, longest key first. */
  method ReplaceImagesLongestFirst(md: string, dir: seq<Entry>, toMarkdown: string -> string) returns (r: string)
    ensures r == ApplyAll(md, LongestFirst(ImagePairs(Selected(dir, ".txt"), toMarkdown)))
  {
    var pairs := LongestFirst(ImagePairs(Selected(dir, ".txt"), toMarkdown));
    r := ReplaceInOrder(md, pairs);
  }
}
