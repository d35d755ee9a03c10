/** `extraer_estilos_y_texto`: the style of every text span of a document.
    A page is the block, line and span dictionary that the PDF library
    returns; each span is described by its stripped text, its font, whether
    the font is bold, its colour split into red, green and blue, its size
    and whether its text opens a bulleted, numbered or lettered item. */
module SpanStyles {
  import opened Common
  import PlainText

  /** A span as the PDF library gives it; `color` is the packed sRGB
      integer. */
  datatype Span = Span(text: string, font: string, color: int, size: real)

  /** A line of spans; a block without lines (an image block) has none. */
  datatype Line = Line(spans: seq<Span>)
  datatype Block = Block(lines: seq<Line>)

  /** The description of one span. */
  datatype SpanStyle = SpanStyle(
    texto: string, fuente: string, negrilla: bool, color: (int, int, int), tamano: real,
    esBullet: bool, esNumerado: bool, esLetra: bool)

  /** One page of the result, numbered from 1. */
  datatype PageStyles = PageStyles(pagina: nat, contenido: seq<SpanStyle>)

  // ---------------------------------------------------------------------------
  // Colour
  // ---------------------------------------------------------------------------

  /** `((color >> 16) & 255, (color >> 8) & 255, color & 255)`. On Python's
      integers a right shift by k is floor division by 2^k and `& 255` is
      the remainder modulo 256, which is what Dafny's `/` and `%` compute
      for a positive divisor, for negative colours too. */
  function Rgb(color: int): (int, int, int) {
    ((color / 0x10000) % 0x100, (color / 0x100) % 0x100, color % 0x100)
  }

  /** Each component is a byte, and packing them again, red highest, gives
      the low 24 bits of the colour: `(r << 16) | (g << 8) | b ==
      color & 0xFFFFFF`, the bytes occupying disjoint bits. */
  lemma RgbPacks(color: int)
    ensures var (r, g, b) := Rgb(color);
      && 0 <= r < 0x100 && 0 <= g < 0x100 && 0 <= b < 0x100
      && r * 0x10000 + g * 0x100 + b == color % 0x1000000
  {
    var b := color % 0x100;
    var m := color / 0x100;
    var g := m % 0x100;
    var m2 := m / 0x100;
    var r := m2 % 0x100;
    var n := m2 / 0x100;
    assert color == m2 * 0x10000 + (g * 0x100 + b);
    QuotientBy16(color, m2, g * 0x100 + b);
    assert color == n * 0x1000000 + (r * 0x10000 + g * 0x100 + b);
    RemainderBy24(color, n, r * 0x10000 + g * 0x100 + b);
  }

  lemma QuotientBy16(x: int, q: int, r: int)
    requires x == q * 0x10000 + r && 0 <= r < 0x10000
    ensures x / 0x10000 == q
  {
  }

  lemma RemainderBy24(x: int, q: int, r: int)
    requires x == q * 0x1000000 + r && 0 <= r < 0x1000000
    ensures x % 0x1000000 == r
  {
  }

  // ---------------------------------------------------------------------------
  // Font and list markers
  // ---------------------------------------------------------------------------

  /** `"Bold" in fuente or "Black" in fuente`. */
  predicate Bold(font: string) { Contains(font, "Bold") || Contains(font, "Black") }

  /** The bullet characters of `^[-•◦▪‣✓]\s+`. */
  predicate BulletChar(c: char) {
    c == '-' || c == '•' || c == '◦' || c == '▪' || c == '‣' || c == '✓'
  }

  /** `re.match(r'^[-•◦▪‣✓]\s+', texto)` */
  predicate BulletItem(t: string) { |t| >= 2 && BulletChar(t[0]) && IsSpace(t[1]) }

  /** `re.match(r'^[a-zA-Z]\.\s+', texto)` */
  predicate LetterItem(t: string) {
    |t| >= 3 && PlainText.IsAsciiLetter(t[0]) && t[1] == '.' && IsSpace(t[2])
  }

  /** The description of a span: the flags look at the stripped text. */
  function Describe(s: Span): SpanStyle {
    var t := Strip(s.text);
    SpanStyle(t, s.font, Bold(s.font), Rgb(s.color), s.size,
      BulletItem(t), PlainText.Numbered(t), LetterItem(t))
  }

  /** A span's text opens at most one kind of list item: the three patterns
      start with a bullet, a digit and a letter. */
  lemma ListKindsExclusive(s: Span)
    ensures var d := Describe(s);
      && !(d.esBullet && d.esNumerado) && !(d.esBullet && d.esLetra) && !(d.esNumerado && d.esLetra)
  {
    MarkersExclusive(Strip(s.text));
  }

  lemma MarkersExclusive(t: string)
    ensures !(BulletItem(t) && PlainText.Numbered(t))
    ensures !(BulletItem(t) && LetterItem(t))
    ensures !(PlainText.Numbered(t) && LetterItem(t))
  {
    if PlainText.Numbered(t) {
      assert DigitRun(t, 0) > 0;
      assert IsDigit(t[0]);
    }
  }

  /** The description reads the text only through its stripped form:
      surrounding whitespace changes nothing. */
  lemma DescribePadded(s: Span, pre: string, post: string)
    requires AllSpace(pre) && AllSpace(post)
    requires |Strip(s.text)| > 0
    ensures Describe(s.(text := pre + s.text + post)) == Describe(s)
  {
    StripPadded(pre, s.text, post);
  }

  // ---------------------------------------------------------------------------
  // Pages
  // ---------------------------------------------------------------------------

  /** The spans of some lines, line after line. */
  function LineSpans(lines: seq<Line>): seq<Span>
    decreases |lines|
  {
    if |lines| == 0 then [] else LineSpans(lines[..|lines| - 1]) + lines[|lines| - 1].spans
  }

  /** The spans of some blocks, block after block. */
  function BlockSpans(blocks: seq<Block>): seq<Span>
    decreases |blocks|
  {
    if |blocks| == 0 then [] else BlockSpans(blocks[..|blocks| - 1]) + LineSpans(blocks[|blocks| - 1].lines)
  }

  /** `f` applied to each span, in order. */
  function MapSpans(spans: seq<Span>, f: Span -> SpanStyle): (r: seq<SpanStyle>)
    ensures |r| == |spans| && forall i | 0 <= i < |spans| :: r[i] == f(spans[i])
    decreases |spans|
  {
    if |spans| == 0 then [] else MapSpans(spans[..|spans| - 1], f) + [f(spans[|spans| - 1])]
  }

  /** Each span described, in order. */
  function DescribeAll(spans: seq<Span>): seq<SpanStyle> { MapSpans(spans, Describe) }

  /** The result: page `i` is numbered `i + 1` and describes its spans in
      block, line and span order. */
  function Styles(doc: seq<seq<Block>>): (r: seq<PageStyles>)
    ensures |r| == |doc|
    ensures forall i | 0 <= i < |doc| :: r[i].pagina == i + 1 && r[i].contenido == DescribeAll(BlockSpans(doc[i]))
    decreases |doc|
  {
    if |doc| == 0 then []
    else Styles(doc[..|doc| - 1]) + [PageStyles(|doc|, DescribeAll(BlockSpans(doc[|doc| - 1])))]
  }

  lemma {:induction false} LineSpansConcat(a: seq<Line>, b: seq<Line>)
    ensures LineSpans(a + b) == LineSpans(a) + LineSpans(b)
    decreases |b|
  {
    if |b| > 0 {
      assert (a + b)[..|a + b| - 1] == a + b[..|b| - 1];
      LineSpansConcat(a, b[..|b| - 1]);
    } else {
      assert a + b == a;
    }
  }

  /** Blocks keep their order, and a block's spans stay together: the spans
      of consecutive runs of blocks are consecutive. */
  lemma {:induction false} BlockSpansConcat(a: seq<Block>, b: seq<Block>)
    ensures BlockSpans(a + b) == BlockSpans(a) + BlockSpans(b)
    decreases |b|
  {
    if |b| > 0 {
      assert (a + b)[..|a + b| - 1] == a + b[..|b| - 1];
      BlockSpansConcat(a, b[..|b| - 1]);
    } else {
      assert a + b == a;
    }
  }

  lemma MapSpansConcat(a: seq<Span>, b: seq<Span>, f: Span -> SpanStyle)
    ensures MapSpans(a + b, f) == MapSpans(a, f) + MapSpans(b, f)
  {
    var l, r := MapSpans(a + b, f), MapSpans(a, f) + MapSpans(b, f);
    forall i | 0 <= i < |l| ensures l[i] == r[i] {
      if i < |a| {
        assert (a + b)[i] == a[i];
      } else {
        assert (a + b)[i] == b[i - |a|];
      }
    }
  }

  /** The innermost loop: the spans of one line, appended in order. */
  method AppendSpans(texto: seq<SpanStyle>, spans: seq<Span>, f: Span -> SpanStyle) returns (out: seq<SpanStyle>)
    ensures out == texto + MapSpans(spans, f)
  {
    out := texto;
    for k := 0 to |spans|
      invariant out == texto + MapSpans(spans[..k], f)
    {
      assert spans[..k + 1][..k] == spans[..k];
      out := out + [f(spans[k])];
    }
    assert spans[..|spans|] == spans;
  }

  /** One more line of a block: its spans follow those already mapped. */
  lemma LinesStep(texto: seq<SpanStyle>, lines: seq<Line>, l: nat, f: Span -> SpanStyle)
    requires l < |lines|
    ensures texto + MapSpans(LineSpans(lines[..l + 1]), f)
      == texto + MapSpans(LineSpans(lines[..l]), f) + MapSpans(lines[l].spans, f)
  {
    assert lines[..l + 1][..l] == lines[..l];
    MapSpansConcat(LineSpans(lines[..l]), lines[l].spans, f);
  }

  /** The loop over the lines of one block. */
  method AppendLines(texto: seq<SpanStyle>, lines: seq<Line>, f: Span -> SpanStyle) returns (out: seq<SpanStyle>)
    ensures out == texto + MapSpans(LineSpans(lines), f)
  {
    out := texto;
    for l := 0 to |lines|
      invariant out == texto + MapSpans(LineSpans(lines[..l]), f)
    {
      LinesStep(texto, lines, l, f);
      out := AppendSpans(out, lines[l].spans, f);
    }
    assert lines[..|lines|] == lines;
  }

  /** One more block of a page: its spans follow those already described. */
  lemma BlocksStep(blocks: seq<Block>, b: nat)
    requires b < |blocks|
    ensures MapSpans(BlockSpans(blocks[..b + 1]), Describe)
      == MapSpans(BlockSpans(blocks[..b]), Describe) + MapSpans(LineSpans(blocks[b].lines), Describe)
  {
    assert blocks[..b + 1][..b] == blocks[..b];
    MapSpansConcat(BlockSpans(blocks[..b]), LineSpans(blocks[b].lines), Describe);
  }

  /** The loop over the blocks of one page. */
  method PageContent(blocks: seq<Block>) returns (texto: seq<SpanStyle>)
    ensures texto == DescribeAll(BlockSpans(blocks))
  {
    texto := [];
    for b := 0 to |blocks|
      invariant texto == MapSpans(BlockSpans(blocks[..b]), Describe)
    {
      BlocksStep(blocks, b);
      texto := AppendLines(texto, blocks[b].lines, Describe);
    }
    assert blocks[..|blocks|] == blocks;
  }

  /** One more page described. */
  lemma StylesStep(doc: seq<seq<Block>>, i: nat)
    requires i < |doc|
    ensures Styles(doc[..i + 1]) == Styles(doc[..i]) + [PageStyles(i + 1, DescribeAll(BlockSpans(doc[i])))]
  {
    assert doc[..i + 1][..i] == doc[..i];
  }

  /** `extraer_estilos_y_texto` over the already-opened pages. */
  method ExtractStyles(doc: seq<seq<Block>>) returns (resultados: seq<PageStyles>)
    ensures resultados == Styles(doc)
  {
    resultados := [];
    for i := 0 to |doc|
      invariant resultados == Styles(doc[..i])
    {
      StylesStep(doc, i);
      var texto := PageContent(doc[i]);
      resultados := resultados + [PageStyles(i + 1, texto)];
    }
    assert doc[..|doc|] == doc;
  }
}
