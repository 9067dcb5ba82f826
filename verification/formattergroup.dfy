/** The formatter group: renders one chunk of bytes as a line of columns,
    one column per formatter. Each column has Width slots; a slot shows a
    data byte in its palette colour or, past the end of the chunk, padding
    marks. A visual splitter precedes every visualSplitterSize-th slot, a
    space follows every slot but the last when the formatter is wider than
    one character, and a grey splitter separates consecutive columns. */
module FormatterGroup {

  import opened Wrappers
  import opened Tokens
  import opened Arith
  import Numerals
  import Ansi
  import BF = ByteFormatters

  /** The ByteFormatter interface as the renderer sees it: Print (here
      `render`), the text of one byte, and GetPrintSize, the declared number
      of characters it takes. */
  datatype ByteFormatter = ByteFormatter(render: bv8 -> seq<Token>, printSize: nat)

  /** A colour escape for every byte value. */
  type Palette = p: seq<string> | |p| == 256 witness seq(256, _ => "")

  datatype Group = Group(
    palette: Palette,
    specialBreak: string,
    hilightBreak: string,
    formatters: seq<ByteFormatter>,
    width: nat,
    visualSplitterSize: nat,
    visualSplitter: string,
    splitter: string,
    splitterBreak: string)

  /** Inserted every visualSplitterSize slots. */
  const VisualSplitter: string := " "
  /** Drawn between two columns. */
  const ColumnSplitter: string := "┊"
  /** Drawn past the end of the chunk, PrintSize times per missing byte. */
  const PaddingMark: char := '‡'
  /** The colour switch before a column splitter: foreground Grey93. */
  const SplitterBreak: string := Ansi.SetForeground + "255m"

  /** A formatter that keeps the interface's promise: every byte prints
      exactly printSize visible characters, none of them a column splitter
      or a padding mark. */
  ghost predicate Keeps(bf: ByteFormatter)
  {
    forall b: bv8 ::
      Visible(bf.render(b)) == bf.printSize
      && Count(bf.render(b), Glyph('┊')) == 0 && Count(bf.render(b), Glyph(PaddingMark)) == 0
  }

  /** A concrete formatter seen through the interface. */
  function Of(f: BF.Formatter): (bf: ByteFormatter)
    ensures bf.printSize == BF.PrintSize(f)
    ensures forall b: bv8 :: bf.render(b) == BF.Print(f, b)
  {
    ByteFormatter(b => BF.Print(f, b), BF.PrintSize(f))
  }

  /** Every formatter as its constructor builds it keeps the promise. */
  lemma OfKeeps(f: BF.Formatter)
    requires BF.Valid(f)
    ensures Keeps(Of(f))
  {
    forall b: bv8
      ensures Visible(Of(f).render(b)) == Of(f).printSize
      ensures Count(Of(f).render(b), Glyph('┊')) == 0 && Count(Of(f).render(b), Glyph(PaddingMark)) == 0
    {
      BF.PrintNarrow(f, b);
      BF.NarrowAvoids(BF.Print(f, b), '┊');
      BF.NarrowAvoids(BF.Print(f, b), PaddingMark);
    }
  }

  /** The splitter break is the foreground escape of Grey93, however the
      colour's style flags are set. */
  lemma SplitterBreakIsGrey93(bold: bool, underline: bool, blink: bool, crossed: bool, italic: bool)
    ensures SplitterBreak
         == Ansi.SetForeground + Ansi.ColorString(Ansi.AnsiColor(Ansi.ColorGrey93, bold, underline, blink, crossed, italic))
  {
    assert Numerals.Digits(2, 10) == "2";
    assert Numerals.Digits(25, 10) == "25";
    assert Numerals.Digits(255, 10) == "255";
  }

  /** A group as New builds it: the width fits in 16 bits and is not zero,
      the splitter size fits in 8 bits, and the splitters are the fixed
      ones. */
  predicate Valid(g: Group)
  {
    0 < g.width < 0x1_0000 && g.visualSplitterSize < 0x100
    && g.visualSplitter == VisualSplitter && g.splitter == ColumnSplitter
  }

  /** Every formatter of the group keeps the interface's promise. */
  ghost predicate FormattersValid(g: Group)
  {
    forall d :: 0 <= d < |g.formatters| ==> Keeps(g.formatters[d])
  }

  /** base.New: a missing formatter list and a zero width are refused, in
      that order; otherwise the group keeps its arguments and installs the
      fixed splitters. */
  function New(formatters: Option<seq<ByteFormatter>>, palette: Palette, specialBreak: string,
               hilightBreak: string, width: nat, visualSplitterSize: nat): (r: Result<Group>)
    requires width < 0x1_0000 && visualSplitterSize < 0x100
    ensures formatters.None? ==> r == Failure("nil formatter")
    ensures formatters.Some? && width == 0 ==> r == Failure("zero width")
    ensures r.Success? <==> formatters.Some? && width != 0
    ensures r.Success? ==>
      Valid(r.value) && r.value.splitterBreak == SplitterBreak
      && r.value.formatters == formatters.value && r.value.palette == palette
      && r.value.width == width && r.value.visualSplitterSize == visualSplitterSize
      && r.value.specialBreak == specialBreak && r.value.hilightBreak == hilightBreak
  {
    if formatters.None? then Failure("nil formatter")
    else if width == 0 then Failure("zero width")
    else Success(Group(palette, specialBreak, hilightBreak, formatters.value, width, visualSplitterSize,
                       VisualSplitter, ColumnSplitter, SplitterBreak))
  }

  // ---------------------------------------------------------------- layout

  /** Slot i gets a visual splitter in front. */
  predicate SplitBefore(g: Group, i: nat)
  {
    g.visualSplitterSize != 0 && i != 0 && IsMultiple(i, g.visualSplitterSize)
  }

  /** Slot i is followed by a space. */
  predicate GapAfter(g: Group, f: ByteFormatter, i: nat)
  {
    i < g.width - 1 && f.printSize > 1
  }

  /** The visual splitter written before slot i, if any. */
  function SplitterAt(g: Group, i: nat): seq<Token>
  {
    Glyphs(if SplitBefore(g, i) then g.visualSplitter else "")
  }

  /** The space written after slot i, if any. */
  function Gap(g: Group, f: ByteFormatter, i: nat): seq<Token>
  {
    Repeat(' ', if GapAfter(g, f, i) then 1 else 0)
  }

  /** The content of slot i: the byte's colour and the formatter's output,
      or padding marks (the first of them preceded by palette entry 0). */
  function Cell(g: Group, f: ByteFormatter, tmp: seq<bv8>, i: nat): seq<Token>
  {
    if i < |tmp| then [Esc(g.palette[tmp[i] as int])] + f.render(tmp[i])
    else (if i == |tmp| then [Esc(g.palette[0])] else []) + Repeat(PaddingMark, f.printSize)
  }

  function Slot(g: Group, f: ByteFormatter, tmp: seq<bv8>, i: nat): seq<Token>
  {
    SplitterAt(g, i) + Cell(g, f, tmp, i) + Gap(g, f, i)
  }

  function Slots(g: Group, f: ByteFormatter, tmp: seq<bv8>): nat -> seq<Token>
  {
    (i: nat) => Slot(g, f, tmp, i)
  }

  /** One formatter's column: its Width slots. */
  function Column(g: Group, f: ByteFormatter, tmp: seq<bv8>): seq<Token>
  {
    Join(Slots(g, f, tmp), g.width)
  }

  /** The grey splitter after column d, unless d is the last column. */
  function Separator(g: Group, d: nat): seq<Token>
  {
    if d < |g.formatters| - 1 then [Esc(g.splitterBreak)] + Glyphs(g.splitter) else []
  }

  /** Column d followed by its separator. */
  function Columns(g: Group, tmp: seq<bv8>): nat -> seq<Token>
  {
    (d: nat) => if d < |g.formatters| then Column(g, g.formatters[d], tmp) + Separator(g, d) else []
  }

  function Line(g: Group, tmp: seq<bv8>): seq<Token>
  {
    Join(Columns(g, tmp), |g.formatters|)
  }

  // ------------------------------------------------------------ widths

  /** Screen columns one formatter's column takes, whatever the chunk:
      Width cells, a space between cells for wide formatters, and one visual
      splitter per completed group of visualSplitterSize cells. */
  function ColumnWidth(g: Group, f: ByteFormatter): nat
  {
    g.width * f.printSize
    + (if f.printSize > 1 && g.width > 0 then g.width - 1 else 0)
    + (if g.visualSplitterSize == 0 || g.width == 0 then 0 else (g.width - 1) / g.visualSplitterSize)
  }

  /** Screen columns part d of a line takes: its column, then one splitter
      glyph unless it is the last column. */
  function PartWidth(g: Group, d: nat): nat
  {
    if d < |g.formatters| then ColumnWidth(g, g.formatters[d]) + (if d < |g.formatters| - 1 then 1 else 0) else 0
  }

  function PartWidths(g: Group): nat -> nat
  {
    (d: nat) => PartWidth(g, d)
  }

  /** Screen columns of a whole line: every column plus one splitter glyph
      between each two. */
  function LineWidth(g: Group): nat
  {
    Sum(PartWidths(g), |g.formatters|)
  }

  // ------------------------------------------------------------ renderer

  /** FormatterGroup.Print: renders the chunk `tmp`, formatter by formatter
      and slot by slot, each column followed by the grey splitter except the
      last. Every line is equally wide, however short the chunk. */
  method Print(g: Group, tmp: seq<bv8>) returns (out: seq<Token>)
    requires Valid(g)
    ensures out == Line(g, tmp)
    ensures FormattersValid(g) ==> Visible(out) == LineWidth(g)
  {
    out := [];
    for didx := 0 to |g.formatters|
      invariant out == Join(Columns(g, tmp), didx)
    {
      var part := WritePart(g, tmp, didx);
      out := out + part;
    }
    if FormattersValid(g) {
      LineVisible(g, tmp);
    }
  }

  /** One pass of the outer loop: formatter d's column, then the grey
      splitter unless d is the last formatter. */
  method WritePart(g: Group, tmp: seq<bv8>, d: nat) returns (out: seq<Token>)
    requires Valid(g) && d < |g.formatters|
    ensures out == Columns(g, tmp)(d)
    ensures d < |g.formatters| - 1 ==> out[|out| - 1] == Glyph('┊')
  {
    var column := WriteColumn(g, g.formatters[d], tmp);
    var separator: seq<Token> := [];
    if d < |g.formatters| - 1 {
      separator := [Esc(g.splitterBreak)] + Glyphs(g.splitter);
    }
    out := column + separator;
  }

  /** The inner loop of Print: Width slots of one formatter. */
  method WriteColumn(g: Group, f: ByteFormatter, tmp: seq<bv8>) returns (out: seq<Token>)
    requires Valid(g)
    ensures out == Column(g, f, tmp)
    ensures Keeps(f) ==> Visible(out) == ColumnWidth(g, f)
  {
    out := [];
    for i := 0 to g.width
      invariant out == Join(Slots(g, f, tmp), i)
    {
      var slot := WriteSlot(g, f, tmp, i);
      out := out + slot;
    }
    if Keeps(f) {
      ColumnVisible(g, f, tmp);
    }
  }

  /** One pass of the inner loop: the visual splitter, then the cell, then
      the gap. */
  method WriteSlot(g: Group, f: ByteFormatter, tmp: seq<bv8>, i: nat) returns (out: seq<Token>)
    requires Valid(g) && i < g.width
    ensures out == Slot(g, f, tmp, i)
    ensures Keeps(f) ==>
              Visible(out)
              == (if g.visualSplitterSize != 0 && i != 0 && i % g.visualSplitterSize == 0 then 1 else 0)
               + f.printSize + (if i < g.width - 1 && f.printSize > 1 then 1 else 0)
  {
    if g.visualSplitterSize != 0 {
      IsMultipleMod(i, g.visualSplitterSize);
    }
    var splitter: seq<Token> := [];
    if g.visualSplitterSize != 0 && i != 0 && i % g.visualSplitterSize == 0 {
      splitter := Glyphs(g.visualSplitter);
    }
    var cell := WriteCell(g, f, tmp, i);
    var gap: seq<Token> := [];
    if i < g.width - 1 && f.printSize > 1 {
      gap := [Glyph(' ')];
    }
    assert gap == Gap(g, f, i);
    out := splitter + cell + gap;
    if Keeps(f) {
      SlotVisible(g, f, tmp, i);
    }
  }

  /** The cell of slot i. The palette flag is set at the start of every
      column and never cleared, so every data byte gets its own colour
      escape, even inside a run of equal colours. */
  method WriteCell(g: Group, f: ByteFormatter, tmp: seq<bv8>, i: nat) returns (out: seq<Token>)
    requires Valid(g)
    ensures out == Cell(g, f, tmp, i)
    ensures i < |tmp| ==> out[0] == Esc(g.palette[tmp[i] as int]) && out[1..] == f.render(tmp[i])
    ensures i >= |tmp| ==> Count(out, Glyph(PaddingMark)) == f.printSize
  {
    var paddingIndex := |tmp|;
    var changePalette := true;
    out := [];
    if paddingIndex > i {
      if i == 0 || (i > 0 && tmp[i] != tmp[i - 1] && g.palette[tmp[i]] != g.palette[tmp[i - 1]]) {
        changePalette := true;
      }
      if changePalette {
        out := out + [Esc(g.palette[tmp[i]])];
      }
      out := out + f.render(tmp[i]);
    } else {
      if i == paddingIndex {
        out := out + [Esc(g.palette[0])];
      }
      out := out + Repeat(PaddingMark, f.printSize);
      PaddingCounts(g, f, tmp, i);
    }
  }

  // ------------------------------------------------------------ widths

  lemma SlotVisible(g: Group, f: ByteFormatter, tmp: seq<bv8>, i: nat)
    requires Valid(g) && Keeps(f)
    ensures Visible(Slot(g, f, tmp, i))
         == (if SplitBefore(g, i) then 1 else 0) + f.printSize + (if GapAfter(g, f, i) then 1 else 0)
  {
    VisibleConcat(SplitterAt(g, i) + Cell(g, f, tmp, i), Gap(g, f, i));
    VisibleConcat(SplitterAt(g, i), Cell(g, f, tmp, i));
    GlyphsRoundTrip(if SplitBefore(g, i) then g.visualSplitter else "");
    RepeatVisible(' ', if GapAfter(g, f, i) then 1 else 0);
    CellVisible(g, f, tmp, i);
  }

  lemma CellVisible(g: Group, f: ByteFormatter, tmp: seq<bv8>, i: nat)
    requires Keeps(f)
    ensures Visible(Cell(g, f, tmp, i)) == f.printSize
  {
    if i < |tmp| {
      var e := [Esc(g.palette[tmp[i] as int])];
      assert e[..0] == [];
      VisibleConcat(e, f.render(tmp[i]));
    } else {
      var e: seq<Token> := if i == |tmp| then [Esc(g.palette[0])] else [];
      assert |e| == 1 ==> e[..0] == [];
      VisibleConcat(e, Repeat(PaddingMark, f.printSize));
      RepeatVisible(PaddingMark, f.printSize);
    }
  }

  /** The visible width of the first n slots, counted slot by slot. */
  lemma {:induction false} ColumnVisibleUpTo(g: Group, f: ByteFormatter, tmp: seq<bv8>, n: nat)
    requires Valid(g) && Keeps(f) && n <= g.width
    ensures Visible(Join(Slots(g, f, tmp), n))
         == n * f.printSize
          + (if f.printSize > 1 then (if n < g.width then n else g.width - 1) else 0)
          + (if n == 0 then 0 else CountMultiples(n - 1, g.visualSplitterSize))
  {
    if n > 0 {
      var i := n - 1;
      ColumnVisibleUpTo(g, f, tmp, i);
      VisibleConcat(Join(Slots(g, f, tmp), i), Slot(g, f, tmp, i));
      SlotVisible(g, f, tmp, i);
      MulSucc(i, f.printSize);
    }
  }

  /** The visual splitters of a column, counted one slot at a time, match
      the closed form: one per completed group of visualSplitterSize slots. */
  lemma SplittersPerColumn(g: Group)
    requires g.width > 0
    ensures CountMultiples(g.width - 1, g.visualSplitterSize)
         == (if g.visualSplitterSize == 0 then 0 else (g.width - 1) / g.visualSplitterSize)
  {
    if g.visualSplitterSize == 0 {
      NoMultiplesOfZero(g.width - 1);
    } else {
      CountMultiplesIsQuotient(g.width - 1, g.visualSplitterSize);
    }
  }

  /** A column's width depends on the formatter and the group only: a short
      chunk is padded to the same width as a full one. */
  lemma ColumnVisible(g: Group, f: ByteFormatter, tmp: seq<bv8>)
    requires Valid(g) && Keeps(f)
    ensures Visible(Column(g, f, tmp)) == ColumnWidth(g, f)
  {
    ColumnVisibleUpTo(g, f, tmp, g.width);
    SplittersPerColumn(g);
  }

  /** The separator after column d is one grey splitter glyph, or nothing
      after the last column. */
  lemma SeparatorShape(g: Group, d: nat)
    requires Valid(g)
    ensures Visible(Separator(g, d)) == (if d < |g.formatters| - 1 then 1 else 0)
    ensures Count(Separator(g, d), Glyph('┊')) == (if d < |g.formatters| - 1 then 1 else 0)
  {
    if d < |g.formatters| - 1 {
      var e: seq<Token>, s := [Esc(g.splitterBreak)], Glyphs(g.splitter);
      assert s == [Glyph('┊')];
      assert e[..0] == [] && s[..0] == [];
      VisibleConcat(e, s);
      CountConcat(e, s, Glyph('┊'));
    }
  }

  /** Part d of a line is as wide as PartWidth says. */
  lemma PartVisible(g: Group, tmp: seq<bv8>, d: nat)
    requires Valid(g) && FormattersValid(g) && d < |g.formatters|
    ensures Visible(Columns(g, tmp)(d)) == PartWidth(g, d)
  {
    var f := g.formatters[d];
    assert Columns(g, tmp)(d) == Column(g, f, tmp) + Separator(g, d);
    VisibleConcat(Column(g, f, tmp), Separator(g, d));
    ColumnVisible(g, f, tmp);
    SeparatorShape(g, d);
  }

  /** Every line of a group is as wide as LineWidth says, whatever the
      chunk: what the dump's alignment rests on. */
  lemma LineVisible(g: Group, tmp: seq<bv8>)
    requires Valid(g) && FormattersValid(g)
    ensures Visible(Line(g, tmp)) == LineWidth(g)
  {
    forall d | 0 <= d < |g.formatters|
      ensures Visible(Columns(g, tmp)(d)) == PartWidths(g)(d)
    {
      PartVisible(g, tmp, d);
    }
    JoinVisible(Columns(g, tmp), PartWidths(g), |g.formatters|);
  }

  /** The short last chunk of a file renders exactly as wide as a full one. */
  lemma LinesAligned(g: Group, tmp1: seq<bv8>, tmp2: seq<bv8>)
    requires Valid(g) && FormattersValid(g)
    ensures Visible(Line(g, tmp1)) == Visible(Line(g, tmp2))
  {
    LineVisible(g, tmp1);
    LineVisible(g, tmp2);
  }

  /** The block formatter declares that it wants no visual splitters, but the
      renderer never asks: a 16-slot block column split every 8 slots still
      takes 17 columns: 16 cells and one visual splitter. */
  lemma BlockColumnIsSplit(g: Group, tmp: seq<bv8>)
    requires Valid(g) && g.width == 16 && g.visualSplitterSize == 8
    ensures !BF.UseSplitter(BF.NewBlock())
    ensures Visible(Column(g, Of(BF.NewBlock()), tmp)) == 17
  {
    OfKeeps(BF.NewBlock());
    ColumnVisible(g, Of(BF.NewBlock()), tmp);
  }

  // ------------------------------------------------------------ structure

  /** Where slot i starts in its column: after the first i slots. */
  function SlotStart(g: Group, f: ByteFormatter, tmp: seq<bv8>, i: nat): nat
  {
    |Join(Slots(g, f, tmp), i)|
  }

  /** Slot i of a column starts right after the first i slots. */
  lemma SlotPlacement(g: Group, f: ByteFormatter, tmp: seq<bv8>, i: nat)
    requires i < g.width
    ensures SlotStart(g, f, tmp, i) + |Slot(g, f, tmp, i)| <= |Column(g, f, tmp)|
    ensures Column(g, f, tmp)[SlotStart(g, f, tmp, i)..SlotStart(g, f, tmp, i) + |Slot(g, f, tmp, i)|]
         == Slot(g, f, tmp, i)
  {
    JoinPlacement(Slots(g, f, tmp), i, g.width);
    assert Slots(g, f, tmp)(i) == Slot(g, f, tmp, i);
  }

  /** For a data byte, slot i shows the byte's palette escape right after
      the visual splitter, immediately followed by the formatter's output;
      with SlotPlacement this places every byte's colour and text in its
      column. */
  lemma DataPlacement(g: Group, f: ByteFormatter, tmp: seq<bv8>, i: nat)
    requires i < |tmp|
    ensures |SplitterAt(g, i)| + 1 + |f.render(tmp[i])| <= |Slot(g, f, tmp, i)|
    ensures Slot(g, f, tmp, i)[|SplitterAt(g, i)|] == Esc(g.palette[tmp[i] as int])
    ensures Slot(g, f, tmp, i)[|SplitterAt(g, i)| + 1..|SplitterAt(g, i)| + 1 + |f.render(tmp[i])|]
         == f.render(tmp[i])
  {
    var s := Slot(g, f, tmp, i);
    WindowLayout(s, 0, SplitterAt(g, i), Esc(g.palette[tmp[i] as int]), f.render(tmp[i]), Gap(g, f, i));
  }

  /** Bytes beyond Width are never shown: a column of a chunk equals the
      column of its first Width bytes. */
  lemma ColumnTruncates(g: Group, f: ByteFormatter, tmp: seq<bv8>)
    ensures Column(g, f, tmp) == Column(g, f, tmp[..if |tmp| < g.width then |tmp| else g.width])
  {
    var t := tmp[..if |tmp| < g.width then |tmp| else g.width];
    forall i | 0 <= i < g.width
      ensures Slots(g, f, tmp)(i) == Slots(g, f, t)(i)
    {
      assert Cell(g, f, tmp, i) == Cell(g, f, t, i);
    }
    JoinCongruent(Slots(g, f, tmp), Slots(g, f, t), g.width);
  }

  /** The line of a chunk equals the line of its first Width bytes. */
  lemma LineTruncates(g: Group, tmp: seq<bv8>)
    ensures Line(g, tmp) == Line(g, tmp[..if |tmp| < g.width then |tmp| else g.width])
  {
    var t := tmp[..if |tmp| < g.width then |tmp| else g.width];
    forall d | 0 <= d < |g.formatters|
      ensures Columns(g, tmp)(d) == Columns(g, t)(d)
    {
      ColumnTruncates(g, g.formatters[d], tmp);
    }
    JoinCongruent(Columns(g, tmp), Columns(g, t), |g.formatters|);
  }

  // ------------------------------------------------------------ padding

  /** Where the data of a column ends: the chunk's length, at most Width. */
  function DataEnd(g: Group, tmp: seq<bv8>): nat
  {
    if |tmp| < g.width then |tmp| else g.width
  }

  /** The slots of a column past the data. */
  function Padding(g: Group, f: ByteFormatter, tmp: seq<bv8>): seq<Token>
  {
    Join(Shift(Slots(g, f, tmp), DataEnd(g, tmp)), g.width - DataEnd(g, tmp))
  }

  /** The first padding slot starts with palette entry 0, right after its
      visual splitter; no later slot holds an escape. */
  lemma PaddingSlotEscapes(g: Group, f: ByteFormatter, tmp: seq<bv8>, i: nat)
    requires i >= |tmp|
    ensures Escapes(Slot(g, f, tmp, i)) == if i == |tmp| then 1 else 0
    ensures i == |tmp| ==> Slot(g, f, tmp, i)[|SplitterAt(g, i)|] == Esc(g.palette[0])
    ensures Escapes(Slots(g, f, tmp)(i)) == if i == |tmp| then 1 else 0
  {
    SlotsAt(g, f, tmp, i);
    var sp, rep, gap := SplitterAt(g, i), Repeat(PaddingMark, f.printSize), Gap(g, f, i);
    var e: seq<Token> := if i == |tmp| then [Esc(g.palette[0])] else [];
    assert Slot(g, f, tmp, i) == sp + (e + rep) + gap;
    NoEscapes(sp);
    NoEscapes(rep);
    NoEscapes(gap);
    EscapesConcat(e, rep);
    EscapesConcat(sp, e + rep);
    EscapesConcat(sp + (e + rep), gap);
    if i == |tmp| {
      assert e[..0] == [];
      assert (sp + (e + rep) + gap)[|sp|] == e[0];
    }
  }

  /** A column is its data slots followed by its padding slots. When the
      chunk is shorter than Width, palette entry 0 is written exactly once
      in the padding, at its first slot right after the visual splitter;
      otherwise there is no padding and so no such escape. */
  lemma PaddingEscape(g: Group, f: ByteFormatter, tmp: seq<bv8>)
    ensures Column(g, f, tmp) == Join(Slots(g, f, tmp), DataEnd(g, tmp)) + Padding(g, f, tmp)
    ensures Escapes(Padding(g, f, tmp)) == if |tmp| < g.width then 1 else 0
    ensures |tmp| < g.width ==>
              |SplitterAt(g, |tmp|)| < |Padding(g, f, tmp)|
              && Padding(g, f, tmp)[|SplitterAt(g, |tmp|)|] == Esc(g.palette[0])
  {
    ColumnSplit(g, f, tmp);
    PaddingCount(g, f, tmp);
    if |tmp| < g.width {
      PaddingFirst(g, f, tmp);
    }
  }

  /** A column is its data slots followed by its padding slots. */
  lemma ColumnSplit(g: Group, f: ByteFormatter, tmp: seq<bv8>)
    ensures Column(g, f, tmp) == Join(Slots(g, f, tmp), DataEnd(g, tmp)) + Padding(g, f, tmp)
  {
    ColumnIsJoin(g, f, tmp);
    PaddingIsJoin(g, f, tmp);
    JoinSplit(Slots(g, f, tmp), DataEnd(g, tmp), g.width,
              Column(g, f, tmp), Join(Slots(g, f, tmp), DataEnd(g, tmp)), Padding(g, f, tmp));
  }

  lemma ColumnIsJoin(g: Group, f: ByteFormatter, tmp: seq<bv8>)
    ensures Column(g, f, tmp) == Join(Slots(g, f, tmp), g.width)
  {
  }

  lemma PaddingIsJoin(g: Group, f: ByteFormatter, tmp: seq<bv8>)
    ensures DataEnd(g, tmp) <= g.width
    ensures Padding(g, f, tmp) == Join(Shift(Slots(g, f, tmp), DataEnd(g, tmp)), g.width - DataEnd(g, tmp))
  {
  }

  lemma PaddingCount(g: Group, f: ByteFormatter, tmp: seq<bv8>)
    ensures Escapes(Padding(g, f, tmp)) == if |tmp| < g.width then 1 else 0
  {
    PaddingSlots(g, f, tmp);
    PaddedJoinEscapes(Slots(g, f, tmp), DataEnd(g, tmp), g.width - DataEnd(g, tmp));
  }

  /** Past the data, the first slot holds one escape and the others none. */
  lemma PaddingSlots(g: Group, f: ByteFormatter, tmp: seq<bv8>)
    ensures OneEscapeFirst(Slots(g, f, tmp), DataEnd(g, tmp), g.width - DataEnd(g, tmp))
  {
    forall i | |tmp| < i
      ensures Escapes(Slots(g, f, tmp)(i)) == 0
    {
      PaddingSlotEscapes(g, f, tmp, i);
    }
    if |tmp| < g.width {
      PaddingSlotEscapes(g, f, tmp, |tmp|);
    }
  }

  lemma SlotsAt(g: Group, f: ByteFormatter, tmp: seq<bv8>, i: nat)
    ensures Slots(g, f, tmp)(i) == Slot(g, f, tmp, i)
  {
  }

  lemma PaddingFirst(g: Group, f: ByteFormatter, tmp: seq<bv8>)
    requires |tmp| < g.width
    ensures |SplitterAt(g, |tmp|)| < |Padding(g, f, tmp)|
    ensures Padding(g, f, tmp)[|SplitterAt(g, |tmp|)|] == Esc(g.palette[0])
  {
    var m := DataEnd(g, tmp);
    assert m == |tmp|;
    var parts := Shift(Slots(g, f, tmp), m);
    var pad := Join(parts, g.width - m);
    assert pad == Padding(g, f, tmp);
    var slot := Slot(g, f, tmp, m);
    var sp := |SplitterAt(g, m)|;
    PaddingSlotEscapes(g, f, tmp, m);
    assert sp < |slot| && slot[sp] == Esc(g.palette[0]);
    FirstPart(parts, g.width - m);
    assert parts(0) == slot;
    assert pad[sp] == slot[sp];
  }

  // ------------------------------------------------------------ counts

  /** Within a slot the column splitter never appears, and padding marks
      appear exactly in the slots past the end of the chunk. */
  lemma SlotCounts(g: Group, f: ByteFormatter, tmp: seq<bv8>, i: nat)
    requires Valid(g) && Keeps(f)
    ensures Count(Slot(g, f, tmp, i), Glyph('┊')) == 0
    ensures Count(Slot(g, f, tmp, i), Glyph(PaddingMark)) == (if i < |tmp| then 0 else f.printSize)
  {
    var sp, c, gap := SplitterAt(g, i), Cell(g, f, tmp, i), Gap(g, f, i);
    CountConcat(sp + c, gap, Glyph('┊'));
    CountConcat(sp, c, Glyph('┊'));
    CountConcat(sp + c, gap, Glyph(PaddingMark));
    CountConcat(sp, c, Glyph(PaddingMark));
    CountGlyphsAbsent(if SplitBefore(g, i) then g.visualSplitter else "", '┊');
    CountGlyphsAbsent(if SplitBefore(g, i) then g.visualSplitter else "", PaddingMark);
    CountRepeatOther(' ', if GapAfter(g, f, i) then 1 else 0, Glyph('┊'));
    CountRepeatOther(' ', if GapAfter(g, f, i) then 1 else 0, Glyph(PaddingMark));
    CellCounts(g, f, tmp, i);
  }

  lemma CellCounts(g: Group, f: ByteFormatter, tmp: seq<bv8>, i: nat)
    requires Keeps(f)
    ensures Count(Cell(g, f, tmp, i), Glyph('┊')) == 0
    ensures Count(Cell(g, f, tmp, i), Glyph(PaddingMark)) == (if i < |tmp| then 0 else f.printSize)
  {
    if i < |tmp| {
      var e := [Esc(g.palette[tmp[i] as int])];
      assert e[..0] == [];
      CountConcat(e, f.render(tmp[i]), Glyph('┊'));
      CountConcat(e, f.render(tmp[i]), Glyph(PaddingMark));
    } else {
      PaddingCounts(g, f, tmp, i);
    }
  }

  /** A cell past the end of the chunk holds printSize padding marks. */
  lemma PaddingCounts(g: Group, f: ByteFormatter, tmp: seq<bv8>, i: nat)
    requires i >= |tmp|
    ensures Count(Cell(g, f, tmp, i), Glyph('┊')) == 0
    ensures Count(Cell(g, f, tmp, i), Glyph(PaddingMark)) == f.printSize
  {
    var e: seq<Token> := if i == |tmp| then [Esc(g.palette[0])] else [];
    assert |e| == 1 ==> e[..0] == [];
    CountConcat(e, Repeat(PaddingMark, f.printSize), Glyph('┊'));
    CountConcat(e, Repeat(PaddingMark, f.printSize), Glyph(PaddingMark));
    CountRepeatOther(PaddingMark, f.printSize, Glyph('┊'));
    RepeatVisible(PaddingMark, f.printSize);
  }

  /** A column of a short chunk carries printSize padding marks for each
      missing byte, and no column splitter. */
  lemma ColumnCounts(g: Group, f: ByteFormatter, tmp: seq<bv8>)
    requires Valid(g) && Keeps(f)
    ensures Count(Column(g, f, tmp), Glyph('┊')) == 0
    ensures Count(Column(g, f, tmp), Glyph(PaddingMark))
         == (if g.width <= |tmp| then 0 else (g.width - |tmp|) * f.printSize)
  {
    forall i | 0 <= i < g.width
      ensures Count(Slots(g, f, tmp)(i), Glyph('┊')) == 0
      ensures Count(Slots(g, f, tmp)(i), Glyph(PaddingMark)) == (if i < |tmp| then 0 else f.printSize)
    {
      SlotCounts(g, f, tmp, i);
    }
    JoinCount(Slots(g, f, tmp), g.width, 0, Glyph('┊'), 0);
    JoinCount(Slots(g, f, tmp), g.width, |tmp|, Glyph(PaddingMark), f.printSize);
  }

  /** Exactly one column splitter between each two consecutive columns and
      none after the last. */
  lemma SplitterCount(g: Group, tmp: seq<bv8>)
    requires Valid(g) && FormattersValid(g)
    ensures Count(Line(g, tmp), Glyph('┊')) == (if |g.formatters| == 0 then 0 else |g.formatters| - 1)
  {
    var n := |g.formatters|;
    forall d | 0 <= d < n
      ensures Count(Columns(g, tmp)(d), Glyph('┊')) == (if d < n - 1 then 1 else 0)
    {
      CountConcat(Column(g, g.formatters[d], tmp), Separator(g, d), Glyph('┊'));
      ColumnCounts(g, g.formatters[d], tmp);
      SeparatorShape(g, d);
    }
    if n > 0 {
      JoinCount(Columns(g, tmp), n - 1, 0, Glyph('┊'), 1);
      CountConcat(Join(Columns(g, tmp), n - 1), Columns(g, tmp)(n - 1), Glyph('┊'));
    }
  }
}
