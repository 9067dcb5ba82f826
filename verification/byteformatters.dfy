/** The per-byte formatters: each turns one byte into a fixed number of
    visible glyphs, declares that number as its print size, and says whether
    it wants visual splitters. Composites render a primary formatter and then
    an auxiliary table entry in brackets. */
module ByteFormatters {

  import opened Tokens
  import opened Ansi
  import opened ByteTables
  import opened Numerals

  datatype Formatter =
    | HexPrinter
    | DecimalPrinter
    | OctalPrinter
    | AsciiPrinter
    | BitPrinter
    | BlockPrinter(useSplitter: bool)
      /** A composite holds its primary formatter `p` and two colour escapes. */
    | HexWithAscii(p: Formatter, hilightBreak: string, specialBreak: string)
    | DecWithAscii(p: Formatter, hilightBreak: string, specialBreak: string)
    | BitWithAscii(p: Formatter, hilightBreak: string, specialBreak: string)
    | BitWithHex(p: Formatter, hilightBreak: string, specialBreak: string)
    | BitWithDecimal(p: Formatter, hilightBreak: string, specialBreak: string)

  /** block.New: no visual splitters wanted. */
  function NewBlock(): (f: Formatter)
    ensures !UseSplitter(f) && PrintSize(f) == 1
  {
    BlockPrinter(false)
  }

  /** The composite constructors install the primary each composite is
      written for and keep both break strings as given. */
  function NewHexWithAscii(hilightBreak: string, specialBreak: string): Formatter
  {
    HexWithAscii(HexPrinter, hilightBreak, specialBreak)
  }

  function NewDecWithAscii(hilightBreak: string, specialBreak: string): Formatter
  {
    DecWithAscii(DecimalPrinter, hilightBreak, specialBreak)
  }

  function NewBitWithAscii(hilightBreak: string, specialBreak: string): Formatter
  {
    BitWithAscii(BitPrinter, hilightBreak, specialBreak)
  }

  function NewBitWithHex(hilightBreak: string, specialBreak: string): Formatter
  {
    BitWithHex(BitPrinter, hilightBreak, specialBreak)
  }

  function NewBitWithDecimal(hilightBreak: string, specialBreak: string): Formatter
  {
    BitWithDecimal(BitPrinter, hilightBreak, specialBreak)
  }

  /** Each composite constructor installs its own primary, keeps both break
      strings as given, and yields a formatter that wants splitters. */
  lemma NewComposites(h: string, s: string)
    ensures var f := NewHexWithAscii(h, s);
      Valid(f) && f.p == HexPrinter && f.hilightBreak == h && f.specialBreak == s && UseSplitter(f)
    ensures var f := NewDecWithAscii(h, s);
      Valid(f) && f.p == DecimalPrinter && f.hilightBreak == h && f.specialBreak == s && UseSplitter(f)
    ensures var f := NewBitWithAscii(h, s);
      Valid(f) && f.p == BitPrinter && f.hilightBreak == h && f.specialBreak == s && UseSplitter(f)
    ensures var f := NewBitWithHex(h, s);
      Valid(f) && f.p == BitPrinter && f.hilightBreak == h && f.specialBreak == s && UseSplitter(f)
    ensures var f := NewBitWithDecimal(h, s);
      Valid(f) && f.p == BitPrinter && f.hilightBreak == h && f.specialBreak == s && UseSplitter(f)
  {
  }

  /** A formatter as its constructor builds it: every composite holds the
      primary its constructor installs. */
  predicate Valid(f: Formatter)
  {
    match f
    case HexWithAscii(p, _, _) => p == HexPrinter
    case DecWithAscii(p, _, _) => p == DecimalPrinter
    case BitWithAscii(p, _, _) => p == BitPrinter
    case BitWithHex(p, _, _) => p == BitPrinter
    case BitWithDecimal(p, _, _) => p == BitPrinter
    case _ => true
  }

  /** GetPrintSize: the declared number of visible characters per byte. It
      is one exactly for the formatters the renderer writes no space after. */
  function PrintSize(f: Formatter): (n: nat)
    ensures 1 <= n <= 14
    ensures n == 1 <==> f.AsciiPrinter? || f.BlockPrinter?
  {
    match f
    case HexPrinter => 2
    case DecimalPrinter => 3
    case OctalPrinter => 3
    case AsciiPrinter => 1
    case BitPrinter => 8
    case BlockPrinter(_) => 1
    case HexWithAscii(_, _, _) => 6
    case DecWithAscii(_, _, _) => 7
    case BitWithAscii(_, _, _) => 12
    case BitWithHex(_, _, _) => 13
    case BitWithDecimal(_, _, _) => 14
  }

  /** UseSplitter: only a block formatter can decline visual splitters. */
  function UseSplitter(f: Formatter): (u: bool)
    ensures !f.BlockPrinter? ==> u
  {
    match f
    case BlockPrinter(u) => u
    case _ => true
  }

  /** The bit printer's loop over the characters of its table entry: the
      underline is switched on before the first character and off after the
      fourth. */
  function Underlined(s: string): seq<Token>
  {
    if |s| == 0 then []
    else
      var i := |s| - 1;
      Underlined(s[..i])
      + (if i == 0 then [Esc(SetUnderlineOn)] else [])
      + [Glyph(s[i])]
      + (if i == 3 then [Esc(SetUnderlineOff)] else [])
  }

  /** The tail every composite appends: " ", special, "[", hilight, the
      auxiliary text, special, "]". */
  function Bracketed(hilightBreak: string, specialBreak: string, aux: string): seq<Token>
  {
    [Glyph(' '), Esc(specialBreak), Glyph('['), Esc(hilightBreak)] + Glyphs(aux) + [Esc(specialBreak), Glyph(']')]
  }

  /** A formatter that prints a primary and a bracketed auxiliary text. */
  predicate IsComposite(f: Formatter)
  {
    f.HexWithAscii? || f.DecWithAscii? || f.BitWithAscii? || f.BitWithHex? || f.BitWithDecimal?
  }

  /** Print: for every formatter as its constructor builds it, exactly
      GetPrintSize() visible characters, which once escapes are removed read
      as the plain text below. */
  function Print(f: Formatter, b: bv8): (r: seq<Token>)
    ensures Valid(f) ==> Visible(r) == PrintSize(f)
    ensures Valid(f) ==> Strip(r) == PlainText(f, b)
    decreases f, 1
  {
    if IsComposite(f) then CompositePrint(f, b) else SimplePrint(f, b)
  }

  /** The six formatters that print one table entry or one glyph. */
  function SimplePrint(f: Formatter, b: bv8): (r: seq<Token>)
    requires !IsComposite(f)
    ensures Visible(r) == PrintSize(f)
    ensures Strip(r) == PlainText(f, b)
  {
    match f
    case HexPrinter => GlyphsRoundTrip(HexByteToString(b)); Glyphs(HexByteToString(b))
    case DecimalPrinter => GlyphsRoundTrip(DecByteToString(b)); Glyphs(DecByteToString(b))
    case OctalPrinter => GlyphsRoundTrip(OctByteToString(b)); Glyphs(OctByteToString(b))
    case AsciiPrinter => [Glyph(AsciiByteToChar(b))]
    case BitPrinter => UnderlinedText(BitByteToString(b)); Underlined(BitByteToString(b))
    case BlockPrinter(_) => [Glyph('█')]
  }

  /** The auxiliary table entry a composite shows in brackets. */
  function AuxText(f: Formatter, b: bv8): (aux: string)
    requires IsComposite(f)
    ensures Valid(f) ==> PrintSize(f) == PrintSize(f.p) + |aux| + 3
    ensures Valid(f) ==> PlainText(f, b) == PlainText(f.p, b) + " [" + aux + "]"
  {
    if f.BitWithHex? then BitHexAux(f, b); HexByteToString(b)
    else if f.BitWithDecimal? then BitDecAux(f, b); DecByteToString(b)
    else AsciiAux(f, b); [AsciiByteToChar(b)]
  }

  /** The three composites that bracket the ASCII character. */
  lemma AsciiAux(f: Formatter, b: bv8)
    requires f.HexWithAscii? || f.DecWithAscii? || f.BitWithAscii?
    ensures Valid(f) ==> PrintSize(f) == PrintSize(f.p) + 4
    ensures Valid(f) ==> PlainText(f, b) == PlainText(f.p, b) + " [" + [AsciiByteToChar(b)] + "]"
  {
  }

  /** Bit with hex brackets the hex entry. */
  lemma BitHexAux(f: Formatter, b: bv8)
    requires f.BitWithHex?
    ensures Valid(f) ==> PrintSize(f) == PrintSize(f.p) + |HexByteToString(b)| + 3
    ensures Valid(f) ==> PlainText(f, b) == PlainText(f.p, b) + " [" + HexByteToString(b) + "]"
  {
  }

  /** Bit with decimal brackets the decimal entry. */
  lemma BitDecAux(f: Formatter, b: bv8)
    requires f.BitWithDecimal?
    ensures Valid(f) ==> PrintSize(f) == PrintSize(f.p) + |DecByteToString(b)| + 3
    ensures Valid(f) ==> PlainText(f, b) == PlainText(f.p, b) + " [" + DecByteToString(b) + "]"
  {
  }

  /** A composite: its primary's output, then " ", special, "[", hilight,
      the auxiliary text, special, "]". */
  function CompositePrint(f: Formatter, b: bv8): (r: seq<Token>)
    requires IsComposite(f)
    ensures Valid(f) ==> Visible(r) == PrintSize(f)
    ensures Valid(f) ==> Strip(r) == PlainText(f, b)
    decreases f, 0
  {
    var aux := AuxText(f, b);
    var t := Print(f.p, b);
    CompositeText(t, f.hilightBreak, f.specialBreak, aux);
    t + Bracketed(f.hilightBreak, f.specialBreak, aux)
  }

  /** The plain text of each formatter, written independently of Print. */
  function PlainText(f: Formatter, b: bv8): string
  {
    match f
    case HexPrinter => HexByteToString(b)
    case DecimalPrinter => DecByteToString(b)
    case OctalPrinter => OctByteToString(b)
    case AsciiPrinter => [AsciiByteToChar(b)]
    case BitPrinter => BitByteToString(b)
    case BlockPrinter(_) => "█"
    case HexWithAscii(_, _, _) => HexByteToString(b) + " [" + [AsciiByteToChar(b)] + "]"
    case DecWithAscii(_, _, _) => DecByteToString(b) + " [" + [AsciiByteToChar(b)] + "]"
    case BitWithAscii(_, _, _) => BitByteToString(b) + " [" + [AsciiByteToChar(b)] + "]"
    case BitWithHex(_, _, _) => BitByteToString(b) + " [" + HexByteToString(b) + "]"
    case BitWithDecimal(_, _, _) => BitByteToString(b) + " [" + DecByteToString(b) + "]"
  }

  // ---------------------------------------------------------------- lemmas

  /** From the fourth character on, the bit loop has emitted exactly: the
      underline-on escape, four underlined characters, the underline-off
      escape, then the remaining characters plain. */
  lemma {:induction false} UnderlinedShape(s: string)
    requires |s| >= 4
    ensures Underlined(s) == [Esc(SetUnderlineOn)] + Glyphs(s[..4]) + [Esc(SetUnderlineOff)] + Glyphs(s[4..])
  {
    var n := |s|;
    if n == 4 {
      UnderlinedFour(s);
      assert s[..4] == s && s[4..] == [];
    } else {
      UnderlinedShape(s[..n - 1]);
      assert s[..n - 1][..4] == s[..4];
      assert Glyphs(s[4..]) == Glyphs(s[4..n - 1]) + [Glyph(s[n - 1])] by {
        assert s[4..][..|s[4..]| - 1] == s[4..n - 1];
      }
    }
  }

  /** The first four characters: underline on, four glyphs, underline off. */
  lemma UnderlinedFour(s: string)
    requires |s| == 4
    ensures Underlined(s) == [Esc(SetUnderlineOn)] + Glyphs(s) + [Esc(SetUnderlineOff)]
  {
    assert s[..1][..0] == [];
    assert Underlined(s[..1]) == [Esc(SetUnderlineOn), Glyph(s[0])];
    assert s[..2][..1] == s[..1];
    assert Underlined(s[..2]) == [Esc(SetUnderlineOn), Glyph(s[0]), Glyph(s[1])];
    assert s[..3][..2] == s[..2];
    assert Underlined(s[..3]) == [Esc(SetUnderlineOn), Glyph(s[0]), Glyph(s[1]), Glyph(s[2])];
    assert s[..4][..3] == s[..3];
    assert s[..4] == s;
    assert Glyphs(s) == [Glyph(s[0]), Glyph(s[1]), Glyph(s[2]), Glyph(s[3])];
  }

  /** Without its two escapes the bit printer shows exactly the table entry:
      eight glyphs, the first four underlined. */
  lemma BitPrintShape(b: bv8)
    ensures Print(BitPrinter, b)
         == [Esc(SetUnderlineOn)] + Glyphs(BitByteToString(b)[..4]) + [Esc(SetUnderlineOff)] + Glyphs(BitByteToString(b)[4..])
    ensures Strip(Print(BitPrinter, b)) == BitByteToString(b)
    ensures Count(Print(BitPrinter, b), Esc(SetUnderlineOn)) == 1
  {
    var s := BitByteToString(b);
    BitPrintIsUnderlined(b);
    UnderlinedShape(s);
    ShapeFacts(s);
  }

  lemma BitPrintIsUnderlined(b: bv8)
    ensures Print(BitPrinter, b) == Underlined(BitByteToString(b))
  {
    assert !IsComposite(BitPrinter);
  }

  /** The underlined shape shows its string and turns underlining on once. */
  lemma ShapeFacts(s: string)
    requires |s| >= 4
    ensures Strip([Esc(SetUnderlineOn)] + Glyphs(s[..4]) + [Esc(SetUnderlineOff)] + Glyphs(s[4..])) == s
    ensures Count([Esc(SetUnderlineOn)] + Glyphs(s[..4]) + [Esc(SetUnderlineOff)] + Glyphs(s[4..]), Esc(SetUnderlineOn)) == 1
  {
    var a, c := Glyphs(s[..4]), Glyphs(s[4..]);
    StripConcat([Esc(SetUnderlineOn)] + a + [Esc(SetUnderlineOff)], c);
    StripConcat([Esc(SetUnderlineOn)] + a, [Esc(SetUnderlineOff)]);
    StripConcat([Esc(SetUnderlineOn)], a);
    GlyphsRoundTrip(s[..4]);
    GlyphsRoundTrip(s[4..]);
    assert s == s[..4] + s[4..];
    CountConcat([Esc(SetUnderlineOn)] + a + [Esc(SetUnderlineOff)], c, Esc(SetUnderlineOn));
    CountConcat([Esc(SetUnderlineOn)] + a, [Esc(SetUnderlineOff)], Esc(SetUnderlineOn));
    CountConcat([Esc(SetUnderlineOn)], a, Esc(SetUnderlineOn));
    CountGlyphsAbsentEsc(s[..4], SetUnderlineOn);
    CountGlyphsAbsentEsc(s[4..], SetUnderlineOn);
  }

  lemma {:induction false} CountGlyphsAbsentEsc(s: string, e: string)
    ensures Count(Glyphs(s), Esc(e)) == 0
  {
    if |s| > 0 {
      CountGlyphsAbsentEsc(s[..|s| - 1], e);
      assert Glyphs(s)[..|s| - 1] == Glyphs(s[..|s| - 1]);
    }
  }

  lemma BracketedVisible(h: string, s: string, aux: string)
    ensures Visible(Bracketed(h, s, aux)) == |aux| + 3
    ensures Strip(Bracketed(h, s, aux)) == " [" + aux + "]"
  {
    var head := [Glyph(' '), Esc(s), Glyph('['), Esc(h)];
    var tail := [Esc(s), Glyph(']')];
    StripConcat(head + Glyphs(aux), tail);
    StripConcat(head, Glyphs(aux));
    GlyphsRoundTrip(aux);
    BracketEnds(h, s);
    VisibleIsStripLength(Bracketed(h, s, aux));
  }

  /** The fixed parts of the bracketed tail show " [" and "]". */
  lemma BracketEnds(h: string, s: string)
    ensures Strip([Glyph(' '), Esc(s), Glyph('['), Esc(h)]) == " ["
    ensures Strip([Esc(s), Glyph(']')]) == "]"
  {
    var head := [Glyph(' '), Esc(s), Glyph('['), Esc(h)];
    var tail := [Esc(s), Glyph(']')];
    assert head[..3] == [Glyph(' '), Esc(s), Glyph('[')];
    assert head[..3][..2] == [Glyph(' '), Esc(s)];
    assert head[..3][..2][..1] == [Glyph(' ')];
    assert [Glyph(' ')][..0] == [];
    assert Strip([Glyph(' ')]) == " ";
    assert Strip(head[..3][..2]) == " ";
    assert Strip(head[..3]) == " [";
    assert tail[..1] == [Esc(s)];
    assert [Esc(s)][..0] == [];
    assert Strip(tail[..1]) == [];
  }

  /** The bit loop shows its string, one column per character, for any
      string of at least four characters. */
  lemma UnderlinedText(s: string)
    requires |s| >= 4
    ensures Strip(Underlined(s)) == s
    ensures Visible(Underlined(s)) == |s|
  {
    UnderlinedShape(s);
    ShapeFacts(s);
    VisibleIsStripLength(Underlined(s));
  }

  /** A composite's tail adds its auxiliary text and three glyphs to what
      the primary shows: " [", the text, "]". */
  lemma CompositeText(t: seq<Token>, h: string, s: string, aux: string)
    ensures Visible(t + Bracketed(h, s, aux)) == Visible(t) + |aux| + 3
    ensures Strip(t + Bracketed(h, s, aux)) == Strip(t) + " [" + aux + "]"
  {
    VisibleConcat(t, Bracketed(h, s, aux));
    StripConcat(t, Bracketed(h, s, aux));
    BracketedVisible(h, s, aux);
  }

  /** Every glyph a formatter draws is ASCII or the full block; in particular
      none of them is a column splitter or a padding mark. */
  predicate Narrow(ts: seq<Token>)
  {
    forall i :: 0 <= i < |ts| && ts[i].Glyph? ==> ts[i].c as int < 0x80 || ts[i].c == '█'
  }

  lemma NarrowConcat(a: seq<Token>, b: seq<Token>)
    requires Narrow(a) && Narrow(b)
    ensures Narrow(a + b)
  {
    forall i | 0 <= i < |a + b| && (a + b)[i].Glyph?
      ensures (a + b)[i].c as int < 0x80 || (a + b)[i].c == '█'
    {
      if i >= |a| {
        assert (a + b)[i] == b[i - |a|];
      }
    }
  }

  lemma NarrowGlyphs(s: string)
    requires forall i :: 0 <= i < |s| ==> s[i] as int < 0x80
    ensures Narrow(Glyphs(s))
  {
  }

  lemma NarrowNumeral(s: string, base: nat)
    requires IsNumeral(s, base)
    ensures Narrow(Glyphs(s))
  {
    NarrowGlyphs(s);
  }

  lemma PrintNarrow(f: Formatter, b: bv8)
    ensures Narrow(Print(f, b))
  {
    if IsComposite(f) {
      PrintNarrow(f.p, b);
      CompositeCaseNarrow(f, b);
    } else {
      PlainNarrow(f, b);
    }
  }

  lemma PlainNarrow(f: Formatter, b: bv8)
    requires !IsComposite(f)
    ensures Narrow(Print(f, b))
  {
    match f
    case HexPrinter => NarrowNumeral(HexByteToString(b), 16);
    case DecimalPrinter => NarrowNumeral(DecByteToString(b), 10);
    case OctalPrinter => NarrowNumeral(OctByteToString(b), 8);
    case AsciiPrinter =>
    case BitPrinter => NarrowUnderlined(BitByteToString(b));
    case BlockPrinter(_) =>
  }

  lemma CompositeCaseNarrow(f: Formatter, b: bv8)
    requires IsComposite(f)
    requires Narrow(Print(f.p, b))
    ensures Narrow(Print(f, b))
  {
    var aux := AuxText(f, b);
    assert Narrow(Glyphs(aux)) by {
      match f
      case HexWithAscii(_, _, _) =>
      case DecWithAscii(_, _, _) =>
      case BitWithAscii(_, _, _) =>
      case BitWithHex(_, _, _) => NarrowNumeral(HexByteToString(b), 16);
      case BitWithDecimal(_, _, _) => NarrowNumeral(DecByteToString(b), 10);
    }
    CompositeNarrow(f.p, f.hilightBreak, f.specialBreak, b, aux);
  }

  lemma {:induction false} NarrowUnderlined(s: string)
    requires IsNumeral(s, 2)
    ensures Narrow(Underlined(s))
  {
    if |s| > 0 {
      var i := |s| - 1;
      assert IsNumeral(s[..i], 2);
      NarrowUnderlined(s[..i]);
      var tail := (if i == 0 then [Esc(SetUnderlineOn)] else []) + [Glyph(s[i])]
                  + (if i == 3 then [Esc(SetUnderlineOff)] else []);
      assert Narrow(tail);
      assert Underlined(s) == Underlined(s[..i]) + tail;
      NarrowConcat(Underlined(s[..i]), tail);
    }
  }

  lemma CompositeNarrow(p: Formatter, h: string, s: string, b: bv8, aux: string)
    requires Narrow(Print(p, b)) && Narrow(Glyphs(aux))
    ensures Narrow(Print(p, b) + Bracketed(h, s, aux))
  {
    NarrowBracketed(h, s, aux);
    NarrowConcat(Print(p, b), Bracketed(h, s, aux));
  }

  lemma NarrowBracketed(h: string, s: string, aux: string)
    requires Narrow(Glyphs(aux))
    ensures Narrow(Bracketed(h, s, aux))
  {
    var head := [Glyph(' '), Esc(s), Glyph('['), Esc(h)];
    var tail := [Esc(s), Glyph(']')];
    assert Narrow(head) && Narrow(tail);
    NarrowConcat(head, Glyphs(aux));
    NarrowConcat(head + Glyphs(aux), tail);
  }

  /** A glyph outside ASCII other than the full block is never counted in
      narrow output. */
  lemma NarrowAvoids(ts: seq<Token>, c: char)
    requires Narrow(ts) && c as int >= 0x80 && c != '█'
    ensures Count(ts, Glyph(c)) == 0
  {
    CountAbsent(ts, Glyph(c));
  }
}
