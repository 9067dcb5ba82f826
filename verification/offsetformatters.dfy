/** The reader's zero-padded offset formatters: the position of a line in
    hexadecimal, decimal or octal, padded with zeros to a width taken from
    the file size hint, with a floor of 8 hexadecimal or 6 decimal or octal
    digits. A file size of -1 stands for "unknown" (standard input). */
module OffsetFormatters {

  import opened Numerals
  import opened GoInts

  datatype Radix = Hex | Decimal | Octal

  function Base(radix: Radix): (base: nat)
    ensures 2 <= base <= 16
  {
    match radix
    case Hex => 16
    case Decimal => 10
    case Octal => 8
  }

  /** minimalSize: the fewest digits an offset is padded to. */
  function MinimalSize(radix: Radix): nat
  {
    match radix
    case Hex => 8
    case Decimal => 6
    case Octal => 6
  }

  /** A printer keeps its file size hint and the pad width `size`, which
      is also what GetFormatWidth reports; its format string is the '0'
      flag with that width. */
  datatype Printer = Printer(radix: Radix, fileSize: int, size: nat)

  /** New: the width is the length of the file size written with the
      printer's verb (%x, %d or %o, signed), raised to the floor. */
  function New(radix: Radix, fileSize: int): (p: Printer)
    requires IsInt64(fileSize)
    ensures p.radix == radix && p.fileSize == fileSize
    ensures p.size >= MinimalSize(radix) && p.size >= |FormatSigned(fileSize, Base(radix))|
    ensures p.size == MinimalSize(radix) || p.size == |FormatSigned(fileSize, Base(radix))|
  {
    var size := |FormatSigned(fileSize, Base(radix))|;
    Printer(radix, fileSize, if size < MinimalSize(radix) then MinimalSize(radix) else size)
  }

  /** Print: the offset in the printer's base, zero-padded to the width and
      never truncated. */
  function Print(p: Printer, offset: nat): (r: string)
    requires offset < TwoTo64
    ensures IsNumeral(r, Base(p.radix)) && Value(r, Base(p.radix)) == offset
    ensures |r| == if |Digits(offset, Base(p.radix))| <= p.size then p.size else |Digits(offset, Base(p.radix))|
    ensures r[|r| - |Digits(offset, Base(p.radix))|..] == Digits(offset, Base(p.radix))
  {
    var base := Base(p.radix);
    ValueOfDigits(offset, base);
    ValueZeroPad(Digits(offset, base), p.size, base);
    ZeroPad(Digits(offset, base), p.size)
  }

  /** The unknown-size sentinel -1 is written "-1", so the width falls back
      to the floor. */
  lemma UnknownSizeWidth(radix: Radix)
    ensures FormatSigned(-1, Base(radix)) == "-1"
    ensures New(radix, -1).size == MinimalSize(radix)
  {
    assert Digits(1, Base(radix)) == "1";
  }

  /** Every offset inside a file of known size prints at exactly the width. */
  lemma OffsetsWithinFileFit(radix: Radix, fileSize: int, offset: nat)
    requires IsInt64(fileSize) && offset <= fileSize
    ensures |Print(New(radix, fileSize), offset)| == New(radix, fileSize).size
  {
    DigitsLengthMonotone(offset, fileSize, Base(radix));
  }

  /** For offsets that fit the width, comparing the printed strings
      character by character agrees with comparing the offsets. */
  lemma PrintOrder(p: Printer, a: nat, b: nat)
    requires a < TwoTo64 && b < TwoTo64
    requires |Digits(a, Base(p.radix))| <= p.size && |Digits(b, Base(p.radix))| <= p.size
    ensures LexLess(Print(p, a), Print(p, b)) <==> a < b
  {
    LexOrderIsNumericOrder(Print(p, a), Print(p, b), Base(p.radix));
  }
}
