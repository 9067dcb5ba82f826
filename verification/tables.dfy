/** The per-byte lookup tables the byte formatters index (HexByteToString,
    DecByteToString, octByteToString, bitByteToString, AsciiByteToChar).
    Their entries follow the older formatters' fmt verbs %02x, %03d, %03o
    and %08b and the printable-ASCII rule. The width properties rely on
    their widths 2, 3, 3, 8 and 1; the properties that no formatter draws a
    column splitter or a padding mark rely on their entries being ASCII. */
module ByteTables {

  import opened Arith
  import opened Numerals

  function HexByteToString(b: bv8): (r: string)
    ensures |r| == 2 && IsNumeral(r, 16) && Value(r, 16) == b as nat
  {
    Padded(b as nat, 16, 2)
  }

  function DecByteToString(b: bv8): (r: string)
    ensures |r| == 3 && IsNumeral(r, 10) && Value(r, 10) == b as nat
  {
    Padded(b as nat, 10, 3)
  }

  function OctByteToString(b: bv8): (r: string)
    ensures |r| == 3 && IsNumeral(r, 8) && Value(r, 8) == b as nat
  {
    Padded(b as nat, 8, 3)
  }

  function BitByteToString(b: bv8): (r: string)
    ensures |r| == 8 && IsNumeral(r, 2) && Value(r, 2) == b as nat
  {
    Padded(b as nat, 2, 8)
  }

  /** Printable ASCII (32..126) stands for itself, anything else is a dot. */
  function AsciiByteToChar(b: bv8): (c: char)
    ensures 32 <= c as int <= 126
    ensures (32 <= b as int <= 126) <==> c as int == b as int
  {
    if 32 <= b as int <= 126 then (b as int) as char else '.'
  }

  /** A byte written in `base`, zero-padded to the `w` digits that hold 255. */
  function Padded(n: nat, base: nat, w: nat): (r: string)
    requires 2 <= base <= 16 && w >= 1 && n < Pow(base, w)
    ensures |r| == w && IsNumeral(r, base) && Value(r, base) == n
  {
    DigitsFit(n, base, w);
    ValueOfDigits(n, base);
    ValueZeroPad(Digits(n, base), w, base);
    ZeroPad(Digits(n, base), w)
  }
}
