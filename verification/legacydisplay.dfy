/** The older display helpers that are still in the tree: the bit-width
    rounding `nearest`, the hexadecimal viewer's offset width and byte
    format, the ASCII viewer's printable-character rule and the bit
    viewer's byte format. */
module LegacyDisplay {

  import opened Arith
  import opened Numerals
  import opened GoInts
  import opened ByteTables

  // ------------------------------------------------------------ nearest

  /** The integer widths nearest rounds to. */
  predicate IsWidth(w: bv8)
  {
    w == 8 || w == 16 || w == 32 || w == 64
  }

  /** nearest: the smallest of 8, 16, 32 and 64 bits that holds `w` bits;
      anything wider than 64 is clamped to 64. */
  function Nearest(w: bv8): (r: bv8)
    ensures IsWidth(r)
    ensures w <= 64 ==> w <= r
    ensures w > 64 ==> r == 64
    ensures forall c: bv8 :: IsWidth(c) && w <= c ==> r <= c
  {
    if w > 64 then 64
    else if w > 32 then 64
    else if w > 16 then 32
    else if w > 8 then 16
    else 8
  }

  /** The width is determined by the two properties above: a width that
      holds `w` and is no larger than any other such width is Nearest(w). */
  lemma NearestIsSmallest(w: bv8, r: bv8)
    requires w <= 64 && IsWidth(r) && w <= r
    requires forall c: bv8 :: IsWidth(c) && w <= c ==> r <= c
    ensures r == Nearest(w)
  {
    assert IsWidth(Nearest(w));
  }

  /** A wider request never gets a narrower width. */
  lemma NearestMonotone(a: bv8, b: bv8)
    requires a <= b
    ensures Nearest(a) <= Nearest(b)
  {
    if b <= 64 {
      assert IsWidth(Nearest(b)) && a <= Nearest(b);
    }
  }

  /** Rounding a width that is already a width changes nothing. */
  lemma NearestIdempotent(w: bv8)
    ensures Nearest(Nearest(w)) == Nearest(w)
    ensures IsWidth(w) ==> Nearest(w) == w
  {
    if IsWidth(w) {
      assert w <= w;
    }
  }

  /** The package's test table, and the zero width. */
  lemma NearestTable()
    ensures Nearest(1) == 8 && Nearest(7) == 8 && Nearest(8) == 8
    ensures Nearest(9) == 16 && Nearest(15) == 16 && Nearest(16) == 16
    ensures Nearest(17) == 32 && Nearest(31) == 32 && Nearest(32) == 32
    ensures Nearest(33) == 64 && Nearest(63) == 64 && Nearest(64) == 64
    ensures Nearest(0) == 8
  {
  }

  // ------------------------------------------------------------ Hex

  /** The hexadecimal viewer's state: the file size as uint64 and the number
      of digits its offsets are padded to. */
  datatype Hex = Hex(fs: nat, zeroes: nat)

  /** SetFileSize: the size is converted to uint64 (so -1 becomes 2^64 - 1);
      the pad width is its hexadecimal digit count, rounded up to even. */
  function SetFileSize(s: int): (h: Hex)
    requires IsInt64(s)
    ensures h.fs == Uint64Of(s)
    ensures h.zeroes % 2 == 0 && h.zeroes >= 2
    ensures |Digits(h.fs, 16)| <= h.zeroes <= |Digits(h.fs, 16)| + 1
  {
    var fs := Uint64Of(s);
    var zeroes := |Digits(fs, 16)|;
    Hex(fs, if zeroes % 2 != 0 then zeroes + 1 else zeroes)
  }

  /** The pad width counts whole bytes: the file size fits `zeroes / 2`
      bytes, and (beyond one byte) not one byte fewer. */
  lemma ZeroesAreBytes(s: int)
    requires IsInt64(s)
    ensures SetFileSize(s).fs < Pow(256, SetFileSize(s).zeroes / 2)
    ensures SetFileSize(s).zeroes > 2 ==> Pow(256, SetFileSize(s).zeroes / 2 - 1) <= SetFileSize(s).fs
  {
    var h := SetFileSize(s);
    EvenDigitsAreBytes(h.fs, |Digits(h.fs, 16)|, h.zeroes);
  }

  lemma EvenDigitsAreBytes(n: nat, k: nat, z: nat)
    requires k == |Digits(n, 16)| && z % 2 == 0 && k <= z <= k + 1 && z >= 2
    ensures n < Pow(256, z / 2)
    ensures z > 2 ==> Pow(256, z / 2 - 1) <= n
  {
    DigitsLength(n, 16);
    ByteDigits(z / 2);
    PowMonotone(16, k, z);
    if z > 2 {
      assert n != 0;
      ByteDigits(z / 2 - 1);
      PowMonotone(16, z - 2, k - 1);
    }
  }

  /** A byte is two hexadecimal digits: 256^n == 16^(2n). */
  lemma {:induction false} ByteDigits(n: nat)
    ensures Pow(256, n) == Pow(16, 2 * n)
  {
    if n > 0 {
      ByteDigits(n - 1);
      PowStep(256, n - 1);
      PowStep(16, 2 * n - 2);
      PowStep(16, 2 * n - 1);
    }
  }

  /** A number between 16^(k-1) and 16^k has k hexadecimal digits. */
  lemma HexDigitCount(n: nat, k: nat)
    requires k >= 1 && Pow(16, k - 1) <= n < Pow(16, k)
    ensures |Digits(n, 16)| == k
  {
    DigitsLength(n, 16);
    var d := |Digits(n, 16)|;
    if d < k {
      PowMonotone(16, d, k - 1);
    } else if d > k {
      PowMonotone(16, k, d - 1);
    }
  }

  lemma ZeroesExamples()
    ensures SetFileSize(0).zeroes == 2
    ensures SetFileSize(255).zeroes == 2
    ensures SetFileSize(256).zeroes == 4
  {
    HexDigitCount(255, 2);
    HexDigitCount(256, 3);
  }

  /** The unknown size -1 becomes 2^64 - 1: sixteen digits. */
  lemma UnknownSizeZeroes()
    ensures SetFileSize(-1).fs == MaxUint64
    ensures SetFileSize(-1).zeroes == 16
  {
    ByteDigits(8);
    ByteDigits(7);
    assert Pow(256, 8) == TwoTo64 by {
      PowAdd(256, 4, 4);
      assert Pow(256, 4) == 0x1_0000_0000;
    }
    PowStep(16, 15);
    HexDigitCount(MaxUint64, 16);
  }

  /** OffsetHeader: one underscore per offset digit. */
  function OffsetHeader(h: Hex): (r: string)
    ensures |r| == h.zeroes && forall i :: 0 <= i < |r| ==> r[i] == '_'
  {
    seq(h.zeroes, _ => '_')
  }

  /** The header is exactly as wide as every offset inside the file, which
      the offset format pads to `zeroes` digits. */
  lemma HeaderFitsOffsets(s: int, offset: nat)
    requires IsInt64(s) && offset <= SetFileSize(s).fs
    ensures |ZeroPad(Digits(offset, 16), SetFileSize(s).zeroes)| == |OffsetHeader(SetFileSize(s))|
  {
    DigitsLengthMonotone(offset, SetFileSize(s).fs, 16);
  }

  /** Format: two lower-case hexadecimal digits and a space. */
  function HexFormat(b: bv8): (r: string)
    ensures |r| == 3 && r[2] == ' '
    ensures IsNumeral(r[..2], 16) && Value(r[..2], 16) == b as nat
  {
    Padded(b as nat, 16, 2) + " "
  }

  /** EofStr: blanks as wide as one formatted byte. */
  const HexEof: string := "   "

  /** Different bytes are formatted differently. */
  lemma HexFormatInjective(a: bv8, b: bv8)
    requires HexFormat(a) == HexFormat(b)
    ensures a == b
  {
    assert HexFormat(a)[..2] == HexFormat(b)[..2];
    ByteOfValue(a, b);
  }

  lemma ByteOfValue(a: bv8, b: bv8)
    requires a as nat == b as nat
    ensures a == b
  {
  }

  // ------------------------------------------------------------ Ascii

  /** toChar: printable ASCII stands for itself, anything else is a dot. */
  function ToChar(b: bv8): (r: bv8)
    ensures 32 <= r <= 126
    ensures 32 <= b <= 126 <==> r == b
    ensures r != b ==> r == '.' as bv8
  {
    if b < 32 || b > 126 then '.' as bv8 else b
  }

  lemma ToCharIdempotent(b: bv8)
    ensures ToChar(ToChar(b)) == ToChar(b)
  {
  }

  /** How many of the byte values below n map to themselves. */
  function CountFixed(n: nat): nat
    requires n <= 256
  {
    if n == 0 then 0 else CountFixed(n - 1) + (if ToChar((n - 1) as bv8) == (n - 1) as bv8 then 1 else 0)
  }

  /** The fixed points are exactly the 95 bytes 32..126. */
  lemma {:induction false} FixedPoints(n: nat)
    requires n <= 256
    ensures CountFixed(n) == if n <= 32 then 0 else if n <= 127 then n - 32 else 95
  {
    if n > 0 {
      FixedPoints(n - 1);
      FixedAt(n - 1);
    }
  }

  lemma FixedAt(k: nat)
    requires k < 256
    ensures ToChar(k as bv8) == k as bv8 <==> 32 <= k <= 126
  {
  }

  /** EofStr: one blank for the one-character glyph. */
  const AsciiEof: string := " "

  // ------------------------------------------------------------ Bit

  /** Format: the eight binary digits of the byte, most significant first,
      and a space. */
  function BitFormat(b: bv8): (r: string)
    ensures |r| == 9 && r[8] == ' '
    ensures IsNumeral(r[..8], 2) && Value(r[..8], 2) == b as nat
  {
    Padded(b as nat, 2, 8) + " "
  }

  /** Only the characters '0' and '1' come before the space. */
  lemma BitFormatDigits(b: bv8)
    ensures forall i :: 0 <= i < 8 ==> BitFormat(b)[i] == '0' || BitFormat(b)[i] == '1'
  {
    var r := BitFormat(b);
    forall i | 0 <= i < 8
      ensures r[i] == '0' || r[i] == '1'
    {
      assert r[..8][i] == r[i];
    }
  }

  /** EofStr: blanks as wide as one formatted byte. */
  const BitEof: string := "         "

  /** Each viewer's end-of-file filler is blank and as wide as one byte's
      rendering, so a short last line keeps the columns aligned. */
  lemma HexEofMatchesFormat(b: bv8)
    ensures |HexEof| == |HexFormat(b)| && Blank(HexEof)
  {
    EofBlank();
  }

  lemma AsciiEofMatchesFormat()
    ensures |AsciiEof| == 1 && AsciiEof[0] == ' '
  {
  }

  lemma BitEofMatchesFormat(b: bv8)
    ensures |BitEof| == |BitFormat(b)| && Blank(BitEof)
  {
    EofBlank();
  }

  lemma EofBlank()
    ensures |HexEof| == 3 && Blank(HexEof)
    ensures |BitEof| == 9 && Blank(BitEof)
  {
  }

  predicate Blank(s: string)
  {
    forall i :: 0 <= i < |s| ==> s[i] == ' '
  }
}
