/** Terminal escape sequences (Select Graphic Rendition, section 8.3.117 of
    ECMA-48, with the 38;5;n 256-colour form) and the AnsiColor value. */
module Ansi {

  import opened Numerals

  /** Control Sequence Introducer: ESC followed by '['. */
  const Esc: string := "\U{1B}["
  const Clear: string := Esc + "0m"
  const SetForeground: string := Esc + "38;5;"
  const SetUnderlineOn: string := Esc + "4m"
  const SetUnderlineOff: string := Esc + "24m"

  /** The 256-colour index of Grey93 (#eeeeee) used for column separators. */
  const ColorGrey93: int := 255

  datatype AnsiColor = AnsiColor(color: int, bold: bool, underline: bool, blink: bool, crossed: bool, italic: bool)

  /** The SGR parameter of a colour: its decimal number and a final 'm'.
      The style flags are carried but never rendered. */
  function ColorString(ac: AnsiColor): (r: string)
    ensures |r| >= 2 && r[|r| - 1] == 'm'
    ensures ac.color >= 0 ==> IsNumeral(r[..|r| - 1], 10) && Value(r[..|r| - 1], 10) == ac.color
    ensures ac.color < 0 ==> r[0] == '-' && IsNumeral(r[1..|r| - 1], 10) && Value(r[1..|r| - 1], 10) == -ac.color
  {
    ValueOfDigits(if ac.color < 0 then -ac.color else ac.color, 10);
    var r := Itoa(ac.color) + "m";
    assert r[..|r| - 1] == Itoa(ac.color);
    r
  }

  /** Two colours render alike exactly when their colour numbers agree; the
      style flags never matter. */
  lemma ColorStringInjective(a: AnsiColor, b: AnsiColor)
    ensures ColorString(a) == ColorString(b) <==> a.color == b.color
  {
    if ColorString(a) == ColorString(b) {
      var ra, rb := ColorString(a), ColorString(b);
      assert Itoa(a.color) == ra[..|ra| - 1] == rb[..|rb| - 1] == Itoa(b.color);
      FormatSignedInjective(a.color, b.color, 10);
    }
  }
}
