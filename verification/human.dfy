/** The human-readable offset formatter: an offset below the unit is shown
    as a byte count; a larger one is divided by the largest power of the
    unit (1000 for SI, 1024 for IEC) that keeps the quotient at least one,
    and labelled with that power's letter from "KMGTPE". */
module HumanOffset {

  import opened Arith
  import opened Numerals
  import opened Wrappers
  import opened GoInts

  const Suffixes: string := "KMGTPE"

  datatype Printer = Printer(unit: nat, formatSize: nat)

  /** A printer as New builds it. */
  predicate Valid(p: Printer)
  {
    (p.unit == 1000 && p.formatSize == 11) || (p.unit == 1024 && p.formatSize == 12)
  }

  /** human.New: SI and IEC units only; any other unit is refused (the
      program panics with this message). */
  function New(unit: int): (r: Result<Printer>)
    ensures r.Success? <==> unit == 1000 || unit == 1024
    ensures r.Success? ==> Valid(r.value) && r.value.unit == unit
    ensures r.Failure? ==> r.error == "invalid unit formatSize " + Itoa(unit)
  {
    if unit == 1000 then Success(Printer(1000, 11))
    else if unit == 1024 then Success(Printer(1024, 12))
    else Failure("invalid unit formatSize " + Itoa(unit))
  }

  /** What Print shows: a plain byte count, or a quotient whose decimal
      rendering is not modelled, scaled by `div` and labelled `suffix`. */
  datatype Shown = Bytes(text: string) | Scaled(div: nat, exp: nat, suffix: char)

  /** Print: a byte count right-aligned in 8 columns below the unit;
      otherwise the loop divides by the unit until the quotient drops
      below it. The divisor never overflows 64 bits and the exponent
      always indexes "KMGTPE". */
  method Print(p: Printer, b: nat) returns (s: Shown)
    requires Valid(p) && b < TwoTo64
    ensures s.Bytes? <==> b < p.unit
    ensures s.Bytes? ==> |s.text| == p.formatSize
    ensures s.Bytes? ==> s.text == SpacePad(" " + Itoa(b), 8) + (if p.unit == 1000 then " B " else " B  ")
    ensures s.Scaled? ==> s.exp < |Suffixes| && s.suffix == Suffixes[s.exp]
    ensures s.Scaled? ==> s.div == Pow(p.unit, s.exp + 1) && s.div > 0 && 1 <= b / s.div < p.unit
    ensures s.Scaled? ==> Pow(p.unit, s.exp + 1) <= b < Pow(p.unit, s.exp + 2)
  {
    if b < p.unit {
      var text := " " + Itoa(b);
      ByteCountFits(b);
      if p.unit == 1000 {
        return Bytes(SpacePad(text, 8) + " B ");
      }
      return Bytes(SpacePad(text, 8) + " B  ");
    }
    var div, exp := p.unit, 0;
    var n := b / p.unit;
    while n >= p.unit
      invariant div >= p.unit && div == Pow(p.unit, exp + 1) && Pow(1000, exp + 1) <= div <= b
      invariant n == b / div && n >= 1
      invariant exp <= 5
      decreases n
    {
      ScaleStep(p.unit, b, div, exp);
      div := div * p.unit;
      exp := exp + 1;
      n := n / p.unit;
    }
    QuotientBelow(b, div, p.unit);
    PowStep(p.unit, exp + 1);
    s := Scaled(div, exp, Suffixes[exp]);
  }

  /** One pass of Print's loop keeps its invariant: the divisor grows by
      the unit, stays within the offset, and so within 64 bits. */
  lemma ScaleStep(unit: nat, b: nat, div: nat, exp: nat)
    requires (unit == 1000 || unit == 1024) && b < TwoTo64
    requires div >= unit && div == Pow(unit, exp + 1) && Pow(1000, exp + 1) <= div <= b
    requires b / div >= unit
    ensures div * unit >= unit && div * unit == Pow(unit, exp + 2)
    ensures Pow(1000, exp + 2) <= div * unit <= b
    ensures b / div / unit == b / (div * unit) && b / (div * unit) >= 1
    ensures exp + 1 <= 5
  {
    QuotientBound(unit, b, div);
    DivDiv(b, div, unit);
    MulLe(Pow(1000, exp + 1), div, 1000);
    MulLe(1000, unit, div);
    MulLe(1, div, unit);
    PowStep(unit, exp + 1);
    PowStep(1000, exp + 1);
    ExponentBound(exp + 1, div * unit, b);
    assert div * unit <= b;
    DivStep(b / div, unit);
  }

  /** A count below 1024 with a leading space fits the 8 columns. */
  lemma ByteCountFits(b: nat)
    requires b < 1024
    ensures |" " + Itoa(b)| <= 8
  {
    DigitsFit(b, 10, 4);
  }

  /** 1000^7 exceeds 2^64. */
  lemma PowLimit()
    ensures Pow(1000, 7) > TwoTo64
  {
    assert Pow(1000, 7) == 1_000_000_000_000_000_000_000;
  }

  /** A power of 1000 that fits 64 bits has exponent at most 6. */
  lemma ExponentBound(k: nat, d: nat, b: nat)
    requires Pow(1000, k + 1) <= d <= b < TwoTo64
    ensures k <= 5
  {
    if k > 5 {
      PowLimit();
      PowMonotone(1000, 7, k + 1);
    }
  }

  /** The bracket Print ends in determines the exponent, hence the letter:
      K for [unit, unit^2), M for [unit^2, unit^3), and so on. */
  lemma ExponentUnique(unit: nat, b: nat, e1: nat, e2: nat)
    requires unit >= 2
    requires Pow(unit, e1 + 1) <= b < Pow(unit, e1 + 2)
    requires Pow(unit, e2 + 1) <= b < Pow(unit, e2 + 2)
    ensures e1 == e2
  {
    if e1 < e2 {
      PowMonotone(unit, e1 + 2, e2 + 1);
    } else if e2 < e1 {
      PowMonotone(unit, e2 + 2, e1 + 1);
    }
  }
}
