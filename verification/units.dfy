/** The numeric argument parser: a number as Go's strconv.ParseInt reads it
    with base 0 and 64 bits (optional sign, 0b/0o/0x prefixes, a leading 0
    for octal, '_' separators), optionally followed by a size unit whose
    multiplier scales it. */
module Units {

  import opened Wrappers
  import opened Numerals
  import opened Arith
  import opened GoInts

  // ------------------------------------------------------------ units

  const KB: nat := 1000
  const KiB: nat := 1024
  const MB: nat := 1000 * KB
  const MiB: nat := 1024 * KiB
  const GB: nat := 1000 * MB
  const GiB: nat := 1024 * MiB
  const TB: nat := 1000 * GB
  const TiB: nat := 1024 * GiB

  datatype Unit = Unit(suffix: string, multiplier: nat)

  const Table: seq<Unit> := [
    Unit("KB", KB), Unit("KiB", KiB), Unit("MB", MB), Unit("MiB", MiB),
    Unit("GB", GB), Unit("GiB", GiB), Unit("TB", TB), Unit("TiB", TiB)
  ]

  /** The decimal units are 10^3 to 10^12, the binary ones 2^10 to 2^40. */
  lemma Multipliers()
    ensures KB == Pow(10, 3) && MB == Pow(10, 6) && GB == Pow(10, 9) && TB == Pow(10, 12)
    ensures KiB == Pow(2, 10) && MiB == Pow(2, 20) && GiB == Pow(2, 30) && TiB == Pow(2, 40)
  {
    PowAdd(10, 3, 3);
    PowAdd(10, 6, 3);
    PowAdd(10, 9, 3);
    PowAdd(2, 10, 10);
    PowAdd(2, 20, 10);
    PowAdd(2, 30, 10);
  }

  predicate HasSuffix(s: string, u: string)
  {
    |u| <= |s| && s[|s| - |u|..] == u
  }

  /** The first unit in `units` that `s` ends with. */
  function FindUnit(s: string, units: seq<Unit>): (r: Option<Unit>)
    ensures r.Some? ==> r.value in units && HasSuffix(s, r.value.suffix)
    ensures r.None? ==> forall u :: u in units ==> !HasSuffix(s, u.suffix)
  {
    if |units| == 0 then None
    else if HasSuffix(s, units[0].suffix) then Some(units[0])
    else FindUnit(s, units[1..])
  }

  /** No unit is a suffix of another, so a string ends with at most one
      of them and the order the table is searched in does not matter. */
  lemma UnitsExclusive(s: string, u: Unit, v: Unit)
    requires u in Table && v in Table && HasSuffix(s, u.suffix) && HasSuffix(s, v.suffix)
    ensures u == v
  {
    var n := |s|;
    UnitLetters(u);
    UnitLetters(v);
    assert s[n - |u.suffix|..][|u.suffix| - 2] == s[n - 2] == u.suffix[|u.suffix| - 2];
    assert s[n - |v.suffix|..][|v.suffix| - 2] == s[n - 2] == v.suffix[|v.suffix| - 2];
    if |u.suffix| == 3 && |v.suffix| == 3 {
      assert s[n - 3..][0] == s[n - 3] == u.suffix[0];
      assert s[n - 3..][0] == s[n - 3] == v.suffix[0];
    }
    UnitKey(u, v);
  }

  /** A unit is known by its next-to-last letter and, for the binary units,
      its first letter. */
  lemma UnitKey(u: Unit, v: Unit)
    requires u in Table && v in Table
    requires |u.suffix| >= 2 && |v.suffix| >= 2
    requires u.suffix[|u.suffix| - 2] == v.suffix[|v.suffix| - 2]
    requires |u.suffix| == 3 && |v.suffix| == 3 ==> u.suffix[0] == v.suffix[0]
    ensures u == v
  {
    UnitShape(u);
    UnitShape(v);
    assert u.suffix == v.suffix;
    NamedUnit(u);
    NamedUnit(v);
  }

  /** Every suffix is a capital letter and 'B', or a capital, 'i' and 'B'. */
  lemma UnitShape(u: Unit)
    requires u in Table
    ensures || (|u.suffix| == 2 && u.suffix[0] != 'i' && u.suffix[1] == 'B')
            || (|u.suffix| == 3 && u.suffix[1] == 'i' && u.suffix[2] == 'B')
  {
  }

  /** The unit of the table written with exactly this suffix. */
  function Named(suffix: string): Option<Unit>
  {
    if suffix == "KB" then Some(Table[0]) else if suffix == "KiB" then Some(Table[1])
    else if suffix == "MB" then Some(Table[2]) else if suffix == "MiB" then Some(Table[3])
    else if suffix == "GB" then Some(Table[4]) else if suffix == "GiB" then Some(Table[5])
    else if suffix == "TB" then Some(Table[6]) else if suffix == "TiB" then Some(Table[7])
    else None
  }

  /** Suffixes name units: a unit of the table is the one its suffix names. */
  lemma NamedUnit(u: Unit)
    requires u in Table
    ensures Named(u.suffix) == Some(u)
  {
  }

  /** strings.TrimRight: every trailing character that occurs in `cutset`
      is removed, not just one copy of the cut-set string. */
  function TrimRight(s: string, cutset: string): (r: string)
    ensures |r| <= |s| && s[..|r|] == r
    ensures |r| > 0 ==> r[|r| - 1] !in cutset
    ensures forall i :: |r| <= i < |s| ==> s[i] in cutset
  {
    if |s| == 0 || s[|s| - 1] !in cutset then s else TrimRight(s[..|s| - 1], cutset)
  }

  /** The three properties above determine TrimRight's result. */
  lemma {:induction false} TrimRightUnique(r: string, q: string, cutset: string)
    requires forall i :: 0 <= i < |q| ==> q[i] in cutset
    requires |r| > 0 ==> r[|r| - 1] !in cutset
    ensures TrimRight(r + q, cutset) == r
  {
    if |q| == 0 {
      assert r + q == r;
    } else {
      var s := r + q;
      assert s[..|s| - 1] == r + q[..|q| - 1];
      TrimRightUnique(r, q[..|q| - 1], cutset);
    }
  }

  // ------------------------------------------------------------ strconv

  datatype ErrKind = ErrSyntax | ErrRange

  /** A strconv.NumError of ParseInt: the input and what went wrong. */
  datatype NumError = NumError(num: string, kind: ErrKind)

  /** Go's (int64, error) result. */
  datatype Outcome = Outcome(n: int, err: Option<NumError>)

  /** strconv's lower: ASCII letters to lower case, anything else kept
      (it ors 0x20 into a byte, which agrees for every comparison made). */
  function Lower(c: char): char
  {
    if 'A' <= c <= 'Z' then (c as int + 32) as char else c
  }

  /** The value of a digit or letter, as ParseUint reads it. */
  function DigitOf(c: char): (d: Option<nat>)
    ensures d.Some? ==> d.value < 36
  {
    if '0' <= c <= '9' then Some(c as int - '0' as int)
    else if 'a' <= Lower(c) <= 'z' then Some(Lower(c) as int - 'a' as int + 10)
    else None
  }

  /** Base 0: "0b", "0o" or "0x" followed by at least one more character
      selects that base; any other leading '0' means octal; otherwise
      decimal. Returns the base and where the digits start. */
  function Prefix(s: string): (r: (nat, nat))
    requires |s| > 0
    ensures r.0 in {2, 8, 10, 16} && r.1 <= |s|
  {
    if s[0] != '0' then (10, 0)
    else if |s| >= 3 && Lower(s[1]) == 'b' then (2, 2)
    else if |s| >= 3 && Lower(s[1]) == 'o' then (8, 2)
    else if |s| >= 3 && Lower(s[1]) == 'x' then (16, 2)
    else (8, 1)
  }

  /** Where ParseUint's digit loop stands: the value so far and whether an
      underscore was skipped, or the error that ended it. */
  datatype Scan = Scan(n: nat, underscores: bool) | Fail(kind: ErrKind)

  /** ParseUint's cutoff: the smallest n for which n * base overflows. */
  function Cutoff(base: nat): nat
    requires base > 0
  {
    MaxUint64 / base + 1
  }

  /** One character of the digit loop. Go compares the wrapped sum with the
      product to spot an overflow of n * base + d; below the cutoff that is
      the same as the exact sum exceeding 2^64 - 1. */
  function Step(st: Scan, c: char, base: nat): Scan
    requires 2 <= base <= 36
  {
    match st
    case Fail(_) => st
    case Scan(n, u) =>
      if c == '_' then Scan(n, true)
      else match DigitOf(c)
        case None => Fail(ErrSyntax)
        case Some(d) =>
          if d >= base then Fail(ErrSyntax)
          else if n >= Cutoff(base) then Fail(ErrRange)
          else if n * base + d > MaxUint64 then Fail(ErrRange)
          else Scan(n * base + d, u)
  }

  /** The digit loop over `s`, left to right; the first error ends it. */
  function ScanDigits(s: string, base: nat): Scan
    requires 2 <= base <= 36
  {
    if |s| == 0 then Scan(0, false) else Step(ScanDigits(s[..|s| - 1], base), s[|s| - 1], base)
  }

  /** What underscoreOK tracks: the start, a digit (or base prefix), an
      underscore, or anything else. */
  datatype Saw = Start | Digit | Underscore | Other

  /** underscoreOK's loop from position i; None when it returns false early. */
  function WalkUnderscores(s: string, i: nat, saw: Saw, hex: bool): Option<Saw>
    requires i <= |s|
    decreases |s| - i
  {
    if i == |s| then Some(saw)
    else if '0' <= s[i] <= '9' || (hex && 'a' <= Lower(s[i]) <= 'f') then WalkUnderscores(s, i + 1, Digit, hex)
    else if s[i] == '_' then
      if saw != Digit then None else WalkUnderscores(s, i + 1, Underscore, hex)
    else if saw == Underscore then None
    else WalkUnderscores(s, i + 1, Other, hex)
  }

  /** underscoreOK: every underscore sits between digits, or between a base
      prefix and a digit. */
  predicate UnderscoreOK(s0: string)
  {
    var s := if |s0| >= 1 && (s0[0] == '-' || s0[0] == '+') then s0[1..] else s0;
    var prefixed := |s| >= 2 && s[0] == '0' && (Lower(s[1]) == 'b' || Lower(s[1]) == 'o' || Lower(s[1]) == 'x');
    var hex := prefixed && Lower(s[1]) == 'x';
    var end := WalkUnderscores(s, if prefixed then 2 else 0, if prefixed then Digit else Start, hex);
    end.Some? && end.value != Underscore
  }

  /** strconv.ParseUint(s, 0, 64): the value, 2^64 - 1 with a range error,
      or 0 with a syntax error. */
  function ParseUint(s: string): (r: (nat, Option<ErrKind>))
    ensures r.0 <= MaxUint64
    ensures r.1 == Some(ErrRange) ==> r.0 == MaxUint64
    ensures r.1 == Some(ErrSyntax) ==> r.0 == 0
  {
    if |s| == 0 then (0, Some(ErrSyntax))
    else
      var (base, start) := Prefix(s);
      match ScanDigits(s[start..], base)
      case Fail(ErrRange) => (MaxUint64, Some(ErrRange))
      case Fail(ErrSyntax) => (0, Some(ErrSyntax))
      case Scan(n, u) =>
        ScanBound(s[start..], base);
        if u && !UnderscoreOK(s) then (0, Some(ErrSyntax)) else (n, None)
  }

  lemma {:induction false} ScanBound(s: string, base: nat)
    requires 2 <= base <= 36
    ensures ScanDigits(s, base).Scan? ==> ScanDigits(s, base).n <= MaxUint64
  {
    if |s| > 0 {
      ScanBound(s[..|s| - 1], base);
    }
  }

  /** strconv.ParseInt(s, 0, 64): an optional sign, then ParseUint, then
      the int64 range check, which clamps to the nearest bound. */
  function ParseInt(s: string): (r: Outcome)
    ensures IsInt64(r.n)
    ensures r.err.Some? ==> r.err.value.num == s
    ensures r.err.None? ==> |s| > 0
    ensures r.err.Some? && r.err.value.kind == ErrSyntax ==> r.n == 0
    ensures r.err.Some? && r.err.value.kind == ErrRange ==>
              |s| > 0 && r.n == (if s[0] == '-' then -(TwoTo63 as int) else TwoTo63 - 1)
  {
    if |s| == 0 then Outcome(0, Some(NumError(s, ErrSyntax)))
    else
      var neg := s[0] == '-';
      var body := if s[0] == '+' || s[0] == '-' then s[1..] else s;
      var (un, e) := ParseUint(body);
      if e == Some(ErrSyntax) then Outcome(0, Some(NumError(s, ErrSyntax)))
      else if !neg && un >= TwoTo63 then Outcome(TwoTo63 - 1, Some(NumError(s, ErrRange)))
      else if neg && un > TwoTo63 then Outcome(-(TwoTo63 as int), Some(NumError(s, ErrRange)))
      else Outcome(if neg then -(un as int) else un, None)
  }

  // ------------------------------------------------------------ Parse

  /** Parse: strip the unit the string ends with (by cut set) and scale the
      parsed number by its multiplier, wrapping like int64; a parse error is
      returned beside the (scaled) number ParseInt gave back. The error
      quotes the number as written, without its unit; a syntax error comes
      with 0, and a number without a unit that is out of range is clamped
      to the int64 bound of its sign. */
  function Parse(s: string): (r: Outcome)
    ensures IsInt64(r.n)
    ensures r.err.Some? ==> |r.err.value.num| <= |s| && s[..|r.err.value.num|] == r.err.value.num
    ensures r.err.Some? && FindUnit(s, Table).None? ==> r.err.value.num == s
    ensures r.err.Some? && r.err.value.kind == ErrSyntax ==> r.n == 0
    ensures r.err.Some? && r.err.value.kind == ErrRange && FindUnit(s, Table).None? ==>
              |s| > 0 && r.n == (if s[0] == '-' then -(TwoTo63 as int) else TwoTo63 - 1)
  {
    var found := FindUnit(s, Table);
    if found.None? then ParseInt(s)
    else
      var u := found.value;
      var t := TrimRight(s, u.suffix);
      var p := ParseInt(t);
      assert p.err.Some? ==> p.err.value.num == t && s[..|t|] == t;
      assert p.n == 0 ==> p.n * u.multiplier == 0 && WrapInt64(0) == 0;
      Outcome(WrapInt64(p.n * u.multiplier), p.err)
  }

  // ------------------------------------------------------------ round trips

  lemma BelowCutoff(n: nat, base: nat, d: nat)
    requires base > 0 && n * base + d <= MaxUint64
    ensures n < Cutoff(base)
  {
    var q := MaxUint64 / base;
    if n > q {
      MulLe(q + 1, n, base);
      MulSucc(q, base);
    }
  }

  lemma DigitOfLower(c: char, base: nat)
    requires IsLowerDigit(c)
    ensures DigitOf(c) == Some(DigitValue(c))
  {
  }

  /** The digit loop reads a numeral without separators as its value. */
  lemma {:induction false} ScanNumeral(s: string, base: nat)
    requires 2 <= base <= 16 && IsNumeral(s, base) && Value(s, base) <= MaxUint64
    ensures ScanDigits(s, base) == Scan(Value(s, base), false)
  {
    if |s| > 0 {
      var p, c := s[..|s| - 1], s[|s| - 1];
      assert IsNumeral(p, base);
      var d := DigitValue(c);
      assert Value(s, base) == Value(p, base) * base + d;
      MulLe(1, base, Value(p, base));
      ScanNumeral(p, base);
      DigitOfLower(c, base);
      BelowCutoff(Value(p, base), base, d);
    }
  }

  /** Every int64 written in decimal parses back to itself. */
  lemma DecimalRoundTrip(x: int)
    requires IsInt64(x)
    ensures ParseInt(Itoa(x)) == Outcome(x, None)
  {
    var m: nat := if x < 0 then -x else x;
    var ds := Digits(m, 10);
    DecimalUnsigned(m);
    if x < 0 {
      assert Itoa(x)[1..] == ds;
      NegativeClean(Itoa(x), m);
    } else {
      assert IsLowerDigit(ds[0]);
      PositiveClean(ds, m);
    }
  }

  /** The decimal numeral of an unsigned value parses back to it. */
  lemma DecimalUnsigned(m: nat)
    requires m <= MaxUint64
    ensures ParseUint(Digits(m, 10)) == (m, None)
  {
    var ds := Digits(m, 10);
    ValueOfDigits(m, 10);
    if m > 0 {
      ScanNumeral(ds, 10);
      assert ds[0..] == ds;
      UnsignedClean(ds, 10, 0, m);
    } else {
      assert ds == "0";
      assert ds[1..] == [];
      UnsignedClean(ds, 8, 1, 0);
    }
  }

  /** A digit loop that ends cleanly without underscores is ParseUint's value. */
  lemma UnsignedClean(s: string, base: nat, start: nat, v: nat)
    requires |s| > 0 && Prefix(s) == (base, start) && ScanDigits(s[start..], base) == Scan(v, false)
    ensures ParseUint(s) == (v, None)
  {
    ScanBound(s[start..], base);
  }

  /** An unsigned string whose value fits int64 is that value. */
  lemma PositiveClean(s: string, v: nat)
    requires |s| > 0 && s[0] != '-' && s[0] != '+' && ParseUint(s) == (v, None) && v < TwoTo63
    ensures ParseInt(s) == Outcome(v, None)
  {
  }

  /** '-' and an unsigned string of value at most 2^63 is minus that value. */
  lemma NegativeClean(s: string, v: nat)
    requires |s| > 1 && s[0] == '-' && ParseUint(s[1..]) == (v, None) && v <= TwoTo63
    ensures ParseInt(s) == Outcome(-(v as int), None)
  {
  }

  /** Every offset below 2^63 written as hex digits (zero-padded or not)
      after "0x" parses back to itself. */
  lemma HexRoundTrip(digits: string)
    requires |digits| > 0 && IsNumeral(digits, 16) && Value(digits, 16) < TwoTo63
    ensures ParseInt("0x" + digits) == Outcome(Value(digits, 16), None)
  {
    var s := "0x" + digits;
    assert s[2..] == digits;
    assert Prefix(s) == (16, 2);
    ScanNumeral(digits, 16);
    UnsignedClean(s, 16, 2, Value(digits, 16));
    PositiveClean(s, Value(digits, 16));
  }

  /** A decimal number ends in a digit, which no unit contains. */
  lemma ItoaEndsInDigit(x: int)
    ensures |Itoa(x)| > 0 && '0' <= Itoa(x)[|Itoa(x)| - 1] <= '9'
  {
    var m: nat := if x < 0 then -x else x;
    var ds := Digits(m, 10);
    assert IsLowerDigit(ds[|ds| - 1]) && DigitValue(ds[|ds| - 1]) < 10;
    assert Itoa(x)[|Itoa(x)| - 1] == ds[|ds| - 1];
  }

  /** Every unit is at least two letters and ends in 'B'. */
  lemma UnitLetters(u: Unit)
    requires u in Table
    ensures |u.suffix| >= 2 && u.suffix[|u.suffix| - 1] == 'B'
    ensures forall i :: 0 <= i < |u.suffix| ==> !('0' <= u.suffix[i] <= '9')
  {
  }

  /** A string Parse finds a unit in ends in 'B'. */
  lemma UnitEndsInB(s: string)
    requires FindUnit(s, Table).Some?
    ensures |s| > 0 && s[|s| - 1] == 'B'
  {
    var u := FindUnit(s, Table).value;
    UnitLetters(u);
    assert s[|s| - |u.suffix|..][|u.suffix| - 1] == s[|s| - 1];
  }

  /** A string ending in a digit has no unit. */
  lemma NoUnitAfterDigit(s: string)
    requires |s| > 0 && '0' <= s[|s| - 1] <= '9'
    ensures FindUnit(s, Table).None?
  {
    if FindUnit(s, Table).Some? {
      UnitEndsInB(s);
    }
  }

  /** A number written without a unit parses as ParseInt reads it. */
  lemma PlainRoundTrip(x: int)
    requires IsInt64(x)
    ensures Parse(Itoa(x)) == Outcome(x, None)
  {
    ItoaEndsInDigit(x);
    NoUnitAfterDigit(Itoa(x));
    DecimalRoundTrip(x);
  }

  /** The unit a number is written with is the one Parse finds. */
  lemma FindsWrittenUnit(digits: string, u: Unit)
    requires u in Table
    ensures FindUnit(digits + u.suffix, Table) == Some(u)
  {
    var s := digits + u.suffix;
    assert s[|s| - |u.suffix|..] == u.suffix;
    UnitsExclusive(s, FindUnit(s, Table).value, u);
  }

  /** A number written with a unit parses to the number times the unit's
      multiplier, wrapped like int64: the cut set stops at the last digit. */
  lemma UnitRoundTrip(x: int, u: Unit)
    requires IsInt64(x) && u in Table
    ensures Parse(Itoa(x) + u.suffix) == Outcome(WrapInt64(x * u.multiplier), None)
  {
    FindsWrittenUnit(Itoa(x), u);
    ItoaEndsInDigit(x);
    UnitLetters(u);
    TrimRightUnique(Itoa(x), u.suffix, u.suffix);
    DecimalRoundTrip(x);
  }

  /** The base-prefixed numerals the comment of Parse lists. */
  lemma PrefixedExamples()
    ensures Parse("0x100") == Outcome(256, None)
    ensures Parse("0o100") == Outcome(64, None)
    ensures Parse("0b1111") == Outcome(15, None)
  {
    HexExample();
    OctalExample();
    BinaryExample();
  }

  lemma HexExample()
    ensures Parse("0x100") == Outcome(256, None)
  {
    var s := "0x100";
    NoUnitAfterDigit(s);
    assert Prefix(s) == (16, 2) && s[2..] == "100";
    HundredScan(16);
    UnsignedClean(s, 16, 2, 256);
    PositiveClean(s, 256);
  }

  lemma OctalExample()
    ensures Parse("0o100") == Outcome(64, None)
  {
    var s := "0o100";
    NoUnitAfterDigit(s);
    assert Prefix(s) == (8, 2) && s[2..] == "100";
    HundredScan(8);
    UnsignedClean(s, 8, 2, 64);
    PositiveClean(s, 64);
  }

  lemma BinaryExample()
    ensures Parse("0b1111") == Outcome(15, None)
  {
    var s := "0b1111";
    NoUnitAfterDigit(s);
    assert Prefix(s) == (2, 2) && s[2..] == "1111";
    BinaryScan();
    UnsignedClean(s, 2, 2, 15);
    PositiveClean(s, 15);
  }

  /** "100" in base b reads as b squared. */
  lemma HundredScan(base: nat)
    requires base == 8 || base == 16
    ensures ScanDigits("100", base) == Scan(base * base, false)
  {
    ScanThree('1', '0', '0', base);
  }

  /** "1111" in binary reads as fifteen. */
  lemma BinaryScan()
    ensures ScanDigits("1111", 2) == Scan(15, false)
  {
    ScanThree('1', '1', '1', 2);
    assert ScanDigits("111", 2) == Scan(7, false);
    ScanNext("111", '1', 2);
    assert "111" + ['1'] == "1111";
  }

  /** A leading 0 alone means octal: "017" is fifteen. */
  lemma LegacyOctal()
    ensures Parse("017") == Outcome(15, None)
  {
    var s := "017";
    NoUnitAfterDigit(s);
    assert Prefix(s) == (8, 1) && s[1..] == "17";
    LegacyOctalScan();
    UnsignedClean(s, 8, 1, 15);
    PositiveClean(s, 15);
  }

  /** The digits after the octal 0 of "017" read as fifteen. */
  lemma LegacyOctalScan()
    ensures ScanDigits("17", 8) == Scan(15, false)
  {
    ScanNext("", '1', 8);
    assert "" + ['1'] == "1";
    assert ScanDigits("1", 8) == Scan(1, false);
    ScanNext("1", '7', 8);
    assert "1" + ['7'] == "17";
  }

  /** Underscores may separate digits: "1_000" is a thousand. */
  lemma Underscores()
    ensures Parse("1_000") == Outcome(1000, None)
  {
    var s := "1_000";
    NoUnitAfterDigit(s);
    assert Prefix(s) == (10, 0) && s[0..] == s;
    UnderscoresScan();
    UnderscoresOK();
    UnsignedUnderscored(s, 10, 0, 1000);
    PositiveClean(s, 1000);
  }

  /** The digit loop skips the underscore of "1_000" and reads a thousand. */
  lemma UnderscoresScan()
    ensures ScanDigits("1_000", 10) == Scan(1000, true)
  {
    ScanThree('1', '_', '0', 10);
    assert ScanDigits("1_0", 10) == Scan(10, true);
    ScanNext("1_0", '0', 10);
    assert "1_0" + ['0'] == "1_00";
    assert ScanDigits("1_00", 10) == Scan(100, true);
    ScanNext("1_00", '0', 10);
    assert "1_00" + ['0'] == "1_000";
  }

  /** "1_000" places its one underscore between two digits. */
  lemma UnderscoresOK()
    ensures UnderscoreOK("1_000")
  {
    var s := "1_000";
    assert WalkUnderscores(s, 5, Digit, false) == Some(Digit);
    assert WalkUnderscores(s, 4, Digit, false) == Some(Digit);
    assert WalkUnderscores(s, 3, Digit, false) == Some(Digit);
    assert WalkUnderscores(s, 2, Underscore, false) == Some(Digit);
    assert WalkUnderscores(s, 1, Digit, false) == Some(Digit);
    assert WalkUnderscores(s, 0, Start, false) == Some(Digit);
  }

  /** A digit loop that skipped underscores, all of them well placed, is
      ParseUint's value. */
  lemma UnsignedUnderscored(s: string, base: nat, start: nat, v: nat)
    requires |s| > 0 && Prefix(s) == (base, start) && ScanDigits(s[start..], base) == Scan(v, true)
    requires UnderscoreOK(s)
    ensures ParseUint(s) == (v, None)
  {
    ScanBound(s[start..], base);
  }

  /** The digit loop reads one more character after the ones before it. */
  lemma ScanNext(s: string, c: char, base: nat)
    requires 2 <= base <= 36
    ensures ScanDigits(s + [c], base) == Step(ScanDigits(s, base), c, base)
  {
    assert (s + [c])[..|s|] == s;
  }

  /** Three characters read left to right. */
  lemma ScanThree(a: char, b: char, c: char, base: nat)
    requires 2 <= base <= 36
    ensures ScanDigits([a, b, c], base) == Step(Step(Step(Scan(0, false), a, base), b, base), c, base)
  {
    ScanNext([], a, base);
    ScanNext([a], b, base);
    ScanNext([a, b], c, base);
    assert [] + [a] == [a] && [a] + [b] == [a, b] && [a, b] + [c] == [a, b, c];
  }

  // ------------------------------------------------------------ the test table

  lemma SmallNumerals()
    ensures Itoa(100) == "100" && Itoa(-100) == "-100"
    ensures Itoa(2) == "2" && Itoa(-2) == "-2"
  {
    assert Digits(10, 10) == "10";
    assert Digits(100, 10) == Digits(10, 10) + "0";
  }

  /** The plain cases of the package's tests. */
  lemma TestPlain()
    ensures Parse("100") == Outcome(100, None)
    ensures Parse("-100") == Outcome(-100, None)
  {
    SmallNumerals();
    PlainRoundTrip(100);
    PlainRoundTrip(-100);
  }

  /** One unit case of the package's tests: `s` is `x` written with `u`, and
      the product fits int64. */
  lemma UnitCase(x: int, digits: string, u: Unit, s: string, n: int)
    requires IsInt64(x) && digits == Itoa(x)
    requires u in Table && s == digits + u.suffix
    requires n == x * u.multiplier && IsInt64(n)
    ensures Parse(s) == Outcome(n, None)
  {
    UnitRoundTrip(x, u);
  }

  /** The SI cases of the package's tests. */
  lemma TestKB()
    ensures Parse("2KB") == Outcome(2000, None)
  {
    SmallNumerals();
    UnitCase(2, "2", Table[0], "2KB", 2000);
  }

  lemma TestMinusKB()
    ensures Parse("-2KB") == Outcome(-2000, None)
  {
    SmallNumerals();
    UnitCase(-2, "-2", Table[0], "-2KB", -2000);
  }

  /** The IEC cases of the package's tests. */
  lemma TestKiB()
    ensures Parse("2KiB") == Outcome(2048, None)
  {
    SmallNumerals();
    UnitCase(2, "2", Table[1], "2KiB", 2048);
  }

  lemma TestMinusKiB()
    ensures Parse("-2KiB") == Outcome(-2048, None)
  {
    SmallNumerals();
    UnitCase(-2, "-2", Table[1], "-2KiB", -2048);
  }

  /** A base prefix and a unit combine: "0xAKB" is 10 thousand. */
  lemma HexWithUnit()
    ensures Parse("0xAKB") == Outcome(10000, None)
  {
    assert "0xAKB" == "0xA" + Table[0].suffix;
    FindsWrittenUnit("0xA", Table[0]);
    assert TrimRight("0xAKB", "KB") == "0xA" by {
      TrimRightUnique("0xA", "KB", "KB");
    }
    HexA();
  }

  /** "0xA" is ten: the digit loop takes upper-case hex digits too. */
  lemma HexA()
    ensures ParseInt("0xA") == Outcome(10, None)
  {
    assert Prefix("0xA") == (16, 2);
    assert "0xA"[2..] == "A";
    assert ScanDigits("A", 16) == Step(ScanDigits("", 16), 'A', 16);
  }

  /** The cut set eats the hex digit B with the unit: "0xBKB" trims to "0x",
      which does not parse. */
  lemma CutSetQuirk()
    ensures TrimRight("0xBKB", "KB") == "0x"
    ensures Parse("0xBKB") == Outcome(0, Some(NumError("0x", ErrSyntax)))
  {
    assert "0xBKB" == "0xB" + Table[0].suffix;
    FindsWrittenUnit("0xB", Table[0]);
    assert "0xBKB" == "0x" + "BKB";
    TrimRightUnique("0x", "BKB", "KB");
    BarePrefix();
  }

  /** A base prefix with no digits after it is a syntax error. */
  lemma BarePrefix()
    ensures ParseInt("0x") == Outcome(0, Some(NumError("0x", ErrSyntax)))
  {
    assert Prefix("0x") == (8, 1);
    assert "0x"[1..] == "x";
    assert ScanDigits("x", 8) == Step(ScanDigits("", 8), 'x', 8);
  }
}
