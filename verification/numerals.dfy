/** Positional numerals in bases 2 to 16 as Go's fmt verbs %b, %o, %d and %x
    write them: lower-case digits, no leading zeros, a leading '-' for
    negative signed values, and the '0' flag padding on the left. */
module Numerals {

  import opened Arith

  predicate IsLowerDigit(c: char)
  {
    '0' <= c <= '9' || 'a' <= c <= 'f'
  }

  function DigitValue(c: char): nat
    requires IsLowerDigit(c)
  {
    if '0' <= c <= '9' then c as int - '0' as int else c as int - 'a' as int + 10
  }

  function DigitChar(d: nat): (c: char)
    requires d < 16
    ensures IsLowerDigit(c) && DigitValue(c) == d
  {
    if d < 10 then ('0' as int + d) as char else ('a' as int + d - 10) as char
  }

  /** Every character of `s` is a digit of `base`. */
  predicate IsNumeral(s: string, base: nat)
  {
    forall i :: 0 <= i < |s| ==> IsLowerDigit(s[i]) && DigitValue(s[i]) < base
  }

  /** The shortest numeral of `n` in `base`; "0" for zero. */
  function Digits(n: nat, base: nat): (r: string)
    requires 2 <= base <= 16
    ensures |r| >= 1 && IsNumeral(r, base)
    ensures r[0] == '0' <==> n == 0
    decreases n
  {
    if n < base then [DigitChar(n)]
    else
      DivStep(n, base);
      Digits(n / base, base) + [DigitChar(n % base)]
  }

  /** The number a numeral denotes (leading zeros allowed). */
  function Value(s: string, base: nat): nat
    requires IsNumeral(s, base)
  {
    if |s| == 0 then 0 else Value(s[..|s| - 1], base) * base + DigitValue(s[|s| - 1])
  }

  /** Go's %x, %d or %o of a signed integer: a '-' and the magnitude for negatives. */
  function FormatSigned(n: int, base: nat): (r: string)
    requires 2 <= base <= 16
    ensures |r| >= 1
  {
    if n < 0 then "-" + Digits(-n, base) else Digits(n, base)
  }

  /** strconv.Itoa. */
  function Itoa(n: int): string
  {
    FormatSigned(n, 10)
  }

  function Zeros(k: nat): (r: string)
    ensures |r| == k && forall i :: 0 <= i < k ==> r[i] == '0'
  {
    seq(k, _ => '0')
  }

  /** The '0' flag with width w: zeros on the left up to w, never truncated. */
  function ZeroPad(s: string, w: nat): (r: string)
    ensures |s| >= w ==> r == s
    ensures |s| < w ==> |r| == w && r[w - |s|..] == s
    ensures |s| < w ==> forall i :: 0 <= i < w - |s| ==> r[i] == '0'
  {
    if |s| >= w then s else Zeros(w - |s|) + s
  }

  /** Right alignment with spaces to width w (fmt's default padding). */
  function SpacePad(s: string, w: nat): (r: string)
    ensures |r| == if |s| >= w then |s| else w
    ensures r[|r| - |s|..] == s
  {
    if |s| >= w then s else seq(w - |s|, _ => ' ') + s
  }

  /** Dictionary order on two strings of the same length. */
  predicate LexLess(s: string, t: string)
  {
    |s| == |t| && exists k :: 0 <= k < |s| && s[..k] == t[..k] && s[k] < t[k]
  }

  // ---------------------------------------------------------------- lemmas

  lemma {:induction false} ValueOfDigits(n: nat, base: nat)
    requires 2 <= base <= 16
    ensures Value(Digits(n, base), base) == n
    decreases n
  {
    if n >= base {
      DivStep(n, base);
      var d := Digits(n, base);
      assert d[..|d| - 1] == Digits(n / base, base);
      ValueOfDigits(n / base, base);
      assert Value(d, base) == (n / base) * base + n % base;
    }
  }

  lemma {:induction false} ValueBound(s: string, base: nat)
    requires base >= 2 && IsNumeral(s, base)
    ensures Value(s, base) < Pow(base, |s|)
  {
    if |s| > 0 {
      var p := s[..|s| - 1];
      ValueBound(p, base);
      DigitBound(Value(p, base), Pow(base, |p|), DigitValue(s[|s| - 1]), base);
      PowStep(base, |p|);
    }
  }

  /** The shortest numeral of a positive number n has k digits exactly when
      base^(k-1) <= n < base^k. */
  lemma {:induction false} DigitsLength(n: nat, base: nat)
    requires 2 <= base <= 16
    ensures n < Pow(base, |Digits(n, base)|)
    ensures n > 0 ==> Pow(base, |Digits(n, base)| - 1) <= n
    decreases n
  {
    ValueOfDigits(n, base);
    ValueBound(Digits(n, base), base);
    if n >= base {
      DivStep(n, base);
      DigitsLength(n / base, base);
      var k := |Digits(n / base, base)|;
      assert |Digits(n, base)| - 1 == k;
      PowStep(base, k - 1);
      QuotientBound(Pow(base, k - 1), n, base);
    }
  }

  /** A number below base^w has a numeral of at most w digits. */
  lemma DigitsFit(n: nat, base: nat, w: nat)
    requires 2 <= base <= 16 && w >= 1 && n < Pow(base, w)
    ensures |Digits(n, base)| <= w
  {
    DigitsLength(n, base);
    if |Digits(n, base)| > w {
      PowMonotone(base, w, |Digits(n, base)| - 1);
    }
  }

  /** Larger numbers never have shorter numerals. */
  lemma DigitsLengthMonotone(a: nat, b: nat, base: nat)
    requires 2 <= base <= 16 && a <= b
    ensures |Digits(a, base)| <= |Digits(b, base)|
  {
    DigitsLength(a, base);
    DigitsLength(b, base);
    if |Digits(a, base)| > |Digits(b, base)| {
      PowMonotone(base, |Digits(b, base)|, |Digits(a, base)| - 1);
    }
  }

  lemma {:induction false} ValueConcat(a: string, b: string, base: nat)
    requires IsNumeral(a, base) && IsNumeral(b, base)
    ensures IsNumeral(a + b, base)
    ensures Value(a + b, base) == Value(a, base) * Pow(base, |b|) + Value(b, base)
    decreases |b|
  {
    if |b| == 0 {
      assert a + b == a;
    } else {
      var b' := b[..|b| - 1];
      assert (a + b)[..|a + b| - 1] == a + b';
      ValueConcat(a, b', base);
      var va, p, vb, d := Value(a, base), Pow(base, |b'|), Value(b', base), DigitValue(b[|b| - 1]);
      assert Value(a + b, base) == (va * p + vb) * base + d;
      assert Value(b, base) == vb * base + d;
      PowStep(base, |b'|);
      Distribute(va, p, vb, base, d);
    }
  }

  lemma {:induction false} ValueZeros(k: nat, base: nat)
    requires base >= 2
    ensures IsNumeral(Zeros(k), base) && Value(Zeros(k), base) == 0
  {
    if k > 0 {
      assert Zeros(k)[..k - 1] == Zeros(k - 1);
      ValueZeros(k - 1, base);
    }
  }

  /** Leading zeros do not change the number, so zero padding round-trips. */
  lemma ValueZeroPad(s: string, w: nat, base: nat)
    requires base >= 2 && IsNumeral(s, base)
    ensures IsNumeral(ZeroPad(s, w), base)
    ensures Value(ZeroPad(s, w), base) == Value(s, base)
  {
    if |s| < w {
      ValueZeros(w - |s|, base);
      ValueConcat(Zeros(w - |s|), s, base);
    }
  }

  /** Two equal-length numerals with equal values are the same numeral. */
  lemma {:induction false} ValueInjective(s: string, t: string, base: nat)
    requires base >= 2 && |s| == |t| && IsNumeral(s, base) && IsNumeral(t, base)
    requires Value(s, base) == Value(t, base)
    ensures s == t
  {
    if |s| > 0 {
      var s', t' := s[..|s| - 1], t[..|t| - 1];
      MulAddUnique(Value(s', base), Value(t', base), DigitValue(s[|s| - 1]), DigitValue(t[|t| - 1]), base);
      ValueInjective(s', t', base);
      assert DigitChar(DigitValue(s[|s| - 1])) == s[|s| - 1];
      assert s == s' + [s[|s| - 1]] && t == t' + [t[|t| - 1]];
    }
  }

  lemma DigitOrder(c: char, d: char)
    requires IsLowerDigit(c) && IsLowerDigit(d)
    ensures c < d <==> DigitValue(c) < DigitValue(d)
  {
  }

  lemma {:induction false} ValueLessIsLex(s: string, t: string, base: nat)
    requires base >= 2 && |s| == |t| && IsNumeral(s, base) && IsNumeral(t, base)
    requires Value(s, base) < Value(t, base)
    ensures LexLess(s, t)
  {
    var n := |s|;
    var s', t' := s[..n - 1], t[..n - 1];
    var x, y := DigitValue(s[n - 1]), DigitValue(t[n - 1]);
    var vs, vt := Value(s', base), Value(t', base);
    assert Value(s, base) == vs * base + x;
    assert Value(t, base) == vt * base + y;
    if vs < vt {
      ValueLessIsLex(s', t', base);
      var k :| 0 <= k < n - 1 && s'[..k] == t'[..k] && s'[k] < t'[k];
      assert s[..k] == s'[..k] && t[..k] == t'[..k];
      assert s[k] < t[k];
    } else if vs == vt {
      ValueInjective(s', t', base);
      DigitOrder(s[n - 1], t[n - 1]);
      assert s[..n - 1] == t[..n - 1] && s[n - 1] < t[n - 1];
    } else {
      DigitBound(vt, vs, y, base);
    }
  }

  lemma LexAsymmetric(s: string, t: string)
    requires LexLess(s, t)
    ensures !LexLess(t, s) && s != t
  {
    var k :| 0 <= k < |s| && s[..k] == t[..k] && s[k] < t[k];
    assert forall j :: 0 <= j < k ==> s[..k][j] == s[j] && t[..k][j] == t[j];
    assert forall j :: k < j <= |s| ==> s[..j][k] == s[k] && t[..j][k] == t[k];
  }

  /** For numerals of one length, dictionary order is numeric order. */
  lemma LexOrderIsNumericOrder(s: string, t: string, base: nat)
    requires base >= 2 && |s| == |t| && IsNumeral(s, base) && IsNumeral(t, base)
    ensures LexLess(s, t) <==> Value(s, base) < Value(t, base)
  {
    if Value(s, base) < Value(t, base) {
      ValueLessIsLex(s, t, base);
    } else if LexLess(s, t) {
      LexAsymmetric(s, t);
      if Value(s, base) == Value(t, base) {
        ValueInjective(s, t, base);
      } else {
        ValueLessIsLex(t, s, base);
      }
    }
  }

  /** Distinct integers have distinct signed numerals. */
  lemma FormatSignedInjective(a: int, b: int, base: nat)
    requires 2 <= base <= 16
    requires FormatSigned(a, base) == FormatSigned(b, base)
    ensures a == b
  {
    if a < 0 && b < 0 {
      NegativeTail(a, base);
      NegativeTail(b, base);
      DigitsInjective(-a, -b, base);
    } else if a >= 0 && b >= 0 {
      DigitsInjective(a, b, base);
    } else {
      SignChar(a, base);
      SignChar(b, base);
    }
  }

  lemma NegativeTail(n: int, base: nat)
    requires 2 <= base <= 16 && n < 0
    ensures FormatSigned(n, base)[1..] == Digits(-n, base)
  {
  }

  /** Different numbers have different numerals. */
  lemma DigitsInjective(x: nat, y: nat, base: nat)
    requires 2 <= base <= 16 && Digits(x, base) == Digits(y, base)
    ensures x == y
  {
    ValueOfDigits(x, base);
    ValueOfDigits(y, base);
  }

  /** A formatted number starts with '-' exactly when it is negative. */
  lemma SignChar(n: int, base: nat)
    requires 2 <= base <= 16
    ensures FormatSigned(n, base)[0] == '-' <==> n < 0
  {
    if n >= 0 {
      assert IsLowerDigit(Digits(n, base)[0]);
    }
  }
}
