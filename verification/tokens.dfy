/** Rendered terminal text as a sequence of tokens: colour escapes take no
    room on screen, every glyph takes one column, whatever its UTF-8 length. */
module Tokens {

  import Arith

  datatype Token = Esc(code: string) | Glyph(c: char)

  /** Number of terminal columns the tokens occupy. */
  function Visible(ts: seq<Token>): nat
  {
    if |ts| == 0 then 0
    else Visible(ts[..|ts| - 1]) + (if ts[|ts| - 1].Glyph? then 1 else 0)
  }

  /** The text left once every escape is removed. */
  function Strip(ts: seq<Token>): string
  {
    if |ts| == 0 then []
    else Strip(ts[..|ts| - 1]) + (if ts[|ts| - 1].Glyph? then [ts[|ts| - 1].c] else [])
  }

  /** The bytes written to the terminal: escapes verbatim, glyphs as their character. */
  function Text(ts: seq<Token>): string
  {
    if |ts| == 0 then []
    else Text(ts[..|ts| - 1]) + (match ts[|ts| - 1] case Esc(e) => e case Glyph(c) => [c])
  }

  /** Every character of `s` shown as a glyph. */
  function Glyphs(s: string): (r: seq<Token>)
    ensures |r| == |s|
    ensures forall i :: 0 <= i < |s| ==> r[i] == Glyph(s[i])
  {
    if |s| == 0 then [] else Glyphs(s[..|s| - 1]) + [Glyph(s[|s| - 1])]
  }

  /** The glyph `c` repeated `n` times (Go's strings.Repeat of a one-rune string). */
  function Repeat(c: char, n: nat): (r: seq<Token>)
    ensures |r| == n
    ensures forall i :: 0 <= i < n ==> r[i] == Glyph(c)
  {
    if n == 0 then [] else Repeat(c, n - 1) + [Glyph(c)]
  }

  /** How many tokens of `ts` equal `t`. */
  function Count(ts: seq<Token>, t: Token): nat
  {
    if |ts| == 0 then 0
    else Count(ts[..|ts| - 1], t) + (if ts[|ts| - 1] == t then 1 else 0)
  }

  lemma VisibleConcat(a: seq<Token>, b: seq<Token>)
    ensures Visible(a + b) == Visible(a) + Visible(b)
    decreases |b|
  {
    if |b| > 0 {
      assert (a + b)[..|a + b| - 1] == a + b[..|b| - 1];
      VisibleConcat(a, b[..|b| - 1]);
    } else {
      assert a + b == a;
    }
  }

  lemma StripConcat(a: seq<Token>, b: seq<Token>)
    ensures Strip(a + b) == Strip(a) + Strip(b)
    decreases |b|
  {
    if |b| > 0 {
      assert (a + b)[..|a + b| - 1] == a + b[..|b| - 1];
      StripConcat(a, b[..|b| - 1]);
    } else {
      assert a + b == a;
    }
  }

  lemma TextConcat(a: seq<Token>, b: seq<Token>)
    ensures Text(a + b) == Text(a) + Text(b)
    decreases |b|
  {
    if |b| > 0 {
      assert (a + b)[..|a + b| - 1] == a + b[..|b| - 1];
      TextConcat(a, b[..|b| - 1]);
    } else {
      assert a + b == a;
    }
  }

  lemma CountConcat(a: seq<Token>, b: seq<Token>, t: Token)
    ensures Count(a + b, t) == Count(a, t) + Count(b, t)
    decreases |b|
  {
    if |b| > 0 {
      assert (a + b)[..|a + b| - 1] == a + b[..|b| - 1];
      CountConcat(a, b[..|b| - 1], t);
    } else {
      assert a + b == a;
    }
  }

  /** The visible width is the length of the escape-stripped text. */
  lemma {:induction false} VisibleIsStripLength(ts: seq<Token>)
    ensures Visible(ts) == |Strip(ts)|
  {
    if |ts| > 0 {
      VisibleIsStripLength(ts[..|ts| - 1]);
    }
  }

  /** Glyphs of a string show exactly that string, one column per character. */
  lemma {:induction false} GlyphsRoundTrip(s: string)
    ensures Strip(Glyphs(s)) == s
    ensures Text(Glyphs(s)) == s
    ensures Visible(Glyphs(s)) == |s|
  {
    if |s| > 0 {
      GlyphsRoundTrip(s[..|s| - 1]);
      assert Glyphs(s)[..|s| - 1] == Glyphs(s[..|s| - 1]);
      assert s == s[..|s| - 1] + [s[|s| - 1]];
    }
  }

  /** A repeated glyph shows as `n` copies of it. */
  lemma {:induction false} RepeatVisible(c: char, n: nat)
    ensures Visible(Repeat(c, n)) == n
    ensures Count(Repeat(c, n), Glyph(c)) == n
  {
    RepeatWidth(c, n);
    RepeatCount(c, n);
  }

  lemma {:induction false} RepeatWidth(c: char, n: nat)
    ensures Visible(Repeat(c, n)) == n
  {
    if n > 0 {
      RepeatWidth(c, n - 1);
      var r := Repeat(c, n);
      assert r[..n - 1] == Repeat(c, n - 1);
      assert r[n - 1].Glyph?;
    }
  }

  lemma {:induction false} RepeatCount(c: char, n: nat)
    ensures Count(Repeat(c, n), Glyph(c)) == n
  {
    if n > 0 {
      RepeatCount(c, n - 1);
      var r := Repeat(c, n);
      assert r[..n - 1] == Repeat(c, n - 1);
      assert r[n - 1] == Glyph(c);
    }
  }

  /** A glyph that does not occur in `s` is never counted among its glyphs. */
  lemma {:induction false} CountGlyphsAbsent(s: string, c: char)
    requires forall i :: 0 <= i < |s| ==> s[i] != c
    ensures Count(Glyphs(s), Glyph(c)) == 0
  {
    if |s| > 0 {
      CountGlyphsAbsent(s[..|s| - 1], c);
      assert Glyphs(s)[..|s| - 1] == Glyphs(s[..|s| - 1]);
    }
  }

  lemma {:induction false} CountRepeatOther(c: char, n: nat, t: Token)
    requires t != Glyph(c)
    ensures Count(Repeat(c, n), t) == 0
  {
    if n > 0 {
      CountRepeatOther(c, n - 1, t);
      assert Repeat(c, n)[..n - 1] == Repeat(c, n - 1);
    }
  }

  /** A token that never occurs is never counted. */
  lemma {:induction false} CountAbsent(ts: seq<Token>, t: Token)
    requires forall i :: 0 <= i < |ts| ==> ts[i] != t
    ensures Count(ts, t) == 0
  {
    if |ts| > 0 {
      CountAbsent(ts[..|ts| - 1], t);
    }
  }

  /** How many tokens of `ts` are escapes. */
  function Escapes(ts: seq<Token>): nat
  {
    if |ts| == 0 then 0
    else Escapes(ts[..|ts| - 1]) + (if ts[|ts| - 1].Esc? then 1 else 0)
  }

  lemma {:induction false} EscapesConcat(a: seq<Token>, b: seq<Token>)
    ensures Escapes(a + b) == Escapes(a) + Escapes(b)
    decreases |b|
  {
    if |b| > 0 {
      assert (a + b)[..|a + b| - 1] == a + b[..|b| - 1];
      EscapesConcat(a, b[..|b| - 1]);
    } else {
      assert a + b == a;
    }
  }

  /** Glyphs alone hold no escape. */
  lemma {:induction false} NoEscapes(ts: seq<Token>)
    requires forall i :: 0 <= i < |ts| ==> ts[i].Glyph?
    ensures Escapes(ts) == 0
  {
    if |ts| > 0 {
      NoEscapes(ts[..|ts| - 1]);
    }
  }

  /** The first n parts, in order, written one after the other. */
  function Join(parts: nat -> seq<Token>, n: nat): seq<Token>
  {
    if n == 0 then [] else Join(parts, n - 1) + parts(n - 1)
  }

  /** w(0) + ... + w(k - 1). */
  function Sum(w: nat -> nat, k: nat): nat
  {
    if k == 0 then 0 else Sum(w, k - 1) + w(k - 1)
  }

  /** Parts of known widths join to the sum of the widths. */
  lemma {:induction false} JoinVisible(parts: nat -> seq<Token>, w: nat -> nat, k: nat)
    requires forall i :: 0 <= i < k ==> Visible(parts(i)) == w(i)
    ensures Visible(Join(parts, k)) == Sum(w, k)
  {
    if k > 0 {
      JoinVisible(parts, w, k - 1);
      VisibleConcat(Join(parts, k - 1), parts(k - 1));
    }
  }

  /** Parts that agree below n join to the same tokens. */
  lemma {:induction false} JoinCongruent(p: nat -> seq<Token>, q: nat -> seq<Token>, n: nat)
    requires forall i :: 0 <= i < n ==> p(i) == q(i)
    ensures Join(p, n) == Join(q, n)
  {
    if n > 0 {
      JoinCongruent(p, q, n - 1);
    }
  }

  /** The parts from m on, renumbered from 0. */
  function Shift(parts: nat -> seq<Token>, m: nat): nat -> seq<Token>
  {
    (k: nat) => parts(m + k)
  }

  /** Of the n parts from m on, the first holds one escape and the others
      none. */
  predicate OneEscapeFirst(parts: nat -> seq<Token>, m: nat, n: nat)
  {
    (n > 0 ==> Escapes(parts(m)) == 1)
    && forall i :: m < i < m + n ==> Escapes(parts(i)) == 0
  }

  /** Such parts hold one escape in all, or none when there are none. */
  lemma PaddedJoinEscapes(parts: nat -> seq<Token>, m: nat, n: nat)
    requires OneEscapeFirst(parts, m, n)
    ensures Escapes(Join(Shift(parts, m), n)) == if n > 0 then 1 else 0
  {
    forall k | 0 < k < n
      ensures Escapes(Shift(parts, m)(k)) == 0
    {
      assert Shift(parts, m)(k) == parts(m + k);
    }
    JoinEscapes(Shift(parts, m), n);
    assert Shift(parts, m)(0) == parts(m + 0);
  }

  /** A join splits after its first m parts into those and the rest. */
  lemma {:induction false} JoinShift(parts: nat -> seq<Token>, m: nat, n: nat)
    requires m <= n
    ensures Join(parts, n) == Join(parts, m) + Join(Shift(parts, m), n - m)
  {
    if n > m {
      JoinShift(parts, m, n - 1);
      assert Shift(parts, m)(n - 1 - m) == parts(n - 1);
    }
  }

  /** JoinShift for sequences already known to be the three joins. */
  lemma JoinSplit(parts: nat -> seq<Token>, m: nat, n: nat, whole: seq<Token>, front: seq<Token>, back: seq<Token>)
    requires m <= n
    requires whole == Join(parts, n)
    requires front == Join(parts, m)
    requires back == Join(Shift(parts, m), n - m)
    ensures whole == front + back
  {
    JoinShift(parts, m, n);
  }

  /** When only the first part holds escapes, the join holds just those. */
  lemma {:induction false} JoinEscapes(parts: nat -> seq<Token>, n: nat)
    requires forall k :: 0 < k < n ==> Escapes(parts(k)) == 0
    ensures Escapes(Join(parts, n)) == if n == 0 then 0 else Escapes(parts(0))
  {
    if n > 0 {
      JoinEscapes(parts, n - 1);
      EscapesConcat(Join(parts, n - 1), parts(n - 1));
    }
  }

  /** A join of at least one part starts with the first part. */
  lemma FirstPart(parts: nat -> seq<Token>, n: nat)
    requires n > 0
    ensures |parts(0)| <= |Join(parts, n)|
    ensures forall k :: 0 <= k < |parts(0)| ==> Join(parts, n)[k] == parts(0)[k]
  {
    JoinPrefix(parts, 1, n);
    assert Join(parts, 1) == parts(0);
  }

  /** A shorter join is a prefix of a longer one. */
  lemma {:induction false} JoinPrefix(parts: nat -> seq<Token>, n: nat, m: nat)
    requires n <= m
    ensures |Join(parts, n)| <= |Join(parts, m)|
    ensures Join(parts, m)[..|Join(parts, n)|] == Join(parts, n)
    decreases m - n
  {
    if n < m {
      JoinPrefix(parts, n + 1, m);
      var a, b := Join(parts, n), Join(parts, n + 1);
      assert b[..|a|] == a;
    }
  }

  /** A window of a window is a window of the whole. */
  lemma SliceWithin<T>(whole: seq<T>, start: nat, s: seq<T>, a: nat, b: nat)
    requires start + |s| <= |whole| && whole[start..start + |s|] == s && a <= b <= |s|
    ensures whole[start + a..start + b] == s[a..b]
  {
    forall k | 0 <= k < b - a
      ensures whole[start + a..start + b][k] == s[a..b][k]
    {
      assert whole[start + a..start + b][k] == whole[start..start + |s|][a + k];
    }
  }

  /** A window laid out as `pre`, then `e`, then `p`, then anything: `e`
      and `p` sit at the matching offsets of the whole. */
  lemma WindowLayout(whole: seq<Token>, start: nat, pre: seq<Token>, e: Token, p: seq<Token>, rest: seq<Token>)
    requires start + |pre + ([e] + p) + rest| <= |whole|
    requires whole[start..start + |pre + ([e] + p) + rest|] == pre + ([e] + p) + rest
    ensures start + |pre| + 1 + |p| <= |whole|
    ensures whole[start + |pre|] == e
    ensures whole[start + |pre| + 1..start + |pre| + 1 + |p|] == p
  {
    var s := pre + ([e] + p) + rest;
    assert whole[start + |pre|] == whole[start..start + |s|][|pre|];
    SliceWithin(whole, start, s, |pre| + 1, |pre| + 1 + |p|);
    assert s[|pre| + 1..|pre| + 1 + |p|] == p;
  }

  /** Part i sits right after the first i parts. */
  lemma JoinPlacement(parts: nat -> seq<Token>, i: nat, m: nat)
    requires i < m
    ensures |Join(parts, i)| + |parts(i)| <= |Join(parts, m)|
    ensures Join(parts, m)[|Join(parts, i)|..|Join(parts, i)| + |parts(i)|] == parts(i)
  {
    JoinPrefix(parts, i + 1, m);
    var whole, pre, upto := Join(parts, m), Join(parts, i), Join(parts, i + 1);
    assert upto == pre + parts(i);
    SliceWithin(whole, 0, upto, |pre|, |upto|);
    assert upto[|pre|..|upto|] == parts(i);
  }

  /** When the parts before m hold no `t` and every later part holds c of
      them, the join holds c for each part from m on. */
  lemma {:induction false} JoinCount(parts: nat -> seq<Token>, n: nat, m: nat, t: Token, c: nat)
    requires forall i :: 0 <= i < n && i < m ==> Count(parts(i), t) == 0
    requires forall i :: m <= i < n ==> Count(parts(i), t) == c
    ensures Count(Join(parts, n), t) == if n <= m then 0 else (n - m) * c
  {
    if n > 0 {
      JoinCount(parts, n - 1, m, t, c);
      CountConcat(Join(parts, n - 1), parts(n - 1), t);
      CountStep(Count(Join(parts, n - 1), t), Count(parts(n - 1), t), n, m, c);
    }
  }

  /** One more part adds c to the count once the parts from m on are reached. */
  lemma CountStep(prev: nat, here: nat, n: nat, m: nat, c: nat)
    requires n > 0
    requires prev == if n - 1 <= m then 0 else (n - 1 - m) * c
    requires here == if n - 1 < m then 0 else c
    ensures prev + here == if n <= m then 0 else (n - m) * c
  {
    if n > m + 1 {
      Arith.MulSucc(n - 1 - m, c);
    }
  }
}
