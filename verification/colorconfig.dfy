/** The colour configuration readers: line-oriented `name=value` files with
    ';' comments. One reader maps colour groups to escape sequences and
    checks that the required groups are present; the other assigns a
    group's escape to byte values, building the 256-entry palette. The
    line splitting of the input reader is left to the caller: both readers
    take the lines. */
module ColorConfig {

  import opened Wrappers
  import opened Numerals
  import Ansi
  import GoInts

  // ------------------------------------------------------------ text helpers

  /** Go's unicode.IsSpace. */
  predicate IsSpace(c: char)
  {
    c == '\t' || c == '\n' || c == '\U{0B}' || c == '\U{0C}' || c == '\r' || c == ' '
    || c == '\U{85}' || c == '\U{A0}' || c == '\U{1680}' || '\U{2000}' <= c <= '\U{200A}'
    || c == '\U{2028}' || c == '\U{2029}' || c == '\U{202F}' || c == '\U{205F}' || c == '\U{3000}'
  }

  /** Index of the first character that is not white space, or |s|. */
  function Lead(s: string): (k: nat)
    ensures k <= |s| && forall i :: 0 <= i < k ==> IsSpace(s[i])
    ensures k < |s| ==> !IsSpace(s[k])
  {
    if |s| == 0 || !IsSpace(s[0]) then 0 else 1 + Lead(s[1..])
  }

  /** One past the last character that is not white space, or 0. */
  function Trail(s: string): (k: nat)
    ensures k <= |s| && forall i :: k <= i < |s| ==> IsSpace(s[i])
    ensures k > 0 ==> !IsSpace(s[k - 1])
  {
    if |s| == 0 || !IsSpace(s[|s| - 1]) then |s| else Trail(s[..|s| - 1])
  }

  /** strings.TrimSpace: the text between the leading and the trailing
      white space. */
  function TrimSpace(s: string): (r: string)
    ensures |r| <= |s|
    ensures |r| > 0 ==> !IsSpace(r[0]) && !IsSpace(r[|r| - 1])
    ensures |r| == 0 ==> forall i :: 0 <= i < |s| ==> IsSpace(s[i])
  {
    var a := Lead(s);
    if a == |s| then [] else s[a..Trail(s)]
  }

  predicate AllSpace(s: string)
  {
    forall i :: 0 <= i < |s| ==> IsSpace(s[i])
  }

  /** The trimmed text is the only core that white space on both sides
      surrounds: TrimSpace removes exactly the outer white space. */
  lemma TrimSpaceUnique(p: string, r: string, q: string)
    requires AllSpace(p) && AllSpace(q)
    requires |r| > 0 ==> !IsSpace(r[0]) && !IsSpace(r[|r| - 1])
    ensures TrimSpace(p + r + q) == r
  {
    var s := p + r + q;
    SpacedParts(p, r, q);
    if |r| == 0 {
      assert Lead(s) == |s|;
    } else {
      LeadAt(s, |p|);
      TrailAt(s, |p| + |r|);
      assert s[|p|..|p| + |r|] == r;
    }
  }

  /** Where the white space of `p + r + q` lies. */
  lemma SpacedParts(p: string, r: string, q: string)
    requires AllSpace(p) && AllSpace(q)
    requires |r| > 0 ==> !IsSpace(r[0]) && !IsSpace(r[|r| - 1])
    ensures var s := p + r + q;
      && (forall i :: 0 <= i < |p| ==> IsSpace(s[i]))
      && (forall i :: |p| + |r| <= i < |s| ==> IsSpace(s[i]))
      && (|r| > 0 ==> !IsSpace(s[|p|]) && !IsSpace(s[|p| + |r| - 1]))
  {
    var s := p + r + q;
    forall i | 0 <= i < |p| ensures IsSpace(s[i]) {
      assert s[i] == p[i];
    }
    forall i | |p| + |r| <= i < |s| ensures IsSpace(s[i]) {
      assert s[i] == q[i - |p| - |r|];
    }
    if |r| > 0 {
      assert s[|p|] == r[0];
      assert s[|p| + |r| - 1] == r[|r| - 1];
    }
  }

  /** Lead is the first non-space position. */
  lemma LeadAt(s: string, k: nat)
    requires k < |s| && !IsSpace(s[k]) && forall i :: 0 <= i < k ==> IsSpace(s[i])
    ensures Lead(s) == k
  {
  }

  /** Trail is one past the last non-space position. */
  lemma TrailAt(s: string, k: nat)
    requires 0 < k <= |s| && !IsSpace(s[k - 1]) && forall i :: k <= i < |s| ==> IsSpace(s[i])
    ensures Trail(s) == k
  {
  }

  /** Trimming twice trims nothing more. */
  lemma TrimSpaceIdempotent(s: string)
    ensures TrimSpace(TrimSpace(s)) == TrimSpace(s)
  {
    var r := TrimSpace(s);
    assert [] + r + [] == r;
    TrimSpaceUnique([], r, []);
  }

  /** Index of the first `c` in `s`, or |s|. */
  function IndexOf(s: string, c: char): (k: nat)
    ensures k <= |s| && forall i :: 0 <= i < k ==> s[i] != c
    ensures k < |s| ==> s[k] == c
  {
    if |s| == 0 || s[0] == c then 0 else 1 + IndexOf(s[1..], c)
  }

  /** Length of the longest prefix of `s` whose characters all satisfy `p`. */
  function Run(s: string, p: char -> bool): (n: nat)
    ensures n <= |s| && forall i :: 0 <= i < n ==> p(s[i])
    ensures n < |s| ==> !p(s[n])
  {
    if |s| == 0 || !p(s[0]) then 0 else 1 + Run(s[1..], p)
  }

  // ------------------------------------------------------------ matching

  datatype Assignment = Assignment(name: string, value: string)

  /** The regular expression ^([^=]+)=(V+), V being the characters that
      satisfy `p`, matches the start of `line` capturing `a`: a non-empty
      name without '=', the '=', and a non-empty run of V that the next
      character (if any) ends. */
  predicate Matches(line: string, a: Assignment, p: char -> bool)
  {
    && |a.name| > 0 && (forall i :: 0 <= i < |a.name| ==> a.name[i] != '=')
    && |a.value| > 0 && (forall i :: 0 <= i < |a.value| ==> p(a.value[i]))
    && |a.name| + 1 + |a.value| <= |line|
    && line[..|a.name| + 1 + |a.value|] == a.name + "=" + a.value
    && (|a.name| + 1 + |a.value| < |line| ==> !p(line[|a.name| + 1 + |a.value|]))
  }

  /** The hand-rolled matcher: the name runs to the first '=', the value is
      the greedy run after it. */
  function Match(line: string, p: char -> bool): (r: Option<Assignment>)
    ensures r.Some? ==> Matches(line, r.value, p)
  {
    var e := IndexOf(line, '=');
    if e == 0 || e == |line| then None
    else
      var n := Run(line[e + 1..], p);
      if n == 0 then None
      else
        var a := Assignment(line[..e], line[e + 1..e + 1 + n]);
        assert line[..e + 1 + n] == a.name + "=" + a.value;
        Some(a)
  }

  /** Whatever the expression matches, the matcher finds: so the match is
      unique and the matcher misses nothing. */
  lemma MatchComplete(line: string, a: Assignment, p: char -> bool)
    requires Matches(line, a, p)
    ensures Match(line, p) == Some(a)
  {
    var k := |a.name|;
    SplitAssignment(line, a.name, a.value);
    IndexOfAt(line, '=', k);
    RunAt(line[k + 1..], p, |a.value|);
  }

  /** The pieces of a line that starts with name=value. */
  lemma SplitAssignment(line: string, name: string, value: string)
    requires |name| + 1 + |value| <= |line|
    requires line[..|name| + 1 + |value|] == name + "=" + value
    ensures line[..|name|] == name && line[|name|] == '='
    ensures line[|name| + 1..][..|value|] == value
  {
    var w := line[..|name| + 1 + |value|];
    assert line[..|name|] == w[..|name|];
    assert line[|name|] == w[|name|];
    assert line[|name| + 1..][..|value|] == w[|name| + 1..];
  }

  lemma {:induction false} IndexOfAt(s: string, c: char, k: nat)
    requires k < |s| && s[k] == c && forall i :: 0 <= i < k ==> s[..k][i] != c
    ensures IndexOf(s, c) == k
  {
    if k > 0 {
      assert s[..k][0] == s[0] != c;
      var t := s[1..];
      var m, w := k - 1, s[..k];
      forall i | 0 <= i < m
        ensures t[..m][i] != c
      {
        assert t[..m][i] == w[i + 1];
      }
      IndexOfAt(t, c, m);
    }
  }

  lemma {:induction false} RunAt(s: string, p: char -> bool, n: nat)
    requires n <= |s| && (forall i :: 0 <= i < n ==> p(s[..n][i])) && (n < |s| ==> !p(s[n]))
    ensures Run(s, p) == n
  {
    if n > 0 {
      assert p(s[..n][0]) && s[..n][0] == s[0];
      var t := s[1..];
      var m, w := n - 1, s[..n];
      forall i | 0 <= i < m
        ensures p(t[..m][i])
      {
        assert t[..m][i] == w[i + 1];
      }
      RunAt(t, p, n - 1);
    }
  }

  /** The value class of the group-defaults reader: not RE2's \s, which is
      [\t\n\f\r ]. */
  predicate NotReSpace(c: char)
  {
    !(c == '\t' || c == '\n' || c == '\U{0C}' || c == '\r' || c == ' ')
  }

  /** The value class of the byte-colour reader: anything but a line break. */
  predicate NotLineBreak(c: char)
  {
    c != '\r' && c != '\n'
  }

  predicate IsComment(line: string)
  {
    |line| > 0 && line[0] == ';'
  }

  /** A line as both readers see it: trimmed, skipped when it is a comment,
      then matched. */
  function Directive(raw: string, p: char -> bool): (r: Option<Assignment>)
    ensures r.Some? ==> !IsComment(TrimSpace(raw)) && Matches(TrimSpace(raw), r.value, p)
  {
    var line := TrimSpace(raw);
    if IsComment(line) then None else Match(line, p)
  }

  /** Every matching line that is not a comment is read. */
  lemma DirectiveComplete(raw: string, a: Assignment, p: char -> bool)
    requires !IsComment(TrimSpace(raw)) && Matches(TrimSpace(raw), a, p)
    ensures Directive(raw, p) == Some(a)
  {
    MatchComplete(TrimSpace(raw), a, p);
  }

  /** A space around the '=' stops the group-defaults expression: the value
      must start right after the '='. */
  lemma SpacedAssignmentIgnored(name: string, value: string)
    requires |name| > 0 && !IsSpace(name[0]) && forall i :: 0 <= i < |name| ==> name[i] != '='
    ensures Directive(name + " = " + value, NotReSpace).None?
  {
    var raw := name + " = " + value;
    var k := |name| + 1;
    assert raw[0] == name[0] && raw[k] == '=';
    var t := Trail(raw);
    assert k < t;
    var line := TrimSpace(raw);
    assert line == raw[..t];
    assert forall i :: 0 <= i < k - 1 ==> line[..k][i] == name[i];
    assert line[k - 1] == ' ';
    IndexOfAt(line, '=', k);
    if k + 1 < |line| {
      assert line[k + 1..][0] == raw[k + 1] == ' ';
    }
  }

  /** The lines as a reader sees them, one directive or nothing per line. */
  function Directives(lines: seq<string>, p: char -> bool): (ds: seq<Option<Assignment>>)
    ensures |ds| == |lines| && forall k :: 0 <= k < |lines| ==> ds[k] == Directive(lines[k], p)
  {
    seq(|lines|, k requires 0 <= k < |lines| => Directive(lines[k], p))
  }

  // ------------------------------------------------------------ group defaults

  /** The escape a group's colour parameter becomes: the line backgrounds
      are complete SGR parameters, every other group a 256-colour
      foreground index. */
  function GroupEscape(name: string, param: string): string
  {
    if name == "LineEven" || name == "LineOdd" then Ansi.Esc + param + "m"
    else Ansi.SetForeground + param + "m"
  }

  /** The groups the directives define, a later one for a name replacing
      an earlier one. */
  function Groups(ds: seq<Option<Assignment>>): map<string, string>
  {
    if |ds| == 0 then map[]
    else
      var m := Groups(ds[..|ds| - 1]);
      match ds[|ds| - 1]
      case None => m
      case Some(a) => m[a.name := GroupEscape(a.name, a.value)]
  }

  predicate Defines(d: Option<Assignment>, name: string)
  {
    d.Some? && d.value.name == name
  }

  /** A group is defined exactly when some line names it. */
  lemma {:induction false} GroupsDomain(ds: seq<Option<Assignment>>, name: string)
    ensures name in Groups(ds) <==> exists k :: 0 <= k < |ds| && Defines(ds[k], name)
  {
    if |ds| > 0 {
      var init := ds[..|ds| - 1];
      GroupsDomain(init, name);
      if name in Groups(ds) && !Defines(ds[|ds| - 1], name) {
        var k :| 0 <= k < |init| && Defines(init[k], name);
        assert ds[k] == init[k];
      }
      if !(name in Groups(ds)) {
        forall k | 0 <= k < |ds|
          ensures !Defines(ds[k], name)
        {
          if k < |init| {
            assert ds[k] == init[k];
          }
        }
      }
    }
  }

  /** The last line that names a group decides its escape. */
  lemma {:induction false} LastDefinitionWins(ds: seq<Option<Assignment>>, k: nat)
    requires k < |ds| && ds[k].Some?
    requires forall j :: k < j < |ds| ==> !Defines(ds[j], ds[k].value.name)
    ensures ds[k].value.name in Groups(ds)
    ensures Groups(ds)[ds[k].value.name] == GroupEscape(ds[k].value.name, ds[k].value.value)
  {
    if k < |ds| - 1 {
      var init := ds[..|ds| - 1];
      assert init[k] == ds[k];
      forall j | k < j < |init|
        ensures !Defines(init[j], ds[k].value.name)
      {
        assert init[j] == ds[j];
      }
      LastDefinitionWins(init, k);
    }
  }

  /** GetColorGroupColorDefaults: the groups the lines define, or an error
      naming a required group no line defines. Which missing group is named
      depends on Go's map order, so the contract only says it is one. */
  method GetColorGroupColorDefaults(lines: seq<string>, required: seq<string>) returns (r: Result<map<string, string>>)
    ensures r.Success? <==> forall i :: 0 <= i < |required| ==> required[i] in Groups(Directives(lines, NotReSpace))
    ensures r.Success? ==> r.value == Groups(Directives(lines, NotReSpace))
    ensures r.Failure? ==> exists i :: 0 <= i < |required| && required[i] !in Groups(Directives(lines, NotReSpace))
                                       && r.error == "group " + required[i] + " was not found"
  {
    r := CollectGroups(Directives(lines, NotReSpace), required);
  }

  /** The loops of GetColorGroupColorDefaults over the directives. */
  method CollectGroups(ds: seq<Option<Assignment>>, required: seq<string>) returns (r: Result<map<string, string>>)
    ensures r.Success? <==> forall i :: 0 <= i < |required| ==> required[i] in Groups(ds)
    ensures r.Success? ==> r.value == Groups(ds)
    ensures r.Failure? ==> exists i :: 0 <= i < |required| && required[i] !in Groups(ds)
                                       && r.error == "group " + required[i] + " was not found"
  {
    var groupcolors: map<string, string> := map[];
    for i := 0 to |ds|
      invariant groupcolors == Groups(ds[..i])
    {
      assert ds[..i + 1][..i] == ds[..i];
      var found := ds[i];
      if found.None? {
        continue;
      }
      var a := found.value;
      groupcolors := groupcolors[a.name := GroupEscape(a.name, a.value)];
    }
    assert ds[..|ds|] == ds;
    for i := 0 to |required|
      invariant forall j :: 0 <= j < i ==> required[j] in groupcolors
    {
      if required[i] !in groupcolors {
        return Failure("group " + required[i] + " was not found");
      }
    }
    return Success(groupcolors);
  }

  // ------------------------------------------------------------ byte colours

  predicate IsDigit(c: char)
  {
    '0' <= c <= '9'
  }

  /** What the expression (\d+) finds, left to right: the maximal runs of
      decimal digits. */
  function DigitRuns(s: string): (runs: seq<string>)
    ensures forall k :: 0 <= k < |runs| ==> |runs[k]| > 0 && IsNumeral(runs[k], 10)
    decreases |s|
  {
    if |s| == 0 then []
    else if !IsDigit(s[0]) then DigitRuns(s[1..])
    else
      var n := Run(s, IsDigit);
      assert forall i :: 0 <= i < n ==> s[..n][i] == s[i];
      [s[..n]] + DigitRuns(s[n..])
  }

  predicate AllDigits(s: string)
  {
    forall i :: 0 <= i < |s| ==> IsDigit(s[i])
  }

  /** A run of digits, a separator and more text: the run is found first,
      and the search resumes after the separator. */
  lemma DigitRunsSeparated(run: string, c: char, rest: string)
    requires |run| > 0 && AllDigits(run) && !IsDigit(c)
    ensures DigitRuns(run + [c] + rest) == [run] + DigitRuns(rest)
  {
    var s := run + [c] + rest;
    assert s[..|run|] == run;
    RunAt(s, IsDigit, |run|);
    assert s[|run|..][1..] == rest;
  }

  /** A non-digit in front is skipped. */
  lemma DigitRunsSkip(c: char, rest: string)
    requires !IsDigit(c)
    ensures DigitRuns([c] + rest) == DigitRuns(rest)
  {
    assert ([c] + rest)[1..] == rest;
  }

  /** The runs of any string, taken apart at its first non-digit: the
      leading digits, when there are any, are the first run, and the search
      resumes after that non-digit. Every string is either all digits
      (DigitRunsWhole, or no runs when empty) or of this shape, so the
      three lemmas fix DigitRuns on every input. */
  lemma DigitRunsStep(digits: string, c: char, rest: string)
    requires AllDigits(digits) && !IsDigit(c)
    ensures DigitRuns(digits + [c] + rest) == (if |digits| > 0 then [digits] else []) + DigitRuns(rest)
  {
    if |digits| > 0 {
      DigitRunsSeparated(digits, c, rest);
    } else {
      assert digits + [c] + rest == [c] + rest;
      DigitRunsSkip(c, rest);
    }
  }

  /** A string of digits alone is one run. */
  lemma DigitRunsWhole(run: string)
    requires |run| > 0 && AllDigits(run)
    ensures DigitRuns(run) == [run]
  {
    assert run[..|run|] == run;
    RunAt(run, IsDigit, |run|);
  }

  /** "0-31" names two bytes, 0 and 31, and not the range between them. */
  lemma RangeIsTwoNumbers()
    ensures DigitRuns("0-31") == ["0", "31"]
    ensures Value("0", 10) == 0 && Value("31", 10) == 31
  {
    DigitRunsSeparated("0", '-', "31");
    assert "0" + ['-'] + "31" == "0-31";
    DigitRunsWhole("31");
  }

  /** FindAllString with a limit: the first n matches, or all of them when
      there are fewer. */
  function First<T>(s: seq<T>, n: nat): (r: seq<T>)
    ensures |r| == if |s| <= n then |s| else n
    ensures forall k :: 0 <= k < |r| ==> r[k] == s[k]
  {
    if |s| <= n then s else s[..n]
  }

  /** The largest value strconv.Atoi accepts: Go's int, taken as 64 bits. */
  const MaxInt: nat := GoInts.TwoTo63 - 1

  /** The text of strconv.Atoi's out-of-range error. */
  function AtoiRangeError(run: string): string
  {
    "strconv.Atoi: parsing \"" + run + "\": value out of range"
  }

  /** What GetColors ends with: the table and, when a number overflowed
      Atoi, the error returned beside the partly filled table; or the index
      panic of a number past the 256 entries. */
  datatype Colors = Colors(table: seq<string>, err: Option<string>) | IndexPanic(index: nat)
  {
    predicate Clean()
    {
      Colors? && err.None?
    }
  }

  /** groups[name], "" for a missing name. */
  function Lookup(groups: map<string, string>, name: string): string
  {
    if name in groups then groups[name] else ""
  }

  /** The numbers the runs denote, in order. */
  function Numbers(runs: seq<string>): (ns: seq<nat>)
    requires forall k :: 0 <= k < |runs| ==> IsNumeral(runs[k], 10)
    ensures |ns| == |runs| && forall k :: 0 <= k < |runs| ==> ns[k] == Value(runs[k], 10)
  {
    seq(|runs|, k requires 0 <= k < |runs| => Value(runs[k], 10))
  }

  /** One number: Atoi, then the store into the table. */
  function Store(table: seq<string>, run: string, color: string): (c: Colors)
    requires |table| == 256 && IsNumeral(run, 10)
    ensures c.Colors? ==> |c.table| == 256
  {
    var n := Value(run, 10);
    if n > MaxInt then Colors(table, Some(AtoiRangeError(run)))
    else if n >= 256 then IndexPanic(n)
    else Colors(table[n := color], None)
  }

  /** The numbers of one line stored in order, stopping at the first error. */
  function StoreAll(table: seq<string>, runs: seq<string>, color: string): (c: Colors)
    requires |table| == 256 && forall k :: 0 <= k < |runs| ==> IsNumeral(runs[k], 10)
    ensures c.Colors? ==> |c.table| == 256
  {
    if |runs| == 0 then Colors(table, None)
    else
      var c := StoreAll(table, runs[..|runs| - 1], color);
      if c.Clean() then Store(c.table, runs[|runs| - 1], color) else c
  }

  /** The numbers a configuration line lists: the first 1024 matches of
      (\d+) in its value, or all of them when there are fewer. */
  function LineRuns(a: Assignment): (runs: seq<string>)
    ensures |runs| == if |DigitRuns(a.value)| <= 1024 then |DigitRuns(a.value)| else 1024
    ensures runs == DigitRuns(a.value)[..|runs|]
    ensures forall k :: 0 <= k < |runs| ==> IsNumeral(runs[k], 10)
  {
    First(DigitRuns(a.value), 1024)
  }

  /** The table after the directives, stopping at the first error. */
  function StoreLines(table: seq<string>, ds: seq<Option<Assignment>>, groups: map<string, string>): (c: Colors)
    requires |table| == 256
    ensures c.Colors? ==> |c.table| == 256
  {
    if |ds| == 0 then Colors(table, None)
    else
      var c := StoreLines(table, ds[..|ds| - 1], groups);
      if !c.Clean() then c
      else match ds[|ds| - 1]
        case None => c
        case Some(a) => StoreAll(c.table, LineRuns(a), Lookup(groups, a.name))
  }

  /** Every byte starts with the Default group's escape. */
  function Initial(groups: map<string, string>): (t: seq<string>)
    ensures |t| == 256 && forall i :: 0 <= i < 256 ==> t[i] == Lookup(groups, "Default")
  {
    seq(256, _ => Lookup(groups, "Default"))
  }

  /** The stores of one line, as GetColors' inner loop performs them. */
  method StoreNumbers(table: seq<string>, runs: seq<string>, color: string) returns (c: Colors)
    requires |table| == 256 && forall k :: 0 <= k < |runs| ==> IsNumeral(runs[k], 10)
    ensures c == StoreAll(table, runs, color)
  {
    var t := table;
    for j := 0 to |runs|
      invariant StoreAll(table, runs[..j], color) == Colors(t, None)
    {
      assert runs[..j + 1][..j] == runs[..j];
      var n := Value(runs[j], 10);
      if n > MaxInt {
        StoreAllStops(table, runs, color, j + 1);
        return Colors(t, Some(AtoiRangeError(runs[j])));
      }
      if n >= 256 {
        StoreAllStops(table, runs, color, j + 1);
        return IndexPanic(n);
      }
      t := t[n := color];
    }
    assert runs[..|runs|] == runs;
    return Colors(t, None);
  }

  /** Once a prefix of the numbers fails, the rest change nothing. */
  lemma {:induction false} StoreAllStops(table: seq<string>, runs: seq<string>, color: string, j: nat)
    requires |table| == 256 && forall k :: 0 <= k < |runs| ==> IsNumeral(runs[k], 10)
    requires j <= |runs| && !StoreAll(table, runs[..j], color).Clean()
    ensures StoreAll(table, runs, color) == StoreAll(table, runs[..j], color)
    decreases |runs| - j
  {
    if j < |runs| {
      assert runs[..j + 1][..j] == runs[..j];
      StoreAllStops(table, runs, color, j + 1);
    } else {
      assert runs[..j] == runs;
    }
  }

  /** Once the lines so far fail, the later lines change nothing. */
  lemma {:induction false} StoreLinesStops(table: seq<string>, ds: seq<Option<Assignment>>, groups: map<string, string>, i: nat)
    requires |table| == 256
    requires i <= |ds| && !StoreLines(table, ds[..i], groups).Clean()
    ensures StoreLines(table, ds, groups) == StoreLines(table, ds[..i], groups)
    decreases |ds| - i
  {
    if i < |ds| {
      assert ds[..i + 1][..i] == ds[..i];
      StoreLinesStops(table, ds, groups, i + 1);
    } else {
      assert ds[..i] == ds;
    }
  }

  /** GetColors: every byte gets the Default escape, then each listed
      number the escape of its line's group, in file order. */
  method GetColors(lines: seq<string>, groups: map<string, string>) returns (c: Colors)
    ensures c == StoreLines(Initial(groups), Directives(lines, NotLineBreak), groups)
  {
    c := ColorDirectives(Directives(lines, NotLineBreak), groups);
  }

  /** The loop of GetColors over the directives. */
  method ColorDirectives(ds: seq<Option<Assignment>>, groups: map<string, string>) returns (c: Colors)
    ensures c == StoreLines(Initial(groups), ds, groups)
  {
    var table := Initial(groups);
    for i := 0 to |ds|
      invariant StoreLines(Initial(groups), ds[..i], groups) == Colors(table, None)
    {
      StoreLinesNext(Initial(groups), ds, groups, i, table);
      var found := ds[i];
      if found.None? {
        continue;
      }
      var a := found.value;
      var step := StoreNumbers(table, LineRuns(a), Lookup(groups, a.name));
      if !step.Clean() {
        StoreLinesStops(Initial(groups), ds, groups, i + 1);
        return step;
      }
      table := step.table;
    }
    assert ds[..|ds|] == ds;
    return Colors(table, None);
  }

  /** One more line of the fold: a comment leaves a clean table as it is,
      a directive stores its numbers. */
  lemma StoreLinesNext(init: seq<string>, ds: seq<Option<Assignment>>, groups: map<string, string>, i: nat, table: seq<string>)
    requires |init| == 256 && i < |ds|
    requires StoreLines(init, ds[..i], groups) == Colors(table, None)
    ensures StoreLines(init, ds[..i + 1], groups)
         == if ds[i].None? then Colors(table, None)
            else StoreAll(table, LineRuns(ds[i].value), Lookup(groups, ds[i].value.name))
  {
    assert ds[..i + 1][..i] == ds[..i];
  }

  // ------------------------------------------------------------ the palette, byte by byte

  /** The numbers a directive assigns. */
  function Assigned(d: Option<Assignment>): seq<nat>
  {
    match d
    case None => []
    case Some(a) => Numbers(LineRuns(a))
  }

  /** The escape byte `b` ends with, read off the directives independently
      of the table: the group of the last line that lists it, or Default. */
  function LastColor(b: nat, ds: seq<Option<Assignment>>, groups: map<string, string>): string
  {
    if |ds| == 0 then Lookup(groups, "Default")
    else if b in Assigned(ds[|ds| - 1]) then Lookup(groups, ds[|ds| - 1].value.name)
    else LastColor(b, ds[..|ds| - 1], groups)
  }

  /** A clean store of one line's numbers sets exactly the listed bytes. */
  lemma {:induction false} StoreAllEffect(table: seq<string>, runs: seq<string>, color: string, b: nat)
    requires |table| == 256 && forall k :: 0 <= k < |runs| ==> IsNumeral(runs[k], 10)
    requires StoreAll(table, runs, color).Clean() && b < 256
    ensures StoreAll(table, runs, color).table[b] == if b in Numbers(runs) then color else table[b]
  {
    if |runs| > 0 {
      var init := runs[..|runs| - 1];
      StoreAllEffect(table, init, color, b);
      assert Numbers(runs) == Numbers(init) + [Value(runs[|runs| - 1], 10)];
    }
  }

  /** When GetColors finishes cleanly, every byte holds the escape of the
      last line listing it, or the Default escape if none does. */
  lemma {:induction false} ColorsAreLastAssignments(ds: seq<Option<Assignment>>, groups: map<string, string>, b: nat)
    requires StoreLines(Initial(groups), ds, groups).Clean() && b < 256
    ensures StoreLines(Initial(groups), ds, groups).table[b] == LastColor(b, ds, groups)
  {
    if |ds| > 0 {
      var init := ds[..|ds| - 1];
      ColorsAreLastAssignments(init, groups, b);
      var c := StoreLines(Initial(groups), init, groups);
      match ds[|ds| - 1]
      case None =>
      case Some(a) =>
        StoreAllEffect(c.table, LineRuns(a), Lookup(groups, a.name), b);
    }
  }

  /** No number a directive lists reaches past the table. */
  predicate LineBytes(d: Option<Assignment>)
  {
    forall j :: 0 <= j < |Assigned(d)| ==> Assigned(d)[j] < 256
  }

  predicate AllBytes(ds: seq<Option<Assignment>>)
  {
    forall k :: 0 <= k < |ds| ==> LineBytes(ds[k])
  }

  /** GetColors finishes cleanly exactly when every listed number is a byte. */
  lemma {:induction false} CleanIffBytes(ds: seq<Option<Assignment>>, groups: map<string, string>)
    ensures StoreLines(Initial(groups), ds, groups).Clean() <==> AllBytes(ds)
  {
    if |ds| > 0 {
      var init, last := ds[..|ds| - 1], ds[|ds| - 1];
      CleanIffBytes(init, groups);
      AllBytesSnoc(ds);
      var c := StoreLines(Initial(groups), init, groups);
      match last
      case None =>
      case Some(a) =>
        if c.Clean() {
          StoreAllCleanIffBytes(c.table, LineRuns(a), Lookup(groups, a.name));
          assert Assigned(last) == Numbers(LineRuns(a));
        }
    }
  }

  lemma AllBytesSnoc(ds: seq<Option<Assignment>>)
    requires |ds| > 0
    ensures AllBytes(ds) <==> AllBytes(ds[..|ds| - 1]) && LineBytes(ds[|ds| - 1])
  {
    var init := ds[..|ds| - 1];
    assert forall k :: 0 <= k < |init| ==> ds[k] == init[k];
  }

  lemma {:induction false} StoreAllCleanIffBytes(table: seq<string>, runs: seq<string>, color: string)
    requires |table| == 256 && forall k :: 0 <= k < |runs| ==> IsNumeral(runs[k], 10)
    ensures StoreAll(table, runs, color).Clean() <==> forall j :: 0 <= j < |runs| ==> Value(runs[j], 10) < 256
  {
    if |runs| > 0 {
      StoreAllCleanIffBytes(table, runs[..|runs| - 1], color);
    }
  }
}
