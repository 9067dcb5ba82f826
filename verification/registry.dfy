/** The name registries that turn command-line names into formatters. A
    formatter here is the registry's key for it: every lookup of one name
    yields the one shared instance kept under that key. */
module Registry {

  import opened Wrappers

  // ------------------------------------------------------------ shared

  /** Go's %v of a []string: the elements separated by single spaces, in
      square brackets. */
  function ShowList(xs: seq<string>): (r: string)
    ensures |r| >= 2 && r[0] == '[' && r[|r| - 1] == ']'
    ensures r[1..|r| - 1] == Spaced(xs)
  {
    "[" + Spaced(xs) + "]"
  }

  /** The elements written one after the other, a single space between
      each two. */
  function Spaced(xs: seq<string>): (r: string)
    ensures |xs| == 0 ==> r == ""
    ensures |xs| == 1 ==> r == xs[0]
  {
    if |xs| == 0 then "" else if |xs| == 1 then xs[0] else Spaced(xs[..|xs| - 1]) + " " + xs[|xs| - 1]
  }

  /** Read from the front, the list is its first element, a space and the
      rest, for lists of two or more. */
  lemma {:induction false} SpacedFront(x: string, xs: seq<string>)
    requires |xs| > 0
    ensures Spaced([x] + xs) == x + " " + Spaced(xs)
  {
    var s := [x] + xs;
    if |xs| == 1 {
      assert s[..1] == [x];
    } else {
      var init := xs[..|xs| - 1];
      assert s[..|s| - 1] == [x] + init;
      SpacedFront(x, init);
    }
  }

  /** Its length: every element's characters and one space between each two. */
  lemma {:induction false} SpacedLength(xs: seq<string>)
    requires |xs| > 0
    ensures |Spaced(xs)| == TotalLength(xs) + |xs| - 1
  {
    if |xs| > 1 {
      SpacedLength(xs[..|xs| - 1]);
    }
  }

  function TotalLength(xs: seq<string>): nat
  {
    if |xs| == 0 then 0 else TotalLength(xs[..|xs| - 1]) + |xs[|xs| - 1]|
  }

  /** The first name the table does not know, or |names| when it knows them all. */
  function FirstUnknown<K>(names: seq<string>, kindOf: string -> Option<K>): (k: nat)
    ensures k <= |names|
    ensures forall i :: 0 <= i < k ==> kindOf(names[i]).Some?
    ensures k < |names| ==> kindOf(names[k]).None?
  {
    if |names| == 0 then 0
    else if kindOf(names[0]).None? then 0
    else 1 + FirstUnknown(names[1..], kindOf)
  }

  /** Looks every name up in order: the first unknown name fails the whole
      list; an empty list is refused. */
  method LookupAll<K>(names: seq<string>, kindOf: string -> Option<K>) returns (r: Result<seq<K>>)
    ensures r.Success? <==> |names| > 0 && forall i :: 0 <= i < |names| ==> kindOf(names[i]).Some?
    ensures r.Success? ==> |r.value| == |names|
    ensures r.Success? ==> forall i :: 0 <= i < |names| ==> Some(r.value[i]) == kindOf(names[i])
    ensures FirstUnknown(names, kindOf) < |names|
            ==> r == Failure("invalid: " + names[FirstUnknown(names, kindOf)])
    ensures |names| == 0 ==> r == Failure("there has to be at least one viewer")
  {
    var ds: seq<K> := [];
    for i := 0 to |names|
      invariant i <= FirstUnknown(names, kindOf)
      invariant |ds| == i && forall j :: 0 <= j < i ==> Some(ds[j]) == kindOf(names[j])
    {
      var en := kindOf(names[i]);
      if en.None? {
        return Failure("invalid: " + names[i]);
      }
      ds := ds + [en.value];
    }
    if |ds| == 0 {
      return Failure("there has to be at least one viewer");
    }
    return Success(ds);
  }

  // ------------------------------------------------------------ pkg/reader

  datatype ViewKind = ViewHex | ViewDec | ViewOct | ViewASCII | ViewBit

  /** formatterStringToEnumMap. */
  function ViewKindOf(name: string): (k: Option<ViewKind>)
    ensures k.Some? <==> name in ["hex", "asc", "bit", "dec", "oct"]
  {
    if name == "hex" then Some(ViewHex)
    else if name == "asc" then Some(ViewASCII)
    else if name == "bit" then Some(ViewBit)
    else if name == "dec" then Some(ViewDec)
    else if name == "oct" then Some(ViewOct)
    else None
  }

  /** GetViewers: one viewer per name, in input order, duplicates kept. */
  method GetViewers(names: seq<string>) returns (r: Result<seq<ViewKind>>)
    ensures r.Success? <==> |names| > 0 && forall i :: 0 <= i < |names| ==> names[i] in ["hex", "asc", "bit", "dec", "oct"]
    ensures r.Success? ==> |r.value| == |names| && forall i :: 0 <= i < |names| ==> Some(r.value[i]) == ViewKindOf(names[i])
    ensures FirstUnknown(names, ViewKindOf) < |names|
            ==> r == Failure("invalid: " + names[FirstUnknown(names, ViewKindOf)])
    ensures |names| == 0 ==> r == Failure("there has to be at least one viewer")
  {
    r := LookupAll(names, ViewKindOf);
  }

  datatype OffsetKind = OffsetHex | OffsetDec | OffsetOct | OffsetPercent

  /** offsetFormattersStringToEnumMap. */
  function OffsetKindOf(name: string): (k: Option<OffsetKind>)
    ensures k.Some? <==> name in ["hex", "dec", "oct", "per"]
  {
    if name == "hex" then Some(OffsetHex)
    else if name == "dec" then Some(OffsetDec)
    else if name == "oct" then Some(OffsetOct)
    else if name == "per" then Some(OffsetPercent)
    else None
  }

  /** "no" and "" ask for no offset column. */
  predicate Skipped(name: string)
  {
    name == "no" || name == ""
  }

  /** The offset formatters a list of known names asks for, in order. */
  function Requested(names: seq<string>): seq<OffsetKind>
  {
    if |names| == 0 then []
    else
      var last := names[|names| - 1];
      Requested(names[..|names| - 1])
      + (if Skipped(last) || OffsetKindOf(last).None? then [] else [OffsetKindOf(last).value])
  }

  /** How many names are not skipped. */
  function Kept(names: seq<string>): nat
  {
    if |names| == 0 then 0 else Kept(names[..|names| - 1]) + (if Skipped(names[|names| - 1]) then 0 else 1)
  }

  /** GetOffsetFormatters: at most two names, checked before anything is
      skipped; every other name must be known. */
  method GetOffsetFormatters(names: seq<string>) returns (r: Result<seq<OffsetKind>>)
    ensures |names| > 2 ==> r == Failure("error: max two formatters, got: " + ShowList(names))
    ensures r.Success? <==>
              |names| <= 2 && forall i :: 0 <= i < |names| ==> Skipped(names[i]) || OffsetKindOf(names[i]).Some?
    ensures r.Failure? && |names| <= 2 ==> r.error == "invalid: " + ShowList(names)
    ensures r.Success? ==> r.value == Requested(names) && |r.value| == Kept(names) <= 2
  {
    if |names| > 2 {
      return Failure("error: max two formatters, got: " + ShowList(names));
    }
    var formatters: seq<OffsetKind> := [];
    for i := 0 to |names|
      invariant forall j :: 0 <= j < i ==> Skipped(names[j]) || OffsetKindOf(names[j]).Some?
      invariant formatters == Requested(names[..i]) && |formatters| == Kept(names[..i])
    {
      assert names[..i + 1][..i] == names[..i];
      var v := names[i];
      if v == "no" {
        v := "";
      }
      if v == "" {
        continue;
      }
      var en := OffsetKindOf(v);
      if en.None? {
        return Failure("invalid: " + ShowList(names));
      }
      formatters := formatters + [en.value];
    }
    assert names[..|names|] == names;
    KeptBound(names);
    return Success(formatters);
  }

  lemma {:induction false} KeptBound(names: seq<string>)
    ensures Kept(names) <= |names|
  {
    if |names| > 0 {
      KeptBound(names[..|names| - 1]);
    }
  }

  // ------------------------------------------------------------ root package

  datatype RootOffsetKind = RootOffsetHex | RootOffsetDec | RootOffsetPercent

  /** offsetViewersStringToEnumMap of the older command: no octal. */
  function RootOffsetKindOf(name: string): (k: Option<RootOffsetKind>)
    ensures k.Some? <==> name in ["hex", "dec", "per"]
  {
    if name == "hex" then Some(RootOffsetHex)
    else if name == "dec" then Some(RootOffsetDec)
    else if name == "per" then Some(RootOffsetPercent)
    else None
  }

  /** getOffsetViewer: exactly one viewer for a known name, an error naming
      the input otherwise. */
  function GetOffsetViewer(name: string): (r: Result<RootOffsetKind>)
    ensures r.Success? <==> name in ["hex", "dec", "per"]
    ensures r.Success? ==> Some(r.value) == RootOffsetKindOf(name)
    ensures r.Failure? ==> r.error == "invalid: " + name
  {
    match RootOffsetKindOf(name)
    case Some(en) => Success(en)
    case None => Failure("invalid: " + name)
  }

  datatype RootViewKind = RootHex | RootDec | RootASCII | RootBit

  /** viewersS of the older command: no octal. */
  function RootViewKindOf(name: string): (k: Option<RootViewKind>)
    ensures k.Some? <==> name in ["hex", "asc", "bit", "dec"]
  {
    if name == "hex" then Some(RootHex)
    else if name == "asc" then Some(RootASCII)
    else if name == "bit" then Some(RootBit)
    else if name == "dec" then Some(RootDec)
    else None
  }

  /** getViewers of the older command. */
  method GetRootViewers(names: seq<string>) returns (r: Result<seq<RootViewKind>>)
    ensures r.Success? <==> |names| > 0 && forall i :: 0 <= i < |names| ==> names[i] in ["hex", "asc", "bit", "dec"]
    ensures r.Success? ==> |r.value| == |names| && forall i :: 0 <= i < |names| ==> Some(r.value[i]) == RootViewKindOf(names[i])
    ensures FirstUnknown(names, RootViewKindOf) < |names|
            ==> r == Failure("invalid: " + names[FirstUnknown(names, RootViewKindOf)])
    ensures |names| == 0 ==> r == Failure("there has to be at least one viewer")
  {
    r := LookupAll(names, RootViewKindOf);
  }
}
