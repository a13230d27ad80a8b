// Looking an option up in the table: exact matches, unambiguous abbreviations, errors.
module OptionTable {
  import opened Words

  datatype ArgType = NoArg | RequiredSeparate | RequiredCombined | OptionalCombined | Multi

  /** An entry of the table; the entry with a negative id that ends the table is not in the sequence. */
  datatype Opt = Opt(id: nat, text: string, argType: ArgType)

  datatype Flags = Flags(
    exact: bool,
    noSlash: bool,
    shortArg: bool,
    clump: bool,
    noErr: bool,
    pedantic: bool,
    icaseShort: bool,
    icaseLong: bool,
    icaseWord: bool)

  const OPT_INVALID: int := -1
  const OPT_MULTIPLE: int := -2

  /** Which of the case flags an option is subject to. */
  function IgnoresCase(f: Flags, source: string): bool {
    if source == [] || source[0] != '-' then f.icaseWord
    else if !(|source| > 1 && source[1] == '-') && |source| <= 2 then f.icaseShort
    else f.icaseLong
  }

  function Lower(c: char): char {
    if 'A' <= c <= 'Z' then ((c as int) + 32) as char else c
  }

  predicate IsEqual(left: char, right: char, ignoreCase: bool) {
    if ignoreCase then Lower(left) == Lower(right) else left == right
  }

  /** The number of hyphens a string starts with. */
  function Hyphens(s: string): (n: nat)
    ensures n <= |s| && (forall i :: 0 <= i < n ==> s[i] == '-') && (n < |s| ==> s[n] != '-')
  {
    if s == [] || s[0] != '-' then 0 else 1 + Hyphens(s[1..])
  }

  /** As many hyphens in front, and after them test is a prefix of source, perhaps all of it. */
  predicate Abbreviates(f: Flags, test: string, source: string) {
    && Hyphens(test) == Hyphens(source) && |test| <= |source|
    && forall i :: Hyphens(source) <= i < |test| ==> IsEqual(source[i], test[i], IgnoresCase(f, source))
  }

  predicate Exact(f: Flags, test: string, source: string) {
    Abbreviates(f, test, source) && |test| == |source|
  }

  /** An abbreviation that has something behind its hyphens. */
  predicate Partial(f: Flags, test: string, source: string) {
    Abbreviates(f, test, source) && |test| < |source| && Hyphens(test) < |test|
  }

  lemma {:induction false} HyphensAtLeast(s: string, n: nat)
    requires n <= |s| && forall i :: 0 <= i < n ==> s[i] == '-'
    ensures Hyphens(s) >= n
    ensures n < |s| && s[n] != '-' ==> Hyphens(s) == n
    ensures n == |s| ==> Hyphens(s) == n
  {
    if n > 0 {
      HyphensAtLeast(s[1..], n - 1);
    }
  }

  /** CalcMatch: -1 for an exact match, the matching length of a partial one, otherwise 0. */
  method CalcMatch(f: Flags, source: string, test: string) returns (len: int)
    ensures len == -1 <==> Exact(f, test, source)
    ensures len > 0 <==> Partial(f, test, source)
    ensures len > 0 ==> len == |test| - Hyphens(test)
    ensures len >= -1
  {
    var ignore := IgnoresCase(f, source);
    var k := 0;
    while k < |source| && k < |test| && source[k] == '-' && source[k] == test[k]
      invariant k <= |source| && k <= |test|
      invariant forall i :: 0 <= i < k ==> source[i] == '-' && test[i] == '-'
    {
      k := k + 1;
    }
    HyphensAtLeast(source, k);
    HyphensAtLeast(test, k);
    if (k < |source| && source[k] == '-') || (k < |test| && test[k] == '-') {
      if k < |source| && source[k] == '-' {
        HyphensAtLeast(source, k + 1);
      } else {
        HyphensAtLeast(test, k + 1);
      }
      return 0;
    }
    var n := k;
    while n < |source| && n < |test| && IsEqual(source[n], test[n], ignore)
      invariant k <= n <= |source| && n <= |test|
      invariant forall i :: k <= i < n ==> IsEqual(source[i], test[i], ignore)
    {
      n := n + 1;
    }
    if n == |source| {
      return if n == |test| then -1 else 0;
    }
    if n < |test| {
      return 0;
    }
    return n - k;
  }

  /** The first entry from n on that matches exactly. */
  function FirstExact(f: Flags, table: seq<Opt>, test: string, n: nat): (r: Option<nat>)
    requires n <= |table|
    ensures match r
      case None => forall i :: n <= i < |table| ==> !Exact(f, test, table[i].text)
      case Some(e) => n <= e < |table| && Exact(f, test, table[e].text) && forall i :: n <= i < e ==> !Exact(f, test, table[i].text)
    decreases |table| - n
  {
    if n == |table| then None else if Exact(f, test, table[n].text) then Some(n) else FirstExact(f, table, test, n + 1)
  }

  /** The entries among the first n that test abbreviates. */
  function Partials(f: Flags, table: seq<Opt>, test: string, n: nat): (r: seq<nat>)
    requires n <= |table|
    ensures forall k :: 0 <= k < |r| ==> r[k] < n
  {
    if n == 0 then []
    else
      var q := Partials(f, table, test, n - 1);
      if Partial(f, test, table[n - 1].text) then q + [n - 1] else q
  }

  lemma {:induction false} PartialsAre(f: Flags, table: seq<Opt>, test: string, n: nat)
    requires n <= |table|
    ensures var r := Partials(f, table, test, n);
      && (forall i: nat :: i in r <==> i < n && Partial(f, test, table[i].text))
      && (forall i, j :: 0 <= i < j < |r| ==> r[i] < r[j])
  {
    if n > 0 {
      PartialsAre(f, table, test, n - 1);
    }
  }

  /** The first exact match; else, unless that is ruled out, the one entry that is abbreviated. */
  function Lookup(f: Flags, table: seq<Opt>, test: string): (r: int)
    ensures r == OPT_INVALID || r == OPT_MULTIPLE || 0 <= r < |table|
  {
    match FirstExact(f, table, test, 0)
    case Some(e) => e
    case None =>
      var p := Partials(f, table, test, |table|);
      if f.exact || p == [] then OPT_INVALID else if |p| == 1 then p[0] else OPT_MULTIPLE
  }

  /** LookupOption: one pass, which remembers the lengths of the last two partial matches. */
  method LookupOption(f: Flags, table: seq<Opt>, test: string) returns (r: int)
    ensures r == Lookup(f, table, test)
  {
    hide Partial, Exact, Hyphens;
    var bestMatch, bestMatchLen, lastMatchLen := -1, 0, 0;
    var n := 0;
    while n < |table|
      invariant n <= |table|
      invariant FirstExact(f, table, test, 0) == FirstExact(f, table, test, n)
      invariant var p := Partials(f, table, test, n);
        && bestMatch == (if p == [] then -1 else p[|p| - 1])
        && bestMatchLen == (if p == [] then 0 else |test| - Hyphens(test))
        && lastMatchLen == (if |p| <= 1 then 0 else |test| - Hyphens(test))
        && (p != [] ==> |test| > Hyphens(test))
    {
      var matchLen := CalcMatch(f, table[n].text, test);
      if matchLen == -1 {
        return n;
      }
      if matchLen > 0 && matchLen >= bestMatchLen {
        lastMatchLen, bestMatchLen, bestMatch := bestMatchLen, matchLen, n;
      }
      n := n + 1;
    }
    if f.exact || bestMatch == -1 {
      return OPT_INVALID;
    }
    return if bestMatchLen > lastMatchLen then bestMatch else OPT_MULTIPLE;
  }

  // ---------------------------------------------------------------------------
  // What the result of a lookup means
  // ---------------------------------------------------------------------------

  /** An option is found exactly when it is the first exact match, or the only abbreviated entry. */
  lemma LookupFindsIff(f: Flags, table: seq<Opt>, test: string, n: nat)
    requires n < |table|
    ensures Lookup(f, table, test) == n <==>
      || (Exact(f, test, table[n].text) && forall i :: 0 <= i < n ==> !Exact(f, test, table[i].text))
      || (!f.exact && Partial(f, test, table[n].text) && forall i :: 0 <= i < |table| && i != n ==>
            !Partial(f, test, table[i].text) && !Exact(f, test, table[i].text))
  {
    PartialsAre(f, table, test, |table|);
    var p := Partials(f, table, test, |table|);
    if |p| == 1 {
      assert p[0] in p;
    }
    if n in p {
      var i :| 0 <= i < |p| && p[i] == n;
      if |p| > 1 {
        var other := p[if i == 0 then 1 else 0];
        assert other in p && other != n;
      }
    }
  }

  /** MULTIPLE means two entries that are abbreviated, and none that matches exactly. */
  lemma LookupMultipleIff(f: Flags, table: seq<Opt>, test: string)
    ensures Lookup(f, table, test) == OPT_MULTIPLE <==>
      && !f.exact && (forall i :: 0 <= i < |table| ==> !Exact(f, test, table[i].text))
      && exists i, j :: 0 <= i < j < |table| && Partial(f, test, table[i].text) && Partial(f, test, table[j].text)
  {
    PartialsAre(f, table, test, |table|);
    var p := Partials(f, table, test, |table|);
    if |p| > 1 {
      assert p[0] in p && p[1] in p;
    }
    if i: nat, j: nat :| i < j < |table| && Partial(f, test, table[i].text) && Partial(f, test, table[j].text) {
      assert i in p && j in p;
    }
  }
}
