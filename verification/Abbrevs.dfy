// The abbreviation table of a unit (section 7.5.3 of DWARF 4): read_abbrevs counts the entries and
// their attributes in one pass, allocates, and fills the arrays in another.
module Abbrevs {
  import opened Words
  import opened Leb128
  import opened Readers
  import opened DwarfBuf
  import opened BinarySearch
  import opened Sorting

  datatype Attr = Attr(name: nat, form: nat)

  datatype Abbrev = Abbrev(code: nat, tag: nat, hasChildren: bool, attrs: seq<Attr>)

  // ---------------------------------------------------------------------------
  // The table a section holds
  // ---------------------------------------------------------------------------

  /** Name and form pairs up to the pair whose name is 0. */
  function ParseAttrs(s: seq<byte>): (r: Read<seq<Attr>>)
    ensures |r.rest| <= |s|
    decreases |s|
  {
    var name := ReadULeb(s);
    var form := ReadULeb(name.rest);
    if name.value == 0 then Read([], form.rest, name.short || form.short)
    else
      var t := ParseAttrs(form.rest);
      Read([Attr(Wrap32(name.value), Wrap32(form.value))] + t.value, t.rest, name.short || form.short || t.short)
  }

  /** What follows the code of an entry. */
  function ParseEntry(code: nat, s: seq<byte>): (r: Read<Abbrev>)
    ensures |r.rest| <= |s|
  {
    var tag := ReadULeb(s);
    var children := ReadByte(tag.rest);
    var attrs := ParseAttrs(children.rest);
    Read(Abbrev(code, Wrap32(tag.value), children.value != 0, attrs.value), attrs.rest,
         tag.short || children.short || attrs.short)
  }

  /** Entries up to the code 0. */
  function ParseAbbrevs(s: seq<byte>): (r: Read<seq<Abbrev>>)
    ensures |r.rest| <= |s|
    decreases |s|
  {
    var code := ReadULeb(s);
    if code.value == 0 then Read([], code.rest, code.short)
    else
      var entry := ParseEntry(code.value, code.rest);
      var t := ParseAbbrevs(entry.rest);
      Read([entry.value] + t.value, t.rest, code.short || entry.short || t.short)
  }

  // ---------------------------------------------------------------------------
  // Round trip
  // ---------------------------------------------------------------------------

  predicate Writable(a: Abbrev) {
    && 0 < a.code < U64 && a.tag < U32
    && forall i :: 0 <= i < |a.attrs| ==> 0 < a.attrs[i].name < U32 && a.attrs[i].form < U32
  }

  function EncodeAttrs(attrs: seq<Attr>): seq<byte> {
    if attrs == [] then EncodeUnsigned(0) + EncodeUnsigned(0)
    else EncodeUnsigned(attrs[0].name) + EncodeUnsigned(attrs[0].form) + EncodeAttrs(attrs[1..])
  }

  function EncodeAbbrev(a: Abbrev): seq<byte> {
    EncodeUnsigned(a.code) + EncodeUnsigned(a.tag) + [if a.hasChildren then 1 else 0] + EncodeAttrs(a.attrs)
  }

  function EncodeAbbrevs(abbrevs: seq<Abbrev>): seq<byte> {
    if abbrevs == [] then EncodeUnsigned(0) else EncodeAbbrev(abbrevs[0]) + EncodeAbbrevs(abbrevs[1..])
  }

  lemma {:induction false} AttrsRoundTrip(attrs: seq<Attr>, x: seq<byte>)
    requires forall i :: 0 <= i < |attrs| ==> 0 < attrs[i].name < U32 && attrs[i].form < U32
    ensures ParseAttrs(EncodeAttrs(attrs) + x) == Read(attrs, x, false)
  {
    hide ReadULeb, EncodeUnsigned;
    var s := EncodeAttrs(attrs) + x;
    var name, form := if attrs == [] then 0 else attrs[0].name, if attrs == [] then 0 else attrs[0].form;
    var y := if attrs == [] then x else EncodeAttrs(attrs[1..]) + x;
    assert s == EncodeUnsigned(name) + (EncodeUnsigned(form) + y);
    ReadEncodedULeb(name, EncodeUnsigned(form) + y);
    ReadEncodedULeb(form, y);
    if attrs != [] {
      AttrsRoundTrip(attrs[1..], x);
      assert [attrs[0]] + attrs[1..] == attrs;
    }
  }

  lemma EntryRoundTrip(a: Abbrev, y: seq<byte>)
    requires Writable(a)
    ensures EncodeAbbrev(a) + y == EncodeUnsigned(a.code) + (EncodeAbbrev(a)[|EncodeUnsigned(a.code)|..] + y)
    ensures ParseEntry(a.code, EncodeAbbrev(a)[|EncodeUnsigned(a.code)|..] + y) == Read(a, y, false)
  {
    hide ReadULeb, EncodeUnsigned, ParseAttrs, EncodeAttrs;
    AttrsRoundTrip(a.attrs, y);
    var z := [if a.hasChildren then 1 else 0] + (EncodeAttrs(a.attrs) + y);
    assert z[1..] == EncodeAttrs(a.attrs) + y;
    ReadEncodedULeb(a.tag, z);
    assert EncodeAbbrev(a)[|EncodeUnsigned(a.code)|..] + y == EncodeUnsigned(a.tag) + z;
  }

  /** Any byte but 0 says that there are children. */
  lemma {:induction false} ChildrenFlag(code: nat, tag: nat, flag: byte, attrs: seq<Attr>, y: seq<byte>)
    requires tag < U32 && forall i :: 0 <= i < |attrs| ==> 0 < attrs[i].name < U32 && attrs[i].form < U32
    ensures ParseEntry(code, EncodeUnsigned(tag) + ([flag] + (EncodeAttrs(attrs) + y)))
         == Read(Abbrev(code, tag, flag != 0, attrs), y, false)
  {
    hide ReadULeb, EncodeUnsigned, ParseAttrs, EncodeAttrs;
    AttrsRoundTrip(attrs, y);
    var z := [flag] + (EncodeAttrs(attrs) + y);
    assert z[1..] == EncodeAttrs(attrs) + y;
    ReadEncodedULeb(tag, z);
  }

  /** A table written out is read back entry by entry, and the bytes after it are left alone. */
  lemma {:induction false} AbbrevsRoundTrip(abbrevs: seq<Abbrev>, x: seq<byte>)
    requires forall i :: 0 <= i < |abbrevs| ==> Writable(abbrevs[i])
    ensures ParseAbbrevs(EncodeAbbrevs(abbrevs) + x) == Read(abbrevs, x, false)
  {
    hide ReadULeb, EncodeUnsigned, ParseEntry, EncodeAbbrev;
    if abbrevs == [] {
      ReadEncodedULeb(0, x);
    } else {
      var a, y := abbrevs[0], EncodeAbbrevs(abbrevs[1..]) + x;
      AbbrevsRoundTrip(abbrevs[1..], x);
      EntryRoundTrip(a, y);
      ReadEncodedULeb(a.code, EncodeAbbrev(a)[|EncodeUnsigned(a.code)|..] + y);
      assert EncodeAbbrevs(abbrevs) + x == EncodeAbbrev(a) + y;
      assert [a] + abbrevs[1..] == abbrevs;
    }
  }

  // ---------------------------------------------------------------------------
  // The two passes
  // ---------------------------------------------------------------------------

  /** The inner counting loop, without the form that follows the name 0. */
  method CountAttrs(buf: Buf) returns (count: nat)
    requires buf.Valid()
    modifies buf
    ensures buf.Valid()
    ensures var all, last := ParseAttrs(old(buf.Rest())), ReadULeb(buf.Rest());
      && count == |all.value| && all.rest == last.rest
      && (old(buf.reported_underflow) || all.short) == (buf.reported_underflow || last.short)
  {
    hide ReadULeb;
    count := 0;
    while true
      invariant buf.Valid()
      invariant var all, here := ParseAttrs(old(buf.Rest())), ParseAttrs(buf.Rest());
        && |all.value| == count + |here.value| && all.rest == here.rest
        && (old(buf.reported_underflow) || all.short) == (buf.reported_underflow || here.short)
      decreases buf.left
    {
      var name := buf.ReadULeb128();
      if name == 0 {
        break;
      }
      var _ := buf.ReadULeb128();
      count := count + 1;
    }
  }

  method CountAbbrevs(buf: Buf) returns (ok: bool, count: nat)
    requires buf.Valid() && !buf.reported_underflow
    modifies buf
    ensures buf.Valid()
    ensures var all := ParseAbbrevs(old(buf.Rest()));
      ok == !all.short && (ok ==> count == |all.value| && buf.Rest() == all.rest)
  {
    hide ReadULeb, Readers.ReadByte, ParseAttrs;
    count := 0;
    while true
      invariant buf.Valid()
      invariant var all, here := ParseAbbrevs(old(buf.Rest())), ParseAbbrevs(buf.Rest());
        && |all.value| == count + |here.value| && all.rest == here.rest
        && all.short == (buf.reported_underflow || here.short)
      decreases buf.left
    {
      var code := buf.ReadULeb128();
      if code == 0 {
        break;
      }
      if buf.reported_underflow {
        return false, 0;
      }
      count := count + 1;
      var _ := buf.ReadULeb128();
      var _ := buf.ReadByte();
      var _ := CountAttrs(buf);
      var _ := buf.ReadULeb128();
    }
    ok := !buf.reported_underflow;
  }

  lemma NextOf<T>(all: seq<T>, i: nat, x: T, rest: seq<T>)
    requires i <= |all| && all[i..] == [x] + rest
    ensures i < |all| && all[i] == x && all[i + 1..] == rest && all[..i + 1] == all[..i] + [x]
  {
    assert all[i..][0] == x && all[i..][1..] == rest;
  }

  /** The attributes of one entry; the array has exactly the counted length, and is filled exactly. */
  method FillAttrs(buf: Buf) returns (attrs: array<Attr>)
    requires buf.Valid() && !ParseAttrs(buf.Rest()).short
    modifies buf
    ensures buf.Valid() && fresh(attrs)
    ensures var all := ParseAttrs(old(buf.Rest()));
      attrs[..] == all.value && buf.Rest() == all.rest && buf.reported_underflow == old(buf.reported_underflow)
  {
    hide ReadULeb;
    ghost var all := ParseAttrs(buf.Rest());
    var countBuf := new Buf.Copy(buf);
    var count := CountAttrs(countBuf);
    attrs := new Attr[count](_ => Attr(0, 0));
    if count == 0 {
      var _ := buf.ReadULeb128();
      var _ := buf.ReadULeb128();
      assert attrs[..] == [];
      return;
    }
    var i := 0;
    while true
      invariant buf.Valid() && i <= count && buf.reported_underflow == old(buf.reported_underflow)
      invariant var here := ParseAttrs(buf.Rest());
        && attrs[..i] == all.value[..i] && here.value == all.value[i..] && all.rest == here.rest && !here.short
      decreases buf.left
    {
      var name := buf.ReadULeb128();
      var form := buf.ReadULeb128();
      if name == 0 {
        break;
      }
      ghost var rest := ParseAttrs(buf.Rest()).value;
      NextOf(all.value, i, Attr(Wrap32(name), Wrap32(form)), rest);
      attrs[i] := Attr(Wrap32(name), Wrap32(form));
      i := i + 1;
    }
    assert attrs[..i] == attrs[..];
  }

  /**
   * read_abbrevs. After a counting pass without underflow the filling pass has none either, writes
   * every entry of the array it allocated and nothing else, and stops at the same byte.
   */
  method ReadAbbrevs(section: seq<byte>, offset: nat, bigEndian: bool) returns (ok: bool, abbrevs: seq<Abbrev>)
    ensures ok == (offset < |section| && !ParseAbbrevs(section[offset..]).short)
    ensures ok ==> abbrevs == SortByCode(ParseAbbrevs(section[offset..]).value)
  {
    hide SortByCode, ParseAbbrevs;
    if offset >= |section| {
      return false, [];
    }
    var abbrevBuf := new Buf(section, offset, |section| - offset, bigEndian);
    assert abbrevBuf.Rest() == section[offset..];
    var countBuf := new Buf.Copy(abbrevBuf);
    var counted, count := CountAbbrevs(countBuf);
    if !counted {
      return false, [];
    }
    var filled := FillAbbrevs(abbrevBuf, count);
    return true, SortByCode(filled[..]);
  }

  method FillEntry(buf: Buf, code: nat) returns (a: Abbrev)
    requires buf.Valid() && !ParseEntry(code, buf.Rest()).short
    modifies buf
    ensures buf.Valid()
    ensures var entry := ParseEntry(code, old(buf.Rest()));
      a == entry.value && buf.Rest() == entry.rest && buf.reported_underflow == old(buf.reported_underflow)
  {
    hide ReadULeb, Readers.ReadByte, ParseAttrs;
    var tag := buf.ReadULeb128();
    var children := buf.ReadByte();
    var attrs := FillAttrs(buf);
    a := Abbrev(code, Wrap32(tag), children != 0, attrs[..]);
  }

  method FillAbbrevs(buf: Buf, count: nat) returns (abbrevs: array<Abbrev>)
    requires buf.Valid() && !buf.reported_underflow
    requires !ParseAbbrevs(buf.Rest()).short && count == |ParseAbbrevs(buf.Rest()).value|
    modifies buf
    ensures buf.Valid() && !buf.reported_underflow && fresh(abbrevs)
    ensures var all := ParseAbbrevs(old(buf.Rest())); abbrevs[..] == all.value && buf.Rest() == all.rest
  {
    hide ReadULeb, ParseEntry;
    ghost var all := ParseAbbrevs(buf.Rest());
    abbrevs := new Abbrev[count](_ => Abbrev(0, 0, false, []));
    var i := 0;
    while true
      invariant buf.Valid() && i <= count && !buf.reported_underflow
      invariant var here := ParseAbbrevs(buf.Rest());
        && abbrevs[..i] == all.value[..i] && here.value == all.value[i..] && all.rest == here.rest && !here.short
      decreases buf.left
    {
      var code := buf.ReadULeb128();
      if code == 0 {
        break;
      }
      var a := FillEntry(buf, code);
      assert all.value[i..] == [a] + ParseAbbrevs(buf.Rest()).value;
      abbrevs[i] := a;
      i := i + 1;
    }
    assert abbrevs[..i] == abbrevs[..];
  }

  // ---------------------------------------------------------------------------
  // Sorting and lookup
  // ---------------------------------------------------------------------------

  ghost predicate SortedByCode(abbrevs: seq<Abbrev>) {
    forall i, j :: 0 <= i < j < |abbrevs| ==> abbrevs[i].code <= abbrevs[j].code
  }

  function CodeOf(a: Abbrev): int {
    a.code
  }

  /** A result of qsort with abbrev_compare. */
  function SortByCode(abbrevs: seq<Abbrev>): seq<Abbrev> {
    SortBy(abbrevs, CodeOf)
  }

  lemma SortByCodeSorts(abbrevs: seq<Abbrev>)
    ensures SortedByCode(SortByCode(abbrevs)) && multiset(SortByCode(abbrevs)) == multiset(abbrevs)
  {
    hide SortBy;
    SortBySorts(abbrevs, CodeOf);
    var s := SortBy(abbrevs, CodeOf);
    assert forall i, j :: 0 <= i < j < |s| ==> CodeOf(s[i]) <= CodeOf(s[j]);
  }

  function CodeSign(a: Abbrev, code: nat): int {
    if code < a.code then -1 else if code > a.code then 1 else 0
  }

  function CodeSigns(abbrevs: seq<Abbrev>, code: nat): (signs: seq<int>)
    ensures |signs| == |abbrevs|
    ensures forall k :: 0 <= k < |signs| ==> signs[k] == CodeSign(abbrevs[k], code)
  {
    seq(|abbrevs|, k requires 0 <= k < |abbrevs| => CodeSign(abbrevs[k], code))
  }

  /** lookup_abbrev: the entry at index code - 1 if it fits, else the search. */
  function LookupAbbrev(abbrevs: seq<Abbrev>, code: nat): (r: Option<nat>)
    ensures r.Some? ==> r.value < |abbrevs| && abbrevs[r.value].code == code
  {
    var guess := Wrap64(code - 1);
    if guess < |abbrevs| && abbrevs[guess].code == code then Some(guess)
    else Probe(CodeSigns(abbrevs, code), 0, |abbrevs|)
  }

  /** On a table as read_abbrevs leaves it, lookup finds an entry with the code iff there is one. */
  lemma LookupAbbrevFinds(parsed: seq<Abbrev>, code: nat)
    ensures LookupAbbrev(SortByCode(parsed), code).Some? <==> exists a :: a in parsed && a.code == code
    ensures var r := LookupAbbrev(SortByCode(parsed), code); r.Some? ==> SortByCode(parsed)[r.value] in parsed
  {
    hide SortByCode, Wrap64;
    SortByCodeSorts(parsed);
    var abbrevs := SortByCode(parsed);
    var signs := CodeSigns(abbrevs, code);
    assert Partitioned(signs);
    ProbeFinds(signs, 0, |abbrevs|);
    var r := LookupAbbrev(abbrevs, code);
    if r.Some? {
      assert abbrevs[r.value] in multiset(abbrevs);
    } else {
      forall a | a in parsed
        ensures a.code != code
      {
        assert a in multiset(parsed);
        var k :| 0 <= k < |abbrevs| && abbrevs[k] == a;
        assert signs[k] != 0;
      }
    }
  }

  /** With distinct codes the entry found is the only one. */
  lemma LookupAbbrevUnique(abbrevs: seq<Abbrev>, k: nat)
    requires SortedByCode(abbrevs) && k < |abbrevs|
    requires forall i, j :: 0 <= i < j < |abbrevs| ==> abbrevs[i].code != abbrevs[j].code
    ensures LookupAbbrev(abbrevs, abbrevs[k].code) == Some(k)
  {
    hide Wrap64;
    var signs := CodeSigns(abbrevs, abbrevs[k].code);
    assert Partitioned(signs) && signs[k] == 0;
    ProbeFinds(signs, 0, |abbrevs|);
  }

  method LookupAbbrevIn(abbrevs: seq<Abbrev>, code: nat) returns (r: Option<nat>)
    ensures r == LookupAbbrev(abbrevs, code)
  {
    var guess := Wrap64(code - 1);
    if guess < |abbrevs| && abbrevs[guess].code == code {
      return Some(guess);
    }
    r := BSearch(|abbrevs|, (k: nat) requires k < |abbrevs| => CodeSign(abbrevs[k], code), CodeSigns(abbrevs, code));
  }
}
