// For which bytes the passes of read_line_header over its tables read or store outside.
module LineHeaderBounds {
  import opened Words
  import opened Leb128
  import opened Readers
  import opened LineHeader
  import opened LineHeaderWriter

  // ---------------------------------------------------------------------------
  // leb128_len has no bound
  // ---------------------------------------------------------------------------

  /** The numbers that end in s: bytes without the continuation bit. */
  function Enders(s: seq<byte>): nat {
    if s == [] then 0 else Enders(s[1..]) + if s[0] < 128 then 1 else 0
  }

  lemma {:induction false} EndersFrom(s: seq<byte>, i: nat)
    requires i <= |s|
    ensures var n := SpanFrom(s, i);
      if Enders(s[i..]) == 0 then n == |s| && (i < n ==> s[n - 1] >= 128)
      else i < n && s[n - 1] < 128 && Enders(s[n..]) == Enders(s[i..]) - 1
    decreases |s| - i
  {
    if i < |s| {
      assert s[i..][1..] == s[i + 1..];
      if s[i] >= 128 {
        EndersFrom(s, i + 1);
      }
    }
  }

  lemma WholeSuffix<T>(s: seq<T>)
    ensures s[0..] == s
  {
  }

  lemma {:induction false} EndersBehind(s: seq<byte>, k: nat)
    requires k <= |s|
    ensures Enders(s[k..]) <= Enders(s)
  {
    if k > 0 {
      assert s[1..][k - 1..] == s[k..];
      EndersBehind(s[1..], k - 1);
    } else {
      assert s[0..] == s;
    }
  }

  /** Fewer than k numbers end from q on. */
  predicate TooFew(data: seq<byte>, q: nat, k: nat) {
    q > |data| || Enders(data[q..]) < k
  }

  lemma {:induction false} AfterLebsIff(data: seq<byte>, q: nat, k: nat)
    ensures AfterLebs(data, q, k) == None <==> TooFew(data, q, k)
    decreases k
  {
    hide SpanFrom, Enders;
    if q <= |data| && k > 0 {
      var s := data[q..];
      WholeSuffix(s);
      EndersFrom(s, 0);
      assert s[Span(s)..] == data[q + Span(s)..];
      AfterLebsIff(data, q + Span(s), k - 1);
    }
  }

  // ---------------------------------------------------------------------------
  // The counting pass over the files
  // ---------------------------------------------------------------------------

  /** Where the numbers of an entry are looked for; past the header's end when its name does not end in it. */
  function BehindName(data: seq<byte>, p: nat, pend: nat): nat
    requires p < pend <= |data|
  {
    p + (StringLength(data[p..pend]) + 1)
  }

  /** Entries that the counting pass comes to, one after the other. */
  ghost predicate Entries(data: seq<byte>, pend: nat, starts: seq<nat>)
    requires pend <= |data|
  {
    && (forall i :: 0 <= i < |starts| ==> starts[i] < pend && data[starts[i]] != 0)
    && forall i :: 0 <= i < |starts| - 1 ==> AfterLebs(data, BehindName(data, starts[i], pend), 3) == Some(starts[i + 1])
  }

  /** Behind the name of the last of these entries fewer than three numbers end before the section does. */
  ghost predicate LeavesAfter(data: seq<byte>, p: nat, pend: nat, starts: seq<nat>)
    requires pend <= |data|
  {
    && starts != [] && starts[0] == p && Entries(data, pend, starts)
    && TooFew(data, BehindName(data, starts[|starts| - 1], pend), 3)
  }

  lemma {:induction false} CountLeaves(data: seq<byte>, p: nat, pend: nat) returns (starts: seq<nat>)
    requires pend <= |data| && CountFiles(data, p, pend) == None
    ensures LeavesAfter(data, p, pend, starts)
    decreases |data| - p
  {
    hide AfterLebs, StringLength, Enders;
    var q := BehindName(data, p, pend);
    AfterLebsIff(data, q, 3);
    if AfterLebs(data, q, 3) == None {
      starts := [p];
    } else {
      var next := AfterLebs(data, q, 3).value;
      var more := CountLeaves(data, next, pend);
      starts := [p] + more;
      forall i | 0 <= i < |starts| - 1
        ensures AfterLebs(data, BehindName(data, starts[i], pend), 3) == Some(starts[i + 1])
      {
        assert i > 0 ==> starts[i] == more[i - 1];
        assert starts[i + 1] == more[i];
      }
    }
  }

  lemma {:induction false} LeavesIsNone(data: seq<byte>, p: nat, pend: nat, starts: seq<nat>)
    requires pend <= |data| && LeavesAfter(data, p, pend, starts)
    ensures CountFiles(data, p, pend) == None
    decreases |starts|
  {
    hide AfterLebs, StringLength, Enders;
    AfterLebsIff(data, BehindName(data, p, pend), 3);
    if |starts| > 1 {
      assert AfterLebs(data, BehindName(data, starts[0], pend), 3) == Some(starts[1]);
      LeavesIsNone(data, starts[1], pend, starts[1..]);
    }
  }

  /** Names up to the end of the header, all of them resolved, and no 0 behind the last entry. */
  predicate FilesEndOpen(h: seq<byte>, dirs: seq<seq<byte>>, compDir: Option<seq<byte>>) {
    h == [] || (
      && h[0] != 0 && StringLength(h) < |h| && !ParseFile(h).short
      && Resolved(ParseFile(h).value.0, ParseFile(h).value.1, dirs, compDir).Some?
      && FilesEndOpen(ParseFile(h).rest, dirs, compDir))
  }

  lemma {:induction false} TableAtEnd(data: seq<byte>, p: nat, pend: nat, dirs: seq<seq<byte>>, compDir: Option<seq<byte>>)
    requires p <= pend <= |data| && CountFiles(data, p, pend).Some?
    ensures FileTable(data[p..pend], data[pend..], dirs, compDir).Astray? <==>
      pend == |data| && FilesEndOpen(data[p..pend], dirs, compDir)
    decreases pend - p
  {
    hide ParseFile, AfterLebs, StringLength, Resolved;
    var h := data[p..pend];
    if p < pend && data[p] != 0 && StringLength(h) < |h| {
      if !ParseFile(h).short {
        FileInside(data, p, pend);
        TableAtEnd(data, AfterLebs(data, p + StringLength(h) + 1, 3).value, pend, dirs, compDir);
      } else if pend == |data| {
        assert h == data[p..];
        ShortLeaves(data, p);
      }
    }
  }

  lemma LebStep(data: seq<byte>, q: nat, k: nat)
    requires q <= |data|
    ensures var r, next := ReadULeb(data[q..]), q + Span(data[q..]);
      && AfterLebs(data, q, k + 1) == (if r.short then None else AfterLebs(data, next, k))
      && (!r.short ==> next <= |data| && r.rest == data[next..])
  {
    hide Span, HasTerminator;
    assert !ReadULeb(data[q..]).short ==> data[q..][Span(data[q..])..] == data[q + Span(data[q..])..];
  }

  /** Three numbers are read from s, and one of them does not end. */
  predicate ThreeShort(s: seq<byte>) {
    var d := ReadULeb(s);
    var m := ReadULeb(d.rest);
    d.short || m.short || ReadULeb(m.rest).short
  }

  lemma LebsShort(data: seq<byte>, q: nat)
    requires q <= |data| && ThreeShort(data[q..])
    ensures AfterLebs(data, q, 3) == None
  {
    hide Span, ReadULeb, AfterLebs;
    LebStep(data, q, 2);
    if !ReadULeb(data[q..]).short {
      var q1 := q + Span(data[q..]);
      LebStep(data, q1, 1);
      if !ReadULeb(data[q1..]).short {
        LebStep(data, q1 + Span(data[q1..]), 0);
      }
    }
  }

  lemma FileShort(h: seq<byte>)
    requires h != [] && h[0] != 0 && StringLength(h) < |h|
    ensures ParseFile(h).short == ThreeShort(h[StringLength(h) + 1..])
  {
    hide StringLength, ReadULeb;
  }

  /** An entry whose numbers do not end in the section. */
  lemma ShortLeaves(data: seq<byte>, p: nat)
    requires p < |data| && data[p] != 0 && StringLength(data[p..]) < |data| - p && ParseFile(data[p..]).short
    ensures data[p..|data|] == data[p..] && AfterLebs(data, BehindName(data, p, |data|), 3) == None
  {
    hide StringLength, ThreeShort, AfterLebs, ParseFile;
    var h := data[p..];
    assert data[p..|data|] == h;
    FileShort(h);
    DropOf(data, p, |data|, StringLength(h) + 1);
    var q := BehindName(data, p, |data|);
    assert data[q..|data|] == data[q..];
    LebsShort(data, q);
  }

  /**
   * The passes over the files leave the section exactly when the counting pass does behind some entry, or the header
   * ends where the section does, and the table is still open there.
   */
  lemma FilesAstrayIff(data: seq<byte>, p: nat, pend: nat, dirs: seq<seq<byte>>, compDir: Option<seq<byte>>)
    requires p <= pend <= |data|
    ensures Files(data, p, pend, dirs, compDir).Astray? <==>
      || (exists starts :: LeavesAfter(data, p, pend, starts))
      || (pend == |data| && FilesEndOpen(data[p..pend], dirs, compDir))
  {
    hide CountFiles, FileTable, FilesEndOpen, LeavesAfter;
    if CountFiles(data, p, pend) == None {
      var starts := CountLeaves(data, p, pend);
    } else {
      TableAtEnd(data, p, pend, dirs, compDir);
      forall starts | LeavesAfter(data, p, pend, starts)
        ensures false
      {
        LeavesIsNone(data, p, pend, starts);
      }
    }
  }

  // ---------------------------------------------------------------------------
  // What has to follow a header
  // ---------------------------------------------------------------------------

  /** Some header, in front of t, makes the passes over its tables leave the section. */
  ghost predicate CanGoAstray(t: seq<byte>) {
    exists h, end, f: Fields, u :: f.Fit() && |h| <= end <= |h + t| && TablesAt(h + t, 0, |h|, end, f, u).Astray?
  }

  lemma {:induction false} CountInside(data: seq<byte>, p: nat, pend: nat)
    requires pend < |data| && Enders(data[pend + 1..]) >= 3
    ensures CountFiles(data, p, pend).Some?
    decreases |data| - p
  {
    hide AfterLebs, Enders;
    if p < pend && data[p] != 0 {
      var q := BehindName(data, p, pend);
      AfterLebsIff(data, q, 3);
      EndersBehind(data[q..], pend + 1 - q);
      assert data[q..][pend + 1 - q..] == data[pend + 1..];
      CountInside(data, AfterLebs(data, q, 3).value, pend);
    }
  }

  lemma {:induction false} TableInside(h: seq<byte>, t: seq<byte>, dirs: seq<seq<byte>>, compDir: Option<seq<byte>>)
    requires t != []
    ensures !FileTable(h, t, dirs, compDir).Astray?
    decreases |h|
  {
    hide ParseFile, StringLength, Resolved;
    if h != [] && h[0] != 0 && StringLength(h) < |h| {
      TableInside(ParseFile(h).rest, t, dirs, compDir);
    }
  }

  lemma TablesInside(h: seq<byte>, t: seq<byte>, end: nat, f: Fields, u: UnitInfo)
    requires f.Fit() && |h| <= end <= |h + t| && t != [] && t[0] == 0 && Enders(t[1..]) >= 3
    ensures !TablesAt(h + t, 0, |h|, end, f, u).Astray?
  {
    hide FileTable, CountFiles, ParseStrings, Enders, EndsOpen;
    var data := h + t;
    assert data[0..|h|] == h && data[|h|..] == t && data[|h| + 1..] == t[1..];
    var p := |h| - |ParseStrings(h).rest|;
    CountInside(data, p, |h|);
    if DirTable(h, t).Ok? {
      TableInside(data[p..|h|], t, DirTable(h, t).value, u.compDir);
    }
  }

  /** A header without an end to its directories, and one without an end to the name of its only file. */
  lemma TablesOutside(t: seq<byte>, f: Fields, u: UnitInfo)
    requires f.Fit()
    ensures t == [] || t[0] != 0 ==> TablesAt([] + t, 0, 0, 0, f, u).Astray?
    ensures t != [] && t[0] == 0 && Enders(t[1..]) < 3 ==> TablesAt([0, 97] + t, 0, 2, 2, f, u).Astray?
  {
    hide AfterLebs, Enders;
    if t == [] || t[0] != 0 {
      assert ([] + t)[0..0] == [] && ([] + t)[0..] == t;
      NoString([]);
    } else if Enders(t[1..]) < 3 {
      var data: seq<byte> := [0, 97] + t;
      assert data[0..2] == [0, 97] && data[2..] == t && data[1..2] == [97] && data[3..] == t[1..];
      NoString(data[0..2]);
      AfterLebsIff(data, 3, 3);
    }
  }

  /** Every header stays inside exactly when a 0 follows it and, anywhere in the section behind that, three numbers end. */
  lemma CanGoAstrayIff(t: seq<byte>)
    ensures CanGoAstray(t) <==> !(t != [] && t[0] == 0 && Enders(t[1..]) >= 3)
  {
    hide TablesAt, Enders;
    if t != [] && t[0] == 0 && Enders(t[1..]) >= 3 {
      forall h, end, f: Fields, u | f.Fit() && |h| <= end <= |h + t|
        ensures !TablesAt(h + t, 0, |h|, end, f, u).Astray?
      {
        TablesInside(h, t, end, f, u);
      }
    } else {
      var f := Fields(1, 1, 0, 1, 1, []);
      TablesOutside(t, f, UnitInfo(8, None, false, 0));
      var h: seq<byte> := if t == [] || t[0] != 0 then [] else [0, 97];
      assert TablesAt(h + t, 0, |h|, |h|, f, UnitInfo(8, None, false, 0)).Astray?;
    }
  }

  // ---------------------------------------------------------------------------
  // A whole unit whose directories have no end
  // ---------------------------------------------------------------------------

  lemma {:induction false} StringsEndOpen(dirs: seq<seq<byte>>)
    requires forall i :: 0 <= i < |dirs| ==> IsName(dirs[i])
    ensures EndsOpen(WriteStrings(dirs))
  {
    hide StringLength;
    if dirs != [] {
      var more := WriteStrings(dirs[1..]);
      var h := dirs[0] + [0] + more;
      assert IsName(dirs[0]);
      StringEnds(dirs[0], more);
      assert h[0] == dirs[0][0] && h[|dirs[0]| + 1..] == more;
      FirstString(h);
      StringsEndOpen(dirs[1..]);
    }
  }

  /** Fields and directories, and nothing behind them. */
  function OpenBody(src: Source): seq<byte>
    requires src.fields.Fit()
  {
    WriteFields(src) + WriteStrings(src.dirs)
  }

  lemma OpenBodyFails(src: Source, data: seq<byte>, p: nat, pend: nat, end: nat, u: UnitInfo)
    requires Writable(src) && p <= pend <= end <= |data| && data[p..pend] == OpenBody(src)
    ensures BodyAt(data, p, pend, end, src.version, u) == if pend == |data| || data[pend] != 0 then Astray else Failed
  {
    hide ParseFields, WriteFields, WriteStrings, ParseStrings, EndsOpen, Files;
    var strings := WriteStrings(src.dirs);
    FieldsRoundTrip(src, strings);
    TailOf(data, p, pend, WriteFields(src), strings);
    StringsEndOpen(src.dirs);
    OpenIsShort(strings);
  }

  /** For any fields and directories: what is next in the section decides whether the pass stops or goes astray. */
  lemma OpenDirsUnit(src: Source, program: seq<byte>, is64: bool, u: UnitInfo, section: seq<byte>, offset: nat, tail: seq<byte>)
    requires Writable(src) && |OpenBody(src)| < Pow256(if is64 then 8 else 4) && offset <= |section|
    requires var unit := Around(src.version, OpenBody(src), program, is64, u.bigEndian);
      UnitFits(unit, is64) && section[offset..] == WriteUnit(unit, is64, u.bigEndian) + tail
    ensures var next := program + tail;
      UnitAt(section, offset, u) == if next == [] || next[0] != 0 then Astray else Failed
  {
    hide OpenBody, WriteUnit, UnitAt, HeaderAt, BodyAt, Around;
    var body := OpenBody(src);
    var unit := Around(src.version, body, program, is64, u.bigEndian);
    UnitRead(section, offset, unit, tail, is64, u);
    var end := |section| - |tail|;
    AroundRead(src.version, body, program, is64, u, section, end - |unit|, end);
    var p := end - |body + program|;
    OpenBodyFails(src, section, p, p + |body|, end, u);
    assert section[p + |body|..] == section[p + |body|..end] + section[end..] == program + tail;
  }
}
