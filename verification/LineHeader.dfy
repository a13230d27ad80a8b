// read_line_header: the fields in front of a line-number program, and its tables of directories and
// files, each of which is counted in one pass and filled in a second.
module LineHeader {
  import opened Words
  import opened Leb128
  import opened Readers
  import opened DwarfBuf
  import LM = LineMachine

  /** Astray: a read or a store outside of what was mapped, or of the array that was allocated. */
  datatype Outcome<T> = Ok(value: T) | Failed | Astray

  /** What the unit knows before its header is read. */
  datatype UnitInfo = UnitInfo(addrsize: nat, compDir: Option<seq<byte>>, bigEndian: bool, baseAddress: word)

  datatype Header = Header(env: LM.Env, names: seq<seq<byte>>, program: seq<byte>)

  // ---------------------------------------------------------------------------
  // Directories
  // ---------------------------------------------------------------------------

  /** The table up to the empty string that ends it. */
  function ParseStrings(h: seq<byte>): (r: Read<seq<seq<byte>>>)
    ensures |r.rest| <= |h|
  {
    if h == [] then Read([], h, true)
    else if h[0] == 0 then Read([], h[1..], false)
    else
      var n := StringLength(h);
      if n == |h| then Read([], h, true)
      else var q := ParseStrings(h[n + 1..]); q.(value := [h[..n]] + q.value)
  }

  /** The counting pass. */
  function CountStrings(h: seq<byte>): nat {
    if h == [] || h[0] == 0 then 0
    else var n := StringLength(h); 1 + if n == |h| then 0 else CountStrings(h[n + 1..])
  }

  /** Complete strings up to the end of the header, and no empty one behind them. */
  predicate EndsOpen(h: seq<byte>) {
    h == [] || (h[0] != 0 && StringLength(h) < |h| && EndsOpen(h[StringLength(h) + 1..]))
  }

  /**
   * The filling pass, where t lies behind the header: it goes on as long as the next byte is not 0, be
   * that byte inside the header or not.
   */
  function DirTable(h: seq<byte>, t: seq<byte>): Outcome<seq<seq<byte>>> {
    if !ParseStrings(h).short then Ok(ParseStrings(h).value)
    else if EndsOpen(h) && (t == [] || t[0] != 0) then Astray
    else Failed
  }

  /** Both passes find the same directories, unless the header ends before the table does. */
  lemma {:induction false} CountIsParsed(h: seq<byte>)
    ensures !ParseStrings(h).short ==> CountStrings(h) == |ParseStrings(h).value|
  {
    if h != [] && h[0] != 0 && StringLength(h) < |h| {
      CountIsParsed(h[StringLength(h) + 1..]);
    }
  }

  lemma {:induction false} OpenIsShort(h: seq<byte>)
    ensures EndsOpen(h) ==> ParseStrings(h).short
  {
    if h != [] && h[0] != 0 && StringLength(h) < |h| {
      OpenIsShort(h[StringLength(h) + 1..]);
    }
  }

  /** The passes agree, and stay inside, exactly unless the strings reach the end of the header and no 0 follows it. */
  lemma DirsAstrayIff(h: seq<byte>, t: seq<byte>)
    ensures DirTable(h, t).Astray? <==> EndsOpen(h) && (t == [] || t[0] != 0)
    ensures DirTable(h, t).Ok? ==> |DirTable(h, t).value| == CountStrings(h)
  {
    OpenIsShort(h);
    CountIsParsed(h);
  }

  /** Such a header: one directory is counted, and a second would be stored. */
  lemma DirsWithoutEnd(t: seq<byte>)
    requires t != [] && t[0] != 0
    ensures CountStrings([97, 0]) == 1 && DirTable([97, 0], t) == Astray
  {
    var h: seq<byte> := [97, 0];
    FirstString(h);
    assert StringLength(h) == 1 && h[2..] == [];
    DirsAstrayIff(h, t);
  }

  /** What the first string of a table, complete or not, means for both passes. */
  lemma FirstString(h: seq<byte>)
    requires h != [] && h[0] != 0
    ensures var n := StringLength(h);
      if n == |h| then CountStrings(h) == 1 && ParseStrings(h) == Read([], h, true) && !EndsOpen(h)
      else
        var h', q := h[n + 1..], ParseStrings(h[n + 1..]);
        && CountStrings(h) == 1 + CountStrings(h') && EndsOpen(h) == EndsOpen(h')
        && ParseStrings(h) == Read([h[..n]] + q.value, q.rest, q.short)
  {
  }

  lemma NoString(h: seq<byte>)
    requires h == [] || h[0] == 0
    ensures CountStrings(h) == 0 && EndsOpen(h) == (h == [])
    ensures ParseStrings(h) == if h == [] then Read([], h, true) else Read([], h[1..], false)
  {
  }

  lemma Regrouped<T>(a: seq<T>, x: T, b: seq<T>)
    ensures a + ([x] + b) == a + [x] + b
  {
  }

  lemma DropOf(data: seq<byte>, p: nat, pend: nat, k: nat)
    requires p + k <= pend <= |data|
    ensures data[p..pend][k..] == data[p + k..pend]
  {
  }

  method CountDirs(buf: Buf) returns (count: nat)
    requires buf.Valid()
    ensures count == CountStrings(buf.Rest())
  {
    hide StringLength, CountStrings;
    ghost var h := buf.Rest();
    count := 0;
    var p, pend := buf.pos, buf.pos + buf.left;
    while p < pend && buf.data[p] != 0
      invariant buf.pos <= p <= pend + 1
      invariant CountStrings(h) == count + if p <= pend then CountStrings(buf.data[p..pend]) else 0
      decreases pend - p
    {
      var s := buf.data[p..pend];
      FirstString(s);
      var n := StringLength(s);
      if n < |s| {
        DropOf(buf.data, p, pend, n + 1);
      }
      p, count := p + n + 1, count + 1;
    }
    if p <= pend {
      NoString(buf.data[p..pend]);
    }
  }

  /** h was read up to s, and stored are the strings in front. */
  ghost predicate ReadUpTo(h: seq<byte>, s: seq<byte>, stored: seq<seq<byte>>) {
    && CountStrings(h) == |stored| + CountStrings(s) && EndsOpen(h) == EndsOpen(s)
    && var all, here := ParseStrings(h), ParseStrings(s);
      all.short == here.short && all.rest == here.rest && all.value == stored + here.value
  }

  lemma ReadOneMore(h: seq<byte>, s: seq<byte>, stored: seq<seq<byte>>)
    requires ReadUpTo(h, s, stored) && CountStrings(s) > 0
    ensures s != [] && s[0] != 0
    ensures var n := StringLength(s);
      if n < |s| then ReadUpTo(h, s[n + 1..], stored + [s[..n]]) else ParseStrings(h).short && !EndsOpen(h)
  {
    hide StringLength, CountStrings, ParseStrings, EndsOpen;
    HasString(s);
    FirstString(s);
    var n := StringLength(s);
    if n < |s| {
      Regrouped(stored, s[..n], ParseStrings(s[n + 1..]).value);
    }
  }

  lemma ReadAll(h: seq<byte>, s: seq<byte>, stored: seq<seq<byte>>, t: seq<byte>)
    requires ReadUpTo(h, s, stored)
    ensures s != [] && s[0] == 0 ==> DirTable(h, t) == Ok(stored) && ParseStrings(h).rest == s[1..]
    ensures s == [] ==> ParseStrings(h).short && DirTable(h, t) == if t == [] || t[0] != 0 then Astray else Failed
  {
    hide StringLength, CountStrings, ParseStrings, EndsOpen;
    if s == [] || s[0] == 0 {
      NoString(s);
      assert stored + [] == stored;
    }
  }

  /** A pointer to a string, and on behind it. */
  method TakeString(buf: Buf) returns (name: seq<byte>, ok: bool)
    requires buf.Valid()
    modifies buf
    ensures buf.Valid() && buf.pos + buf.left == old(buf.pos + buf.left) && buf.left <= old(buf.left)
    ensures var s, n := old(buf.Rest()), StringLength(old(buf.Rest()));
      && name == s[..n] && ok == (n < |s|)
      && (ok ==> buf.Rest() == s[n + 1..] && buf.reported_underflow == old(buf.reported_underflow) && buf.left < old(buf.left))
  {
    hide StringLength;
    var s := buf.data[buf.pos..buf.pos + buf.left];
    var n := StringLength(s);
    name := s[..n];
    ok := buf.Advance(n + 1);
  }

  method FillDirs(buf: Buf) returns (r: Outcome<seq<seq<byte>>>)
    requires buf.Valid() && !buf.reported_underflow
    modifies buf
    ensures buf.Valid()
    ensures r == DirTable(old(buf.Rest()), buf.data[old(buf.pos + buf.left)..])
    ensures var end := old(buf.pos + buf.left);
      r.Astray? <==> EndsOpen(old(buf.Rest())) && (end == |buf.data| || buf.data[end] != 0)
    ensures r.Ok? ==> buf.Rest() == ParseStrings(old(buf.Rest())).rest && !buf.reported_underflow
    ensures r.Ok? ==> buf.pos + buf.left == old(buf.pos + buf.left)
  {
    hide StringLength, CountStrings, ParseStrings, EndsOpen, ReadUpTo, DirTable;
    ghost var h, pend := buf.Rest(), buf.pos + buf.left;
    var count := CountDirs(buf);
    var dirs := new seq<byte>[count](_ => []);
    var i := 0;
    Begin(h);
    DirsAstrayIff(h, buf.data[pend..]);
    while true
      invariant buf.Valid() && !buf.reported_underflow && buf.pos + buf.left == pend
      invariant i <= count && count == i + CountStrings(buf.Rest())
      invariant ReadUpTo(h, buf.Rest(), dirs[..i])
      decreases buf.left
    {
      ghost var s, stored := buf.Rest(), dirs[..i];
      ReadAll(h, s, stored, buf.data[pend..]);
      if buf.pos == |buf.data| {
        return Astray;
      }
      if buf.data[buf.pos] == 0 {
        break;
      }
      if i == dirs.Length {
        HasString(s);
        return Astray;
      }
      ReadOneMore(h, s, stored);
      var ok;
      dirs[i], ok := TakeString(buf);
      assert dirs[..i + 1] == stored + [dirs[i]];
      i := i + 1;
      if !ok {
        OpenEnd(h, buf.data[pend..]);
        return Failed;
      }
      CountedUpTo(h, buf.Rest(), dirs[..i]);
    }
    assert i == count by { HasString(buf.Rest()); }
    assert dirs[..i] == dirs[..];
    var ok := buf.Advance(1);
    r := if ok then Ok(dirs[..]) else Failed;
  }

  lemma Begin(h: seq<byte>)
    ensures ReadUpTo(h, h, [])
  {
    assert [] + ParseStrings(h).value == ParseStrings(h).value;
  }

  lemma CountedUpTo(h: seq<byte>, s: seq<byte>, stored: seq<seq<byte>>)
    requires ReadUpTo(h, s, stored)
    ensures CountStrings(h) == |stored| + CountStrings(s)
  {
  }

  lemma OpenEnd(h: seq<byte>, t: seq<byte>)
    requires ParseStrings(h).short && !EndsOpen(h)
    ensures DirTable(h, t) == Failed
  {
  }

  lemma HasString(h: seq<byte>)
    ensures CountStrings(h) > 0 <==> h != [] && h[0] != 0
  {
  }


  // ---------------------------------------------------------------------------
  // Files
  // ---------------------------------------------------------------------------

  /** The path of a file: as it is, or behind its directory; None is an index that no directory has. */
  function Resolved(name: seq<byte>, dir: nat, dirs: seq<seq<byte>>, compDir: Option<seq<byte>>): Option<seq<byte>> {
    if (name != [] && name[0] == LM.SLASH) || (dir == 0 && compDir == None) then Some(name)
    else if dir == 0 then Some(compDir.value + [LM.SLASH] + name)
    else if dir - 1 < |dirs| then Some(dirs[dir - 1] + [LM.SLASH] + name)
    else None
  }

  /** What one entry with its three numbers is; None when it does not end inside the header. */
  function ParseFile(h: seq<byte>): (r: Read<(seq<byte>, nat)>)
    requires h != [] && h[0] != 0 && StringLength(h) < |h|
    ensures |r.rest| < |h| && (r.short ==> r.rest == [])
  {
    var n := StringLength(h);
    var d := ReadULeb(h[n + 1..]);
    var m := ReadULeb(d.rest);
    var l := ReadULeb(m.rest);
    Read((h[..n], d.value), l.rest, d.short || m.short || l.short)
  }

  /** The filling pass, which does not take the 0 that ends the table; it too looks at the byte behind the header. */
  function FileTable(h: seq<byte>, t: seq<byte>, dirs: seq<seq<byte>>, compDir: Option<seq<byte>>): Outcome<seq<seq<byte>>> {
    if h == [] then (if t == [] then Astray else if t[0] == 0 then Ok([]) else Failed)
    else if h[0] == 0 then Ok([])
    else if StringLength(h) == |h| then Failed
    else
      var f := ParseFile(h);
      var name := Resolved(f.value.0, f.value.1, dirs, compDir);
      if name == None then Failed
      else if f.short then (if t == [] then Astray else Failed)
      else match FileTable(f.rest, t, dirs, compDir)
        case Ok(more) => Ok([name.value] + more)
        case other => other
  }

  /** leb128_len k times from position q on, wherever that leads inside of data. */
  function AfterLebs(data: seq<byte>, q: nat, k: nat): (r: Option<nat>)
    ensures r.Some? ==> q <= r.value <= |data|
    decreases k
  {
    if q > |data| then None
    else if k == 0 then Some(q)
    else if !HasTerminator(data[q..]) then None
    else AfterLebs(data, q + Span(data[q..]), k - 1)
  }

  /** The counting pass, which is bounded by the end of the header only between entries. */
  function CountFiles(data: seq<byte>, p: nat, pend: nat): Option<nat>
    requires pend <= |data|
    decreases |data| - p
  {
    if p >= pend || data[p] == 0 then Some(0)
    else match AfterLebs(data, p + StringLength(data[p..pend]) + 1, 3)
      case None => None
      case Some(q) =>
        match CountFiles(data, q, pend)
        case None => None
        case Some(k) => Some(k + 1)
  }

  /** Both passes. */
  function Files(data: seq<byte>, p: nat, pend: nat, dirs: seq<seq<byte>>, compDir: Option<seq<byte>>): Outcome<seq<seq<byte>>>
    requires p <= pend <= |data|
  {
    if CountFiles(data, p, pend) == None then Astray else FileTable(data[p..pend], data[pend..], dirs, compDir)
  }

  /** A number that ends inside the header is as long for leb128_len as for read_uleb128. */
  lemma LebInside(data: seq<byte>, q: nat, pend: nat)
    requires q <= pend <= |data| && !ReadULeb(data[q..pend]).short
    ensures HasTerminator(data[q..]) && Span(data[q..]) == Span(data[q..pend]) <= pend - q
    ensures ReadULeb(data[q..pend]).rest == data[q + Span(data[q..])..pend]
  {
    var s, y := data[q..pend], data[pend..];
    var n := Span(s);
    assert data[q..] == s + y == s[..n] + (s[n..] + y);
    SpanLocal(s, s[n..] + y);
    DropOf(data, q, pend, n);
  }

  /** An entry that ends inside the header is stepped over alike by both passes. */
  lemma FileInside(data: seq<byte>, p: nat, pend: nat)
    requires p < pend <= |data| && data[p] != 0 && StringLength(data[p..pend]) < pend - p
    requires !ParseFile(data[p..pend]).short
    ensures var q := AfterLebs(data, p + StringLength(data[p..pend]) + 1, 3);
      q.Some? && p < q.value <= pend && ParseFile(data[p..pend]).rest == data[q.value..pend]
  {
    hide Span, HasTerminator, ReadULeb, StringLength;
    var n := StringLength(data[p..pend]);
    DropOf(data, p, pend, n + 1);
    var q0 := p + n + 1;
    LebInside(data, q0, pend);
    var q1 := q0 + Span(data[q0..]);
    LebInside(data, q1, pend);
    var q2 := q1 + Span(data[q1..]);
    LebInside(data, q2, pend);
    var q3 := q2 + Span(data[q2..]);
    assert AfterLebs(data, q3, 0) == Some(q3);
    assert AfterLebs(data, q2, 1) == Some(q3);
    assert AfterLebs(data, q1, 2) == Some(q3);
  }

  /** Whenever the filling pass comes to its end, the counting pass did, and counted the same files. */
  lemma {:induction false} FilesAgree(data: seq<byte>, p: nat, pend: nat, dirs: seq<seq<byte>>, compDir: Option<seq<byte>>)
    requires p <= pend <= |data|
    ensures var r := FileTable(data[p..pend], data[pend..], dirs, compDir);
      r.Ok? ==> CountFiles(data, p, pend) == Some(|r.value|) && Files(data, p, pend, dirs, compDir) == r
    decreases pend - p
  {
    hide ParseFile, AfterLebs, StringLength, Resolved;
    var h := data[p..pend];
    if p < pend && data[p] != 0 && StringLength(h) < |h| && !ParseFile(h).short {
      FileInside(data, p, pend);
      FilesAgree(data, AfterLebs(data, p + StringLength(h) + 1, 3).value, pend, dirs, compDir);
    }
  }

  /** leb128_len three times. */
  method SkipLebs(data: seq<byte>, start: nat) returns (r: Option<nat>)
    ensures r == AfterLebs(data, start, 3)
  {
    hide Span, HasTerminator;
    var q: nat, k: nat := start, 3;
    while k > 0
      invariant AfterLebs(data, start, 3) == AfterLebs(data, q, k)
    {
      if q > |data| || !HasTerminator(data[q..]) {
        return None;
      }
      var n := Leb128Len(data[q..]);
      q, k := q + n, k - 1;
    }
    r := if q > |data| then None else Some(q);
  }

  lemma CountFilesStep(data: seq<byte>, p: nat, pend: nat)
    requires p < pend <= |data| && data[p] != 0
    ensures CountFiles(data, p, pend) ==
      match AfterLebs(data, p + StringLength(data[p..pend]) + 1, 3)
      case None => None
      case Some(q) => if CountFiles(data, q, pend) == None then None else Some(CountFiles(data, q, pend).value + 1)
  {
  }

  lemma CountFilesEnd(data: seq<byte>, p: nat, pend: nat)
    requires pend <= |data| && (p >= pend || data[p] == 0)
    ensures CountFiles(data, p, pend) == Some(0)
  {
  }

  method CountFilenames(buf: Buf) returns (count: Option<nat>)
    requires buf.Valid()
    ensures count == CountFiles(buf.data, buf.pos, buf.pos + buf.left)
  {
    hide StringLength, AfterLebs, CountFiles;
    var p, pend, n := buf.pos, buf.pos + buf.left, 0;
    while p < pend && buf.data[p] != 0
      invariant buf.pos <= p
      invariant var all, here := CountFiles(buf.data, buf.pos, pend), CountFiles(buf.data, p, pend);
        all == if here == None then None else Some(n + here.value)
      decreases |buf.data| - p
    {
      CountFilesStep(buf.data, p, pend);
      var q := SkipLebs(buf.data, p + StringLength(buf.data[p..pend]) + 1);
      if q == None {
        return None;
      }
      p, n := q.value, n + 1;
    }
    CountFilesEnd(buf.data, p, pend);
    count := Some(n);
  }

  /** One entry: its name, and past its numbers. */
  method TakeFile(buf: Buf) returns (name: seq<byte>, dir: nat, ok: bool)
    requires buf.Valid() && buf.left > 0 && buf.Rest()[0] != 0
    modifies buf
    ensures buf.Valid() && buf.pos + buf.left == old(buf.pos + buf.left) && buf.left <= old(buf.left)
    ensures ok == (StringLength(old(buf.Rest())) < old(buf.left))
    ensures ok ==> var f := ParseFile(old(buf.Rest()));
      && (name, dir) == f.value && buf.Rest() == f.rest && buf.left < old(buf.left)
      && buf.reported_underflow == (old(buf.reported_underflow) || f.short)
  {
    hide StringLength, ReadULeb;
    name, ok := TakeString(buf);
    if !ok {
      return name, 0, false;
    }
    dir := buf.ReadULeb128();
    var _ := buf.ReadULeb128();
    var _ := buf.ReadULeb128();
  }

  /** What is left gives here, stored are the names in front, and both together give all. */
  ghost predicate NamedUpTo(all: Outcome<seq<seq<byte>>>, here: Outcome<seq<seq<byte>>>, stored: seq<seq<byte>>) {
    all == if here.Ok? then Ok(stored + here.value) else here
  }

  lemma NamedOneMore(all: Outcome<seq<seq<byte>>>, s: seq<byte>, t: seq<byte>, dirs: seq<seq<byte>>,
                     compDir: Option<seq<byte>>, stored: seq<seq<byte>>)
    requires NamedUpTo(all, FileTable(s, t, dirs, compDir), stored)
    requires s != [] && s[0] != 0
    ensures StringLength(s) == |s| ==> all == Failed
    ensures StringLength(s) < |s| ==>
      var f := ParseFile(s);
      var name := Resolved(f.value.0, f.value.1, dirs, compDir);
      && (name == None ==> all == Failed)
      && (name.Some? && f.short ==> all == if t == [] then Astray else Failed)
      && (name.Some? && !f.short ==> NamedUpTo(all, FileTable(f.rest, t, dirs, compDir), stored + [name.value]))
  {
    hide ParseFile, StringLength, Resolved;
    if StringLength(s) < |s| {
      var f := ParseFile(s);
      var name := Resolved(f.value.0, f.value.1, dirs, compDir);
      if name.Some? && !f.short && FileTable(f.rest, t, dirs, compDir).Ok? {
        Regrouped(stored, name.value, FileTable(f.rest, t, dirs, compDir).value);
      }
    }
  }

  lemma NamedAll(all: Outcome<seq<seq<byte>>>, s: seq<byte>, t: seq<byte>, dirs: seq<seq<byte>>,
                 compDir: Option<seq<byte>>, stored: seq<seq<byte>>)
    requires NamedUpTo(all, FileTable(s, t, dirs, compDir), stored)
    ensures s == [] && t == [] ==> all == Astray
    ensures s == [] && t != [] && t[0] != 0 ==> all == Failed
    ensures (s == [] && t != [] && t[0] == 0) || (s != [] && s[0] == 0) ==> all == Ok(stored)
  {
    assert stored + [] == stored;
  }

  lemma CountedFile(data: seq<byte>, p: nat, pend: nat)
    requires p < pend <= |data| && data[p] != 0 && CountFiles(data, p, pend).Some?
    ensures CountFiles(data, p, pend).value > 0
    ensures StringLength(data[p..pend]) < pend - p && !ParseFile(data[p..pend]).short ==>
      var q := pend - |ParseFile(data[p..pend]).rest|;
      CountFiles(data, q, pend) == Some(CountFiles(data, p, pend).value - 1)
  {
    hide StringLength, AfterLebs, ParseFile;
    if StringLength(data[p..pend]) < pend - p && !ParseFile(data[p..pend]).short {
      FileInside(data, p, pend);
    }
  }

  method FillFiles(buf: Buf, dirs: seq<seq<byte>>, compDir: Option<seq<byte>>) returns (r: Outcome<seq<seq<byte>>>)
    requires buf.Valid() && !buf.reported_underflow
    modifies buf
    ensures buf.Valid() && buf.pos + buf.left == old(buf.pos + buf.left)
    ensures r == Files(buf.data, old(buf.pos), old(buf.pos + buf.left), dirs, compDir)
  {
    hide StringLength, AfterLebs, CountFiles, FileTable, NamedUpTo, ParseFile, Resolved;
    ghost var start, pend := buf.pos, buf.pos + buf.left;
    ghost var all := FileTable(buf.data[start..pend], buf.data[pend..], dirs, compDir);
    var count := CountFilenames(buf);
    if count == None {
      return Astray;
    }
    var filenames := new seq<byte>[count.value](_ => []);
    var i := 0;
    NamedBegin(all);
    while true
      invariant buf.Valid() && buf.pos + buf.left == pend && i <= count.value
      invariant if buf.reported_underflow then buf.left == 0 && all == (if buf.data[pend..] == [] then Astray else Failed)
        else CountFiles(buf.data, buf.pos, pend) == Some(count.value - i)
             && NamedUpTo(all, FileTable(buf.Rest(), buf.data[pend..], dirs, compDir), filenames[..i])
      decreases buf.left, if buf.reported_underflow then 0 else 1
    {
      ghost var s, t, stored := buf.Rest(), buf.data[pend..], filenames[..i];
      if !buf.reported_underflow {
        NamedAll(all, s, t, dirs, compDir, stored);
      }
      if buf.pos == |buf.data| {
        return Astray;
      }
      if buf.data[buf.pos] == 0 {
        break;
      }
      if buf.reported_underflow {
        return Failed;
      }
      if buf.left == 0 {
        var _ := buf.Advance(1);
        return Failed;
      }
      EntryOf(all, buf.data, buf.pos, pend, dirs, compDir, stored, count.value - i);
      var f, dir, ok := TakeFile(buf);
      if !ok {
        return Failed;
      }
      var name := Resolved(f, dir, dirs, compDir);
      if name == None {
        return Failed;
      }
      filenames[i] := name.value;
      assert filenames[..i + 1] == stored + [name.value];
      i := i + 1;
    }
    if buf.reported_underflow {
      return Failed;
    }
    CountFilesEnd(buf.data, buf.pos, pend);
    assert filenames[..i] == filenames[..];
    r := Ok(filenames[..]);
  }

  /** One entry, in both passes. */
  lemma EntryOf(all: Outcome<seq<seq<byte>>>, data: seq<byte>, p: nat, pend: nat, dirs: seq<seq<byte>>,
                compDir: Option<seq<byte>>, stored: seq<seq<byte>>, k: nat)
    requires p < pend <= |data| && data[p] != 0 && CountFiles(data, p, pend) == Some(k)
    requires NamedUpTo(all, FileTable(data[p..pend], data[pend..], dirs, compDir), stored)
    ensures k > 0
    ensures var h := data[p..pend];
      if StringLength(h) == |h| then all == Failed
      else
        var f := ParseFile(h);
        var name := Resolved(f.value.0, f.value.1, dirs, compDir);
        if name == None then all == Failed
        else if f.short then all == (if data[pend..] == [] then Astray else Failed)
        else NamedUpTo(all, FileTable(f.rest, data[pend..], dirs, compDir), stored + [name.value])
             && CountFiles(data, pend - |f.rest|, pend) == Some((k - 1) as nat)
  {
    hide StringLength, AfterLebs, CountFiles, FileTable, NamedUpTo, ParseFile, Resolved;
    NamedOneMore(all, data[p..pend], data[pend..], dirs, compDir, stored);
    CountedFile(data, p, pend);
  }

  lemma NamedBegin(all: Outcome<seq<seq<byte>>>)
    ensures NamedUpTo(all, all, [])
  {
    if all.Ok? {
      assert [] + all.value == all.value;
    }
  }

  // ---------------------------------------------------------------------------
  // The header
  // ---------------------------------------------------------------------------

  /** read_sbyte. */
  function Signed8(b: byte): (r: int)
    ensures -128 <= r < 128
  {
    if b < 128 then b else b - 256
  }

  /** The fields between the header's length and its tables. */
  datatype Fields = Fields(
    minInsnLen: byte,
    maxOps: byte,
    lineBase: int,
    lineRange: byte,
    opcodeBase: byte,
    opcodeLengths: seq<byte>)
  {
    /** As many opcode lengths as opcode_base says. */
    predicate Fit() {
      |opcodeLengths| == Wrap32(opcodeBase - 1) && -128 <= lineBase < 128
    }
  }

  /** The bytes before the opcode lengths. */
  function ParseBytes(h: seq<byte>, version: nat): (r: Read<Fields>)
    ensures |r.rest| <= |h| && (r.short ==> r.value.opcodeBase == 0 && r.rest == [])
    ensures -128 <= r.value.lineBase < 128
  {
    var minInsnLen := ReadByte(h);
    var maxOps := if version < 4 then Read(1, minInsnLen.rest, false) else ReadByte(minInsnLen.rest);
    var isStmt := ReadByte(maxOps.rest);
    var lineBase := ReadByte(isStmt.rest);
    var lineRange := ReadByte(lineBase.rest);
    var base := ReadByte(lineRange.rest);
    Read(Fields(minInsnLen.value, maxOps.value, Signed8(lineBase.value), lineRange.value, base.value, []), base.rest,
         minInsnLen.short || maxOps.short || isStmt.short || lineBase.short || lineRange.short || base.short)
  }

  /** opcode_base - 1 is an unsigned int, so that 4 GiB of lengths follow an opcode_base of 0. */
  function ParseFields(h: seq<byte>, version: nat): (r: Read<Fields>)
    ensures |r.rest| <= |h| && (!r.short ==> r.value.Fit())
  {
    var b := ParseBytes(h, version);
    var count := Wrap32(b.value.opcodeBase - 1);
    if count > |b.rest| then Read(b.value, b.rest, true)
    else Read(b.value.(opcodeLengths := b.rest[..count]), b.rest[count..], false)
  }

  function EnvOf(u: UnitInfo, f: Fields, dirs: seq<seq<byte>>, count: nat): (e: LM.Env)
    requires f.Fit()
    ensures e.Valid()
  {
    LM.Env(f.minInsnLen, f.maxOps, f.lineBase, f.lineRange, f.opcodeBase, f.opcodeLengths, dirs, count, u.addrsize,
           u.compDir, u.bigEndian, u.baseAddress)
  }

  /** The header in data[p..pend], which the program follows up to end. */
  function TablesAt(data: seq<byte>, p: nat, pend: nat, end: nat, f: Fields, u: UnitInfo): (r: Outcome<Header>)
    requires p <= pend <= end <= |data| && f.Fit()
    ensures r.Ok? ==> r.value.env.Valid() && r.value.program == data[pend..end]
  {
    match DirTable(data[p..pend], data[pend..])
    case Failed => Failed
    case Astray => Astray
    case Ok(dirs) =>
      match Files(data, pend - |ParseStrings(data[p..pend]).rest|, pend, dirs, u.compDir)
      case Failed => Failed
      case Astray => Astray
      case Ok(names) => Ok(Header(EnvOf(u, f, dirs, |names|), names, data[pend..end]))
  }

  /** Fields and tables in data[p..pend]. */
  function BodyAt(data: seq<byte>, p: nat, pend: nat, end: nat, version: nat, u: UnitInfo): (r: Outcome<Header>)
    requires p <= pend <= end <= |data|
    ensures r.Ok? ==> r.value.env.Valid() && r.value.program == data[pend..end]
  {
    var f := ParseFields(data[p..pend], version);
    if f.short then Failed else TablesAt(data, pend - |f.rest|, pend, end, f.value, u)
  }

  /** read_line_header, for the unread bytes data[pos..end]. */
  function HeaderAt(data: seq<byte>, pos: nat, end: nat, is64: bool, u: UnitInfo): (r: Outcome<Header>)
    requires pos <= end <= |data|
    ensures r.Ok? ==> r.value.env.Valid() && r.value.env.bigEndian == u.bigEndian
  {
    var version := ReadUInt(data[pos..end], 2, u.bigEndian);
    if version.value < 2 || version.value > 4 then Failed
    else
      var len := ReadOffset(version.rest, is64, u.bigEndian);
      if len.short || len.value > |len.rest| then Failed
      else
        var p := end - |len.rest|;
        BodyAt(data, p, p + len.value, end, version.value, u)
  }

  /** The unit at an offset of the section; a unit that is longer than the section is not followed. */
  function UnitAt(section: seq<byte>, offset: nat, u: UnitInfo): (r: Outcome<Header>)
    ensures r.Ok? ==> r.value.env.Valid() && r.value.env.bigEndian == u.bigEndian
  {
    if offset >= |section| then Failed
    else
      var first := ReadUInt(section[offset..], 4, u.bigEndian);
      var is64 := first.value == U32 - 1;
      var len := if is64 then ReadUInt(first.rest, 8, u.bigEndian) else first;
      if len.value > |len.rest| then Astray
      else
        var pos := |section| - |len.rest|;
        HeaderAt(section, pos, pos + len.value, is64, u)
  }

  method ReadBytes(buf: Buf, version: nat) returns (f: Fields)
    requires buf.Valid()
    modifies buf
    ensures buf.Valid() && buf.pos + buf.left == old(buf.pos + buf.left)
    ensures var r := ParseBytes(old(buf.Rest()), version);
      f == r.value && buf.Rest() == r.rest && buf.reported_underflow == (old(buf.reported_underflow) || r.short)
  {
    hide ReadByte;
    var minInsnLen := buf.ReadByte();
    var maxOps := 1;
    if version >= 4 {
      maxOps := buf.ReadByte();
    }
    var _ := buf.ReadByte();
    var lineBase := buf.ReadByte();
    var lineRange := buf.ReadByte();
    var base := buf.ReadByte();
    f := Fields(minInsnLen, maxOps, Signed8(lineBase), lineRange, base, []);
  }

  method ReadFields(buf: Buf, version: nat) returns (f: Fields, ok: bool)
    requires buf.Valid()
    modifies buf
    ensures buf.Valid() && buf.pos + buf.left == old(buf.pos + buf.left)
    ensures var r := ParseFields(old(buf.Rest()), version);
      ok == !r.short && (ok ==> f == r.value && buf.Rest() == r.rest && buf.reported_underflow == old(buf.reported_underflow))
  {
    hide ParseBytes;
    f := ReadBytes(buf, version);
    ghost var rest := buf.Rest();
    var p, count := buf.pos, Wrap32(f.opcodeBase - 1);
    ok := buf.Advance(count);
    if ok {
      assert buf.data[p..p + count] == rest[..count];
      f := f.(opcodeLengths := buf.data[p..p + count]);
    }
  }

  /** What follows the header's length, for a buffer that ends where the header does. */
  method ReadBody(buf: Buf, version: nat, end: nat, u: UnitInfo) returns (r: Outcome<Header>)
    requires buf.Valid() && !buf.reported_underflow && buf.pos + buf.left <= end <= |buf.data|
    modifies buf
    ensures r == BodyAt(buf.data, old(buf.pos), old(buf.pos + buf.left), end, version, u)
  {
    hide DirTable, Files, ParseStrings, ParseFields;
    ghost var pend := buf.pos + buf.left;
    var f, ok := ReadFields(buf, version);
    if !ok {
      return Failed;
    }
    assert buf.Rest() == buf.data[buf.pos..pend];
    var dirs := FillDirs(buf);
    if !dirs.Ok? {
      return if dirs.Failed? then Failed else Astray;
    }
    var names := FillFiles(buf, dirs.value, u.compDir);
    if !names.Ok? {
      return if names.Failed? then Failed else Astray;
    }
    r := Ok(Header(EnvOf(u, f, dirs.value, |names.value|), names.value, buf.data[buf.pos + buf.left..end]));
  }

  method ReadLineHeader(buf: Buf, is64: bool, u: UnitInfo) returns (r: Outcome<Header>)
    requires buf.Valid() && buf.bigEndian == u.bigEndian && (buf.reported_underflow ==> buf.left == 0)
    modifies buf
    ensures buf.Valid()
    ensures r == HeaderAt(buf.data, old(buf.pos), old(buf.pos + buf.left), is64, u)
    ensures r.Ok? ==> buf.Rest() == r.value.program && !buf.reported_underflow
  {
    hide ReadUInt, BodyAt;
    ghost var end := buf.pos + buf.left;
    assert buf.Rest() == buf.data[buf.pos..end];
    NoUInt(buf.Rest(), u.bigEndian);
    var version := buf.ReadUInt16();
    if version < 2 || version > 4 {
      return Failed;
    }
    var hdrlen := buf.ReadOffset(is64);
    if buf.reported_underflow {
      return Failed;
    }
    var start := buf.pos;
    var ok := buf.Advance(hdrlen);
    if !ok {
      return Failed;
    }
    var hdrBuf := new Buf(buf.data, start, hdrlen, buf.bigEndian);
    r := ReadBody(hdrBuf, version, buf.pos + buf.left, u);
  }

  lemma NoUInt(s: seq<byte>, big: bool)
    ensures s == [] ==> ReadUInt(s, 2, big).value == 0
    ensures ReadUInt(s, 2, big).short ==> ReadUInt(s, 2, big).value == 0
  {
  }

  /** What is in front of the header: the length of the unit, in either format. */
  method OpenUnit(section: seq<byte>, offset: nat, u: UnitInfo) returns (r: Outcome<Header>, buf: Buf)
    ensures r == UnitAt(section, offset, u)
    ensures fresh(buf) && buf.Valid() && buf.bigEndian == u.bigEndian
    ensures r.Ok? ==> buf.Rest() == r.value.program && !buf.reported_underflow
  {
    hide ReadUInt, HeaderAt;
    if offset >= |section| {
      buf := new Buf([], 0, 0, u.bigEndian);
      return Failed, buf;
    }
    buf := new Buf(section, offset, |section| - offset, u.bigEndian);
    assert buf.Rest() == section[offset..];
    ShortIs0(buf.Rest(), 4, u.bigEndian);
    var len := buf.ReadUInt32();
    var is64 := false;
    if len == U32 - 1 {
      ShortIs0(buf.Rest(), 8, u.bigEndian);
      len := buf.ReadUInt64();
      is64 := true;
    }
    if len > buf.left {
      return Astray, buf;
    }
    buf.left := len;
    r := ReadLineHeader(buf, is64, u);
  }

  lemma ShortIs0(s: seq<byte>, n: nat, big: bool)
    ensures ReadUInt(s, n, big).short ==> ReadUInt(s, n, big).value == 0
  {
  }
}
