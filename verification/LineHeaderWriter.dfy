// Line-number program headers written out (section 6.2.4 of DWARF 4), and read back by read_line_header.
module LineHeaderWriter {
  import opened Words
  import opened Leb128
  import opened Readers
  import opened LineHeader
  import LM = LineMachine

  /** An entry of the table of files; time and size are not used. */
  datatype FileEntry = FileEntry(name: seq<byte>, dir: word, time: word, size: word)

  datatype Source = Source(version: nat, isStmt: byte, fields: Fields, dirs: seq<seq<byte>>, files: seq<FileEntry>)

  /** Strings in a table are not empty and hold no 0. */
  ghost predicate IsName(s: seq<byte>) {
    s != [] && 0 !in s
  }

  ghost predicate Writable(src: Source) {
    && 2 <= src.version <= 4 && src.fields.Fit()
    && (src.version < 4 ==> src.fields.maxOps == 1)
    && (forall i :: 0 <= i < |src.dirs| ==> IsName(src.dirs[i]))
    && forall i :: 0 <= i < |src.files| ==> IsName(src.files[i].name)
  }

  function WriteStrings(dirs: seq<seq<byte>>): seq<byte> {
    if dirs == [] then [] else dirs[0] + [0] + WriteStrings(dirs[1..])
  }

  function WriteFile(f: FileEntry): seq<byte> {
    f.name + [0] + EncodeUnsigned(f.dir) + EncodeUnsigned(f.time) + EncodeUnsigned(f.size)
  }

  function WriteFiles(files: seq<FileEntry>): seq<byte> {
    if files == [] then [] else WriteFile(files[0]) + WriteFiles(files[1..])
  }

  function Unsigned8(v: int): byte
    requires -128 <= v < 128
  {
    if v < 0 then v + 256 else v
  }

  function WriteFields(src: Source): seq<byte>
    requires src.fields.Fit()
  {
    var f := src.fields;
    [f.minInsnLen] + (if src.version < 4 then [] else [f.maxOps])
    + [src.isStmt, Unsigned8(f.lineBase), f.lineRange, f.opcodeBase] + f.opcodeLengths
  }

  function WriteBody(src: Source): seq<byte>
    requires src.fields.Fit()
  {
    WriteFields(src) + (WriteStrings(src.dirs) + [0] + (WriteFiles(src.files) + [0]))
  }

  /** Version and length in front of the body of a header, and the program behind it. */
  function Around(version: nat, body: seq<byte>, program: seq<byte>, is64: bool, big: bool): seq<byte> {
    EncodeUInt(version, 2, big) + (EncodeUInt(|body|, if is64 then 8 else 4, big) + (body + program))
  }

  /** The header, and the program behind it. */
  function Write(src: Source, program: seq<byte>, is64: bool, big: bool): seq<byte>
    requires src.fields.Fit()
  {
    Around(src.version, WriteBody(src), program, is64, big)
  }

  /** The length of a unit in front of it, with the escape of the 64-bit format (section 7.4 of DWARF 4). */
  function WriteUnit(unit: seq<byte>, is64: bool, big: bool): seq<byte> {
    if is64 then EncodeUInt(U32 - 1, 4, big) + (EncodeUInt(|unit|, 8, big) + unit) else EncodeUInt(|unit|, 4, big) + unit
  }

  /** The names that the files have. */
  ghost predicate AllResolved(files: seq<FileEntry>, dirs: seq<seq<byte>>, compDir: Option<seq<byte>>, names: seq<seq<byte>>) {
    |names| == |files| && forall i :: 0 <= i < |files| ==> NamesFile(files[i], dirs, compDir, names[i])
  }

  /** An absolute name, or one in the directory with that number; directory 0 is that of the unit, if it has one. */
  ghost predicate NamesFile(f: FileEntry, dirs: seq<seq<byte>>, compDir: Option<seq<byte>>, path: seq<byte>) {
    if LM.IsAbsolute(f.name) || (f.dir == 0 && compDir == None) then path == f.name
    else f.dir <= |dirs| && LM.IsPath(path, if f.dir == 0 then compDir.value else dirs[f.dir - 1], f.name)
  }

  lemma ResolvedIs(f: FileEntry, dirs: seq<seq<byte>>, compDir: Option<seq<byte>>, path: seq<byte>)
    ensures Resolved(f.name, f.dir, dirs, compDir) == Some(path) <==> NamesFile(f, dirs, compDir, path)
  {
    if !LM.IsAbsolute(f.name) && !(f.dir == 0 && compDir == None) && f.dir <= |dirs| {
      var d := if f.dir == 0 then compDir.value else dirs[f.dir - 1];
      assert LM.IsPath(d + [LM.SLASH] + f.name, d, f.name);
      if LM.IsPath(path, d, f.name) {
        assert path == path[..|d|] + [path[|d|]] + path[|d| + 1..];
      }
    }
  }

  /** What the program is run with: the fields and tables of the header, and what the unit adds to them. */
  ghost predicate Holds(e: LM.Env, src: Source, u: UnitInfo) {
    && e.minInsnLen == src.fields.minInsnLen && e.maxOps == src.fields.maxOps
    && e.lineBase == src.fields.lineBase && e.lineRange == src.fields.lineRange
    && e.opcodeBase == src.fields.opcodeBase && e.opcodeLengths == src.fields.opcodeLengths
    && e.dirs == src.dirs && e.filenamesCount == |src.files|
    && e.addrsize == u.addrsize && e.compDir == u.compDir && e.bigEndian == u.bigEndian && e.baseAddress == u.baseAddress
  }

  /** The header was read as it was written, with these names for its files, in front of the program. */
  ghost predicate ReadAs(r: Outcome<Header>, src: Source, u: UnitInfo, names: seq<seq<byte>>, program: seq<byte>) {
    r.Ok? && Holds(r.value.env, src, u) && r.value.names == names && r.value.program == program
  }

  // ---------------------------------------------------------------------------
  // Round trips
  // ---------------------------------------------------------------------------

  lemma StringInFront(name: seq<byte>, more: seq<byte>)
    requires IsName(name)
    ensures var q := ParseStrings(more); ParseStrings(name + [0] + more) == Read([name] + q.value, q.rest, q.short)
  {
    hide StringLength, ParseStrings;
    var h := name + [0] + more;
    StringEnds(name, more);
    assert h[0] == name[0];
    assert h[..|name|] == name && h[|name| + 1..] == more;
    FirstString(h);
  }

  lemma {:induction false} StringsRoundTrip(dirs: seq<seq<byte>>, tail: seq<byte>)
    requires forall i :: 0 <= i < |dirs| ==> IsName(dirs[i])
    ensures ParseStrings(WriteStrings(dirs) + [0] + tail) == Read(dirs, tail, false)
  {
    hide ParseStrings, IsName;
    var h := WriteStrings(dirs) + [0] + tail;
    if dirs == [] {
      assert h == [0] + tail;
      assert h[1..] == tail;
      NoString(h);
    } else {
      var more := WriteStrings(dirs[1..]) + [0] + tail;
      assert h == dirs[0] + [0] + more;
      StringInFront(dirs[0], more);
      StringsRoundTrip(dirs[1..], tail);
      assert dirs == [dirs[0]] + dirs[1..];
    }
  }

  lemma FileRoundTrip(f: FileEntry, tail: seq<byte>)
    requires IsName(f.name)
    ensures var h := WriteFile(f) + tail;
      && h != [] && h[0] != 0 && StringLength(h) < |h|
      && ParseFile(h) == Read((f.name, f.dir as nat), tail, false)
  {
    hide StringLength, ReadULeb;
    var a, b, c := EncodeUnsigned(f.dir), EncodeUnsigned(f.time), EncodeUnsigned(f.size);
    var h := WriteFile(f) + tail;
    assert h == f.name + [0] + (a + (b + (c + tail)));
    assert h[0] == f.name[0];
    StringEnds(f.name, a + (b + (c + tail)));
    assert h[..|f.name|] == f.name && h[|f.name| + 1..] == a + (b + (c + tail));
    ReadEncodedULeb(f.dir, b + (c + tail));
    ReadEncodedULeb(f.time, c + tail);
    ReadEncodedULeb(f.size, tail);
  }

  lemma {:induction false} FilesRoundTrip(files: seq<FileEntry>, t: seq<byte>, dirs: seq<seq<byte>>,
                                          compDir: Option<seq<byte>>, names: seq<seq<byte>>)
    requires (forall i :: 0 <= i < |files| ==> IsName(files[i].name)) && AllResolved(files, dirs, compDir, names)
    ensures FileTable(WriteFiles(files) + [0], t, dirs, compDir) == Ok(names)
  {
    hide StringLength, ParseFile, Resolved, WriteFile;
    var h := WriteFiles(files) + [0];
    if files == [] {
      assert h == [0];
    } else {
      var more := WriteFiles(files[1..]) + [0];
      assert h == WriteFile(files[0]) + more;
      FileRoundTrip(files[0], more);
      FilesRoundTrip(files[1..], t, dirs, compDir, names[1..]);
      ResolvedIs(files[0], dirs, compDir, names[0]);
      assert names == [names[0]] + names[1..];
    }
  }

  lemma FirstByte(b: byte, s: seq<byte>)
    ensures ReadByte([b] + s) == Read(b, s, false)
  {
    assert ([b] + s)[1..] == s;
  }

  lemma BytesRoundTrip(src: Source, rest: seq<byte>)
    requires Writable(src)
    ensures var f := src.fields;
      var h := [f.minInsnLen] + ((if src.version < 4 then [] else [f.maxOps])
                 + ([src.isStmt] + ([Unsigned8(f.lineBase)] + ([f.lineRange] + ([f.opcodeBase] + rest)))));
      ParseBytes(h, src.version) == Read(f.(opcodeLengths := []), rest, false)
  {
    hide ReadByte;
    var f := src.fields;
    var e := [f.opcodeBase] + rest;
    var d := [f.lineRange] + e;
    var c := [Unsigned8(f.lineBase)] + d;
    var b := [src.isStmt] + c;
    var a := (if src.version < 4 then [] else [f.maxOps]) + b;
    FirstByte(f.minInsnLen, a);
    if src.version < 4 {
      assert a == b;
    } else {
      FirstByte(f.maxOps, b);
    }
    FirstByte(src.isStmt, c);
    FirstByte(Unsigned8(f.lineBase), d);
    FirstByte(f.lineRange, e);
    FirstByte(f.opcodeBase, rest);
  }

  lemma FieldsRoundTrip(src: Source, tail: seq<byte>)
    requires Writable(src)
    ensures ParseFields(WriteFields(src) + tail, src.version) == Read(src.fields, tail, false)
  {
    hide ParseBytes;
    var f, lengths := src.fields, src.fields.opcodeLengths;
    var rest := lengths + tail;
    BytesRoundTrip(src, rest);
    assert WriteFields(src) + tail == [f.minInsnLen] + ((if src.version < 4 then [] else [f.maxOps])
             + ([src.isStmt] + ([Unsigned8(f.lineBase)] + ([f.lineRange] + ([f.opcodeBase] + rest)))));
    assert rest[..|lengths|] == lengths && rest[|lengths|..] == tail;
  }

  /** The size of a header has to fit the format of its unit. */
  ghost predicate Fits(src: Source, is64: bool) {
    Writable(src) && |WriteBody(src)| < Pow256(if is64 then 8 else 4)
  }

  lemma BodyRoundTrip(src: Source, data: seq<byte>, p: nat, pend: nat, end: nat, u: UnitInfo, names: seq<seq<byte>>)
    requires Writable(src) && AllResolved(src.files, src.dirs, u.compDir, names)
    requires p <= pend <= end <= |data| && data[p..pend] == WriteBody(src)
    ensures ReadAs(BodyAt(data, p, pend, end, src.version, u), src, u, names, data[pend..end])
  {
    hide ParseFields, WriteFields, WriteStrings, WriteFiles, ParseStrings, FileTable, CountFiles;
    var files := WriteFiles(src.files) + [0];
    var tables := WriteStrings(src.dirs) + [0] + files;
    assert data[p..pend] == WriteFields(src) + tables;
    FieldsRoundTrip(src, tables);
    TailOf(data, p, pend, WriteFields(src), tables);
    StringsRoundTrip(src.dirs, files);
    TailOf(data, pend - |tables|, pend, WriteStrings(src.dirs) + [0], files);
    FilesRoundTrip(src.files, data[pend..], src.dirs, u.compDir, names);
    FilesAgree(data, pend - |files|, pend, src.dirs, u.compDir);
  }

  lemma TailOf(data: seq<byte>, p: nat, pend: nat, front: seq<byte>, tail: seq<byte>)
    requires p <= pend <= |data| && data[p..pend] == front + tail
    ensures p <= pend - |tail| && data[pend - |tail|..pend] == tail
  {
    assert data[p..pend][|front|..] == tail;
  }

  /** Other versions, and a header that is longer than what is left, are rejected. */
  lemma OtherHeadersFail(version: nat, length: nat, rest: seq<byte>, is64: bool, u: UnitInfo, data: seq<byte>, pos: nat, end: nat)
    requires version < U16 && length < Pow256(if is64 then 8 else 4) && pos <= end <= |data|
    requires data[pos..end] ==
      EncodeUInt(version, 2, u.bigEndian) + (EncodeUInt(length, if is64 then 8 else 4, u.bigEndian) + rest)
    requires version !in {2, 3, 4} || length > |rest|
    ensures HeaderAt(data, pos, end, is64, u) == Failed
  {
    hide ReadUInt, BodyAt, EncodeUInt;
    assert Pow256(2) == U16;
    var n := if is64 then 8 else 4;
    ReadEncodedUInt(version, 2, u.bigEndian, EncodeUInt(length, n, u.bigEndian) + rest);
    ReadEncodedUInt(length, n, u.bigEndian, rest);
  }

  /** Where the body is, and what it comes to is what the header comes to. */
  lemma AroundRead(version: nat, body: seq<byte>, program: seq<byte>, is64: bool, u: UnitInfo, data: seq<byte>, pos: nat, end: nat)
    requires 2 <= version <= 4 && |body| < Pow256(if is64 then 8 else 4)
    requires pos <= end <= |data| && data[pos..end] == Around(version, body, program, is64, u.bigEndian)
    ensures var p := end - |body + program|;
      && pos <= p <= p + |body| <= end && data[p..p + |body|] == body && data[p + |body|..end] == program
      && HeaderAt(data, pos, end, is64, u) == BodyAt(data, p, p + |body|, end, version, u)
  {
    hide ReadUInt, BodyAt, EncodeUInt;
    var n := if is64 then 8 else 4;
    assert version < Pow256(2) by { assert Pow256(2) == 65536; }
    var front, length := EncodeUInt(version, 2, u.bigEndian), EncodeUInt(|body|, n, u.bigEndian);
    ReadEncodedUInt(version, 2, u.bigEndian, length + (body + program));
    ReadEncodedUInt(|body|, n, u.bigEndian, body + program);
    TailOf(data, pos, end, front, length + (body + program));
    TailOf(data, end - |length + (body + program)|, end, length, body + program);
    var p := end - |body + program|;
    assert data[p..p + |body|] == data[p..end][..|body|] == body;
    assert data[p + |body|..end] == data[p..end][|body|..] == program;
  }

  /** A header that was written is read back field by field, and the program behind it is what is left. */
  lemma HeaderRoundTrip(src: Source, program: seq<byte>, is64: bool, u: UnitInfo, data: seq<byte>, pos: nat, end: nat,
                        names: seq<seq<byte>>)
    requires Fits(src, is64) && AllResolved(src.files, src.dirs, u.compDir, names)
    requires pos <= end <= |data| && data[pos..end] == Write(src, program, is64, u.bigEndian)
    ensures ReadAs(HeaderAt(data, pos, end, is64, u), src, u, names, program)
  {
    hide WriteBody, HeaderAt, BodyAt, Around;
    var body := WriteBody(src);
    AroundRead(src.version, body, program, is64, u, data, pos, end);
    var p := end - |body + program|;
    BodyRoundTrip(src, data, p, p + |body|, end, u, names);
  }

  /** The escape of the 64-bit format is not a length of the other. */
  predicate UnitFits(unit: seq<byte>, is64: bool) {
    |unit| < if is64 then U64 else U32 - 1
  }

  lemma UnitPowers()
    ensures Pow256(4) == U32 && Pow256(8) == U64
  {
    assert Pow256(4) == 256 * (256 * (256 * (256 * Pow256(0))));
    assert Pow256(8) == 256 * (256 * (256 * (256 * Pow256(4))));
  }

  lemma LengthRead(unit: seq<byte>, tail: seq<byte>, is64: bool, big: bool)
    requires UnitFits(unit, is64)
    ensures var s := WriteUnit(unit, is64, big) + tail;
      var first := ReadUInt(s, 4, big);
      && (first.value == U32 - 1) == is64
      && (if is64 then ReadUInt(first.rest, 8, big) else first) == Read(|unit|, unit + tail, false)
  {
    hide ReadUInt, EncodeUInt;
    UnitPowers();
    var s, rest := WriteUnit(unit, is64, big) + tail, unit + tail;
    if is64 {
      var length := EncodeUInt(|unit|, 8, big);
      assert s == EncodeUInt(U32 - 1, 4, big) + (length + rest);
      ReadEncodedUInt(U32 - 1, 4, big, length + rest);
      ReadEncodedUInt(|unit|, 8, big, rest);
    } else {
      assert s == EncodeUInt(|unit|, 4, big) + rest;
      ReadEncodedUInt(|unit|, 4, big, rest);
    }
  }

  lemma LastTwo<T>(s: seq<T>, offset: nat, front: seq<T>, a: seq<T>, b: seq<T>)
    requires offset <= |s| && s[offset..] == front + a + b
    ensures var end := |s| - |b|; |a| <= end && s[end - |a|..end] == a && s[end..] == b
  {
    assert s == s[..offset] + front + a + b;
  }

  /** A unit is found behind its length, whatever follows it in the section. */
  lemma UnitRead(section: seq<byte>, offset: nat, unit: seq<byte>, tail: seq<byte>, is64: bool, u: UnitInfo)
    requires UnitFits(unit, is64) && offset <= |section|
    requires section[offset..] == WriteUnit(unit, is64, u.bigEndian) + tail
    ensures var end := |section| - |tail|;
      && |unit| <= end && section[end - |unit|..end] == unit && section[end..] == tail
      && UnitAt(section, offset, u) == HeaderAt(section, end - |unit|, end, is64, u)
  {
    hide ReadUInt, HeaderAt, EncodeUInt;
    LengthRead(unit, tail, is64, u.bigEndian);
    var front := if is64 then EncodeUInt(U32 - 1, 4, u.bigEndian) + EncodeUInt(|unit|, 8, u.bigEndian)
      else EncodeUInt(|unit|, 4, u.bigEndian);
    assert WriteUnit(unit, is64, u.bigEndian) == front + unit;
    LastTwo(section, offset, front, unit, tail);
  }

  /** A unit that was written is read back, wherever in the section it is. */
  lemma UnitRoundTrip(src: Source, program: seq<byte>, is64: bool, u: UnitInfo, section: seq<byte>, offset: nat,
                      tail: seq<byte>, names: seq<seq<byte>>)
    requires Fits(src, is64) && AllResolved(src.files, src.dirs, u.compDir, names)
    requires UnitFits(Write(src, program, is64, u.bigEndian), is64) && offset <= |section|
    requires section[offset..] == WriteUnit(Write(src, program, is64, u.bigEndian), is64, u.bigEndian) + tail
    ensures ReadAs(UnitAt(section, offset, u), src, u, names, program)
  {
    hide Write, WriteUnit, UnitAt, HeaderAt;
    var unit := Write(src, program, is64, u.bigEndian);
    UnitRead(section, offset, unit, tail, is64, u);
    var end := |section| - |tail|;
    HeaderRoundTrip(src, program, is64, u, section, end - |unit|, end, names);
  }
}
