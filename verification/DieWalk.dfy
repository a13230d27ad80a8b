// The walk over the flattened tree of debugging information entries (sections 2.3 and 7.5 of
// DWARF 4) that read_function_entry makes, as a function of the unread bytes.
module DieWalk {
  import opened Words
  import opened Readers
  import opened Attributes
  import opened Abbrevs
  import opened AddressRanges
  import opened RangeSort
  import LM = LineMachine

  const DW_TAG_ENTRY_POINT: nat := 0x03
  const DW_TAG_COMPILE_UNIT: nat := 0x11
  const DW_TAG_INLINED_SUBROUTINE: nat := 0x1d
  const DW_TAG_SUBPROGRAM: nat := 0x2e

  const DW_AT_NAME: nat := 0x03
  const DW_AT_LOW_PC: nat := 0x11
  const DW_AT_HIGH_PC: nat := 0x12
  const DW_AT_ABSTRACT_ORIGIN: nat := 0x31
  const DW_AT_SPECIFICATION: nat := 0x47
  const DW_AT_RANGES: nat := 0x55
  const DW_AT_CALL_FILE: nat := 0x58
  const DW_AT_CALL_LINE: nat := 0x59
  const DW_AT_LINKAGE_NAME: nat := 0x6e
  const DW_AT_MIPS_LINKAGE_NAME: nat := 0x2007

  /**
   * The unit, its line header and the sections. names holds the names that references lead to:
   * what read_referenced_name answers, for the references it answers at all.
   */
  datatype Ctx = Ctx(
    unit: Unit,
    abbrevs: seq<Abbrev>,
    filenamesCount: nat,
    rangesSection: seq<byte>,
    baseAddress: word,
    names: map<nat, seq<byte>>)

  /** struct function; a caller file that is None is the null pointer. */
  datatype Func = Func(name: seq<byte>, callerFile: Option<LM.File>, callerLine: int, addrs: seq<Range<Func>>)

  /** The local variables that the attributes of one entry fill in. */
  datatype Facts = Facts(
    name: Option<seq<byte>>,
    callerFile: Option<LM.File>,
    callerLine: int,
    lowpc: Option<word>,
    highpc: Option<word>,
    highIsRelative: bool,
    ranges: Option<nat>,
    base: word)

  predicate IsFunctionTag(tag: nat) {
    tag == DW_TAG_SUBPROGRAM || tag == DW_TAG_ENTRY_POINT || tag == DW_TAG_INLINED_SUBROUTINE
  }

  function NoFacts(base: word): Facts {
    Facts(None, None, 0, None, None, false, None, base)
  }

  predicate IsNumber(v: AttrVal, a: ValueKind, b: ValueKind) {
    v.Number? && (v.encoding == a || v.encoding == b)
  }

  // ---------------------------------------------------------------------------
  // One entry
  // ---------------------------------------------------------------------------

  function AbsorbCallFile(c: Ctx, v: nat, f: Facts): Option<Facts> {
    if v == 0 then Some(f.(callerFile := Some(LM.NoName)))
    else if v - 1 >= c.filenamesCount then None
    else Some(f.(callerFile := Some(LM.Table(v - 1))))
  }

  function AbsorbReference(c: Ctx, form: nat, v: AttrVal, f: Facts): Facts {
    if form != DW_FORM_REF_ADDR && form != DW_FORM_REF_SIG8 && IsNumber(v, Unsigned, RefUnit) && v.value in c.names then
      f.(name := Some(c.names[v.value]))
    else f
  }

  /** The switch over the attributes of a function; None is an invalid file number. */
  function AbsorbFunction(c: Ctx, attr: Attr, v: AttrVal, f: Facts): Option<Facts> {
    match attr.name
    case DW_AT_CALL_FILE => if IsNumber(v, Unsigned, Unsigned) then AbsorbCallFile(c, v.value, f) else Some(f)
    case DW_AT_CALL_LINE => Some(if IsNumber(v, Unsigned, Unsigned) then f.(callerLine := Signed32(v.value)) else f)
    case DW_AT_ABSTRACT_ORIGIN => Some(AbsorbReference(c, attr.form, v, f))
    case DW_AT_SPECIFICATION => Some(AbsorbReference(c, attr.form, v, f))
    case DW_AT_NAME => Some(if v.Text? && f.name == None then f.(name := Some(v.text)) else f)
    case DW_AT_LINKAGE_NAME => Some(if v.Text? then f.(name := Some(v.text)) else f)
    case DW_AT_MIPS_LINKAGE_NAME => Some(if v.Text? then f.(name := Some(v.text)) else f)
    case DW_AT_LOW_PC => Some(if IsNumber(v, Address, Address) then f.(lowpc := Some(Wrap64(v.value))) else f)
    case DW_AT_HIGH_PC => Some(
      if IsNumber(v, Address, Address) then f.(highpc := Some(Wrap64(v.value)))
      else if IsNumber(v, Unsigned, Unsigned) then f.(highpc := Some(Wrap64(v.value)), highIsRelative := true)
      else f)
    case DW_AT_RANGES => Some(if IsNumber(v, Unsigned, RefSection) then f.(ranges := Some(v.value)) else f)
    case _ => Some(f)
  }

  /** A compilation unit's low pc becomes the base of the ranges in its children and later siblings. */
  function AbsorbBase(tag: nat, attr: Attr, v: AttrVal, f: Facts): Facts {
    if tag == DW_TAG_COMPILE_UNIT && attr.name == DW_AT_LOW_PC && IsNumber(v, Address, Address) then
      f.(base := Wrap64(v.value))
    else f
  }

  function Absorb(c: Ctx, tag: nat, attr: Attr, v: AttrVal, f: Facts): Option<Facts> {
    var g := AbsorbBase(tag, attr, v, f);
    if IsFunctionTag(tag) then AbsorbFunction(c, attr, v, g) else Some(g)
  }

  /** The loop over the attributes; None is the failure return. */
  function ReadFacts(c: Ctx, tag: nat, attrs: seq<Attr>, s: seq<byte>, f: Facts): (r: Read<Option<Facts>>)
    ensures |r.rest| <= |s|
    decreases |attrs|
  {
    if attrs == [] then Read(Some(f), s, false)
    else
      var v := ReadAttribute(c.unit, attrs[0].form, s);
      match v.value
      case None => Read(None, v.rest, v.short)
      case Some(val) =>
        match Absorb(c, tag, attrs[0], val, f)
        case None => Read(None, v.rest, v.short)
        case Some(g) => var q := ReadFacts(c, tag, attrs[1..], v.rest, g); q.(short := v.short || q.short)
  }

  // ---------------------------------------------------------------------------
  // The ranges of one entry
  // ---------------------------------------------------------------------------

  predicate IsHighestAddress(address: nat, addrsize: nat) {
    match addrsize
    case 1 => address == 0xff
    case 2 => address == U16 - 1
    case 4 => address == U32 - 1
    case 8 => address == U64 - 1
    case _ => false
  }

  /**
   * A list of .debug_ranges up to the pair 0, 0 (section 2.17.3 of DWARF 4). When the section ends inside a
   * pair, what there is of the pair still becomes a range.
   */
  function ParseRanges(u: Unit, s: seq<byte>, base: word): (r: Read<seq<Range<()>>>)
    decreases |s|
  {
    var low := ReadAddress(s, u.addrsize, u.bigEndian);
    var high := ReadAddress(low.rest, u.addrsize, u.bigEndian);
    var short := low.short || high.short;
    var first := [Range(Wrap64(low.value + base), Wrap64(high.value + base), ())];
    if low.value == 0 && high.value == 0 then Read([], high.rest, short)
    else if IsHighestAddress(low.value, u.addrsize) then
      if short then Read([], high.rest, true) else ParseRanges(u, high.rest, Wrap64(high.value))
    else if short then Read(first, high.rest, true)
    else var q := ParseRanges(u, high.rest, base); q.(value := first + q.value)
  }

  /** What an entry contributes: nothing itself, ranges up to an error, or a function with these ranges. */
  datatype Own = NotKept | Bad(ranges: seq<Range<()>>) | Kept(ranges: seq<Range<()>>)

  function OwnRanges(c: Ctx, tag: nat, f: Facts): Own {
    if !IsFunctionTag(tag) || f.name == None then NotKept
    else if f.ranges.Some? then
      if f.ranges.value >= |c.rangesSection| then Bad([])
      else
        var r := ParseRanges(c.unit, c.rangesSection[f.ranges.value..], f.base);
        if r.short then Bad(r.value) else Kept(r.value)
    else if f.lowpc.Some? && f.highpc.Some? then
      Kept([Range(f.lowpc.value, if f.highIsRelative then Wrap64(f.highpc.value + f.lowpc.value) else f.highpc.value, ())])
    else NotKept
  }

  function RebaseAll<T>(ranges: seq<Range<T>>, base: word): (r: seq<Range<T>>)
    ensures |r| == |ranges| && forall k :: 0 <= k < |r| ==> r[k] == Rebase(ranges[k], base)
  {
    seq(|ranges|, k requires 0 <= k < |ranges| => Rebase(ranges[k], base))
  }

  function Tag<T, U>(ranges: seq<Range<T>>, owner: U): (r: seq<Range<U>>)
    ensures |r| == |ranges|
    ensures forall k :: 0 <= k < |r| ==> r[k] == Range(ranges[k].low, ranges[k].high, owner)
  {
    seq(|ranges|, k requires 0 <= k < |ranges| => Range(ranges[k].low, ranges[k].high, owner))
  }

  /** The merged ranges of a function, with the module's base address. */
  function Merged(ranges: seq<Range<()>>, base: word): seq<Range<()>> {
    AddRanges([], RebaseAll(ranges, base))
  }

  // ---------------------------------------------------------------------------
  // The walk
  // ---------------------------------------------------------------------------

  function FuncNames(entries: seq<Range<Func>>): (names: seq<seq<byte>>)
    ensures |names| == |entries| && forall k :: 0 <= k < |names| ==> names[k] == entries[k].owner.name
  {
    seq(|entries|, k requires 0 <= k < |entries| => entries[k].owner.name)
  }

  function SortEntries(entries: seq<Range<Func>>): seq<Range<Func>> {
    SortRanges(entries, FuncNames(entries))
  }

  /** What a level, or all levels, add to the vector, which after an error is what was added up to it. */
  datatype Walk = Walk(ok: bool, entries: seq<Range<Func>>, rest: seq<byte>)

  /**
   * What an entry adds to the vector, given what its children would add to theirs; a function whose children
   * could not be read is left without any.
   */
  function Entries(c: Ctx, own: Own, f: Facts, kids: Walk): seq<Range<Func>>
    requires own.NotKept? || f.name.Some?
  {
    if own.NotKept? then kids.entries
    else
      var inlined := if own.Bad? || !kids.ok then [] else SortEntries(kids.entries);
      Tag(Merged(own.ranges, c.baseAddress), Func(f.name.value, f.callerFile, f.callerLine, inlined))
  }

  /** One entry of a level, with the base address it leaves for the next one. */
  datatype EntryWalk = EntryWalk(ok: bool, entries: seq<Range<Func>>, rest: seq<byte>, base: word)

  /** read_function_entry: one level of siblings, up to a null entry or the end of the unit. */
  function WalkLevel(c: Ctx, s: seq<byte>, base: word): (w: Walk)
    ensures |w.rest| <= |s|
    ensures s != [] ==> |w.rest| < |s|
    decreases |s|, 0
  {
    if s == [] then Walk(true, [], [])
    else
      var code := ReadULeb(s);
      if code.value == 0 then Walk(true, [], code.rest)
      else match LookupAbbrev(c.abbrevs, code.value)
        case None => Walk(false, [], code.rest)
        case Some(k) =>
          var e := WalkEntry(c, c.abbrevs[k], code.rest, base);
          if !e.ok then Walk(false, e.entries, e.rest)
          else var siblings := WalkLevel(c, e.rest, e.base); siblings.(entries := e.entries + siblings.entries)
  }

  /** The entry whose code has just been read, and its children. */
  function WalkEntry(c: Ctx, a: Abbrev, s: seq<byte>, base: word): (e: EntryWalk)
    ensures |e.rest| <= |s|
    decreases |s|, 1
  {
    var r := ReadFacts(c, a.tag, a.attrs, s, NoFacts(base));
    if r.value == None then EntryWalk(false, [], r.rest, base)
    else
      var f := r.value.value;
      var own := OwnRanges(c, a.tag, f);
      if own.Bad? then EntryWalk(false, Entries(c, own, f, Walk(false, [], r.rest)), r.rest, f.base)
      else
        var kids := if a.hasChildren then WalkLevel(c, r.rest, f.base) else Walk(true, [], r.rest);
        EntryWalk(kids.ok, Entries(c, own, f, kids), kids.rest, f.base)
  }

  /** read_function_info: the whole unit, level by level. */
  function WalkUnit(c: Ctx, s: seq<byte>): Walk
    decreases |s|
  {
    if s == [] then Walk(true, [], [])
    else
      var w := WalkLevel(c, s, 0);
      if !w.ok then w
      else var next := WalkUnit(c, w.rest); next.(entries := w.entries + next.entries)
  }
}
