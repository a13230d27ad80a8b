// read_function_entry as it is written: a recursive loop over the buffer that allocates functions,
// grows one vector per kept function, and sets the function's ranges when its children are read.
module DieReader {
  import opened Words
  import opened Readers
  import opened DwarfBuf
  import opened Attributes
  import opened Abbrevs
  import opened AddressRanges
  import opened RangeSort
  import opened DieWalk
  import LM = LineMachine

  /** struct function in memory; a pointer to a function is its index in the table. */
  datatype Record = Record(name: seq<byte>, callerFile: Option<LM.File>, callerLine: int, addrs: seq<Range<nat>>)

  /** Pointers lead to functions that were allocated later, so they cannot lead back. */
  ghost predicate WellFounded(funcs: seq<Record>) {
    forall i, k :: 0 <= i < |funcs| && 0 <= k < |funcs[i].addrs| ==> i < funcs[i].addrs[k].owner < |funcs|
  }

  predicate InTable(ranges: seq<Range<nat>>, low: nat, high: nat) {
    forall k :: 0 <= k < |ranges| ==> low <= ranges[k].owner < high
  }

  /** The function that a pointer stands for, with everything it leads to. */
  function Tree(funcs: seq<Record>, id: nat): (f: Func)
    requires WellFounded(funcs) && id < |funcs|
    ensures f.name == funcs[id].name
    decreases |funcs| - id, 0
  {
    var r := funcs[id];
    Func(r.name, r.callerFile, r.callerLine, Trees(funcs, r.addrs, id + 1))
  }

  function Trees(funcs: seq<Record>, ranges: seq<Range<nat>>, low: nat): (r: seq<Range<Func>>)
    requires WellFounded(funcs) && low <= |funcs| && InTable(ranges, low, |funcs|)
    ensures |r| == |ranges|
    ensures forall k :: 0 <= k < |r| ==>
      r[k].low == ranges[k].low && r[k].high == ranges[k].high && r[k].owner == Tree(funcs, ranges[k].owner)
    decreases |funcs| - low, 1, |ranges|
  {
    if ranges == [] then []
    else
      [Range(ranges[0].low, ranges[0].high, Tree(funcs, ranges[0].owner))] + Trees(funcs, ranges[1..], low)
  }

  lemma TreesAppend(funcs: seq<Record>, a: seq<Range<nat>>, b: seq<Range<nat>>, low: nat)
    requires WellFounded(funcs) && low <= |funcs| && InTable(a, low, |funcs|) && InTable(b, low, |funcs|)
    ensures Trees(funcs, a + b, low) == Trees(funcs, a, low) + Trees(funcs, b, low)
  {
    hide Tree;
  }

  /** A tree depends on the records from its own on, as far as they went when it was complete. */
  lemma {:induction false} TreeFrame(funcs: seq<Record>, later: seq<Record>, id: nat)
    requires WellFounded(funcs) && WellFounded(later) && id < |funcs| <= |later|
    requires forall i :: id <= i < |funcs| ==> later[i] == funcs[i]
    ensures Tree(later, id) == Tree(funcs, id)
    decreases |funcs| - id
  {
    var addrs := funcs[id].addrs;
    forall k | 0 <= k < |addrs|
      ensures Tree(later, addrs[k].owner) == Tree(funcs, addrs[k].owner)
    {
      TreeFrame(funcs, later, addrs[k].owner);
    }
    assert Trees(later, addrs, id + 1) == Trees(funcs, addrs, id + 1);
  }

  lemma TreesFrame(funcs: seq<Record>, later: seq<Record>, ranges: seq<Range<nat>>, low: nat)
    requires WellFounded(funcs) && WellFounded(later) && low <= |funcs| <= |later| && InTable(ranges, low, |funcs|)
    requires forall i :: low <= i < |funcs| ==> later[i] == funcs[i]
    ensures Trees(later, ranges, low) == Trees(funcs, ranges, low)
  {
    hide Tree;
    forall k | 0 <= k < |ranges|
      ensures Tree(later, ranges[k].owner) == Tree(funcs, ranges[k].owner)
    {
      TreeFrame(funcs, later, ranges[k].owner);
    }
  }

  // ---------------------------------------------------------------------------
  // The parts of the loop body
  // ---------------------------------------------------------------------------

  class FunctionTable {
    var funcs: seq<Record>

    constructor ()
      ensures funcs == []
    {
      funcs := [];
    }

    /** backtrace_alloc and memset for a new function. */
    method Allocate()
      modifies this
      ensures funcs == old(funcs) + [Record([], None, 0, [])]
    {
      funcs := funcs + [Record([], None, 0, [])];
    }

    /** backtrace_free of the function allocated last. */
    method FreeLast()
      requires funcs != []
      modifies this
      ensures funcs == old(funcs[..|funcs| - 1])
    {
      funcs := funcs[..|funcs| - 1];
    }
  }

  method ReadFactsFrom(c: Ctx, tag: nat, attrs: seq<Attr>, buf: Buf, base: word) returns (facts: Option<Facts>)
    requires buf.Valid() && buf.bigEndian == c.unit.bigEndian
    modifies buf
    ensures buf.Valid()
    ensures var r := ReadFacts(c, tag, attrs, old(buf.Rest()), NoFacts(base));
      facts == r.value && buf.Rest() == r.rest
  {
    hide ReadAttribute, Absorb;
    var f := NoFacts(base);
    var i := 0;
    while i < |attrs|
      invariant buf.Valid() && 0 <= i <= |attrs|
      invariant var all := ReadFacts(c, tag, attrs, old(buf.Rest()), NoFacts(base));
        var here := ReadFacts(c, tag, attrs[i..], buf.Rest(), f);
        all.value == here.value && all.rest == here.rest
    {
      assert attrs[i..][1..] == attrs[i + 1..];
      var val := ReadAttributeFrom(c.unit, attrs[i].form, buf);
      if val == None {
        return None;
      }
      var g := Absorb(c, tag, attrs[i], val.value, f);
      if g == None {
        return None;
      }
      f := g.value;
      i := i + 1;
    }
    facts := Some(f);
  }

  /** The additions that a range list stands for. */
  ghost function Additions(ranges: seq<Range<()>>, base: word, owner: nat): seq<Range<nat>> {
    Tag(RebaseAll(ranges, base), owner)
  }

  method AddFunctionRanges(c: Ctx, offset: nat, rangeBase: word, owner: nat, vec: RangeVector<nat>) returns (ok: bool)
    modifies vec
    ensures ok == (offset < |c.rangesSection| && !ParseRanges(c.unit, c.rangesSection[offset..], rangeBase).short)
    ensures var list := if offset < |c.rangesSection| then ParseRanges(c.unit, c.rangesSection[offset..], rangeBase).value else [];
      vec.ranges == AddRanges(old(vec.ranges), Additions(list, c.baseAddress, owner))
  {
    hide Readers.ReadAddress, AddRange, AddRanges, Wrap64, IsHighestAddress;
    AddRangesNone(vec.ranges);
    assert Additions([], c.baseAddress, owner) == [];
    if offset >= |c.rangesSection| {
      return false;
    }
    var buf := new Buf(c.rangesSection, offset, |c.rangesSection| - offset, c.unit.bigEndian);
    assert buf.Rest() == c.rangesSection[offset..];
    ghost var all := ParseRanges(c.unit, buf.Rest(), rangeBase);
    var base := rangeBase;
    while true
      invariant buf.Valid() && fresh(buf) && buf.bigEndian == c.unit.bigEndian
      invariant buf.reported_underflow ==>
        all.short && vec.ranges == AddRanges(old(vec.ranges), Additions(all.value, c.baseAddress, owner))
      invariant !buf.reported_underflow ==>
        var here := ParseRanges(c.unit, buf.Rest(), base);
        && all.short == here.short
        && AddRanges(old(vec.ranges), Additions(all.value, c.baseAddress, owner))
        == AddRanges(vec.ranges, Additions(here.value, c.baseAddress, owner))
      decreases buf.left, !buf.reported_underflow
    {
      if buf.reported_underflow {
        return false;
      }
      ghost var here := ParseRanges(c.unit, buf.Rest(), base);
      AddressProgress(buf.Rest(), c.unit.addrsize, buf.bigEndian);
      AdditionsStep(vec.ranges, here.value, c.baseAddress, owner);
      AddRangesNone(vec.ranges);
      var low := buf.ReadAddress(c.unit.addrsize);
      var high := buf.ReadAddress(c.unit.addrsize);
      if low == 0 && high == 0 {
        break;
      }
      if IsHighestAddress(low, c.unit.addrsize) {
        HighestIsKnown(low, c.unit.addrsize);
        base := Wrap64(high);
      } else {
        vec.Add(Wrap64(low + base), Wrap64(high + base), owner, c.baseAddress);
        AddRangesNone(vec.ranges);
      }
    }
    ok := !buf.reported_underflow;
  }

  lemma AddRangesNone<T>(v: seq<Range<T>>)
    ensures AddRanges(v, []) == v
  {
  }

  lemma HighestIsKnown(address: nat, addrsize: nat)
    ensures IsHighestAddress(address, addrsize) ==> KnownAddressSize(addrsize)
  {
  }

  /** Reading an address either takes a byte or yields 0. */
  lemma AddressProgress(s: seq<byte>, addrsize: nat, big: bool)
    ensures var r := ReadAddress(s, addrsize, big); |r.rest| < |s| || (r.value == 0 && r.rest == s)
    ensures var r := ReadAddress(s, addrsize, big); r.short ==> ReadAddress(r.rest, addrsize, big) == r
    ensures !KnownAddressSize(addrsize) ==> ReadAddress(s, addrsize, big).value == 0
  {
    hide UInt;
  }

  lemma AdditionsStep(v: seq<Range<nat>>, list: seq<Range<()>>, base: word, owner: nat)
    ensures list != [] ==>
      AddRanges(v, Additions(list, base, owner))
      == AddRanges(AddRange(v, Rebase(Range(list[0].low, list[0].high, owner), base)), Additions(list[1..], base, owner))
  {
    hide AddRange, Wrap64;
    if list != [] {
      var first := Rebase(Range(list[0].low, list[0].high, owner), base);
      assert Additions(list, base, owner) == [first] + Additions(list[1..], base, owner);
      AddRangesAppend(v, [first], Additions(list[1..], base, owner));
      AddRangesOne(v, first);
    }
  }

  lemma AddRangesOne<T>(v: seq<Range<T>>, r: Range<T>)
    ensures AddRanges(v, [r]) == AddRange(v, r)
  {
    hide AddRange;
    assert [r][..0] == [];
    AddRangesNone(v);
  }

  // ---------------------------------------------------------------------------
  // The ranges of a new function do not disturb what is in the vector
  // ---------------------------------------------------------------------------

  lemma AddRangeFresh(v: seq<Range<nat>>, w: seq<Range<()>>, r: Range<()>, owner: nat)
    requires forall k :: 0 <= k < |v| ==> v[k].owner != owner
    ensures AddRange(v + Tag(w, owner), Range(r.low, r.high, owner)) == v + Tag(AddRange(w, r), owner)
  {
    hide Wrap64;
    var t, x, u := v + Tag(w, owner), Range(r.low, r.high, owner), AddRange(w, r);
    if w == [] {
      assert t == v;
      assert u == [] + [r];
      assert Tag(u, owner) == [x];
      assert v != [] ==> !Adjoins(v[|v| - 1], x);
      assert AddRange(t, x) == v + [x];
    } else {
      var last := w[|w| - 1];
      assert t[|t| - 1] == Range(last.low, last.high, owner);
      assert r.owner == () && last.owner == ();
      if !Adjoins(last, r) {
        assert Tag(u, owner) == Tag(w, owner) + [x];
        assert AddRange(t, x) == t + [x];
      } else if r.high > last.high {
        var y := Range(last.low, r.high, owner);
        assert Tag(u, owner) == Tag(w, owner)[|w| - 1 := y];
        assert AddRange(t, x) == t[|t| - 1 := y];
      }
    }
  }

  lemma {:induction false} AddRangesFresh(v: seq<Range<nat>>, list: seq<Range<()>>, owner: nat)
    requires forall k :: 0 <= k < |v| ==> v[k].owner != owner
    ensures AddRanges(v, Tag(list, owner)) == v + Tag(AddRanges([], list), owner)
  {
    hide AddRange;
    if list == [] {
      assert v + Tag(list, owner) == v;
    } else {
      var n := |list| - 1;
      AddRangesFresh(v, list[..n], owner);
      assert Tag(list, owner)[..n] == Tag(list[..n], owner);
      AddRangeFresh(v, AddRanges([], list[..n]), list[n], owner);
    }
  }

  // ---------------------------------------------------------------------------
  // The walk
  // ---------------------------------------------------------------------------

  ghost predicate Sound(funcs: seq<Record>, ranges: seq<Range<nat>>) {
    WellFounded(funcs) && InTable(ranges, 0, |funcs|)
  }

  /** The new ranges lie behind the old ones, and lead to new functions only. */
  ghost predicate Extended(funcs0: seq<Record>, ranges0: seq<Range<nat>>, funcs: seq<Record>, ranges: seq<Range<nat>>) {
    && Sound(funcs, ranges) && funcs0 <= funcs && ranges0 <= ranges
    && InTable(ranges[|ranges0|..], |funcs0|, |funcs|)
  }

  /** What has been put behind the ranges that were in the vector, as trees. */
  ghost function Added(funcs: seq<Record>, ranges: seq<Range<nat>>, had: nat): seq<Range<Func>>
    requires Sound(funcs, ranges) && had <= |ranges|
  {
    Trees(funcs, ranges[had..], 0)
  }

  lemma AddedNothing(funcs: seq<Record>, ranges: seq<Range<nat>>)
    requires Sound(funcs, ranges)
    ensures Extended(funcs, ranges, funcs, ranges) && Added(funcs, ranges, |ranges|) == []
  {
  }

  lemma ExtendedTwice(funcs0: seq<Record>, ranges0: seq<Range<nat>>, funcs1: seq<Record>, ranges1: seq<Range<nat>>,
                      funcs2: seq<Record>, ranges2: seq<Range<nat>>)
    requires Extended(funcs0, ranges0, funcs1, ranges1) && Extended(funcs1, ranges1, funcs2, ranges2)
    ensures Extended(funcs0, ranges0, funcs2, ranges2)
    ensures Sound(funcs2, ranges2) && |ranges0| <= |ranges1| <= |ranges2|
    ensures Added(funcs2, ranges2, |ranges0|) == Added(funcs1, ranges1, |ranges0|) + Added(funcs2, ranges2, |ranges1|)
  {
    hide Tree, Trees;
    var a, b := ranges1[|ranges0|..], ranges2[|ranges1|..];
    assert ranges2[|ranges0|..] == a + b;
    TreesFrame(funcs1, funcs2, a, 0);
    TreesAppend(funcs2, a, b, 0);
  }

  function RecordNames(funcs: seq<Record>, ranges: seq<Range<nat>>): (names: seq<seq<byte>>)
    requires InTable(ranges, 0, |funcs|)
    ensures |names| == |ranges| && forall k :: 0 <= k < |names| ==> names[k] == funcs[ranges[k].owner].name
  {
    seq(|ranges|, k requires 0 <= k < |ranges| => funcs[ranges[k].owner].name)
  }

  /** Sorting the pointers sorts the trees. */
  lemma SortTrees(funcs: seq<Record>, ranges: seq<Range<nat>>, low: nat)
    requires WellFounded(funcs) && low <= |funcs| && InTable(ranges, low, |funcs|)
    ensures var sorted := SortRanges(ranges, RecordNames(funcs, ranges));
      InTable(sorted, low, |funcs|) && Trees(funcs, sorted, low) == SortEntries(Trees(funcs, ranges, low))
  {
    hide Tree, Trees, SortOrder;
    var trees := Trees(funcs, ranges, low);
    assert RecordNames(funcs, ranges) == FuncNames(trees);
    assert Keys(ranges, RecordNames(funcs, ranges)) == Keys(trees, FuncNames(trees));
  }

  /** Storing the sorted ranges of its children completes function id. */
  lemma CompleteFunction(funcs: seq<Record>, id: nat, kids: seq<Range<nat>>, later: seq<Record>)
    requires WellFounded(funcs) && id < |funcs| && InTable(kids, id + 1, |funcs|)
    requires later == funcs[id := funcs[id].(addrs := SortRanges(kids, RecordNames(funcs, kids)))]
    ensures WellFounded(later)
    ensures var r := funcs[id];
      Tree(later, id) == Func(r.name, r.callerFile, r.callerLine, SortEntries(Trees(funcs, kids, 0)))
  {
    hide SortRanges, SortEntries, RecordNames, Tree, Trees;
    SortTrees(funcs, kids, id + 1);
    var sorted := SortRanges(kids, RecordNames(funcs, kids));
    TreesFrame(funcs, later, sorted, id + 1);
    TreeOf(later, id);
    assert Trees(funcs, kids, 0) == Trees(funcs, kids, id + 1);
  }

  lemma TreeOf(funcs: seq<Record>, id: nat)
    requires WellFounded(funcs) && id < |funcs|
    ensures var r := funcs[id];
      Tree(funcs, id) == Func(r.name, r.callerFile, r.callerLine, Trees(funcs, r.addrs, id + 1))
  {
  }

  lemma TagTrees(funcs: seq<Record>, ranges: seq<Range<()>>, id: nat)
    requires WellFounded(funcs) && id < |funcs|
    ensures Trees(funcs, Tag(ranges, id), 0) == Tag(ranges, Tree(funcs, id))
  {
    hide Tree, Trees;
  }

  /** The whole effect of a kept function: its merged ranges, leading to its completed tree. */
  lemma {:induction false} KeptFunction(c: Ctx, own: Own, f: Facts, funcs0: seq<Record>, ranges0: seq<Range<nat>>,
                     funcs2: seq<Record>, kids: seq<Range<nat>>, walk: Walk, funcs: seq<Record>, ranges: seq<Range<nat>>)
    requires own.Kept? && f.name.Some? && Sound(funcs0, ranges0)
    requires Extended(funcs0 + [Record(f.name.value, f.callerFile, f.callerLine, [])], [], funcs2, kids)
    requires var id := |funcs0|;
      funcs == funcs2[id := funcs2[id].(addrs := SortRanges(kids, RecordNames(funcs2, kids)))]
    requires ranges == AddRanges(ranges0, Additions(own.ranges, c.baseAddress, |funcs0|))
    requires walk.ok && walk.entries == Added(funcs2, kids, 0)
    ensures Extended(funcs0, ranges0, funcs, ranges)
    ensures Added(funcs, ranges, |ranges0|) == Entries(c, own, f, walk)
  {
    hide AddRanges, SortRanges, SortEntries, RecordNames, Tree, Trees;
    var id := |funcs0|;
    assert kids[0..] == kids;
    CompleteFunction(funcs2, id, kids, funcs);
    var m := Merged(own.ranges, c.baseAddress);
    AddRangesFresh(ranges0, RebaseAll(own.ranges, c.baseAddress), id);
    assert ranges == ranges0 + Tag(m, id);
    assert ranges[|ranges0|..] == Tag(m, id);
    assert funcs0 <= funcs;
    TagTrees(funcs, m, id);
  }

  /** A function that an error left without children: its merged ranges are in the vector all the same. */
  lemma {:induction false} BareFunction(c: Ctx, own: Own, f: Facts, funcs0: seq<Record>, ranges0: seq<Range<nat>>,
                                        funcs: seq<Record>, ranges: seq<Range<nat>>, kids: Walk)
    requires !own.NotKept? && f.name.Some? && Sound(funcs0, ranges0) && !kids.ok
    requires WellFounded(funcs) && funcs0 + [Record(f.name.value, f.callerFile, f.callerLine, [])] <= funcs
    requires ranges == AddRanges(ranges0, Additions(own.ranges, c.baseAddress, |funcs0|))
    ensures Extended(funcs0, ranges0, funcs, ranges) && Sound(funcs, ranges) && |ranges0| <= |ranges|
    ensures Added(funcs, ranges, |ranges0|) == Entries(c, own, f, kids)
  {
    hide AddRanges, SortRanges, SortEntries, Tree, Trees;
    var id := |funcs0|;
    var m := Merged(own.ranges, c.baseAddress);
    AddRangesFresh(ranges0, RebaseAll(own.ranges, c.baseAddress), id);
    assert ranges == ranges0 + Tag(m, id);
    assert ranges[|ranges0|..] == Tag(m, id);
    assert funcs[id] == (funcs0 + [Record(f.name.value, f.callerFile, f.callerLine, [])])[id];
    TreeOf(funcs, id);
    NoTrees(funcs, id + 1);
    TagTrees(funcs, m, id);
  }

  lemma NoTrees(funcs: seq<Record>, low: nat)
    requires WellFounded(funcs) && low <= |funcs|
    ensures Trees(funcs, [], low) == []
  {
  }

  /** A function that was allocated, and that nothing leads to. */
  lemma AllocatedOnly(funcs: seq<Record>, ranges: seq<Range<nat>>)
    requires Sound(funcs, ranges)
    ensures Sound(funcs + [Record([], None, 0, [])], ranges)
    ensures Extended(funcs, ranges, funcs + [Record([], None, 0, [])], ranges)
    ensures Added(funcs + [Record([], None, 0, [])], ranges, |ranges|) == []
    ensures Extended(funcs, ranges, funcs, ranges) && Added(funcs, ranges, |ranges|) == []
  {
    hide Tree;
  }

  lemma NotKeptFunction(c: Ctx, own: Own, f: Facts)
    requires own.NotKept?
    ensures forall kids :: Entries(c, own, f, kids) == kids.entries
  {
  }

  lemma SingleAddition(v: seq<Range<nat>>, low: word, high: word, base: word, owner: nat)
    ensures AddRanges(v, Additions([Range(low, high, ())], base, owner)) == AddRange(v, Rebase(Range(low, high, owner), base))
  {
    hide AddRange, Wrap64;
    assert Additions([Range(low, high, ())], base, owner) == [Rebase(Range(low, high, owner), base)];
    AddRangesOne(v, Rebase(Range(low, high, owner), base));
  }

  lemma AppendAssociates<T>(a: seq<T>, b: seq<T>, c: seq<T>)
    ensures a + (b + c) == a + b + c
  {
  }

  method ReadFunctionEntry(c: Ctx, base: word, buf: Buf, table: FunctionTable, vec: RangeVector<nat>) returns (ok: bool)
    requires buf.Valid() && buf.bigEndian == c.unit.bigEndian && Sound(table.funcs, vec.ranges)
    modifies buf, table, vec
    ensures buf.Valid() && buf.left <= old(buf.left)
    ensures var w := WalkLevel(c, old(buf.Rest()), base);
      && ok == w.ok && (ok ==> buf.Rest() == w.rest)
      && Extended(old(table.funcs), old(vec.ranges), table.funcs, vec.ranges)
      && Sound(table.funcs, vec.ranges) && |old(vec.ranges)| <= |vec.ranges|
      && Added(table.funcs, vec.ranges, |old(vec.ranges)|) == w.entries
    decreases buf.left, 0
  {
    hide WalkEntry, ReadULeb, LookupAbbrev, Trees, Tree, Added, WellFounded, InTable, Extended, Sound;
    ghost var all, funcs0, ranges0 := WalkLevel(c, buf.Rest(), base), table.funcs, vec.ranges;
    var levelBase := base;
    AddedNothing(funcs0, ranges0);
    while buf.left > 0
      invariant buf.Valid() && Extended(funcs0, ranges0, table.funcs, vec.ranges)
      invariant buf.left <= old(buf.left) && |ranges0| <= |vec.ranges| && Sound(table.funcs, vec.ranges)
      invariant var here := WalkLevel(c, buf.Rest(), levelBase);
        && all.ok == here.ok && all.rest == here.rest
        && all.entries == Added(table.funcs, vec.ranges, |ranges0|) + here.entries
      decreases buf.left
    {
      ghost var funcs1, ranges1 := table.funcs, vec.ranges;
      var code := buf.ReadULeb128();
      if code == 0 {
        return true;
      }
      var k := LookupAbbrevIn(c.abbrevs, code);
      if k == None {
        return false;
      }
      ok, levelBase := ReadEntry(c, c.abbrevs[k.value], levelBase, buf, table, vec);
      ExtendedTwice(funcs0, ranges0, funcs1, ranges1, table.funcs, vec.ranges);
      if !ok {
        return;
      }
      AppendAssociates(Added(funcs1, ranges1, |ranges0|), Added(table.funcs, vec.ranges, |ranges1|),
              WalkLevel(c, buf.Rest(), levelBase).entries);
    }
    ok := true;
  }

  /** The ranges of a named function; not kept when the entry gives none. */
  method AddOwnRanges(c: Ctx, tag: nat, f: Facts, id: nat, vec: RangeVector<nat>) returns (ok: bool, kept: bool)
    requires IsFunctionTag(tag) && f.name.Some?
    modifies vec
    ensures var own := OwnRanges(c, tag, f);
      && ok == !own.Bad? && (ok ==> kept == own.Kept?)
      && (own.NotKept? ==> vec.ranges == old(vec.ranges))
      && (!own.NotKept? ==> vec.ranges == AddRanges(old(vec.ranges), Additions(own.ranges, c.baseAddress, id)))
  {
    hide AddRanges, ParseRanges, Wrap64;
    if f.ranges.Some? {
      ok := AddFunctionRanges(c, f.ranges.value, f.base, id, vec);
      return ok, true;
    }
    if f.lowpc.Some? && f.highpc.Some? {
      var high := f.highpc.value;
      if f.highIsRelative {
        high := Wrap64(high + f.lowpc.value);
      }
      SingleAddition(vec.ranges, f.lowpc.value, high, c.baseAddress, id);
      vec.Add(f.lowpc.value, high, id, c.baseAddress);
      return true, true;
    }
    return true, false;
  }

  method ReadEntry(c: Ctx, a: Abbrev, base: word, buf: Buf, table: FunctionTable, vec: RangeVector<nat>)
    returns (ok: bool, nextBase: word)
    requires buf.Valid() && buf.bigEndian == c.unit.bigEndian && Sound(table.funcs, vec.ranges)
    modifies buf, table, vec
    ensures buf.Valid() && buf.left <= old(buf.left)
    ensures var e := WalkEntry(c, a, old(buf.Rest()), base);
      && ok == e.ok && (ok ==> buf.Rest() == e.rest && nextBase == e.base)
      && Extended(old(table.funcs), old(vec.ranges), table.funcs, vec.ranges)
      && Sound(table.funcs, vec.ranges) && |old(vec.ranges)| <= |vec.ranges|
      && Added(table.funcs, vec.ranges, |old(vec.ranges)|) == e.entries
    decreases buf.left, 2
  {
    hide ReadFacts, AddRanges, SortRanges, Tree, Trees, WalkLevel, OwnRanges, Added, Entries, Additions, Tag, RebaseAll;
    ghost var funcs0, ranges0 := table.funcs, vec.ranges;
    NotAFunction(c, a.tag);
    var id := |table.funcs|;
    var isFunction := IsFunctionTag(a.tag);
    if isFunction {
      table.Allocate();
    }
    var facts := ReadFactsFrom(c, a.tag, a.attrs, buf, base);
    if facts == None {
      AllocatedOnly(funcs0, ranges0);
      return false, base;
    }
    var f := facts.value;
    nextBase := f.base;
    ghost var own := OwnRanges(c, a.tag, f);
    if isFunction && f.name.Some? {
      table.funcs := table.funcs[id := Record(f.name.value, f.callerFile, f.callerLine, [])];
      ok, isFunction := AddOwnRanges(c, a.tag, f, id, vec);
      if !ok {
        BareFunction(c, own, f, funcs0, ranges0, table.funcs, vec.ranges, Walk(false, [], buf.Rest()));
        return;
      }
      if !isFunction {
        table.FreeLast();
      }
    } else if isFunction {
      table.FreeLast();
      isFunction := false;
    }
    if isFunction {
      ok := ReadChildren(c, a, own, f, id, buf, table, vec, funcs0, ranges0);
    } else {
      assert table.funcs == funcs0;
      ok := true;
      NotKeptFunction(c, own, f);
      AddedNothing(table.funcs, vec.ranges);
      if a.hasChildren {
        ok := ReadFunctionEntry(c, f.base, buf, table, vec);
      }
    }
  }

  lemma NotAFunction(c: Ctx, tag: nat)
    ensures forall f: Facts :: !IsFunctionTag(tag) || f.name == None ==> OwnRanges(c, tag, f) == NotKept
  {
  }

  /** The children of a kept function go into a vector of their own, which then becomes the function's. */
  method ReadChildren(c: Ctx, a: Abbrev, ghost own: Own, f: Facts, id: nat, buf: Buf, table: FunctionTable, vec: RangeVector<nat>,
                      ghost funcs0: seq<Record>, ghost ranges0: seq<Range<nat>>)
    returns (ok: bool)
    requires buf.Valid() && buf.bigEndian == c.unit.bigEndian
    requires own.Kept? && f.name.Some? && Sound(funcs0, ranges0) && id == |funcs0|
    requires table.funcs == funcs0 + [Record(f.name.value, f.callerFile, f.callerLine, [])]
    requires vec.ranges == AddRanges(ranges0, Additions(own.ranges, c.baseAddress, |funcs0|))
    modifies buf, table
    ensures buf.Valid() && buf.left <= old(buf.left)
    ensures var kids := if a.hasChildren then WalkLevel(c, old(buf.Rest()), f.base) else Walk(true, [], old(buf.Rest()));
      && ok == kids.ok && (ok ==> buf.Rest() == kids.rest)
      && Extended(funcs0, ranges0, table.funcs, vec.ranges)
      && Added(table.funcs, vec.ranges, |ranges0|) == Entries(c, own, f, kids)
    decreases buf.left, 1
  {
    hide AddRanges, SortRanges, Tree, Trees, WalkLevel, Added, Entries, Additions;
    var fvec := new RangeVector();
    AddedNothing(table.funcs, fvec.ranges);
    ghost var kids := if a.hasChildren then WalkLevel(c, buf.Rest(), f.base) else Walk(true, [], buf.Rest());
    ok := true;
    if a.hasChildren {
      ok := ReadFunctionEntry(c, f.base, buf, table, fvec);
      if !ok {
        BareFunction(c, own, f, funcs0, ranges0, table.funcs, vec.ranges, kids);
        return;
      }
    }
    ghost var funcs2 := table.funcs;
    table.funcs := table.funcs[id := table.funcs[id].(addrs := SortRanges(fvec.ranges, RecordNames(table.funcs, fvec.ranges)))];
    KeptFunction(c, own, f, funcs0, ranges0, funcs2, fvec.ranges, kids, table.funcs, vec.ranges);
  }

  /**
   * read_function_info. What is in the vector, from units that could not be read to their end, becomes part of this
   * unit's functions, and when this one cannot be read either, what it added stays there for the next.
   */
  method ReadFunctionInfo(c: Ctx, unitData: seq<byte>, table: FunctionTable, vec: RangeVector<nat>)
    returns (addrs: seq<Range<nat>>)
    requires Sound(table.funcs, vec.ranges)
    modifies table, vec
    ensures old(table.funcs) <= table.funcs && Sound(table.funcs, vec.ranges) && Sound(table.funcs, addrs)
    ensures var w, had := WalkUnit(c, unitData), old(Trees(table.funcs, vec.ranges, 0));
      && Trees(table.funcs, addrs, 0) == (if w.ok then SortEntries(had + w.entries) else [])
      && Trees(table.funcs, vec.ranges, 0) == if w.ok then [] else had + w.entries
  {
    hide WalkLevel, Tree, Trees, WellFounded, InTable, Extended, Added, SortRanges, SortEntries;
    ghost var funcs0, ranges0 := table.funcs, vec.ranges;
    var buf := new Buf(unitData, 0, |unitData|, c.unit.bigEndian);
    assert buf.Rest() == unitData;
    ghost var all := WalkUnit(c, unitData);
    AddedNothing(funcs0, ranges0);
    while buf.left > 0
      invariant buf.Valid() && fresh(buf) && buf.bigEndian == c.unit.bigEndian
      invariant Extended(funcs0, ranges0, table.funcs, vec.ranges) && Sound(table.funcs, vec.ranges)
      invariant |ranges0| <= |vec.ranges|
      invariant var here := WalkUnit(c, buf.Rest());
        && all.ok == here.ok
        && all.entries == Added(table.funcs, vec.ranges, |ranges0|) + here.entries
      decreases buf.left
    {
      ghost var funcs1, ranges1 := table.funcs, vec.ranges;
      var ok := ReadFunctionEntry(c, 0, buf, table, vec);
      ExtendedTwice(funcs0, ranges0, funcs1, ranges1, table.funcs, vec.ranges);
      if !ok {
        WholeVector(funcs0, ranges0, table.funcs, vec.ranges);
        NoRanges(table.funcs);
        return [];
      }
      AppendAssociates(Added(funcs1, ranges1, |ranges0|), Added(table.funcs, vec.ranges, |ranges1|),
              WalkUnit(c, buf.Rest()).entries);
    }
    assert buf.Rest() == [] && WalkUnit(c, buf.Rest()).entries == [];
    assert all.entries == Added(table.funcs, vec.ranges, |ranges0|);
    WholeVector(funcs0, ranges0, table.funcs, vec.ranges);
    SortTrees(table.funcs, vec.ranges, 0);
    addrs := SortRanges(vec.ranges, RecordNames(table.funcs, vec.ranges));
    SoundWhole(table.funcs, addrs);
    vec.ranges := [];
    NoRanges(table.funcs);
  }

  lemma NoRanges(funcs: seq<Record>)
    ensures WellFounded(funcs) ==> Sound(funcs, []) && Trees(funcs, [], 0) == []
    ensures forall ranges :: Sound(funcs, ranges) ==> WellFounded(funcs)
  {
  }

  /** A vector that holds nothing leads to nothing, in this table or a later one. */
  lemma OwnVector(funcs: seq<Record>, ranges: seq<Range<nat>>)
    requires Sound(funcs, ranges)
    ensures Sound(funcs, []) && Trees(funcs, [], 0) == []
    ensures |Trees(funcs, ranges, 0)| == |ranges|
  {
  }

  lemma SoundWhole(funcs: seq<Record>, ranges: seq<Range<nat>>)
    ensures Sound(funcs, ranges) <==> WellFounded(funcs) && InTable(ranges, 0, |funcs|)
  {
  }

  lemma WholeVector(funcs0: seq<Record>, ranges0: seq<Range<nat>>, funcs: seq<Record>, ranges: seq<Range<nat>>)
    requires Sound(funcs0, ranges0) && Extended(funcs0, ranges0, funcs, ranges)
    ensures funcs0 <= funcs && Sound(funcs, ranges) && |ranges0| <= |ranges|
    ensures InTable(ranges, 0, |funcs|) && WellFounded(funcs)
    ensures Trees(funcs, ranges, 0) == Trees(funcs0, ranges0, 0) + Added(funcs, ranges, |ranges0|)
  {
    hide Tree, Trees;
    assert ranges == ranges0 + ranges[|ranges0|..];
    TreesFrame(funcs0, funcs, ranges0, 0);
    TreesAppend(funcs, ranges0, ranges[|ranges0|..], 0);
  }
}
