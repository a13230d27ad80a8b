// dwarf_lookup_pc and dwarf_fileline: choose a unit, read it when it is first needed, report frames.
module Fileline {
  import opened Words
  import opened Readers
  import opened DwarfBuf
  import opened BinarySearch
  import opened AddressRanges
  import opened LineTable
  import opened Lookup
  import LM = LineMachine
  import H = LineHeader
  import D = DieWalk
  import R = DieReader

  type FunctionList = seq<Range<D.Func>>

  /** A unit before it is read: where its line program is in .debug_line, and its entries. */
  datatype Source = Source(
    section: seq<byte>,
    lineOffset: nat,
    info: H.UnitInfo,
    ctx: D.Ctx,
    entries: seq<byte>,
    filename: Option<seq<byte>>)
  {
    ghost function Header(): H.Outcome<H.Header> {
      H.UnitAt(section, lineOffset, info)
    }

    /** What the program, which follows the header, comes to. */
    ghost function Program(): LM.Outcome
      requires Header().Ok?
    {
      var e := Header().value.env;
      LM.Run(e, Header().value.program, LM.Initial(e, []), false)
    }

    /**
     * The run ends here: a read or a store of the header's passes is outside, the unit is longer than the section,
     * which is not followed, or the program divides by zero or needs a missing directory.
     */
    ghost predicate Crashes() {
      Header().Astray? || (Header().Ok? && Program().Crashed?)
    }

    /** The rows of the line program in the order they were emitted; none when it, or its header, was rejected. */
    ghost function Rows(): seq<LM.Row> {
      if !Header().Ok? then []
      else match Program()
        case Finished(g, underflow) => if underflow then [] else g.rows
        case Rejected => []
        case Crashed => []
    }

    /** Its functions, behind what other units left in the vector. */
    ghost function Functions(stale: FunctionList): FunctionList {
      var w := D.WalkUnit(ctx, entries);
      if w.ok then D.SortEntries(stale + w.entries) else []
    }

    /** What reading the unit stores in it. */
    ghost function Contents(stale: FunctionList): Info {
      if Rows() == [] then Info(Failed, [])
      else Info(Ready(Table(Rows(), SortOrder(Rows(), |Rows()|))), Functions(stale))
    }

    /** What reading the unit leaves in the vector. */
    ghost function Left(stale: FunctionList): FunctionList {
      var w := D.WalkUnit(ctx, entries);
      if Rows() == [] then stale else if w.ok then [] else stale + w.entries
    }

    lemma ReadIsNotUnread(stale: FunctionList)
      ensures !Contents(stale).lines.NotRead?
    {
      hide LM.Run, H.UnitAt;
    }

    /** The name that abs_filename gets. */
    function AbsName(): Where {
      if filename.None? then Nowhere
      else if filename.value == [] || filename.value[0] != LM.SLASH then
        UnitFile(if info.compDir.None? then filename.value else info.compDir.value + [LM.SLASH] + filename.value)
      else UnitFile(filename.value)
    }
  }

  /** The fields of struct unit that a lookup fills in. */
  datatype Info = Info(lines: Lines, functions: FunctionList)

  const UNREAD: Info := Info(NotRead, [])

  /** What units read in this order leave in the vector; with threads each has a vector of its own. */
  ghost function Stale(units: seq<Source>, order: seq<nat>, threaded: bool): FunctionList
    requires forall i :: 0 <= i < |order| ==> order[i] < |units|
  {
    if threaded || order == [] then []
    else var n := |order| - 1; units[order[n]].Left(Stale(units, order[..n], threaded))
  }

  ghost predicate ReadingOrder(units: seq<Source>, order: seq<nat>) {
    && (forall i :: 0 <= i < |order| ==> order[i] < |units| && !units[order[i]].Crashes())
    && forall i, j :: 0 <= i < j < |order| ==> order[i] != order[j]
  }

  /** Units that were read hold what reading them gives after those in front; the others are unread. */
  ghost predicate Consistent(units: seq<Source>, infos: seq<Info>, order: seq<nat>, threaded: bool) {
    && |infos| == |units| && ReadingOrder(units, order)
    && (forall u :: 0 <= u < |units| && u !in order ==> infos[u] == UNREAD)
    && forall i :: 0 <= i < |order| ==> infos[order[i]] == units[order[i]].Contents(Stale(units, order[..i], threaded))
  }

  /** One unit more is read. */
  lemma ReadNext(units: seq<Source>, infos: seq<Info>, order: seq<nat>, threaded: bool, u: nat)
    requires Consistent(units, infos, order, threaded) && u < |units| && infos[u].lines.NotRead? && !units[u].Crashes()
    ensures var stale := Stale(units, order, threaded);
      && Consistent(units, infos[u := units[u].Contents(stale)], order + [u], threaded)
      && Stale(units, order + [u], threaded) == if threaded then [] else units[u].Left(stale)
  {
    hide Source.Crashes, Source.Left, Source.Contents, Stale;
    if u in order {
      var i :| 0 <= i < |order| && order[i] == u;
      units[u].ReadIsNotUnread(Stale(units, order[..i], threaded));
    }
    StaleNext(units, order, threaded, u);
    var next := order + [u];
    forall i | 0 <= i < |next|
      ensures infos[u := units[u].Contents(Stale(units, order, threaded))][next[i]]
           == units[next[i]].Contents(Stale(units, next[..i], threaded))
    {
      assert next[..i] == order[..i];
      assert i < |order| ==> next[i] == order[i] != u;
      assert order[..|order|] == order;
    }
  }

  lemma StaleNext(units: seq<Source>, order: seq<nat>, threaded: bool, u: nat)
    requires u < |units| && forall i :: 0 <= i < |order| ==> order[i] < |units|
    ensures forall i :: 0 <= i < |order| + 1 ==> (order + [u])[..i] == order[..i]
    ensures Stale(units, order + [u], threaded) ==
      if threaded then [] else units[u].Left(Stale(units, order, threaded))
  {
    hide Source.Left;
    assert (order + [u])[..|order|] == order;
  }

  lemma NothingStale(units: seq<Source>, order: seq<nat>, threaded: bool)
    requires forall i :: 0 <= i < |order| ==> order[i] < |units|
    ensures threaded || order == [] ==> Stale(units, order, threaded) == []
  {
  }

  ghost predicate AbsNames(units: seq<Source>, names: seq<Where>) {
    |names| == |units| && forall u :: 0 <= u < |units| ==> names[u] == Nowhere || names[u] == units[u].AbsName()
  }

  ghost predicate OwnersIn(addrs: seq<Range<nat>>, n: nat) {
    forall k :: 0 <= k < |addrs| ==> addrs[k].owner < n
  }

  /** The backward walk over units that are known to be useless. */
  function SkipBack(addrs: seq<Range<nat>>, infos: seq<Info>, pc: word, k: nat): (r: nat)
    requires k < |addrs| && OwnersIn(addrs, |infos|)
    ensures r <= k
  {
    if k > 0 && Contains(addrs[k - 1], pc) && infos[addrs[k].owner].lines.Failed? then SkipBack(addrs, infos, pc, k - 1)
    else k
  }

  lemma SameCount(units: seq<Source>, infos: seq<Info>, order: seq<nat>, threaded: bool)
    requires Consistent(units, infos, order, threaded)
    ensures |infos| == |units| && forall i :: 0 <= i < |order| ==> order[i] < |units|
  {
  }

  lemma ReadBefore(units: seq<Source>, infos: seq<Info>, order: seq<nat>, threaded: bool, u: nat)
    requires Consistent(units, infos, order, threaded) && u < |units| && !infos[u].lines.NotRead?
    ensures !units[u].Crashes() && exists stale :: infos[u] == units[u].Contents(stale)
  {
    hide Source.Crashes, Source.Contents;
    assert u in order;
    var i :| 0 <= i < |order| && order[i] == u;
    assert infos[order[i]] == units[u].Contents(Stale(units, order[..i], threaded));
  }

  lemma FindIs<T>(ranges: seq<Range<T>>, pc: word)
    ensures Find(ranges, pc) == WalkFrom(ranges, pc, Probe(RangeSigns(ranges, pc), 0, |ranges|))
  {
  }

  // ---------------------------------------------------------------------------
  // What a unit answers
  // ---------------------------------------------------------------------------

  /** The row in force at pc: a linear scan of the rows as the program emitted them. */
  function RowAt(rows: seq<LM.Row>, pc: word): Option<LM.Row> {
    if pc == MAX_PC then None
    else match Scan(rows, |rows|, pc)
      case None => None
      case Some(b) => Some(rows[b])
  }

  /** The functions that contain pc, innermost first. */
  function Chain(functions: seq<Range<D.Func>>, pc: word): seq<D.Func> {
    match Find(functions, pc)
    case None => []
    case Some(k) => InlinedAt(functions[k].owner, pc) + [functions[k].owner]
  }

  /** The frames a unit with these functions reports for pc. */
  ghost function Answer(u: Source, functions: FunctionList, pc: word): (frames: seq<Frame>)
    ensures frames != []
  {
    if u.Rows() == [] then [Frame(pc, Nowhere, 0, None)]
    else match RowAt(u.Rows(), pc)
      case None => [Frame(pc, u.AbsName(), 0, None)]
      case Some(row) =>
        var chain := Chain(functions, pc);
        if chain == [] then [Frame(pc, InFile(row.file), row.line, None)]
        else Frames(pc, chain, InFile(row.file), row.line)
  }

  // ---------------------------------------------------------------------------
  // dwarf_lookup_pc
  // ---------------------------------------------------------------------------

  /** read_line_info, then read_function_info when that succeeded; or the run ends. */
  method ReadUnit(u: Source, table: R.FunctionTable, vec: RangeVector<nat>) returns (trap: bool, info: Info)
    requires R.Sound(table.funcs, vec.ranges)
    modifies table, vec
    ensures old(table.funcs) <= table.funcs && R.Sound(table.funcs, vec.ranges)
    ensures trap == u.Crashes()
    ensures trap ==> table.funcs == old(table.funcs) && vec.ranges == old(vec.ranges)
    ensures !trap ==> var stale := old(R.Trees(table.funcs, vec.ranges, 0));
      info == u.Contents(stale) && R.Trees(table.funcs, vec.ranges, 0) == u.Left(stale)
  {
    hide LM.Run, H.UnitAt, Table, SortOrder, D.WalkUnit, D.SortEntries, R.Trees, R.WellFounded, R.InTable;
    var header, buf := H.OpenUnit(u.section, u.lineOffset, u.info);
    if !header.Ok? {
      return header.Astray?, Info(Failed, []);
    }
    var lines;
    trap, lines := ReadLineInfo(header.value.env, buf);
    if trap {
      return true, UNREAD;
    }
    if lines == Failed {
      return false, Info(Failed, []);
    }
    var addrs := R.ReadFunctionInfo(u.ctx, u.entries, table, vec);
    info := Info(lines, R.Trees(table.funcs, addrs, 0));
  }

  /** What answers for a pc: a unit, and the functions that it has, or gets when it is read. */
  datatype Reply = Reply(unit: Source, functions: FunctionList)

  /** struct dwarf_data, with the fields of its units that change; funcs are the functions allocated for it. */
  class DwarfData {
    const units: seq<Source>
    const addrs: seq<Range<nat>>
    const threaded: bool
    var funcs: seq<R.Record>
    var fvec: seq<Range<nat>>
    var infos: seq<Info>
    var absFilenames: seq<Where>
    ghost var order: seq<nat>

    ghost predicate Valid()
      reads this
    {
      && Consistent(units, infos, order, threaded) && OwnersIn(addrs, |units|)
      && R.Sound(funcs, fvec) && R.Trees(funcs, fvec, 0) == Stale(units, order, threaded)
      && AbsNames(units, absFilenames)
    }

    constructor (units: seq<Source>, addrs: seq<Range<nat>>, threaded: bool)
      requires OwnersIn(addrs, |units|)
      ensures Valid() && fresh(this)
      ensures this.units == units && this.addrs == addrs && this.threaded == threaded
      ensures order == [] && forall u :: 0 <= u < |units| ==> infos[u] == UNREAD
    {
      this.units, this.addrs, this.threaded, order := units, addrs, threaded, [];
      infos := seq(|units|, _ => UNREAD);
      absFilenames := seq(|units|, _ => Nowhere);
      funcs, fvec := [], [];
      R.NoRanges([]);
    }

    /** The entry that answers for pc, given which units have been read. */
    ghost function Chosen(pc: word): (r: Option<nat>)
      requires Valid()
      reads this
      ensures r.Some? ==> r.value < |addrs| && addrs[r.value].owner < |units|
    {
      match Find(addrs, pc)
      case None => None
      case Some(k) => Some(SkipBack(addrs, infos, pc, k))
    }

    /** What unit u holds once it has been read, if it is not yet. */
    ghost function Filled(u: nat): Info
      requires Valid() && u < |units|
      reads this
    {
      if infos[u].lines.NotRead? then units[u].Contents(Stale(units, order, threaded)) else infos[u]
    }

    /** What answers for pc. */
    ghost function ChosenReply(pc: word): Option<Reply>
      requires Valid()
      reads this
    {
      match Chosen(pc)
      case None => None
      case Some(k) => var u := addrs[k].owner; Some(Reply(units[u], Filled(u).functions))
    }

    method LookupPc(pc: word, callback: Callback) returns (trap: bool, ret: int, found: bool)
      requires Valid()
      modifies this, callback`calls
      ensures Valid()
      ensures found == old(ChosenReply(pc)).Some?
      ensures trap <==> old(ChosenReply(pc)).Some? && old(ChosenReply(pc)).value.unit.Crashes()
      ensures !found || trap ==> callback.calls == old(callback.calls) && infos == old(infos) && order == old(order)
      ensures !found ==> ret == 0
      ensures found && !trap ==> var r := old(ChosenReply(pc)).value;
        (callback.calls, ret) == Deliver(callback.answer, old(callback.calls), Answer(r.unit, r.functions, pc))
      ensures found && !trap ==> var u := addrs[old(Chosen(pc)).value].owner;
        && infos == old(infos)[u := old(Filled(u))]
        && order == if old(infos[u]).lines.NotRead? then old(order) + [u] else old(order)
    {
      hide Deliver, Answer, Find, SkipBack, Consistent, Stale, R.Sound, R.Trees, AbsNames;
      SameCount(units, infos, order, threaded);
      var entry := FindEntry(pc);
      if entry == None {
        return false, 0, false;
      }
      found := true;
      var u := addrs[entry.value].owner;
      trap := Fill(u);
      if trap {
        return true, 0, true;
      }
      ret := Report(u, pc, callback);
    }

    /** The search, the walk forward and the walk back over useless units. */
    method FindEntry(pc: word) returns (r: Option<nat>)
      requires Valid()
      ensures r == Chosen(pc)
    {
      hide Find, Consistent, Stale, R.Sound, R.Trees, AbsNames;
      SameCount(units, infos, order, threaded);
      var found := LookupRange(addrs, pc);
      assert found == Find(addrs, pc) by { FindIs(addrs, pc); }
      if found == None {
        return None;
      }
      var entry: nat := found.value;
      while entry > 0 && Contains(addrs[entry - 1], pc) && infos[addrs[entry].owner].lines.Failed?
        invariant entry < |addrs|
        invariant SkipBack(addrs, infos, pc, entry) == SkipBack(addrs, infos, pc, found.value)
      {
        entry := entry - 1;
      }
      r := Some(entry);
    }

    /** The unit is read, if that has not been done. */
    method Fill(u: nat) returns (trap: bool)
      requires Valid() && u < |units|
      modifies `infos, `order, `funcs, `fvec
      ensures Valid() && trap == units[u].Crashes()
      ensures infos == if trap then old(infos) else old(infos)[u := old(Filled(u))]
      ensures order == if trap || !old(infos[u]).lines.NotRead? then old(order) else old(order) + [u]
      ensures !trap ==> !infos[u].lines.NotRead?
    {
      hide Source.Crashes, Source.Left, Source.Contents, Consistent, Stale, R.Sound, R.Trees, AbsNames, OwnersIn;
      SameCount(units, infos, order, threaded);
      trap := false;
      units[u].ReadIsNotUnread(Stale(units, order, threaded));
      if infos[u].lines.NotRead? {
        var table := new R.FunctionTable();
        var vec := new RangeVector();
        table.funcs, vec.ranges := funcs, if threaded then [] else fvec;
        R.OwnVector(funcs, fvec);
        NothingStale(units, order, threaded);
        var info;
        trap, info := ReadUnit(units[u], table, vec);
        if !trap {
          R.OwnVector(table.funcs, vec.ranges);
          funcs, fvec := table.funcs, if threaded then [] else vec.ranges;
          ReadNext(units, infos, order, threaded, u);
          infos, order := infos[u := info], order + [u];
        }
      } else {
        ReadBefore(units, infos, order, threaded, u);
      }
    }

    /** The rest of dwarf_lookup_pc, once the fields of the unit are set. */
    method Report(u: nat, pc: word, callback: Callback) returns (ret: int)
      requires Valid() && u < |units| && !infos[u].lines.NotRead?
      modifies `absFilenames, callback`calls
      ensures Valid()
      ensures (callback.calls, ret) == Deliver(callback.answer, old(callback.calls), Answer(units[u], infos[u].functions, pc))
    {
      hide WalkFrom, Probe, Deliver, Frames, Scan, SortOrder, Source.Rows, Source.Functions, Source.Crashes, Consistent, Stale,
        R.Sound, R.Trees;
      SameCount(units, infos, order, threaded);
      ReadBefore(units, infos, order, threaded, u);
      var info := infos[u];
      if info.lines.Failed? {
        DeliverOne(callback.answer, callback.calls, Frame(pc, Nowhere, 0, None));
        ret := callback.Call(Frame(pc, Nowhere, 0, None));
        return;
      }
      ghost var rows := units[u].Rows();
      SortOrderIsStable(rows);
      var ln := LookupLine(info.lines.lines, pc, rows, SortOrder(rows, |rows|));
      if ln == None {
        if absFilenames[u] == Nowhere {
          absFilenames := absFilenames[u := units[u].AbsName()];
        }
        DeliverOne(callback.answer, callback.calls, Frame(pc, absFilenames[u], 0, None));
        ret := callback.Call(Frame(pc, absFilenames[u], 0, None));
        return;
      }
      var row := info.lines.lines[ln.value];
      var k := LookupRange(info.functions, pc);
      assert k == Find(info.functions, pc);
      if k == None {
        DeliverOne(callback.answer, callback.calls, Frame(pc, InFile(row.file), row.line, None));
        ret := callback.Call(Frame(pc, InFile(row.file), row.line, None));
        return;
      }
      var f := info.functions[k.value].owner;
      DeliverNext(callback.answer, callback.calls, pc, InlinedAt(f, pc), f, InFile(row.file), row.line);
      var file, line;
      ret, file, line := ReportInlinedFunctions(pc, f, callback, InFile(row.file), row.line);
      if ret == 0 {
        ret := callback.Call(Frame(pc, file, line, Some(f.name)));
      }
    }
  }

  // ---------------------------------------------------------------------------
  // dwarf_fileline
  // ---------------------------------------------------------------------------

  ghost predicate AllValid(modules: seq<DwarfData>)
    reads modules
  {
    && (forall m :: 0 <= m < |modules| ==> modules[m].Valid())
    && forall m, n :: 0 <= m < n < |modules| ==> modules[m] != modules[n]
  }

  /** What answers for pc: the choice of the first module that has a range for it. */
  ghost function ReplyOf(modules: seq<DwarfData>, pc: word): Option<Reply>
    requires AllValid(modules)
    reads modules
  {
    if modules == [] then None
    else
      var r := modules[0].ChosenReply(pc);
      if r.Some? then r else assert AllValid(modules[1..]); ReplyOf(modules[1..], pc)
  }

  /** The frames reported for pc. */
  ghost function AnswerOf(r: Option<Reply>, pc: word): (frames: seq<Frame>)
    ensures frames != []
  {
    if r.None? then [Frame(pc, Nowhere, 0, None)] else Answer(r.value.unit, r.value.functions, pc)
  }

  lemma ReplyOfNext(modules: seq<DwarfData>, pc: word, i: nat)
    requires i < |modules| && AllValid(modules)
    ensures AllValid(modules[i..]) && AllValid(modules[i + 1..])
    ensures ReplyOf(modules[i..], pc) ==
      var r := modules[i].ChosenReply(pc); if r.Some? then r else ReplyOf(modules[i + 1..], pc)
  {
    assert modules[i..][1..] == modules[i + 1..];
  }

  lemma NoModule(modules: seq<DwarfData>, pc: word)
    requires modules == []
    ensures AllValid(modules) && ReplyOf(modules, pc) == None
  {
  }

  method DwarfFileline(modules: seq<DwarfData>, pc: word, callback: Callback) returns (trap: bool, ret: int)
    requires AllValid(modules)
    modifies modules, callback`calls
    ensures AllValid(modules)
    ensures var r := old(ReplyOf(modules, pc));
      && trap == (r.Some? && r.value.unit.Crashes())
      && (trap ==> callback.calls == old(callback.calls))
      && (!trap ==>
           && (callback.calls, ret) == Deliver(callback.answer, old(callback.calls), AnswerOf(r, pc))
           && old(callback.calls) < callback.calls)
  {
    hide Deliver, Answer, ReplyOf, Consistent, OwnersIn, Find, Source.Crashes, Stale, R.Sound, R.Trees, AbsNames, DwarfData.Valid,
      DwarfData.Chosen;
    ghost var reply := ReplyOf(modules, pc);
    assert modules[0..] == modules;
    var i := 0;
    ghost var _ := DeliverStops(callback.answer, callback.calls, AnswerOf(reply, pc));
    while i < |modules|
      invariant i <= |modules| && AllValid(modules) && callback.calls == old(callback.calls)
      invariant ReplyOf(modules[i..], pc) == reply
    {
      ReplyOfNext(modules, pc, i);
      ghost var rest := ReplyOf(modules[i + 1..], pc);
      var found;
      trap, ret, found := modules[i].LookupPc(pc, callback);
      assert AllValid(modules[i + 1..]) && ReplyOf(modules[i + 1..], pc) == rest;
      if trap || ret != 0 || found {
        return;
      }
      i := i + 1;
    }
    NoModule(modules[i..], pc);
    trap := false;
    DeliverOne(callback.answer, callback.calls, Frame(pc, Nowhere, 0, None));
    ret := callback.Call(Frame(pc, Nowhere, 0, None));
  }
}
