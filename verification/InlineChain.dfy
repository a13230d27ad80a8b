// What a lookup reports, in terms that do not mention the search: containment, history, call sites.
module InlineChain {
  import opened Words
  import opened BinarySearch
  import opened AddressRanges
  import opened LineTable
  import opened Lookup
  import opened Fileline
  import D = DieWalk
  import LM = LineMachine

  // ---------------------------------------------------------------------------
  // The chain of functions that contain a pc
  // ---------------------------------------------------------------------------

  /** The ranges of one level are not empty, do not overlap, and are in order. */
  ghost predicate Disjoint<T>(ranges: seq<Range<T>>) {
    && SortedRanges(ranges)
    && (forall i :: 0 <= i < |ranges| ==> ranges[i].low < ranges[i].high)
    && forall i, j :: 0 <= i < j < |ranges| ==> ranges[i].high <= ranges[j].low || ranges[j].high <= ranges[i].low
  }

  ghost predicate Tidy(f: D.Func)
    decreases f
  {
    Disjoint(f.addrs) && forall k :: 0 <= k < |f.addrs| ==> Tidy(f.addrs[k].owner)
  }

  ghost predicate TidyLevel(functions: seq<Range<D.Func>>) {
    Disjoint(functions) && forall k :: 0 <= k < |functions| ==> Tidy(functions[k].owner)
  }

  /**
   * Read from the outermost function at its end: each function of the chain has a range that
   * contains pc, at the level of the function around it, and nothing inlined into the first has one.
   */
  ghost predicate IsChain(functions: seq<Range<D.Func>>, pc: word, chain: seq<D.Func>)
    decreases |chain|
  {
    if chain == [] then forall k :: 0 <= k < |functions| ==> !Contains(functions[k], pc)
    else
      var n := |chain| - 1;
      && (exists k :: 0 <= k < |functions| && Contains(functions[k], pc) && functions[k].owner == chain[n])
      && IsChain(chain[n].addrs, pc, chain[..n])
  }

  lemma FindContaining<T>(ranges: seq<Range<T>>, pc: word)
    requires Disjoint(ranges)
    ensures match Find(ranges, pc)
      case None => forall k :: 0 <= k < |ranges| ==> !Contains(ranges[k], pc)
      case Some(k) => Contains(ranges[k], pc) && forall l :: 0 <= l < |ranges| && Contains(ranges[l], pc) ==> l == k
  {
    hide WalkFrom, Probe;
    DisjointOrIdenticalAscend(ranges);
    AscendingIsPartitioned(ranges, pc);
    var signs := RangeSigns(ranges, pc);
    ProbeFinds(signs, 0, |ranges|);
    RangeLookup(ranges, pc, Probe(signs, 0, |ranges|));
  }

  lemma ChainStep(functions: seq<Range<D.Func>>, pc: word)
    ensures match Find(functions, pc)
      case None => Chain(functions, pc) == []
      case Some(k) => Chain(functions, pc) == Chain(functions[k].owner.addrs, pc) + [functions[k].owner]
  {
    hide Find;
    match Find(functions, pc) {
      case None =>
      case Some(k) => ChainOfFunction(functions[k].owner, pc);
    }
  }

  lemma {:induction false} ChainOfFunction(f: D.Func, pc: word)
    ensures InlinedAt(f, pc) == Chain(f.addrs, pc)
  {
  }

  /** The functions reported are the functions that contain pc, innermost first, and no others. */
  lemma {:induction false} ReportsContainingIff(functions: seq<Range<D.Func>>, pc: word, chain: seq<D.Func>)
    requires TidyLevel(functions)
    ensures chain == Chain(functions, pc) <==> IsChain(functions, pc, chain)
    decreases |chain|
  {
    hide Find, Chain;
    FindContaining(functions, pc);
    ChainStep(functions, pc);
    if chain != [] {
      var n := |chain| - 1;
      var f := chain[n];
      assert chain == chain[..n] + [f];
      if k: nat :| k < |functions| && Contains(functions[k], pc) && functions[k].owner == f {
        assert Tidy(f);
        ReportsContainingIff(f.addrs, pc, chain[..n]);
        LastOf(Chain(f.addrs, pc), chain[..n], f);
      }
    }
  }

  lemma LastOf<T>(a: seq<T>, b: seq<T>, x: T)
    ensures a + [x] == b + [x] <==> a == b
  {
    assert (a + [x])[..|a + [x]| - 1] == a && (b + [x])[..|b + [x]| - 1] == b;
  }

  /** Frame by frame: the innermost is at the row in force, each other at the call site of the one before. */
  lemma AnswerFrames(u: Source, functions: FunctionList, pc: word, row: LM.Row, k: nat)
    requires RowAt(u.Rows(), pc) == Some(row)
    requires k < |Chain(functions, pc)|
    ensures var chain, frames := Chain(functions, pc), Answer(u, functions, pc);
      && |frames| == |chain|
      && frames[k].pc == pc && frames[k].name == Some(chain[k].name)
      && (k == 0 ==> frames[k].file == InFile(row.file) && frames[k].line == row.line)
      && (k > 0 ==> frames[k].line == chain[k - 1].callerLine)
      && (k > 0 ==> frames[k].file == match chain[k - 1].callerFile case None => Nowhere case Some(f) => InFile(f))
  {
    hide Chain, Frames, Scan, Source.Rows;
    FrameAt(pc, Chain(functions, pc), InFile(row.file), row.line, k);
  }

  /** Without rows, without a row for pc, or without a function: one frame, which says as much as is known. */
  lemma SingleFrame(u: Source, functions: FunctionList, pc: word)
    ensures u.Rows() == [] ==> Answer(u, functions, pc) == [Frame(pc, Nowhere, 0, None)]
    ensures u.Rows() != [] && RowAt(u.Rows(), pc) == None ==>
      exists where :: Answer(u, functions, pc) == [Frame(pc, where, 0, None)] && NamesUnit(u, where)
    ensures RowAt(u.Rows(), pc).Some? && Chain(functions, pc) == [] ==>
      Answer(u, functions, pc) == [Frame(pc, InFile(RowAt(u.Rows(), pc).value.file), RowAt(u.Rows(), pc).value.line, None)]
  {
    hide Scan, Chain, Source.Rows;
    AbsNameIs(u);
    assert RowAt([], pc) == None by { NoRow(pc); }
  }

  lemma NoRow(pc: word)
    ensures RowAt([], pc) == None
  {
  }

  /** The name of the unit: as it is when it is absolute, or there is no directory, and else in its directory. */
  ghost predicate NamesUnit(u: Source, where: Where) {
    match u.filename
    case None => where == Nowhere
    case Some(name) =>
      && where.UnitFile?
      && if LM.IsAbsolute(name) || u.info.compDir == None then where.path == name
         else LM.IsPath(where.path, u.info.compDir.value, name)
  }

  lemma AbsNameIs(u: Source)
    ensures NamesUnit(u, u.AbsName())
  {
  }

  // ---------------------------------------------------------------------------
  // Which module and which range answer
  // ---------------------------------------------------------------------------

  /** Module m has an answer, and none in front of it does. */
  ghost predicate FirstWith(modules: seq<DwarfData>, pc: word, m: nat)
    requires AllValid(modules)
    reads modules
  {
    && m < |modules| && modules[m].ChosenReply(pc).Some?
    && forall l :: 0 <= l < m ==> modules[l].ChosenReply(pc) == None
  }

  /** The first module with a range for pc answers, and none if there is no such module. */
  lemma {:induction false} FirstModuleAnswers(modules: seq<DwarfData>, pc: word)
    requires AllValid(modules)
    ensures match ReplyOf(modules, pc)
      case None => forall m :: 0 <= m < |modules| ==> modules[m].ChosenReply(pc) == None
      case Some(r) => exists m: nat :: FirstWith(modules, pc, m) && modules[m].ChosenReply(pc) == Some(r)
  {
    hide DwarfData.Valid, DwarfData.ChosenReply;
    if modules != [] {
      if modules[0].ChosenReply(pc).Some? {
        assert FirstWith(modules, pc, 0);
      } else {
        var rest := modules[1..];
        assert AllValid(rest);
        FirstModuleAnswers(rest, pc);
        if ReplyOf(rest, pc).Some? {
          var m: nat :| FirstWith(rest, pc, m) && rest[m].ChosenReply(pc) == ReplyOf(rest, pc);
          assert rest[m] == modules[m + 1];
          assert FirstWith(modules, pc, m + 1);
        }
      }
    }
  }

  /** Within a module a range with the pc is found when its ranges are disjoint, and its unit answers when it has rows. */
  lemma OwnUnitAnswers(d: DwarfData, pc: word, k: nat)
    requires d.Valid() && Disjoint(d.addrs) && k < |d.addrs| && Contains(d.addrs[k], pc)
    requires !d.infos[d.addrs[k].owner].lines.Failed?
    ensures d.Chosen(pc) == Some(k) && d.ChosenReply(pc).Some? && d.ChosenReply(pc).value.unit == d.units[d.addrs[k].owner]
  {
    hide Find, Consistent, Stale;
    FindContaining(d.addrs, pc);
  }

  /** The unit of range l is known to be useless, and the range in front contains pc too. */
  ghost predicate Skipped(addrs: seq<Range<nat>>, infos: seq<Info>, pc: word, l: nat)
    requires OwnersIn(addrs, |infos|)
  {
    0 < l < |addrs| && Contains(addrs[l - 1], pc) && infos[addrs[l].owner].lines.Failed?
  }

  /** The walk goes back over all such ranges, and no further. */
  lemma {:induction false} SkipBackStops(addrs: seq<Range<nat>>, infos: seq<Info>, pc: word, k: nat)
    requires k < |addrs| && OwnersIn(addrs, |infos|)
    ensures var r := SkipBack(addrs, infos, pc, k);
      !Skipped(addrs, infos, pc, r) && forall l :: r < l <= k ==> Skipped(addrs, infos, pc, l)
  {
    hide Contains;
    if Skipped(addrs, infos, pc, k) {
      SkipBackStops(addrs, infos, pc, k - 1);
    }
  }

  // ---------------------------------------------------------------------------
  // Does the unit that answers depend on earlier lookups?
  // ---------------------------------------------------------------------------

  /** The unit found for pc gives no rows, and the range in front of its own contains pc too. */
  ghost predicate UselessAndEnclosed(units: seq<Source>, addrs: seq<Range<nat>>, pc: word, k: nat)
    requires OwnersIn(addrs, |units|) && k < |addrs|
  {
    var u := units[addrs[k].owner];
    k > 0 && Contains(addrs[k - 1], pc) && u.Rows() == [] && !u.Crashes()
  }

  /** What the units hold when one of them was read and no other. */
  ghost function OneRead(units: seq<Source>, u: nat): seq<Info> {
    seq(|units|, v requires 0 <= v < |units| => if v == u then units[v].Contents([]) else UNREAD)
  }

  lemma OneReadConsistent(units: seq<Source>, u: nat, threaded: bool)
    requires u < |units| && !units[u].Crashes()
    ensures Consistent(units, OneRead(units, u), [u], threaded)
    ensures Stale(units, [u], threaded) == if threaded then [] else units[u].Left([])
  {
    hide Source.Crashes, Source.Contents, Source.Left;
    assert [u][..0] == [];
  }

  /** Any order of earlier lookups leads to the same unit, except when that unit is useless and enclosed. */
  lemma HistoryFreeIff(units: seq<Source>, addrs: seq<Range<nat>>, threaded: bool, pc: word, k: nat)
    requires OwnersIn(addrs, |units|) && k < |addrs|
    ensures (forall infos, order :: Consistent(units, infos, order, threaded) ==> SkipBack(addrs, infos, pc, k) == k)
        <==> !UselessAndEnclosed(units, addrs, pc, k)
  {
    hide Source.Crashes, Source.Rows, Consistent;
    var u := addrs[k].owner;
    forall infos: seq<Info>, order: seq<nat> | Consistent(units, infos, order, threaded)
      ensures |infos| == |units|
      ensures infos[u].lines.Failed? ==> units[u].Rows() == [] && !units[u].Crashes()
    {
      SameCount(units, infos, order, threaded);
      if !infos[u].lines.NotRead? {
        ReadBefore(units, infos, order, threaded, u);
      }
    }
    if UselessAndEnclosed(units, addrs, pc, k) {
      OneReadConsistent(units, u, threaded);
      assert OneRead(units, u)[u].lines.Failed?;
    }
  }

  /** The exception: the first lookup answers with no file, the second with the enclosing unit. */
  lemma SecondLookupDiffers(units: seq<Source>, addrs: seq<Range<nat>>, threaded: bool, pc: word)
    requires |addrs| == 2 && OwnersIn(addrs, |units|) && Contains(addrs[0], pc) && Contains(addrs[1], pc)
    requires units[addrs[1].owner].Rows() == [] && !units[addrs[1].owner].Crashes() && units[addrs[0].owner].Rows() != []
    ensures var unread, u := seq(|units|, _ => UNREAD), addrs[1].owner;
      && Consistent(units, unread, [], threaded) && SkipBack(addrs, unread, pc, 1) == 1
      && Answer(units[u], units[u].Contents([]).functions, pc) == [Frame(pc, Nowhere, 0, None)]
      && Consistent(units, OneRead(units, u), [u], threaded) && SkipBack(addrs, OneRead(units, u), pc, 1) == 0
  {
    hide Source.Crashes, Source.Rows;
    OneReadConsistent(units, addrs[1].owner, threaded);
  }

  // ---------------------------------------------------------------------------
  // Do the functions of a unit depend on earlier lookups?
  // ---------------------------------------------------------------------------

  /** Functions are collected for the unit at all, and to the end. */
  ghost predicate Takes(u: Source) {
    u.Rows() != [] && D.WalkUnit(u.ctx, u.entries).ok
  }

  /** The unit's entries cannot be read to their end, and functions come in front of the error. */
  ghost predicate Leaves(u: Source) {
    u.Rows() != [] && !D.WalkUnit(u.ctx, u.entries).ok && D.WalkUnit(u.ctx, u.entries).entries != []
  }

  /** A unit whose functions are collected gets all that other units left in the vector, and any other unit nothing. */
  lemma OwnFunctionsIff(u: Source, stale: FunctionList)
    ensures u.Contents(stale) == u.Contents([]) <==> stale == [] || !Takes(u)
  {
    hide D.WalkUnit, Source.Rows;
    var w := D.WalkUnit(u.ctx, u.entries);
    assert |D.SortEntries(stale + w.entries)| == |stale| + |w.entries|;
    assert |D.SortEntries([] + w.entries)| == |w.entries|;
  }

  lemma {:induction false} NoneLeaves(units: seq<Source>, order: seq<nat>, threaded: bool)
    requires forall i :: 0 <= i < |order| ==> order[i] < |units| && !Leaves(units[order[i]])
    ensures Stale(units, order, threaded) == []
  {
    hide D.WalkUnit, Source.Rows;
    if order != [] {
      NoneLeaves(units, order[..|order| - 1], threaded);
    }
  }

  /** In every order of lookups every unit gets its own functions and no others. */
  ghost predicate AlwaysOwn(units: seq<Source>, threaded: bool) {
    forall infos, order, u | Consistent(units, infos, order, threaded) && 0 <= u < |units| && u in order ::
      infos[u] == units[u].Contents([])
  }

  /** Read first, the one unit leaves its functions to the other. */
  lemma TakesWhatIsLeft(units: seq<Source>, u: nat, v: nat)
    requires u < |units| && v < |units| && Leaves(units[u]) && Takes(units[v])
    requires !units[u].Crashes() && !units[v].Crashes()
    ensures var infos := OneRead(units, u)[v := units[v].Contents(units[u].Left([]))];
      Consistent(units, infos, [u, v], false) && infos[v] != units[v].Contents([])
  {
    hide Source.Crashes, Source.Contents, Consistent, Stale, D.WalkUnit, Source.Rows;
    assert u != v;
    OneReadConsistent(units, u, false);
    ReadNext(units, OneRead(units, u), [u], false, v);
    assert [u] + [v] == [u, v];
    OwnFunctionsIff(units[v], units[u].Left([]));
  }

  /** What a unit that was read holds, in terms of the units in front of it. */
  lemma ReadAfter(units: seq<Source>, infos: seq<Info>, order: seq<nat>, threaded: bool, u: nat) returns (i: nat)
    requires Consistent(units, infos, order, threaded) && u < |units| && u in order
    ensures i < |order| && order[i] == u && |infos| == |units| && ReadingOrder(units, order)
    ensures infos[u] == units[u].Contents(Stale(units, order[..i], threaded))
  {
    hide Source.Crashes, Source.Contents, Stale;
    i :| 0 <= i < |order| && order[i] == u;
    assert infos[order[i]] == units[u].Contents(Stale(units, order[..i], threaded));
  }

  /** Of the units that survive their reading, none leaves functions, or none takes them, or they share no vector. */
  ghost predicate NothingShared(units: seq<Source>, threaded: bool) {
    || threaded
    || (forall u :: 0 <= u < |units| && !units[u].Crashes() ==> !Leaves(units[u]))
    || forall u :: 0 <= u < |units| && !units[u].Crashes() ==> !Takes(units[u])
  }

  lemma OwnIfNothingShared(units: seq<Source>, infos: seq<Info>, order: seq<nat>, threaded: bool, u: nat)
    requires NothingShared(units, threaded) && Consistent(units, infos, order, threaded) && u < |units| && u in order
    ensures |infos| == |units| && infos[u] == units[u].Contents([])
  {
    hide Leaves, Takes, Source.Crashes, Source.Contents, Consistent, Stale;
    var i := ReadAfter(units, infos, order, threaded, u);
    NothingStale(units, order[..i], threaded);
    OwnFunctionsIff(units[u], Stale(units, order[..i], threaded));
    if forall v :: 0 <= v < |units| && !units[v].Crashes() ==> !Leaves(units[v]) {
      NoneLeaves(units, order[..i], threaded);
    }
  }

  lemma SharedIsNotOwn(units: seq<Source>, u: nat, v: nat)
    requires u < |units| && v < |units| && Leaves(units[u]) && Takes(units[v])
    requires !units[u].Crashes() && !units[v].Crashes()
    ensures !AlwaysOwn(units, false)
  {
    hide Leaves, Takes, Source.Crashes, Source.Contents, Source.Left, Consistent;
    TakesWhatIsLeft(units, u, v);
    assert v in [u, v];
  }

  /** Every unit always gets its own functions, exactly when none takes what another leaves. */
  lemma AlwaysOwnIff(units: seq<Source>, threaded: bool)
    ensures AlwaysOwn(units, threaded) <==> NothingShared(units, threaded)
  {
    hide Leaves, Takes, Source.Crashes, Source.Contents, Consistent;
    if NothingShared(units, threaded) {
      forall infos, order, u: nat | Consistent(units, infos, order, threaded) && u < |units| && u in order
        ensures |infos| == |units| && infos[u] == units[u].Contents([])
      {
        OwnIfNothingShared(units, infos, order, threaded, u);
      }
    } else {
      var u: nat :| u < |units| && !units[u].Crashes() && Leaves(units[u]);
      var v: nat :| v < |units| && !units[v].Crashes() && Takes(units[v]);
      SharedIsNotOwn(units, u, v);
    }
  }

  /** Such a function answers: the unit has none for pc, and reports one that a unit read earlier has left. */
  lemma LeftFunctionAnswers(units: seq<Source>, u: nat, v: nat, r: Range<D.Func>, pc: word, row: LM.Row)
    requires u < |units| && v < |units| && Leaves(units[u]) && Takes(units[v])
    requires !units[u].Crashes() && !units[v].Crashes()
    requires D.WalkUnit(units[u].ctx, units[u].entries).entries == [r] && Contains(r, pc) && r.owner.addrs == []
    requires D.WalkUnit(units[v].ctx, units[v].entries).entries == [] && RowAt(units[v].Rows(), pc) == Some(row)
    ensures var own, second := units[v].Contents([]), units[v].Contents(units[u].Left([]));
      && Consistent(units, OneRead(units, v), [v], false)
      && Consistent(units, OneRead(units, u)[v := second], [u, v], false)
      && Answer(units[v], own.functions, pc) == [Frame(pc, InFile(row.file), row.line, None)]
      && Answer(units[v], second.functions, pc) == [Frame(pc, InFile(row.file), row.line, Some(r.owner.name))]
  {
    hide Source.Crashes, Consistent, D.WalkUnit, Source.Rows, Scan;
    OneReadConsistent(units, v, false);
    TakesWhatIsLeft(units, u, v);
  }
}
