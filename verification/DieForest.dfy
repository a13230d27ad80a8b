// Forests of debugging information entries, written out in preorder with null entries after each
// group of children (section 2.3 of DWARF 4), and what the walk makes of them.
module DieForest {
  import opened Words
  import L = Leb128
  import opened Readers
  import opened Attributes
  import opened Abbrevs
  import opened AddressRanges
  import opened RangeSort
  import opened DieWalk
  import LM = LineMachine

  /** An entry: the bytes of its code, the bytes of each attribute value, and its children. */
  datatype Die = Die(codeBytes: seq<byte>, abbrev: Abbrev, values: seq<seq<byte>>, kids: seq<Die>)

  function Concat(values: seq<seq<byte>>): seq<byte> {
    if values == [] then [] else values[0] + Concat(values[1..])
  }

  function EncodeDie(d: Die): seq<byte>
    decreases d
  {
    d.codeBytes + Concat(d.values) + (if d.abbrev.hasChildren then EncodeForest(d.kids) + [0] else [])
  }

  function EncodeForest(forest: seq<Die>): seq<byte>
    decreases forest
  {
    if forest == [] then [] else EncodeDie(forest[0]) + EncodeForest(forest[1..])
  }

  // ---------------------------------------------------------------------------
  // Well-formed forests and their meaning
  // ---------------------------------------------------------------------------

  /** bs is one complete value of the form. */
  predicate Exact(u: Unit, form: nat, bs: seq<byte>) {
    var r := ReadAttribute(u, form, bs);
    r.value.Some? && r.rest == [] && !r.short
  }

  /** The local variables of read_function_entry after the attributes. */
  function FactsOf(c: Ctx, tag: nat, attrs: seq<Attr>, values: seq<seq<byte>>, f: Facts): Option<Facts>
    requires |attrs| == |values|
  {
    if attrs == [] then Some(f)
    else match ReadAttribute(c.unit, attrs[0].form, values[0]).value
      case None => None
      case Some(v) =>
        match Absorb(c, tag, attrs[0], v, f)
        case None => None
        case Some(g) => FactsOf(c, tag, attrs[1..], values[1..], g)
  }

  predicate ExactValues(c: Ctx, attrs: seq<Attr>, values: seq<seq<byte>>) {
    |attrs| == |values| && forall i :: 0 <= i < |attrs| ==> Exact(c.unit, attrs[i].form, values[i])
  }

  /** Everything about an entry but its children. */
  predicate WellFormedHead(c: Ctx, d: Die, base: word) {
    && L.Encoding(d.codeBytes) && L.Accumulated(d.codeBytes) == d.abbrev.code && d.abbrev.code != 0
    && LookupAbbrev(c.abbrevs, d.abbrev.code).Some? && c.abbrevs[LookupAbbrev(c.abbrevs, d.abbrev.code).value] == d.abbrev
    && ExactValues(c, d.abbrev.attrs, d.values)
    && FactsOf(c, d.abbrev.tag, d.abbrev.attrs, d.values, NoFacts(base)).Some?
    && !OwnRanges(c, d.abbrev.tag, HeadFacts(c, d, base)).Bad?
  }

  function HeadFacts(c: Ctx, d: Die, base: word): Facts {
    if |d.abbrev.attrs| != |d.values| then NoFacts(base)
    else match FactsOf(c, d.abbrev.tag, d.abbrev.attrs, d.values, NoFacts(base))
      case None => NoFacts(base)
      case Some(f) => f
  }

  predicate WellFormedDie(c: Ctx, d: Die, base: word)
    decreases d
  {
    && WellFormedHead(c, d, base)
    && (if d.abbrev.hasChildren then WellFormed(c, d.kids, HeadFacts(c, d, base).base) else d.kids == [])
  }

  predicate WellFormed(c: Ctx, forest: seq<Die>, base: word)
    decreases forest
  {
    forest == [] || (WellFormedDie(c, forest[0], base) && WellFormed(c, forest[1..], HeadFacts(c, forest[0], base).base))
  }

  /** What one kept function says of itself; its ranges are merged and have the module's base. */
  datatype FuncInfo = FuncInfo(name: seq<byte>, callerFile: Option<LM.File>, callerLine: int, ranges: seq<Range<()>>)

  /** An entry as far as the walk is concerned: kept or not, and its children. */
  datatype Node = Node(own: Option<FuncInfo>, kids: seq<Node>)

  function ResolveDie(c: Ctx, d: Die, base: word): Node
    requires WellFormedDie(c, d, base)
    decreases d
  {
    var f := HeadFacts(c, d, base);
    var own := OwnRanges(c, d.abbrev.tag, f);
    Node(if own.Kept? then Some(FuncInfo(f.name.value, f.callerFile, f.callerLine, Merged(own.ranges, c.baseAddress))) else None,
         if d.abbrev.hasChildren then Resolve(c, d.kids, f.base) else [])
  }

  function Resolve(c: Ctx, forest: seq<Die>, base: word): (nodes: seq<Node>)
    requires WellFormed(c, forest, base)
    ensures |nodes| == |forest|
    decreases forest
  {
    if forest == [] then []
    else [ResolveDie(c, forest[0], base)] + Resolve(c, forest[1..], HeadFacts(c, forest[0], base).base)
  }

  function BaseAfter(c: Ctx, forest: seq<Die>, base: word): word
    requires WellFormed(c, forest, base)
    decreases |forest|
  {
    if forest == [] then base else BaseAfter(c, forest[1..], HeadFacts(c, forest[0], base).base)
  }

  /** The ranges one node contributes: its own when it is kept, else those of its children. */
  function ContractNode(n: Node): seq<Range<Func>>
    decreases n
  {
    if n.own.Some? then
      Tag(n.own.value.ranges, Func(n.own.value.name, n.own.value.callerFile, n.own.value.callerLine, SortEntries(Contract(n.kids))))
    else Contract(n.kids)
  }

  function Contract(nodes: seq<Node>): seq<Range<Func>>
    decreases nodes
  {
    if nodes == [] then [] else ContractNode(nodes[0]) + Contract(nodes[1..])
  }

  // ---------------------------------------------------------------------------
  // The walk recovers the forest
  // ---------------------------------------------------------------------------

  lemma ReadExact(u: Unit, form: nat, bs: seq<byte>, x: seq<byte>)
    requires Exact(u, form, bs)
    ensures ReadAttribute(u, form, bs + x) == Read(ReadAttribute(u, form, bs).value, x, false)
  {
    hide ReadAttribute;
    AttributeLocal(u, form, bs, x);
    assert Taken(bs, ReadAttribute(u, form, bs)) == bs;
  }

  lemma {:induction false} ReadFactsExact(c: Ctx, tag: nat, attrs: seq<Attr>, values: seq<seq<byte>>, f: Facts, x: seq<byte>)
    requires ExactValues(c, attrs, values) && FactsOf(c, tag, attrs, values, f).Some?
    ensures ReadFacts(c, tag, attrs, Concat(values) + x, f) == Read(FactsOf(c, tag, attrs, values, f), x, false)
    decreases |attrs|
  {
    hide ReadAttribute, Absorb;
    if attrs == [] {
      assert Concat(values) + x == x;
    } else {
      var y := Concat(values[1..]) + x;
      assert Concat(values) + x == values[0] + y;
      ReadExact(c.unit, attrs[0].form, values[0], y);
      var g := Absorb(c, tag, attrs[0], ReadAttribute(c.unit, attrs[0].form, values[0]).value.value, f).value;
      assert ExactValues(c, attrs[1..], values[1..]);
      ReadFactsExact(c, tag, attrs[1..], values[1..], g, x);
    }
  }

  lemma ReadCode(codeBytes: seq<byte>, y: seq<byte>)
    requires L.Encoding(codeBytes)
    ensures ReadULeb(codeBytes + y) == Read(L.Accumulated(codeBytes), y, false)
  {
    L.EncodingSpan(codeBytes, y);
    var s := codeBytes + y;
    assert s[..|codeBytes|] == codeBytes && s[|codeBytes|..] == y;
  }

  /** The entry after its code. */
  lemma WalkEncodedEntry(c: Ctx, d: Die, base: word, t: seq<byte>)
    requires WellFormedDie(c, d, base)
    ensures d.codeBytes <= EncodeDie(d)
    ensures var e := WalkEntry(c, d.abbrev, EncodeDie(d)[|d.codeBytes|..] + t, base);
      e == EntryWalk(true, ContractNode(ResolveDie(c, d, base)), t, HeadFacts(c, d, base).base)
    decreases d, 1
  {
    hide ReadFacts, OwnRanges, FactsOf, Merged, SortEntries, LookupAbbrev, Exact, Resolve, Contract, WalkLevel;
    var f := HeadFacts(c, d, base);
    var tail := (if d.abbrev.hasChildren then EncodeForest(d.kids) + [0] else []) + t;
    assert EncodeDie(d)[|d.codeBytes|..] + t == Concat(d.values) + tail;
    ReadFactsExact(c, d.abbrev.tag, d.abbrev.attrs, d.values, NoFacts(base), tail);
    if d.abbrev.hasChildren {
      WalkEncoded(c, d.kids, f.base, [0] + t);
      assert tail == EncodeForest(d.kids) + ([0] + t);
      WalkNull(c, t, BaseAfter(c, d.kids, f.base));
      var nodes := Resolve(c, d.kids, f.base);
      assert Contract(nodes) + [] == Contract(nodes);
    } else {
      assert tail == t;
      ContractNone();
    }
  }

  lemma ContractNone()
    ensures Contract([]) == []
  {
  }

  lemma WalkNull(c: Ctx, t: seq<byte>, base: word)
    ensures WalkLevel(c, [0] + t, base) == Walk(true, [], t)
  {
    ReadCode([0], t);
    assert L.Accumulated([0]) == 0 by {
      assert [0][..0] == [];
      assert 0 * Pow2(L.Shift(0)) == 0;
    }
  }

  /** A forest in front of t is walked entry by entry, and t is walked with the base address it leaves. */
  lemma {:induction false} WalkEncoded(c: Ctx, forest: seq<Die>, base: word, t: seq<byte>)
    requires WellFormed(c, forest, base)
    ensures var end := WalkLevel(c, t, BaseAfter(c, forest, base));
      WalkLevel(c, EncodeForest(forest) + t, base)
      == Walk(end.ok, Contract(Resolve(c, forest, base)) + end.entries, end.rest)
    decreases forest, 0
  {
    hide WalkEntry, OwnRanges, HeadFacts, FactsOf, LookupAbbrev, ExactValues, ResolveDie, ContractNode, L.Accumulated,
      EncodeDie, WellFormedHead, ReadULeb, L.Encoding, WalkLevel;
    if forest == [] {
      assert EncodeForest(forest) + t == t;
      ContractNone();
    } else {
      var d, next := forest[0], HeadFacts(c, forest[0], base).base;
      var y := EncodeForest(forest[1..]) + t;
      WalkEncodedEntry(c, d, base, y);
      WalkEncoded(c, forest[1..], next, t);
      WalkOne(c, d, base, y);
      assert EncodeForest(forest) + t == EncodeDie(d) + y;
      ContractCons(c, forest, base);
      var end := WalkLevel(c, t, BaseAfter(c, forest, base));
      Regroup(ContractNode(ResolveDie(c, d, base)), Contract(Resolve(c, forest[1..], next)), end.entries);
    }
  }

  lemma Regroup<T>(a: seq<T>, b: seq<T>, c: seq<T>)
    ensures a + (b + c) == a + b + c
  {
  }

  lemma ContractCons(c: Ctx, forest: seq<Die>, base: word)
    requires WellFormed(c, forest, base) && forest != []
    ensures Contract(Resolve(c, forest, base))
         == ContractNode(ResolveDie(c, forest[0], base)) + Contract(Resolve(c, forest[1..], HeadFacts(c, forest[0], base).base))
  {
    hide WellFormedHead, WellFormedDie, HeadFacts, ResolveDie, ContractNode;
    var nodes := Resolve(c, forest, base);
    assert nodes[1..] == Resolve(c, forest[1..], HeadFacts(c, forest[0], base).base);
  }

  lemma WalkOne(c: Ctx, d: Die, base: word, y: seq<byte>)
    requires WellFormedHead(c, d, base) && d.codeBytes <= EncodeDie(d)
    requires WalkEntry(c, d.abbrev, EncodeDie(d)[|d.codeBytes|..] + y, base).ok
    ensures var e := WalkEntry(c, d.abbrev, EncodeDie(d)[|d.codeBytes|..] + y, base);
      var siblings := WalkLevel(c, e.rest, e.base);
      WalkLevel(c, EncodeDie(d) + y, base) == siblings.(entries := e.entries + siblings.entries)
  {
    hide WalkEntry, OwnRanges, HeadFacts, FactsOf, LookupAbbrev, ExactValues, L.Accumulated, EncodeDie, ReadULeb;
    var body := EncodeDie(d)[|d.codeBytes|..] + y;
    assert EncodeDie(d) + y == d.codeBytes + body;
    ReadCode(d.codeBytes, body);
    assert EncodeDie(d) + y != [];
  }

  /** A unit that holds a forest is walked completely, and yields the contracted forest. */
  lemma WalkEncodedUnit(c: Ctx, forest: seq<Die>)
    requires WellFormed(c, forest, 0)
    ensures WalkUnit(c, EncodeForest(forest)) == Walk(true, Contract(Resolve(c, forest, 0)), [])
  {
    hide WellFormed, EncodeForest, Resolve;
    var s, entries := EncodeForest(forest), Contract(Resolve(c, forest, 0));
    WalkEncoded(c, forest, 0, []);
    assert s + [] == s && entries + [] == entries;
    EmptyForestOnly(c, forest);
  }

  lemma EncodeNonEmpty(forest: seq<Die>)
    requires forest != [] && forest[0].codeBytes != []
    ensures |EncodeForest(forest)| > 0
  {
    hide Concat;
    assert |EncodeDie(forest[0])| >= |forest[0].codeBytes|;
  }

  lemma EmptyForestOnly(c: Ctx, forest: seq<Die>)
    requires WellFormed(c, forest, 0)
    ensures EncodeForest(forest) == [] ==> Contract(Resolve(c, forest, 0)) == []
  {
    hide ResolveDie, ContractNode, LookupAbbrev, OwnRanges, FactsOf, HeadFacts, ExactValues, L.Accumulated, Concat;
    if forest != [] {
      assert forest[0].codeBytes != [];
      EncodeNonEmpty(forest);
    } else {
      ContractNone();
    }
  }

  // ---------------------------------------------------------------------------
  // Nearest kept ancestors
  // ---------------------------------------------------------------------------

  /** p leads from the roots to a node: p[0] picks a root, every later index a child. */
  predicate ValidPath(nodes: seq<Node>, p: seq<nat>)
    decreases |p|
  {
    p != [] && p[0] < |nodes| && (|p| > 1 ==> ValidPath(nodes[p[0]].kids, p[1..]))
  }

  function NodeAt(nodes: seq<Node>, p: seq<nat>): Node
    requires ValidPath(nodes, p)
    decreases |p|
  {
    if |p| == 1 then nodes[p[0]] else NodeAt(nodes[p[0]].kids, p[1..])
  }

  /** The node at p is kept, and none of the nodes above it is. */
  predicate Outermost(nodes: seq<Node>, p: seq<nat>)
    requires ValidPath(nodes, p)
    decreases |p|
  {
    if |p| == 1 then nodes[p[0]].own.Some? else nodes[p[0]].own.None? && Outermost(nodes[p[0]].kids, p[1..])
  }

  function Prefixed(i: nat, paths: seq<seq<nat>>): (r: seq<seq<nat>>)
    ensures |r| == |paths| && forall k :: 0 <= k < |r| ==> r[k] == [i] + paths[k]
  {
    seq(|paths|, k requires 0 <= k < |paths| => [i] + paths[k])
  }

  /** Where the kept nodes without a kept ancestor are: at or below root i. */
  function FrontierAt(nodes: seq<Node>, i: nat): seq<seq<nat>>
    requires i < |nodes|
    decreases nodes, |nodes| - i, 0
  {
    if nodes[i].own.Some? then [[i]] else Prefixed(i, FrontierFrom(nodes[i].kids, 0))
  }

  /** From root i on. */
  function FrontierFrom(nodes: seq<Node>, i: nat): seq<seq<nat>>
    requires i <= |nodes|
    decreases nodes, |nodes| - i, 1
  {
    if i == |nodes| then [] else FrontierAt(nodes, i) + FrontierFrom(nodes, i + 1)
  }

  lemma {:induction false} FrontierAtIff(nodes: seq<Node>, i: nat, p: seq<nat>)
    requires i < |nodes|
    ensures p in FrontierAt(nodes, i) <==> ValidPath(nodes, p) && p[0] == i && Outermost(nodes, p)
    decreases nodes, |nodes| - i, 0
  {
    hide Prefixed, FrontierFrom;
    if nodes[i].own.Some? {
      assert p in [[i]] <==> p == [i];
    } else if p != [] && p[0] == i {
      FrontierIff(nodes[i].kids, 0, p[1..]);
      PrefixedIff(i, FrontierFrom(nodes[i].kids, 0), p);
    } else {
      PrefixedOther(i, FrontierFrom(nodes[i].kids, 0), p);
    }
  }

  /** The paths of the frontier are exactly those of the outermost kept nodes. */
  lemma {:induction false} FrontierIff(nodes: seq<Node>, i: nat, p: seq<nat>)
    requires i <= |nodes|
    ensures p in FrontierFrom(nodes, i) <==> ValidPath(nodes, p) && p[0] >= i && Outermost(nodes, p)
    decreases nodes, |nodes| - i, 1
  {
    hide FrontierAt, Outermost;
    if i < |nodes| {
      FrontierAtIff(nodes, i, p);
      FrontierIff(nodes, i + 1, p);
    }
  }

  lemma PrefixedIff(i: nat, paths: seq<seq<nat>>, p: seq<nat>)
    requires p != [] && p[0] == i
    ensures p in Prefixed(i, paths) <==> p[1..] in paths
  {
    if p in Prefixed(i, paths) {
      var k :| 0 <= k < |paths| && Prefixed(i, paths)[k] == p;
      assert p[1..] == paths[k];
    }
    if p[1..] in paths {
      var k :| 0 <= k < |paths| && paths[k] == p[1..];
      assert Prefixed(i, paths)[k] == [i] + p[1..] == p;
    }
  }

  lemma PrefixedOther(i: nat, paths: seq<seq<nat>>, p: seq<nat>)
    requires p == [] || p[0] != i
    ensures p !in Prefixed(i, paths)
  {
  }

  /** Preorder on paths. */
  predicate Precedes(p: seq<nat>, q: seq<nat>) {
    if q == [] then false
    else if p == [] then true
    else p[0] < q[0] || (p[0] == q[0] && Precedes(p[1..], q[1..]))
  }

  ghost predicate Ascending(paths: seq<seq<nat>>) {
    forall k, l :: 0 <= k < l < |paths| ==> Precedes(paths[k], paths[l])
  }

  lemma PrefixedAscending(i: nat, paths: seq<seq<nat>>)
    requires Ascending(paths)
    ensures Ascending(Prefixed(i, paths))
  {
    var r := Prefixed(i, paths);
    forall k, l | 0 <= k < l < |r|
      ensures Precedes(r[k], r[l])
    {
      assert r[k][1..] == paths[k] && r[l][1..] == paths[l];
      assert Precedes(paths[k], paths[l]);
    }
  }

  /** The frontier is listed in preorder, so each of its paths comes once. */
  lemma {:induction false} FrontierAscending(nodes: seq<Node>, i: nat)
    requires i <= |nodes|
    ensures Ascending(FrontierFrom(nodes, i))
    ensures forall p :: p in FrontierFrom(nodes, i) ==> p != [] && p[0] >= i
    decreases nodes, |nodes| - i
  {
    if i < |nodes| {
      FrontierAscending(nodes, i + 1);
      var first, rest := [[i]], FrontierFrom(nodes, i + 1);
      if nodes[i].own.None? {
        FrontierAscending(nodes[i].kids, 0);
        PrefixedAscending(i, FrontierFrom(nodes[i].kids, 0));
        first := Prefixed(i, FrontierFrom(nodes[i].kids, 0));
      }
      assert forall k :: 0 <= k < |first| ==> first[k] != [] && first[k][0] == i;
      assert FrontierFrom(nodes, i) == first + rest;
      assert forall k :: 0 <= k < |rest| ==> rest[k] in rest;
    }
  }

  /** The entries of the nodes at the given paths, one after the other. */
  function Gather(nodes: seq<Node>, paths: seq<seq<nat>>): seq<Range<Func>>
    requires forall k :: 0 <= k < |paths| ==> ValidPath(nodes, paths[k])
  {
    if paths == [] then [] else ContractNode(NodeAt(nodes, paths[0])) + Gather(nodes, paths[1..])
  }

  lemma {:induction false} GatherAppend(nodes: seq<Node>, a: seq<seq<nat>>, b: seq<seq<nat>>)
    requires forall k :: 0 <= k < |a| ==> ValidPath(nodes, a[k])
    requires forall k :: 0 <= k < |b| ==> ValidPath(nodes, b[k])
    ensures Gather(nodes, a + b) == Gather(nodes, a) + Gather(nodes, b)
  {
    hide ValidPath, ContractNode, NodeAt;
    if a == [] {
      assert a + b == b;
    } else {
      GatherAppend(nodes, a[1..], b);
      assert (a + b)[1..] == a[1..] + b;
    }
  }

  lemma {:induction false} GatherPrefixed(nodes: seq<Node>, i: nat, paths: seq<seq<nat>>)
    requires i < |nodes| && forall k :: 0 <= k < |paths| ==> ValidPath(nodes[i].kids, paths[k])
    ensures forall k :: 0 <= k < |paths| ==> ValidPath(nodes, Prefixed(i, paths)[k])
    ensures Gather(nodes, Prefixed(i, paths)) == Gather(nodes[i].kids, paths)
  {
    hide ContractNode;
    forall k | 0 <= k < |paths|
      ensures ValidPath(nodes, Prefixed(i, paths)[k])
    {
      assert Prefixed(i, paths)[k][1..] == paths[k];
    }
    if paths != [] {
      GatherPrefixed(nodes, i, paths[1..]);
      assert Prefixed(i, paths)[1..] == Prefixed(i, paths[1..]);
      assert Prefixed(i, paths)[0][1..] == paths[0];
    }
  }

  lemma FrontierValid(nodes: seq<Node>, i: nat)
    requires i <= |nodes|
    ensures forall k :: 0 <= k < |FrontierFrom(nodes, i)| ==> ValidPath(nodes, FrontierFrom(nodes, i)[k])
  {
    hide FrontierFrom;
    forall k | 0 <= k < |FrontierFrom(nodes, i)|
      ensures ValidPath(nodes, FrontierFrom(nodes, i)[k])
    {
      FrontierIff(nodes, i, FrontierFrom(nodes, i)[k]);
    }
  }

  /**
   * The contracted forest lists, in preorder, the kept nodes without a kept ancestor. Applied to the
   * children of a kept node, it says which nodes have that node for their nearest kept ancestor.
   */
  lemma {:induction false} ContractIsFrontier(nodes: seq<Node>, i: nat)
    requires i <= |nodes|
    ensures forall k :: 0 <= k < |FrontierFrom(nodes, i)| ==> ValidPath(nodes, FrontierFrom(nodes, i)[k])
    ensures Contract(nodes[i..]) == Gather(nodes, FrontierFrom(nodes, i))
    decreases nodes, |nodes| - i
  {
    hide Prefixed, SortEntries, Tag;
    FrontierValid(nodes, i);
    if i < |nodes| {
      var n, rest := nodes[i], FrontierFrom(nodes, i + 1);
      ContractIsFrontier(nodes, i + 1);
      assert nodes[i..][1..] == nodes[i + 1..];
      if n.own.Some? {
        GatherAppend(nodes, [[i]], rest);
        GatherSingle(nodes, [i]);
      } else {
        var paths := FrontierFrom(n.kids, 0);
        ContractIsFrontier(n.kids, 0);
        assert n.kids[0..] == n.kids;
        GatherPrefixed(nodes, i, paths);
        GatherAppend(nodes, Prefixed(i, paths), rest);
      }
    }
  }

  lemma GatherSingle(nodes: seq<Node>, p: seq<nat>)
    requires ValidPath(nodes, p)
    ensures Gather(nodes, [p]) == ContractNode(NodeAt(nodes, p))
  {
    hide ContractNode, NodeAt, ValidPath;
    assert [p][1..] == [];
    assert ContractNode(NodeAt(nodes, p)) + [] == ContractNode(NodeAt(nodes, p));
  }
}
