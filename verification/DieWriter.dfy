// Functions described by their attributes and range lists, written out as entries of .debug_info and lists of
// .debug_ranges, and what read_function_entry makes of them.
module DieWriter {
  import opened Words
  import L = Leb128
  import opened Readers
  import opened Attributes
  import opened AttributeForms
  import opened Abbrevs
  import opened AddressRanges
  import opened DieWalk
  import opened DieAttributes
  import F = DieForest

  // ---------------------------------------------------------------------------
  // Attributes
  // ---------------------------------------------------------------------------

  predicate Written(u: Unit, items: seq<Item>) {
    forall k :: 0 <= k < |items| ==> CanWrite(u, items[k].written) && Means(u, items[k].written, items[k].value)
  }

  function AttrsOf(items: seq<Item>): (r: seq<Attr>)
    ensures |r| == |items| && forall k :: 0 <= k < |r| ==> r[k] == AttrOf(items[k])
  {
    seq(|items|, k requires 0 <= k < |items| => AttrOf(items[k]))
  }

  function ValuesOf(u: Unit, items: seq<Item>): (r: seq<seq<byte>>)
    requires Written(u, items)
    ensures |r| == |items| && forall k :: 0 <= k < |r| ==> r[k] == Write(u, items[k].written)
  {
    seq(|items|, k requires 0 <= k < |items| => Write(u, items[k].written))
  }

  lemma TextBytes(section: seq<byte>, offset: nat, text: seq<byte>)
    requires IsTextAt(section, offset, text)
    ensures forall j :: offset <= j < offset + |text| ==> section[j] == text[j - offset] != 0
  {
    var t := section[offset..offset + |text|];
    forall j | offset <= j < offset + |text|
      ensures section[j] == text[j - offset] && text[j - offset] != 0
    {
      assert section[j] == t[j - offset] && text[j - offset] in text;
    }
  }

  lemma TextUnique(section: seq<byte>, offset: nat, a: seq<byte>, b: seq<byte>)
    requires IsTextAt(section, offset, a) && IsTextAt(section, offset, b)
    ensures a == b
  {
    TextBytes(section, offset, a);
    TextBytes(section, offset, b);
    assert |a| == |b|;
  }

  lemma {:induction false} MeansUnique(u: Unit, v: FormValue, a: AttrVal, b: AttrVal)
    requires Means(u, v, a) && Means(u, v, b)
    ensures a == b
    decreases v
  {
    match v {
      case TextAt(o) => TextUnique(u.strSection, o, a.text, b.text);
      case Indirectly(inner) => MeansUnique(u, inner, a, b);
      case _ =>
    }
  }

  lemma ItemReads(u: Unit, i: Item)
    requires CanWrite(u, i.written) && Means(u, i.written, i.value)
    ensures F.Exact(u, Code(i.written), Write(u, i.written))
    ensures ReadAttribute(u, Code(i.written), Write(u, i.written)).value == Some(i.value)
  {
    hide ReadAttribute, Write, Means;
    AttributeRoundTrip(u, i.written, []);
    assert Write(u, i.written) + [] == Write(u, i.written);
    MeansUnique(u, i.written, i.value, ReadAttribute(u, Code(i.written), Write(u, i.written)).value.value);
  }

  lemma {:induction false} AbsorbFirst(c: Ctx, tag: nat, items: seq<Item>, f: Facts)
    requires items != []
    ensures AbsorbAll(c, tag, items, f) ==
      match Absorb(c, tag, AttrOf(items[0]), items[0].value, f)
      case None => None
      case Some(g) => AbsorbAll(c, tag, items[1..], g)
    decreases |items|
  {
    hide Absorb, AttrOf;
    var n := |items| - 1;
    if n == 0 {
      assert items[..0] == [] && items[1..] == [];
    } else {
      AbsorbFirst(c, tag, items[..n], f);
      assert items[..n][1..] == items[1..][..n - 1];
    }
  }

  /** Reading the bytes of the values is absorbing the values. */
  lemma {:induction false} ItemsRead(c: Ctx, tag: nat, items: seq<Item>, f: Facts)
    requires Written(c.unit, items)
    ensures F.FactsOf(c, tag, AttrsOf(items), ValuesOf(c.unit, items), f) == AbsorbAll(c, tag, items, f)
    ensures F.ExactValues(c, AttrsOf(items), ValuesOf(c.unit, items))
    decreases |items|
  {
    hide Absorb, ReadAttribute, Write, AbsorbAll, Means, CanWrite, F.Exact;
    forall k | 0 <= k < |items|
      ensures F.Exact(c.unit, AttrsOf(items)[k].form, ValuesOf(c.unit, items)[k])
    {
      ItemReads(c.unit, items[k]);
    }
    if items == [] {
      AbsorbNone(c, tag, f);
    } else {
      ItemReads(c.unit, items[0]);
      AbsorbFirst(c, tag, items, f);
      assert AttrsOf(items)[1..] == AttrsOf(items[1..]) && ValuesOf(c.unit, items)[1..] == ValuesOf(c.unit, items[1..]);
      var g := Absorb(c, tag, AttrOf(items[0]), items[0].value, f);
      if g.Some? {
        ItemsRead(c, tag, items[1..], g.value);
      }
    }
  }

  lemma AbsorbNone(c: Ctx, tag: nat, f: Facts)
    ensures AbsorbAll(c, tag, [], f) == Some(f)
  {
  }

  // ---------------------------------------------------------------------------
  // Range lists (section 2.17.3 of DWARF 4)
  // ---------------------------------------------------------------------------

  /** A pair of addresses relative to the base in force, or the selection of another base. */
  datatype Piece = Pair(low: nat, high: nat) | Select(base: word)

  predicate PieceFits(u: Unit, p: Piece) {
    var top := Pow256(u.addrsize) - 1;
    match p
    case Pair(low, high) => low < top && high <= top && !(low == 0 && high == 0)
    case Select(base) => base <= top
  }

  predicate ListFits(u: Unit, list: seq<Piece>) {
    u.addrsize in {1, 2, 4, 8} && forall k :: 0 <= k < |list| ==> PieceFits(u, list[k])
  }

  function WritePair(u: Unit, low: nat, high: nat): seq<byte> {
    EncodeUInt(low, u.addrsize, u.bigEndian) + EncodeUInt(high, u.addrsize, u.bigEndian)
  }

  /** The list, with the pair 0, 0 at its end; the highest address marks a base. */
  function WriteList(u: Unit, list: seq<Piece>): seq<byte> {
    if list == [] then WritePair(u, 0, 0)
    else
      var p := list[0];
      (if p.Pair? then WritePair(u, p.low, p.high) else WritePair(u, Pow256(u.addrsize) - 1, p.base)) + WriteList(u, list[1..])
  }

  /** The half-open ranges that a list stands for. */
  function RangesOf(list: seq<Piece>, base: word): seq<Range<()>> {
    if list == [] then []
    else match list[0]
      case Pair(low, high) => [Range(Wrap64(base + low), Wrap64(base + high), ())] + RangesOf(list[1..], base)
      case Select(b) => RangesOf(list[1..], b)
  }

  lemma PairReads(u: Unit, low: nat, high: nat, x: seq<byte>)
    requires u.addrsize in {1, 2, 4, 8} && low < Pow256(u.addrsize) && high < Pow256(u.addrsize)
    ensures ReadAddress(WritePair(u, low, high) + x, u.addrsize, u.bigEndian)
         == Read(low, EncodeUInt(high, u.addrsize, u.bigEndian) + x, false)
    ensures ReadAddress(EncodeUInt(high, u.addrsize, u.bigEndian) + x, u.addrsize, u.bigEndian) == Read(high, x, false)
  {
    hide EncodeUInt, ReadUInt;
    var h := EncodeUInt(high, u.addrsize, u.bigEndian);
    ReadEncodedUInt(low, u.addrsize, u.bigEndian, h + x);
    ReadEncodedUInt(high, u.addrsize, u.bigEndian, x);
    assert WritePair(u, low, high) + x == EncodeUInt(low, u.addrsize, u.bigEndian) + (h + x);
  }

  lemma HighestAddress(addrsize: nat, a: nat)
    requires addrsize in {1, 2, 4, 8}
    ensures IsHighestAddress(a, addrsize) <==> a == Pow256(addrsize) - 1
    ensures 1 < Pow256(addrsize) <= U64
  {
    assert Pow256(1) == 256 && Pow256(2) == U16;
    assert Pow256(4) == 256 * (256 * Pow256(2));
    assert Pow256(8) == 256 * (256 * (256 * (256 * Pow256(4))));
  }

  /** One pair in front of s. */
  lemma ParsePair(u: Unit, low: nat, high: nat, s: seq<byte>, base: word)
    requires u.addrsize in {1, 2, 4, 8} && low < Pow256(u.addrsize) && high < Pow256(u.addrsize)
    ensures ParseRanges(u, WritePair(u, low, high) + s, base) ==
      if low == 0 && high == 0 then Read([], s, false)
      else if low == Pow256(u.addrsize) - 1 then ParseRanges(u, s, Wrap64(high))
      else var q := ParseRanges(u, s, base); q.(value := [Range(Wrap64(low + base), Wrap64(high + base), ())] + q.value)
  {
    hide WritePair, Readers.ReadAddress, EncodeUInt, IsHighestAddress, Wrap64;
    PairReads(u, low, high, s);
    HighestAddress(u.addrsize, low);
    var t := WritePair(u, low, high) + s;
    var l := Readers.ReadAddress(t, u.addrsize, u.bigEndian);
    var h := Readers.ReadAddress(l.rest, u.addrsize, u.bigEndian);
    assert l.value == low && h == Read(high, s, false) && !l.short;
  }

  /** A written list, in front of any bytes, gives exactly its ranges. */
  lemma {:induction false} RangeListRoundTrip(u: Unit, list: seq<Piece>, base: word, x: seq<byte>)
    requires ListFits(u, list)
    ensures ParseRanges(u, WriteList(u, list) + x, base) == Read(RangesOf(list, base), x, false)
    decreases |list|
  {
    hide WritePair, ParseRanges, Wrap64, Pow256;
    if list == [] {
      ParsePair(u, 0, 0, x, base);
    } else {
      var p, y := list[0], WriteList(u, list[1..]) + x;
      assert PieceFits(u, p);
      match p {
        case Pair(low, high) =>
          assert WriteList(u, list) + x == WritePair(u, low, high) + y;
          ParsePair(u, low, high, y, base);
          RangeListRoundTrip(u, list[1..], base, x);
          assert low + base == base + low && high + base == base + high;
        case Select(b) =>
          assert WriteList(u, list) + x == WritePair(u, Pow256(u.addrsize) - 1, b) + y;
          ParsePair(u, Pow256(u.addrsize) - 1, b, y, base);
          HighestAddress(u.addrsize, b);
          WrapWord(b);
          RangeListRoundTrip(u, list[1..], b, x);
      }
    }
  }

  lemma WrapWord(w: word)
    ensures Wrap64(w) == w
  {
    WrapUnique(w, 0, w);
  }

  // ---------------------------------------------------------------------------
  // The ranges of one entry
  // ---------------------------------------------------------------------------

  /** The lists that .debug_ranges holds, by their offsets. */
  predicate ListsAt(c: Ctx, lists: map<nat, seq<Piece>>) {
    forall o :: o in lists ==> o < |c.rangesSection| && ListFits(c.unit, lists[o]) && WriteList(c.unit, lists[o]) <= c.rangesSection[o..]
  }

  /** A function is kept when it has a name and ranges: those of its list, else from its low to its high pc. */
  function OwnOf(c: Ctx, lists: map<nat, seq<Piece>>, tag: nat, items: seq<Item>, base: word): Option<seq<Range<()>>> {
    if !IsFunction(tag) || NameOf(c, items) == None then None
    else match NumberOf(Last(c, RangeList, items))
      case Some(o) => if o in lists then Some(RangesOf(lists[o], base)) else None
      case None =>
        match SpanOf(c, items)
        case Some(r) => Some([r])
        case None => None
  }

  /** A named function refers to a list that is there. */
  predicate ListExists(c: Ctx, lists: map<nat, seq<Piece>>, tag: nat, items: seq<Item>) {
    var o := NumberOf(Last(c, RangeList, items));
    IsFunction(tag) && NameOf(c, items).Some? && o.Some? ==> o.value in lists
  }

  lemma ListParsed(c: Ctx, lists: map<nat, seq<Piece>>, o: nat, base: word)
    requires ListsAt(c, lists) && o in lists
    ensures var r := ParseRanges(c.unit, c.rangesSection[o..], base); r.value == RangesOf(lists[o], base) && !r.short
  {
    hide ParseRanges, WriteList;
    var s, n := c.rangesSection[o..], |WriteList(c.unit, lists[o])|;
    assert s == WriteList(c.unit, lists[o]) + s[n..];
    RangeListRoundTrip(c.unit, lists[o], base, s[n..]);
  }

  lemma OwnIs(c: Ctx, lists: map<nat, seq<Piece>>, tag: nat, items: seq<Item>, base: word, f: Facts)
    requires Describes(c, tag, items, base, f) && ListsAt(c, lists) && ListExists(c, lists, tag, items)
    ensures var own := OwnOf(c, lists, tag, items, base);
      OwnRanges(c, tag, f) == if own == None then NotKept else Kept(own.value)
  {
    hide ParseRanges, RangesOf, NameOf, FileOf, LineOf, Wrap64, ListsAt, Last;
    if IsFunction(tag) {
      NotAUnit(c, tag, items, base);
      if f.name.Some? && f.ranges.Some? {
        ListParsed(c, lists, f.ranges.value, base);
        ListInside(c, lists, f.ranges.value);
      } else if f.lowpc.Some? && f.highpc.Some? {
        var low, high := NumberOf(Last(c, Low, items)).value, NumberOf(Last(c, High, items)).value;
        WrapBoth(low, high);
      }
    }
  }

  lemma NotAUnit(c: Ctx, tag: nat, items: seq<Item>, base: word)
    requires IsFunction(tag)
    ensures BaseOf(c, tag, items, base) == base
  {
  }

  lemma ListInside(c: Ctx, lists: map<nat, seq<Piece>>, o: nat)
    requires ListsAt(c, lists) && o in lists
    ensures o < |c.rangesSection|
  {
  }

  lemma WrapBoth(a: int, b: int)
    ensures Wrap64(Wrap64(b) + Wrap64(a)) == Wrap64(a + b)
  {
    WrapSum(Wrap64(b), a);
    WrapSum(a, b);
    assert Wrap64(b) + a == a + Wrap64(b) && Wrap64(a) + Wrap64(b) == Wrap64(b) + Wrap64(a);
  }

  // ---------------------------------------------------------------------------
  // What fails
  // ---------------------------------------------------------------------------

  /** The pairs of a list without the pair 0, 0 at its end. */
  function WriteOpen(u: Unit, list: seq<Piece>): seq<byte> {
    if list == [] then []
    else
      var p := list[0];
      (if p.Pair? then WritePair(u, p.low, p.high) else WritePair(u, Pow256(u.addrsize) - 1, p.base)) + WriteOpen(u, list[1..])
  }

  /** When the section ends before a list does, reading it fails. */
  lemma {:induction false} OpenListFails(u: Unit, list: seq<Piece>, base: word)
    requires ListFits(u, list)
    ensures ParseRanges(u, WriteOpen(u, list), base).short
    decreases |list|
  {
    hide WritePair, ParseRanges, Wrap64, Pow256;
    if list == [] {
      NothingToParse(u, base);
    } else {
      var p, y := list[0], WriteOpen(u, list[1..]);
      assert PieceFits(u, p);
      HighestAddress(u.addrsize, 0);
      match p {
        case Pair(low, high) =>
          ParsePair(u, low, high, y, base);
          OpenListFails(u, list[1..], base);
        case Select(b) =>
          ParsePair(u, Pow256(u.addrsize) - 1, b, y, base);
          OpenListFails(u, list[1..], Wrap64(b));
      }
    }
  }

  lemma NothingToParse(u: Unit, base: word)
    requires u.addrsize in {1, 2, 4, 8}
    ensures ParseRanges(u, [], base).short
  {
    hide UInt;
  }

  /** A list outside of .debug_ranges, or one that runs out of it, makes a named function an error. */
  lemma BadListIsError(c: Ctx, tag: nat, items: seq<Item>, base: word, f: Facts)
    requires Describes(c, tag, items, base, f) && IsFunction(tag) && NameOf(c, items).Some?
    requires NumberOf(Last(c, RangeList, items)).Some?
    ensures var o := NumberOf(Last(c, RangeList, items)).value;
      OwnRanges(c, tag, f).Bad? <==> o >= |c.rangesSection| || ParseRanges(c.unit, c.rangesSection[o..], base).short
  {
    hide ParseRanges, NameOf, FileOf, LineOf, Last;
    NotAUnit(c, tag, items, base);
  }

  /** A code that the abbreviations do not have ends the walk. */
  lemma UnknownCodeFails(c: Ctx, code: word, t: seq<byte>, base: word)
    requires code > 0 && LookupAbbrev(c.abbrevs, code) == None
    ensures WalkLevel(c, L.EncodeUnsigned(code) + t, base) == Walk(false, [], t)
  {
    hide L.EncodeUnsigned, ReadULeb, WalkEntry, LookupAbbrev;
    ReadEncodedULeb(code, t);
    NotEmptyCode(code, t);
  }

  lemma NotEmptyCode(code: word, t: seq<byte>)
    ensures L.EncodeUnsigned(code) + t != []
  {
    L.UnsignedRoundTrip(code);
  }

  // ---------------------------------------------------------------------------
  // Entries with their children
  // ---------------------------------------------------------------------------

  datatype Desc = Desc(code: word, tag: nat, items: seq<Item>, hasChildren: bool, kids: seq<Desc>)

  function AbbrevOf(d: Desc): Abbrev {
    Abbrev(d.code, d.tag, d.hasChildren, AttrsOf(d.items))
  }

  /** The entry can be written, its abbreviation is in the table, and what it refers to is there. */
  predicate Fine(c: Ctx, lists: map<nat, seq<Piece>>, d: Desc, base: word)
    decreases d
  {
    && FineHead(c, lists, d)
    && FineAll(c, lists, d.kids, BaseOf(c, d.tag, d.items, base)) && (!d.hasChildren ==> d.kids == [])
  }

  predicate FineHead(c: Ctx, lists: map<nat, seq<Piece>>, d: Desc) {
    && d.code > 0 && Written(c.unit, d.items)
    && LookupAbbrev(c.abbrevs, d.code).Some? && c.abbrevs[LookupAbbrev(c.abbrevs, d.code).value] == AbbrevOf(d)
    && (IsFunction(d.tag) ==> FilesExist(c, d.items)) && ListExists(c, lists, d.tag, d.items)
  }

  predicate FineAll(c: Ctx, lists: map<nat, seq<Piece>>, descs: seq<Desc>, base: word)
    decreases descs
  {
    descs == [] ||
      (Fine(c, lists, descs[0], base) && FineAll(c, lists, descs[1..], BaseOf(c, descs[0].tag, descs[0].items, base)))
  }

  function ToDie(c: Ctx, lists: map<nat, seq<Piece>>, d: Desc, base: word): F.Die
    requires Fine(c, lists, d, base)
    decreases d
  {
    F.Die(L.EncodeUnsigned(d.code), AbbrevOf(d), ValuesOf(c.unit, d.items),
          ToForest(c, lists, d.kids, BaseOf(c, d.tag, d.items, base)))
  }

  function ToForest(c: Ctx, lists: map<nat, seq<Piece>>, descs: seq<Desc>, base: word): (r: seq<F.Die>)
    requires FineAll(c, lists, descs, base)
    ensures |r| == |descs|
    decreases descs
  {
    if descs == [] then []
    else [ToDie(c, lists, descs[0], base)] + ToForest(c, lists, descs[1..], BaseOf(c, descs[0].tag, descs[0].items, base))
  }

  /** What the descriptions say: which entries are kept, with which name, call site and ranges. */
  function NodeOf(c: Ctx, lists: map<nat, seq<Piece>>, d: Desc, base: word): F.Node
    decreases d
  {
    var own := OwnOf(c, lists, d.tag, d.items, base);
    F.Node(if own == None then None
           else Some(F.FuncInfo(NameOf(c, d.items).value, FileOf(c, d.items), LineOf(c, d.items), Merged(own.value, c.baseAddress))),
           NodesOf(c, lists, d.kids, BaseOf(c, d.tag, d.items, base)))
  }

  function NodesOf(c: Ctx, lists: map<nat, seq<Piece>>, descs: seq<Desc>, base: word): seq<F.Node>
    decreases descs
  {
    if descs == [] then []
    else [NodeOf(c, lists, descs[0], base)] + NodesOf(c, lists, descs[1..], BaseOf(c, descs[0].tag, descs[0].items, base))
  }

  lemma HeadIs(c: Ctx, lists: map<nat, seq<Piece>>, d: Desc, base: word, kids: seq<F.Die>)
    requires FineHead(c, lists, d) && ListsAt(c, lists)
    ensures var die := F.Die(L.EncodeUnsigned(d.code), AbbrevOf(d), ValuesOf(c.unit, d.items), kids);
      && F.WellFormedHead(c, die, base)
      && Describes(c, d.tag, d.items, base, F.HeadFacts(c, die, base))
      && OwnRanges(c, d.tag, F.HeadFacts(c, die, base)) ==
           var own := OwnOf(c, lists, d.tag, d.items, base); if own == None then NotKept else Kept(own.value)
  {
    hide F.FactsOf, AbsorbAll, Describes, OwnRanges, OwnOf, LookupAbbrev, L.Encoding, L.Accumulated, F.ExactValues, ListsAt,
      ListExists, FilesExist, Written, Write, L.EncodeUnsigned;
    L.UnsignedRoundTrip(d.code);
    ItemsRead(c, d.tag, d.items, NoFacts(base));
    AttributesDescribe(c, d.tag, d.items, base);
    OwnIs(c, lists, d.tag, d.items, base, AbsorbAll(c, d.tag, d.items, NoFacts(base)).value);
  }

  lemma DescribesBase(c: Ctx, tag: nat, items: seq<Item>, base: word, f: Facts)
    requires Describes(c, tag, items, base, f)
    ensures f.base == BaseOf(c, tag, items, base)
    ensures IsFunction(tag) ==> f.name == NameOf(c, items) && f.callerFile == FileOf(c, items) && f.callerLine == LineOf(c, items)
  {
  }

  lemma {:induction false} DieIs(c: Ctx, lists: map<nat, seq<Piece>>, d: Desc, base: word)
    requires Fine(c, lists, d, base) && ListsAt(c, lists)
    ensures var die := ToDie(c, lists, d, base);
      && F.WellFormedDie(c, die, base) && F.HeadFacts(c, die, base).base == BaseOf(c, d.tag, d.items, base)
      && F.ResolveDie(c, die, base) == NodeOf(c, lists, d, base)
    decreases d, 1
  {
    hide FineHead, F.WellFormedHead, F.HeadFacts, OwnRanges, OwnOf, Describes, NameOf, FileOf, LineOf, BaseOf, Merged, ListsAt;
    var next := BaseOf(c, d.tag, d.items, base);
    var kids := ToForest(c, lists, d.kids, next);
    HeadIs(c, lists, d, base, kids);
    var die := ToDie(c, lists, d, base);
    DescribesBase(c, d.tag, d.items, base, F.HeadFacts(c, die, base));
    KeptIsFunction(c, lists, d.tag, d.items, base);
    ForestIs(c, lists, d.kids, next);
    if !d.hasChildren {
      NoNodes(c, lists, d.kids, next);
    }
  }

  lemma KeptIsFunction(c: Ctx, lists: map<nat, seq<Piece>>, tag: nat, items: seq<Item>, base: word)
    ensures OwnOf(c, lists, tag, items, base).Some? ==> IsFunction(tag) && NameOf(c, items).Some?
  {
  }

  lemma NoNodes(c: Ctx, lists: map<nat, seq<Piece>>, descs: seq<Desc>, base: word)
    requires descs == []
    ensures FineAll(c, lists, descs, base) && NodesOf(c, lists, descs, base) == [] && ToForest(c, lists, descs, base) == []
  {
  }

  lemma {:induction false} ForestIs(c: Ctx, lists: map<nat, seq<Piece>>, descs: seq<Desc>, base: word)
    requires FineAll(c, lists, descs, base) && ListsAt(c, lists)
    ensures var forest := ToForest(c, lists, descs, base);
      F.WellFormed(c, forest, base) && F.Resolve(c, forest, base) == NodesOf(c, lists, descs, base)
    decreases descs, 0
  {
    hide Fine, F.WellFormedDie, F.HeadFacts, F.ResolveDie, NodeOf, BaseOf, ListsAt, ToDie;
    if descs != [] {
      var next := BaseOf(c, descs[0].tag, descs[0].items, base);
      DieIs(c, lists, descs[0], base);
      ForestIs(c, lists, descs[1..], next);
      var forest := ToForest(c, lists, descs, base);
      assert forest[1..] == ToForest(c, lists, descs[1..], next);
    }
  }

  /** A unit written from descriptions is walked to its end, and gives the functions that they describe. */
  lemma DescribedUnit(c: Ctx, lists: map<nat, seq<Piece>>, descs: seq<Desc>)
    requires FineAll(c, lists, descs, 0) && ListsAt(c, lists)
    ensures WalkUnit(c, F.EncodeForest(ToForest(c, lists, descs, 0))) == Walk(true, F.Contract(NodesOf(c, lists, descs, 0)), [])
  {
    hide FineAll, ListsAt, ToForest, NodesOf, F.EncodeForest, F.Contract, F.WellFormed, F.Resolve, WalkUnit;
    ForestIs(c, lists, descs, 0);
    F.WalkEncodedUnit(c, ToForest(c, lists, descs, 0));
  }

  // ---------------------------------------------------------------------------
  // Functions with one range each
  // ---------------------------------------------------------------------------

  /** A named function with a low and a high pc, and nothing inlined into it. */
  predicate Plain(c: Ctx, d: Desc) {
    && IsFunction(d.tag) && NameOf(c, d.items).Some? && SpanOf(c, d.items).Some? && d.kids == []
    && Last(c, RangeList, d.items) == None
  }

  /** Where it is in memory: from the low pc up to the high pc, both moved by the module's base address. */
  function PlainEntry(c: Ctx, d: Desc): Range<Func>
    requires Plain(c, d)
  {
    var low, high := NumberOf(Last(c, Low, d.items)).value, NumberOf(Last(c, High, d.items)).value;
    var end := if Last(c, HighOffset, d.items).Some? then low + high else high;
    Range(Wrap64(c.baseAddress + low), Wrap64(c.baseAddress + end),
          Func(NameOf(c, d.items).value, FileOf(c, d.items), LineOf(c, d.items), []))
  }

  lemma MergedOne(low: int, high: int, base: word)
    ensures Merged([Range(Wrap64(low), Wrap64(high), ())], base) == [Range(Wrap64(base + low), Wrap64(base + high), ())]
  {
    hide Wrap64;
    var r := Range(Wrap64(low), Wrap64(high), ());
    WrapSum(base, low);
    WrapSum(base, high);
    assert Wrap64(low) + base == base + Wrap64(low) && Wrap64(high) + base == base + Wrap64(high);
    var x := Range(Wrap64(base + low), Wrap64(base + high), ());
    assert Rebase(r, base) == x;
    assert RebaseAll([r], base) == [x];
    var none: seq<Range<()>> := [];
    assert [x][..0] == none && AddRanges(none, none) == none;
    assert AddRange(none, x) == none + [x] == [x];
  }

  lemma PlainNode(c: Ctx, lists: map<nat, seq<Piece>>, d: Desc, base: word)
    requires Plain(c, d)
    ensures F.ContractNode(NodeOf(c, lists, d, base)) == [PlainEntry(c, d)] && BaseOf(c, d.tag, d.items, base) == base
  {
    hide NameOf, FileOf, LineOf, Merged, Last, Wrap64;
    var low, high := NumberOf(Last(c, Low, d.items)).value, NumberOf(Last(c, High, d.items)).value;
    var end := if Last(c, HighOffset, d.items).Some? then low + high else high;
    MergedOne(low, end, c.baseAddress);
    NothingSorted();
  }

  lemma NothingSorted()
    ensures SortEntries([]) == [] && F.Contract([]) == []
  {
  }

  lemma {:induction false} PlainNodes(c: Ctx, lists: map<nat, seq<Piece>>, descs: seq<Desc>, base: word)
    requires forall k :: 0 <= k < |descs| ==> Plain(c, descs[k])
    ensures F.Contract(NodesOf(c, lists, descs, base)) == seq(|descs|, k requires 0 <= k < |descs| => PlainEntry(c, descs[k]))
  {
    hide Plain, PlainEntry, NodeOf, F.ContractNode, BaseOf;
    if descs == [] {
      NothingSorted();
    } else {
      PlainNode(c, lists, descs[0], base);
      PlainNodes(c, lists, descs[1..], base);
      var nodes := NodesOf(c, lists, descs, base);
      assert nodes[1..] == NodesOf(c, lists, descs[1..], base);
    }
  }

  /** A written unit of such functions gives each of them at its half-open range, with its name and call site. */
  lemma PlainFunctions(c: Ctx, lists: map<nat, seq<Piece>>, descs: seq<Desc>, k: nat)
    requires FineAll(c, lists, descs, 0) && ListsAt(c, lists) && forall k :: 0 <= k < |descs| ==> Plain(c, descs[k])
    requires k < |descs|
    ensures var w := WalkUnit(c, F.EncodeForest(ToForest(c, lists, descs, 0)));
      w.ok && |w.entries| == |descs| && w.entries[k] == PlainEntry(c, descs[k])
  {
    hide FineAll, ListsAt, ToForest, NodesOf, F.EncodeForest, F.Contract, Plain, PlainEntry, WalkUnit;
    DescribedUnit(c, lists, descs);
    PlainNodes(c, lists, descs, 0);
  }
}
