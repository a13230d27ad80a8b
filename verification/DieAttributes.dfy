// What the attributes of an entry say of a function, whatever their order and forms, and which of several counts.
module DieAttributes {
  import opened Words
  import opened Readers
  import opened Attributes
  import opened AttributeForms
  import opened Abbrevs
  import opened AddressRanges
  import opened DieWalk
  import F = DieForest
  import LM = LineMachine

  /** An attribute: its name, how its value is written, and what that value means. */
  datatype Item = Item(name: nat, written: FormValue, value: AttrVal)

  /** What an attribute can contribute to a function. */
  datatype Kind = OtherName | PlainName | CallFile | CallLine | Low | High | HighOffset | RangeList

  function AttrOf(i: Item): Attr {
    Attr(i.name, Code(i.written))
  }

  predicate IsClass(v: AttrVal, k: ValueKind) {
    v.Number? && v.encoding == k
  }

  /** The names and classes of section 7.5.4 of DWARF 4; names through references in the same unit count when they are known. */
  predicate Is(c: Ctx, k: Kind, i: Item) {
    var v := i.value;
    match k
    case OtherName =>
      || ((i.name == 0x6e || i.name == 0x2007) && v.Text?)
      || ((i.name == 0x31 || i.name == 0x47) && Code(i.written) != 0x10 && Code(i.written) != 0x20
          && (IsClass(v, RefUnit) || IsClass(v, Unsigned)) && v.value in c.names)
    case PlainName => i.name == 0x03 && v.Text?
    case CallFile => i.name == 0x58 && IsClass(v, Unsigned)
    case CallLine => i.name == 0x59 && IsClass(v, Unsigned)
    case Low => i.name == 0x11 && IsClass(v, Address)
    case High => i.name == 0x12 && (IsClass(v, Address) || IsClass(v, Unsigned))
    case HighOffset => i.name == 0x12 && IsClass(v, Unsigned)
    case RangeList => i.name == 0x55 && (IsClass(v, Unsigned) || IsClass(v, RefSection))
  }

  /** The last attribute of the kind. */
  function Last(c: Ctx, k: Kind, items: seq<Item>): (r: Option<Item>)
    ensures r.Some? ==> r.value in items && Is(c, k, r.value)
  {
    if items == [] then None
    else
      var n := |items| - 1;
      if Is(c, k, items[n]) then Some(items[n]) else Last(c, k, items[..n])
  }

  function First(c: Ctx, k: Kind, items: seq<Item>): (r: Option<Item>)
    ensures r.Some? ==> r.value in items && Is(c, k, r.value)
  {
    if items == [] then None
    else if Is(c, k, items[0]) then Some(items[0])
    else First(c, k, items[1..])
  }

  // ---------------------------------------------------------------------------
  // The meaning of a list of attributes
  // ---------------------------------------------------------------------------

  /** The last linkage name, or name of an origin; only without one the first plain name. */
  function NameOf(c: Ctx, items: seq<Item>): Option<seq<byte>> {
    match Last(c, OtherName, items)
    case Some(i) => Some(if i.value.Text? then i.value.text else c.names[i.value.value])
    case None =>
      match First(c, PlainName, items)
      case Some(i) => Some(i.value.text)
      case None => None
  }

  function NumberOf(i: Option<Item>): Option<nat> {
    if i.Some? && i.value.value.Number? then Some(i.value.value.value) else None
  }

  /** Files count from 1, and 0 is the empty name. */
  function FileOf(c: Ctx, items: seq<Item>): Option<LM.File> {
    match NumberOf(Last(c, CallFile, items))
    case None => None
    case Some(n) => Some(if n == 0 then LM.NoName else LM.Table(n - 1))
  }

  function LineOf(c: Ctx, items: seq<Item>): int {
    match NumberOf(Last(c, CallLine, items))
    case None => 0
    case Some(n) => Signed32(n)
  }

  /** The first address, and the end: an address, or an offset from it. */
  function SpanOf(c: Ctx, items: seq<Item>): Option<Range<()>> {
    match NumberOf(Last(c, Low, items))
    case None => None
    case Some(low) =>
      match NumberOf(Last(c, High, items))
      case None => None
      case Some(high) =>
        Some(Range(Wrap64(low), Wrap64(if Last(c, HighOffset, items).Some? then low + high else high), ()))
  }

  /** The base of the ranges in an entry, its children and later siblings: a compilation unit sets it. */
  function BaseOf(c: Ctx, tag: nat, items: seq<Item>, base: word): word {
    match NumberOf(Last(c, Low, items))
    case None => base
    case Some(low) => if tag == 0x11 then Wrap64(low) else base
  }

  /** No call file is beyond the table of files. */
  predicate FilesExist(c: Ctx, items: seq<Item>) {
    forall i :: 0 <= i < |items| && Is(c, CallFile, items[i]) ==> items[i].value.value <= c.filenamesCount
  }

  predicate IsFunction(tag: nat) {
    tag in {0x03, 0x1d, 0x2e}
  }

  /** The local variables of read_function_entry hold what the attributes mean. */
  predicate Describes(c: Ctx, tag: nat, items: seq<Item>, base: word, f: Facts) {
    && f.base == BaseOf(c, tag, items, base)
    && (IsFunction(tag) ==>
         && f.name == NameOf(c, items) && f.callerFile == FileOf(c, items) && f.callerLine == LineOf(c, items)
         && DescribesPlace(c, items, f))
    && (!IsFunction(tag) ==> f.name == None)
  }

  predicate DescribesPlace(c: Ctx, items: seq<Item>, f: Facts) {
    && f.lowpc == Wrapped(NumberOf(Last(c, Low, items)))
    && f.highpc == Wrapped(NumberOf(Last(c, High, items)))
    && f.highIsRelative == Last(c, HighOffset, items).Some?
    && f.ranges == NumberOf(Last(c, RangeList, items))
  }

  function Wrapped(n: Option<nat>): Option<word> {
    if n.None? then None else Some(Wrap64(n.value))
  }

  // ---------------------------------------------------------------------------
  // The loop over the attributes
  // ---------------------------------------------------------------------------

  function AbsorbAll(c: Ctx, tag: nat, items: seq<Item>, f: Facts): Option<Facts> {
    if items == [] then Some(f)
    else match AbsorbAll(c, tag, items[..|items| - 1], f)
      case None => None
      case Some(g) => Absorb(c, tag, AttrOf(items[|items| - 1]), items[|items| - 1].value, g)
  }

  lemma LastAppend(c: Ctx, k: Kind, items: seq<Item>)
    requires items != []
    ensures var n := |items| - 1;
      Last(c, k, items) == if Is(c, k, items[n]) then Some(items[n]) else Last(c, k, items[..n])
  {
  }

  lemma {:induction false} FirstAppend(c: Ctx, k: Kind, items: seq<Item>)
    requires items != []
    ensures var n := |items| - 1;
      First(c, k, items) == if First(c, k, items[..n]).Some? then First(c, k, items[..n])
                            else if Is(c, k, items[n]) then Some(items[n]) else None
    decreases |items|
  {
    hide Is;
    var n := |items| - 1;
    if n > 0 {
      FirstAppend(c, k, items[1..]);
      assert items[1..][..n - 1] == items[..n][1..];
    }
  }

  lemma NameStep(c: Ctx, tag: nat, items: seq<Item>, g: Facts)
    requires items != [] && IsFunction(tag) && g.name == NameOf(c, items[..|items| - 1])
    ensures var i := items[|items| - 1];
      var r := Absorb(c, tag, AttrOf(i), i.value, g);
      r.Some? ==> r.value.name == NameOf(c, items)
  {
    hide First, Wrap64, Signed32;
    LastAppend(c, OtherName, items);
    FirstAppend(c, PlainName, items);
  }

  lemma CallStep(c: Ctx, tag: nat, items: seq<Item>, g: Facts)
    requires items != [] && IsFunction(tag)
    requires g.callerFile == FileOf(c, items[..|items| - 1]) && g.callerLine == LineOf(c, items[..|items| - 1])
    ensures var i := items[|items| - 1];
      var r := Absorb(c, tag, AttrOf(i), i.value, g);
      && (r == None <==> Is(c, CallFile, i) && i.value.value > c.filenamesCount)
      && (r.Some? ==> r.value.callerFile == FileOf(c, items) && r.value.callerLine == LineOf(c, items))
  {
    hide Wrap64, Signed32;
    LastAppend(c, CallFile, items);
    LastAppend(c, CallLine, items);
  }

  lemma PlaceStep(c: Ctx, tag: nat, items: seq<Item>, g: Facts)
    requires items != [] && IsFunction(tag) && DescribesPlace(c, items[..|items| - 1], g)
    ensures var i := items[|items| - 1];
      var r := Absorb(c, tag, AttrOf(i), i.value, g);
      r.Some? ==> DescribesPlace(c, items, r.value)
  {
    hide Wrap64, Signed32;
    LastAppend(c, Low, items);
    LastAppend(c, High, items);
    LastAppend(c, HighOffset, items);
    LastAppend(c, RangeList, items);
  }

  lemma BaseStep(c: Ctx, tag: nat, items: seq<Item>, base: word, g: Facts)
    requires items != [] && g.base == BaseOf(c, tag, items[..|items| - 1], base)
    ensures var i := items[|items| - 1];
      var r := Absorb(c, tag, AttrOf(i), i.value, g);
      && (r.Some? ==> r.value.base == BaseOf(c, tag, items, base))
      && (!IsFunction(tag) ==> r.Some? && r.value.name == g.name)
  {
    hide Wrap64, Signed32;
    LastAppend(c, Low, items);
  }

  lemma OneMore(c: Ctx, tag: nat, items: seq<Item>, base: word, g: Facts)
    requires items != [] && Describes(c, tag, items[..|items| - 1], base, g)
    ensures var i := items[|items| - 1];
      var r := Absorb(c, tag, AttrOf(i), i.value, g);
      && (r == None <==> IsFunction(tag) && Is(c, CallFile, i) && i.value.value > c.filenamesCount)
      && (r.Some? ==> Describes(c, tag, items, base, r.value))
  {
    hide Absorb, NameOf, FileOf, LineOf, BaseOf, DescribesPlace, Is;
    BaseStep(c, tag, items, base, g);
    if IsFunction(tag) {
      NameStep(c, tag, items, g);
      CallStep(c, tag, items, g);
      PlaceStep(c, tag, items, g);
    }
  }

  /** Reading attributes fails exactly when a function has a call file that does not exist, and else gives what they mean. */
  lemma {:induction false} AttributesDescribe(c: Ctx, tag: nat, items: seq<Item>, base: word)
    ensures var r := AbsorbAll(c, tag, items, NoFacts(base));
      && (r == None <==> IsFunction(tag) && !FilesExist(c, items))
      && (r.Some? ==> Describes(c, tag, items, base, r.value))
  {
    hide Absorb, Is, Describes;
    if items == [] {
      NothingDescribes(c, tag, base);
    } else {
      var n := |items| - 1;
      AttributesDescribe(c, tag, items[..n], base);
      assert forall i :: 0 <= i < n ==> items[..n][i] == items[i];
      var r := AbsorbAll(c, tag, items[..n], NoFacts(base));
      if r.Some? {
        OneMore(c, tag, items, base, r.value);
      }
    }
  }

  lemma NothingDescribes(c: Ctx, tag: nat, base: word)
    ensures Describes(c, tag, [], base, NoFacts(base))
  {
  }
}
