// The symbols of an ELF file: elf_initialize_syminfo, which counts, allocates and fills, and elf_syminfo.
module ElfSymbols {
  import opened Words
  import opened BinarySearch
  import opened Sorting

  /** The fields of Elf_Sym that are used. */
  datatype RawSym = RawSym(name: nat, info: byte, shndx: nat, value: word, size: word)

  /** struct elf_symbol; the name is its offset in the string table. */
  datatype Symbol = Symbol(name: nat, address: word, size: word)

  /** struct elf_syminfo_data. */
  datatype SymInfo = SymInfo(symbols: seq<Symbol>, baseAddress: word, symbolSize: word)

  const STT_OBJECT: nat := 1
  const STT_FUNC: nat := 2
  const SHN_UNDEF: nat := 0

  predicate Wanted(s: RawSym) {
    (s.info % 16 == STT_FUNC || s.info % 16 == STT_OBJECT) && s.shndx != SHN_UNDEF
  }

  function Relocated(s: RawSym, base: word): Symbol {
    Symbol(s.name, Wrap64(s.value + base), s.size)
  }

  /** The symbols that are kept, in the order of the table. */
  function Kept(syms: seq<RawSym>, base: word): seq<Symbol> {
    if syms == [] then []
    else
      var n := |syms| - 1;
      Kept(syms[..n], base) + if Wanted(syms[n]) then [Relocated(syms[n], base)] else []
  }

  /** The highest end of a kept symbol, as it is computed. */
  function SizeOf(syms: seq<RawSym>): word {
    if syms == [] then 0
    else
      var n := |syms| - 1;
      var size := SizeOf(syms[..n]);
      var end := Wrap64(syms[n].value + syms[n].size);
      if Wanted(syms[n]) && size < end then end else size
  }

  function AddressOf(s: Symbol): int {
    s.address
  }

  function SymbolTable(syms: seq<RawSym>, base: word): SymInfo {
    SymInfo(SortBy(Kept(syms, base), AddressOf), base, SizeOf(syms))
  }

  lemma KeptAppend(syms: seq<RawSym>, base: word, i: nat)
    requires i < |syms|
    ensures Kept(syms[..i + 1], base) == Kept(syms[..i], base) + if Wanted(syms[i]) then [Relocated(syms[i], base)] else []
    ensures SizeOf(syms[..i + 1]) == var end := Wrap64(syms[i].value + syms[i].size);
      if Wanted(syms[i]) && SizeOf(syms[..i]) < end then end else SizeOf(syms[..i])
  {
    assert syms[..i + 1][..i] == syms[..i];
  }

  lemma {:induction false} KeptGrows(syms: seq<RawSym>, base: word, i: nat)
    requires i <= |syms|
    ensures |Kept(syms[..i], base)| <= |Kept(syms, base)|
    decreases |syms| - i
  {
    if i < |syms| {
      KeptAppend(syms, base, i);
      KeptGrows(syms, base, i + 1);
    } else {
      assert syms[..i] == syms;
    }
  }

  /** The first pass. */
  method CountWanted(syms: seq<RawSym>, ghost base: word) returns (count: nat)
    ensures count == |Kept(syms, base)|
  {
    hide Kept, SizeOf, Wanted;
    count := 0;
    KeptNone(base);
    for i := 0 to |syms|
      invariant count == |Kept(syms[..i], base)|
    {
      KeptAppend(syms, base, i);
      if Wanted(syms[i]) {
        count := count + 1;
      }
    }
    assert syms[..|syms|] == syms;
  }

  lemma KeptNone(base: word)
    ensures Kept([], base) == [] && SizeOf([]) == 0
  {
  }

  /** The two passes agree: the second writes exactly the entries that the first counted. */
  method InitializeSyminfo(syms: seq<RawSym>, base: word, strtabSize: nat) returns (ok: bool, info: SymInfo)
    ensures ok <==> forall i :: 0 <= i < |syms| && Wanted(syms[i]) ==> syms[i].name < strtabSize
    ensures ok ==> info == SymbolTable(syms, base)
  {
    hide SortBy, Wrap64, Kept, SizeOf, Wanted;
    info := SymInfo([], 0, 0);
    KeptNone(base);
    var count := CountWanted(syms, base);
    assert syms[..|syms|] == syms;
    var symbols := new Symbol[count](_ => Symbol(0, 0, 0));
    var symbolSize: word := 0;
    var j := 0;
    for i := 0 to |syms|
      invariant j == |Kept(syms[..i], base)| <= count && symbols[..j] == Kept(syms[..i], base)
      invariant symbolSize == SizeOf(syms[..i])
      invariant forall k :: 0 <= k < i && Wanted(syms[k]) ==> syms[k].name < strtabSize
    {
      KeptAppend(syms, base, i);
      KeptGrows(syms, base, i + 1);
      if Wanted(syms[i]) {
        if syms[i].name >= strtabSize {
          return false, info;
        }
        symbols[j] := Symbol(syms[i].name, Wrap64(syms[i].value + base), syms[i].size);
        var end := Wrap64(syms[i].value + syms[i].size);
        if symbolSize < end {
          symbolSize := end;
        }
        j := j + 1;
      }
    }
    assert symbols[..] == symbols[..j] == Kept(syms, base);
    return true, SymInfo(SortBy(symbols[..], AddressOf), base, symbolSize);
  }

  // ---------------------------------------------------------------------------
  // Search
  // ---------------------------------------------------------------------------

  /** elf_symbol_search. */
  function SymbolSign(s: Symbol, addr: word): int {
    if addr < s.address then -1 else if addr >= Wrap64(s.address + s.size) then 1 else 0
  }

  function SymbolSigns(symbols: seq<Symbol>, addr: word): (signs: seq<int>)
    ensures |signs| == |symbols|
    ensures forall k :: 0 <= k < |signs| ==> signs[k] == SymbolSign(symbols[k], addr)
  {
    seq(|symbols|, k requires 0 <= k < |symbols| => SymbolSign(symbols[k], addr))
  }

  predicate Inside(s: Symbol, addr: word) {
    s.address <= addr < s.address + s.size
  }

  /** The reference: the first symbol that contains the address, by a linear scan. */
  function ScanSymbols(symbols: seq<Symbol>, addr: word): (r: Option<Symbol>)
    ensures match r
      case Some(s) => s in symbols && Inside(s, addr)
      case None => forall k :: 0 <= k < |symbols| ==> !Inside(symbols[k], addr)
  {
    if symbols == [] then None
    else if Inside(symbols[0], addr) then Some(symbols[0])
    else ScanSymbols(symbols[1..], addr)
  }

  /** No symbol runs past the end of the address space. */
  ghost predicate NoOverflow(symbols: seq<Symbol>) {
    forall k :: 0 <= k < |symbols| ==> symbols[k].address + symbols[k].size < U64
  }

  /** Each symbol ends at or before the next begins. */
  ghost predicate Apart(symbols: seq<Symbol>) {
    forall i, j :: 0 <= i < j < |symbols| ==> symbols[i].address + symbols[i].size <= symbols[j].address
  }

  /** For every address bsearch is called as it must be, and can find only one symbol. */
  ghost predicate Unambiguous(symbols: seq<Symbol>) {
    forall addr: word :: Partitioned(SymbolSigns(symbols, addr)) && OneMatch(symbols, addr)
  }

  ghost predicate OneMatch(symbols: seq<Symbol>, addr: word) {
    forall i, j :: 0 <= i < j < |symbols| ==> !(Inside(symbols[i], addr) && Inside(symbols[j], addr))
  }

  lemma SignIs(s: Symbol, addr: word)
    requires s.address + s.size < U64
    ensures SymbolSign(s, addr) == 0 <==> Inside(s, addr)
    ensures SymbolSign(s, addr) == if addr < s.address then -1 else if addr >= s.address + s.size then 1 else 0
  {
    WrapUnique(s.address + s.size, 0, s.address + s.size);
  }

  lemma ApartPartitions(symbols: seq<Symbol>, addr: word)
    requires NoOverflow(symbols) && SortedBy(symbols, AddressOf) && Apart(symbols)
    ensures Partitioned(SymbolSigns(symbols, addr)) && OneMatch(symbols, addr)
  {
    hide Wrap64, SymbolSign;
    forall k | 0 <= k < |symbols|
      ensures var s := symbols[k]; SymbolSign(s, addr) == if addr < s.address then -1 else if addr >= s.address + s.size then 1 else 0
    {
      SignIs(symbols[k], addr);
    }
    var signs := SymbolSigns(symbols, addr);
    forall i, j | 0 <= i < j < |signs|
      ensures signs[i] >= signs[j]
    {
      assert AddressOf(symbols[i]) <= AddressOf(symbols[j]);
    }
  }

  /** Symbols that are not empty are found without doubt exactly when they do not overlap. */
  lemma UnambiguousIff(symbols: seq<Symbol>)
    requires NoOverflow(symbols) && SortedBy(symbols, AddressOf) && forall k :: 0 <= k < |symbols| ==> symbols[k].size > 0
    ensures Unambiguous(symbols) <==> Apart(symbols)
  {
    if Apart(symbols) {
      forall addr: word
        ensures Partitioned(SymbolSigns(symbols, addr)) && OneMatch(symbols, addr)
      {
        ApartPartitions(symbols, addr);
      }
    } else {
      var i, j :| 0 <= i < j < |symbols| && symbols[i].address + symbols[i].size > symbols[j].address;
      assert AddressOf(symbols[i]) <= AddressOf(symbols[j]);
      assert Inside(symbols[i], symbols[j].address) && Inside(symbols[j], symbols[j].address);
      assert !OneMatch(symbols, symbols[j].address);
    }
  }

  // ---------------------------------------------------------------------------
  // elf_syminfo
  // ---------------------------------------------------------------------------

  /** The test in front of the search. */
  predicate Prefilter(e: SymInfo, addr: word) {
    e.baseAddress <= addr < Wrap64(e.baseAddress + e.symbolSize)
  }

  lemma {:induction false} SizeCovers(syms: seq<RawSym>, i: nat)
    requires i < |syms| && Wanted(syms[i]) && syms[i].value + syms[i].size < U64
    ensures syms[i].value + syms[i].size <= SizeOf(syms)
  {
    var n := |syms| - 1;
    if i < n {
      assert syms[..n][i] == syms[i];
      SizeCovers(syms[..n], i);
    } else {
      WrapUnique(syms[i].value + syms[i].size, 0, syms[i].value + syms[i].size);
    }
  }

  /** Nothing in the file, once it is at its place, runs past the end of the address space. */
  ghost predicate Fits(syms: seq<RawSym>, base: word) {
    forall i :: 0 <= i < |syms| && Wanted(syms[i]) ==> base + syms[i].value + syms[i].size < U64
  }

  lemma {:induction false} KeptFrom(syms: seq<RawSym>, base: word, k: nat) returns (i: nat)
    requires k < |Kept(syms, base)|
    ensures i < |syms| && Wanted(syms[i]) && Kept(syms, base)[k] == Relocated(syms[i], base)
  {
    var n := |syms| - 1;
    if k < |Kept(syms[..n], base)| {
      i := KeptFrom(syms[..n], base, k);
    } else {
      i := n;
    }
  }

  lemma {:induction false} SizeFits(syms: seq<RawSym>, base: word)
    requires Fits(syms, base)
    ensures base + SizeOf(syms) < U64
  {
    if syms != [] {
      var n := |syms| - 1;
      assert forall i :: 0 <= i < n ==> syms[..n][i] == syms[i];
      SizeFits(syms[..n], base);
      if Wanted(syms[n]) {
        WrapUnique(syms[n].value + syms[n].size, 0, syms[n].value + syms[n].size);
      }
    }
  }

  /** The test in front never turns away an address that a symbol contains. */
  lemma PrefilterHarmless(syms: seq<RawSym>, base: word, k: nat, addr: word)
    requires Fits(syms, base) && k < |Kept(syms, base)| && Inside(Kept(syms, base)[k], addr)
    ensures Prefilter(SymbolTable(syms, base), addr)
  {
    hide SortBy, Kept, Wrap64;
    var i := KeptFrom(syms, base, k);
    WrapUnique(syms[i].value + base, 0, syms[i].value + base);
    SizeCovers(syms, i);
    SizeFits(syms, base);
    WrapUnique(base + SizeOf(syms), 0, base + SizeOf(syms));
  }

  /** One file: the test, then bsearch, which may look at the entries in any order of its own. */
  ghost predicate Found(e: SymInfo, addr: word, r: Option<Symbol>) {
    if !Prefilter(e, addr) then r == None
    else exists k: Option<nat> :: Searched(SymbolSigns(e.symbols, addr), 0, |e.symbols|, k) &&
           r == (if k.Some? then Some(e.symbols[k.value]) else None)
  }

  lemma KeptInSorted(syms: seq<RawSym>, base: word, s: Symbol)
    ensures s in Kept(syms, base) <==> s in SymbolTable(syms, base).symbols
  {
    hide SortBy, Kept;
    SortBySorts(Kept(syms, base), AddressOf);
    assert s in Kept(syms, base) <==> s in multiset(Kept(syms, base));
    assert s in SymbolTable(syms, base).symbols <==> s in multiset(SymbolTable(syms, base).symbols);
  }

  /** What is found in a file is what a linear scan of its symbols finds. */
  lemma FoundIsScan(syms: seq<RawSym>, base: word, addr: word, r: Option<Symbol>)
    requires Fits(syms, base) && Apart(SymbolTable(syms, base).symbols)
    requires Found(SymbolTable(syms, base), addr, r)
    ensures r == ScanSymbols(Kept(syms, base), addr)
  {
    hide SortBy, Wrap64, SymbolSign;
    var e := SymbolTable(syms, base);
    SortBySorts(Kept(syms, base), AddressOf);
    TableFits(syms, base);
    ApartPartitions(e.symbols, addr);
    forall k: Option<nat> | Searched(SymbolSigns(e.symbols, addr), 0, |e.symbols|, k)
      ensures SearchResult(SymbolSigns(e.symbols, addr), k)
    {
      SearchedFinds(SymbolSigns(e.symbols, addr), 0, |e.symbols|, k);
    }
    var scan := ScanSymbols(Kept(syms, base), addr);
    forall k: nat | k < |e.symbols|
      ensures SymbolSign(e.symbols[k], addr) == 0 <==> Inside(e.symbols[k], addr)
    {
      SignIs(e.symbols[k], addr);
    }
    if scan.Some? {
      var s := scan.value;
      KeptInSorted(syms, base, s);
      var k :| 0 <= k < |Kept(syms, base)| && Kept(syms, base)[k] == s;
      PrefilterHarmless(syms, base, k, addr);
      var l :| 0 <= l < |e.symbols| && e.symbols[l] == s;
      assert SymbolSigns(e.symbols, addr)[l] == 0;
    }
    if r.Some? {
      KeptInSorted(syms, base, r.value);
    }
  }

  /** A function or an object that is defined in the file, and contains the address once the file is at its place. */
  predicate Covers(s: RawSym, base: word, addr: word) {
    (s.info % 16 == 1 || s.info % 16 == 2) && s.shndx != 0 && base + s.value <= addr < base + s.value + s.size
  }

  predicate ReportedAs(s: RawSym, base: word, addr: word, r: Symbol) {
    Covers(s, base, addr) && r.name == s.name && r.address == base + s.value && r.size == s.size
  }

  lemma {:induction false} CoversKept(syms: seq<RawSym>, base: word, i: nat)
    requires i < |syms| && Wanted(syms[i])
    ensures Relocated(syms[i], base) in Kept(syms, base)
  {
    var n := |syms| - 1;
    if i < n {
      assert syms[..n][i] == syms[i];
      CoversKept(syms[..n], base, i);
    }
  }

  lemma RelocatedIs(s: RawSym, base: word, addr: word)
    requires base + s.value + s.size < U64
    ensures Relocated(s, base) == Symbol(s.name, base + s.value, s.size)
    ensures Wanted(s) && Inside(Relocated(s, base), addr) <==> Covers(s, base, addr)
  {
    WrapUnique(s.value + base, 0, s.value + base);
  }

  /** A symbol is reported exactly when one in the file contains the address, with its name, its place in memory and size. */
  lemma SymbolReported(syms: seq<RawSym>, base: word, addr: word, r: Option<Symbol>)
    requires Fits(syms, base) && Apart(SymbolTable(syms, base).symbols)
    requires Found(SymbolTable(syms, base), addr, r)
    ensures r.Some? <==> exists i :: 0 <= i < |syms| && Covers(syms[i], base, addr)
    ensures r.Some? ==> exists i :: 0 <= i < |syms| && ReportedAs(syms[i], base, addr, r.value)
  {
    hide SortBy, Wrap64, Found, Apart, Kept, Relocated, SymbolTable, Covers;
    FoundIsScan(syms, base, addr, r);
    if r.Some? {
      var k :| 0 <= k < |Kept(syms, base)| && Kept(syms, base)[k] == r.value;
      var i := KeptFrom(syms, base, k);
      RelocatedIs(syms[i], base, addr);
    }
    if i :| 0 <= i < |syms| && Covers(syms[i], base, addr) {
      CoversWanted(syms[i], base, addr);
      RelocatedIs(syms[i], base, addr);
      CoversKept(syms, base, i);
    }
  }

  lemma CoversWanted(s: RawSym, base: word, addr: word)
    requires Covers(s, base, addr)
    ensures Wanted(s)
  {
  }

  lemma TableFits(syms: seq<RawSym>, base: word)
    requires Fits(syms, base)
    ensures NoOverflow(SymbolTable(syms, base).symbols)
  {
    hide SortBy;
    var symbols := SymbolTable(syms, base).symbols;
    forall k | 0 <= k < |symbols|
      ensures symbols[k].address + symbols[k].size < U64
    {
      KeptInSorted(syms, base, symbols[k]);
      var l :| 0 <= l < |Kept(syms, base)| && Kept(syms, base)[l] == symbols[k];
      var i := KeptFrom(syms, base, l);
      WrapUnique(syms[i].value + base, 0, syms[i].value + base);
    }
  }

  /** The first file in which something is found decides. */
  ghost predicate FoundFirst(files: seq<SymInfo>, addr: word, r: Option<Symbol>) {
    if r == None then forall f :: 0 <= f < |files| ==> Found(files[f], addr, None)
    else exists n :: 0 <= n < |files| && Found(files[n], addr, r) && forall f :: 0 <= f < n ==> Found(files[f], addr, None)
  }

  /** The loop of elf_syminfo over the files. */
  method SymInfoOf(files: seq<SymInfo>, addr: word) returns (r: Option<Symbol>)
    ensures FoundFirst(files, addr, r)
  {
    hide Wrap64, SymbolSign;
    for f := 0 to |files|
      invariant forall g :: 0 <= g < f ==> Found(files[g], addr, None)
    {
      var e := files[f];
      if addr >= e.baseAddress && addr < Wrap64(e.baseAddress + e.symbolSize) {
        var k := BSearch(|e.symbols|, (k: nat) requires k < |e.symbols| => SymbolSign(e.symbols[k], addr),
                         SymbolSigns(e.symbols, addr));
        ProbeSearches(SymbolSigns(e.symbols, addr), 0, |e.symbols|);
        if k.Some? {
          r := Some(e.symbols[k.value]);
          assert Found(e, addr, r);
          return;
        }
      }
    }
    r := None;
  }
}
