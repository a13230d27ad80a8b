// CSimpleOptTempl: argv is permuted in place, strings are cut at '=' in place and put together again.
module OptionParser {
  import opened Words
  import opened OptionTable
  import opened OptionScan
  import opened ArgOrder

  const NUL: char := '\0'

  /** A pointer into one of the argument strings. */
  datatype Ptr = Ptr(arg: nat, at: nat)

  /** Where OptionText points: nowhere, to a string of the option table, to an argument, or to m_szShort. */
  datatype TextRef = NoText | Const(s: string) | InArg(arg: nat) | Short

  ghost predicate NoNul(s: string) {
    forall i :: 0 <= i < |s| ==> s[i] != NUL
  }

  /** The string that a pointer to s stands for. */
  function CStr(s: string): (t: string)
    ensures NoNul(t) && t <= s
    ensures NoNul(s) ==> t == s
  {
    if s == [] || s[0] == NUL then [] else [s[0]] + CStr(s[1..])
  }

  lemma {:induction false} CStrCut(s: string, k: nat)
    requires k < |s| && NoNul(s[..k]) && s[k] == NUL
    ensures CStr(s) == s[..k]
  {
    if k > 0 {
      assert s[0] == s[..k][0] && s[1..][..k - 1] == s[..k][1..];
      CStrCut(s[1..], k - 1);
    }
  }

  /** n elements of src from position s on, written over those of dst from position d on. */
  function Pasted(dst: seq<nat>, d: nat, src: seq<nat>, s: nat, n: nat): seq<nat>
    requires d + n <= |dst| && s + n <= |src|
  {
    dst[..d] + src[s..s + n] + dst[d + n..]
  }

  /** memcpy of pointers, front to back; the ranges may overlap when the target comes first. */
  method Copy(dst: array<nat>, d: nat, src: array<nat>, s: nat, n: nat)
    requires d + n <= dst.Length && s + n <= src.Length && (dst == src ==> d <= s)
    modifies dst
    ensures dst[..] == Pasted(old(dst[..]), d, old(src[..]), s, n)
  {
    var k := 0;
    while k < n
      invariant k <= n
      invariant forall i :: 0 <= i < d ==> dst[i] == old(dst[i])
      invariant forall i :: d <= i < d + k ==> dst[i] == old(src[s + i - d])
      invariant forall i :: d + k <= i < dst.Length ==> dst[i] == old(dst[i])
    {
      dst[d + k] := src[s + k];
      k := k + 1;
    }
  }

  lemma ShuffledIs(a: seq<nat>, start: nat, count: nat)
    requires start + count <= |a|
    ensures Shuffled(a, start, count) == a[..start] + a[start + count..] + a[start..start + count]
  {
  }

  /** The three copies of ShuffleArg. */
  lemma CopiesShuffle(a: seq<nat>, buf: seq<nat>, start: nat, count: nat)
    requires start + count <= |a| && |buf| == count
    ensures var tail := |a| - start - count;
      var saved, moved := Pasted(buf, 0, a, start, count), Pasted(a, start, a, start + count, tail);
      |saved| == count && |moved| == |a| && Pasted(moved, start + tail, saved, 0, count) == Shuffled(a, start, count)
  {
    hide Shuffled;
    var tail := |a| - start - count;
    var saved, moved := Pasted(buf, 0, a, start, count), Pasted(a, start, a, start + count, tail);
    assert saved == a[start..start + count];
    assert Shuffled(a, start, count) == a[..start] + a[start + count..] + saved by { ShuffledIs(a, start, count); }
    assert moved[..start + tail] == a[..start] + a[start + count..];
    assert moved[start + tail + count..] == [];
  }

  lemma RestOf(s: string, at: nat)
    requires at < |s| && NoNul(s[at..])
    ensures s[at..][0] == s[at] && s[at..][1..] == s[at + 1..] && NoNul(s[at + 1..]) && CStr(s[at + 1..]) == s[at + 1..]
    ensures s[|s|..] == ""
  {
    forall i | at < i < |s|
      ensures s[i] != NUL
    {
      assert s[at..][i - at] == s[i];
    }
  }

  /** What becomes of argument s in memory, and where OptionArg points then. */
  predicate IsSplit(p: Params, s: string, cut: string, id: nat, arg: Option<Ptr>) {
    var t := Prepared(p, s);
    var k := EqualsAt(t);
    if IsSwitch(p, s) && k < |t| then cut == t[k := NUL] && arg == Some(Ptr(id, k + 1)) else cut == t && arg == None
  }

  /** In order a, the strings from position lo on are the original ones, but for string number skip. */
  ghost predicate Arguments(a: seq<nat>, lo: nat, last: nat, original: seq<string>, text: seq<string>, skip: int) {
    && Arranged(a, lo, last) && |a| == |original| == |text|
    && (forall i :: 0 <= i < |text| ==> NoNul(original[i]) && |text[i]| == |original[i]|)
    && (forall k :: lo <= k < |a| && a[k] != skip ==> IsOriginal(original, text, a[k]))
  }

  ghost predicate IsOriginal(original: seq<string>, text: seq<string>, i: nat) {
    i < |text| && i < |original| && text[i] == original[i]
  }

  lemma ArgumentsBasics(a: seq<nat>, lo: nat, last: nat, original: seq<string>, text: seq<string>, skip: int)
    requires Arguments(a, lo, last, original, text, skip)
    ensures lo <= last <= |a| == |original| == |text|
  {
  }

  /** The argument in place k is the next of those that were not scanned. */
  lemma NextText(a: seq<nat>, lo: nat, last: nat, original: seq<string>, text: seq<string>, k: nat)
    requires Arguments(a, lo, last, original, text, -1) && lo <= k < last
    ensures a[k] < |text| && text[a[k]] == original[|a| - (last - k)] && NoNul(text[a[k]])
  {
    assert a[lo..last][k - lo] == a[k];
    assert IsOriginal(original, text, a[k]);
  }

  /** A change of one string that may be skipped. */
  lemma OneChanged(a: seq<nat>, lo: nat, last: nat, original: seq<string>, text: seq<string>, text': seq<string>, id: nat)
    requires Arguments(a, lo, last, original, text, -1) && |text'| == |text| && id < |text|
    requires |text'[id]| == |text[id]| && forall i :: 0 <= i < |text| && i != id ==> text'[i] == text[i]
    ensures Arguments(a, lo, last, original, text', id)
  {
    forall k | lo <= k < |a| && a[k] != id
      ensures IsOriginal(original, text', a[k])
    {
      assert IsOriginal(original, text, a[k]);
    }
  }

  /** Entries of the unscanned part differ from all behind it. */
  lemma EntriesDiffer(a: seq<nat>, lo: nat, last: nat, i: nat, j: nat)
    requires Arranged(a, lo, last) && lo <= i < last && lo <= j < |a| && i != j
    ensures a[i] != a[j]
  {
    assert a[lo..last][i - lo] == a[i];
    if j < last {
      assert a[lo..last][j - lo] == a[j];
    } else {
      assert a[last..][j - last] == a[j];
    }
  }

  /** After the shuffle, only strings in front of position lo + k may have changed. */
  lemma ArgumentsShuffled(a: seq<nat>, lo: nat, last: nat, original: seq<string>, text: seq<string>, count: nat, k: nat)
    requires k <= 1 && lo + count + k <= last <= |a|
    requires Arguments(a, lo, last, original, text, if k == 0 then -1 else a[lo + count])
    ensures Arguments(Shuffled(a, lo, count), lo + k, last - count, original, text, -1)
  {
    ShuffleKeepsArranged(a, lo, last, count, k);
    var a', n := Shuffled(a, lo, count), |a|;
    forall i | lo + k <= i < n
      ensures IsOriginal(original, text, a'[i])
    {
      var m := if i < n - count then i + count else i - (n - count) + lo;
      assert a'[i] == a[m];
      if k == 1 {
        EntriesDiffer(a, lo, last, lo + count, m);
      }
      assert IsOriginal(original, text, a[m]);
    }
  }

  /** The order of the arguments, and where the processed ones end and the files begin. */
  datatype Place = Place(order: seq<nat>, lo: nat, last: nat)

  /** What callers can see, and what the next call depends on. */
  datatype Snap = Snap(place: Place, clump: string, report: Report)

  ghost predicate Moved(before: Place, after: Place, marks: seq<bool>) {
    Advanced(before.order, before.lo, before.last, after.order, after.lo, after.last, marks)
  }

  /** From one state to another as an outcome says. */
  ghost predicate Did(before: Place, o: Outcome, more: bool, after: Snap) {
    more == o.more && after.clump == o.clump && (more ==> after.report == o.report) && Moved(before, after.place, o.marks)
  }

  lemma DidDrain(p: Params, clump: string, u: seq<string>, before: Place, after: Snap)
    requires Drain(p, clump) == Some((after.report, after.clump)) && Moved(before, after.place, [])
    ensures Did(before, NextStep(p, clump, u), true, after)
  {
    hide Drain, Moved;
  }

  lemma NoneTaken(n: nat)
    ensures Files(n) + Taken(0) == Files(n)
  {
  }

  lemma DidEnd(p: Params, clump: string, u: seq<string>, before: Place, after: Snap)
    requires Drain(p, clump) == None && FirstNonFile(p, u, 0) == |u| && after.clump == ""
    requires Moved(before, after.place, Files(|u|))
    ensures Did(before, NextStep(p, clump, u), false, after)
  {
    hide Drain, Moved, FirstNonFile;
  }

  lemma DidStep(p: Params, clump: string, u: seq<string>, before: Place, more: bool, after: Snap)
    requires Drain(p, clump) == None && FirstNonFile(p, u, 0) < |u|
    requires Did(before, StepAt(p, u, FirstNonFile(p, u, 0)), more, after)
    ensures Did(before, NextStep(p, clump, u), more, after)
  {
    hide Drain, Did, FirstNonFile, StepAt;
  }

  lemma DidAccept(p: Params, n: nat, arg: Option<string>, u: seq<string>, before: Place, after: Snap)
    requires n < |p.table| && after.clump == ""
    requires var opt, separate := p.table[n], p.table[n].argType == RequiredSeparate && arg == None;
      var e := TakeArgs(p, u, 1);
      && after.report == (
           if !separate then Report(opt.id, opt.text, arg, TypeError(p, opt.argType, arg))
           else Report(opt.id, opt.text, if e == SUCCESS then Some(u[0]) else None, e))
      && Moved(before, after.place, if separate && e == SUCCESS then [true] else [])
    ensures Did(before, Accept(p, n, arg, u), true, after)
  {
    hide Moved, TypeError;
  }

  lemma DidBad(p: Params, u: seq<string>, before: Place, j: nat, after: Snap)
    requires j < |u| && Classify(p, u[j]).Bad? && after.clump == ""
    requires after.report == Report(-1, Name(p, u[j]), Combined(p, u[j]), Classify(p, u[j]).error)
    requires Moved(before, after.place, Files(j) + [true])
    ensures Did(before, StepAt(p, u, j), true, after)
  {
    hide Classify, Name, Combined, Moved;
  }

  /** Behind the files, an option; what comes after it decides. */
  lemma DidOption(p: Params, u: seq<string>, j: nat, before: Place, mid: Place, more: bool, after: Snap)
    requires j < |u| && Moved(before, mid, Files(j) + [true])
    requires match Classify(p, u[j])
      case Found(n, arg) => Did(mid, Accept(p, n, arg, u[j + 1..]), more, after)
      case Clumped(chars) => Did(mid, NextStep(p, chars, u[j + 1..]), more, after)
      case _ => false
    ensures Did(before, StepAt(p, u, j), more, after)
  {
    hide Classify, Moved, Did, Accept, NextStep;
    match Classify(p, u[j]) {
      case Found(n, arg) => DidTwice(before, mid, after, Files(j) + [true], Accept(p, n, arg, u[j + 1..]), more);
      case Clumped(chars) => DidTwice(before, mid, after, Files(j) + [true], NextStep(p, chars, u[j + 1..]), more);
    }
  }

  /** First marks, then what o says. */
  lemma DidTwice(before: Place, mid: Place, after: Snap, marks: seq<bool>, o: Outcome, more: bool)
    requires Moved(before, mid, marks) && Did(mid, o, more, after)
    ensures Did(before, o.(marks := marks + o.marks), more, after)
  {
    hide Advanced;
    AdvancedTwice(before.order, before.lo, before.last, mid.order, mid.lo, mid.last,
                  after.place.order, after.place.lo, after.place.last, marks, o.marks);
  }

  lemma MovedShuffled(a: seq<nat>, lo: nat, last: nat, count: nat, k: nat)
    requires lo + count + k <= last <= |a| && k <= 1
    ensures Moved(Place(a, lo, last), Place(Shuffled(a, lo, count), lo + k, last - count), Files(count) + Taken(k))
  {
    ShuffleAdvances(a, lo, last, count, k);
  }

  /** Nothing was consumed. */
  lemma AdvancedNot(a: seq<nat>, lo: nat, last: nat, original: seq<string>, text: seq<string>)
    requires Arguments(a, lo, last, original, text, -1)
    ensures Moved(Place(a, lo, last), Place(a, lo, last), [])
  {
  }

  /** An argument that was left alone is its own whole text. */
  lemma WholeArgument(a: seq<nat>, lo: nat, last: nat, original: seq<string>, text: seq<string>, i: nat)
    requires Arguments(a, lo, last, original, text, -1) && i < |original|
    ensures CStr(original[i][0..]) == original[i]
  {
    assert original[i][0..] == original[i];
  }

  /** The i-th argument from position at on is u[i]. */
  ghost predicate HoldsText(a: seq<nat>, at: nat, text: seq<string>, u: seq<string>, i: nat) {
    at + i < |a| && a[at + i] < |text| && i < |u| && text[a[at + i]] == u[i]
  }

  lemma ShuffledNothing(a: seq<nat>, start: nat)
    requires start <= |a|
    ensures Shuffled(a, start, 0) == a
  {
  }

  /** Processing n more arguments without moving any. */
  lemma TakenAdvances(a: seq<nat>, lo: nat, last: nat, original: seq<string>, text: seq<string>, n: nat)
    requires Arguments(a, lo, last, original, text, -1) && lo + n <= last
    ensures Arguments(a, lo + n, last, original, text, -1) && Moved(Place(a, lo, last), Place(a, lo + n, last), Taken(n))
  {
    ShuffledNothing(a, lo);
    ShuffleKeepsArranged(a, lo, last, 0, n);
    PickTaken(a[lo..last], n);
    SliceOfSlice(a, lo, last, 0, n);
    assert a[..lo] + a[lo..lo + n] == a[..lo + n];
    assert a[lo..last][..n] == a[lo..last][0..n];
  }

  class SimpleOpt {
    const argc: nat
    const argv: array<nat>
    const windows: bool
    ghost const original: seq<string>

    /** The argument strings in memory; argv holds their numbers. */
    var text: seq<string>
    var table: seq<Opt>
    var flags: Flags

    var optionIdx: nat
    var optionId: int
    var nextOption: nat
    var lastArg: nat
    var optionText: TextRef
    var optionArg: Option<Ptr>
    var clump: Option<Ptr>
    var short: char
    var lastError: int

    function P(): Params
      reads `flags, `table
    {
      Params(flags, table, windows)
    }

    /** The end of the processed part; without arguments, nextOption may be past lastArg. */
    function Lo(): nat
      reads `nextOption, `lastArg
    {
      if nextOption <= lastArg then nextOption else lastArg
    }

    predicate Inside(p: Ptr)
      reads `text
    {
      p.arg < |text| && p.at <= |text[p.arg]|
    }

    /** The arguments are in order, and those that are not processed, but for one, are as they were given. */
    ghost predicate ArgsValidBut(skip: int)
      reads `text, `nextOption, `lastArg, argv
    {
      && argv.Length == argc == |original| && lastArg <= argc && (nextOption <= lastArg || (argc == 0 && nextOption == 1))
      && Arguments(argv[..], Lo(), lastArg, original, text, skip)
    }

    ghost predicate ArgsValid()
      reads `text, `nextOption, `lastArg, argv
    {
      ArgsValidBut(-1)
    }

    ghost predicate Valid()
      reads this, argv
    {
      && ArgsValid()
      && (clump.Some? ==> Inside(clump.value) && NoNul(text[clump.value.arg][clump.value.at..]))
      && (optionArg.Some? ==> Inside(optionArg.value))
      && (optionText.InArg? ==> optionText.arg < |text|)
    }

    /** The characters of a clump that are still to be taken. */
    function Pending(): string
      requires Valid()
      reads this, argv
    {
      if clump.None? then "" else text[clump.value.arg][clump.value.at..]
    }

    /** The arguments not scanned yet, as they were given. */
    ghost function Unscanned(): (u: seq<string>)
      requires argc == |original| && lastArg <= argc
      reads `nextOption, `lastArg
      ensures |u| == lastArg - Lo()
    {
      original[argc - (lastArg - Lo())..]
    }

    lemma UnscannedAt(k: nat)
      requires argc == |original| && lastArg <= argc && k < lastArg - Lo()
      ensures Unscanned()[k] == original[argc - (lastArg - Lo() - k)]
    {
    }

    /** What ScanOne leaves behind for an argument that is not a file. */
    ghost predicate Scanned(id: nat, s: string, c: Class)
      requires id < |text|
      reads `text, `optionArg, `optionText, `clump, `table, `flags
    {
      && c == Classify(P(), s)
      && (c.Bad? ==> optionText == InArg(id) && CStr(text[id]) == Name(P(), s) && ArgIs(id, Combined(P(), s)))
      && (c.Found? ==> ArgIs(id, c.arg))
      && (c.Clumped? ==> clump == Some(Ptr(id, 1)) && optionArg == None)
      && (c.Clumped? ==> |text[id]| > 1 && text[id][1..] == c.chars && NoNul(c.chars))
      && (!c.Bad? ==> optionText == NoText)
      && (!c.Clumped? ==> clump == None)
    }

    /** OptionArg. */
    function ArgNow(): Option<string>
      requires optionArg.Some? ==> Inside(optionArg.value)
      reads `optionArg, `text
    {
      if optionArg.None? then None else Some(CStr(text[optionArg.value.arg][optionArg.value.at..]))
    }

    function ReportNow(): Report
      requires Valid()
      reads this, argv
    {
      Report(optionId,
        match optionText
        case NoText => ""
        case Const(s) => s
        case InArg(i) => CStr(text[i])
        case Short => ['-', short],
        ArgNow(),
        lastError)
    }

    ghost function Here(): Place
      reads `nextOption, `lastArg, argv
    {
      Place(argv[..], Lo(), lastArg)
    }

    ghost function Now(): Snap
      requires Valid()
      reads this, argv
    {
      Snap(Here(), Pending(), ReportNow())
    }

    constructor (args: array<nat>, argText: seq<string>, windows: bool, table: seq<Opt>, flags: Flags, useAll: bool)
      requires |argText| == args.Length && args[..] == Ids(0, args.Length)
      requires forall i :: 0 <= i < |argText| ==> NoNul(argText[i])
      ensures Valid() && argv == args && original == argText && P() == Params(flags, table, windows)
      ensures Pending() == "" && lastArg == args.Length
      ensures Unscanned() == if useAll || args.Length == 0 then argText else argText[1..]
    {
      argc, argv, this.windows, original := args.Length, args, windows, argText;
      text, this.table, this.flags := argText, table, flags;
      optionIdx, optionId, nextOption, lastArg := 0, -1, if useAll then 0 else 1, args.Length;
      optionText, optionArg, clump, short, lastError := NoText, None, None, NUL, SUCCESS;
    }

    method ShuffleArg(start: nat, count: nat)
      requires argv.Length == argc && start + count <= argc && count <= lastArg
      modifies argv, `lastArg
      ensures argv[..] == Shuffled(old(argv[..]), start, count) && lastArg == old(lastArg) - count
    {
      hide Shuffled, Pasted;
      var buf := new nat[count];
      var tail := argc - start - count;
      CopiesShuffle(argv[..], buf[..], start, count);
      Copy(buf, 0, argv, start, count);
      Copy(argv, start, argv, start + count, tail);
      Copy(argv, start + tail, buf, 0, count);
      lastArg := lastArg - count;
    }

    /** PrepareArg; the result is the first character as it was. */
    method PrepareArg(id: nat) returns (first: char)
      requires id < |text|
      modifies `text
      ensures text == old(text)[id := Prepared(P(), old(text)[id])]
      ensures old(text)[id] != "" ==> first == old(text)[id][0]
    {
      var s := text[id];
      if s == "" {
        return NUL;
      }
      first := s[0];
      if windows && !flags.noSlash && s[0] == '/' && |s| > 1 && s[1] != '-' {
        text := text[id := s[0 := '-']];
      }
    }

    method FindEquals(id: nat) returns (k: nat)
      requires id < |text|
      ensures k == EqualsAt(text[id])
    {
      k := 0;
      while k < |text[id]| && text[id][k] != '='
        invariant k <= |text[id]| && EqualsAt(text[id][k..]) + k == EqualsAt(text[id])
      {
        assert text[id][k..][1..] == text[id][k + 1..];
        k := k + 1;
      }
    }

    /** optionArg points into string id, at arg. */
    predicate ArgIs(id: nat, arg: Option<string>)
      requires id < |text|
      reads `text, `optionArg
    {
      match arg
      case None => optionArg == None
      case Some(a) =>
        && optionArg.Some? && optionArg.value.arg == id && optionArg.value.at <= |text[id]|
        && CStr(text[id][optionArg.value.at..]) == a
    }

    /** An argument as a switch: a hyphen for the slash, and a NUL for the equals sign. */
    method SplitArg(id: nat) returns (first: char)
      requires id < |text| && NoNul(text[id])
      modifies `text, `optionArg
      ensures |text| == old(|text|) && |text[id]| == |old(text)[id]|
      ensures forall i :: 0 <= i < |text| && i != id ==> text[i] == old(text)[i]
      ensures IsSplit(P(), old(text)[id], text[id], id, optionArg)
      ensures CStr(text[id]) == Name(P(), old(text)[id]) && ArgIs(id, Combined(P(), old(text)[id]))
      ensures IsSwitch(P(), old(text)[id]) <==> text[id] != "" && text[id][0] == '-'
      ensures old(text)[id] != "" ==> first == old(text)[id][0]
    {
      ghost var s := text[id];
      optionArg := None;
      first := PrepareArg(id);
      assert NoNul(text[id]);
      if text[id] != "" && text[id][0] == '-' {
        var k := FindEquals(id);
        if k < |text[id]| {
          ghost var t := text[id];
          text := text[id := text[id][k := NUL]];
          optionArg := Some(Ptr(id, k + 1));
          assert text[id][..k] == t[..k] && text[id][k + 1..] == t[k + 1..];
          CStrCut(text[id], k);
        }
      }
    }

    /** Undoes SplitArg. */
    method Rejoin(id: nat, first: char, ghost s: string)
      requires id < |text| && |s| == |text[id]| && (s != "" ==> first == s[0])
      requires IsSplit(P(), s, text[id], id, optionArg)
      modifies `text, `optionArg
      ensures text == old(text)[id := s] && (optionArg.Some? ==> Inside(optionArg.value))
    {
      if text[id] != "" {
        text := text[id := text[id][0 := first]];
      }
      if optionArg.Some? {
        var k := optionArg.value.at - 1;
        text := text[id := text[id][k := '=']];
        optionArg := Some(Ptr(id, k));
      }
      assert text[id] == s;
    }

    /** The body of the loop in Next: one argument is looked at, and put together again if it is a file. */
    method ScanOne(id: nat) returns (status: Class)
      requires id < |text| && NoNul(text[id]) && optionText == NoText && clump == None
      modifies `text, `optionArg, `optionText, `clump, `short
      ensures status == Classify(P(), old(text)[id])
      ensures |text| == old(|text|) && |text[id]| == |old(text)[id]|
      ensures forall i :: 0 <= i < |text| && i != id ==> text[i] == old(text)[i]
      ensures status.File? ==> text == old(text) && (optionArg.Some? ==> Inside(optionArg.value))
      ensures Scanned(id, old(text)[id], status)
      ensures status.File? ==> clump == None && optionText == NoText
    {
      hide NoNul, Lookup, EqualsAt, CStr, Name, Combined, Prepared, IsSwitch, IsSplit, ShortClass;
      ghost var s, p := text[id], P();
      var first := SplitArg(id);
      var name := CStr(text[id]);
      var tableIdx := LookupOption(flags, table, name);
      if tableIdx >= 0 {
        return Found(tableIdx, if optionArg == None then None else Some(CStr(text[id][optionArg.value.at..])));
      }
      if optionArg == None && |name| > 2 && name[0] == '-' && name[1] != '-' {
        WholeName(p, s, text[id], id);
        status := ScanShort(id);
        if !status.File? {
          return;
        }
      }
      if !flags.noErr && text[id] != "" && text[id][0] == '-' {
        optionText := InArg(id);
        return Bad(tableIdx);
      }
      Rejoin(id, first, s);
      return File;
    }

    /** The alternative forms of a short option that is not in the table. */
    method ScanShort(id: nat) returns (status: Class)
      requires id < |text| && IsShortForm(text[id]) && NoNul(text[id]) && optionArg == None && clump == None
      modifies `optionArg, `clump, `short
      ensures status == ShortClass(P(), text[id])
      ensures status.Found? ==> ArgIs(id, status.arg)
      ensures !status.Found? ==> optionArg == None
      ensures clump == if status.Clumped? then Some(Ptr(id, 1)) else None
      ensures status.Clumped? ==> text[id][1..] == status.chars && NoNul(status.chars)
    {
      hide Lookup, CStr;
      if flags.shortArg {
        short := text[id][1];
        var idx := LookupOption(flags, table, ['-', short]);
        if idx >= 0 && (table[idx].argType == RequiredCombined || table[idx].argType == OptionalCombined) {
          optionArg := Some(Ptr(id, 2));
          return Found(idx, Some(text[id][2..]));
        }
      }
      if flags.clump {
        clump := Some(Ptr(id, 1));
        return Clumped(text[id][1..]);
      }
      status := File;
    }

    /** Without a combined argument, the name is the whole argument. */
    lemma WholeName(p: Params, s: string, cut: string, id: nat)
      requires NoNul(s) && IsSplit(p, s, cut, id, None)
      ensures Name(p, s) == cut && NoNul(cut)
      ensures forall i :: 0 <= i <= |cut| ==> CStr(cut[i..]) == cut[i..]
    {
    }

    method NextClumped() returns (valid: bool)
      requires Valid() && Pending() != ""
      modifies `short, `optionId, `optionText, `optionArg, `lastError, `clump
      ensures Valid()
      ensures var r := TakeClumped(table, old(Pending())[0], old(Pending())[1..]);
        valid == r.valid && ReportNow() == r.report && Pending() == r.rest
    {
      hide NoNul, ArgsValid, Lookup, CStr, ClumpEntry;
      TakeChar();
      optionId, lastError := -1, SUCCESS;
      var n := LookupOption(EXACT_ONLY, table, ['-', short]);
      if n < 0 {
        Unknown(n);
        return false;
      }
      AcceptClumped(n);
      valid := true;
    }

    /** The first pending character goes into m_szShort. */
    method TakeChar()
      requires Valid() && Pending() != ""
      modifies `short, `clump, `optionText, `optionArg
      ensures Valid() && short == old(Pending())[0] && Pending() == old(Pending())[1..]
      ensures clump.Some? && optionText == NoText && optionArg == None
    {
      hide NoNul, ArgsValid, CStr;
      var at := clump.value;
      RestOf(text[at.arg], at.at);
      short := text[at.arg][at.at];
      clump := Some(Ptr(at.arg, at.at + 1));
      optionText, optionArg := NoText, None;
    }

    method Unknown(n: int)
      requires Valid() && optionArg == None
      modifies `optionText, `lastError
      ensures Valid() && ReportNow() == Report(optionId, ['-', short], None, n) && Pending() == old(Pending())
    {
      hide NoNul, ArgsValid, CStr;
      optionText, lastError := Short, n;
    }

    method AcceptClumped(n: nat)
      requires Valid() && n < |table| && clump.Some? && optionId == -1 && optionArg == None && lastError == SUCCESS
      modifies `optionId, `optionText, `optionArg, `lastError, `clump
      ensures Valid()
      ensures var r := ClumpEntry(table[n], old(Pending())); ReportNow() == r.report && Pending() == r.rest
    {
      hide ArgsValid, CStr;
      optionText := Const(table[n].text);
      if table[n].argType == NoArg {
        optionId := table[n].id;
        return;
      }
      if table[n].argType == RequiredCombined && Pending() != "" {
        optionId := table[n].id;
        optionArg := clump;
        clump := Some(Ptr(clump.value.arg, |text[clump.value.arg]|));
        return;
      }
      lastError := ARG_MISSING;
    }

    /** Pending characters of a clump are taken until one is to be reported. */
    method DrainPending() returns (done: bool)
      requires Valid() && Pending() != ""
      modifies `short, `optionId, `optionText, `optionArg, `lastError, `clump
      ensures Valid()
      ensures match Drain(P(), old(Pending()))
        case Some(d) => done && ReportNow() == d.0 && Pending() == d.1
        case None => !done
    {
      hide NoNul, ArgsValid, TakeClumped, CStr;
      ghost var pending := Pending();
      var valid := NextClumped();
      while Pending() != "" && !valid && flags.noErr
        invariant Valid()
        invariant valid || !flags.noErr ==> Drain(P(), pending) == Some((ReportNow(), Pending()))
        invariant !valid && flags.noErr ==> Drain(P(), pending) == Drain(P(), Pending())
        decreases |Pending()|, !valid
      {
        valid := NextClumped();
      }
      done := valid || !flags.noErr;
    }

    /** The loop of Next: on to the first argument that is not a file. */
    method FindNext() returns (optIdx: nat, status: Class)
      requires ArgsValid() && lastArg <= argc
      requires optionIdx == nextOption && optionText == NoText && clump == None && optionArg == None
      modifies `text, `optionArg, `optionText, `clump, `short
      ensures Here() == old(Here()) && Unscanned() == old(Unscanned()) && P() == old(P())
      ensures nextOption <= optIdx && optIdx - nextOption == FirstNonFile(P(), Unscanned(), 0)
      ensures optIdx >= lastArg ==> Valid() && clump == None
      ensures optIdx < lastArg ==> ArgsValidBut(argv[optIdx]) && argv[optIdx] < |text| && !status.File?
      ensures optIdx < lastArg ==> Scanned(argv[optIdx], Unscanned()[optIdx - nextOption], status)
    {
      hide NoNul, Arguments, CStr, Classify, ArgIs, Scanned, P, Unscanned;
      ghost var a, u := argv[..], Unscanned();
      ArgumentsBasics(a, Lo(), lastArg, original, text, -1);
      optIdx := optionIdx;
      while optIdx < lastArg
        invariant optionIdx <= optIdx && optIdx - optionIdx <= |u|
        invariant text == old(text) && clump == None && optionText == NoText
        invariant optionArg.Some? ==> Inside(optionArg.value)
        invariant FirstNonFile(P(), u, 0) == FirstNonFile(P(), u, optIdx - optionIdx)
      {
        ghost var before := text;
        NextText(a, Lo(), lastArg, original, text, optIdx);
        UnscannedAt(optIdx - optionIdx);
        status := ScanOne(argv[optIdx]);
        if !status.File? {
          OneChanged(a, Lo(), lastArg, original, before, text, argv[optIdx]);
          return;
        }
        optIdx := optIdx + 1;
      }
      status := File;
    }

    /** The files that were skipped go to the end; with k = 1, the argument behind them is processed. */
    method MoveFiles(count: nat, k: nat)
      requires argv.Length == argc && lastArg <= argc && k <= 1
      requires Lo() + count + k <= lastArg && (count + k > 0 ==> nextOption <= lastArg)
      requires ArgsValidBut(if k == 0 then -1 else argv[nextOption + count])
      modifies argv, `nextOption, `lastArg
      ensures ArgsValid() && nextOption == old(nextOption) + k && lastArg == old(lastArg) - count
      ensures Moved(old(Here()), Here(), Files(count) + Taken(k))
      ensures argv[..] == Shuffled(old(argv[..]), old(Lo()), count)
    {
      hide NoNul, Arguments, Moved, Shuffled;
      ghost var a, lo, last := argv[..], Lo(), lastArg;
      ArgumentsShuffled(a, lo, last, original, text, count, k);
      MovedShuffled(a, lo, last, count, k);
      ShuffledNothing(a, lo);
      nextOption := nextOption + k;
      if count > 0 {
        ShuffleArg(nextOption - k, count);
      }
    }

    /** MultiArg; the result is the position of the first of the arguments in argv. */
    method MultiArg(n: nat) returns (args: Option<nat>)
      requires Valid()
      modifies `nextOption, `lastError, `text
      ensures Valid() && text == old(text)
      ensures var e := if old(nextOption) > lastArg then ARG_MISSING else TakeArgs(P(), old(Unscanned()), n);
        if e == SUCCESS then args == Some(old(nextOption)) && nextOption == old(nextOption) + n && lastError == old(lastError)
        else args == None && nextOption == old(nextOption) && lastError == e
      ensures args.Some? ==> Moved(old(Here()), Here(), Taken(n))
      ensures args.Some? ==> forall i :: 0 <= i < n ==> HoldsText(argv[..], args.value, text, old(Unscanned()), i)
    {
      hide NoNul, Arguments, Moved, CStr;
      ArgumentsBasics(argv[..], Lo(), lastArg, original, text, -1);
      ghost var a, u := argv[..], Unscanned();
      if nextOption + n > lastArg {
        lastError := ARG_MISSING;
        return None;
      }
      forall i | 0 <= i < n
        ensures HoldsText(a, nextOption, text, u, i)
      {
        NextText(a, Lo(), lastArg, original, text, nextOption + i);
      }
      TakenAdvances(a, Lo(), lastArg, original, text, n);
      if !flags.noErr {
        var bad := FindSwitch(n, u);
        if bad {
          lastError := ARG_INVALID_DATA;
          return None;
        }
      }
      args := Some(nextOption);
      nextOption := nextOption + n;
    }

    /** The loop of MultiArg over the arguments: whether one looks like a switch. */
    method FindSwitch(n: nat, ghost u: seq<string>) returns (bad: bool)
      requires n <= |u| && forall i :: 0 <= i < n ==> HoldsText(argv[..], nextOption, text, u, i)
      modifies `text
      ensures text == old(text)
      ensures bad <==> exists i :: 0 <= i < n && IsSwitch(P(), u[i])
    {
      hide IsSlashOption;
      var k := 0;
      while k < n
        invariant k <= n && text == old(text)
        invariant forall i :: 0 <= i < k ==> !IsSwitch(P(), u[i])
      {
        assert HoldsText(argv[..], nextOption, text, u, k);
        var id := argv[nextOption + k];
        var ch := PrepareArg(id);
        bad := text[id] != "" && text[id][0] == '-';
        assert bad == IsSwitch(P(), u[k]);
        if text[id] != "" {
          text := text[id := text[id][0 := ch]];
        }
        assert text[id] == u[k];
        if bad {
          return;
        }
        k := k + 1;
      }
      bad := false;
    }

    /** Stop: all that was not scanned becomes files. */
    method Stop()
      requires Valid()
      modifies argv, `lastArg
      ensures Valid() && Unscanned() == [] && Pending() == old(Pending())
      ensures Moved(old(Here()), Here(), Files(old(lastArg) - old(Lo())))
    {
      hide NoNul, Arguments, Moved, Shuffled;
      ghost var a, lo, last := argv[..], Lo(), lastArg;
      ArgumentsBasics(a, lo, last, original, text, -1);
      ArgumentsShuffled(a, lo, last, original, text, last - lo, 0);
      MovedShuffled(a, lo, last, last - lo, 0);
      ShuffledNothing(a, lo);
      assert Files(last - lo) + Taken(0) == Files(last - lo);
      if nextOption < lastArg {
        ShuffleArg(nextOption, lastArg - nextOption);
      }
    }

    /** The text and type of an option that was found, before its separate argument is taken. */
    method NoteOption(n: nat)
      requires n < |table| && lastError == SUCCESS && (optionArg.Some? ==> Inside(optionArg.value))
      modifies `optionId, `optionText, `lastError
      ensures optionId == table[n].id && optionText == Const(table[n].text)
      ensures lastError == TypeError(P(), table[n].argType, ArgNow())
    {
      hide CStr;
      optionId, optionText := table[n].id, Const(table[n].text);
      match table[n].argType {
        case NoArg =>
          if optionArg.Some? {
            lastError := ARG_INVALID;
          }
        case RequiredSeparate =>
          if optionArg.Some? && flags.pedantic {
            lastError := ARG_INVALID_TYPE;
          }
        case RequiredCombined =>
          if optionArg.None? {
            lastError := ARG_MISSING;
          }
        case OptionalCombined =>
        case Multi =>
      }
    }

    /** The end of Next for an option that was found: its error or its separate argument. */
    method TakeOption(n: nat)
      requires Valid() && n < |table| && lastError == SUCCESS && clump == None && nextOption <= lastArg
      modifies `optionId, `optionText, `optionArg, `lastError, `nextOption, `text
      ensures Valid()
      ensures Did(old(Here()), Accept(P(), n, old(ArgNow()), old(Unscanned())), true, Now())
    {
      hide NoNul, Arguments, Moved, CStr, TakeArgs, TypeError, Accept, Did;
      ghost var before, arg, u := Here(), ArgNow(), Unscanned();
      AdvancedNot(before.order, before.lo, before.last, original, text);
      NoteOption(n);
      assert arg == None ==> TypeError(P(), RequiredSeparate, arg) == SUCCESS by { NoTypeError(P()); }
      if table[n].argType == RequiredSeparate && optionArg == None && lastError == SUCCESS {
        TakeSeparate();
      }
      DidAccept(P(), n, arg, u, before, Now());
    }

    lemma NoTypeError(p: Params)
      ensures TypeError(p, RequiredSeparate, None) == SUCCESS
    {
    }

    /** The separate argument of an option, or the error that there is none. */
    method TakeSeparate()
      requires Valid() && nextOption <= lastArg && optionArg == None && lastError == SUCCESS
      modifies `optionArg, `lastError, `nextOption, `text
      ensures Valid() && lastError == TakeArgs(P(), old(Unscanned()), 1) && text == old(text)
      ensures ArgNow() == if lastError == SUCCESS then Some(old(Unscanned())[0]) else None
      ensures Moved(old(Here()), Here(), if lastError == SUCCESS then [true] else [])
    {
      hide NoNul, Arguments, Moved, CStr, IsSwitch;
      ghost var a, lo, last := argv[..], Lo(), lastArg;
      ArgumentsBasics(a, lo, last, original, text, -1);
      AdvancedNot(a, lo, last, original, text);
      ghost var u := Unscanned();
      var args := MultiArg(1);
      if args.Some? {
        assert HoldsText(argv[..], args.value, text, u, 0);
        WholeArgument(a, lo, last, original, text, argc - (last - lo));
        assert Taken(1) == [true];
        optionArg := Some(Ptr(argv[args.value], 0));
      }
    }

    method Next() returns (more: bool)
      requires Valid()
      modifies `text, `optionIdx, `optionId, `nextOption, `lastArg, `optionText, `optionArg, `clump, `short, `lastError, argv
      ensures Valid()
      ensures Did(old(Here()), NextStep(P(), old(Pending()), old(Unscanned())), more, Now())
      decreases lastArg as int - nextOption, 3
    {
      hide NoNul, Arguments, Moved, CStr, NextStep, Drain, Did;
      ghost var before, chars, u, p := Here(), Pending(), Unscanned(), P();
      AdvancedNot(before.order, before.lo, before.last, original, text);
      DrainNothing(p);
      if Pending() != "" {
        var done := DrainPending();
        if done {
          DidDrain(p, chars, u, before, Now());
          return true;
        }
      }
      clump := None;
      more := Scan(chars);
    }

    /** Next, once no clumped option is pending. */
    method Scan(ghost chars: string) returns (more: bool)
      requires Valid() && clump == None && Drain(P(), chars) == None
      modifies `text, `optionIdx, `optionId, `nextOption, `lastArg, `optionText, `optionArg, `clump, `short, `lastError, argv
      ensures Valid()
      ensures Did(old(Here()), NextStep(P(), chars, old(Unscanned())), more, Now())
      decreases lastArg as int - nextOption, 2
    {
      hide NoNul, Arguments, Moved, CStr, NextStep, Drain, FirstNonFile, Did, Scanned, Here, Unscanned, P, Pending, ReportNow;
      NoReport();
      var optIdx, status := FindNext();
      more := Conclude(optIdx, status, chars);
    }

    /** What Next starts from: nothing to report, and nothing pending. */
    method NoReport()
      requires Valid() && clump == None
      modifies `optionIdx, `optionId, `optionText, `optionArg, `lastError
      ensures Valid() && optionIdx == nextOption && optionId == -1 && lastError == SUCCESS
      ensures optionText == NoText && optionArg == None
      ensures Here() == old(Here()) && Unscanned() == old(Unscanned()) && P() == old(P())
    {
      hide Arguments, NoNul, Here, Unscanned, P, ArgsValid;
      optionIdx, optionId, optionText, optionArg, lastError := nextOption, -1, NoText, None, SUCCESS;
    }

    /** What FindNext found. */
    method Conclude(optIdx: nat, status: Class, ghost chars: string) returns (more: bool)
      requires lastArg <= argc == argv.Length == |original| && optionIdx == nextOption <= optIdx
      requires Drain(P(), chars) == None && optIdx - nextOption == FirstNonFile(P(), Unscanned(), 0)
      requires optionId == -1 && lastError == SUCCESS
      requires optIdx >= lastArg ==> Valid() && clump == None
      requires optIdx < lastArg ==> ArgsValidBut(argv[optIdx]) && argv[optIdx] < |text| && !status.File?
      requires optIdx < lastArg ==> Scanned(argv[optIdx], Unscanned()[optIdx - nextOption], status)
      modifies `text, `optionIdx, `optionId, `nextOption, `lastArg, `optionText, `optionArg, `clump, `short, `lastError, argv
      ensures Valid()
      ensures Did(old(Here()), NextStep(P(), chars, old(Unscanned())), more, Now())
      decreases lastArg as int - nextOption, 1
    {
      hide NoNul, Arguments, Moved, CStr, Classify, StepAt, NextStep, Drain, FirstNonFile, Did, Scanned;
      ghost var before, u := Here(), Unscanned();
      if optIdx >= lastArg {
        NoMoreOptions(optIdx, chars);
        return false;
      }
      more := FinishOption(optIdx, status);
      DidStep(P(), chars, u, before, more, Now());
    }

    /** All that was left are files. */
    method NoMoreOptions(optIdx: nat, ghost chars: string)
      requires Valid() && clump == None && Drain(P(), chars) == None && lastArg <= optIdx
      requires optionIdx == nextOption && optIdx - nextOption == |Unscanned()| == FirstNonFile(P(), Unscanned(), 0)
      modifies argv, `nextOption, `lastArg
      ensures Valid()
      ensures Did(old(Here()), NextStep(P(), chars, old(Unscanned())), false, Now())
    {
      hide NoNul, Arguments, Moved, CStr, NextStep, Drain, FirstNonFile, Did, Here, Unscanned, P, ReportNow, Files, Taken;
      ghost var before, u, p := Here(), Unscanned(), P();
      NoneTaken(|u|);
      MoveFiles(optIdx - optionIdx, 0);
      DidEnd(p, chars, u, before, Now());
    }

    lemma DrainNothing(p: Params)
      ensures Drain(p, "") == None
    {
    }

    /** The rest of Next, at an argument that is not a file. */
    method FinishOption(optIdx: nat, status: Class) returns (more: bool)
      requires optionIdx == nextOption <= optIdx < lastArg <= argc == argv.Length == |original|
      requires ArgsValidBut(argv[optIdx]) && argv[optIdx] < |text| && optionId == -1 && lastError == SUCCESS
      requires !status.File? && Scanned(argv[optIdx], Unscanned()[optIdx - nextOption], status)
      modifies `text, `optionIdx, `optionId, `nextOption, `lastArg, `optionText, `optionArg, `clump, `short, `lastError, argv
      ensures Valid()
      ensures Did(old(Here()), StepAt(P(), old(Unscanned()), optIdx - old(nextOption)), more, Now())
      decreases lastArg as int - nextOption, 0
    {
      hide NoNul, Arguments, Moved, CStr, Classify, Name, Combined, Accept, NextStep, StepAt, Did, Files, Here;
      ghost var before, u := Here(), Unscanned();
      var count := optIdx - optionIdx;
      MoveFiles(count, 1);
      ghost var mid := Here();
      assert Taken(1) == [true] && Unscanned() == u[count + 1..];
      match status {
        case Bad(e) =>
          lastError := e;
          more := true;
          DidBad(P(), u, before, count, Now());
        case Found(n, _) =>
          ghost var arg, p := ArgNow(), P();
          assert Classify(p, u[count]) == Found(n, arg) && Unscanned() == u[count + 1..];
          TakeOption(n);
          assert Did(mid, Accept(p, n, arg, u[count + 1..]), true, Now());
          more := true;
          DidOption(P(), u, count, before, mid, more, Now());
        case Clumped(_) =>
          more := Next();
          DidOption(P(), u, count, before, mid, more, Now());
      }
    }

    ghost function FileIds(): (ids: seq<nat>)
      requires Valid()
      reads this, argv
      ensures |ids| == argc - lastArg
    {
      argv[lastArg..]
    }

    /** FileCount and File: the files, each as it was given, in the order in which they were given. */
    method AllFiles() returns (files: seq<string>)
      requires Valid()
      ensures |files| == |FileIds()| && AscendingBelow(FileIds(), argc)
      ensures forall i :: 0 <= i < |files| ==> FileIds()[i] < argc && files[i] == original[FileIds()[i]]
    {
      hide NoNul, AscendingBelow;
      ghost var a := argv[..];
      FilesAscend(a, Lo(), lastArg);
      files := [];
      var n := lastArg;
      while n < argc
        invariant lastArg <= n <= argc && |files| == n - lastArg
        invariant forall i :: 0 <= i < |files| ==> FileIds()[i] < argc && files[i] == original[FileIds()[i]]
      {
        assert IsOriginal(original, text, a[n]);
        files := files + [text[argv[n]]];
        n := n + 1;
      }
    }
  }

  lemma FilesAscend(a: seq<nat>, lo: nat, last: nat)
    requires Arranged(a, lo, last)
    ensures AscendingBelow(a[last..], |a|)
  {
  }
}
