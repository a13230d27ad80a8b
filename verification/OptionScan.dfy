// What Next, MultiArg and Stop do, as functions of the arguments not scanned yet.
module OptionScan {
  import opened Words
  import opened OptionTable

  const SUCCESS: int := 0
  const ARG_INVALID: int := -3
  const ARG_INVALID_TYPE: int := -4
  const ARG_MISSING: int := -5
  const ARG_INVALID_DATA: int := -6

  /** windows: a slash may stand for the hyphen. */
  datatype Params = Params(flags: Flags, table: seq<Opt>, windows: bool)

  /** OptionId, OptionText, OptionArg and LastError. */
  datatype Report = Report(id: int, text: string, arg: Option<string>, error: int)

  /** A file; an invalid option; an entry of the table; single character options to take one by one. */
  datatype Class = File | Bad(error: int) | Found(n: nat, arg: Option<string>) | Clumped(chars: string)

  // ---------------------------------------------------------------------------
  // One argument
  // ---------------------------------------------------------------------------

  predicate IsSlashOption(p: Params, s: string) {
    p.windows && !p.flags.noSlash && |s| > 1 && s[0] == '/' && s[1] != '-'
  }

  /** PrepareArg: the argument with a hyphen for the slash. */
  function Prepared(p: Params, s: string): (t: string)
    ensures |t| == |s|
  {
    if IsSlashOption(p, s) then s[0 := '-'] else s
  }

  predicate IsSwitch(p: Params, s: string) {
    s != [] && Prepared(p, s)[0] == '-'
  }

  function EqualsAt(s: string): (n: nat)
    ensures n <= |s| && (forall i :: 0 <= i < n ==> s[i] != '=') && (n < |s| ==> s[n] == '=')
  {
    if s == [] || s[0] == '=' then 0 else 1 + EqualsAt(s[1..])
  }

  /** The part in front of the equals sign of a switch. */
  function Name(p: Params, s: string): string {
    var t := Prepared(p, s);
    if IsSwitch(p, s) then t[..EqualsAt(t)] else t
  }

  /** The combined argument behind it. */
  function Combined(p: Params, s: string): Option<string> {
    var t := Prepared(p, s);
    if IsSwitch(p, s) && EqualsAt(t) < |t| then Some(t[EqualsAt(t) + 1..]) else None
  }

  /** One hyphen, and at least two characters behind it. */
  predicate IsShortForm(name: string) {
    |name| > 2 && name[0] == '-' && name[1] != '-'
  }

  /** The entry for "-c" when it takes a combined argument. */
  function ShortIndex(p: Params, c: char): int {
    var n := Lookup(p.flags, p.table, ['-', c]);
    if n >= 0 && p.table[n].argType in {RequiredCombined, OptionalCombined} then n else -1
  }

  /** The alternative readings of a short form; File when there is none. */
  function ShortClass(p: Params, name: string): (c: Class)
    requires IsShortForm(name)
    ensures c.Found? ==> c.n < |p.table|
    ensures c.Clumped? ==> |c.chars| > 1
    ensures !c.Bad?
  {
    if p.flags.shortArg && ShortIndex(p, name[1]) >= 0 then Found(ShortIndex(p, name[1]), Some(name[2..]))
    else if p.flags.clump then Clumped(name[1..])
    else File
  }

  function Classify(p: Params, s: string): (c: Class)
    ensures c.Found? ==> c.n < |p.table|
    ensures c.Bad? ==> c.error == OPT_INVALID || c.error == OPT_MULTIPLE
    ensures c.Clumped? ==> |c.chars| > 1
  {
    var name, arg := Name(p, s), Combined(p, s);
    var n := Lookup(p.flags, p.table, name);
    var short := if arg == None && IsShortForm(name) then ShortClass(p, name) else File;
    if n >= 0 then Found(n, arg)
    else if !short.File? then short
    else if !p.flags.noErr && IsSwitch(p, s) then Bad(n)
    else File
  }

  /** The error that the type of an option makes of its combined argument. */
  function TypeError(p: Params, argType: ArgType, arg: Option<string>): int {
    match argType
    case NoArg => if arg.Some? then ARG_INVALID else SUCCESS
    case RequiredSeparate => if arg.Some? && p.flags.pedantic then ARG_INVALID_TYPE else SUCCESS
    case RequiredCombined => if arg.None? then ARG_MISSING else SUCCESS
    case OptionalCombined => SUCCESS
    case Multi => SUCCESS
  }

  // ---------------------------------------------------------------------------
  // Clumped options
  // ---------------------------------------------------------------------------

  const EXACT_ONLY: Flags := Flags(true, false, false, false, false, false, false, false, false)

  datatype ClumpStep = ClumpStep(valid: bool, report: Report, rest: string)

  /** A valid option in a clump; only one that needs an argument takes the rest. */
  function ClumpEntry(o: Opt, rest: string): (r: ClumpStep)
    ensures r.valid && |r.rest| <= |rest|
  {
    if o.argType == NoArg then ClumpStep(true, Report(o.id, o.text, None, SUCCESS), rest)
    else if o.argType == RequiredCombined && rest != [] then ClumpStep(true, Report(o.id, o.text, Some(rest), SUCCESS), [])
    else ClumpStep(true, Report(-1, o.text, None, ARG_MISSING), rest)
  }

  /** NextClumped, for the character c with rest behind it. */
  function TakeClumped(table: seq<Opt>, c: char, rest: string): (r: ClumpStep)
    ensures |r.rest| <= |rest| && (!r.valid ==> r.rest == rest)
  {
    var n := Lookup(EXACT_ONLY, table, ['-', c]);
    if n < 0 then ClumpStep(false, Report(-1, ['-', c], None, n), rest) else ClumpEntry(table[n], rest)
  }

  /** What the pending characters give: with errors suppressed, invalid ones are skipped. */
  function Drain(p: Params, chars: string): (r: Option<(Report, string)>)
    ensures r.Some? ==> |r.value.1| < |chars|
  {
    if chars == [] then None
    else
      var r := TakeClumped(p.table, chars[0], chars[1..]);
      if r.valid || !p.flags.noErr then Some((r.report, r.rest)) else Drain(p, chars[1..])
  }

  // ---------------------------------------------------------------------------
  // Next
  // ---------------------------------------------------------------------------

  function FirstNonFile(p: Params, u: seq<string>, j: nat): (k: nat)
    requires j <= |u|
    ensures j <= k <= |u| && (k < |u| ==> !Classify(p, u[k]).File?)
    decreases |u| - j
  {
    if j < |u| && Classify(p, u[j]).File? then FirstNonFile(p, u, j + 1) else j
  }

  lemma {:induction false} FilesInFront(p: Params, u: seq<string>, j: nat)
    requires j <= |u|
    ensures forall i :: j <= i < FirstNonFile(p, u, j) ==> Classify(p, u[i]).File?
    decreases |u| - j
  {
    hide Classify;
    if j < |u| && Classify(p, u[j]).File? {
      FilesInFront(p, u, j + 1);
    }
  }

  /** marks says of each argument that was consumed whether it was processed, or is a file. */
  datatype Outcome = Outcome(more: bool, report: Report, clump: string, marks: seq<bool>)

  const NO_REPORT: Report := Report(-1, "", None, SUCCESS)

  function Files(n: nat): (s: seq<bool>)
    ensures |s| == n
  {
    seq(n, _ => false)
  }

  /** MultiArg: whether n arguments can be taken, or the error. */
  function TakeArgs(p: Params, u: seq<string>, n: nat): int {
    if n > |u| then ARG_MISSING
    else if !p.flags.noErr && exists i :: 0 <= i < n && IsSwitch(p, u[i]) then ARG_INVALID_DATA
    else SUCCESS
  }

  /** An entry of the table was found, with what follows in u. */
  function Accept(p: Params, n: nat, arg: Option<string>, u: seq<string>): (o: Outcome)
    requires n < |p.table|
    ensures o.more && |o.marks| <= |u|
  {
    var opt := p.table[n];
    var error := TypeError(p, opt.argType, arg);
    if opt.argType == RequiredSeparate && arg == None then
      var e := TakeArgs(p, u, 1);
      if e == SUCCESS then Outcome(true, Report(opt.id, opt.text, Some(u[0]), SUCCESS), "", [true])
      else Outcome(true, Report(opt.id, opt.text, None, e), "", [])
    else Outcome(true, Report(opt.id, opt.text, arg, error), "", [])
  }

  /** What the type of an option asks for is there; u is what follows. */
  predicate HasItsArgument(p: Params, argType: ArgType, arg: Option<string>, u: seq<string>) {
    match argType
    case NoArg => arg == None
    case RequiredSeparate =>
      if arg.Some? then !p.flags.pedantic else u != [] && (p.flags.noErr || !IsSwitch(p, u[0]))
    case RequiredCombined => arg.Some?
    case OptionalCombined => true
    case Multi => true
  }

  /** An option is reported without an error exactly when it has the argument it needs, which is then reported. */
  lemma AcceptSucceedsIff(p: Params, n: nat, arg: Option<string>, u: seq<string>)
    requires n < |p.table|
    ensures var r := Accept(p, n, arg, u).report;
      && r.id == p.table[n].id && r.text == p.table[n].text
      && (r.error == SUCCESS <==> HasItsArgument(p, p.table[n].argType, arg, u))
      && (arg.Some? ==> r.arg == arg)
      && (arg == None && p.table[n].argType != RequiredSeparate ==> r.arg == None)
      && (arg == None && p.table[n].argType == RequiredSeparate ==> r.arg == if r.error == SUCCESS then Some(u[0]) else None)
  {
    if u != [] && !p.flags.noErr && IsSwitch(p, u[0]) {
      assert TakeArgs(p, u, 1) == ARG_INVALID_DATA;
    }
  }

  function NextStep(p: Params, clump: string, u: seq<string>): (o: Outcome)
    ensures |o.marks| <= |u|
    ensures !o.more ==> |o.marks| == |u| && o.clump == ""
    decreases |u|, 1
  {
    match Drain(p, clump)
    case Some(d) => Outcome(true, d.0, d.1, [])
    case None =>
      var j := FirstNonFile(p, u, 0);
      if j == |u| then Outcome(false, NO_REPORT, "", Files(j)) else StepAt(p, u, j)
  }

  /** The outcome at argument j, behind files. */
  function StepAt(p: Params, u: seq<string>, j: nat): (o: Outcome)
    requires j < |u|
    ensures |o.marks| <= |u| && (!o.more ==> |o.marks| == |u| && o.clump == "")
    decreases |u|, 0
  {
    match Classify(p, u[j])
    case Bad(e) => Outcome(true, Report(-1, Name(p, u[j]), Combined(p, u[j]), e), "", Files(j) + [true])
    case Found(n, arg) => var o := Accept(p, n, arg, u[j + 1..]); o.(marks := Files(j) + [true] + o.marks)
    case Clumped(chars) => var o := NextStep(p, chars, u[j + 1..]); o.(marks := Files(j) + [true] + o.marks)
    case File => Outcome(false, NO_REPORT, "", Files(|u|))
  }

  // ---------------------------------------------------------------------------
  // What the outcome means
  // ---------------------------------------------------------------------------

  /** Every call that returns true consumes something, so that calling Next again and again ends. */
  lemma {:induction false} NextProgresses(p: Params, clump: string, u: seq<string>)
    ensures var o := NextStep(p, clump, u);
      o.more ==> |o.marks| > 0 || (|o.marks| == 0 && |o.clump| < |clump|)
  {
  }

  /** A loop over Next until it returns false: which arguments were processed. */
  function RunAll(p: Params, clump: string, u: seq<string>): (marks: seq<bool>)
    decreases |u|, |clump|
  {
    var o := NextStep(p, clump, u);
    if !o.more then o.marks
    else NextProgresses(p, clump, u); o.marks + RunAll(p, o.clump, u[|o.marks|..])
  }

  /** The reference: one pass from left to right, argument by argument. */
  function MarksFrom(p: Params, u: seq<string>): (marks: seq<bool>)
    ensures |marks| == |u|
    decreases |u|
  {
    if u == [] then []
    else
      var c := Classify(p, u[0]);
      if c.File? then [false] + MarksFrom(p, u[1..])
      else if TakesNext(p, u) then [true, true] + MarksFrom(p, u[2..])
      else [true] + MarksFrom(p, u[1..])
  }

  /** The first argument is an option that takes the second as its own. */
  predicate TakesNext(p: Params, u: seq<string>)
    requires u != []
  {
    var c := Classify(p, u[0]);
    && c.Found? && c.arg == None && p.table[c.n].argType == RequiredSeparate
    && |u| > 1 && (p.flags.noErr || !IsSwitch(p, u[1]))
  }

  lemma {:induction false} SkipFiles(p: Params, u: seq<string>, j: nat)
    requires j <= |u| && forall i :: 0 <= i < j ==> Classify(p, u[i]).File?
    ensures MarksFrom(p, u) == Files(j) + MarksFrom(p, u[j..])
    decreases j
  {
    hide Classify, TakesNext;
    if j == 0 {
      assert u[0..] == u;
    } else {
      assert MarksFrom(p, u) == [false] + MarksFrom(p, u[1..]);
      SkipFiles(p, u[1..], j - 1);
      assert u[1..][j - 1..] == u[j..];
      assert Files(j) == [false] + Files(j - 1);
    }
  }

  /** What follows the files that were skipped: o says how NextStep goes on behind the option in front of v. */
  lemma Prepend(p: Params, u: seq<string>, j: nat, marks: seq<bool>)
    requires j < |u| && |marks| <= |u| - j - 1
    requires MarksFrom(p, u) == Files(j) + MarksFrom(p, u[j..])
    requires MarksFrom(p, u[j..]) == [true] + marks + MarksFrom(p, u[j + 1..][|marks|..])
    ensures var all := Files(j) + [true] + marks; MarksFrom(p, u) == all + MarksFrom(p, u[|all|..])
  {
    hide MarksFrom;
    assert u[j + 1..][|marks|..] == u[j + 1 + |marks|..];
  }

  lemma {:induction false} NextIsReference(p: Params, clump: string, u: seq<string>)
    ensures var o := NextStep(p, clump, u); MarksFrom(p, u) == o.marks + MarksFrom(p, u[|o.marks|..])
    decreases |u|
  {
    hide Classify, Name, Combined, TypeError, MarksFrom, Accept, Drain, FirstNonFile, Files, TakesNext;
    if Drain(p, clump).Some? {
      assert u[0..] == u;
    } else {
      var j := FirstNonFile(p, u, 0);
      FilesInFront(p, u, 0);
      SkipFiles(p, u, j);
      if j == |u| {
        assert MarksFrom(p, u[j..]) == [] && u[|Files(j)|..] == u[j..];
      } else {
        var c, v := Classify(p, u[j]), u[j + 1..];
        assert u[j..][1..] == v && u[j..][0] == u[j];
        if c.Found? {
          AcceptIsReference(p, u[j..]);
          Prepend(p, u, j, Accept(p, c.n, c.arg, v).marks);
        } else {
          OptionIsReference(p, u[j..]);
          if c.Clumped? {
            assert NextStep(p, clump, u) == StepAt(p, u, j);
            NextIsReference(p, c.chars, v);
            Prepend(p, u, j, NextStep(p, c.chars, v).marks);
          } else {
            assert v[0..] == v;
            Prepend(p, u, j, []);
          }
        }
      }
    }
  }

  lemma OptionIsReference(p: Params, u: seq<string>)
    requires u != [] && (Classify(p, u[0]).Bad? || Classify(p, u[0]).Clumped?)
    ensures MarksFrom(p, u) == [true] + MarksFrom(p, u[1..])
  {
    hide Classify;
  }

  lemma AcceptIsReference(p: Params, u: seq<string>)
    requires u != [] && Classify(p, u[0]).Found?
    ensures var c := Classify(p, u[0]);
      var o := Accept(p, c.n, c.arg, u[1..]);
      MarksFrom(p, u) == [true] + o.marks + MarksFrom(p, u[1..][|o.marks|..])
  {
    hide Classify;
    var c := Classify(p, u[0]);
    if TakesNext(p, u) {
      assert u[1..][0] == u[1] && u[1..][1..] == u[2..];
    } else {
      assert u[1..][0..] == u[1..];
      if |u| > 1 && !p.flags.noErr && IsSwitch(p, u[1]) {
        assert u[1..][0] == u[1];
      }
    }
  }

  /** Calling Next until it returns false does what the single pass does, whatever was pending. */
  lemma {:induction false} RunIsReference(p: Params, clump: string, u: seq<string>)
    ensures RunAll(p, clump, u) == MarksFrom(p, u)
    decreases |u|, |clump|
  {
    hide NextStep, MarksFrom;
    var o := NextStep(p, clump, u);
    NextIsReference(p, clump, u);
    if o.more {
      NextProgresses(p, clump, u);
      RunIsReference(p, o.clump, u[|o.marks|..]);
    } else {
      assert u[|u|..] == [] && MarksFrom(p, []) == [];
    }
  }

  /** An argument that neither names an option nor is to be reported becomes a file, unless it is taken. */
  lemma {:induction false} FilesAreFiles(p: Params, u: seq<string>, i: nat)
    requires i < |u|
    ensures !MarksFrom(p, u)[i] ==> Classify(p, u[i]) == File
    ensures MarksFrom(p, u)[i] && Classify(p, u[i]) == File ==> i > 0 && TakesNext(p, u[i - 1..])
    decreases |u|
  {
    hide Classify, TakesNext;
    var k := if Classify(p, u[0]) != File && TakesNext(p, u) then 2 else 1;
    if i >= k {
      FilesAreFiles(p, u[k..], i - k);
      assert i > k ==> u[k..][i - k - 1..] == u[i - 1..];
    } else {
      assert u[0..] == u;
    }
  }

  /** The first call after Stop: nothing is left to scan, but characters of a clump may be. */
  lemma {:induction false} StoppedIff(p: Params, clump: string)
    ensures !NextStep(p, clump, []).more <==>
      clump == "" || (p.flags.noErr && forall i :: 0 <= i < |clump| ==> Lookup(EXACT_ONLY, p.table, ['-', clump[i]]) < 0)
  {
    DrainsNothingIff(p, clump);
  }

  lemma {:induction false} DrainsNothingIff(p: Params, clump: string)
    ensures Drain(p, clump) == None <==>
      clump == "" || (p.flags.noErr && forall i :: 0 <= i < |clump| ==> Lookup(EXACT_ONLY, p.table, ['-', clump[i]]) < 0)
  {
    hide Lookup;
    if clump != "" {
      DrainsNothingIff(p, clump[1..]);
      assert forall i :: 0 < i < |clump| ==> clump[1..][i - 1] == clump[i];
    }
  }

  const CLUMPS: Flags := Flags(false, false, false, true, false, false, false, false, false)

  /** The options "-a" and "-b", which may be clumped. */
  function TwoOptions(): Params {
    Params(CLUMPS, [Opt(1, "-a", NoArg), Opt(2, "-b", NoArg)], false)
  }

  lemma TwoOptionsLookup(f: Flags, name: string, n: nat)
    requires !f.icaseShort && n < 2 && name == ['-', if n == 0 then 'a' else 'b']
    ensures Lookup(f, TwoOptions().table, name) == n
  {
    var table := TwoOptions().table;
    assert table[0].text == "-a" && table[1].text == "-b";
    assert Hyphens("-a") == Hyphens("-b") == Hyphens(name) == 1 by {
      HyphensAtLeast("-a", 1);
      HyphensAtLeast("-b", 1);
      HyphensAtLeast(name, 1);
    }
    assert Exact(f, name, table[n].text);
    assert n == 1 ==> !IsEqual(table[0].text[1], name[1], false);
    assert n == 1 ==> !Exact(f, name, table[0].text);
    LookupFindsIff(f, table, name, n);
  }

  lemma NoOptionAb()
    ensures Lookup(CLUMPS, TwoOptions().table, "-ab") == OPT_INVALID
  {
    var table := TwoOptions().table;
    assert |table[0].text| == |table[1].text| == 2;
    PartialsAre(CLUMPS, table, "-ab", 2);
    SomeMember(Partials(CLUMPS, table, "-ab", 2));
  }

  lemma SomeMember(s: seq<nat>)
    ensures s != [] ==> exists i: nat :: i in s
  {
    assert s != [] ==> s[0] in s;
  }

  lemma ClumpedAb()
    ensures Classify(TwoOptions(), "-ab") == Clumped("ab")
  {
    NoOptionAb();
    assert EqualsAt("-ab") == 3;
    assert "-ab"[..3] == "-ab" && "-ab"[1..] == "ab";
  }

  /** Taking "-a" out of the argument "-ab" leaves a clump that Stop does not drop: Next goes on with "-b". */
  lemma ClumpOutlivesStop()
    ensures NextStep(TwoOptions(), "", ["-ab"]) == Outcome(true, Report(1, "-a", None, SUCCESS), "b", [true])
    ensures NextStep(TwoOptions(), "b", []) == Outcome(true, Report(2, "-b", None, SUCCESS), "", [])
  {
    hide Lookup, Classify;
    ClumpedAb();
    var p := TwoOptions();
    assert Drain(p, "ab") == Some((Report(1, "-a", None, SUCCESS), "b")) by {
      TwoOptionsLookup(EXACT_ONLY, ['-', "ab"[0]], 0);
      assert "ab"[1..] == "b";
    }
    assert Drain(p, "b") == Some((Report(2, "-b", None, SUCCESS), "")) by {
      TwoOptionsLookup(EXACT_ONLY, ['-', "b"[0]], 1);
      assert "b"[1..] == "";
    }
    assert ["-ab"][1..] == [] && Files(0) == [];
    assert NextStep(p, "ab", []) == Outcome(true, Report(1, "-a", None, SUCCESS), "b", []);
    assert FirstNonFile(p, ["-ab"], 0) == 0;
    assert StepAt(p, ["-ab"], 0).marks == Files(0) + [true] + [] == [true];
  }
}
