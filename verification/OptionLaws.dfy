// What Next reports for each way of writing an argument, in terms of the strings alone.
module OptionLaws {
  import opened Words
  import opened OptionTable
  import opened OptionScan

  /** A switch without an equals sign in it. */
  predicate SwitchName(name: string) {
    name != "" && name[0] == '-' && '=' !in name
  }

  /** The outcome of a call that reports the first argument, and leaves no clump. */
  function Reported(r: Report, marks: seq<bool>): Outcome {
    Outcome(true, r, "", marks)
  }

  lemma {:induction false} EqualsBehind(name: string, v: string)
    requires '=' !in name
    ensures EqualsAt(name + "=" + v) == |name| && EqualsAt(name) == |name|
  {
    if name != "" {
      EqualsBehind(name[1..], v);
      var s := name + "=" + v;
      assert s[1..] == name[1..] + "=" + v;
      assert s[0] == name[0] && name[0] in name;
    }
  }

  /** The first argument is no file: the step is made there. */
  lemma FirstArgument(p: Params, s: string, u: seq<string>)
    requires !Classify(p, s).File?
    ensures NextStep(p, "", [s] + u) == StepAt(p, [s] + u, 0) && ([s] + u)[1..] == u && Files(0) == []
  {
    hide Classify, StepAt;
    assert ([s] + u)[0] == s;
    assert FirstNonFile(p, [s] + u, 0) == 0;
  }

  // ---------------------------------------------------------------------------
  // An argument behind an equals sign
  // ---------------------------------------------------------------------------

  lemma CombinedClass(p: Params, name: string, v: string)
    requires SwitchName(name)
    ensures var s := name + "=" + v;
      IsSwitch(p, s) && Name(p, s) == name && Combined(p, s) == Some(v)
  {
    EqualsBehind(name, v);
    var s := name + "=" + v;
    assert s[0] == '-' && s[..|name|] == name && s[|name| + 1..] == v;
  }

  /** The error that a type makes of an argument behind an equals sign. */
  function CombinedError(p: Params, t: ArgType): int {
    if t == NoArg then -3 else if t == RequiredSeparate && p.flags.pedantic then -4 else 0
  }

  /** name=v for an option that is found: its id and text, and v; what follows is left alone. */
  lemma CombinedReported(p: Params, name: string, v: string, n: nat, u: seq<string>)
    requires SwitchName(name) && n < |p.table| && Lookup(p.flags, p.table, name) == n
    ensures var o := p.table[n];
      NextStep(p, "", [name + "=" + v] + u) == Reported(Report(o.id, o.text, Some(v), CombinedError(p, o.argType)), [true])
  {
    hide Lookup, NextStep;
    var s := name + "=" + v;
    CombinedClass(p, name, v);
    assert Classify(p, s) == Found(n, Some(v));
    FirstArgument(p, s, u);
    assert Files(0) + [true] + [] == [true];
  }

  // ---------------------------------------------------------------------------
  // A bare name
  // ---------------------------------------------------------------------------

  /** A switch without an equals sign, or no switch at all: the argument itself is looked up. */
  predicate Bare(p: Params, s: string) {
    SwitchName(s) || (s != "" && !LooksLikeSwitch(p, s))
  }

  lemma BareClass(p: Params, s: string)
    requires Bare(p, s)
    ensures Name(p, s) == s && Combined(p, s) == None && (IsSwitch(p, s) <==> s[0] == '-')
  {
    if s[0] == '-' {
      EqualsBehind(s, "");
      assert s[..|s|] == s;
    }
  }

  /** Whether an argument may not be taken for an option's own. */
  predicate LooksLikeSwitch(p: Params, s: string) {
    s != "" && (s[0] == '-' || (p.windows && !p.flags.noSlash && s[0] == '/' && |s| > 1 && s[1] != '-'))
  }

  /** What a bare option reports, and how many arguments it uses. */
  function BareOutcome(p: Params, o: Opt, u: seq<string>): Outcome {
    match o.argType
    case NoArg => Reported(Report(o.id, o.text, None, 0), [true])
    case OptionalCombined => Reported(Report(o.id, o.text, None, 0), [true])
    case Multi => Reported(Report(o.id, o.text, None, 0), [true])
    case RequiredCombined => Reported(Report(o.id, o.text, None, -5), [true])
    case RequiredSeparate =>
      if u == [] then Reported(Report(o.id, o.text, None, -5), [true])
      else if !p.flags.noErr && LooksLikeSwitch(p, u[0]) then Reported(Report(o.id, o.text, None, -6), [true])
      else Reported(Report(o.id, o.text, Some(u[0]), 0), [true, true])
  }

  lemma SwitchLooks(p: Params, s: string)
    ensures IsSwitch(p, s) <==> LooksLikeSwitch(p, s)
  {
  }

  lemma AcceptBare(p: Params, n: nat, u: seq<string>)
    requires n < |p.table|
    ensures var o, b := Accept(p, n, None, u), BareOutcome(p, p.table[n], u);
      o.(marks := [true] + o.marks) == b
  {
    hide IsSwitch, LooksLikeSwitch;
    if u != [] {
      SwitchLooks(p, u[0]);
      if !p.flags.noErr && IsSwitch(p, u[0]) {
        assert TakeArgs(p, u, 1) == -6;
      }
    }
    assert [true] + [] == [true] && [true] + [true] == [true, true];
  }

  /** A name by itself: the argument that the type asks for is the one that follows, or it is missing. */
  lemma BareReported(p: Params, s: string, n: nat, u: seq<string>)
    requires Bare(p, s) && n < |p.table| && Lookup(p.flags, p.table, s) == n
    ensures NextStep(p, "", [s] + u) == BareOutcome(p, p.table[n], u)
  {
    hide Lookup, NextStep, Accept, BareOutcome;
    BareClass(p, s);
    assert Classify(p, s) == Found(n, None);
    FirstArgument(p, s, u);
    AcceptBare(p, n, u);
    assert Files(0) + [true] + Accept(p, n, None, u).marks == [true] + Accept(p, n, None, u).marks;
  }

  // ---------------------------------------------------------------------------
  // Short forms
  // ---------------------------------------------------------------------------

  /** Two or more characters behind one hyphen, which name no option themselves. */
  predicate ShortForm(p: Params, c: char, v: string) {
    c != '-' && v != "" && SwitchName(['-', c] + v) && Lookup(p.flags, p.table, ['-', c] + v) < 0
  }

  lemma ShortFormClass(p: Params, c: char, v: string)
    requires ShortForm(p, c, v)
    ensures var s := ['-', c] + v;
      && Name(p, s) == s && Combined(p, s) == None && IsSwitch(p, s) && IsShortForm(s)
      && s[1] == c && s[2..] == v && s[1..] == [c] + v
  {
    hide Lookup;
    BareClass(p, ['-', c] + v);
  }

  /** -cv with the option -c, which may have a combined argument: v is that. */
  lemma ShortArgReported(p: Params, c: char, v: string, n: nat, u: seq<string>)
    requires ShortForm(p, c, v) && p.flags.shortArg && n < |p.table| && Lookup(p.flags, p.table, ['-', c]) == n
    requires p.table[n].argType in {RequiredCombined, OptionalCombined}
    ensures NextStep(p, "", [['-', c] + v] + u) == Reported(Report(p.table[n].id, p.table[n].text, Some(v), 0), [true])
  {
    hide Lookup, NextStep, Name, Combined, IsSwitch, IsShortForm;
    var s := ['-', c] + v;
    ShortFormClass(p, c, v);
    assert Classify(p, s) == Found(n, Some(v));
    FirstArgument(p, s, u);
    assert Files(0) + [true] + [] == [true];
  }

  /** The option of a single character does not take the rest for its argument. */
  predicate NoShortArg(p: Params, c: char) {
    var n := Lookup(p.flags, p.table, ['-', c]);
    !p.flags.shortArg || n < 0 || p.table[n].argType in {NoArg, RequiredSeparate, Multi}
  }

  /** A clump: its first character is reported as the option that it is exactly, and the rest is left for later calls. */
  lemma ClumpReported(p: Params, c: char, v: string, n: nat, u: seq<string>)
    requires ShortForm(p, c, v) && NoShortArg(p, c) && p.flags.clump
    requires n < |p.table| && Lookup(EXACT_ONLY, p.table, ['-', c]) == n
    ensures var o := p.table[n];
      NextStep(p, "", [['-', c] + v] + u) ==
        if o.argType == NoArg then Outcome(true, Report(o.id, o.text, None, 0), v, [true])
        else if o.argType == RequiredCombined then Reported(Report(o.id, o.text, Some(v), 0), [true])
        else Outcome(true, Report(-1, o.text, None, -5), v, [true])
  {
    hide Lookup, Name, Combined, IsSwitch, IsShortForm;
    ClumpStepsInto(p, c, v, u);
    assert ([c] + v)[1..] == v && ([c] + v)[0] == c;
    assert [true] + [] == [true];
  }

  /** The characters behind the hyphen are what NextClumped goes on with. */
  lemma ClumpStepsInto(p: Params, c: char, v: string, u: seq<string>)
    requires ShortForm(p, c, v) && NoShortArg(p, c) && p.flags.clump
    ensures var o := NextStep(p, [c] + v, u); NextStep(p, "", [['-', c] + v] + u) == o.(marks := [true] + o.marks)
  {
    hide Lookup, NextStep, Name, Combined, IsSwitch, IsShortForm;
    var s := ['-', c] + v;
    ShortFormClass(p, c, v);
    assert Classify(p, s) == Clumped([c] + v);
    FirstArgument(p, s, u);
    var o := NextStep(p, [c] + v, u);
    assert Files(0) + [true] + o.marks == [true] + o.marks;
  }

  /** A character that is no option is reported, or left out when errors are not to be reported. */
  lemma ClumpedUnknown(p: Params, c: char, rest: string, u: seq<string>)
    requires Lookup(EXACT_ONLY, p.table, ['-', c]) < 0
    ensures var e := Lookup(EXACT_ONLY, p.table, ['-', c]);
      NextStep(p, [c] + rest, u) ==
        if p.flags.noErr then NextStep(p, rest, u) else Outcome(true, Report(-1, ['-', c], None, e), rest, [])
  {
    hide Lookup;
    assert ([c] + rest)[1..] == rest && ([c] + rest)[0] == c;
  }

  // ---------------------------------------------------------------------------
  // Neither
  // ---------------------------------------------------------------------------

  /** No other reading of a short form is asked for. */
  predicate NoOtherForm(p: Params, s: string) {
    !p.flags.clump && (!p.flags.shortArg || |s| <= 2 || s[1] == '-' || NoShortArg(p, s[1]))
  }

  /** A switch that is not found: its name, its argument if any, and the error of the lookup. */
  lemma UnknownReported(p: Params, name: string, v: string, u: seq<string>)
    requires SwitchName(name) && Lookup(p.flags, p.table, name) < 0 && !p.flags.noErr
    ensures var e := Lookup(p.flags, p.table, name);
      && NextStep(p, "", [name + "=" + v] + u) == Reported(Report(-1, name, Some(v), e), [true])
      && (NoOtherForm(p, name) ==> NextStep(p, "", [name] + u) == Reported(Report(-1, name, None, e), [true]))
  {
    hide Lookup, NextStep, Name, Combined, IsSwitch;
    var s, e := name + "=" + v, Lookup(p.flags, p.table, name);
    CombinedClass(p, name, v);
    assert Classify(p, s) == Bad(e);
    FirstArgument(p, s, u);
    assert Files(0) + [true] == [true];
    if NoOtherForm(p, name) {
      BareClass(p, name);
      assert Classify(p, name) == Bad(e);
      FirstArgument(p, name, u);
    }
  }

  /** What is neither an option nor a switch that is to be reported is a file: the call goes on behind it. */
  lemma FileSkipped(p: Params, s: string, u: seq<string>)
    requires Bare(p, s) && Lookup(p.flags, p.table, s) < 0 && (s[0] == '-' ==> p.flags.noErr && NoOtherForm(p, s))
    ensures var o := NextStep(p, "", u); NextStep(p, "", [s] + u) == o.(marks := [false] + o.marks)
  {
    hide Lookup, Name, Combined, IsSwitch;
    BareClass(p, s);
    assert Classify(p, s) == File;
    SkipOne(p, s, u);
  }

  lemma {:induction false} FirstBehind(p: Params, s: string, u: seq<string>, j: nat)
    requires j <= |u|
    ensures FirstNonFile(p, [s] + u, j + 1) == FirstNonFile(p, u, j) + 1
    decreases |u| - j
  {
    hide Classify;
    if j < |u| && Classify(p, u[j]).File? {
      FirstBehind(p, s, u, j + 1);
    }
  }

  lemma SkipOne(p: Params, s: string, u: seq<string>)
    requires Classify(p, s) == File
    ensures var o := NextStep(p, "", u); NextStep(p, "", [s] + u) == o.(marks := [false] + o.marks)
  {
    hide Classify, Accept;
    FirstBehind(p, s, u, 0);
    var j := FirstNonFile(p, u, 0);
    assert FirstNonFile(p, [s] + u, 0) == j + 1;
    assert Files(j + 1) == [false] + Files(j);
    assert Files(|u| + 1) == [false] + Files(|u|);
    if j < |u| {
      assert ([s] + u)[j + 1] == u[j] && ([s] + u)[j + 2..] == u[j + 1..];
      MarksBehind(j, StepTail(p, u, j));
    }
  }

  /** The marks behind those of argument j. */
  function StepTail(p: Params, u: seq<string>, j: nat): seq<bool>
    requires j < |u|
  {
    match Classify(p, u[j])
    case Bad(_) => []
    case Found(n, arg) => Accept(p, n, arg, u[j + 1..]).marks
    case Clumped(chars) => NextStep(p, chars, u[j + 1..]).marks
    case File => []
  }

  lemma MarksBehind(j: nat, marks: seq<bool>)
    ensures Files(j + 1) + [true] + marks == [false] + (Files(j) + [true] + marks)
    ensures Files(j + 1) + [true] == [false] + (Files(j) + [true])
  {
    assert Files(j + 1) == [false] + Files(j);
  }

  /** With a slash for the hyphen, where that is allowed, the same is reported. */
  lemma SlashReported(p: Params, w: string, u: seq<string>)
    requires p.windows && !p.flags.noSlash && w != "" && w[0] != '-'
    ensures NextStep(p, "", ["/" + w] + u).report == NextStep(p, "", ["-" + w] + u).report
    ensures NextStep(p, "", ["/" + w] + u).clump == NextStep(p, "", ["-" + w] + u).clump
    ensures NextStep(p, "", ["/" + w] + u).marks == NextStep(p, "", ["-" + w] + u).marks
  {
    hide Lookup, NextStep;
    SlashClass(p, w);
    var a, b := "/" + w, "-" + w;
    if Classify(p, a).File? {
      SkipOne(p, a, u);
      SkipOne(p, b, u);
    } else {
      FirstArgument(p, a, u);
      FirstArgument(p, b, u);
    }
  }

  lemma SlashClass(p: Params, w: string)
    requires p.windows && !p.flags.noSlash && w != "" && w[0] != '-'
    ensures Classify(p, "/" + w) == Classify(p, "-" + w) && Name(p, "/" + w) == Name(p, "-" + w)
    ensures Combined(p, "/" + w) == Combined(p, "-" + w)
  {
    hide Lookup;
    assert Prepared(p, "/" + w) == "-" + w == Prepared(p, "-" + w);
  }

  /** MultiArg takes n arguments exactly when they are there and, unless errors are suppressed, none looks like a switch. */
  lemma TakeArgsIff(p: Params, u: seq<string>, n: nat)
    ensures TakeArgs(p, u, n) == 0 <==> n <= |u| && (p.flags.noErr || forall i :: 0 <= i < n ==> !LooksLikeSwitch(p, u[i]))
    ensures TakeArgs(p, u, n) == -5 <==> n > |u|
    ensures TakeArgs(p, u, n) in {0, -5, -6}
  {
    hide IsSwitch, LooksLikeSwitch;
    if n <= |u| {
      forall i | 0 <= i < n
        ensures IsSwitch(p, u[i]) <==> LooksLikeSwitch(p, u[i])
      {
        SwitchLooks(p, u[i]);
      }
    }
  }

  // ---------------------------------------------------------------------------
  // Upper and lower case
  // ---------------------------------------------------------------------------

  /** One is the capital of the other. */
  predicate SameLetter(a: char, b: char) {
    ('A' <= a <= 'Z' && b as int == a as int + 32) || ('A' <= b <= 'Z' && a as int == b as int + 32)
  }

  /** The flag that decides is that of single characters behind a hyphen, of longer options, or of words. */
  lemma CaseRules(f: Flags, a: char, b: char)
    requires a != '-' && b != '-'
    ensures Exact(f, ['-', a], ['-', b]) <==> a == b || (f.icaseShort && SameLetter(a, b))
    ensures Exact(f, ['-', '-', a], ['-', '-', b]) <==> a == b || (f.icaseLong && SameLetter(a, b))
    ensures Exact(f, ['-', 'x', a], ['-', 'x', b]) <==> a == b || (f.icaseLong && SameLetter(a, b))
    ensures Exact(f, [a], [b]) <==> a == b || (f.icaseWord && SameLetter(a, b))
  {
    HyphensAtLeast(['-', a], 1);
    HyphensAtLeast(['-', b], 1);
    HyphensAtLeast(['-', 'x', a], 1);
    HyphensAtLeast(['-', 'x', b], 1);
    HyphensAtLeast(['-', '-', a], 2);
    HyphensAtLeast(['-', '-', b], 2);
    LowerAlike(a, b);
  }

  lemma LowerAlike(a: char, b: char)
    ensures Lower(a) == Lower(b) <==> a == b || SameLetter(a, b)
  {
  }

  /** In a clump an option is found under its own text and no other. */
  lemma ClumpsAreExact(table: seq<Opt>, t: string, n: nat)
    requires n < |table| && Lookup(EXACT_ONLY, table, t) == n
    ensures table[n].text == t
  {
    hide Lookup;
    LookupFindsIff(EXACT_ONLY, table, t, n);
    var s := table[n].text;
    forall i | 0 <= i < |s|
      ensures s[i] == t[i]
    {
      assert i < Hyphens(s) || IsEqual(s[i], t[i], IgnoresCase(EXACT_ONLY, s));
    }
  }

  // ---------------------------------------------------------------------------
  // The options of the server
  // ---------------------------------------------------------------------------

  const NO_FLAGS: Flags := Flags(false, false, false, false, false, false, false, false, false)

  function ServerOptions(): Params {
    Params(NO_FLAGS, [
      Opt(0, "-?", NoArg), Opt(0, "-h", NoArg), Opt(0, "-help", NoArg), Opt(0, "--help", NoArg),
      Opt(1, "-p", RequiredSeparate), Opt(1, "-port", RequiredSeparate), Opt(1, "--port", RequiredSeparate)], false)
  }

  lemma PortFound()
    ensures Lookup(NO_FLAGS, ServerOptions().table, "--port") == 6
  {
    var table := ServerOptions().table;
    assert Exact(NO_FLAGS, "--port", table[6].text);
    forall i | 0 <= i < 6
      ensures !Exact(NO_FLAGS, "--port", table[i].text)
    {
      assert |table[i].text| != 6 || i == 3;
      assert !IsEqual("--help"[2], "--port"[2], false);
      HyphensAtLeast("--help", 2);
    }
    LookupFindsIff(NO_FLAGS, table, "--port", 6);
  }

  /** --port=8080 and --port 8080 both report 8080. */
  lemma PortReported()
    ensures NextStep(ServerOptions(), "", ["--port=8080"]) == Reported(Report(1, "--port", Some("8080"), 0), [true])
    ensures NextStep(ServerOptions(), "", ["--port", "8080"]) == Reported(Report(1, "--port", Some("8080"), 0), [true, true])
  {
    hide Lookup, NextStep;
    PortFound();
    CombinedReported(ServerOptions(), "--port", "8080", 6, []);
    assert "--port" + "=" + "8080" == "--port=8080";
    assert ["--port=8080"] + [] == ["--port=8080"];
    BareReported(ServerOptions(), "--port", 6, ["8080"]);
    assert ["--port"] + ["8080"] == ["--port", "8080"];
  }
}
