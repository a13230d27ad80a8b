// The fields of a unit that dwarf_lookup_pc fills in while other threads read them. Stores are
// releases, the load of lines is an acquire, and the other loads are plain; every location has a
// history, and a load may return any message that is not older than what its thread has seen.
module Publication {
  import opened Words

  /** The stores, in program order. */
  const LINES_COUNT: nat := 0
  const FUNCTIONS: nat := 1
  const FUNCTIONS_COUNT: nat := 2
  const LINES: nat := 3
  const FIELDS: nat := 4

  /** What reading the unit gives, whichever thread does it; no lines is the failure marked by -1. */
  datatype Truth<L, F> = Truth(lines: Option<seq<L>>, functions: seq<F>)

  /** A pointer to an array is named after the thread that allocated and filled it. */
  datatype Val = Count(n: nat) | Null | MinusOne | LinesOf(writer: nat) | FunctionsOf(writer: nat)

  /** The messages a thread is aware of, and the threads whose arrays it is sure to see filled. */
  datatype View = View(at: seq<nat>, filled: set<nat>)

  datatype Msg = Msg(val: Val, view: View)

  datatype Pc = Start | Fill(next: nat) | Ready

  /** One load, and whether the array it leads to is seen as its writer filled it. */
  datatype Seen = Seen(field: nat, val: Val, visible: bool)

  datatype Thread = Thread(pc: Pc, view: View, log: seq<Seen>)

  datatype State = State(mem: seq<map<nat, Msg>>, threads: seq<Thread>)

  /** Timestamps are positions in the modification order of the location. */
  datatype Action = Load(i: nat, t: nat) | Store(i: nat, t: nat) | Read(i: nat, field: nat, t: nat)

  predicate Shaped(v: View) {
    |v.at| == FIELDS
  }

  ghost predicate Formed(s: State) {
    && |s.mem| == FIELDS
    && (forall i :: 0 <= i < |s.threads| ==> Shaped(s.threads[i].view))
    && forall k, t :: 0 <= k < FIELDS && t in s.mem[k] ==> Shaped(s.mem[k][t].view)
  }

  function Later(a: nat, b: nat): nat {
    if a < b then b else a
  }

  function Join(a: View, b: View): View
    requires Shaped(a) && Shaped(b)
  {
    View(seq(FIELDS, k requires 0 <= k < FIELDS => Later(a.at[k], b.at[k])), a.filled + b.filled)
  }

  function Visible(v: Val, view: View): bool {
    match v
    case LinesOf(w) => w in view.filled
    case FunctionsOf(w) => w in view.filled
    case _ => true
  }

  /** What thread w stores in a field. */
  function Good<L, F>(truth: Truth<L, F>, k: nat, w: nat): Val {
    match k
    case LINES_COUNT => Count(if truth.lines.None? then 0 else |truth.lines.value|)
    case FUNCTIONS => if Useful(truth) == [] then Null else FunctionsOf(w)
    case FUNCTIONS_COUNT => Count(|Useful(truth)|)
    case _ => if truth.lines.None? then MinusOne else LinesOf(w)
  }

  /** Functions are read only when the lines could be. */
  function Useful<L, F>(truth: Truth<L, F>): seq<F> {
    if truth.lines.None? then [] else truth.functions
  }

  function NewView(): View {
    View([0, 0, 0, 0], {})
  }

  function Init(n: nat): State {
    State([map[0 := Msg(Count(0), NewView())], map[0 := Msg(Null, NewView())], map[0 := Msg(Count(0), NewView())],
           map[0 := Msg(Null, NewView())]],
          seq(n, _ => Thread(Start, NewView(), [])))
  }

  ghost predicate Enabled(s: State, a: Action) {
    && Formed(s) && a.i < |s.threads|
    && var th := s.threads[a.i];
      match a
      case Load(i, t) => th.pc == Start && t in s.mem[LINES] && t >= th.view.at[LINES]
      case Store(i, t) =>
        th.pc.Fill? && th.pc.next < FIELDS && t !in s.mem[th.pc.next] && t > th.view.at[th.pc.next]
      case Read(i, k, t) => th.pc == Ready && k < LINES && t in s.mem[k] && t >= th.view.at[k]
  }

  /** ordered: a load that depends on the value of an earlier load sees what that value's writer saw. */
  ghost function Apply<L, F>(truth: Truth<L, F>, ordered: bool, s: State, a: Action): State
    requires Enabled(s, a)
  {
    var th := s.threads[a.i];
    match a
    case Load(i, t) =>
      var msg := s.mem[LINES][t];
      var joined := Join(th.view, msg.view);
      var view := joined.(at := joined.at[LINES := t]);
      var th' := if msg.val == Null then Thread(Fill(0), view.(filled := view.filled + {i}), th.log)
                 else Thread(Ready, view, th.log + [Seen(LINES, msg.val, Visible(msg.val, view))]);
      s.(threads := s.threads[i := th'])
    case Store(i, t) =>
      var k := th.pc.next;
      var view := th.view.(at := th.view.at[k := t]);
      var val := Good(truth, k, i);
      var th' := if k + 1 < FIELDS then Thread(Fill(k + 1), view, th.log)
                 else Thread(Ready, view, th.log + [Seen(LINES, val, Visible(val, view))]);
      var history: map<nat, Msg> := s.mem[k][t := Msg(val, view)];
      State(s.mem[k := history], s.threads[i := th'])
    case Read(i, k, t) =>
      var msg := s.mem[k][t];
      var at := th.view.at[k := t];
      var view := View(at, if ordered then th.view.filled + msg.view.filled else th.view.filled);
      s.(threads := s.threads[i := Thread(Ready, view, th.log + [Seen(k, msg.val, Visible(msg.val, view))])])
  }

  /** s is the state after the actions, each of which could be taken. */
  ghost predicate Reaches<L, F>(truth: Truth<L, F>, ordered: bool, s0: State, run: seq<Action>, s: State)
    decreases |run|
  {
    if run == [] then s == s0
    else Enabled(s0, run[0]) && Reaches(truth, ordered, Apply(truth, ordered, s0, run[0]), run[1..], s)
  }

  // ---------------------------------------------------------------------------
  // Safety
  // ---------------------------------------------------------------------------

  /** A value that some thread's complete fill gives. */
  ghost predicate IsGood<L, F>(truth: Truth<L, F>, n: nat, k: nat, val: Val) {
    exists w :: 0 <= w < n && val == Good(truth, k, w)
  }

  /** Every message but the first is good, its writer's array is filled, and lines comes with the other fields. */
  ghost predicate GoodMsg<L, F>(truth: Truth<L, F>, n: nat, k: nat, msg: Msg) {
    && Shaped(msg.view) && IsGood(truth, n, k, msg.val) && Visible(msg.val, msg.view)
    && (k == LINES ==> forall f :: 0 <= f < LINES ==> msg.view.at[f] > 0)
  }

  /** A plain load of function_addrs leads to a filled array: dependent loads are ordered, or nobody races. */
  predicate Dependable<L, F>(truth: Truth<L, F>, n: nat, ordered: bool) {
    ordered || n <= 1 || Useful(truth) == []
  }

  ghost predicate GoodSeen<L, F>(truth: Truth<L, F>, n: nat, ordered: bool, e: Seen) {
    && e.field < FIELDS && IsGood(truth, n, e.field, e.val)
    && (e.field == LINES || Dependable(truth, n, ordered) ==> e.visible)
  }

  ghost predicate GoodThread<L, F>(truth: Truth<L, F>, n: nat, ordered: bool, i: nat, th: Thread) {
    && Shaped(th.view)
    && (th.pc.Fill? ==> th.pc.next < FIELDS && i in th.view.filled && forall f :: 0 <= f < th.pc.next ==> th.view.at[f] > 0)
    && (n <= 1 && th.pc != Start && truth.lines.Some? ==> i in th.view.filled)
    && (th.pc == Ready ==> forall f :: 0 <= f < LINES ==> th.view.at[f] > 0)
    && forall e :: 0 <= e < |th.log| ==> GoodSeen(truth, n, ordered, th.log[e])
  }

  ghost predicate Inv<L, F>(truth: Truth<L, F>, n: nat, ordered: bool, s: State) {
    && Formed(s) && |s.threads| == n
    && (forall i :: 0 <= i < n ==> GoodThread(truth, n, ordered, i, s.threads[i]))
    && (forall k, t :: 0 <= k < FIELDS && t in s.mem[k] && t > 0 ==> GoodMsg(truth, n, k, s.mem[k][t]))
    && 0 in s.mem[LINES] && s.mem[LINES][0].val == Null
  }

  lemma LoadKeepsInv<L, F>(truth: Truth<L, F>, n: nat, ordered: bool, s: State, i: nat, t: nat)
    requires Inv(truth, n, ordered, s) && Enabled(s, Load(i, t))
    ensures Inv(truth, n, ordered, Apply(truth, ordered, s, Load(i, t)))
  {
    assert t > 0 ==> GoodMsg(truth, n, LINES, s.mem[LINES][t]);
    assert GoodThread(truth, n, ordered, i, Apply(truth, ordered, s, Load(i, t)).threads[i]);
  }

  lemma StoreKeepsInv<L, F>(truth: Truth<L, F>, n: nat, ordered: bool, s: State, i: nat, t: nat)
    requires Inv(truth, n, ordered, s) && Enabled(s, Store(i, t))
    ensures Inv(truth, n, ordered, Apply(truth, ordered, s, Store(i, t)))
  {
    var s' := Apply(truth, ordered, s, Store(i, t));
    var k := s.threads[i].pc.next;
    assert IsGood(truth, n, k, Good(truth, k, i));
    assert GoodMsg(truth, n, k, s'.mem[k][t]);
    assert GoodThread(truth, n, ordered, i, s'.threads[i]);
  }

  lemma ReadKeepsInv<L, F>(truth: Truth<L, F>, n: nat, ordered: bool, s: State, i: nat, k: nat, t: nat)
    requires Inv(truth, n, ordered, s) && Enabled(s, Read(i, k, t))
    ensures Inv(truth, n, ordered, Apply(truth, ordered, s, Read(i, k, t)))
  {
    assert GoodMsg(truth, n, k, s.mem[k][t]);
    assert GoodThread(truth, n, ordered, i, Apply(truth, ordered, s, Read(i, k, t)).threads[i]);
  }

  lemma StepKeepsInv<L, F>(truth: Truth<L, F>, n: nat, ordered: bool, s: State, a: Action)
    requires Inv(truth, n, ordered, s) && Enabled(s, a)
    ensures Inv(truth, n, ordered, Apply(truth, ordered, s, a))
  {
    hide Inv, Enabled, Apply;
    match a {
      case Load(i, t) => LoadKeepsInv(truth, n, ordered, s, i, t);
      case Store(i, t) => StoreKeepsInv(truth, n, ordered, s, i, t);
      case Read(i, k, t) => ReadKeepsInv(truth, n, ordered, s, i, k, t);
    }
  }

  lemma {:induction false} RunKeepsInv<L, F>(truth: Truth<L, F>, n: nat, ordered: bool, s0: State, run: seq<Action>, s: State)
    requires Inv(truth, n, ordered, s0) && Reaches(truth, ordered, s0, run, s)
    ensures Inv(truth, n, ordered, s)
    decreases |run|
  {
    hide Inv, Apply, Enabled;
    if run != [] {
      StepKeepsInv(truth, n, ordered, s0, run[0]);
      RunKeepsInv(truth, n, ordered, Apply(truth, ordered, s0, run[0]), run[1..], s);
    }
  }

  /** What a value in a field means: the counts of what the unit has, and the arrays that some thread has made of it. */
  ghost predicate Means<L, F>(truth: Truth<L, F>, n: nat, field: nat, val: Val) {
    match truth.lines
    case None =>
      if field == LINES then val == MinusOne
      else if field == FUNCTIONS then val == Null
      else val == Count(0)
    case Some(lines) =>
      if field == LINES then val.LinesOf? && val.writer < n
      else if field == LINES_COUNT then val == Count(|lines|)
      else if field == FUNCTIONS_COUNT then val == Count(|truth.functions|)
      else if truth.functions == [] then val == Null
      else val.FunctionsOf? && val.writer < n
  }

  /** A thread that has seen lines sees only what a complete fill gives, however many threads race. */
  lemma PublicationSafe<L, F>(truth: Truth<L, F>, n: nat, ordered: bool, run: seq<Action>, s: State, i: nat, e: nat)
    requires Reaches(truth, ordered, Init(n), run, s) && i < |s.threads| && e < |s.threads[i].log|
    ensures var seen := s.threads[i].log[e];
      && seen.field < FIELDS && Means(truth, n, seen.field, seen.val)
      && (seen.field == LINES || Dependable(truth, n, ordered) ==> seen.visible)
  {
    RunKeepsInv(truth, n, ordered, Init(n), run, s);
    assert GoodThread(truth, n, ordered, i, s.threads[i]);
    assert GoodSeen(truth, n, ordered, s.threads[i].log[e]);
  }

  // ---------------------------------------------------------------------------
  // What racing writers still break
  // ---------------------------------------------------------------------------

  predicate Agree(a: Seen, b: Seen) {
    a.field == FUNCTIONS && b.field == FUNCTIONS ==> a.val == b.val
  }

  /** All loads of function_addrs by one thread, such as those of one lookup, give the same pointer. */
  ghost predicate Steady(s: State) {
    forall i, e, f :: 0 <= i < |s.threads| && 0 <= e < |s.threads[i].log| && 0 <= f < |s.threads[i].log| ==>
      Agree(s.threads[i].log[e], s.threads[i].log[f])
  }

  /** Every array that a thread is led to is seen filled. */
  ghost predicate AllVisible(s: State) {
    forall i, e :: 0 <= i < |s.threads| && 0 <= e < |s.threads[i].log| ==> s.threads[i].log[e].visible
  }

  /** Two threads find lines unset; one fills the unit and uses it while the other is filling it again. */
  function RacingRun(): seq<Action> {
    FillRun() + OvertakeRun()
  }

  function FillRun(): seq<Action> {
    [Load(0, 0), Load(1, 0), Store(0, 1), Store(0, 1), Store(0, 1), Store(0, 1)]
  }

  function OvertakeRun(): seq<Action> {
    [Read(0, FUNCTIONS, 1), Store(1, 2), Store(1, 2), Read(0, FUNCTIONS, 2)]
  }

  lemma {:induction false} RunAppend<L, F>(truth: Truth<L, F>, ordered: bool, s0: State, a: seq<Action>, s1: State,
                                           b: seq<Action>, s2: State)
    requires Reaches(truth, ordered, s0, a, s1) && Reaches(truth, ordered, s1, b, s2)
    ensures Reaches(truth, ordered, s0, a + b, s2)
    decreases |a|
  {
    hide Enabled, Apply;
    if a == [] {
      assert a + b == b;
    } else {
      assert (a + b)[1..] == a[1..] + b;
      RunAppend(truth, ordered, Apply(truth, ordered, s0, a[0]), a[1..], s1, b, s2);
    }
  }

  /** A step in front of what is left of a run. */
  lemma StepFirst<L, F>(truth: Truth<L, F>, ordered: bool, s0: State, run: seq<Action>, k: nat, s: State)
    requires k < |run| && Enabled(s0, run[k])
    requires Reaches(truth, ordered, Apply(truth, ordered, s0, run[k]), run[k + 1..], s)
    ensures Reaches(truth, ordered, s0, run[k..], s)
  {
    assert run[k..][1..] == run[k + 1..];
  }

  /** The first thread has made k of its stores, at timestamp 1, and the second none. */
  ghost predicate Filling<L, F>(truth: Truth<L, F>, n: nat, k: nat, s: State) {
    && Formed(s) && |s.threads| == n >= 2 && k <= FIELDS
    && s.threads[0].pc == (if k == FIELDS then Ready else Fill(k))
    && s.threads[0].view == View(seq(FIELDS, f => if f < k then 1 else 0), {0})
    && (forall e :: 0 <= e < |s.threads[0].log| ==> s.threads[0].log[e].field == LINES)
    && s.threads[1] == Thread(Fill(0), View([0, 0, 0, 0], {1}), [])
    && (forall f :: 0 <= f < FIELDS ==> s.mem[f].Keys == if f < k then {0, 1} else {0})
    && (k > FUNCTIONS ==> s.mem[FUNCTIONS][1].val == Good(truth, FUNCTIONS, 0) && s.mem[FUNCTIONS][1].view.filled == {0})
  }

  lemma BothLoad<L, F>(truth: Truth<L, F>, n: nat, ordered: bool) returns (s: State)
    requires n >= 2
    ensures Enabled(Init(n), Load(0, 0)) && Enabled(Apply(truth, ordered, Init(n), Load(0, 0)), Load(1, 0))
    ensures s == Apply(truth, ordered, Apply(truth, ordered, Init(n), Load(0, 0)), Load(1, 0)) && Filling(truth, n, 0, s)
  {
    s := Apply(truth, ordered, Apply(truth, ordered, Init(n), Load(0, 0)), Load(1, 0));
  }

  lemma NextStore<L, F>(truth: Truth<L, F>, n: nat, ordered: bool, k: nat, s: State) returns (s': State)
    requires k < FIELDS && Filling(truth, n, k, s)
    ensures Enabled(s, Store(0, 1)) && s' == Apply(truth, ordered, s, Store(0, 1)) && Filling(truth, n, k + 1, s')
  {
    hide Useful, Visible;
    s' := Apply(truth, ordered, s, Store(0, 1));
    assert forall f :: 0 <= f < FIELDS && f != k ==> s'.mem[f] == s.mem[f];
    assert s'.mem[k].Keys == s.mem[k].Keys + {1};
  }

  /** From there the first thread loads function_addrs, and the second starts its stores. */
  lemma Used<L, F>(truth: Truth<L, F>, n: nat, ordered: bool, s: State) returns (s': State)
    requires Filling(truth, n, FIELDS, s)
    ensures Enabled(s, Read(0, FUNCTIONS, 1)) && Enabled(Apply(truth, ordered, s, Read(0, FUNCTIONS, 1)), Store(1, 2))
    ensures s' == Apply(truth, ordered, Apply(truth, ordered, s, Read(0, FUNCTIONS, 1)), Store(1, 2))
    ensures Formed(s') && |s'.threads| == n && s'.mem[FUNCTIONS].Keys == {0, 1}
    ensures s'.threads[1] == Thread(Fill(1), View([2, 0, 0, 0], {1}), [])
    ensures s'.threads[0].pc == Ready && s'.threads[0].view.filled == {0} && s'.threads[0].view.at[FUNCTIONS] == 1
    ensures s'.threads[0].log == s.threads[0].log + [Seen(FUNCTIONS, Good(truth, FUNCTIONS, 0), true)]
  {
    var s1 := Apply(truth, ordered, s, Read(0, FUNCTIONS, 1));
    s' := Apply(truth, ordered, s1, Store(1, 2));
  }

  /** The second stores its function_addrs, and the first loads that field again. */
  lemma Overtaken<L, F>(truth: Truth<L, F>, n: nat, ordered: bool, s: State) returns (s': State)
    requires Formed(s) && |s.threads| == n >= 2 && s.mem[FUNCTIONS].Keys == {0, 1}
    requires s.threads[1] == Thread(Fill(1), View([2, 0, 0, 0], {1}), [])
    requires s.threads[0].pc == Ready && s.threads[0].view.filled == {0} && s.threads[0].view.at[FUNCTIONS] == 1
    requires Useful(truth) != []
    ensures Enabled(s, Store(1, 2)) && Enabled(Apply(truth, ordered, s, Store(1, 2)), Read(0, FUNCTIONS, 2))
    ensures s' == Apply(truth, ordered, Apply(truth, ordered, s, Store(1, 2)), Read(0, FUNCTIONS, 2))
    ensures |s'.threads| == n
    ensures s'.threads[0].log == s.threads[0].log + [Seen(FUNCTIONS, FunctionsOf(1), ordered)]
  {
    var s1 := Apply(truth, ordered, s, Store(1, 2));
    s' := Apply(truth, ordered, s1, Read(0, FUNCTIONS, 2));
  }

  lemma FillingThreads<L, F>(truth: Truth<L, F>, n: nat, s: State)
    requires Filling(truth, n, FIELDS, s)
    ensures |s.threads| == n
  {
  }

  lemma FirstFills<L, F>(truth: Truth<L, F>, n: nat, ordered: bool) returns (s: State)
    requires n >= 2
    ensures Reaches(truth, ordered, Init(n), FillRun(), s) && Filling(truth, n, FIELDS, s)
    ensures |s.threads| == n
  {
    hide Filling, Enabled, Apply;
    var s2 := BothLoad(truth, n, ordered);
    var s3 := NextStore(truth, n, ordered, 0, s2);
    var s4 := NextStore(truth, n, ordered, 1, s3);
    var s5 := NextStore(truth, n, ordered, 2, s4);
    s := NextStore(truth, n, ordered, 3, s5);
    assert |s.threads| == n by { FillingThreads(truth, n, s); }
    var run := FillRun();
    StepFirst(truth, ordered, s5, run, 5, s);
    StepFirst(truth, ordered, s4, run, 4, s);
    StepFirst(truth, ordered, s3, run, 3, s);
    StepFirst(truth, ordered, s2, run, 2, s);
    StepFirst(truth, ordered, Apply(truth, ordered, Init(n), Load(0, 0)), run, 1, s);
    StepFirst(truth, ordered, Init(n), run, 0, s);
    assert run[0..] == run;
  }

  /** The whole run: the first thread is led to the second's array, which it need not see filled. */
  lemma Racing<L, F>(truth: Truth<L, F>, n: nat, ordered: bool) returns (s: State, e: nat)
    requires n >= 2 && Useful(truth) != []
    ensures Reaches(truth, ordered, Init(n), RacingRun(), s)
    ensures |s.threads| == n && e + 1 < |s.threads[0].log|
    ensures s.threads[0].log[e] == Seen(FUNCTIONS, FunctionsOf(0), true)
    ensures s.threads[0].log[e + 1] == Seen(FUNCTIONS, FunctionsOf(1), ordered)
  {
    hide Filling, Enabled, Apply, FillRun, Init;
    var s0 := FirstFills(truth, n, ordered);
    e := |s0.threads[0].log|;
    var s2 := Used(truth, n, ordered, s0);
    s := Overtaken(truth, n, ordered, s2);
    var run := OvertakeRun();
    StepFirst(truth, ordered, Apply(truth, ordered, s2, Store(1, 2)), run, 3, s);
    StepFirst(truth, ordered, s2, run, 2, s);
    StepFirst(truth, ordered, Apply(truth, ordered, s0, Read(0, FUNCTIONS, 1)), run, 1, s);
    StepFirst(truth, ordered, s0, run, 0, s);
    assert run[0..] == run;
    RunAppend(truth, ordered, Init(n), FillRun(), s0, run, s);
  }

  ghost predicate AlwaysSteady<L, F>(truth: Truth<L, F>, n: nat, ordered: bool) {
    forall run, s :: Reaches(truth, ordered, Init(n), run, s) ==> Steady(s)
  }

  ghost predicate AlwaysVisible<L, F>(truth: Truth<L, F>, n: nat, ordered: bool) {
    forall run, s :: Reaches(truth, ordered, Init(n), run, s) ==> AllVisible(s)
  }

  /**
   * dwarf_lookup_pc loads function_addrs again for the pointer difference in its forward walk. That
   * is the array it searched, in all runs, only when no second thread may look up at the same time.
   */
  lemma SteadyIff<L, F>(truth: Truth<L, F>, n: nat, ordered: bool)
    ensures AlwaysSteady(truth, n, ordered) <==> n <= 1 || Useful(truth) == []
  {
    if n <= 1 || Useful(truth) == [] {
      forall run, s | Reaches(truth, ordered, Init(n), run, s)
        ensures Steady(s)
      {
        SteadyWhenAlone(truth, n, ordered, run, s);
      }
    } else {
      var s, e := Racing(truth, n, ordered);
      assert !Agree(s.threads[0].log[e], s.threads[0].log[e + 1]);
    }
  }

  lemma SteadyWhenAlone<L, F>(truth: Truth<L, F>, n: nat, ordered: bool, run: seq<Action>, s: State)
    requires n <= 1 || Useful(truth) == []
    requires Reaches(truth, ordered, Init(n), run, s)
    ensures Steady(s)
  {
    hide Reaches, Init, Formed;
    RunKeepsInv(truth, n, ordered, Init(n), run, s) by { InitHolds(truth, n, ordered); }
    forall i, e, f | 0 <= i < |s.threads| && 0 <= e < |s.threads[i].log| && 0 <= f < |s.threads[i].log|
      ensures Agree(s.threads[i].log[e], s.threads[i].log[f])
    {
      assert GoodThread(truth, n, ordered, i, s.threads[i]);
      assert GoodSeen(truth, n, ordered, s.threads[i].log[e]) && GoodSeen(truth, n, ordered, s.threads[i].log[f]);
    }
  }

  lemma InitHolds<L, F>(truth: Truth<L, F>, n: nat, ordered: bool)
    ensures Inv(truth, n, ordered, Init(n))
  {
  }

  /** The plain load of function_addrs is enough only where hardware keeps dependent loads in order. */
  lemma VisibleIff<L, F>(truth: Truth<L, F>, n: nat, ordered: bool)
    ensures AlwaysVisible(truth, n, ordered) <==> ordered || n <= 1 || Useful(truth) == []
  {
    hide Reaches, Init, Formed;
    if Dependable(truth, n, ordered) {
      forall run, s | Reaches(truth, ordered, Init(n), run, s)
        ensures AllVisible(s)
      {
        forall i: nat, e: nat | i < |s.threads| && e < |s.threads[i].log|
          ensures s.threads[i].log[e].visible
        {
          PublicationSafe(truth, n, ordered, run, s, i, e);
        }
      }
    } else {
      var s, e := Racing(truth, n, ordered);
      assert !s.threads[0].log[e + 1].visible;
    }
  }
}
