// Appending to the linked list of modules: the walk to NULL and compare-and-swap that
// backtrace_dwarf_add and elf_add_syminfo_data share, with readers that walk the list meanwhile.
module AppendList {
  import opened Words

  /**
   * Pointer cells: cell 0 is the field in the state, and cell k + 1 is the next field of node k.
   * Node k is what thread k adds.
   */
  type Cells = seq<Option<nat>>

  /** Going on, about to swap the NULL it found in a cell, done; or reading along the list. */
  datatype Pc = Walking(at: nat) | AtNull(at: nat) | Done | Reading(at: nat) | Read

  datatype Thread = Thread(pc: Pc, failures: nat, visited: seq<nat>)

  datatype State = State(cells: Cells, threads: seq<Thread>)

  /** The nodes from a cell on are exactly l, after which there is NULL. */
  ghost predicate Linked(cells: Cells, at: nat, l: seq<nat>)
    decreases |l|
  {
    && at < |cells|
    && if l == [] then cells[at] == None else cells[at] == Some(l[0]) && Linked(cells, l[0] + 1, l[1..])
  }

  /** Nodes of adders not yet swapped in, and nothing in the list. */
  ghost predicate Initial(s: State) {
    && |s.cells| == |s.threads| + 1
    && (forall c :: 0 <= c < |s.cells| ==> s.cells[c] == None)
    && forall i :: 0 <= i < |s.threads| ==> s.threads[i] in {Thread(Walking(0), 0, []), Thread(Reading(0), 0, [])}
  }

  /** One atomic step of thread i: a load that follows or finds NULL, or a compare-and-swap. */
  ghost predicate Step(s: State, i: nat, s': State) {
    && i < |s.threads|
    && var th := s.threads[i];
      match th.pc
      case Walking(at) =>
        at < |s.cells| && s' == s.(threads := s.threads[i := th.(pc :=
          if s.cells[at] == None then AtNull(at) else Walking(s.cells[at].value + 1))])
      case AtNull(at) =>
        at < |s.cells| &&
        s' == if s.cells[at] == None then State(s.cells[at := Some(i)], s.threads[i := th.(pc := Done)])
              else s.(threads := s.threads[i := th.(pc := Walking(0), failures := th.failures + 1)])
      case Reading(at) =>
        at < |s.cells| && s' == s.(threads := s.threads[i :=
          if s.cells[at] == None then th.(pc := Read)
          else Thread(Reading(s.cells[at].value + 1), th.failures, th.visited + [s.cells[at].value])])
      case _ => false
  }

  /** Every interleaving: each state follows from the one before by a step of the thread named. */
  ghost predicate Run(states: seq<State>, who: seq<nat>) {
    && |states| == |who| + 1 && Initial(states[0])
    && forall k :: 0 <= k < |who| ==> Step(states[k], who[k], states[k + 1])
  }

  // ---------------------------------------------------------------------------
  // The invariant
  // ---------------------------------------------------------------------------

  /** The cell after the first p nodes. */
  function CellAfter(l: seq<nat>, p: nat): nat
    requires p <= |l|
  {
    if p == 0 then 0 else l[p - 1] + 1
  }

  /** Cell by cell, what Linked says from the head. */
  ghost predicate Chained(cells: Cells, l: seq<nat>) {
    forall p :: 0 <= p <= |l| ==>
      && CellAfter(l, p) < |cells|
      && cells[CellAfter(l, p)] == if p < |l| then Some(l[p]) else None
  }

  ghost predicate Distinct(l: seq<nat>) {
    forall p, q :: 0 <= p < q < |l| ==> l[p] != l[q]
  }

  /** The list holds the nodes of the threads that are done, each once, and no other node has a successor. */
  ghost predicate Holds(s: State, l: seq<nat>) {
    && |s.cells| == |s.threads| + 1
    && Distinct(l) && Chained(s.cells, l)
    && (forall i :: 0 <= i < |s.threads| ==> (s.threads[i].pc == Done <==> i in l))
    && (forall p :: 0 <= p < |l| ==> l[p] < |s.threads|)
    && forall i :: 0 <= i < |s.threads| && i !in l ==> s.cells[i + 1] == None
  }

  /** Where a thread is in the list, and how often its swap can have failed by then. */
  ghost predicate Placed(th: Thread, l: seq<nat>) {
    match th.pc
    case Walking(at) => th.failures <= |l| && exists p :: 0 <= p <= |l| && at == CellAfter(l, p)
    case AtNull(at) => exists p :: th.failures <= p <= |l| && at == CellAfter(l, p)
    case Done => th.failures < |l|
    case Reading(at) => |th.visited| <= |l| && th.visited == l[..|th.visited|] && at == CellAfter(l, |th.visited|)
    case Read => |th.visited| <= |l| && th.visited == l[..|th.visited|]
  }

  ghost predicate Inv(s: State, l: seq<nat>) {
    Holds(s, l) && forall i :: 0 <= i < |s.threads| ==> Placed(s.threads[i], l)
  }

  lemma PlacedStays(th: Thread, l: seq<nat>, x: nat)
    requires Placed(th, l)
    ensures Placed(th, l + [x])
  {
    forall p: nat | p <= |l|
      ensures CellAfter(l + [x], p) == CellAfter(l, p)
    {
    }
    match th.pc {
      case Walking(at) =>
        var p :| 0 <= p <= |l| && at == CellAfter(l, p);
        assert at == CellAfter(l + [x], p);
      case AtNull(at) =>
        var p :| th.failures <= p <= |l| && at == CellAfter(l, p);
        assert at == CellAfter(l + [x], p);
      case _ =>
    }
  }

  /** A cell of the list is NULL only behind its last node. */
  lemma NullIsLast(s: State, l: seq<nat>, p: nat)
    requires Holds(s, l) && p <= |l| && s.cells[CellAfter(l, p)] == None
    ensures p == |l|
  {
  }

  lemma CellsDiffer(l: seq<nat>, p: nat, q: nat)
    requires Distinct(l) && p < q <= |l|
    ensures CellAfter(l, p) != CellAfter(l, q)
  {
  }

  lemma CellsOfLonger(l: seq<nat>, x: nat, p: nat)
    requires p <= |l|
    ensures CellAfter(l + [x], p) == CellAfter(l, p)
    ensures CellAfter(l + [x], |l| + 1) == x + 1
    ensures x !in l ==> CellAfter(l, p) != x + 1
  {
    assert p > 0 ==> l[p - 1] in l;
  }

  /** Storing a node in the last NULL of the list adds it to the list. */
  lemma ChainedGrows(cells: Cells, l: seq<nat>, node: nat)
    requires Chained(cells, l) && Distinct(l) && node !in l && node + 1 < |cells| && cells[node + 1] == None
    ensures CellAfter(l, |l|) < |cells| && Chained(cells[CellAfter(l, |l|) := Some(node)], l + [node])
    ensures Distinct(l + [node])
  {
    hide CellAfter;
    var l', at := l + [node], CellAfter(l, |l|);
    assert at < |cells|;
    var cells' := cells[at := Some(node)];
    forall p | 0 <= p <= |l'|
      ensures CellAfter(l', p) < |cells'| && cells'[CellAfter(l', p)] == if p < |l'| then Some(l'[p]) else None
    {
      if p < |l| {
        CellsDiffer(l, p, |l|);
        CellsOfLonger(l, node, p);
        assert cells[CellAfter(l, p)] == Some(l[p]);
      } else {
        CellsOfLonger(l, node, |l|);
      }
    }
  }

  lemma Swapped(s: State, l: seq<nat>, i: nat)
    requires Holds(s, l) && i < |s.threads| && i !in l && s.threads[i].pc != Done
    ensures CellAfter(l, |l|) < |s.cells|
    ensures var th := s.threads[i].(pc := Done);
      Holds(State(s.cells[CellAfter(l, |l|) := Some(i)], s.threads[i := th]), l + [i])
  {
    hide Chained;
    var l' := l + [i];
    ChainedGrows(s.cells, l, i);
    var at := CellAfter(l, |l|);
    var s' := State(s.cells[at := Some(i)], s.threads[i := s.threads[i].(pc := Done)]);
    assert forall j :: j in l' <==> j in l || j == i;
    forall j | 0 <= j < |s'.threads| && j !in l'
      ensures s'.cells[j + 1] == None
    {
      CellsOfLonger(l, j, |l|);
    }
  }

  /** A step keeps the list, or puts the node of the thread that takes it at the end. */
  lemma StepKeepsInv(s: State, i: nat, s': State, l: seq<nat>) returns (l': seq<nat>)
    requires Inv(s, l) && Step(s, i, s')
    ensures Inv(s', l') && (l' == l || l' == l + [i])
  {
    hide Holds;
    var th := s.threads[i];
    l' := l;
    assert Placed(th, l);
    match th.pc {
      case Walking(at) =>
        WalkOn(s, l, i);
      case AtNull(at) =>
        var p :| th.failures <= p <= |l| && at == CellAfter(l, p);
        if s.cells[at] == None {
          NullIsLast(s, l, p);
          NotYetIn(s, l, i);
          Swapped(s, l, i);
          l' := l + [i];
          forall j | 0 <= j < |s'.threads|
            ensures Placed(s'.threads[j], l')
          {
            if j != i {
              PlacedStays(s.threads[j], l, i);
            }
          }
        } else {
          Moved(s, l, i, s'.threads[i]);
          assert p < |l| by { ChainedAt(s, l, p); }
          assert CellAfter(l, 0) == 0;
        }
      case Reading(at) =>
        ReadOn(s, l, i);
      case _ =>
        assert false;
    }
  }

  lemma NotYetIn(s: State, l: seq<nat>, i: nat)
    requires Holds(s, l) && i < |s.threads| && s.threads[i].pc != Done
    ensures i !in l
  {
  }

  lemma ChainedAt(s: State, l: seq<nat>, p: nat)
    requires Holds(s, l) && p <= |l|
    ensures CellAfter(l, p) < |s.cells| && s.cells[CellAfter(l, p)] == if p < |l| then Some(l[p]) else None
  {
  }

  /** A change of a thread that does not finish it leaves the list as it is. */
  lemma Moved(s: State, l: seq<nat>, i: nat, th: Thread)
    requires Holds(s, l) && i < |s.threads| && s.threads[i].pc != Done && th.pc != Done
    ensures Holds(s.(threads := s.threads[i := th]), l)
  {
  }

  lemma WalkOn(s: State, l: seq<nat>, i: nat)
    requires Inv(s, l) && i < |s.threads| && s.threads[i].pc.Walking? && s.threads[i].pc.at < |s.cells|
    ensures var at := s.threads[i].pc.at;
      Inv(s.(threads := s.threads[i := s.threads[i].(pc :=
        if s.cells[at] == None then AtNull(at) else Walking(s.cells[at].value + 1))]), l)
  {
    hide Holds;
    var th := s.threads[i];
    var at := th.pc.at;
    assert Placed(th, l);
    var p :| 0 <= p <= |l| && at == CellAfter(l, p);
    ChainedAt(s, l, p);
    var th' := th.(pc := if s.cells[at] == None then AtNull(at) else Walking(s.cells[at].value + 1));
    Moved(s, l, i, th');
    assert p < |l| ==> CellAfter(l, p + 1) == l[p] + 1;
    assert Placed(th', l);
  }

  lemma ReadOn(s: State, l: seq<nat>, i: nat)
    requires Inv(s, l) && i < |s.threads| && s.threads[i].pc.Reading? && s.threads[i].pc.at < |s.cells|
    ensures var th := s.threads[i];
      Inv(s.(threads := s.threads[i :=
        if s.cells[th.pc.at] == None then th.(pc := Read)
        else Thread(Reading(s.cells[th.pc.at].value + 1), th.failures, th.visited + [s.cells[th.pc.at].value])]), l)
  {
    hide Holds;
    var th := s.threads[i];
    assert Placed(th, l);
    var p := |th.visited|;
    ChainedAt(s, l, p);
    var th' := if s.cells[th.pc.at] == None then th.(pc := Read)
               else Thread(Reading(s.cells[th.pc.at].value + 1), th.failures, th.visited + [s.cells[th.pc.at].value]);
    Moved(s, l, i, th');
    if p < |l| {
      assert l[..p + 1] == l[..p] + [l[p]];
    }
    assert Placed(th', l);
  }

  /** In every run there is one list per state, and each list is a prefix of the later ones. */
  lemma {:induction false} RunKeepsInv(states: seq<State>, who: seq<nat>) returns (lists: seq<seq<nat>>)
    requires Run(states, who)
    ensures |lists| == |states|
    ensures forall k :: 0 <= k < |lists| ==> Inv(states[k], lists[k])
    ensures forall k, m :: 0 <= k <= m < |lists| ==> lists[k] <= lists[m]
    decreases |who|
  {
    hide Inv, Step;
    if who == [] {
      lists := [[]];
      InitialHolds(states[0]);
    } else {
      var n := |who| - 1;
      lists := RunKeepsInv(states[..n + 1], who[..n]);
      var l := StepKeepsInv(states[n], who[n], states[n + 1], lists[n]);
      lists := lists + [l];
    }
  }

  lemma InitialHolds(s: State)
    requires Initial(s)
    ensures Inv(s, [])
  {
    forall i | 0 <= i < |s.threads|
      ensures Placed(s.threads[i], [])
    {
      assert CellAfter([], 0) == 0;
    }
  }

  // ---------------------------------------------------------------------------
  // What holds of every run
  // ---------------------------------------------------------------------------

  lemma {:induction false} ChainedIsLinked(cells: Cells, l: seq<nat>, p: nat)
    requires Chained(cells, l) && p <= |l|
    ensures CellAfter(l, 0) == 0 && l[0..] == l
    ensures Linked(cells, CellAfter(l, p), l[p..])
    decreases |l| - p
  {
    hide Distinct;
    assert CellAfter(l, p) < |cells|;
    if p < |l| {
      ChainedIsLinked(cells, l, p + 1);
      assert l[p..][1..] == l[p + 1..];
    }
  }

  lemma {:induction false} LinkedUnique(cells: Cells, at: nat, a: seq<nat>, b: seq<nat>)
    requires Linked(cells, at, a) && Linked(cells, at, b)
    ensures a == b
    decreases |a|
  {
    if a != [] {
      LinkedUnique(cells, a[0] + 1, a[1..], b[1..]);
      assert a == [a[0]] + a[1..] && b == [b[0]] + b[1..];
    }
  }

  /**
   * Following the pointers from the state ends, and meets exactly the nodes whose threads are done,
   * each once; what was in the list stays, in its place.
   */
  lemma ListsGrow(states: seq<State>, who: seq<nat>, k: nat, m: nat) returns (early: seq<nat>, late: seq<nat>)
    requires Run(states, who) && k <= m < |states|
    ensures Linked(states[k].cells, 0, early) && Linked(states[m].cells, 0, late) && early <= late
    ensures Distinct(late)
    ensures forall i :: 0 <= i < |states[m].threads| ==> (states[m].threads[i].pc == Done <==> i in late)
  {
    var lists := RunKeepsInv(states, who);
    early, late := lists[k], lists[m];
    assert Inv(states[k], early) && Inv(states[m], late);
    ChainedIsLinked(states[k].cells, early, 0);
    ChainedIsLinked(states[m].cells, late, 0);
  }

  /** What a reader has visited is a prefix of the list, then and at all later times. */
  lemma ReadersSeePrefix(states: seq<State>, who: seq<nat>, k: nat, m: nat, i: nat, late: seq<nat>)
    requires Run(states, who) && k <= m < |states| && i < |states[k].threads|
    requires states[k].threads[i].pc.Reading? || states[k].threads[i].pc.Read?
    requires Linked(states[m].cells, 0, late)
    ensures states[k].threads[i].visited <= late
  {
    var lists := RunKeepsInv(states, who);
    assert Inv(states[k], lists[k]) && Inv(states[m], lists[m]);
    assert Placed(states[k].threads[i], lists[k]);
    ChainedIsLinked(states[m].cells, lists[m], 0);
    LinkedUnique(states[m].cells, 0, late, lists[m]);
  }

  predicate Adds(th: Thread) {
    th.pc.Walking? || th.pc.AtNull? || th.pc.Done?
  }

  /** How many of the first n threads add a node. */
  function Adders(threads: seq<Thread>, n: nat): nat
    requires n <= |threads|
  {
    if n == 0 then 0 else Adders(threads, n - 1) + if Adds(threads[n - 1]) then 1 else 0
  }

  /** A reader stops when it has seen all that is in the list at that moment. */
  lemma ReadersSeeAll(states: seq<State>, who: seq<nat>, k: nat, i: nat)
    requires Run(states, who) && k < |who| && i < |states[k].threads| && i < |states[k + 1].threads|
    requires states[k].threads[i].pc.Reading? && states[k + 1].threads[i].pc.Read?
    ensures Linked(states[k].cells, 0, states[k + 1].threads[i].visited)
  {
    hide Holds;
    var lists := RunKeepsInv(states, who);
    var l, th := lists[k], states[k].threads[i];
    assert Inv(states[k], l) && Step(states[k], who[k], states[k + 1]);
    assert Placed(th, l);
    ChainedAt(states[k], l, |th.visited|);
    assert l[..|l|] == l;
    LinkedWhole(states[k], l);
  }

  lemma LinkedWhole(s: State, l: seq<nat>)
    requires Inv(s, l)
    ensures Linked(s.cells, 0, l)
  {
    ChainedIsLinked(s.cells, l, 0);
    assert l[0..] == l;
  }

  /** With k threads that add a node, the compare-and-swap of each fails at most k - 1 times. */
  lemma FailuresBounded(states: seq<State>, who: seq<nat>, m: nat, i: nat)
    requires Run(states, who) && m < |states| && i < |states[m].threads| && Adds(states[m].threads[i])
    ensures states[m].threads[i].failures < Adders(states[m].threads, |states[m].threads|)
  {
    hide Run, Chained;
    var lists := RunKeepsInv(states, who);
    var s, l := states[m], lists[m];
    assert Inv(s, l) && Placed(s.threads[i], l);
    assert forall p :: 0 <= p < |l| ==> l[p] in l;
    var all := if s.threads[i].pc == Done then l else l + [i];
    assert Distinct(all) && forall p :: 0 <= p < |all| ==> all[p] < |s.threads| && Adds(s.threads[all[p]]);
    DistinctAdders(s.threads, all, |s.threads|);
  }

  /** Distinct threads that add a node are no more than there are. */
  lemma {:induction false} DistinctAdders(threads: seq<Thread>, l: seq<nat>, n: nat)
    requires n <= |threads| && Distinct(l) && forall p :: 0 <= p < |l| ==> l[p] < n && Adds(threads[l[p]])
    ensures |l| <= Adders(threads, n)
  {
    if l != [] {
      assert l[0] < n;
      if p :| 0 <= p < |l| && l[p] == n - 1 {
        var rest := l[..p] + l[p + 1..];
        assert forall q :: 0 <= q < |rest| ==> rest[q] == l[if q < p then q else q + 1];
        DistinctAdders(threads, rest, n - 1);
      } else {
        DistinctAdders(threads, l, n - 1);
      }
    }
  }

  // ---------------------------------------------------------------------------
  // The bound is reached
  // ---------------------------------------------------------------------------

  ghost predicate Path(states: seq<State>, who: seq<nat>, s: State, s': State) {
    && |states| == |who| + 1 && states[0] == s && states[|who|] == s'
    && forall k :: 0 <= k < |who| ==> Step(states[k], who[k], states[k + 1])
  }

  lemma NoStep(s: State)
    ensures Path([s], [], s, s)
  {
  }

  lemma OneStep(s: State, i: nat, s': State)
    requires Step(s, i, s')
    ensures Path([s, s'], [i], s, s')
  {
  }

  lemma PathAppend(a: seq<State>, x: seq<nat>, b: seq<State>, y: seq<nat>, s: State, s1: State, s2: State)
    requires Path(a, x, s, s1) && Path(b, y, s1, s2)
    ensures |b| > 0 && Path(a + b[1..], x + y, s, s2)
  {
    hide Step;
    var c, w := a + b[1..], x + y;
    forall k | 0 <= k < |w|
      ensures Step(c[k], w[k], c[k + 1])
    {
      if k >= |x| {
        assert c[k] == b[k - |x|] && c[k + 1] == b[k - |x| + 1] && w[k] == y[k - |x|];
      }
    }
  }

  function At(s: State, i: nat, th: Thread): State
    requires i < |s.threads|
  {
    s.(threads := s.threads[i := th])
  }

  /** One load on the way. */
  lemma LoadStep(s: State, i: nat, l: seq<nat>, p: nat)
    requires Chained(s.cells, l) && p <= |l| && i < |s.threads| && s.threads[i].pc == Walking(CellAfter(l, p))
    ensures p == |l| ==> Step(s, i, At(s, i, s.threads[i].(pc := AtNull(CellAfter(l, p)))))
    ensures p < |l| ==> Step(s, i, At(s, i, s.threads[i].(pc := Walking(CellAfter(l, p + 1)))))
  {
    assert CellAfter(l, p) < |s.cells|;
  }

  /** Undisturbed, a thread walks to the NULL at the end. */
  lemma {:induction false} WalkToEnd(s: State, i: nat, l: seq<nat>, p: nat) returns (states: seq<State>, who: seq<nat>)
    requires Chained(s.cells, l) && p <= |l| && i < |s.threads| && s.threads[i].pc == Walking(CellAfter(l, p))
    ensures Path(states, who, s, At(s, i, s.threads[i].(pc := AtNull(CellAfter(l, |l|)))))
    decreases |l| - p
  {
    hide Step, Path, CellAfter;
    LoadStep(s, i, l, p);
    var s2 := At(s, i, s.threads[i].(pc := AtNull(CellAfter(l, |l|))));
    if p == |l| {
      states, who := [s, s2], [i];
      OneStep(s, i, s2);
    } else {
      var s1 := At(s, i, s.threads[i].(pc := Walking(CellAfter(l, p + 1))));
      OneStep(s, i, s1);
      var more, rest := WalkToEnd(s1, i, l, p + 1);
      assert At(s1, i, s1.threads[i].(pc := AtNull(CellAfter(l, |l|)))) == s2;
      PathAppend([s, s1], [i], more, rest, s, s1, s2);
      states, who := [s, s1] + more[1..], [i] + rest;
    }
  }

  /** The nodes of threads 1 to f, in order. */
  function FirstNodes(f: nat): (l: seq<nat>)
    ensures |l| == f
  {
    seq(f, k => k + 1)
  }

  /** Threads 1 to f have added their nodes, each just before thread 0 tried to swap. */
  ghost predicate Overtaken(s: State, f: nat) {
    && f < |s.threads| && |s.cells| == |s.threads| + 1
    && Chained(s.cells, FirstNodes(f))
    && s.threads[0] == Thread(AtNull(CellAfter(FirstNodes(f), f)), f, [])
    && forall i :: f < i < |s.threads| ==> s.threads[i] == Thread(Walking(0), 0, []) && s.cells[i + 1] == None
  }

  /** Thread f + 1 walks to the end and swaps its node in. */
  lemma SwapIn(s: State, f: nat) returns (states: seq<State>, who: seq<nat>, s': State)
    requires Overtaken(s, f) && f + 1 < |s.threads|
    ensures Path(states, who, s, s')
    ensures s' == State(s.cells[CellAfter(FirstNodes(f), f) := Some(f + 1)], s.threads[f + 1 := Thread(Done, 0, [])])
  {
    hide Path;
    var l, i := FirstNodes(f), f + 1;
    var end := CellAfter(l, f);
    assert s.threads[i] == Thread(Walking(0), 0, []);
    assert CellAfter(l, 0) == 0;
    var a, x := WalkToEnd(s, i, l, 0);
    var s1 := At(s, i, Thread(AtNull(end), 0, []));
    s' := State(s.cells[end := Some(i)], s.threads[i := Thread(Done, 0, [])]);
    assert Step(s1, i, s');
    OneStep(s1, i, s');
    PathAppend(a, x, [s1, s'], [i], s, s1, s');
    states, who := a + [s1, s'][1..], x + [i];
  }

  /** Thread 0 finds its cell taken, and walks on to the new end. */
  lemma FailAndWalk(s: State, f: nat, l: seq<nat>, end: nat) returns (states: seq<State>, who: seq<nat>, s': State)
    requires |s.threads| > 0 && s.threads[0] == Thread(AtNull(end), f, []) && Chained(s.cells, l)
    requires end < |s.cells| && s.cells[end] != None
    ensures Path(states, who, s, s') && s' == At(s, 0, Thread(AtNull(CellAfter(l, |l|)), f + 1, []))
  {
    hide Path;
    var s1 := At(s, 0, Thread(Walking(0), f + 1, []));
    assert Step(s, 0, s1);
    OneStep(s, 0, s1);
    assert CellAfter(l, 0) == 0;
    var b, y := WalkToEnd(s1, 0, l, 0);
    s' := At(s1, 0, Thread(AtNull(CellAfter(l, |l|)), f + 1, []));
    assert s' == At(s, 0, Thread(AtNull(CellAfter(l, |l|)), f + 1, []));
    PathAppend([s, s1], [0], b, y, s, s1, s');
    states, who := [s, s1] + b[1..], [0] + y;
  }

  lemma OneMore(s: State, f: nat, s1: State, s': State)
    requires Overtaken(s, f) && f + 1 < |s.threads|
    requires s1.cells == s.cells[CellAfter(FirstNodes(f), f) := Some(f + 1)]
    requires s1.threads == s.threads[f + 1 := Thread(Done, 0, [])]
    requires Chained(s1.cells, FirstNodes(f + 1))
    requires s' == At(s1, 0, Thread(AtNull(CellAfter(FirstNodes(f + 1), f + 1)), f + 1, []))
    ensures Overtaken(s', f + 1)
  {
    hide Chained, FirstNodes;
    LastCell(f);
    forall i | f + 1 < i < |s'.threads|
      ensures s'.threads[i] == Thread(Walking(0), 0, []) && s'.cells[i + 1] == None
    {
      assert s'.threads[i] == s.threads[i] && s'.cells[i + 1] == s.cells[i + 1];
    }
  }

  lemma LastCell(f: nat)
    ensures CellAfter(FirstNodes(f), f) <= f + 1
  {
  }

  lemma OvertakeAgain(s: State, f: nat) returns (states: seq<State>, who: seq<nat>, s': State)
    requires Overtaken(s, f) && f + 1 < |s.threads|
    ensures Path(states, who, s, s') && Overtaken(s', f + 1) && |s'.threads| == |s.threads|
  {
    hide Path, Chained;
    var l, l', i := FirstNodes(f), FirstNodes(f + 1), f + 1;
    assert s.threads[i] == Thread(Walking(0), 0, []);
    assert l' == l + [i];
    ChainedGrows(s.cells, l, i);
    var a, x, s1 := SwapIn(s, f);
    var b, y;
    b, y, s' := FailAndWalk(s1, f, l', CellAfter(l, f));
    OneMore(s, f, s1, s');
    PathAppend(a, x, b, y, s, s1, s');
    states, who := a + b[1..], x + y;
  }

  lemma {:induction false} OvertakeAll(s: State, f: nat, g: nat) returns (states: seq<State>, who: seq<nat>, s': State)
    requires Overtaken(s, f) && f <= g < |s.threads|
    ensures Path(states, who, s, s') && Overtaken(s', g)
    decreases g - f
  {
    hide Overtaken, Path;
    if f == g {
      NoStep(s);
      states, who, s' := [s], [], s;
    } else {
      var a, x, s1 := OvertakeAgain(s, f);
      var b, y;
      b, y, s' := OvertakeAll(s1, f + 1, g);
      PathAppend(a, x, b, y, s, s1, s');
      states, who := a + b[1..], x + y;
    }
  }

  /** With n threads there is a run in which the swap of one of them fails n - 1 times. */
  lemma FailuresReached(n: nat) returns (states: seq<State>, who: seq<nat>)
    requires n > 0
    ensures Run(states, who) && |states[|who|].threads| == n && states[|who|].threads[0].failures == n - 1
  {
    hide Path, Overtaken;
    var s0 := State(seq(n + 1, _ => None), seq(n, _ => Thread(Walking(0), 0, [])));
    Alone(s0);
    var a, x := WalkToEnd(s0, 0, [], 0);
    var s1 := At(s0, 0, Thread(AtNull(0), 0, []));
    var b, y, s' := OvertakeAll(s1, 0, n - 1);
    PathAppend(a, x, b, y, s0, s1, s');
    states, who := a + b[1..], x + y;
    PathRuns(states, who, s0, s');
    OvertakenCount(s', n - 1);
  }

  lemma Alone(s: State)
    requires Initial(s) && |s.threads| > 0 && s.threads[0] == Thread(Walking(0), 0, [])
    requires forall i :: 0 <= i < |s.threads| ==> s.threads[i] == Thread(Walking(0), 0, [])
    ensures Chained(s.cells, []) && CellAfter([], 0) == 0
    ensures Overtaken(At(s, 0, Thread(AtNull(0), 0, [])), 0)
  {
    assert FirstNodes(0) == [];
  }

  lemma PathRuns(states: seq<State>, who: seq<nat>, s: State, s': State)
    requires Initial(s) && Path(states, who, s, s')
    ensures Run(states, who) && states[|who|] == s' && |s'.threads| == |s.threads|
    decreases |who|
  {
    hide Initial;
    SameThreads(states, who, s, s');
  }

  lemma {:induction false} SameThreads(states: seq<State>, who: seq<nat>, s: State, s': State)
    requires Path(states, who, s, s')
    ensures |s'.threads| == |s.threads|
    decreases |who|
  {
    if who != [] {
      var n := |who| - 1;
      SameThreads(states[..n + 1], who[..n], s, states[n]);
      assert Step(states[n], who[n], states[n + 1]);
    }
  }

  lemma OvertakenCount(s: State, f: nat)
    requires Overtaken(s, f)
    ensures f < |s.threads| && s.threads[0].failures == f
  {
  }

  // ---------------------------------------------------------------------------
  // One thread
  // ---------------------------------------------------------------------------

  lemma CellsFrom(l: seq<nat>)
    ensures CellAfter(l, 0) == 0 && forall p :: 0 <= p < |l| ==> CellAfter(l, p + 1) == l[p] + 1
  {
  }

  /** The branch without threads: a loop to the NULL, and a plain store. */
  method Append(cells: array<Option<nat>>, node: nat, ghost l: seq<nat>)
    requires Chained(cells[..], l) && Distinct(l) && node !in l && node + 1 < cells.Length && cells[node + 1] == None
    modifies cells
    ensures Chained(cells[..], l + [node]) && Distinct(l + [node])
    ensures Linked(cells[..], 0, l + [node])
  {
    hide CellAfter;
    CellsFrom(l);
    var pp, p := 0, 0;
    while cells[pp] != None
      invariant 0 <= p <= |l| && pp == CellAfter(l, p) < cells.Length
      decreases |l| - p
    {
      assert cells[..][CellAfter(l, p)] == cells[pp];
      pp := cells[pp].value + 1;
      p := p + 1;
      assert cells[..][CellAfter(l, p)] == cells[pp];
    }
    assert cells[..][CellAfter(l, p)] == cells[pp];
    ChainedGrows(cells[..], l, node);
    ghost var before := cells[..];
    cells[pp] := Some(node);
    assert cells[..] == before[pp := Some(node)];
    ChainedIsLinked(cells[..], l + [node], 0);
  }
}
