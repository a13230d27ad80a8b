// The steps of one thread, when no other moves in between: what module Allocator says of whole calls; and what a
// call does when another thread has the lock.
module AllocatorSolo {
  import opened Words
  import opened Memory
  import opened Allocator
  import opened AllocatorThreads

  /** Thread t makes a step for each input, and nobody else moves. */
  ghost predicate Alone(s: State, t: nat, inputs: seq<Input>, pagesize: nat, s': State)
    requires pagesize > 0
    decreases |inputs|
  {
    if inputs == [] then s' == s
    else exists m :: Step(s, t, inputs[0], pagesize, m) && Alone(m, t, inputs[1..], pagesize, s')
  }

  /** There is only one way to make a step. */
  lemma StepDeterministic(s: State, t: nat, input: Input, pagesize: nat, a: State, b: State)
    requires pagesize > 0 && Step(s, t, input, pagesize, a) && Step(s, t, input, pagesize, b)
    ensures a == b
  {
    hide FreeLocked, Give, Cut, CutRest, AlignUp, MapPage;
  }

  lemma {:induction false} AloneDeterministic(s: State, t: nat, inputs: seq<Input>, pagesize: nat, a: State, b: State)
    requires pagesize > 0 && Alone(s, t, inputs, pagesize, a) && Alone(s, t, inputs, pagesize, b)
    ensures a == b
    decreases |inputs|
  {
    hide Step;
    if inputs != [] {
      var m :| Step(s, t, inputs[0], pagesize, m) && Alone(m, t, inputs[1..], pagesize, a);
      var n :| Step(s, t, inputs[0], pagesize, n) && Alone(n, t, inputs[1..], pagesize, b);
      StepDeterministic(s, t, inputs[0], pagesize, m, n);
      AloneDeterministic(m, t, inputs[1..], pagesize, a, b);
    }
  }

  /** The threads of s, but t is at pc, with this heap and lock. */
  function Pos(s: State, t: nat, locked: bool, h: Heap, pc: Pc): State
    requires t < |s.threads|
  {
    State(h, locked, s.threads[t := pc])
  }

  lemma Moved(s: State, t: nat, locked: bool, h: Heap, pc: Pc, pc': Pc)
    requires t < |s.threads|
    ensures var p := Pos(s, t, locked, h, pc);
      && t < |p.threads| && p.threads[t] == pc
      && forall l', h' :: At(State(h', l', p.threads), t, pc') == Pos(s, t, l', h', pc')
  {
    assert s.threads[t := pc][t := pc'] == s.threads[t := pc'];
  }

  /** A step in front of others. */
  lemma Further(a: State, t: nat, input: Input, b: State, inputs: seq<Input>, pagesize: nat, c: State) returns (all: seq<Input>)
    requires pagesize > 0 && Step(a, t, input, pagesize, b) && Alone(b, t, inputs, pagesize, c)
    ensures all == [input] + inputs && Alone(a, t, all, pagesize, c)
  {
    hide Step;
    all := [input] + inputs;
    assert all[1..] == inputs;
  }

  lemma Nothing(s: State, t: nat, pagesize: nat)
    requires pagesize > 0
    ensures Alone(s, t, [], pagesize, s)
  {
  }

  // ---------------------------------------------------------------------------
  // Single steps
  // ---------------------------------------------------------------------------

  lemma LockSteps(s: State, t: nat, h: Heap, size: nat, r: nat, rest: nat, pagesize: nat)
    requires pagesize > 0 && t < |s.threads| && rest < |h.regions|
    ensures Step(Pos(s, t, true, h, AllocUnlock(size, Some(r))), t, Go, pagesize, Pos(s, t, false, h, Returning(size, r)))
    ensures Step(Pos(s, t, false, h, Trimming(size, r, rest)), t, Go, pagesize, Pos(s, t, true, h, TrimPush(size, r, rest)))
    ensures Step(Pos(s, t, true, h, TrimUnlock(size, r)), t, Go, pagesize, Pos(s, t, false, h, Returning(size, r)))
  {
    Moved(s, t, true, h, AllocUnlock(size, Some(r)), Returning(size, r));
    Moved(s, t, false, h, Trimming(size, r, rest), TrimPush(size, r, rest));
    Moved(s, t, true, h, TrimUnlock(size, r), Returning(size, r));
  }

  lemma PushSteps(s: State, t: nat, h: Heap, size: nat, r: nat, rest: nat, pagesize: nat)
    requires pagesize > 0 && t < |s.threads| && rest < |h.regions|
    ensures Step(Pos(s, t, true, h, SplitPush(size, r, rest)), t, Go, pagesize,
                 Pos(s, t, true, FreeLocked(h, rest), AllocUnlock(size, Some(r))))
    ensures Step(Pos(s, t, true, h, TrimPush(size, r, rest)), t, Go, pagesize,
                 Pos(s, t, true, FreeLocked(h, rest), TrimUnlock(size, r)))
  {
    hide FreeLocked;
    Moved(s, t, true, h, SplitPush(size, r, rest), AllocUnlock(size, Some(r)));
    Moved(s, t, true, h, TrimPush(size, r, rest), TrimUnlock(size, r));
  }

  lemma LoseStep(s: State, t: nat, h: Heap, size: nat, r: nat, rest: nat, pagesize: nat)
    requires pagesize > 0 && t < |s.threads| && rest < |h.regions|
    ensures Step(Pos(s, t, true, h, Trimming(size, r, rest)), t, Go, pagesize,
                 Pos(s, t, true, Give(h, rest, Lost), Returning(size, r)))
  {
    hide Give;
    Moved(s, t, true, h, Trimming(size, r, rest), Returning(size, r));
  }

  lemma ReturnStep(s: State, t: nat, locked: bool, h: Heap, size: nat, r: nat, pagesize: nat)
    requires pagesize > 0 && t < |s.threads| && r < |h.regions|
    ensures Step(Pos(s, t, locked, h, Returning(size, r)), t, Go, pagesize, Pos(s, t, locked, Give(h, r, User), Idle))
  {
    hide Give;
    Moved(s, t, locked, h, Returning(size, r), Idle);
  }

  lemma FreeSteps(s: State, t: nat, h: Heap, r: nat, pagesize: nat)
    requires pagesize > 0 && t < |s.threads| && r < |h.regions|
    ensures Step(Pos(s, t, true, h, Freeing(r)), t, Go, pagesize, Pos(s, t, true, Give(h, r, Lost), Idle))
    ensures Step(Pos(s, t, false, h, Freeing(r)), t, Go, pagesize, Pos(s, t, true, h, FreePush(r)))
    ensures Step(Pos(s, t, true, h, FreePush(r)), t, Go, pagesize, Pos(s, t, true, FreeLocked(h, r), FreeUnlock))
  {
    hide FreeLocked, Give;
    Moved(s, t, true, h, Freeing(r), Idle);
    Moved(s, t, false, h, Freeing(r), FreePush(r));
    Moved(s, t, true, h, FreePush(r), FreeUnlock);
  }

  lemma CutSteps(s: State, t: nat, locked: bool, h: Heap, size: nat, r: nat, pagesize: nat)
    requires pagesize > 0 && t < |s.threads| && r < |h.regions|
    ensures Step(Pos(s, t, locked, h, Splitting(size, r)), t, Go, pagesize,
      if Round8(size) < |h.regions[r].data|
      then Pos(s, t, locked, Cut(h, r, Round8(size), Hand(t)), SplitPush(size, r, |h.regions|))
      else Pos(s, t, locked, h, AllocUnlock(size, Some(r))))
  {
    hide Cut;
    Moved(s, t, locked, h, Splitting(size, r), SplitPush(size, r, |h.regions|));
    Moved(s, t, locked, h, Splitting(size, r), AllocUnlock(size, Some(r)));
  }

  lemma SearchSteps(s: State, t: nat, h: Heap, size: nat, k: nat, pagesize: nat)
    requires pagesize > 0 && t < |s.threads| && k <= |h.free| && (k < |h.free| ==> h.free[k] < |h.regions|)
    ensures Step(Pos(s, t, true, h, Searching(size, k)), t, Go, pagesize,
      if k == |h.free| then Pos(s, t, true, h, AllocUnlock(size, None))
      else if |h.regions[h.free[k]].data| >= size
      then Pos(s, t, true, Unlink(h, k, Hand(t)), Splitting(size, h.free[k]))
      else Pos(s, t, true, h, Searching(size, k + 1)))
  {
    hide Unlink;
    Moved(s, t, true, h, Searching(size, k), AllocUnlock(size, None));
    Moved(s, t, true, h, Searching(size, k), Searching(size, k + 1));
    if k < |h.free| {
      Moved(s, t, true, h, Searching(size, k), Splitting(size, h.free[k]));
    }
  }

  lemma MapSteps(s: State, t: nat, locked: bool, h: Heap, size: nat, page: nat, pagesize: nat)
    requires pagesize > 0 && t < |s.threads| && Unmapped(h, Page(page, AlignUp(size, pagesize)))
    ensures var ask, r := AlignUp(size, pagesize), |h.regions|;
      var m := MapPage(h, page, ask, Hand(t));
      Step(Pos(s, t, locked, h, Mapping(size)), t, NewMapping(page), pagesize,
        if Round8(size) < ask then Pos(s, t, locked, Cut(m, r, Round8(size), Hand(t)), Trimming(size, r, r + 1))
        else Pos(s, t, locked, m, Returning(size, r)))
  {
    hide Unmapped, AlignUp, Zeros, Cut;
    var r := |h.regions|;
    Moved(s, t, locked, h, Mapping(size), Trimming(size, r, r + 1));
    Moved(s, t, locked, h, Mapping(size), Returning(size, r));
  }

  lemma CallSteps(s: State, t: nat, h: Heap, size: nat, r: nat, pagesize: nat)
    requires pagesize > 0 && t < |s.threads| && s.threads[t] == Idle
    ensures Step(s, t, CallAlloc(size), pagesize, Pos(s, t, s.locked, s.heap, Asking(size)))
    ensures r < |s.heap.regions| && s.heap.regions[r].owner == User && size <= |s.heap.regions[r].data| ==>
      Step(s, t, CallFree(r, size), pagesize, Pos(s, t, s.locked, Give(Shortened(s.heap, r, size), r, Hand(t)), Freeing(r)))
  {
    hide Give, Cut;
  }

  /** The caller forgets what lies behind the size it frees. */
  function Shortened(h: Heap, r: nat, size: nat): (h': Heap)
    requires r < |h.regions| && size <= |h.regions[r].data|
    ensures |h'.regions| >= |h.regions|
  {
    if size < |h.regions[r].data| then Cut(h, r, size, Lost) else h
  }

  // ---------------------------------------------------------------------------
  // alloc
  // ---------------------------------------------------------------------------

  /** What lies behind the rounded size goes back to the list. */
  function PutBack(h: Heap, t: nat, r: nat, size: nat): (h': Heap)
    requires r < |h.regions|
    ensures |h'.regions| == |h.regions| + if Round8(size) < |h.regions[r].data| then 1 else 0
  {
    if Round8(size) < |h.regions[r].data| then FreeLocked(Cut(h, r, Round8(size), Hand(t)), |h.regions|) else h
  }

  /** Handing over at the end is the same as owning from the start. */
  lemma TrimmedAlike(h: Heap, t: nat, r: nat, size: nat)
    requires r < |h.regions|
    ensures Give(PutBack(Give(h, r, Hand(t)), t, r, size), r, User) == Trim(Give(h, r, User), r, size)
  {
    var a, b := Give(h, r, Hand(t)), Give(h, r, User);
    if Round8(size) < |h.regions[r].data| {
      var x, y := Cut(a, r, Round8(size), Hand(t)), Cut(b, r, Round8(size), User);
      assert x.regions[|h.regions|].data == y.regions[|h.regions|].data;
      var x', y' := Give(FreeLocked(x, |h.regions|), r, User), FreeLocked(y, |h.regions|);
      assert x'.regions == y'.regions;
    } else {
      assert Give(a, r, User).regions == b.regions;
    }
  }

  lemma MappedAlike(h: Heap, t: nat, size: nat, page: nat, ask: nat)
    ensures var r := |h.regions|;
      Give(PutBack(MapPage(h, page, ask, Hand(t)), t, r, size), r, User) == Trim(MapPage(h, page, ask, User), r, size)
  {
    var r, m := |h.regions|, MapPage(h, page, ask, User);
    TrimmedAlike(m, t, r, size);
    assert Give(m, r, Hand(t)).regions == MapPage(h, page, ask, Hand(t)).regions;
    assert Give(m, r, User).regions == m.regions;
  }

  /** The heap after an allocation that searches from block k on. */
  function Found(h: Heap, size: nat, k: nat, page: nat, pagesize: nat): Heap
    requires pagesize > 0 && k <= |h.free| && forall l :: 0 <= l < |h.free| ==> h.free[l] < |h.regions|
  {
    match FirstFit(h, size, k)
    case Some(l) => Trim(Unlink(h, l, User), h.free[l], size)
    case None => Trim(MapPage(h, page, AlignUp(size, pagesize), User), |h.regions|, size)
  }

  /** From a block off the list to the end of the call. */
  lemma SplitsAlone(s: State, t: nat, h: Heap, size: nat, r: nat, pagesize: nat) returns (inputs: seq<Input>)
    requires pagesize > 0 && t < |s.threads| && r < |h.regions|
    ensures Alone(Pos(s, t, true, h, Splitting(size, r)), t, inputs, pagesize,
                  Pos(s, t, false, Give(PutBack(h, t, r, size), r, User), Idle))
  {
    hide Give, FreeLocked, Step, Alone;
    var h' := PutBack(h, t, r, size);
    var end := Pos(s, t, false, Give(h', r, User), Idle);
    Nothing(end, t, pagesize);
    ReturnStep(s, t, false, h', size, r, pagesize);
    inputs := Further(Pos(s, t, false, h', Returning(size, r)), t, Go, end, [], pagesize, end);
    LockSteps(s, t, h', size, r, r, pagesize);
    inputs := Further(Pos(s, t, true, h', AllocUnlock(size, Some(r))), t, Go, Pos(s, t, false, h', Returning(size, r)),
                      inputs, pagesize, end);
    CutSteps(s, t, true, h, size, r, pagesize);
    var rest := |h.regions|;
    var s1 := Pos(s, t, true, h', AllocUnlock(size, Some(r)));
    if Round8(size) < |h.regions[r].data| {
      var h1 := Cut(h, r, Round8(size), Hand(t));
      PushSteps(s, t, h1, size, r, rest, pagesize);
      inputs := Further(Pos(s, t, true, h1, SplitPush(size, r, rest)), t, Go, s1, inputs, pagesize, end);
      s1 := Pos(s, t, true, h1, SplitPush(size, r, rest));
    }
    inputs := Further(Pos(s, t, true, h, Splitting(size, r)), t, Go, s1, inputs, pagesize, end);
  }

  /** A new page, with the lock free for the nested call. */
  lemma MapsAlone(s: State, t: nat, h: Heap, size: nat, page: nat, pagesize: nat) returns (inputs: seq<Input>)
    requires pagesize > 0 && t < |s.threads| && Unmapped(h, Page(page, AlignUp(size, pagesize)))
    ensures Alone(Pos(s, t, false, h, Mapping(size)), t, inputs, pagesize,
                  Pos(s, t, false, Trim(MapPage(h, page, AlignUp(size, pagesize), User), |h.regions|, size), Idle))
  {
    hide Alone, Step, Cut, Trim, Unmapped, FreeLocked, Give, AlignUp, Zeros;
    var r, ask := |h.regions|, AlignUp(size, pagesize);
    var m := MapPage(h, page, ask, Hand(t));
    var h' := PutBack(m, t, r, size);
    var end := Pos(s, t, false, Give(h', r, User), Idle);
    MappedAlike(h, t, size, page, ask);
    Nothing(end, t, pagesize);
    ReturnStep(s, t, false, h', size, r, pagesize);
    var s1 := Pos(s, t, false, h', Returning(size, r));
    inputs := Further(s1, t, Go, end, [], pagesize, end);
    if Round8(size) < ask {
      var h1 := Cut(m, r, Round8(size), Hand(t));
      CutGrows(m, r, Round8(size), Hand(t));
      LockSteps(s, t, h', size, r, r + 1, pagesize);
      inputs := Further(Pos(s, t, true, h', TrimUnlock(size, r)), t, Go, s1, inputs, pagesize, end);
      PushSteps(s, t, h1, size, r, r + 1, pagesize);
      inputs := Further(Pos(s, t, true, h1, TrimPush(size, r, r + 1)), t, Go, Pos(s, t, true, h', TrimUnlock(size, r)),
                        inputs, pagesize, end);
      LockSteps(s, t, h1, size, r, r + 1, pagesize);
      s1 := Pos(s, t, false, h1, Trimming(size, r, r + 1));
      inputs := Further(s1, t, Go, Pos(s, t, true, h1, TrimPush(size, r, r + 1)), inputs, pagesize, end);
    }
    MapSteps(s, t, false, h, size, page, pagesize);
    inputs := Further(Pos(s, t, false, h, Mapping(size)), t, NewMapping(page), s1, inputs, pagesize, end);
  }

  lemma CutGrows(h: Heap, r: nat, n: nat, o: Owner)
    requires r < |h.regions| && n <= |h.regions[r].data|
    ensures |Cut(h, r, n, o).regions| == |h.regions| + 1
  {
  }

  /** The search from block k on, and what follows. */
  lemma {:induction false} SearchesAlone(s: State, t: nat, h: Heap, size: nat, k: nat, page: nat, pagesize: nat)
    returns (inputs: seq<Input>)
    requires pagesize > 0 && t < |s.threads| && k <= |h.free| && forall l :: 0 <= l < |h.free| ==> h.free[l] < |h.regions|
    requires FirstFit(h, size, k) == None ==> Unmapped(h, Page(page, AlignUp(size, pagesize)))
    ensures Alone(Pos(s, t, true, h, Searching(size, k)), t, inputs, pagesize,
                  Pos(s, t, false, Found(h, size, k, page, pagesize), Idle))
    decreases |h.free| - k
  {
    hide Alone, Step, Trim, MapPage, Unmapped, PutBack, AlignUp, Give;
    var end := Pos(s, t, false, Found(h, size, k, page, pagesize), Idle);
    var s1;
    if k == |h.free| {
      inputs := MapsAlone(s, t, h, size, page, pagesize);
      s1 := Pos(s, t, true, h, AllocUnlock(size, None));
      GiveUp(s, t, h, size, pagesize);
      inputs := Further(s1, t, Go, Pos(s, t, false, h, Mapping(size)), inputs, pagesize, end);
    } else if |h.regions[h.free[k]].data| >= size {
      GiveSame(h.(free := h.free[..k] + h.free[k + 1..]), h.free[k], Hand(t));
      inputs := SplitsAlone(s, t, Unlink(h, k, Hand(t)), size, h.free[k], pagesize);
      TrimmedAlike(h.(free := h.free[..k] + h.free[k + 1..]), t, h.free[k], size);
      s1 := Pos(s, t, true, Unlink(h, k, Hand(t)), Splitting(size, h.free[k]));
    } else {
      inputs := SearchesAlone(s, t, h, size, k + 1, page, pagesize);
      s1 := Pos(s, t, true, h, Searching(size, k + 1));
    }
    SearchSteps(s, t, h, size, k, pagesize);
    inputs := Further(Pos(s, t, true, h, Searching(size, k)), t, Go, s1, inputs, pagesize, end);
  }

  lemma GiveUp(s: State, t: nat, h: Heap, size: nat, pagesize: nat)
    requires pagesize > 0 && t < |s.threads|
    ensures Step(Pos(s, t, true, h, AllocUnlock(size, None)), t, Go, pagesize, Pos(s, t, false, h, Mapping(size)))
  {
    Moved(s, t, true, h, AllocUnlock(size, None), Mapping(size));
  }

  lemma Ask(s: State, t: nat, h: Heap, locked: bool, size: nat, pagesize: nat)
    requires pagesize > 0 && t < |s.threads|
    ensures Step(Pos(s, t, locked, h, Asking(size)), t, Go, pagesize,
                 Pos(s, t, true, h, if locked then Mapping(size) else Searching(size, 0)))
  {
    Moved(s, t, locked, h, Asking(size), if locked then Mapping(size) else Searching(size, 0));
  }

  lemma BackIdle(s: State, t: nat, h: Heap)
    requires t < |s.threads| && s.threads[t] == Idle
    ensures Pos(s, t, s.locked, h, Idle) == s.(heap := h)
  {
  }

  /** A whole call of alloc, undisturbed and with the lock free: the first block that fits, or a new page. */
  lemma AllocAlone(s: State, t: nat, size: nat, page: nat, pagesize: nat) returns (inputs: seq<Input>)
    requires pagesize > 0 && Valid(s.heap) && t < |s.threads| && s.threads[t] == Idle && !s.locked
    requires FirstFit(s.heap, size, 0) == None ==> Unmapped(s.heap, Page(page, AlignUp(size, pagesize)))
    ensures inputs != [] && inputs[0] == CallAlloc(size)
    ensures Alone(s, t, inputs, pagesize, s.(heap := Allocated(s.heap, size, page, pagesize).0))
  {
    hide Alone, Step, Trim, Carved, Unmapped, AlignUp, MapPage, Unlink;
    var end := s.(heap := Allocated(s.heap, size, page, pagesize).0);
    inputs := SearchesAlone(s, t, s.heap, size, 0, page, pagesize);
    BackIdle(s, t, end.heap);
    Ask(s, t, s.heap, false, size, pagesize);
    inputs := Further(Pos(s, t, false, s.heap, Asking(size)), t, Go, Pos(s, t, true, s.heap, Searching(size, 0)), inputs, pagesize, end);
    CallSteps(s, t, s.heap, size, 0, pagesize);
    inputs := Further(s, t, CallAlloc(size), Pos(s, t, false, s.heap, Asking(size)), inputs, pagesize, end);
  }

  /** A new page whose rest is lost. */
  function MappedLossy(h: Heap, size: nat, page: nat, ask: nat): Heap {
    var m, r := MapPage(h, page, ask, User), |h.regions|;
    if Round8(size) < ask then Cut(m, r, Round8(size), Lost) else m
  }

  lemma LossyAlike(h: Heap, t: nat, size: nat, page: nat, ask: nat)
    ensures var m, r := MapPage(h, page, ask, Hand(t)), |h.regions|;
      && (Round8(size) < ask ==>
           Give(Give(Cut(m, r, Round8(size), Hand(t)), r + 1, Lost), r, User) == MappedLossy(h, size, page, ask))
      && (Round8(size) >= ask ==> Give(m, r, User) == MappedLossy(h, size, page, ask))
  {
    var m, r := MapPage(h, page, ask, Hand(t)), |h.regions|;
    if Round8(size) < ask {
      var a := Give(Give(Cut(m, r, Round8(size), Hand(t)), r + 1, Lost), r, User);
      assert a.regions == MappedLossy(h, size, page, ask).regions;
    } else {
      assert Give(m, r, User).regions == MappedLossy(h, size, page, ask).regions;
    }
  }

  /** While another thread has the lock: a new page, whose rest is lost, and the list is left alone. */
  lemma AllocContended(s: State, t: nat, size: nat, page: nat, pagesize: nat) returns (inputs: seq<Input>)
    requires pagesize > 0 && t < |s.threads| && s.threads[t] == Idle && s.locked
    requires Unmapped(s.heap, Page(page, AlignUp(size, pagesize)))
    ensures inputs != [] && inputs[0] == CallAlloc(size)
    ensures Alone(s, t, inputs, pagesize, s.(heap := MappedLossy(s.heap, size, page, AlignUp(size, pagesize))))
  {
    hide Alone, Step, Unmapped, AlignUp, Zeros, Give, Cut, MappedLossy;
    var h, r, ask := s.heap, |s.heap.regions|, AlignUp(size, pagesize);
    var m := MapPage(h, page, ask, Hand(t));
    LossyAlike(h, t, size, page, ask);
    var end := s.(heap := MappedLossy(h, size, page, ask));
    BackIdle(s, t, end.heap);
    Nothing(end, t, pagesize);
    var s1;
    if Round8(size) < ask {
      var h1 := Cut(m, r, Round8(size), Hand(t));
      CutGrows(m, r, Round8(size), Hand(t));
      var h2 := Give(h1, r + 1, Lost);
      GiveSame(h1, r + 1, Lost);
      ReturnStep(s, t, true, h2, size, r, pagesize);
      inputs := Further(Pos(s, t, true, h2, Returning(size, r)), t, Go, end, [], pagesize, end);
      LoseStep(s, t, h1, size, r, r + 1, pagesize);
      s1 := Pos(s, t, true, h1, Trimming(size, r, r + 1));
      inputs := Further(s1, t, Go, Pos(s, t, true, h2, Returning(size, r)), inputs, pagesize, end);
    } else {
      ReturnStep(s, t, true, m, size, r, pagesize);
      s1 := Pos(s, t, true, m, Returning(size, r));
      inputs := Further(s1, t, Go, end, [], pagesize, end);
    }
    MapSteps(s, t, true, h, size, page, pagesize);
    inputs := Further(Pos(s, t, true, h, Mapping(size)), t, NewMapping(page), s1, inputs, pagesize, end);
    Ask(s, t, h, true, size, pagesize);
    inputs := Further(Pos(s, t, true, h, Asking(size)), t, Go, Pos(s, t, true, h, Mapping(size)), inputs, pagesize, end);
    CallSteps(s, t, h, size, 0, pagesize);
    inputs := Further(s, t, CallAlloc(size), Pos(s, t, true, h, Asking(size)), inputs, pagesize, end);
  }

  lemma GiveSame(h: Heap, r: nat, o: Owner)
    requires r < |h.regions|
    ensures |Give(h, r, o).regions| == |h.regions|
  {
  }

  // ---------------------------------------------------------------------------
  // free
  // ---------------------------------------------------------------------------

  lemma GivenTwice(h: Heap, r: nat, t: nat)
    requires r < |h.regions|
    ensures Give(Give(h, r, Hand(t)), r, Lost) == Give(h, r, Lost)
    ensures FreeLocked(Give(h, r, Hand(t)), r) == FreeLocked(h, r)
  {
    assert Give(Give(h, r, Hand(t)), r, Lost).regions == Give(h, r, Lost).regions;
    assert FreeLocked(Give(h, r, Hand(t)), r).regions == FreeLocked(h, r).regions;
  }

  /** A whole call of free: as without threads when the lock is free, and a leak of the block when it is not. */
  lemma FreeAlone(s: State, t: nat, r: nat, size: nat, pagesize: nat) returns (inputs: seq<Input>)
    requires pagesize > 0 && t < |s.threads| && s.threads[t] == Idle
    requires r < |s.heap.regions| && s.heap.regions[r].owner == User && size <= |s.heap.regions[r].data|
    ensures inputs != [] && inputs[0] == CallFree(r, size)
    ensures Alone(s, t, inputs, pagesize,
                  s.(heap := if s.locked then Give(Shortened(s.heap, r, size), r, Lost) else Freed(s.heap, r, size)))
  {
    hide Alone, Step, Give, FreeLocked, Cut;
    var h := Shortened(s.heap, r, size);
    GivenTwice(h, r, t);
    GiveSame(h, r, Hand(t));
    var g := Give(h, r, Hand(t));
    var end := s.(heap := if s.locked then Give(h, r, Lost) else FreeLocked(h, r));
    BackIdle(s, t, end.heap);
    Nothing(end, t, pagesize);
    FreeSteps(s, t, g, r, pagesize);
    if s.locked {
      inputs := Further(Pos(s, t, true, g, Freeing(r)), t, Go, end, [], pagesize, end);
    } else {
      FreeUnlocks(s, t, end.heap, pagesize);
      inputs := Further(Pos(s, t, true, end.heap, FreeUnlock), t, Go, end, [], pagesize, end);
      inputs := Further(Pos(s, t, true, g, FreePush(r)), t, Go, Pos(s, t, true, end.heap, FreeUnlock), inputs, pagesize, end);
      inputs := Further(Pos(s, t, false, g, Freeing(r)), t, Go, Pos(s, t, true, g, FreePush(r)), inputs, pagesize, end);
    }
    CallSteps(s, t, h, size, r, pagesize);
    inputs := Further(s, t, CallFree(r, size), Pos(s, t, s.locked, g, Freeing(r)), inputs, pagesize, end);
  }

  lemma FreeUnlocks(s: State, t: nat, h: Heap, pagesize: nat)
    requires pagesize > 0 && t < |s.threads|
    ensures Step(Pos(s, t, true, h, FreeUnlock), t, Go, pagesize, Pos(s, t, false, h, Idle))
  {
    Moved(s, t, true, h, FreeUnlock, Idle);
  }
}
