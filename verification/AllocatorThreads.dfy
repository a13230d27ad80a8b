// backtrace_alloc and backtrace_free in a program with threads: every interleaving of their steps.
module AllocatorThreads {
  import opened Words
  import opened Memory
  import opened Allocator

  /**
   * Where a thread is. From Searching to Unlocking, and in the states named Push and Unlock, it has
   * the lock; the regions it mentions are in its hands.
   */
  datatype Pc =
    | Idle
    | Asking(size: nat)
    | Searching(size: nat, k: nat)
    | Splitting(size: nat, r: nat)
    | SplitPush(size: nat, r: nat, rest: nat)
    | AllocUnlock(size: nat, got: Option<nat>)
    | Mapping(size: nat)
    | Trimming(size: nat, r: nat, rest: nat)
    | TrimPush(size: nat, r: nat, rest: nat)
    | TrimUnlock(size: nat, r: nat)
    | Returning(size: nat, r: nat)
    | Freeing(r: nat)
    | FreePush(r: nat)
    | FreeUnlock

  datatype State = State(heap: Heap, locked: bool, threads: seq<Pc>)

  predicate HasLock(pc: Pc) {
    || pc.Searching? || pc.Splitting? || pc.SplitPush? || pc.AllocUnlock?
    || pc.TrimPush? || pc.TrimUnlock? || pc.FreePush? || pc.FreeUnlock?
  }

  /** The regions a thread has in its hands, the one it is to return first. */
  function InHand(pc: Pc): seq<nat> {
    match pc
    case Splitting(_, r) => [r]
    case SplitPush(_, r, rest) => [r, rest]
    case AllocUnlock(_, got) => if got.Some? then [got.value] else []
    case Trimming(_, r, rest) => [r, rest]
    case TrimPush(_, r, rest) => [r, rest]
    case TrimUnlock(_, r) => [r]
    case Returning(_, r) => [r]
    case Freeing(r) => [r]
    case FreePush(r) => [r]
    case _ => []
  }

  /** What the thread that moves is told by its caller, or by mmap. */
  datatype Input = Go | CallAlloc(size: nat) | CallFree(r: nat, size: nat) | NewMapping(page: nat)

  function At(s: State, t: nat, pc: Pc): State
    requires t < |s.threads|
  {
    s.(threads := s.threads[t := pc])
  }

  /** Cut off the rest of a region, or go on with nothing cut. */
  function CutRest(s: State, t: nat, size: nat, r: nat, some: Pc, none: Pc): State
    requires t < |s.threads| && r < |s.heap.regions|
  {
    if Round8(size) < |s.heap.regions[r].data| then At(s.(heap := Cut(s.heap, r, Round8(size), Hand(t))), t, some)
    else At(s, t, none)
  }

  /** One atomic step of thread t. */
  ghost predicate Step(s: State, t: nat, input: Input, pagesize: nat, s': State)
    requires pagesize > 0
  {
    && t < |s.threads|
    && match s.threads[t]
       case Idle => Call(s, t, input, s')
       case Asking(size) => s' == if s.locked then At(s, t, Mapping(size)) else At(s.(locked := true), t, Searching(size, 0))
       case Searching(size, k) => k <= |s.heap.free| && Search(s, t, size, k, s')
       case Splitting(size, r) =>
         && r < |s.heap.regions|
         && s' == CutRest(s, t, size, r, SplitPush(size, r, |s.heap.regions|), AllocUnlock(size, Some(r)))
       case SplitPush(size, r, rest) =>
         rest < |s.heap.regions| && s' == At(s.(heap := FreeLocked(s.heap, rest)), t, AllocUnlock(size, Some(r)))
       case AllocUnlock(size, got) =>
         s' == At(s.(locked := false), t, if got.Some? then Returning(size, got.value) else Mapping(size))
       case Mapping(size) => Map(s, t, size, input, pagesize, s')
       case Trimming(size, r, rest) =>
         && rest < |s.heap.regions|
         && s' == if s.locked then At(s.(heap := Give(s.heap, rest, Lost)), t, Returning(size, r))
                  else At(s.(locked := true), t, TrimPush(size, r, rest))
       case TrimPush(size, r, rest) =>
         rest < |s.heap.regions| && s' == At(s.(heap := FreeLocked(s.heap, rest)), t, TrimUnlock(size, r))
       case TrimUnlock(size, r) => s' == At(s.(locked := false), t, Returning(size, r))
       case Returning(size, r) => r < |s.heap.regions| && s' == At(s.(heap := Give(s.heap, r, User)), t, Idle)
       case Freeing(r) =>
         && r < |s.heap.regions|
         && s' == if s.locked then At(s.(heap := Give(s.heap, r, Lost)), t, Idle)
                  else At(s.(locked := true), t, FreePush(r))
       case FreePush(r) => r < |s.heap.regions| && s' == At(s.(heap := FreeLocked(s.heap, r)), t, FreeUnlock)
       case FreeUnlock => s' == At(s.(locked := false), t, Idle)
  }

  /** A call begins; a caller frees what it has, with a size that ends in it. */
  ghost predicate Call(s: State, t: nat, input: Input, s': State)
    requires t < |s.threads|
  {
    match input
    case CallAlloc(size) => s' == At(s, t, Asking(size))
    case CallFree(r, size) =>
      && r < |s.heap.regions| && s.heap.regions[r].owner == User && size <= |s.heap.regions[r].data|
      && var h := if size < |s.heap.regions[r].data| then Cut(s.heap, r, size, Lost) else s.heap;
        s' == At(s.(heap := Give(h, r, Hand(t))), t, Freeing(r))
    case _ => false
  }

  /** One block of the list is looked at. */
  ghost predicate Search(s: State, t: nat, size: nat, k: nat, s': State)
    requires t < |s.threads| && k <= |s.heap.free|
  {
    if k == |s.heap.free| then s' == At(s, t, AllocUnlock(size, None))
    else
      && s.heap.free[k] < |s.heap.regions|
      && s' == if |s.heap.regions[s.heap.free[k]].data| >= size
               then At(s.(heap := Unlink(s.heap, k, Hand(t))), t, Splitting(size, s.heap.free[k]))
               else At(s, t, Searching(size, k + 1))
  }

  /** A new page, and the rest of it to be freed by a nested call. */
  ghost predicate Map(s: State, t: nat, size: nat, input: Input, pagesize: nat, s': State)
    requires t < |s.threads| && pagesize > 0
  {
    && input.NewMapping?
    && var ask := AlignUp(size, pagesize);
      var r := |s.heap.regions|;
      && Unmapped(s.heap, Page(input.page, ask))
      && s' == CutRest(s.(heap := MapPage(s.heap, input.page, ask, Hand(t))), t, size, r,
                       Trimming(size, r, r + 1), Returning(size, r))
  }

  // ---------------------------------------------------------------------------
  // The invariant
  // ---------------------------------------------------------------------------

  /** A thread's regions are its own, and the one it is to return is large enough. */
  ghost predicate Holds(h: Heap, t: nat, pc: Pc) {
    && (forall k :: 0 <= k < |InHand(pc)| ==> InHand(pc)[k] < |h.regions| && h.regions[InHand(pc)[k]].owner == Hand(t))
    && (|InHand(pc)| == 2 ==> InHand(pc)[0] != InHand(pc)[1])
    && (pc.Searching? ==> pc.k <= |h.free|)
    && (!pc.Freeing? && !pc.FreePush? && InHand(pc) != [] ==> |h.regions[InHand(pc)[0]].data| >= pc.size)
  }

  /** Exactly one thread has the lock while it is taken, and none while it is not. */
  ghost predicate Locked(s: State) {
    && (forall t :: 0 <= t < |s.threads| && HasLock(s.threads[t]) ==> s.locked)
    && (s.locked ==> exists t :: 0 <= t < |s.threads| && HasLock(s.threads[t]))
    && forall t, u :: 0 <= t < u < |s.threads| ==> !(HasLock(s.threads[t]) && HasLock(s.threads[u]))
  }

  ghost predicate Inv(s: State) {
    && Valid(s.heap) && Aligned(s.heap) && Locked(s)
    && forall t :: 0 <= t < |s.threads| ==> Holds(s.heap, t, s.threads[t])
  }

  /** What other threads have in their hands does not change under a step of t, nor does the list without the lock. */
  ghost predicate Untouched(h: Heap, h': Heap, t: nat, hasLock: bool) {
    && |h.regions| <= |h'.regions|
    && (forall i :: 0 <= i < |h.regions| && h.regions[i].owner.Hand? && h.regions[i].owner.thread != t ==>
         h'.regions[i] == h.regions[i])
    && (h'.free == h.free || hasLock)
  }

  /** What callers have is as it was, but for a region that is passed to free. */
  ghost predicate UsersKept(h: Heap, h': Heap, input: Input) {
    forall i :: 0 <= i < |h.regions| && h.regions[i].owner == User && input != CallFree(i, SizeOf(input)) ==>
      i < |h'.regions| && h'.regions[i] == h.regions[i]
  }

  function SizeOf(input: Input): nat {
    if input.CallFree? then input.size else 0
  }

  /** The lock is taken when it is free, released by the thread that has it, or stays. */
  predicate LockMove(before: bool, pc: Pc, after: bool, pc': Pc) {
    || (HasLock(pc) == HasLock(pc') && after == before)
    || (!before && after && !HasLock(pc) && HasLock(pc'))
    || (HasLock(pc) && !HasLock(pc') && !after)
  }

  lemma Moves(s: State, t: nat, h': Heap, locked': bool, pc': Pc)
    requires Inv(s) && t < |s.threads|
    requires Valid(h') && Aligned(h') && Untouched(s.heap, h', t, HasLock(s.threads[t])) && Holds(h', t, pc')
    requires LockMove(s.locked, s.threads[t], locked', pc')
    ensures Inv(State(h', locked', s.threads[t := pc']))
  {
    hide Valid, Aligned;
    var s' := State(h', locked', s.threads[t := pc']);
    assert Locked(s') by {
      assert forall u :: 0 <= u < |s.threads| && u != t ==> s'.threads[u] == s.threads[u];
      assert s'.threads[t] == pc';
    }
    forall u | 0 <= u < |s'.threads|
      ensures Holds(h', u, s'.threads[u])
    {
      if u != t {
        assert Holds(s.heap, u, s.threads[u]);
      }
    }
  }

  // ---------------------------------------------------------------------------
  // Every step
  // ---------------------------------------------------------------------------

  lemma GiveUntouched(h: Heap, t: nat, r: nat, o: Owner, hasLock: bool)
    requires Valid(h) && r < |h.regions| && h.regions[r].owner in {Hand(t), User} && o != Free
    ensures Valid(Give(h, r, o)) && (Aligned(h) ==> Aligned(Give(h, r, o))) && Untouched(h, Give(h, r, o), t, hasLock)
  {
    hide Valid, Aligned;
    GiveKeepsValid(h, r, o);
  }

  lemma PushUntouched(h: Heap, t: nat, r: nat)
    requires Valid(h) && r < |h.regions| && h.regions[r].owner == Hand(t)
    ensures Valid(FreeLocked(h, r)) && (Aligned(h) ==> Aligned(FreeLocked(h, r))) && Untouched(h, FreeLocked(h, r), t, true)
  {
    hide Valid, Aligned;
    FreeLockedKeepsValid(h, r);
  }

  lemma CutUntouched(h: Heap, t: nat, r: nat, n: nat, o: Owner, hasLock: bool)
    requires Valid(h) && r < |h.regions| && h.regions[r].owner in {Hand(t), User} && n <= |h.regions[r].data|
    requires o != Free && (o != Lost ==> n % 8 == 0)
    ensures Valid(Cut(h, r, n, o)) && (Aligned(h) ==> Aligned(Cut(h, r, n, o))) && Untouched(h, Cut(h, r, n, o), t, hasLock)
  {
    hide Valid, Aligned;
    CutKeepsValid(h, r, n, o);
  }

  lemma CallKeepsInv(s: State, t: nat, input: Input, s': State)
    requires Inv(s) && t < |s.threads| && s.threads[t] == Idle && Call(s, t, input, s')
    ensures Inv(s') && UsersKept(s.heap, s'.heap, input)
  {
    hide Valid, Aligned, Locked, AlignUp;
    match input {
      case CallAlloc(size) =>
        Moves(s, t, s.heap, s.locked, Asking(size));
      case CallFree(r, size) =>
        var h := s.heap;
        if size < |s.heap.regions[r].data| {
          CutUntouched(s.heap, t, r, size, Lost, false);
          h := Cut(s.heap, r, size, Lost);
        }
        GiveUntouched(h, t, r, Hand(t), false);
        Moves(s, t, Give(h, r, Hand(t)), s.locked, Freeing(r));
      case _ =>
        assert false;
    }
  }

  lemma SearchKeepsInv(s: State, t: nat, size: nat, k: nat, s': State)
    requires Inv(s) && t < |s.threads| && s.threads[t] == Searching(size, k) && k <= |s.heap.free|
    requires Search(s, t, size, k, s')
    ensures Inv(s') && UsersKept(s.heap, s'.heap, Go)
  {
    hide Carved;
    if k == |s.heap.free| {
      Moves(s, t, s.heap, s.locked, AllocUnlock(size, None));
    } else if |s.heap.regions[s.heap.free[k]].data| >= size {
      UnlinkKeepsValid(s.heap, k, Hand(t));
      Moves(s, t, Unlink(s.heap, k, Hand(t)), s.locked, Splitting(size, s.heap.free[k]));
    } else {
      Moves(s, t, s.heap, s.locked, Searching(size, k + 1));
    }
  }

  lemma SplitKeepsInv(s: State, t: nat, size: nat, r: nat, s': State)
    requires Inv(s) && t < |s.threads| && s.threads[t] == Splitting(size, r) && r < |s.heap.regions|
    requires s' == CutRest(s, t, size, r, SplitPush(size, r, |s.heap.regions|), AllocUnlock(size, Some(r)))
    ensures Inv(s') && UsersKept(s.heap, s'.heap, Go)
  {
    hide Valid, Aligned;
    assert Holds(s.heap, t, s.threads[t]) && InHand(s.threads[t])[0] == r;
    if Round8(size) < |s.heap.regions[r].data| {
      CutUntouched(s.heap, t, r, Round8(size), Hand(t), true);
      Moves(s, t, Cut(s.heap, r, Round8(size), Hand(t)), s.locked, SplitPush(size, r, |s.heap.regions|));
    } else {
      Moves(s, t, s.heap, s.locked, AllocUnlock(size, Some(r)));
    }
  }

  lemma MapKeepsInv(s: State, t: nat, size: nat, input: Input, pagesize: nat, s': State)
    requires pagesize > 0 && Inv(s) && t < |s.threads| && s.threads[t] == Mapping(size)
    requires Map(s, t, size, input, pagesize, s')
    ensures Inv(s') && UsersKept(s.heap, s'.heap, input)
  {
    hide Valid, Aligned, Locked, Unmapped, Zeros;
    var ask, r := AlignUp(size, pagesize), |s.heap.regions|;
    var h := MapPage(s.heap, input.page, ask, Hand(t));
    MapPageKeepsValid(s.heap, input.page, ask, Hand(t));
    if Round8(size) < ask {
      CutUntouched(h, t, r, Round8(size), Hand(t), false);
      Moves(s, t, Cut(h, r, Round8(size), Hand(t)), s.locked, Trimming(size, r, r + 1));
    } else {
      Moves(s, t, h, s.locked, Returning(size, r));
    }
  }

  /** A step of a thread that holds the regions of pc, and gives back the last of them. */
  lemma PushKeepsInv(s: State, t: nat, rest: nat, pc': Pc)
    requires Inv(s) && t < |s.threads| && HasLock(s.threads[t]) && HasLock(pc')
    requires rest < |s.heap.regions| && s.heap.regions[rest].owner == Hand(t)
    requires Holds(s.heap, t, pc') && rest !in InHand(pc') && !pc'.Searching?
    ensures Inv(At(s.(heap := FreeLocked(s.heap, rest)), t, pc')) && UsersKept(s.heap, FreeLocked(s.heap, rest), Go)
  {
    hide Valid, Aligned;
    PushUntouched(s.heap, t, rest);
    Moves(s, t, FreeLocked(s.heap, rest), s.locked, pc');
  }

  lemma DropKeepsInv(s: State, t: nat, rest: nat, o: Owner, pc': Pc)
    requires Inv(s) && t < |s.threads| && !HasLock(s.threads[t]) && !HasLock(pc') && o != Free
    requires rest < |s.heap.regions| && s.heap.regions[rest].owner == Hand(t)
    requires Holds(s.heap, t, pc') && rest !in InHand(pc')
    ensures Inv(At(s.(heap := Give(s.heap, rest, o)), t, pc')) && UsersKept(s.heap, Give(s.heap, rest, o), Go)
  {
    hide Valid, Aligned;
    GiveUntouched(s.heap, t, rest, o, false);
    Moves(s, t, Give(s.heap, rest, o), s.locked, pc');
  }

  lemma PushStepKeepsInv(s: State, t: nat, input: Input, pagesize: nat, s': State)
    requires pagesize > 0 && Inv(s) && Step(s, t, input, pagesize, s')
    requires var pc := s.threads[t]; pc.SplitPush? || pc.TrimPush? || pc.FreePush?
    ensures Inv(s') && UsersKept(s.heap, s'.heap, input)
  {
    hide Valid, Aligned, Locked, FreeLocked;
    var pc := s.threads[t];
    assert Holds(s.heap, t, pc);
    assert InHand(pc)[|InHand(pc)| - 1] == if pc.FreePush? then pc.r else pc.rest;
    match pc {
      case SplitPush(size, r, rest) =>
        assert InHand(pc)[0] == r;
        PushKeepsInv(s, t, rest, AllocUnlock(size, Some(r)));
      case TrimPush(size, r, rest) =>
        assert InHand(pc)[0] == r;
        PushKeepsInv(s, t, rest, TrimUnlock(size, r));
      case FreePush(r) => PushKeepsInv(s, t, r, FreeUnlock);
    }
  }

  lemma DropStepKeepsInv(s: State, t: nat, input: Input, pagesize: nat, s': State)
    requires pagesize > 0 && Inv(s) && Step(s, t, input, pagesize, s')
    requires var pc := s.threads[t]; pc.Returning? || (s.locked && (pc.Trimming? || pc.Freeing?))
    ensures Inv(s') && UsersKept(s.heap, s'.heap, input)
  {
    hide Valid, Aligned, Locked, Give;
    var pc := s.threads[t];
    assert Holds(s.heap, t, pc);
    assert InHand(pc)[0] == pc.r;
    match pc {
      case Trimming(size, r, rest) =>
        assert InHand(pc)[1] == rest;
        DropKeepsInv(s, t, rest, Lost, Returning(size, r));
      case Returning(size, r) => DropKeepsInv(s, t, r, User, Idle);
      case Freeing(r) => DropKeepsInv(s, t, r, Lost, Idle);
    }
  }

  lemma LockStepKeepsInv(s: State, t: nat, input: Input, pagesize: nat, s': State)
    requires pagesize > 0 && Inv(s) && Step(s, t, input, pagesize, s') && s'.heap == s.heap
    requires var pc := s.threads[t];
      pc.Asking? || pc.AllocUnlock? || pc.TrimUnlock? || pc.FreeUnlock? || (!s.locked && (pc.Trimming? || pc.Freeing?))
    ensures Inv(s') && UsersKept(s.heap, s'.heap, input)
  {
    hide Valid, Aligned, Locked, FreeLocked, Give, Cut, Call, Search, Map;
    assert Holds(s.heap, t, s.threads[t]);
    Moves(s, t, s.heap, s'.locked, s'.threads[t]) by { LockHeld(s, t); }
  }

  lemma LockHeld(s: State, t: nat)
    requires Inv(s) && t < |s.threads|
    ensures HasLock(s.threads[t]) ==> s.locked
  {
  }

  lemma {:induction false} StepKeepsInv(s: State, t: nat, input: Input, pagesize: nat, s': State)
    requires pagesize > 0 && Inv(s) && Step(s, t, input, pagesize, s')
    ensures Inv(s') && UsersKept(s.heap, s'.heap, input)
  {
    hide Inv, Holds, InHand, Call, Search, Map, CutRest, FreeLocked, Give;
    match s.threads[t] {
      case Idle => CallKeepsInv(s, t, input, s');
      case Searching(size, k) => SearchKeepsInv(s, t, size, k, s');
      case Splitting(size, r) => SplitKeepsInv(s, t, size, r, s');
      case SplitPush(_, _, _) => PushStepKeepsInv(s, t, input, pagesize, s');
      case TrimPush(_, _, _) => PushStepKeepsInv(s, t, input, pagesize, s');
      case FreePush(_) => PushStepKeepsInv(s, t, input, pagesize, s');
      case Mapping(size) => MapKeepsInv(s, t, size, input, pagesize, s');
      case Returning(_, _) => DropStepKeepsInv(s, t, input, pagesize, s');
      case Trimming(_, _, _) =>
        if s.locked { DropStepKeepsInv(s, t, input, pagesize, s'); } else { LockStepKeepsInv(s, t, input, pagesize, s'); }
      case Freeing(_) =>
        if s.locked { DropStepKeepsInv(s, t, input, pagesize, s'); } else { LockStepKeepsInv(s, t, input, pagesize, s'); }
      case _ => LockStepKeepsInv(s, t, input, pagesize, s');
    }
  }

  // ---------------------------------------------------------------------------
  // Every interleaving
  // ---------------------------------------------------------------------------

  ghost predicate Initial(s: State) {
    && s.heap == Heap([], [], []) && !s.locked
    && forall t :: 0 <= t < |s.threads| ==> s.threads[t] == Idle
  }

  /** Each state follows from the one before by a step of the thread named, with the input given. */
  ghost predicate Run(states: seq<State>, who: seq<(nat, Input)>, pagesize: nat)
    requires pagesize > 0
  {
    && |states| == |who| + 1 && Initial(states[0])
    && forall k :: 0 <= k < |who| ==> Step(states[k], who[k].0, who[k].1, pagesize, states[k + 1])
  }

  lemma {:induction false} RunKeepsInv(states: seq<State>, who: seq<(nat, Input)>, pagesize: nat, k: nat)
    requires pagesize > 0 && Run(states, who, pagesize) && k < |states|
    ensures Inv(states[k])
  {
    hide Step, Inv;
    if k == 0 {
      InitialHolds(states[0]);
    } else {
      RunKeepsInv(states, who, pagesize, k - 1);
      StepKeepsInv(states[k - 1], who[k - 1].0, who[k - 1].1, pagesize, states[k]);
    }
  }

  lemma InitialHolds(s: State)
    requires Initial(s)
    ensures Inv(s)
  {
    hide Valid, Aligned;
    EmptyValid();
    assert Locked(s) by {
      assert forall t :: 0 <= t < |s.threads| ==> !HasLock(s.threads[t]);
    }
    forall t | 0 <= t < |s.threads|
      ensures Holds(s.heap, t, s.threads[t])
    {
      assert InHand(s.threads[t]) == [];
    }
  }

  lemma EmptyValid()
    ensures Valid(Heap([], [], [])) && Aligned(Heap([], [], []))
  {
  }

  /**
   * In every state of every run: free blocks, what callers have and what threads are at work on lie
   * apart, inside mapped pages, aligned; and free blocks have room for a header.
   */
  lemma RunSafe(states: seq<State>, who: seq<(nat, Input)>, pagesize: nat, k: nat, i: nat, j: nat)
    requires pagesize > 0 && Run(states, who, pagesize) && k < |states| && i < |states[k].heap.regions|
    ensures var h := states[k].heap;
      && h.regions[i].page < |h.pages| && Inside(h.regions[i], h.pages[h.regions[i].page])
      && (h.regions[i].owner != Lost ==> h.regions[i].addr % 8 == 0)
      && (h.regions[i].owner == Free ==> |h.regions[i].data| >= HEADER)
      && (h.regions[i].owner == Free <==> i in h.free)
      && (i < j < |h.regions| ==> Apart(h.regions[i], h.regions[j]))
  {
    RunKeepsInv(states, who, pagesize, k);
    if states[k].heap.regions[i].owner == Free {
      var l := PositionOf(states[k].heap.free, i);
    }
  }

  /** The list changes only in a step of the one thread that has the lock. */
  lemma OnlyHolderTouchesList(states: seq<State>, who: seq<(nat, Input)>, pagesize: nat, k: nat, u: nat)
    requires pagesize > 0 && Run(states, who, pagesize) && k < |who| && states[k + 1].heap.free != states[k].heap.free
    ensures who[k].0 < |states[k].threads| && HasLock(states[k].threads[who[k].0])
    ensures u < |states[k].threads| && HasLock(states[k].threads[u]) ==> u == who[k].0
  {
    RunKeepsInv(states, who, pagesize, k);
    assert Step(states[k], who[k].0, who[k].1, pagesize, states[k + 1]);
  }

  /** A call that returns hands over at least what was asked for, which nobody else has. */
  lemma ReturnsEnough(states: seq<State>, who: seq<(nat, Input)>, pagesize: nat, k: nat, size: nat, r: nat)
    requires pagesize > 0 && Run(states, who, pagesize) && k < |who|
    requires who[k].0 < |states[k].threads| && states[k].threads[who[k].0] == Returning(size, r)
    ensures var h, h' := states[k].heap, states[k + 1].heap;
      && r < |h.regions| && h' == Give(h, r, User) && |h.regions[r].data| >= size
      && h.regions[r].owner == Hand(who[k].0)
  {
    RunKeepsInv(states, who, pagesize, k);
    var t := who[k].0;
    assert Step(states[k], t, who[k].1, pagesize, states[k + 1]);
    assert Holds(states[k].heap, t, states[k].threads[t]);
    assert InHand(states[k].threads[t])[0] == r;
  }

  /** What a caller has stays as it is, until a caller frees it. */
  lemma CallersKeep(states: seq<State>, who: seq<(nat, Input)>, pagesize: nat, k: nat, i: nat)
    requires pagesize > 0 && Run(states, who, pagesize) && k < |who| && i < |states[k].heap.regions|
    requires states[k].heap.regions[i].owner == User && (who[k].1.CallFree? ==> who[k].1.r != i)
    ensures i < |states[k + 1].heap.regions| && states[k + 1].heap.regions[i] == states[k].heap.regions[i]
  {
    hide Step, Inv;
    RunKeepsInv(states, who, pagesize, k);
    StepKeepsInv(states[k], who[k].0, who[k].1, pagesize, states[k + 1]);
  }

  /** Taking, cutting, listing and leaking only change whose the bytes are. */
  lemma StepAccounted(s: State, t: nat, input: Input, pagesize: nat, s': State)
    requires pagesize > 0 && Step(s, t, input, pagesize, s') && Accounted(s.heap)
    ensures Accounted(s'.heap)
  {
    hide Accounted;
    match s.threads[t] {
      case Idle =>
        if input.CallFree? {
          CallFreeAccounted(s.heap, t, input.r, input.size);
        }
      case Searching(size, k) => SearchAccounted(s, t, size, k, s');
      case Splitting(size, r) => CutRestAccounted(s, t, size, r, SplitPush(size, r, |s.heap.regions|), AllocUnlock(size, Some(r)));
      case SplitPush(_, _, rest) => PushAccounted(s.heap, rest);
      case TrimPush(_, _, rest) => PushAccounted(s.heap, rest);
      case FreePush(r) => PushAccounted(s.heap, r);
      case Mapping(size) =>
        var r := |s.heap.regions|;
        MapPageAccounted(s.heap, input.page, AlignUp(size, pagesize), Hand(t));
        var h := MapPage(s.heap, input.page, AlignUp(size, pagesize), Hand(t));
        CutRestAccounted(s.(heap := h), t, size, r, Trimming(size, r, r + 1), Returning(size, r));
      case Trimming(_, _, rest) => GiveAccounted(s.heap, rest, Lost);
      case Returning(_, r) => GiveAccounted(s.heap, r, User);
      case Freeing(r) => GiveAccounted(s.heap, r, Lost);
      case _ =>
    }
  }

  lemma CallFreeAccounted(h: Heap, t: nat, r: nat, size: nat)
    requires r < |h.regions| && size <= |h.regions[r].data| && Accounted(h)
    ensures Accounted(Give(if size < |h.regions[r].data| then Cut(h, r, size, Lost) else h, r, Hand(t)))
  {
    hide Accounted;
    CutAccounted(h, r, size, Lost);
    GiveAccounted(if size < |h.regions[r].data| then Cut(h, r, size, Lost) else h, r, Hand(t));
  }

  lemma PushAccounted(h: Heap, r: nat)
    requires r < |h.regions| && Accounted(h)
    ensures Accounted(FreeLocked(h, r))
  {
    GiveAccounted(h.(free := [r] + h.free), r, Free);
    GiveAccounted(h, r, Lost);
  }

  lemma SearchAccounted(s: State, t: nat, size: nat, k: nat, s': State)
    requires t < |s.threads| && k <= |s.heap.free| && Search(s, t, size, k, s') && Accounted(s.heap)
    ensures Accounted(s'.heap)
  {
    if k < |s.heap.free| {
      GiveAccounted(s.heap.(free := s.heap.free[..k] + s.heap.free[k + 1..]), s.heap.free[k], Hand(t));
    }
  }

  lemma CutRestAccounted(s: State, t: nat, size: nat, r: nat, some: Pc, none: Pc)
    requires t < |s.threads| && r < |s.heap.regions| && Accounted(s.heap)
    ensures Accounted(CutRest(s, t, size, r, some, none).heap)
  {
    if Round8(size) < |s.heap.regions[r].data| {
      CutAccounted(s.heap, r, Round8(size), Hand(t));
    }
  }

  /** In every state of every run mapped bytes are free, callers', lost, or in the hands of threads. */
  lemma {:induction false} RunBalanced(states: seq<State>, who: seq<(nat, Input)>, pagesize: nat, k: nat)
    requires pagesize > 0 && Run(states, who, pagesize) && k < |states|
    ensures Accounted(states[k].heap)
    ensures var h := states[k].heap;
      Mapped(h.pages) == Bytes(h, Free) + Bytes(h, User) + Bytes(h, Lost) + InHands(h.regions, |h.regions|)
  {
    hide Step;
    if k > 0 {
      RunBalanced(states, who, pagesize, k - 1);
      StepAccounted(states[k - 1], who[k - 1].0, who[k - 1].1, pagesize, states[k]);
    }
    TotalIsShared(states[k].heap.regions, |states[k].heap.regions|);
  }
}
