// The growable vectors of mmap.c, on the memory of module Allocator.
module Vectors {
  import opened Words
  import opened Memory
  import opened Allocator
  import VectorSpec

  /** struct backtrace_vector; base is NULL until the vector first grows. */
  datatype Vec = Vec(base: Option<nat>, size: nat, alc: nat)

  const EMPTY: Vec := Vec(None, 0, 0)

  /** The vector has a block of its own with its contents and its spare room. */
  predicate Owns(h: Heap, v: Vec) {
    match v.base
    case None => v.size == 0 && v.alc == 0
    case Some(r) => r < |h.regions| && h.regions[r].owner == User && v.size + v.alc <= |h.regions[r].data|
  }

  function Contents(h: Heap, v: Vec): (s: seq<byte>)
    requires Owns(h, v)
    ensures |s| == v.size
  {
    match v.base
    case None => []
    case Some(r) => h.regions[r].data[..v.size]
  }

  // ---------------------------------------------------------------------------
  // grow
  // ---------------------------------------------------------------------------

  /** The new capacity: sixteen elements at first, then doubling up to a page, then whole pages. */
  function NewCapacity(size: nat, more: nat, pagesize: nat): (alc: nat)
    requires pagesize > 0
    ensures alc >= size + more
  {
    if size == 0 then 16 * more
    else if size + more < pagesize then (if 2 * (size + more) > pagesize then pagesize else 2 * (size + more))
    else AlignUp(size + more, pagesize)
  }

  /**
   * Sixteen elements at first. Below half a page a move doubles what is needed, so that the vector can be filled as far
   * again before it moves; then the room is up to the end of a page.
   */
  lemma RoomAfterMove(size: nat, more: nat, pagesize: nat)
    requires pagesize > 0
    ensures var need, alc := size + more, NewCapacity(size, more, pagesize);
      && (size == 0 ==> alc - need == 15 * more)
      && (size > 0 && 2 * need <= pagesize ==> alc - need == need)
      && (size > 0 && need < pagesize < 2 * need ==> alc == pagesize)
      && (size > 0 && need >= pagesize ==> need <= alc < need + pagesize && exists pages: nat :: alc == pages * pagesize)
  {
    hide AlignUp;
    WholePages(size + more, pagesize);
  }

  lemma WholePages(n: nat, pagesize: nat)
    requires pagesize > 0
    ensures exists pages: nat :: AlignUp(n, pagesize) == pages * pagesize
  {
    var pages: nat := (n + pagesize - 1) / pagesize;
    assert AlignUp(n, pagesize) == pages * pagesize;
  }

  /** memcpy to the start of a region. */
  function CopyTo(h: Heap, r: nat, bytes: seq<byte>): (h': Heap)
    requires r < |h.regions| && |bytes| <= |h.regions[r].data|
  {
    h.(regions := h.regions[r := h.regions[r].(data := bytes + h.regions[r].data[|bytes|..])])
  }

  /** A new block for the vector, with its contents; the spare part of the old block is freed. */
  ghost function Moved(h: Heap, v: Vec, alc: nat, page: nat, pagesize: nat): (Heap, Vec)
    requires pagesize > 0 && Valid(h) && Owns(h, v) && v.size <= alc
    requires Unmapped(h, Page(page, AlignUp(alc, pagesize)))
  {
    AllocSafe(h, alc, page, pagesize);
    ListedInside(h);
    var (h1, r) := Allocated(h, alc, page, pagesize);
    var h2 := CopyTo(h1, r, Contents(h, v));
    (if v.base.None? then h2 else Freed(h2, v.base.value, v.alc), Vec(Some(r), v.size, alc - v.size))
  }

  /** mmap maps where nothing is, if the vector is to move. */
  ghost predicate MayGrow(h: Heap, v: Vec, more: nat, page: nat, pagesize: nat)
    requires pagesize > 0
  {
    more > v.alc ==> Unmapped(h, Page(page, AlignUp(NewCapacity(v.size, more, pagesize), pagesize)))
  }

  ghost function Grown(h: Heap, v: Vec, more: nat, page: nat, pagesize: nat): (Heap, Vec)
    requires pagesize > 0 && Valid(h) && Owns(h, v) && MayGrow(h, v, more, page, pagesize)
  {
    var (h', w) := if more > v.alc then Moved(h, v, NewCapacity(v.size, more, pagesize), page, pagesize) else (h, v);
    MovedRoom(h, v, more, page, pagesize);
    (h', w.(size := w.size + more, alc := w.alc - more))
  }

  lemma MovedRoom(h: Heap, v: Vec, more: nat, page: nat, pagesize: nat)
    requires pagesize > 0 && Valid(h) && Owns(h, v) && MayGrow(h, v, more, page, pagesize)
    ensures more > v.alc ==> Moved(h, v, NewCapacity(v.size, more, pagesize), page, pagesize).1.alc >= more
  {
  }

  lemma CopyKeepsValid(h: Heap, r: nat, bytes: seq<byte>)
    requires Valid(h) && r < |h.regions| && |bytes| <= |h.regions[r].data|
    ensures Valid(CopyTo(h, r, bytes)) && |CopyTo(h, r, bytes).regions[r].data| == |h.regions[r].data|
    ensures Aligned(h) ==> Aligned(CopyTo(h, r, bytes))
  {
  }

  lemma MoveSafe(h: Heap, v: Vec, alc: nat, page: nat, pagesize: nat)
    requires pagesize > 0 && Valid(h) && Owns(h, v) && v.size <= alc
    requires Unmapped(h, Page(page, AlignUp(alc, pagesize)))
    ensures var (h', w) := Moved(h, v, alc, page, pagesize);
      && Valid(h') && (Aligned(h) ==> Aligned(h')) && Owns(h', w) && Contents(h', w) == Contents(h, v)
      && Kept(h, v, h', w)
  {
    hide Valid, Aligned, Allocated, Freed;
    AllocSafe(h, alc, page, pagesize);
    ListedInside(h);
    var (h1, r) := Allocated(h, alc, page, pagesize);
    CopyKeepsValid(h1, r, Contents(h, v));
    var h2 := CopyTo(h1, r, Contents(h, v));
    if v.base.Some? {
      FreeSafe(h2, v.base.value, v.alc);
    }
  }

  /** What callers have besides the vector is untouched, and is not what the vector has now. */
  ghost predicate Kept(h: Heap, v: Vec, h': Heap, v': Vec) {
    && |h.regions| <= |h'.regions|
    && forall i :: 0 <= i < |h.regions| && v.base != Some(i) && h.regions[i].owner == User ==>
         h'.regions[i] == h.regions[i] && v'.base != Some(i)
  }

  /** Growing keeps the contents in front of the new room, in all three cases of growth. */
  lemma GrowSafe(h: Heap, v: Vec, more: nat, page: nat, pagesize: nat)
    requires pagesize > 0 && Valid(h) && Owns(h, v) && MayGrow(h, v, more, page, pagesize)
    ensures var (h', v') := Grown(h, v, more, page, pagesize);
      && Valid(h') && (Aligned(h) ==> Aligned(h')) && Owns(h', v') && v'.size == v.size + more
      && Contents(h', v')[..v.size] == Contents(h, v)
      && Kept(h, v, h', v')
  {
    hide Valid, Aligned, Moved;
    if more > v.alc {
      MoveSafe(h, v, NewCapacity(v.size, more, pagesize), page, pagesize);
      MovedRoom(h, v, more, page, pagesize);
    }
  }

  /**
   * What a move leaks: besides what the allocation and the free leak themselves, all of the old block
   * that is not spare, because the free is told the size of the spare part.
   */
  lemma MoveLosesContents(h: Heap, v: Vec, alc: nat, page: nat, pagesize: nat)
    requires pagesize > 0 && Valid(h) && Balanced(h) && Owns(h, v) && v.size <= alc
    requires Unmapped(h, Page(page, AlignUp(alc, pagesize)))
    ensures ListedInBounds(h)
    ensures var (h', w) := Moved(h, v, alc, page, pagesize);
      && Balanced(h')
      && Bytes(h', Lost) == Bytes(Allocated(h, alc, page, pagesize).0, Lost) + OldBlockLeak(h, v)
  {
    hide Valid, Allocated, Freed, Bytes, LeakOf;
    AllocSafe(h, alc, page, pagesize);
    AllocConserves(h, alc, page, pagesize);
    ListedInside(h);
    var (h1, r) := Allocated(h, alc, page, pagesize);
    var h2 := CopyTo(h1, r, Contents(h, v));
    CopyBytes(h1, r, Contents(h, v), Owner.Free);
    CopyBytes(h1, r, Contents(h, v), User);
    CopyBytes(h1, r, Contents(h, v), Lost);
    if v.base.Some? {
      FreeConserves(h2, v.base.value, v.alc);
    }
  }

  ghost predicate ListedInBounds(h: Heap) {
    forall l :: 0 <= l < |h.free| ==> h.free[l] < |h.regions|
  }

  /** The part of the old block that is not freed when the vector moves. */
  function OldBlockLeak(h: Heap, v: Vec): nat
    requires Owns(h, v)
  {
    if v.base.None? then 0 else |h.regions[v.base.value].data| - v.alc + LeakOf(v.alc)
  }

  /** With contents, growing leaks nothing exactly when the vector need not move. */
  lemma GrowLeaksIff(h: Heap, v: Vec, more: nat, page: nat, pagesize: nat)
    requires pagesize > 0 && Valid(h) && Balanced(h) && Owns(h, v) && MayGrow(h, v, more, page, pagesize)
    ensures ListedInBounds(h)
    ensures var h', alc := Grown(h, v, more, page, pagesize).0, NewCapacity(v.size, more, pagesize);
      && Balanced(h')
      && (v.size > 0 ==> (Bytes(h', Lost) == Bytes(h, Lost) <==> more <= v.alc))
      && (more > v.alc ==>
           && Bytes(h', Lost) == Bytes(Allocated(h, alc, page, pagesize).0, Lost) + OldBlockLeak(h, v)
           && Bytes(h', Lost) >= Bytes(h, Lost) + v.size + LeakOf(v.alc))
  {
    hide Valid, Balanced, Bytes, Moved, Allocated;
    ListedInside(h);
    if more > v.alc {
      var alc := NewCapacity(v.size, more, pagesize);
      MoveLosesContents(h, v, alc, page, pagesize);
      AllocConserves(h, alc, page, pagesize);
    }
  }

  lemma CopyBytes(h: Heap, r: nat, bytes: seq<byte>, o: Owner)
    requires r < |h.regions| && |bytes| <= |h.regions[r].data|
    ensures Bytes(CopyTo(h, r, bytes), o) == Bytes(h, o)
  {
    BytesOfUpdate(h.regions, r, CopyTo(h, r, bytes).regions[r], o, |h.regions|);
  }

  // ---------------------------------------------------------------------------
  // finish and release
  // ---------------------------------------------------------------------------

  /** backtrace_vector_finish: the vector goes on behind its contents. */
  function Finished(h: Heap, v: Vec): (Heap, Vec)
    requires Owns(h, v)
  {
    if v.base.None? then (h, v)
    else (Cut(h, v.base.value, v.size, User), Vec(Some(|h.regions|), 0, v.alc))
  }

  /** What is left to free behind the aligned end, in size_t. */
  function Spare(size: nat, alc: nat): word {
    Wrap64(alc - (Round8(size) - size))
  }

  /** The subtraction wraps when the rounding is more than the spare room. */
  lemma SpareWrapsIff(size: nat, alc: nat)
    ensures Spare(size, alc) <= alc <==> Round8(size) - size <= alc
    ensures alc < U64 && Spare(size, alc) <= alc ==> Spare(size, alc) == alc - (Round8(size) - size)
  {
    var d := Round8(size) - size;
    if d <= alc < U64 {
      WrapUnique(alc - d, 0, alc - d);
    } else if alc < d {
      WrapUnique(alc - d, -1, alc - d + U64);
    }
  }

  /** backtrace_vector_release, when the rounding fits. */
  function Released(h: Heap, v: Vec): (Heap, Vec)
    requires Owns(h, v) && Round8(v.size) - v.size <= v.alc
  {
    if v.base.None? then (h, v)
    else
      var aligned := Round8(v.size);
      (Freed(Cut(h, v.base.value, aligned, User), |h.regions|, v.alc - (aligned - v.size)), v.(alc := 0))
  }

  /** The finished array holds the contents from then on, and the vector's room lies behind it. */
  lemma FinishSafe(h: Heap, v: Vec)
    requires Valid(h) && Owns(h, v)
    ensures var (h', v') := Finished(h, v);
      && Valid(h') && (Aligned(h) && v.size % 8 == 0 ==> Aligned(h')) && Owns(h', v') && Contents(h', v') == [] && v'.alc == v.alc
      && Kept(h, v, h', v')
      && (v.base.Some? ==> var r := v.base.value;
           h'.regions[r].owner == User && h'.regions[r].data == Contents(h, v) && v'.base != Some(r))
  {
    if v.base.Some? {
      CutKeepsValid(h, v.base.value, v.size, User);
    }
  }

  lemma ReleaseSafe(h: Heap, v: Vec)
    requires Valid(h) && Owns(h, v) && Round8(v.size) - v.size <= v.alc
    ensures var (h', v') := Released(h, v);
      && Valid(h') && (Aligned(h) ==> Aligned(h')) && Owns(h', v') && Contents(h', v') == Contents(h, v)
      && Kept(h, v, h', v')
  {
    hide Valid, Aligned, Freed;
    if v.base.Some? {
      var h1 := Cut(h, v.base.value, Round8(v.size), User);
      CutKeepsValid(h, v.base.value, Round8(v.size), User);
      FreeSafe(h1, |h.regions|, v.alc - (Round8(v.size) - v.size));
    }
  }

  /** What is kept is the contents and their rounding; all else that was spare is first on the free list, if it is large enough. */
  lemma ReleaseGivesBack(h: Heap, v: Vec, r: nat)
    requires Owns(h, v) && v.base == Some(r) && Round8(v.size) - v.size <= v.alc
    ensures var (h', v') := Released(h, v);
      var spare := v.alc - (Round8(v.size) - v.size);
      && v' == Vec(Some(r), v.size, 0) && |h'.regions[r].data| == Round8(v.size)
      && (spare >= HEADER ==> h'.free == [|h.regions|] + h.free && |h'.regions[|h.regions|].data| == spare)
      && (spare >= HEADER ==> h'.regions[|h.regions|].addr == h.regions[r].addr + Round8(v.size))
  {
  }

  // ---------------------------------------------------------------------------
  // The vector in place
  // ---------------------------------------------------------------------------

  class Vector {
    const state: BacktraceState
    var base: Option<nat>
    var size: nat
    var alc: nat

    function Value(): Vec
      reads this
    {
      Vec(base, size, alc)
    }

    constructor (state: BacktraceState)
      ensures this.state == state && Value() == EMPTY
    {
      this.state := state;
      base, size, alc := None, 0, 0;
    }

    method Capacity(more: nat) returns (newAlc: nat)
      requires state.pagesize > 0
      ensures newAlc == NewCapacity(size, more, state.pagesize)
    {
      newAlc := size + more;
      if size == 0 {
        newAlc := 16 * more;
      } else if newAlc < state.pagesize {
        newAlc := newAlc * 2;
        if newAlc > state.pagesize {
          newAlc := state.pagesize;
        }
      } else {
        newAlc := AlignUp(newAlc, state.pagesize);
      }
    }

    /** backtrace_vector_grow; the result is the offset of the new room in the block. */
    method Grow(more: nat, page: nat) returns (room: nat)
      requires state.pagesize > 0 && Valid(state.heap) && Owns(state.heap, Value())
      requires MayGrow(state.heap, Value(), more, page, state.pagesize)
      modifies this, state
      ensures (state.heap, Value()) == Grown(old(state.heap), old(Value()), more, page, state.pagesize)
      ensures room == old(size)
    {
      hide Valid, Allocated, Freed, Unmapped, NewCapacity, AlignUp;
      MovedRoom(state.heap, Value(), more, page, state.pagesize);
      if more > alc {
        var newAlc := Capacity(more);
        AllocSafe(state.heap, newAlc, page, state.pagesize);
        var contents := Contents(state.heap, Value());
        var newBase := state.Alloc(newAlc, page);
        state.heap := CopyTo(state.heap, newBase, contents);
        if base.Some? {
          state.Free(base.value, alc);
        }
        base, alc := Some(newBase), newAlc - size;
      }
      room := size;
      size, alc := size + more, alc - more;
    }

    method Finish() returns (array_: Option<nat>)
      requires Owns(state.heap, Value())
      modifies this, state
      ensures (state.heap, Value()) == Finished(old(state.heap), old(Value()))
      ensures array_ == old(base)
    {
      array_ := base;
      if base.Some? {
        var end := |state.heap.regions|;
        state.heap := Cut(state.heap, base.value, size, User);
        base := Some(end);
      }
      size := 0;
    }

    method Release()
      requires Owns(state.heap, Value()) && Round8(size) - size <= alc
      modifies this, state
      ensures (state.heap, Value()) == Released(old(state.heap), old(Value()))
    {
      var aligned := Round8(size);
      var spare := alc - (aligned - size);
      if base.Some? {
        var end := |state.heap.regions|;
        state.heap := Cut(state.heap, base.value, aligned, User);
        state.Free(end, spare);
      }
      alc := 0;
    }
  }

  // ---------------------------------------------------------------------------
  // Whole runs
  // ---------------------------------------------------------------------------

  /** Clear is what read_line_info does when it fails: what was grown is spare room again. */
  datatype VecAct = GrowBy(more: nat, page: nat) | Fill(contents: seq<byte>) | Clear | Finish | Release

  /** Whether the rounding that release does fits into the spare room. */
  predicate RoundingFits(v: Vec) {
    Round8(v.size) - v.size <= v.alc
  }

  ghost predicate MayAct(h: Heap, v: Vec, pagesize: nat, act: VecAct)
    requires pagesize > 0
  {
    match act
    case GrowBy(more, page) => MayGrow(h, v, more, page, pagesize)
    case Fill(contents) => v.base.Some? && |contents| == v.size
    case Clear => true
    case Finish => true
    case Release => RoundingFits(v)
  }

  function Cleared(v: Vec): Vec {
    v.(size := 0, alc := v.size + v.alc)
  }

  ghost function Acted(h: Heap, v: Vec, pagesize: nat, act: VecAct): (Heap, Vec)
    requires pagesize > 0 && Valid(h) && Owns(h, v) && MayAct(h, v, pagesize, act)
  {
    match act
    case GrowBy(more, page) => Grown(h, v, more, page, pagesize)
    case Fill(contents) => (CopyTo(h, v.base.value, contents), v)
    case Clear => (h, Cleared(v))
    case Finish => Finished(h, v)
    case Release => Released(h, v)
  }

  /** One operation on one vector: nothing else that callers have is touched. */
  lemma ActSafe(h: Heap, v: Vec, pagesize: nat, act: VecAct)
    requires pagesize > 0 && Valid(h) && Owns(h, v) && MayAct(h, v, pagesize, act)
    ensures var (h', v') := Acted(h, v, pagesize, act);
      && Valid(h') && Owns(h', v') && Kept(h, v, h', v')
      && (Aligned(h) && (act.Finish? ==> v.size % 8 == 0) ==> Aligned(h'))
      && (act.Finish? && v.base.Some? ==>
           var r := v.base.value;
           h'.regions[r].owner == User && h'.regions[r].data == Contents(h, v) && v'.base != Some(r))
  {
    hide Valid, Aligned, Grown, Finished, Released, Unmapped;
    match act {
      case GrowBy(more, page) => GrowSafe(h, v, more, page, pagesize);
      case Fill(contents) => CopyKeepsValid(h, v.base.value, contents);
      case Clear =>
      case Finish => FinishSafe(h, v);
      case Release => ReleaseSafe(h, v);
    }
  }

  /** A vector, and the arrays it has finished with what they held then. */
  datatype Holder = Holder(vec: Vec, done: seq<(nat, seq<byte>)>)

  /** One heap, and the vectors on it. */
  datatype World = World(heap: Heap, vectors: seq<Holder>)

  /** New vectors, operations on any of them and writes by their owners, and other allocations and frees. */
  datatype VecOp = NewVector | On(v: nat, act: VecAct) | Other(op: Op)

  /** Nobody frees a vector or a finished array behind the back of its owner. */
  ghost predicate MayHappen(w: World, pagesize: nat, op: VecOp)
    requires pagesize > 0
  {
    match op
    case NewVector => true
    case On(v, act) => v < |w.vectors| && MayAct(w.heap, w.vectors[v].vec, pagesize, act)
    case Other(op) => MayDo(w.heap, pagesize, op) && (op.FreeOp? ==> !InUse(w, op.r))
  }

  ghost predicate InUse(w: World, r: nat) {
    exists v :: 0 <= v < |w.vectors| && Uses(w.vectors[v], r)
  }

  ghost predicate Uses(x: Holder, r: nat) {
    x.vec.base == Some(r) || exists k :: 0 <= k < |x.done| && x.done[k].0 == r
  }

  /** The vectors lie apart, and every finished array is as it was. */
  ghost predicate Stable(w: World) {
    && Valid(w.heap)
    && (forall v :: 0 <= v < |w.vectors| ==> Owns(w.heap, w.vectors[v].vec))
    && (forall u, v :: 0 <= u < v < |w.vectors| && w.vectors[u].vec.base.Some? ==>
         w.vectors[u].vec.base != w.vectors[v].vec.base)
    && forall v, k :: 0 <= v < |w.vectors| && 0 <= k < |w.vectors[v].done| ==> Intact(w, w.vectors[v].done[k])
  }

  /** A finished array is still its owner's, holds what it held, and is no part of any vector. */
  ghost predicate Intact(w: World, a: (nat, seq<byte>)) {
    && a.0 < |w.heap.regions| && w.heap.regions[a.0].owner == User && w.heap.regions[a.0].data == a.1
    && forall v :: 0 <= v < |w.vectors| ==> w.vectors[v].vec.base != Some(a.0)
  }

  /** The arrays finished after an operation. */
  function DoneAfter(h: Heap, x: Holder, act: VecAct): seq<(nat, seq<byte>)>
    requires Owns(h, x.vec)
  {
    if act.Finish? && x.vec.size > 0 then x.done + [(x.vec.base.value, Contents(h, x.vec))] else x.done
  }

  ghost function Happens(w: World, pagesize: nat, op: VecOp): World
    requires pagesize > 0 && Stable(w) && MayHappen(w, pagesize, op)
  {
    match op
    case NewVector => w.(vectors := w.vectors + [Holder(EMPTY, [])])
    case On(v, act) =>
      var (h', v') := Acted(w.heap, w.vectors[v].vec, pagesize, act);
      World(h', w.vectors[v := Holder(v', DoneAfter(w.heap, w.vectors[v], act))])
    case Other(op) => w.(heap := Do(w.heap, pagesize, op))
  }

  /** What was finished stays listed. */
  ghost predicate Extends(w: World, w': World) {
    |w.vectors| <= |w'.vectors| && forall v :: 0 <= v < |w.vectors| ==> w.vectors[v].done <= w'.vectors[v].done
  }

  lemma StableOwns(w: World, v: nat)
    requires Stable(w) && v < |w.vectors|
    ensures Valid(w.heap) && Owns(w.heap, w.vectors[v].vec)
  {
  }

  lemma NewStable(w: World)
    requires Stable(w)
    ensures var w' := w.(vectors := w.vectors + [Holder(EMPTY, [])]); Stable(w') && Extends(w, w')
  {
    hide Valid;
    var w' := w.(vectors := w.vectors + [Holder(EMPTY, [])]);
    forall v, k | 0 <= v < |w'.vectors| && 0 <= k < |w'.vectors[v].done|
      ensures Intact(w', w'.vectors[v].done[k])
    {
      assert Intact(w, w.vectors[v].done[k]);
    }
  }

  /** Vector v was replaced by something that keeps what others have. */
  lemma OneChanges(w: World, v: nat, h': Heap, v': Vec)
    requires Stable(w) && v < |w.vectors| && Valid(h') && Owns(h', v') && Kept(w.heap, w.vectors[v].vec, h', v')
    ensures Stable(World(h', w.vectors[v := w.vectors[v].(vec := v')]))
  {
    hide Valid;
    var w' := World(h', w.vectors[v := w.vectors[v].(vec := v')]);
    forall u | 0 <= u < |w'.vectors| && u != v
      ensures Owns(h', w'.vectors[u].vec) && (w'.vectors[u].vec.base.Some? ==> w'.vectors[u].vec.base != v'.base)
    {
      assert Owns(w.heap, w.vectors[u].vec);
    }
    forall u, k | 0 <= u < |w'.vectors| && 0 <= k < |w'.vectors[u].done|
      ensures Intact(w', w'.vectors[u].done[k])
    {
      assert Intact(w, w.vectors[u].done[k]);
    }
  }

  lemma OneMoreDone(w: World, v: nat, a: (nat, seq<byte>))
    requires Stable(w) && v < |w.vectors| && Intact(w, a)
    ensures var x := w.vectors[v];
      Stable(w.(vectors := w.vectors[v := x.(done := x.done + [a])]))
  {
    hide Valid;
    var w' := w.(vectors := w.vectors[v := w.vectors[v].(done := w.vectors[v].done + [a])]);
    forall u, k | 0 <= u < |w'.vectors| && 0 <= k < |w'.vectors[u].done|
      ensures Intact(w', w'.vectors[u].done[k])
    {
      assert u != v || k < |w.vectors[v].done| ==> Intact(w, w.vectors[u].done[k]);
    }
  }

  lemma ActStable(w: World, v: nat, pagesize: nat, act: VecAct)
    requires pagesize > 0 && Stable(w) && v < |w.vectors| && MayAct(w.heap, w.vectors[v].vec, pagesize, act)
    ensures Stable(Happens(w, pagesize, On(v, act))) && Extends(w, Happens(w, pagesize, On(v, act)))
  {
    hide Valid, MayAct, Acted, Stable, Kept, Owns;
    StableOwns(w, v);
    var x := w.vectors[v];
    ActSafe(w.heap, x.vec, pagesize, act);
    var (h', v') := Acted(w.heap, x.vec, pagesize, act);
    OneChanges(w, v, h', v');
    var w1 := World(h', w.vectors[v := x.(vec := v')]);
    if act.Finish? && x.vec.size > 0 {
      var a := (x.vec.base.value, Contents(w.heap, x.vec));
      FinishedIntact(w, v, h', v');
      OneMoreDone(w1, v, a);
      assert w.vectors[v := x.(vec := v')][v := x.(vec := v', done := x.done + [a])] == w.vectors[v := Holder(v', x.done + [a])];
    } else {
      assert Happens(w, pagesize, On(v, act)) == w1;
    }
  }

  lemma FinishedIntact(w: World, v: nat, h': Heap, v': Vec)
    requires Stable(w) && v < |w.vectors| && w.vectors[v].vec.size > 0
    requires Owns(w.heap, w.vectors[v].vec) && Kept(w.heap, w.vectors[v].vec, h', v')
    requires var r := w.vectors[v].vec.base.value;
      && h'.regions[r].owner == User && h'.regions[r].data == Contents(w.heap, w.vectors[v].vec) && v'.base != Some(r)
    ensures var x := w.vectors[v];
      Intact(World(h', w.vectors[v := x.(vec := v')]), (x.vec.base.value, Contents(w.heap, x.vec)))
  {
    hide Valid;
  }

  lemma OtherStable(w: World, pagesize: nat, op: Op)
    requires pagesize > 0 && Stable(w) && MayHappen(w, pagesize, Other(op))
    ensures Stable(w.(heap := Do(w.heap, pagesize, op)))
    ensures forall v :: 0 <= v < |w.vectors| ==> SameContents(w.heap, Do(w.heap, pagesize, op), w.vectors[v].vec)
  {
    hide Valid, Allocated, Freed, Unmapped;
    var h' := Do(w.heap, pagesize, op);
    var w' := w.(heap := h');
    match op {
      case AllocOp(size, page) => AllocSafe(w.heap, size, page, pagesize);
      case FreeOp(r, size) => FreeSafe(w.heap, r, size);
    }
    forall v | 0 <= v < |w.vectors|
      ensures SameContents(w.heap, h', w.vectors[v].vec)
    {
      assert Owns(w.heap, w.vectors[v].vec);
      assert op.FreeOp? ==> !Uses(w.vectors[v], op.r);
    }
    forall v, k | 0 <= v < |w.vectors| && 0 <= k < |w.vectors[v].done|
      ensures Intact(w', w.vectors[v].done[k])
    {
      assert Intact(w, w.vectors[v].done[k]);
      assert op.FreeOp? ==> !Uses(w.vectors[v], op.r);
    }
  }

  ghost predicate SameContents(h: Heap, h': Heap, v: Vec) {
    Owns(h, v) && Owns(h', v) && Contents(h', v) == Contents(h, v)
  }

  lemma HappensStable(w: World, pagesize: nat, op: VecOp)
    requires pagesize > 0 && Stable(w) && MayHappen(w, pagesize, op)
    ensures Stable(Happens(w, pagesize, op)) && Extends(w, Happens(w, pagesize, op))
  {
    hide Stable, MayAct, Acted, Do;
    match op {
      case NewVector => NewStable(w);
      case On(v, act) => ActStable(w, v, pagesize, act);
      case Other(op) => OtherStable(w, pagesize, op);
    }
  }

  ghost predicate RunTo(w: World, pagesize: nat, ops: seq<VecOp>, w': World)
    requires pagesize > 0
    decreases |ops|
  {
    if ops == [] then w' == w
    else
      && Stable(w) && MayHappen(w, pagesize, ops[0])
      && RunTo(Happens(w, pagesize, ops[0]), pagesize, ops[1..], w')
  }

  /**
   * Whatever any of the vectors and anybody else do later, every finished array stays as it was when it
   * was finished, and the vectors stay apart.
   */
  lemma {:induction false} FinishedArraysStay(w: World, pagesize: nat, ops: seq<VecOp>, w': World)
    requires pagesize > 0 && Stable(w) && RunTo(w, pagesize, ops, w')
    ensures Stable(w') && Extends(w, w')
    decreases |ops|
  {
    hide Stable, MayHappen, Happens;
    if ops != [] {
      HappensStable(w, pagesize, ops[0]);
      FinishedArraysStay(Happens(w, pagesize, ops[0]), pagesize, ops[1..], w');
    }
  }

  // ---------------------------------------------------------------------------
  // Element sizes
  // ---------------------------------------------------------------------------

  /** Vectors of elements of e bytes grow by one element at a time. */
  ghost predicate OfElements(ops: seq<VecOp>, e: nat) {
    forall i :: 0 <= i < |ops| && ops[i].On? && ops[i].act.GrowBy? ==> ops[i].act.more == e
  }

  ghost predicate Reachable(w: World, pagesize: nat, e: nat)
    requires pagesize > 0
  {
    exists h: Heap, ops :: Begins(h, pagesize, ops, w) && OfElements(ops, e)
  }

  /** A run that begins without vectors, in whatever aligned heap. */
  ghost predicate Begins(h: Heap, pagesize: nat, ops: seq<VecOp>, w: World)
    requires pagesize > 0
  {
    Valid(h) && Aligned(h) && RunTo(World(h, []), pagesize, ops, w)
  }

  /** The size_t subtraction of release does not wrap for any of the vectors. */
  ghost predicate NoneWraps(w: World) {
    forall v :: 0 <= v < |w.vectors| ==> Spare(w.vectors[v].vec.size, w.vectors[v].vec.alc) <= w.vectors[v].vec.alc
  }

  ghost predicate SizesAligned(w: World) {
    forall v :: 0 <= v < |w.vectors| ==> w.vectors[v].vec.size % 8 == 0
  }

  ghost predicate GrowsBy8(ops: seq<VecOp>) {
    forall i :: 0 <= i < |ops| && ops[i].On? && ops[i].act.GrowBy? ==> ops[i].act.more % 8 == 0
  }

  /**
   * The subtraction of release does not wrap, so that it frees no more than the vector has, in every state
   * of every run, exactly when the element size is a multiple of 8; and so do blocks stay aligned.
   */
  lemma ElementSizeIff(pagesize: nat, e: nat)
    requires pagesize > 0
    ensures (forall w :: Reachable(w, pagesize, e) ==> NoneWraps(w)) <==> e % 8 == 0
    ensures (forall w :: Reachable(w, pagesize, e) ==> Aligned(w.heap)) <==> e % 8 == 0
  {
    hide Begins, Aligned, NoneWraps;
    if e % 8 == 0 {
      forall w | Reachable(w, pagesize, e)
        ensures NoneWraps(w) && Aligned(w.heap)
      {
        var h: Heap, ops :| Begins(h, pagesize, ops, w) && OfElements(ops, e);
        BeginsAligned(h, pagesize, ops, w);
        AlignedNoneWraps(w);
      }
    } else {
      var w := FinishedUnaligned(pagesize, e);
      var x := SpareUsedUp(pagesize, e);
      SpareUsedWraps(x);
    }
  }

  lemma AlignedNoneWraps(w: World)
    requires SizesAligned(w)
    ensures NoneWraps(w)
  {
    forall v | 0 <= v < |w.vectors|
      ensures Spare(w.vectors[v].vec.size, w.vectors[v].vec.alc) <= w.vectors[v].vec.alc
    {
      SpareWrapsIff(w.vectors[v].vec.size, w.vectors[v].vec.alc);
    }
  }

  lemma SpareUsedWraps(w: World)
    requires |w.vectors| == 1 && w.vectors[0].vec.size % 8 != 0 && w.vectors[0].vec.alc == 0
    ensures !NoneWraps(w)
  {
    SpareWrapsIff(w.vectors[0].vec.size, 0);
  }

  lemma EmptyStable(h: Heap)
    requires Valid(h)
    ensures Stable(World(h, []))
  {
  }

  lemma BeginsAligned(h: Heap, pagesize: nat, ops: seq<VecOp>, w: World)
    requires pagesize > 0 && Begins(h, pagesize, ops, w) && GrowsBy8(ops)
    ensures SizesAligned(w) && Aligned(w.heap)
  {
    hide Valid, Aligned, Stable, RunTo;
    EmptyStable(h);
    RunStaysAligned(World(h, []), pagesize, ops, w);
  }

  lemma {:induction false} RunStaysAligned(w: World, pagesize: nat, ops: seq<VecOp>, w': World)
    requires pagesize > 0 && Stable(w) && RunTo(w, pagesize, ops, w')
    requires SizesAligned(w) && Aligned(w.heap) && GrowsBy8(ops)
    ensures SizesAligned(w') && Aligned(w'.heap)
    decreases |ops|
  {
    hide Stable, MayHappen, Happens, Aligned, SizesAligned;
    if ops != [] {
      HappensStable(w, pagesize, ops[0]);
      HappensAligned(w, pagesize, ops[0]);
      RunStaysAligned(Happens(w, pagesize, ops[0]), pagesize, ops[1..], w');
    }
  }

  lemma HappensAligned(w: World, pagesize: nat, op: VecOp)
    requires pagesize > 0 && Stable(w) && MayHappen(w, pagesize, op)
    requires SizesAligned(w) && Aligned(w.heap) && (op.On? && op.act.GrowBy? ==> op.act.more % 8 == 0)
    ensures var w' := Happens(w, pagesize, op); SizesAligned(w') && Aligned(w'.heap)
  {
    hide Stable, Valid, Aligned, MayAct, Acted, Do;
    match op {
      case NewVector =>
      case On(v, act) =>
        StableOwns(w, v);
        ActSafe(w.heap, w.vectors[v].vec, pagesize, act);
        ActSizes(w.heap, w.vectors[v].vec, pagesize, act);
      case Other(op) =>
        StableValid(w);
        OtherAligned(w.heap, pagesize, op);
    }
  }

  lemma StableValid(w: World)
    requires Stable(w)
    ensures Valid(w.heap)
  {
  }

  lemma ActSizes(h: Heap, v: Vec, pagesize: nat, act: VecAct)
    requires pagesize > 0 && Valid(h) && Owns(h, v) && MayAct(h, v, pagesize, act) && v.size % 8 == 0
    requires act.GrowBy? ==> act.more % 8 == 0
    ensures Acted(h, v, pagesize, act).1.size % 8 == 0
  {
    hide Valid, Aligned, Grown, Kept, Contents, Cut, Freed, Unmapped, CopyTo, AlignUp;
    match act {
      case GrowBy(more, page) =>
        GrowSafe(h, v, more, page, pagesize);
        assert (v.size + more) % 8 == 0;
      case Fill(_) =>
      case Clear =>
      case Finish =>
      case Release =>
    }
  }

  lemma OtherAligned(h: Heap, pagesize: nat, op: Op)
    requires pagesize > 0 && Valid(h) && Aligned(h) && MayDo(h, pagesize, op)
    ensures Aligned(Do(h, pagesize, op))
  {
    hide Valid, Aligned, Allocated, Freed, Unmapped;
    match op {
      case AllocOp(size, page) => AllocSafe(h, size, page, pagesize);
      case FreeOp(r, size) => FreeSafe(h, r, size);
    }
  }

  lemma RunOf(w: World, pagesize: nat, op: VecOp, ops: seq<VecOp>, w': World, e: nat)
    requires pagesize > 0 && Stable(w) && MayHappen(w, pagesize, op) && RunTo(Happens(w, pagesize, op), pagesize, ops, w')
    requires OfElements(ops, e) && (op.On? && op.act.GrowBy? ==> op.act.more == e)
    ensures RunTo(w, pagesize, [op] + ops, w') && OfElements([op] + ops, e)
  {
    hide Stable, MayHappen, Happens;
    assert ([op] + ops)[1..] == ops;
  }

  const NOTHING: World := World(Heap([], [], []), [])
  const ONE_EMPTY: World := World(Heap([], [], []), [Holder(EMPTY, [])])

  lemma NothingStable(pagesize: nat)
    requires pagesize > 0
    ensures Stable(NOTHING) && Valid(NOTHING.heap) && Aligned(NOTHING.heap)
    ensures MayHappen(NOTHING, pagesize, NewVector) && Happens(NOTHING, pagesize, NewVector) == ONE_EMPTY && Stable(ONE_EMPTY)
  {
    NewStable(NOTHING);
  }

  /** A world with one vector that has a block. */
  ghost predicate Single(w: World) {
    Stable(w) && |w.vectors| == 1 && w.vectors[0].vec.base.Some?
  }

  /** The first element: room for sixteen in a new page. */
  lemma FirstElement(pagesize: nat, e: nat) returns (op: VecOp)
    requires pagesize > 0 && e > 0
    ensures op.On? && op.act.GrowBy? && op.act.more == e && Stable(ONE_EMPTY) && MayHappen(ONE_EMPTY, pagesize, op)
    ensures var w := Happens(ONE_EMPTY, pagesize, op);
      && Single(w) && Aligned(w.heap) && w.vectors[0].vec.size == e && w.vectors[0].vec.alc == 15 * e
  {
    hide Stable, Valid, Aligned, Moved, Unmapped, Do, Finished, Released;
    op := On(0, GrowBy(e, 0));
    NothingStable(pagesize);
    assert MayHappen(ONE_EMPTY, pagesize, op) by { AnyPage(AlignUp(NewCapacity(0, e, pagesize), pagesize)); }
    HappensStable(ONE_EMPTY, pagesize, op);
    GrowSafe(NOTHING.heap, EMPTY, e, 0, pagesize);
    FirstRoom(pagesize, e);
  }

  lemma AnyPage(size: nat)
    ensures Unmapped(NOTHING.heap, Page(0, size))
  {
  }

  lemma FirstRoom(pagesize: nat, e: nat)
    requires pagesize > 0 && e > 0 && Valid(NOTHING.heap) && MayGrow(NOTHING.heap, EMPTY, e, 0, pagesize)
    ensures var v := Grown(NOTHING.heap, EMPTY, e, 0, pagesize).1; v.base.Some? && v.size == e && v.alc == 15 * e
  {
    hide Valid, Unmapped, Allocated;
  }

  /** Growing the one vector within its spare room. */
  function Filled(w: World, bytes: nat): World
    requires |w.vectors| == 1 && bytes <= w.vectors[0].vec.alc
  {
    var v := w.vectors[0].vec;
    w.(vectors := [w.vectors[0].(vec := v.(size := v.size + bytes, alc := v.alc - bytes))])
  }

  lemma FilledByGrow(w: World, pagesize: nat, e: nat)
    requires pagesize > 0 && Single(w) && e <= w.vectors[0].vec.alc
    ensures MayHappen(w, pagesize, On(0, GrowBy(e, 0))) && Happens(w, pagesize, On(0, GrowBy(e, 0))) == Filled(w, e)
    ensures Single(Filled(w, e))
  {
    hide Valid, Moved, Stable;
    StableOwns(w, 0);
    HappensStable(w, pagesize, On(0, GrowBy(e, 0)));
    assert w.vectors[0 := Filled(w, e).vectors[0]] == Filled(w, e).vectors;
  }

  lemma {:induction false} GrowsThen(w: World, pagesize: nat, e: nat, n: nat, rest: seq<VecOp>, w': World)
      returns (ops: seq<VecOp>)
    requires pagesize > 0 && Single(w) && n * e <= w.vectors[0].vec.alc
    requires RunTo(Filled(w, n * e), pagesize, rest, w') && OfElements(rest, e)
    ensures RunTo(w, pagesize, ops, w') && OfElements(ops, e)
    decreases n
  {
    hide Stable, MayHappen, Happens, RunTo, OfElements;
    if n == 0 {
      assert Filled(w, 0) == w;
      ops := rest;
    } else {
      assert n * e == e + (n - 1) * e && 0 <= (n - 1) * e;
      FilledByGrow(w, pagesize, e);
      assert Filled(Filled(w, e), (n - 1) * e) == Filled(w, n * e);
      var more := GrowsThen(Filled(w, e), pagesize, e, n - 1, rest, w');
      RunOf(w, pagesize, On(0, GrowBy(e, 0)), more, w', e);
      ops := [On(0, GrowBy(e, 0))] + more;
    }
  }

  lemma FinishMoves(w: World, pagesize: nat)
    requires pagesize > 0 && Single(w) && w.vectors[0].vec.size % 8 != 0 && Aligned(w.heap)
    ensures MayHappen(w, pagesize, On(0, Finish))
    ensures var w' := Happens(w, pagesize, On(0, Finish));
      Single(w') && !Aligned(w'.heap) && w'.vectors[0].vec.size == 0 && w'.vectors[0].vec.alc == w.vectors[0].vec.alc
  {
    hide Valid, Stable;
    StableOwns(w, 0);
    HappensStable(w, pagesize, On(0, Finish));
    var h, h' := w.heap, Happens(w, pagesize, On(0, Finish)).heap;
    assert h'.regions[|h.regions|].addr == h.regions[w.vectors[0].vec.base.value].addr + w.vectors[0].vec.size;
    assert h.regions[w.vectors[0].vec.base.value].addr % 8 == 0;
  }

  /** One element and a finish: the vector goes on at an address that is no multiple of 8. */
  lemma FinishedUnaligned(pagesize: nat, e: nat) returns (w: World)
    requires pagesize > 0 && e % 8 != 0
    ensures Reachable(w, pagesize, e) && !Aligned(w.heap)
  {
    hide Stable, Aligned, Valid, Happens, MayHappen;
    var first := FirstElement(pagesize, e);
    var w1 := Happens(ONE_EMPTY, pagesize, first);
    FinishMoves(w1, pagesize);
    w := Happens(w1, pagesize, On(0, Finish));
    FromNothing(pagesize, e, first, [], w);
  }

  /** A run of a first element, a finish, and what comes then. */
  lemma FromNothing(pagesize: nat, e: nat, first: VecOp, ops: seq<VecOp>, w: World)
    requires pagesize > 0 && first.On? && first.act.GrowBy? && first.act.more == e
    requires Stable(ONE_EMPTY) && MayHappen(ONE_EMPTY, pagesize, first)
    requires var w1 := Happens(ONE_EMPTY, pagesize, first);
      && Stable(w1) && MayHappen(w1, pagesize, On(0, Finish))
      && RunTo(Happens(w1, pagesize, On(0, Finish)), pagesize, ops, w)
    requires OfElements(ops, e)
    ensures Reachable(w, pagesize, e)
  {
    hide Stable, Aligned, Valid, Happens, MayHappen;
    NothingStable(pagesize);
    var w1 := Happens(ONE_EMPTY, pagesize, first);
    RunOf(w1, pagesize, On(0, Finish), ops, w, e);
    RunOf(ONE_EMPTY, pagesize, first, [On(0, Finish)] + ops, w, e);
    RunOf(NOTHING, pagesize, NewVector, [first] + ([On(0, Finish)] + ops), w, e);
    assert Begins(NOTHING.heap, pagesize, [NewVector] + ([first] + ([On(0, Finish)] + ops)), w);
  }

  /** One element, a finish, and fifteen elements more: all room is used and none is left to round in. */
  lemma SpareUsedUp(pagesize: nat, e: nat) returns (w: World)
    requires pagesize > 0 && e % 8 != 0
    ensures Reachable(w, pagesize, e) && |w.vectors| == 1 && w.vectors[0].vec.size % 8 != 0 && w.vectors[0].vec.alc == 0
  {
    hide Stable, Aligned, Valid, Happens, MayHappen, RunTo, OfElements;
    var first := FirstElement(pagesize, e);
    var w1 := Happens(ONE_EMPTY, pagesize, first);
    FinishMoves(w1, pagesize);
    var w2 := Happens(w1, pagesize, On(0, Finish));
    w := Filled(w2, 15 * e);
    assert RunTo(w, pagesize, [], w) && OfElements([], e) by { EndsHere(w, pagesize, e); }
    var grows := GrowsThen(w2, pagesize, e, 15, [], w);
    FromNothing(pagesize, e, first, grows, w);
  }

  lemma EndsHere(w: World, pagesize: nat, e: nat)
    requires pagesize > 0
    ensures RunTo(w, pagesize, [], w) && OfElements([], e)
  {
  }

  // ---------------------------------------------------------------------------
  // Refinement
  // ---------------------------------------------------------------------------

  /** Each vector and its arrays hold what the abstract vector of the same number says. */
  ghost predicate Implements(w: World, a: seq<VectorSpec.Abstract>)
    requires Stable(w)
  {
    |a| == |w.vectors| && forall v :: 0 <= v < |a| ==> HolderModels(w.heap, w.vectors[v], a[v])
  }

  ghost predicate HolderModels(h: Heap, x: Holder, a: VectorSpec.Abstract) {
    && Owns(h, x.vec)
    && VectorSpec.Models(a.contents, Contents(h, x.vec)) && VectorSpec.ModelsAll(a.done, VectorSpec.Arrays(x.done))
  }

  function ScriptOf(act: VecAct): VectorSpec.Script {
    match act
    case GrowBy(more, _) => VectorSpec.Grow(more)
    case Fill(contents) => VectorSpec.Fill(contents)
    case Clear => VectorSpec.Clear
    case Finish => VectorSpec.Finish
    case Release => VectorSpec.Release
  }

  function Abstracted(a: seq<VectorSpec.Abstract>, op: VecOp): seq<VectorSpec.Abstract> {
    match op
    case NewVector => a + [VectorSpec.Abstract([], [])]
    case On(v, act) => if v < |a| then a[v := VectorSpec.Act(a[v], ScriptOf(act))] else a
    case Other(_) => a
  }

  function AllAbstracted(a: seq<VectorSpec.Abstract>, ops: seq<VecOp>): seq<VectorSpec.Abstract>
    decreases |ops|
  {
    if ops == [] then a else AllAbstracted(Abstracted(a, ops[0]), ops[1..])
  }

  lemma GrownModels(c: seq<Option<byte>>, memory: seq<byte>, memory': seq<byte>, more: nat)
    requires VectorSpec.Models(c, memory) && |memory'| == |memory| + more && memory'[..|memory|] == memory
    ensures VectorSpec.Models(c + VectorSpec.Unset(more), memory')
  {
    assert forall i :: 0 <= i < |memory| ==> memory'[i] == memory'[..|memory|][i];
  }

  lemma OneMoreModels(a: VectorSpec.Abstract, x: Holder, contents: seq<byte>)
    requires x.vec.base.Some? && VectorSpec.Models(a.contents, contents)
    requires VectorSpec.ModelsAll(a.done, VectorSpec.Arrays(x.done))
    ensures VectorSpec.ModelsAll(a.done + [a.contents], VectorSpec.Arrays(x.done + [(x.vec.base.value, contents)]))
  {
    hide VectorSpec.Models;
  }

  /** An operation does to its vector what the abstract operation does. */
  lemma ActModels(h: Heap, x: Holder, pagesize: nat, act: VecAct, a: VectorSpec.Abstract)
    requires pagesize > 0 && Valid(h) && Owns(h, x.vec) && MayAct(h, x.vec, pagesize, act) && HolderModels(h, x, a)
    ensures var (h', v') := Acted(h, x.vec, pagesize, act);
      HolderModels(h', Holder(v', DoneAfter(h, x, act)), VectorSpec.Act(a, ScriptOf(act)))
  {
    hide Valid, Grown, Finished, Released, Unmapped, VectorSpec.ModelsAll;
    match act {
      case GrowBy(more, page) =>
        GrowSafe(h, x.vec, more, page, pagesize);
        var (h', v') := Grown(h, x.vec, more, page, pagesize);
        GrownModels(a.contents, Contents(h, x.vec), Contents(h', v'), more);
      case Fill(contents) => CopyKeepsValid(h, x.vec.base.value, contents);
      case Clear =>
      case Finish =>
        FinishSafe(h, x.vec);
        if x.vec.size > 0 {
          OneMoreModels(a, x, Contents(h, x.vec));
        }
      case Release => ReleaseSafe(h, x.vec);
    }
  }

  lemma KeptContents(w: World, v: nat, u: nat, h': Heap, v': Vec)
    requires Stable(w) && v < |w.vectors| && u < |w.vectors| && u != v && Kept(w.heap, w.vectors[v].vec, h', v')
    ensures SameContents(w.heap, h', w.vectors[u].vec)
  {
    hide Valid;
    assert Owns(w.heap, w.vectors[u].vec);
  }

  lemma HappensImplements(w: World, pagesize: nat, op: VecOp, a: seq<VectorSpec.Abstract>)
    requires pagesize > 0 && Stable(w) && MayHappen(w, pagesize, op) && Implements(w, a)
    ensures Stable(Happens(w, pagesize, op)) && Implements(Happens(w, pagesize, op), Abstracted(a, op))
  {
    hide Valid, Stable, MayAct, Acted, Do, Owns, Contents, Kept, VectorSpec.Models, VectorSpec.ModelsAll;
    HappensStable(w, pagesize, op);
    var w', a' := Happens(w, pagesize, op), Abstracted(a, op);
    match op {
      case NewVector => EmptyModels(w.heap);
      case On(v, act) =>
        StableOwns(w, v);
        ActModels(w.heap, w.vectors[v], pagesize, act, a[v]);
        ActSafe(w.heap, w.vectors[v].vec, pagesize, act);
        forall u: nat | u < |a'| && u != v
          ensures HolderModels(w'.heap, w'.vectors[u], a'[u])
        {
          KeptContents(w, v, u, w'.heap, w'.vectors[v].vec);
        }
      case Other(o) => OtherStable(w, pagesize, o);
    }
  }

  lemma EmptyModels(h: Heap)
    ensures HolderModels(h, Holder(EMPTY, []), VectorSpec.Abstract([], []))
  {
  }

  /** Every run of vectors on mapped memory does what abstract vectors do. */
  lemma {:induction false} RunImplements(w: World, pagesize: nat, ops: seq<VecOp>, w': World, a: seq<VectorSpec.Abstract>)
    requires pagesize > 0 && Stable(w) && RunTo(w, pagesize, ops, w') && Implements(w, a)
    ensures Stable(w') && Implements(w', AllAbstracted(a, ops))
    decreases |ops|
  {
    hide Stable, MayHappen, Happens, Implements, Abstracted;
    if ops != [] {
      HappensImplements(w, pagesize, ops[0], a);
      RunImplements(Happens(w, pagesize, ops[0]), pagesize, ops[1..], w', Abstracted(a, ops[0]));
    }
  }
}
