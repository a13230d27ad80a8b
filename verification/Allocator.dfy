// backtrace_alloc and backtrace_free in a program with one thread.
module Allocator {
  import opened Words
  import opened Memory

  /** Rounding for alignment, as alloc and release do it. */
  function Round8(n: nat): (r: nat)
    ensures n <= r < n + 8 && r % 8 == 0
  {
    (n + 7) / 8 * 8
  }

  /** The first block from position k on that is large enough. */
  function FirstFit(h: Heap, size: nat, k: nat): (r: Option<nat>)
    requires k <= |h.free| && forall l :: 0 <= l < |h.free| ==> h.free[l] < |h.regions|
    ensures match r
      case None => forall l :: k <= l < |h.free| ==> |h.regions[h.free[l]].data| < size
      case Some(f) =>
        && k <= f < |h.free| && |h.regions[h.free[f]].data| >= size
        && forall l :: k <= l < f ==> |h.regions[h.free[l]].data| < size
    decreases |h.free| - k
  {
    if k == |h.free| then None
    else if |h.regions[h.free[k]].data| >= size then Some(k)
    else FirstFit(h, size, k + 1)
  }

  /** The rest of a block that is larger than what was asked for goes to the free list, or leaks. */
  function Trim(h: Heap, r: nat, size: nat): Heap
    requires r < |h.regions|
  {
    if Round8(size) < |h.regions[r].data| then FreeLocked(Cut(h, r, Round8(size), User), |h.regions|) else h
  }

  /** backtrace_alloc; page is where mmap puts a new mapping. */
  function Allocated(h: Heap, size: nat, page: nat, pagesize: nat): (r: (Heap, nat))
    requires pagesize > 0 && forall l :: 0 <= l < |h.free| ==> h.free[l] < |h.regions|
    ensures r.1 < |r.0.regions|
  {
    match FirstFit(h, size, 0)
    case Some(k) => (Trim(Unlink(h, k, User), h.free[k], size), h.free[k])
    case None => (Trim(MapPage(h, page, AlignUp(size, pagesize), User), |h.regions|, size), |h.regions|)
  }

  /** backtrace_free of the first size bytes of a region; the caller forgets what lies behind them. */
  function Freed(h: Heap, r: nat, size: nat): Heap
    requires r < |h.regions| && size <= |h.regions[r].data|
  {
    FreeLocked(if size < |h.regions[r].data| then Cut(h, r, size, Lost) else h, r)
  }

  class BacktraceState {
    const pagesize: nat
    var heap: Heap

    constructor (pagesize: nat)
      requires pagesize > 0
      ensures Valid(heap) && heap == Heap([], [], []) && this.pagesize == pagesize
    {
      this.pagesize := pagesize;
      heap := Heap([], [], []);
    }

    method FreeLocked(r: nat)
      requires r < |heap.regions|
      modifies this
      ensures heap == Memory.FreeLocked(old(heap), r)
    {
      if |heap.regions[r].data| >= HEADER {
        heap := heap.(free := [r] + heap.free);
        heap := Give(heap, r, Owner.Free);
      } else {
        heap := Give(heap, r, Lost);
      }
    }

    method Alloc(size: nat, page: nat) returns (ret: nat)
      requires pagesize > 0 && Valid(heap)
      modifies this
      ensures (heap, ret) == Allocated(old(heap), size, page, pagesize)
    {
      var pp := 0;
      while pp < |heap.free|
        invariant pp <= |heap.free| && heap == old(heap)
        invariant FirstFit(heap, size, pp) == FirstFit(heap, size, 0)
      {
        if |heap.regions[heap.free[pp]].data| >= size {
          ret := heap.free[pp];
          heap := Unlink(heap, pp, User);
          SplitOff(ret, size);
          return;
        }
        pp := pp + 1;
      }
      ret := |heap.regions|;
      heap := MapPage(heap, page, AlignUp(size, pagesize), User);
      SplitOff(ret, size);
    }

    method SplitOff(r: nat, size: nat)
      requires r < |heap.regions|
      modifies this
      ensures heap == Trim(old(heap), r, size)
    {
      var rounded := Round8(size);
      if rounded < |heap.regions[r].data| {
        var rest := |heap.regions|;
        heap := Cut(heap, r, rounded, User);
        FreeLocked(rest);
      }
    }

    method Free(r: nat, size: nat)
      requires r < |heap.regions| && size <= |heap.regions[r].data|
      modifies this
      ensures heap == Freed(old(heap), r, size)
    {
      if size < |heap.regions[r].data| {
        heap := Cut(heap, r, size, Lost);
      }
      FreeLocked(r);
    }
  }

  // ---------------------------------------------------------------------------
  // Safety
  // ---------------------------------------------------------------------------

  /** What callers have, other than the listed region, is as it was. */
  ghost predicate OthersKept(h: Heap, h': Heap, r: nat) {
    && |h.regions| <= |h'.regions|
    && forall i :: 0 <= i < |h.regions| && i != r && h.regions[i].owner == User ==> h'.regions[i] == h.regions[i]
  }

  lemma TrimSafe(h: Heap, r: nat, size: nat)
    requires Valid(h) && r < |h.regions| && h.regions[r].owner == User && |h.regions[r].data| >= size
    ensures var h' := Trim(h, r, size);
      && Valid(h') && (Aligned(h) ==> Aligned(h')) && OthersKept(h, h', r) && r < |h'.regions|
      && h'.regions[r].owner == User && size <= |h'.regions[r].data| <= Round8(size)
  {
    hide Carved, Listed;
    if Round8(size) < |h.regions[r].data| {
      CutKeepsValid(h, r, Round8(size), User);
      FreeLockedKeepsValid(Cut(h, r, Round8(size), User), |h.regions|);
    }
  }

  /** Every allocation gets at least what it asked for, aligned, apart from everything else, from a valid heap. */
  lemma AllocSafe(h: Heap, size: nat, page: nat, pagesize: nat)
    requires pagesize > 0 && Valid(h) && Unmapped(h, Page(page, AlignUp(size, pagesize)))
    ensures var (h', r) := Allocated(h, size, page, pagesize);
      && Valid(h') && OthersKept(h, h', r)
      && h'.regions[r].owner == User && size <= |h'.regions[r].data| <= Round8(size)
      && (Aligned(h) ==> Aligned(h') && h'.regions[r].addr % 8 == 0)
      && (r < |h.regions| ==> h.regions[r].owner == Free)
  {
    hide Trim, Carved, Listed;
    ListedInside(h);
    match FirstFit(h, size, 0) {
      case Some(k) =>
        UnlinkKeepsValid(h, k, User);
        TrimSafe(Unlink(h, k, User), h.free[k], size);
      case None =>
        MapPageKeepsValid(h, page, AlignUp(size, pagesize), User);
        TrimSafe(MapPage(h, page, AlignUp(size, pagesize), User), |h.regions|, size);
    }
  }

  lemma ListedInside(h: Heap)
    requires Valid(h)
    ensures forall l :: 0 <= l < |h.free| ==> h.free[l] < |h.regions| && h.regions[h.free[l]].owner == Free
  {
  }

  ghost predicate Fits(h: Heap, size: nat, k: nat)
    requires Valid(h)
  {
    k < |h.free| && |h.regions[h.free[k]].data| >= size
  }

  /** The block taken off the list is the first that is large enough, and mapping is the last resort. */
  lemma AllocIsFirstFit(h: Heap, size: nat, page: nat, pagesize: nat)
    requires pagesize > 0 && Valid(h)
    ensures var (h', r) := Allocated(h, size, page, pagesize);
      if exists k: nat :: Fits(h, size, k) then
        h'.pages == h.pages && exists k: nat :: Fits(h, size, k) && r == h.free[k] && forall l: nat :: l < k ==> !Fits(h, size, l)
      else r == |h.regions| && h'.pages == h.pages + [Page(page, AlignUp(size, pagesize))]
  {
    hide Carved;
    match FirstFit(h, size, 0) {
      case Some(k) =>
        assert Fits(h, size, k);
      case None =>
        assert forall k: nat :: !Fits(h, size, k);
    }
  }

  /** What is left of a block that is larger than needed is first on the list, if it has room for a header. */
  lemma RestIsFirst(h: Heap, size: nat, page: nat, pagesize: nat, k: nat)
    requires pagesize > 0 && Valid(h) && FirstFit(h, size, 0) == Some(k)
    requires |h.regions[h.free[k]].data| >= Round8(size) + HEADER
    ensures var (h', r) := Allocated(h, size, page, pagesize);
      var rest := |h.regions|;
      && h'.free == [rest] + h.free[..k] + h.free[k + 1..]
      && h'.regions[rest].addr == h.regions[r].addr + Round8(size)
      && |h'.regions[rest].data| == |h.regions[r].data| - Round8(size) && |h'.regions[r].data| == Round8(size)
  {
    hide Carved;
    assert [|h.regions|] + (h.free[..k] + h.free[k + 1..]) == [|h.regions|] + h.free[..k] + h.free[k + 1..];
  }

  /** A block that was freed is the first to be used again. */
  lemma FreedIsUsedAgain(h: Heap, r: nat, size: nat, ask: nat, page: nat, pagesize: nat)
    requires pagesize > 0 && Valid(h) && r < |h.regions| && h.regions[r].owner == User
    requires HEADER <= size <= |h.regions[r].data| && ask <= size
    ensures Valid(Freed(h, r, size))
    ensures var h' := Freed(h, r, size); h'.free == [r] + h.free && Allocated(h', ask, page, pagesize).1 == r
  {
    hide Carved, Trim;
    FreeSafe(h, r, size);
    var h' := Freed(h, r, size);
    assert h'.free[0] == r && |h'.regions[r].data| == size;
  }

  lemma FreeSafe(h: Heap, r: nat, size: nat)
    requires Valid(h) && r < |h.regions| && h.regions[r].owner == User && size <= |h.regions[r].data|
    ensures Valid(Freed(h, r, size)) && OthersKept(h, Freed(h, r, size), r)
    ensures Aligned(h) ==> Aligned(Freed(h, r, size))
  {
    hide Carved, Listed;
    if size < |h.regions[r].data| {
      CutKeepsValid(h, r, size, Lost);
      FreeLockedKeepsValid(Cut(h, r, size, Lost), r);
    } else {
      FreeLockedKeepsValid(h, r);
    }
  }

  // ---------------------------------------------------------------------------
  // Conservation
  // ---------------------------------------------------------------------------

  /** Mapped bytes are free, handed out or leaked. */
  ghost predicate Balanced(h: Heap) {
    Mapped(h.pages) == Bytes(h, Free) + Bytes(h, User) + Bytes(h, Lost)
  }

  /** Bytes that backtrace_free_locked does not put on the list. */
  function LeakOf(size: nat): nat {
    if size < HEADER then size else 0
  }

  lemma FreeLockedBytes(h: Heap, r: nat)
    requires r < |h.regions| && h.regions[r].owner == User
    ensures var h', n := FreeLocked(h, r), |h.regions[r].data|;
      && Bytes(h', User) == Bytes(h, User) - n && h'.pages == h.pages
      && Bytes(h', Lost) == Bytes(h, Lost) + LeakOf(n)
      && Bytes(h', Free) == Bytes(h, Free) + n - LeakOf(n)
  {
    var o := if |h.regions[r].data| >= HEADER then Free else Lost;
    GiveBytes(h, r, o, User);
    GiveBytes(h, r, o, Lost);
    GiveBytes(h, r, o, Free);
  }

  lemma CutAllBytes(h: Heap, r: nat, n: nat, o: Owner)
    requires r < |h.regions| && n <= |h.regions[r].data| && h.regions[r].owner == User && (o == User || o == Lost)
    ensures var h', m := Cut(h, r, n, o), |h.regions[r].data| - n;
      && Bytes(h', User) == Bytes(h, User) - (if o == User then 0 else m)
      && Bytes(h', Lost) == Bytes(h, Lost) + (if o == User then 0 else m)
      && Bytes(h', Free) == Bytes(h, Free)
  {
    CutBytes(h, r, n, o, User);
    CutBytes(h, r, n, o, Lost);
    CutBytes(h, r, n, o, Free);
  }

  /** What a split leaks: a rest too small for a header. */
  function SplitLeak(size: nat, block: nat): (n: nat)
    ensures n < HEADER
  {
    if Round8(size) < block then LeakOf(block - Round8(size)) else 0
  }

  lemma TrimBytes(h: Heap, r: nat, size: nat)
    requires r < |h.regions| && h.regions[r].owner == User && Balanced(h)
    ensures var h', n := Trim(h, r, size), |h.regions[r].data|;
      && Balanced(h') && r < |h'.regions| && h'.pages == h.pages
      && Bytes(h', User) == Bytes(h, User) - n + |h'.regions[r].data|
      && Bytes(h', Lost) == Bytes(h, Lost) + SplitLeak(size, n)
  {
    hide Bytes;
    if Round8(size) < |h.regions[r].data| {
      CutAllBytes(h, r, Round8(size), User);
      FreeLockedBytes(Cut(h, r, Round8(size), User), |h.regions|);
    }
  }

  /** The bytes of an allocation come from the free list or a page, but for a leak smaller than a header. */
  lemma AllocConserves(h: Heap, size: nat, page: nat, pagesize: nat)
    requires pagesize > 0 && Valid(h) && Balanced(h)
    ensures var (h', r) := Allocated(h, size, page, pagesize);
      && Balanced(h')
      && Bytes(h', User) == Bytes(h, User) + |h'.regions[r].data|
      && Bytes(h, Lost) <= Bytes(h', Lost) < Bytes(h, Lost) + HEADER
  {
    hide Bytes, Trim, Valid, SplitLeak;
    ListedInside(h);
    match FirstFit(h, size, 0) {
      case Some(k) =>
        var r := h.free[k];
        assert h.regions[r].owner == Owner.Free;
        UnlinkBytes(h, k);
        TrimBytes(Unlink(h, k, User), r, size);
      case None =>
        var ask := AlignUp(size, pagesize);
        MapPageBytes(h, page, ask, User, User);
        MapPageBytes(h, page, ask, User, Lost);
        MapPageBytes(h, page, ask, User, Free);
        TrimBytes(MapPage(h, page, ask, User), |h.regions|, size);
    }
  }

  lemma UnlinkBytes(h: Heap, k: nat)
    requires k < |h.free| && h.free[k] < |h.regions| && h.regions[h.free[k]].owner == Free
    ensures var h', n := Unlink(h, k, User), |h.regions[h.free[k]].data|;
      && Bytes(h', User) == Bytes(h, User) + n && Bytes(h', Lost) == Bytes(h, Lost) && Bytes(h', Free) == Bytes(h, Free) - n
  {
    var g := h.(free := h.free[..k] + h.free[k + 1..]);
    GiveBytes(g, h.free[k], User, User);
    GiveBytes(g, h.free[k], User, Lost);
    GiveBytes(g, h.free[k], User, Free);
  }

  /** A block freed with the size it was asked for loses the rounding, and is lost itself if it is small. */
  lemma FreeConserves(h: Heap, r: nat, size: nat)
    requires Balanced(h) && r < |h.regions| && h.regions[r].owner == User && size <= |h.regions[r].data|
    ensures var h', n := Freed(h, r, size), |h.regions[r].data|;
      && Balanced(h')
      && Bytes(h', User) == Bytes(h, User) - n
      && Bytes(h', Lost) == Bytes(h, Lost) + (n - size) + LeakOf(size)
  {
    hide Bytes;
    if size < |h.regions[r].data| {
      CutAllBytes(h, r, size, Lost);
      FreeLockedBytes(Cut(h, r, size, Lost), r);
    } else {
      FreeLockedBytes(h, r);
    }
  }

  // ---------------------------------------------------------------------------
  // Whole runs
  // ---------------------------------------------------------------------------

  datatype Op = AllocOp(size: nat, page: nat) | FreeOp(r: nat, size: nat)

  /** mmap maps where nothing is, and a caller frees what it has, or the beginning of it. */
  ghost predicate MayDo(h: Heap, pagesize: nat, op: Op)
    requires pagesize > 0
  {
    match op
    case AllocOp(size, page) => Unmapped(h, Page(page, AlignUp(size, pagesize)))
    case FreeOp(r, size) => r < |h.regions| && h.regions[r].owner == User && size <= |h.regions[r].data|
  }

  /** What a caller gives up by a free of less than it has, beyond the rounding. */
  function Forgotten(h: Heap, op: Op): nat {
    if op.FreeOp? && op.r < |h.regions| && |h.regions[op.r].data| > Round8(op.size) then
      |h.regions[op.r].data| - Round8(op.size)
    else 0
  }

  ghost function Do(h: Heap, pagesize: nat, op: Op): Heap
    requires pagesize > 0 && Valid(h)
  {
    match op
    case AllocOp(size, page) => Allocated(h, size, page, pagesize).0
    case FreeOp(r, size) => if r < |h.regions| && size <= |h.regions[r].data| then Freed(h, r, size) else h
  }

  ghost predicate Reaches(h: Heap, pagesize: nat, ops: seq<Op>, h': Heap)
    requires pagesize > 0
    decreases |ops|
  {
    if ops == [] then h' == h
    else
      && Valid(h) && MayDo(h, pagesize, ops[0])
      && Reaches(Do(h, pagesize, ops[0]), pagesize, ops[1..], h')
  }

  /** All that is given up in a run. */
  ghost function AllForgotten(h: Heap, pagesize: nat, ops: seq<Op>): nat
    requires pagesize > 0
    decreases |ops|
  {
    if ops == [] || !Valid(h) then 0
    else Forgotten(h, ops[0]) + AllForgotten(Do(h, pagesize, ops[0]), pagesize, ops[1..])
  }

  /** Over any run the heap stays valid, aligned and balanced, and besides what is given up no call leaks more than a header's size. */
  lemma {:induction false} RunConserves(h: Heap, pagesize: nat, ops: seq<Op>, h': Heap)
    requires pagesize > 0 && Valid(h) && Balanced(h) && Reaches(h, pagesize, ops, h')
    ensures Valid(h') && Balanced(h') && (Aligned(h) ==> Aligned(h'))
    ensures Bytes(h', Lost) <= Bytes(h, Lost) + HEADER * |ops| + AllForgotten(h, pagesize, ops)
    decreases |ops|
  {
    hide Valid, Aligned, Balanced, Bytes, Allocated, Freed, Unmapped, Forgotten;
    if ops != [] {
      OpConserves(h, pagesize, ops[0]);
      RunConserves(Do(h, pagesize, ops[0]), pagesize, ops[1..], h');
    }
  }

  lemma OpConserves(h: Heap, pagesize: nat, op: Op)
    requires pagesize > 0 && Valid(h) && Balanced(h) && MayDo(h, pagesize, op)
    ensures var h' := Do(h, pagesize, op);
      && Valid(h') && (Aligned(h) ==> Aligned(h')) && Balanced(h')
      && Bytes(h, Lost) <= Bytes(h', Lost) <= Bytes(h, Lost) + HEADER + Forgotten(h, op)
  {
    hide Aligned, Balanced, Bytes, Allocated, Freed;
    match op {
      case AllocOp(size, page) =>
        AllocSafe(h, size, page, pagesize);
        AllocConserves(h, size, page, pagesize);
      case FreeOp(r, size) =>
        FreeSafe(h, r, size);
        FreeConserves(h, r, size);
    }
  }
}
