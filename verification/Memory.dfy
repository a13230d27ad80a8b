// The memory that backtrace_alloc manages: mapped pages cut into regions, and the free list.
module Memory {
  import opened Words

  /** Who may use a region: the free list, a caller, nobody any more, or a thread inside the allocator. */
  datatype Owner = Free | User | Lost | Hand(thread: nat)

  datatype Region = Region(addr: nat, data: seq<byte>, page: nat, owner: Owner) {
    function End(): nat {
      addr + |data|
    }
  }

  datatype Page = Page(addr: nat, size: nat)

  /** free lists regions from the head on; a pointer to a free block is the number of its region. */
  datatype Heap = Heap(regions: seq<Region>, free: seq<nat>, pages: seq<Page>)

  /** sizeof (struct backtrace_freelist_struct). */
  const HEADER: nat := 16

  function AlignUp(n: nat, unit: nat): (r: nat)
    requires unit > 0
    ensures n <= r < n + unit
  {
    (n + unit - 1) / unit * unit
  }

  // ---------------------------------------------------------------------------
  // What always holds
  // ---------------------------------------------------------------------------

  predicate Apart(a: Region, b: Region) {
    a.End() <= b.addr || b.End() <= a.addr
  }

  predicate Inside(r: Region, p: Page) {
    p.addr <= r.addr && r.End() <= p.addr + p.size
  }

  predicate PagesApart(p: Page, q: Page) {
    p.addr + p.size <= q.addr || q.addr + q.size <= p.addr
  }

  /** Regions are cut from the pages and do not overlap. */
  ghost predicate Carved(regions: seq<Region>, pages: seq<Page>) {
    && (forall i, j :: 0 <= i < j < |regions| ==> Apart(regions[i], regions[j]))
    && (forall i :: 0 <= i < |regions| ==> regions[i].page < |pages| && Inside(regions[i], pages[regions[i].page]))
    && (forall i, j :: 0 <= i < j < |pages| ==> PagesApart(pages[i], pages[j]))
  }

  /** The list holds each free region once, and every one has room for a header. */
  ghost predicate Listed(regions: seq<Region>, free: seq<nat>) {
    && (forall k :: 0 <= k < |free| ==>
         free[k] < |regions| && regions[free[k]].owner == Free && |regions[free[k]].data| >= HEADER)
    && (forall k, l :: 0 <= k < l < |free| ==> free[k] != free[l])
    && forall i :: 0 <= i < |regions| && regions[i].owner == Free ==> i in free
  }

  ghost predicate Valid(h: Heap) {
    Carved(h.regions, h.pages) && Listed(h.regions, h.free)
  }

  /** All that is in use starts at a multiple of 8. */
  ghost predicate Aligned(h: Heap) {
    forall i :: 0 <= i < |h.regions| && h.regions[i].owner != Lost ==> h.regions[i].addr % 8 == 0
  }

  // ---------------------------------------------------------------------------
  // The steps that alloc and free are made of
  // ---------------------------------------------------------------------------

  function Give(h: Heap, r: nat, o: Owner): Heap
    requires r < |h.regions|
  {
    h.(regions := h.regions[r := h.regions[r].(owner := o)])
  }

  /** Cuts a region in two; the new region gets the number |h.regions|. */
  function Cut(h: Heap, r: nat, n: nat, o: Owner): Heap
    requires r < |h.regions| && n <= |h.regions[r].data|
  {
    var x := h.regions[r];
    h.(regions := h.regions[r := x.(data := x.data[..n])] + [Region(x.addr + n, x.data[n..], x.page, o)])
  }

  /** Takes the k-th block off the list. */
  function Unlink(h: Heap, k: nat, o: Owner): Heap
    requires k < |h.free| && h.free[k] < |h.regions|
  {
    Give(h.(free := h.free[..k] + h.free[k + 1..]), h.free[k], o)
  }

  /** backtrace_free_locked: small blocks leak. */
  function FreeLocked(h: Heap, r: nat): Heap
    requires r < |h.regions|
  {
    if |h.regions[r].data| >= HEADER then Give(h.(free := [r] + h.free), r, Free) else Give(h, r, Lost)
  }

  function Zeros(n: nat): (s: seq<byte>)
    ensures |s| == n
  {
    seq(n, _ => 0)
  }

  function MapPage(h: Heap, addr: nat, size: nat, o: Owner): Heap {
    h.(regions := h.regions + [Region(addr, Zeros(size), |h.pages|, o)], pages := h.pages + [Page(addr, size)])
  }

  /** An address where mmap may put a new mapping. */
  ghost predicate Unmapped(h: Heap, p: Page) {
    p.addr % 8 == 0 && forall i :: 0 <= i < |h.pages| ==> PagesApart(h.pages[i], p)
  }

  /** A region that the free list does not hold, and that is still in use. */
  predicate Held(h: Heap, r: nat) {
    r < |h.regions| && h.regions[r].owner != Free && h.regions[r].owner != Lost
  }

  lemma GiveKeepsCarved(h: Heap, r: nat, o: Owner)
    requires Carved(h.regions, h.pages) && r < |h.regions| && h.regions[r].owner != Lost
    ensures Carved(Give(h, r, o).regions, h.pages) && (Aligned(h) ==> Aligned(Give(h, r, o)))
  {
  }

  lemma GiveKeepsValid(h: Heap, r: nat, o: Owner)
    requires Valid(h) && Held(h, r) && o != Free
    ensures Valid(Give(h, r, o)) && (Aligned(h) ==> Aligned(Give(h, r, o)))
  {
    hide Carved;
    GiveKeepsCarved(h, r, o);
  }

  lemma CutKeepsValid(h: Heap, r: nat, n: nat, o: Owner)
    requires Valid(h) && Held(h, r) && n <= |h.regions[r].data| && o != Free
    ensures Valid(Cut(h, r, n, o))
    ensures Aligned(h) && (n % 8 == 0 || o == Lost) ==> Aligned(Cut(h, r, n, o))
  {
    var h' := Cut(h, r, n, o);
    var m := |h.regions|;
    assert Inside(h.regions[r], h.pages[h.regions[r].page]);
    forall i, j | 0 <= i < j < |h'.regions|
      ensures Apart(h'.regions[i], h'.regions[j])
    {
      assert j < m ==> Apart(h.regions[i], h.regions[j]);
      assert j == m && i < r ==> Apart(h.regions[i], h.regions[r]);
      assert j == m && r < i ==> Apart(h.regions[r], h.regions[i]);
    }
  }

  lemma UnlinkKeepsValid(h: Heap, k: nat, o: Owner)
    requires Valid(h) && k < |h.free| && o != Free && o != Lost
    ensures Valid(Unlink(h, k, o)) && Held(Unlink(h, k, o), h.free[k]) && (Aligned(h) ==> Aligned(Unlink(h, k, o)))
  {
    hide Carved;
    GiveKeepsCarved(h, h.free[k], o);
    var h' := Unlink(h, k, o);
    assert forall l :: 0 <= l < |h'.free| ==> h'.free[l] == h.free[if l < k then l else l + 1];
    forall i | 0 <= i < |h'.regions| && h'.regions[i].owner == Free
      ensures i in h'.free
    {
      var l := PositionOf(h.free, i);
      assert h'.free[if l < k then l else l - 1] == i;
    }
  }

  lemma PositionOf(free: seq<nat>, i: nat) returns (l: nat)
    requires i in free
    ensures l < |free| && free[l] == i
  {
    l :| l < |free| && free[l] == i;
  }

  lemma FreeLockedKeepsValid(h: Heap, r: nat)
    requires Valid(h) && Held(h, r)
    ensures Valid(FreeLocked(h, r)) && (Aligned(h) ==> Aligned(FreeLocked(h, r)))
  {
    hide Carved;
    if |h.regions[r].data| >= HEADER {
      GiveKeepsCarved(h, r, Free);
      PushKeepsListed(h.regions, h.free, r);
    } else {
      GiveKeepsValid(h, r, Lost);
    }
  }

  lemma PushKeepsListed(regions: seq<Region>, free: seq<nat>, r: nat)
    requires Listed(regions, free) && r < |regions| && regions[r].owner != Free && |regions[r].data| >= HEADER
    ensures Listed(regions[r := regions[r].(owner := Free)], [r] + free)
  {
    var regions', free' := regions[r := regions[r].(owner := Free)], [r] + free;
    assert forall k :: 0 < k < |free'| ==> free'[k] == free[k - 1];
    forall i | 0 <= i < |regions'| && regions'[i].owner == Free
      ensures i in free'
    {
      assert i == r || i in free;
    }
  }

  lemma MapPageKeepsValid(h: Heap, addr: nat, size: nat, o: Owner)
    requires Valid(h) && Unmapped(h, Page(addr, size)) && o != Free
    ensures Valid(MapPage(h, addr, size, o)) && (Aligned(h) ==> Aligned(MapPage(h, addr, size, o)))
  {
    var h' := MapPage(h, addr, size, o);
    var m := |h.regions|;
    forall i | 0 <= i < m
      ensures Apart(h'.regions[i], h'.regions[m])
    {
      assert Inside(h.regions[i], h.pages[h.regions[i].page]);
    }
  }

  // ---------------------------------------------------------------------------
  // Bytes
  // ---------------------------------------------------------------------------

  /** The bytes that the first n regions with an owner of this kind have. */
  function BytesOf(regions: seq<Region>, o: Owner, n: nat): nat
    requires n <= |regions|
  {
    if n == 0 then 0
    else BytesOf(regions, o, n - 1) + if regions[n - 1].owner == o then |regions[n - 1].data| else 0
  }

  function Bytes(h: Heap, o: Owner): nat {
    BytesOf(h.regions, o, |h.regions|)
  }

  function Mapped(pages: seq<Page>): nat {
    if pages == [] then 0 else Mapped(pages[..|pages| - 1]) + pages[|pages| - 1].size
  }

  lemma {:induction false} BytesOfPrefix(a: seq<Region>, b: seq<Region>, o: Owner, n: nat)
    requires n <= |a| && n <= |b| && a[..n] == b[..n]
    ensures BytesOf(a, o, n) == BytesOf(b, o, n)
  {
    if n > 0 {
      assert a[..n][n - 1] == b[..n][n - 1] && a[..n - 1] == a[..n][..n - 1] && b[..n - 1] == b[..n][..n - 1];
      BytesOfPrefix(a, b, o, n - 1);
    }
  }

  /** What one region weighs in the balance of o. */
  function Weight(x: Region, o: Owner): nat {
    if x.owner == o then |x.data| else 0
  }

  lemma {:induction false} BytesOfUpdate(regions: seq<Region>, r: nat, x: Region, o: Owner, n: nat)
    requires r < n <= |regions|
    ensures BytesOf(regions[r := x], o, n) == BytesOf(regions, o, n) - Weight(regions[r], o) + Weight(x, o)
  {
    if r == n - 1 {
      assert regions[r := x][..r] == regions[..r];
      BytesOfPrefix(regions[r := x], regions, o, r);
    } else {
      BytesOfUpdate(regions, r, x, o, n - 1);
    }
  }

  lemma BytesOfAppend(regions: seq<Region>, x: Region, o: Owner)
    ensures BytesOf(regions + [x], o, |regions| + 1) == BytesOf(regions, o, |regions|) + Weight(x, o)
  {
    assert (regions + [x])[..|regions|] == regions[..|regions|];
    BytesOfPrefix(regions + [x], regions, o, |regions|);
  }

  /** Bytes only change their owner, when a region does. */
  lemma GiveBytes(h: Heap, r: nat, o: Owner, p: Owner)
    requires r < |h.regions|
    ensures var x := h.regions[r];
      Bytes(Give(h, r, o), p) == Bytes(h, p) - Weight(x, p) + Weight(x.(owner := o), p)
  {
    BytesOfUpdate(h.regions, r, h.regions[r].(owner := o), p, |h.regions|);
  }

  lemma CutBytes(h: Heap, r: nat, n: nat, o: Owner, p: Owner)
    requires r < |h.regions| && n <= |h.regions[r].data|
    ensures var x := h.regions[r];
      Bytes(Cut(h, r, n, o), p)
      == Bytes(h, p) - Weight(x, p) + (if x.owner == p then n else 0) + (if o == p then |x.data| - n else 0)
  {
    var x := h.regions[r];
    var first, second := x.(data := x.data[..n]), Region(x.addr + n, x.data[n..], x.page, o);
    BytesOfUpdate(h.regions, r, first, p, |h.regions|);
    BytesOfAppend(h.regions[r := first], second, p);
  }

  lemma MapPageBytes(h: Heap, addr: nat, size: nat, o: Owner, p: Owner)
    ensures Bytes(MapPage(h, addr, size, o), p) == Bytes(h, p) + if o == p then size else 0
    ensures Mapped(MapPage(h, addr, size, o).pages) == Mapped(h.pages) + size
  {
    BytesOfAppend(h.regions, Region(addr, Zeros(size), |h.pages|, o), p);
    assert MapPage(h, addr, size, o).pages[..|h.pages|] == h.pages;
  }

  /** All bytes of regions, whoever has them. */
  function Total(regions: seq<Region>, n: nat): nat
    requires n <= |regions|
  {
    if n == 0 then 0 else Total(regions, n - 1) + |regions[n - 1].data|
  }

  /** The bytes that threads are at work on. */
  function InHands(regions: seq<Region>, n: nat): nat
    requires n <= |regions|
  {
    if n == 0 then 0 else InHands(regions, n - 1) + if regions[n - 1].owner.Hand? then |regions[n - 1].data| else 0
  }

  lemma {:induction false} TotalIsShared(regions: seq<Region>, n: nat)
    requires n <= |regions|
    ensures Total(regions, n)
      == BytesOf(regions, Free, n) + BytesOf(regions, User, n) + BytesOf(regions, Lost, n) + InHands(regions, n)
  {
    if n > 0 {
      TotalIsShared(regions, n - 1);
    }
  }

  lemma {:induction false} TotalPrefix(a: seq<Region>, b: seq<Region>, n: nat)
    requires n <= |a| && n <= |b| && forall i :: 0 <= i < n ==> |a[i].data| == |b[i].data|
    ensures Total(a, n) == Total(b, n)
  {
    if n > 0 {
      TotalPrefix(a, b, n - 1);
    }
  }

  lemma {:induction false} TotalOfUpdate(regions: seq<Region>, r: nat, x: Region, n: nat)
    requires r < n <= |regions|
    ensures Total(regions[r := x], n) == Total(regions, n) - |regions[r].data| + |x.data|
  {
    if r == n - 1 {
      TotalPrefix(regions[r := x], regions, r);
    } else {
      TotalOfUpdate(regions, r, x, n - 1);
    }
  }

  /** Mapped bytes are in regions, each once. */
  ghost predicate Accounted(h: Heap) {
    Mapped(h.pages) == Total(h.regions, |h.regions|)
  }

  lemma GiveAccounted(h: Heap, r: nat, o: Owner)
    requires r < |h.regions| && Accounted(h)
    ensures Accounted(Give(h, r, o))
  {
    TotalPrefix(Give(h, r, o).regions, h.regions, |h.regions|);
  }

  lemma CutAccounted(h: Heap, r: nat, n: nat, o: Owner)
    requires r < |h.regions| && n <= |h.regions[r].data| && Accounted(h)
    ensures Accounted(Cut(h, r, n, o))
  {
    var x := h.regions[r].(data := h.regions[r].data[..n]);
    TotalOfUpdate(h.regions, r, x, |h.regions|);
    TotalPrefix(Cut(h, r, n, o).regions, h.regions[r := x], |h.regions|);
  }

  lemma MapPageAccounted(h: Heap, addr: nat, size: nat, o: Owner)
    requires Accounted(h)
    ensures Accounted(MapPage(h, addr, size, o))
  {
    var h' := MapPage(h, addr, size, o);
    TotalPrefix(h'.regions, h.regions, |h.regions|);
    assert h'.pages[..|h.pages|] == h.pages;
  }
}
