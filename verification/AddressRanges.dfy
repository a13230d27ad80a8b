// Address ranges that map pcs to units or functions: merging while they are read, and the
// search that dwarf_lookup_pc and report_inlined_functions do on the sorted array.
module AddressRanges {
  import opened Words
  import opened BinarySearch

  /** struct unit_addrs and struct function_addrs: low <= pc < high belongs to owner. */
  datatype Range<T> = Range(low: word, high: word, owner: T)

  predicate Contains<T>(r: Range<T>, pc: word) {
    r.low <= pc < r.high
  }

  // ---------------------------------------------------------------------------
  // add_unit_addr and add_function_range
  // ---------------------------------------------------------------------------

  function Rebase<T>(r: Range<T>, base: word): Range<T> {
    r.(low := Wrap64(r.low + base), high := Wrap64(r.high + base))
  }

  predicate Adjoins<T(==)>(last: Range<T>, r: Range<T>) {
    (r.low == last.high || r.low == Wrap64(last.high + 1)) && r.owner == last.owner
  }

  /** Adding a range that has its base address already. */
  function AddRange<T(==)>(ranges: seq<Range<T>>, r: Range<T>): seq<Range<T>> {
    var n := |ranges|;
    if n > 0 && Adjoins(ranges[n - 1], r) then
      if r.high > ranges[n - 1].high then ranges[n - 1 := ranges[n - 1].(high := r.high)] else ranges
    else ranges + [r]
  }

  function AddRanges<T(==)>(ranges: seq<Range<T>>, adds: seq<Range<T>>): seq<Range<T>> {
    if adds == [] then ranges else AddRange(AddRanges(ranges, adds[..|adds| - 1]), adds[|adds| - 1])
  }

  lemma {:induction false} AddRangesAppend<T>(v: seq<Range<T>>, a: seq<Range<T>>, b: seq<Range<T>>)
    ensures AddRanges(v, a + b) == AddRanges(AddRanges(v, a), b)
  {
    if b == [] {
      assert a + b == a;
    } else {
      var n := |b| - 1;
      AddRangesAppend(v, a, b[..n]);
      assert (a + b)[..|a + b| - 1] == a + b[..n];
    }
  }

  /** The growable vector, with the code the two add functions share. */
  class RangeVector<T(==)> {
    var ranges: seq<Range<T>>

    constructor ()
      ensures ranges == []
    {
      ranges := [];
    }

    method Add(low: word, high: word, owner: T, base: word)
      modifies this
      ensures ranges == AddRange(old(ranges), Rebase(Range(low, high, owner), base))
    {
      var lo, hi := Wrap64(low + base), Wrap64(high + base);
      if |ranges| > 0 {
        var last := |ranges| - 1;
        var p := ranges[last];
        if (lo == p.high || lo == Wrap64(p.high + 1)) && owner == p.owner {
          if hi > p.high {
            ranges := ranges[last := p.(high := hi)];
          }
          return;
        }
      }
      ranges := ranges + [Range(lo, hi, owner)];
    }
  }

  /** Some range gives pc to owner. */
  ghost predicate Covers<T>(ranges: seq<Range<T>>, pc: word, owner: T) {
    exists k :: 0 <= k < |ranges| && Contains(ranges[k], pc) && ranges[k].owner == owner
  }

  /** pc lies in the one-byte gap that was closed when adds[j] was merged. */
  ghost predicate Bridged<T>(adds: seq<Range<T>>, pc: word, owner: T, j: nat) {
    && 0 < j < |adds| && adds[j].owner == owner && adds[j - 1].owner == owner && adds[j].low == pc + 1
    && exists i :: 0 <= i < j && adds[i].high == pc && adds[i].owner == owner
  }

  lemma NextAddress(a: word)
    ensures Wrap64(a + 1) == if a == U64 - 1 then 0 else a + 1
  {
    if a == U64 - 1 {
      WrapUnique(a + 1, 1, 0);
    } else {
      WrapUnique(a + 1, 0, a + 1);
    }
  }

  lemma AddRangesOfNone<T>(adds: seq<Range<T>>)
    requires adds == []
    ensures AddRanges([], adds) == []
  {
  }

  /** The last stored range: its owner is that of the last addition, its end that of some addition. */
  lemma {:induction false} AddRangesLast<T>(adds: seq<Range<T>>)
    requires adds != []
    ensures var v, n := AddRanges([], adds), |adds|;
      && v != [] && v[|v| - 1].owner == adds[n - 1].owner
      && exists i :: 0 <= i < n && adds[i].high == v[|v| - 1].high && adds[i].owner == adds[n - 1].owner
  {
    var n := |adds| - 1;
    var head, r := adds[..n], adds[n];
    if n > 0 {
      AddRangesLast(head);
      var v := AddRanges([], head);
      var i :| 0 <= i < n && head[i].high == v[|v| - 1].high && head[i].owner == head[n - 1].owner;
      assert adds[i] == head[i];
    }
    assert adds[n].high == r.high;
  }

  lemma AddRangeKeeps<T>(v: seq<Range<T>>, r: Range<T>, pc: word, owner: T)
    requires Covers(v, pc, owner)
    ensures Covers(AddRange(v, r), pc, owner)
  {
    var k :| 0 <= k < |v| && Contains(v[k], pc) && v[k].owner == owner;
    assert Contains(AddRange(v, r)[k], pc);
  }

  /** Every pc of r is found under the owner of r. */
  ghost predicate Found<T>(v: seq<Range<T>>, r: Range<T>) {
    forall pc: word :: Contains(r, pc) ==> Covers(v, pc, r.owner)
  }

  /** What of r lies in front of the last range, when r is joined to it nevertheless. */
  function InFront<T(==)>(v: seq<Range<T>>, r: Range<T>): Range<T> {
    if v != [] && Adjoins(v[|v| - 1], r) then
      var last := v[|v| - 1];
      r.(high := if r.high < last.low then r.high else last.low)
    else r.(high := r.low)
  }

  /** An addition is found exactly when the part that joining drops was there before; for most there is no such part. */
  lemma AddRangeFindsIff<T>(v: seq<Range<T>>, r: Range<T>)
    ensures Found(AddRange(v, r), r) <==> Found(v, InFront(v, r))
  {
    var w, part := AddRange(v, r), InFront(v, r);
    forall pc: word | Contains(r, pc)
      ensures Covers(w, pc, r.owner) <==> Contains(part, pc) ==> Covers(v, pc, r.owner)
    {
      AddRangeFindsAt(v, r, pc);
    }
    if Found(v, part) {
      forall pc: word | Contains(r, pc)
        ensures Covers(w, pc, r.owner)
      {
        assert Contains(part, pc) ==> Covers(v, pc, part.owner);
      }
    } else {
      var pc: word :| Contains(part, pc) && !Covers(v, pc, part.owner);
      assert Contains(r, pc);
    }
  }

  lemma AddRangeFindsAt<T>(v: seq<Range<T>>, r: Range<T>, pc: word)
    requires Contains(r, pc)
    ensures Covers(AddRange(v, r), pc, r.owner) <==> (Contains(InFront(v, r), pc) ==> Covers(v, pc, r.owner))
  {
    var w, n := AddRange(v, r), |v|;
    if Covers(v, pc, r.owner) {
      AddRangeKeeps(v, r, pc, r.owner);
    } else if n > 0 && Adjoins(v[n - 1], r) {
      var last := v[n - 1];
      NextAddress(last.high);
      assert !Contains(v[n - 1], pc);
      assert forall k :: 0 <= k < n - 1 ==> w[k] == v[k];
      assert Covers(w, pc, r.owner) <==> Contains(w[n - 1], pc);
    } else {
      assert Contains(w[n], pc);
    }
  }

  /** Each addition leaves nothing out that was not there before. */
  ghost predicate Fits<T>(adds: seq<Range<T>>) {
    forall i :: 0 <= i < |adds| ==> Found(AddRanges([], adds[..i]), InFront(AddRanges([], adds[..i]), adds[i]))
  }

  /** After each of the additions everything added so far is found. */
  ghost predicate AlwaysFound<T>(adds: seq<Range<T>>) {
    forall i, m :: 0 <= i < m <= |adds| ==> Found(AddRanges([], adds[..m]), adds[i])
  }

  /** Every pc of every added range is found under its owner, at any time, exactly when each addition fits. */
  lemma {:induction false} MergedFindsIff<T>(adds: seq<Range<T>>)
    ensures AlwaysFound(adds) <==> Fits(adds)
  {
    hide InFront, Found;
    forall m | 0 <= m < |adds|
      ensures Found(AddRanges([], adds[..m + 1]), adds[m])
        <==> Found(AddRanges([], adds[..m]), InFront(AddRanges([], adds[..m]), adds[m]))
    {
      AddRangesNext(adds, m);
      AddRangeFindsIff(AddRanges([], adds[..m]), adds[m]);
    }
    if Fits(adds) {
      forall i, m | 0 <= i < m <= |adds|
        ensures Found(AddRanges([], adds[..m]), adds[i])
      {
        assert Found(AddRanges([], adds[..i + 1]), adds[i]);
        StaysFound(adds, i + 1, m, adds[i]);
      }
    }
    if AlwaysFound(adds) {
      forall i | 0 <= i < |adds|
        ensures Found(AddRanges([], adds[..i]), InFront(AddRanges([], adds[..i]), adds[i]))
      {
        assert Found(AddRanges([], adds[..i + 1]), adds[i]);
      }
    }
  }

  lemma AddRangesNext<T>(adds: seq<Range<T>>, m: nat)
    requires m < |adds|
    ensures AddRanges([], adds[..m + 1]) == AddRange(AddRanges([], adds[..m]), adds[m])
  {
    assert adds[..m + 1][..m] == adds[..m];
  }

  lemma {:induction false} StaysFound<T>(adds: seq<Range<T>>, l: nat, m: nat, r: Range<T>)
    requires l <= m <= |adds| && Found(AddRanges([], adds[..l]), r)
    ensures Found(AddRanges([], adds[..m]), r)
    decreases m - l
  {
    if l < m {
      hide AddRanges, AddRange;
      AddRangesNext(adds, l);
      var v := AddRanges([], adds[..l]);
      forall pc: word | Contains(r, pc)
        ensures Covers(AddRange(v, adds[l]), pc, r.owner)
      {
        AddRangeKeeps(v, adds[l], pc, r.owner);
      }
      StaysFound(adds, l + 1, m, r);
    }
  }

  ghost predicate Ordered<T>(ranges: seq<Range<T>>) {
    forall i :: 0 <= i < |ranges| ==> ranges[i].low <= ranges[i].high
  }

  /**
   * What producers give: no range ends before it begins, and none starts again at 0 behind one of the same
   * owner that reached the last address.
   */
  ghost predicate WellFormed<T>(adds: seq<Range<T>>) {
    && Ordered(adds)
    && forall i, j :: 0 <= i < j < |adds| && adds[i].owner == adds[j].owner && adds[i].high == U64 - 1 ==> adds[j].low != 0
  }

  /** Such additions fit, so that every pc of every added range is found. */
  lemma MergedCoversAll<T>(adds: seq<Range<T>>)
    requires WellFormed(adds)
    ensures AlwaysFound(adds)
  {
    hide AddRanges, InFront, Found;
    forall m | 0 <= m < |adds|
      ensures Found(AddRanges([], adds[..m]), InFront(AddRanges([], adds[..m]), adds[m]))
    {
      WellFormedFits(adds[..m], adds[m], adds);
    }
    MergedFindsIff(adds);
  }

  lemma WellFormedFits<T>(head: seq<Range<T>>, r: Range<T>, adds: seq<Range<T>>)
    requires WellFormed(adds) && |head| < |adds| && head == adds[..|head|] && r == adds[|head|]
    ensures Found(AddRanges([], head), InFront(AddRanges([], head), r))
  {
    hide AddRanges, Covers;
    var v := AddRanges([], head);
    if v != [] && Adjoins(v[|v| - 1], r) {
      if head == [] {
        AddRangesOfNone(head);
      }
      MergedOrdered(head);
      AddRangesLast(head);
      var last := v[|v| - 1];
      var i :| 0 <= i < |head| && head[i].high == last.high && head[i].owner == head[|head| - 1].owner;
      assert adds[i] == head[i];
      NextAddress(last.high);
    }
  }

  lemma {:induction false} MergedOrdered<T>(adds: seq<Range<T>>)
    requires Ordered(adds)
    ensures Ordered(AddRanges([], adds))
  {
    if adds != [] {
      var head, r := adds[..|adds| - 1], adds[|adds| - 1];
      assert forall i :: 0 <= i < |head| ==> head[i] == adds[i];
      MergedOrdered(head);
      AddRangeOrdered(AddRanges([], head), r);
    }
  }

  lemma AddRangeOrdered<T>(v: seq<Range<T>>, r: Range<T>)
    requires r.low <= r.high && Ordered(v)
    ensures Ordered(AddRange(v, r))
  {
  }

  ghost predicate Explained<T>(adds: seq<Range<T>>, pc: word, owner: T) {
    Covers(adds, pc, owner) || exists j :: Bridged(adds, pc, owner, j)
  }

  lemma ExplainedGrows<T>(adds: seq<Range<T>>, r: Range<T>, pc: word, owner: T)
    requires Explained(adds, pc, owner)
    ensures Explained(adds + [r], pc, owner)
  {
    if Covers(adds, pc, owner) {
      var k :| 0 <= k < |adds| && Contains(adds[k], pc) && adds[k].owner == owner;
      assert Contains((adds + [r])[k], pc);
    } else {
      var j :| Bridged(adds, pc, owner, j);
      var i :| 0 <= i < j && adds[i].high == pc && adds[i].owner == owner;
      assert (adds + [r])[i].high == pc;
      assert Bridged(adds + [r], pc, owner, j);
    }
  }

  /** Nothing else is ever covered, but for the single address between two additions that were joined. */
  lemma {:induction false} MergedCoversNoMore<T>(adds: seq<Range<T>>, pc: word, owner: T)
    requires Covers(AddRanges([], adds), pc, owner)
    ensures Explained(adds, pc, owner)
  {
    if adds != [] {
      var n := |adds| - 1;
      var head, r := adds[..n], adds[n];
      assert adds == head + [r];
      var v := AddRanges([], head);
      if Covers(v, pc, owner) {
        MergedCoversNoMore(head, pc, owner);
        ExplainedGrows(head, r, pc, owner);
      } else {
        NewlyCovered(head, r, pc, owner);
      }
    }
  }

  lemma NewlyCovered<T>(head: seq<Range<T>>, r: Range<T>, pc: word, owner: T)
    requires var v := AddRanges([], head); !Covers(v, pc, owner) && Covers(AddRange(v, r), pc, owner)
    ensures Explained(head + [r], pc, owner)
  {
    hide AddRanges;
    var adds, n := head + [r], |head|;
    var v := AddRanges([], head);
    var w := AddRange(v, r);
    assert forall l :: 0 <= l < |w| - 1 ==> w[l] == v[l];
    var k :| 0 <= k < |w| && Contains(w[k], pc) && w[k].owner == owner;
    assert k == |w| - 1;
    if Contains(r, pc) && r.owner == owner {
      assert Contains(adds[n], pc);
    } else {
      assert n > 0 by {
        if n == 0 {
          AddRangesOfNone(head);
        }
      }
      AddRangesLast(head);
      var last := v[|v| - 1];
      assert !Contains(v[|v| - 1], pc) || last.owner != owner;
      NextAddress(last.high);
      assert pc == last.high && r.low == pc + 1;
      var i :| 0 <= i < n && head[i].high == last.high && head[i].owner == head[n - 1].owner;
      assert adds[i] == head[i] && adds[n - 1] == head[n - 1];
      assert Bridged(adds, pc, owner, n);
    }
  }

  /** An addition that does not fit: past the last address + 1 wraps, and what starts at 0 is dropped. */
  lemma RangeLostAtWrap<T>(low: word, high: word, owner: T)
    requires low < U64 - 1
    ensures var v := AddRange([Range(low, U64 - 1, owner)], Range(0, high, owner));
      && v == [Range(low, U64 - 1, owner)]
      && (Found(v, Range(0, high, owner)) <==> low == 0 || high == 0)
  {
    NextAddress(U64 - 1);
    assert low > 0 && high > 0 ==> Contains(Range(0, high, owner), 0);
    assert low == 0 ==> forall pc: word :: Contains(Range(0, high, owner), pc) ==> Contains([Range(low, U64 - 1, owner)][0], pc);
  }

  /** And another: behind a range that ends before it begins. */
  lemma RangeLostBehindReversed<T>(owner: T)
    ensures var v := AddRange([Range(10, 3, owner)], Range(3, 7, owner));
      v == [Range(10, 7, owner)] && !Found(v, Range(3, 7, owner))
  {
    assert Contains(Range(3, 7, owner), 5);
  }

  // ---------------------------------------------------------------------------
  // The search on the sorted array
  // ---------------------------------------------------------------------------

  /** unit_addrs_compare and function_addrs_compare: by start, and the longer range first. */
  ghost predicate SortedRanges<T>(ranges: seq<Range<T>>) {
    forall i, j :: 0 <= i < j < |ranges| ==>
      ranges[i].low < ranges[j].low || (ranges[i].low == ranges[j].low && ranges[i].high >= ranges[j].high)
  }

  /** unit_addrs_search and function_addrs_search. */
  function RangeSign<T>(r: Range<T>, pc: word): int {
    if pc < r.low then -1 else if pc >= r.high then 1 else 0
  }

  function RangeSigns<T>(ranges: seq<Range<T>>, pc: word): (signs: seq<int>)
    ensures |signs| == |ranges|
    ensures forall k :: 0 <= k < |signs| ==> signs[k] == RangeSign(ranges[k], pc)
  {
    seq(|ranges|, k requires 0 <= k < |ranges| => RangeSign(ranges[k], pc))
  }

  /** The forward walk: on while the next range holds pc too. */
  function WalkForward<T>(ranges: seq<Range<T>>, pc: word, k: nat): (r: nat)
    requires k < |ranges|
    ensures k <= r < |ranges|
    decreases |ranges| - k
  {
    if k + 1 < |ranges| && Contains(ranges[k + 1], pc) then WalkForward(ranges, pc, k + 1) else k
  }

  function WalkFrom<T>(ranges: seq<Range<T>>, pc: word, r: Option<nat>): Option<nat>
    requires r.Some? ==> r.value < |ranges|
  {
    if r.None? then None else Some(WalkForward(ranges, pc, r.value))
  }

  /** The reference: a linear scan from the end. */
  function LastContaining<T>(ranges: seq<Range<T>>, pc: word, n: nat): (r: Option<nat>)
    requires n <= |ranges|
    ensures match r
      case Some(k) => k < n && Contains(ranges[k], pc) && forall i :: k < i < n ==> !Contains(ranges[i], pc)
      case None => forall i :: 0 <= i < n ==> !Contains(ranges[i], pc)
  {
    if n == 0 then None else if Contains(ranges[n - 1], pc) then Some(n - 1) else LastContaining(ranges, pc, n - 1)
  }

  /** Where pcs begin to lie behind a range, be it reversed or not. */
  function End<T>(r: Range<T>): word {
    if r.high < r.low then r.low else r.high
  }

  ghost predicate EndsAscend<T>(ranges: seq<Range<T>>) {
    forall i, j :: 0 <= i < j < |ranges| ==> End(ranges[i]) <= End(ranges[j])
  }

  ghost predicate StartsAscend<T>(ranges: seq<Range<T>>) {
    forall i, j :: 0 <= i < j < |ranges| ==> ranges[i].low <= ranges[j].low
  }

  lemma AscendingIsPartitioned<T>(ranges: seq<Range<T>>, pc: word)
    requires StartsAscend(ranges) && EndsAscend(ranges)
    ensures Partitioned(RangeSigns(ranges, pc))
  {
  }

  /** bsearch is called as it must be, for every pc, exactly when the ends ascend too. */
  lemma SearchDemandIff<T>(ranges: seq<Range<T>>)
    requires SortedRanges(ranges)
    ensures (forall pc: word :: Partitioned(RangeSigns(ranges, pc))) <==> EndsAscend(ranges)
  {
    if EndsAscend(ranges) {
      forall pc: word
        ensures Partitioned(RangeSigns(ranges, pc))
      {
        AscendingIsPartitioned(ranges, pc);
      }
    } else {
      var i, j :| 0 <= i < j < |ranges| && End(ranges[i]) > End(ranges[j]);
      var pc: word := ranges[i].high - 1;
      assert ranges[i].low <= ranges[j].low;
      assert RangeSigns(ranges, pc)[i] == 0 && RangeSigns(ranges, pc)[j] == 1;
    }
  }

  lemma {:induction false} WalkReachesLast<T>(ranges: seq<Range<T>>, pc: word, k: nat, last: nat)
    requires StartsAscend(ranges) && EndsAscend(ranges)
    requires k <= last < |ranges| && Contains(ranges[k], pc) && Contains(ranges[last], pc)
    requires forall i :: last < i < |ranges| ==> !Contains(ranges[i], pc)
    ensures WalkForward(ranges, pc, k) == last
    decreases last - k
  {
    if k < last {
      assert ranges[k + 1].low <= ranges[last].low && ranges[k].high <= ranges[k + 1].high;
      WalkReachesLast(ranges, pc, k + 1, last);
    }
  }

  /** Whatever match bsearch hits first, the walk ends at the last containing range; NULL iff there is none. */
  lemma RangeLookup<T>(ranges: seq<Range<T>>, pc: word, r: Option<nat>)
    requires StartsAscend(ranges) && EndsAscend(ranges)
    requires SearchResult(RangeSigns(ranges, pc), r)
    ensures WalkFrom(ranges, pc, r) == LastContaining(ranges, pc, |ranges|)
  {
    var signs := RangeSigns(ranges, pc);
    var last := LastContaining(ranges, pc, |ranges|);
    match r {
      case Some(k) =>
        assert signs[k] == 0;
        WalkReachesLast(ranges, pc, k, last.value);
      case None =>
        if last.Some? {
          assert signs[last.value] == RangeSign(ranges[last.value], pc);
        }
    }
  }

  /** Whichever entries the search looks at, for whichever pc, search and walk give what the scan gives. */
  ghost predicate AlwaysRight<T>(ranges: seq<Range<T>>) {
    forall pc: word, r: Option<nat> ::
      Searched(RangeSigns(ranges, pc), 0, |ranges|, r)
      ==> WalkFrom(ranges, pc, r) == LastContaining(ranges, pc, |ranges|)
  }

  /** The lookup is right for every pc exactly when the ends of the sorted ranges ascend too. */
  lemma LookupRightIff<T>(ranges: seq<Range<T>>)
    requires SortedRanges(ranges)
    ensures AlwaysRight(ranges) <==> EndsAscend(ranges)
  {
    if EndsAscend(ranges) {
      forall pc: word, r: Option<nat> | Searched(RangeSigns(ranges, pc), 0, |ranges|, r)
        ensures WalkFrom(ranges, pc, r) == LastContaining(ranges, pc, |ranges|)
      {
        AscendingIsPartitioned(ranges, pc);
        SearchedFinds(RangeSigns(ranges, pc), 0, |ranges|, r);
        RangeLookup(ranges, pc, r);
      }
    } else {
      var i, j :| 0 <= i < j < |ranges| && End(ranges[i]) > End(ranges[j]);
      var r := NestedLookupWrong(ranges, i, j);
    }
  }

  /** A range that ends behind a later one: at the end of the later one some search goes wrong. */
  lemma NestedLookupWrong<T>(ranges: seq<Range<T>>, i: nat, j: nat) returns (r: Option<nat>)
    requires SortedRanges(ranges) && i < j < |ranges| && End(ranges[i]) > End(ranges[j])
    ensures var pc, n := End(ranges[j]), |ranges|;
      Searched(RangeSigns(ranges, pc), 0, n, r) && WalkFrom(ranges, pc, r) != LastContaining(ranges, pc, n)
  {
    var pc, n := End(ranges[j]), |ranges|;
    var signs := RangeSigns(ranges, pc);
    assert ranges[i].low <= ranges[j].low && signs[i] == 0 && signs[j] == 1;
    var last := LastContaining(ranges, pc, n).value;
    if last > j {
      r := Some(i);
      assert Looked(signs, 0, i, n, r);
      WalkStopsBefore(ranges, pc, i, j);
    } else {
      r := Probe(signs, j + 1, n);
      ProbeSearches(signs, j + 1, n);
      assert Looked(signs, 0, j, n, r);
    }
  }

  lemma {:induction false} WalkStopsBefore<T>(ranges: seq<Range<T>>, pc: word, k: nat, j: nat)
    requires k < j < |ranges| && !Contains(ranges[j], pc)
    ensures WalkForward(ranges, pc, k) < j
    decreases j - k
  {
    if k + 1 < j {
      WalkStopsBefore(ranges, pc, k + 1, j);
    }
  }

  /** Ranges that are non-empty and pairwise disjoint or identical ascend at both ends once sorted. */
  lemma DisjointOrIdenticalAscend<T>(ranges: seq<Range<T>>)
    requires SortedRanges(ranges) && forall i :: 0 <= i < |ranges| ==> ranges[i].low < ranges[i].high
    requires forall i, j :: 0 <= i < j < |ranges| ==>
      || ranges[i].high <= ranges[j].low || ranges[j].high <= ranges[i].low
      || (ranges[i].low == ranges[j].low && ranges[i].high == ranges[j].high)
    ensures StartsAscend(ranges) && EndsAscend(ranges)
  {
  }

  /** Properly nested ranges break the search: a pc of the outer range behind the inner one is missed. */
  lemma NestedRangeMissed<T>(outer: T, inner: T)
    ensures var ranges := [Range(0, 100, outer), Range(10, 20, inner)];
      SortedRanges(ranges) && LastContaining(ranges, 50, 2) == Some(0)
      && Probe(RangeSigns(ranges, 50), 0, 2) == None
  {
    var ranges := [Range(0, 100, outer), Range(10, 20, inner)];
    var signs := RangeSigns(ranges, 50);
    assert signs[1] == 1;
    assert LastContaining(ranges, 50, 1) == Some(0);
    assert Probe(signs, 2, 2) == None;
  }

  method LookupRange<T>(ranges: seq<Range<T>>, pc: word) returns (r: Option<nat>)
    ensures r == WalkFrom(ranges, pc, Probe(RangeSigns(ranges, pc), 0, |ranges|))
    ensures StartsAscend(ranges) && EndsAscend(ranges) ==> r == LastContaining(ranges, pc, |ranges|)
  {
    r := BSearch(|ranges|, (k: nat) requires k < |ranges| => RangeSign(ranges[k], pc), RangeSigns(ranges, pc));
    if StartsAscend(ranges) && EndsAscend(ranges) {
      AscendingIsPartitioned(ranges, pc);
      RangeLookup(ranges, pc, r);
    }
    if r == None {
      return;
    }
    var k := r.value;
    while k + 1 < |ranges| && Contains(ranges[k + 1], pc)
      invariant k < |ranges| && WalkForward(ranges, pc, k) == WalkForward(ranges, pc, r.value)
    {
      k := k + 1;
    }
    r := Some(k);
  }
}
