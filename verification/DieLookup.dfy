// From the bytes of a unit to the function that is reported for a pc.
module DieLookup {
  import opened Words
  import opened AddressRanges
  import opened RangeSort
  import opened DieWalk
  import opened DieAttributes
  import opened DieWriter
  import opened Fileline
  import opened InlineChain
  import F = DieForest

  // ---------------------------------------------------------------------------
  // Sorting keeps what is pairwise true
  // ---------------------------------------------------------------------------

  ghost predicate AllApart<T>(s: seq<Range<T>>) {
    && (forall i :: 0 <= i < |s| ==> s[i].low < s[i].high)
    && forall i, j :: 0 <= i < j < |s| ==> s[i].high <= s[j].low || s[j].high <= s[i].low
  }

  lemma {:induction false} OnlyOnce<T>(s: seq<Range<T>>, x: Range<T>)
    requires AllApart(s)
    ensures multiset(s)[x] <= 1
  {
    if s != [] {
      var t := s[1..];
      assert s == [s[0]] + t;
      assert AllApart(t);
      OnlyOnce(t, x);
      forall i | 0 <= i < |t|
        ensures t[i] != s[0]
      {
        assert s[i + 1].low < s[i + 1].high;
      }
    }
  }

  lemma TwicePresent<T>(s: seq<T>, i: nat, j: nat)
    requires i < j < |s| && s[i] == s[j]
    ensures multiset(s)[s[i]] >= 2
  {
    var x := s[i];
    assert s == s[..i] + [x] + s[i + 1..j] + [x] + s[j + 1..];
    assert multiset(s) == multiset(s[..i]) + multiset([x]) + multiset(s[i + 1..j]) + multiset([x]) + multiset(s[j + 1..]);
  }

  lemma PermutedApart<T>(s: seq<Range<T>>, t: seq<Range<T>>)
    requires AllApart(s) && multiset(s) == multiset(t)
    ensures AllApart(t)
  {
    forall i | 0 <= i < |t|
      ensures t[i].low < t[i].high
    {
      assert t[i] in multiset(s);
    }
    forall i, j | 0 <= i < j < |t|
      ensures t[i].high <= t[j].low || t[j].high <= t[i].low
    {
      assert t[i] in multiset(s) && t[j] in multiset(s);
      if t[i] == t[j] {
        TwicePresent(t, i, j);
        OnlyOnce(s, t[i]);
      } else {
        var a :| 0 <= a < |s| && s[a] == t[i];
        var b :| 0 <= b < |s| && s[b] == t[j];
        assert a != b;
      }
    }
  }

  lemma InPermuted<T>(s: seq<T>, t: seq<T>, k: nat) returns (l: nat)
    requires multiset(s) == multiset(t) && k < |s|
    ensures l < |t| && t[l] == s[k]
  {
    assert s[k] in multiset(t);
    l :| l < |t| && t[l] == s[k];
  }

  // ---------------------------------------------------------------------------
  // Written functions are found
  // ---------------------------------------------------------------------------

  /** The ranges of plain functions, at their places in memory. */
  function PlainEntries(c: Ctx, descs: seq<Desc>): (r: seq<Range<Func>>)
    requires forall k :: 0 <= k < |descs| ==> Plain(c, descs[k])
    ensures |r| == |descs| && forall k :: 0 <= k < |r| ==> r[k] == PlainEntry(c, descs[k])
  {
    seq(|descs|, k requires 0 <= k < |descs| => PlainEntry(c, descs[k]))
  }

  lemma TidySorted(entries: seq<Range<Func>>)
    requires AllApart(entries) && forall k :: 0 <= k < |entries| ==> entries[k].owner.addrs == []
    ensures TidyLevel(SortEntries(entries)) && multiset(SortEntries(entries)) == multiset(entries)
  {
    hide SortRanges;
    SortRangesSorts(entries, FuncNames(entries));
    var t := SortEntries(entries);
    PermutedApart(entries, t);
    forall k | 0 <= k < |t|
      ensures Tidy(t[k].owner)
    {
      assert t[k] in multiset(entries);
    }
  }

  /**
   * In a unit written from functions that lie apart, the function reported for a pc is the one whose range, from its low
   * pc up to its high pc at the module's place in memory, contains it; and where there is none, none is reported.
   */
  lemma WrittenFunctionFound(u: Source, lists: map<nat, seq<Piece>>, descs: seq<Desc>, pc: word)
    requires FineAll(u.ctx, lists, descs, 0) && ListsAt(u.ctx, lists)
    requires u.entries == F.EncodeForest(ToForest(u.ctx, lists, descs, 0))
    requires (forall k :: 0 <= k < |descs| ==> Plain(u.ctx, descs[k])) && AllApart(PlainEntries(u.ctx, descs))
    ensures forall k :: 0 <= k < |descs| && Contains(PlainEntry(u.ctx, descs[k]), pc) ==>
      Chain(u.Functions([]), pc) == [PlainEntry(u.ctx, descs[k]).owner]
    ensures (forall k :: 0 <= k < |descs| ==> !Contains(PlainEntry(u.ctx, descs[k]), pc)) ==> Chain(u.Functions([]), pc) == []
  {
    hide FineAll, ListsAt, Plain, PlainEntry, ToForest, F.EncodeForest, WalkUnit, Chain, SortEntries, AllApart, TidyLevel;
    var entries := PlainEntries(u.ctx, descs);
    FunctionsAre(u, lists, descs);
    NoneInlined(u.ctx, descs);
    TidySorted(entries);
    var t := SortEntries(entries);
    if k :| 0 <= k < |descs| && Contains(entries[k], pc) {
      forall k | 0 <= k < |descs| && Contains(entries[k], pc)
        ensures Chain(t, pc) == [entries[k].owner]
      {
        var l := InPermuted(entries, t, k);
        OneFunction(t, pc, l);
      }
    } else {
      forall l | 0 <= l < |t|
        ensures !Contains(t[l], pc)
      {
        var k := InPermuted(t, entries, l);
      }
      ReportsContainingIff(t, pc, []);
    }
  }

  lemma NoneInlined(c: Ctx, descs: seq<Desc>)
    requires forall k :: 0 <= k < |descs| ==> Plain(c, descs[k])
    ensures forall k :: 0 <= k < |descs| ==> PlainEntries(c, descs)[k].owner.addrs == []
  {
  }

  lemma FunctionsAre(u: Source, lists: map<nat, seq<Piece>>, descs: seq<Desc>)
    requires FineAll(u.ctx, lists, descs, 0) && ListsAt(u.ctx, lists)
    requires u.entries == F.EncodeForest(ToForest(u.ctx, lists, descs, 0))
    requires forall k :: 0 <= k < |descs| ==> Plain(u.ctx, descs[k])
    ensures u.Functions([]) == SortEntries(PlainEntries(u.ctx, descs))
  {
    hide FineAll, ListsAt, Plain, PlainEntry, ToForest, F.EncodeForest, WalkUnit, SortEntries, F.Contract, NodesOf;
    DescribedUnit(u.ctx, lists, descs);
    PlainNodes(u.ctx, lists, descs, 0);
    var entries := PlainEntries(u.ctx, descs);
    assert WalkUnit(u.ctx, u.entries).entries == entries;
    assert [] + entries == entries;
  }

  lemma OneFunction(t: seq<Range<Func>>, pc: word, l: nat)
    requires TidyLevel(t) && l < |t| && Contains(t[l], pc) && t[l].owner.addrs == []
    ensures Chain(t, pc) == [t[l].owner]
  {
    hide Chain, TidyLevel;
    var f := t[l].owner;
    assert [f][..0] == [];
    assert IsChain(f.addrs, pc, []);
    assert IsChain(t, pc, [f]);
    ReportsContainingIff(t, pc, [f]);
  }
}
