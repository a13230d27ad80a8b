// qsort with function_addrs_compare.
module RangeSort {
  import opened Words
  import opened AddressRanges

  datatype Key = Key(low: word, high: word, name: seq<byte>)

  /** The sign of strcmp. */
  function Strcmp(a: seq<byte>, b: seq<byte>): int {
    if a == [] then (if b == [] then 0 else -1)
    else if b == [] then 1
    else if a[0] != b[0] then (if a[0] < b[0] then -1 else 1)
    else Strcmp(a[1..], b[1..])
  }

  /** function_addrs_compare: nested ranges put the smallest one last. */
  function CompareKeys(a: Key, b: Key): int {
    if a.low < b.low then -1
    else if a.low > b.low then 1
    else if a.high < b.high then 1
    else if a.high > b.high then -1
    else Strcmp(a.name, b.name)
  }

  /** Where key i goes among order[..k]: behind everything it does not have to precede. */
  function InsertAt(keys: seq<Key>, order: seq<nat>, i: nat, k: nat): (p: nat)
    requires i < |keys| && k <= |order| && forall l :: 0 <= l < |order| ==> order[l] < |keys|
    ensures p <= k
    ensures p > 0 ==> CompareKeys(keys[i], keys[order[p - 1]]) >= 0
    ensures forall l :: p <= l < k ==> CompareKeys(keys[i], keys[order[l]]) < 0
  {
    if k == 0 || CompareKeys(keys[i], keys[order[k - 1]]) >= 0 then k else InsertAt(keys, order, i, k - 1)
  }

  /** The positions of the first n keys in sorted order. */
  function SortOrder(keys: seq<Key>, n: nat): (order: seq<nat>)
    requires n <= |keys|
    ensures |order| == n && forall k :: 0 <= k < n ==> order[k] < n
  {
    if n == 0 then []
    else
      var o := SortOrder(keys, n - 1);
      var p := InsertAt(keys, o, n - 1, n - 1);
      o[..p] + [n - 1] + o[p..]
  }

  function Permute<T>(s: seq<T>, order: seq<nat>): (r: seq<T>)
    requires forall k :: 0 <= k < |order| ==> order[k] < |s|
    ensures |r| == |order| && forall k :: 0 <= k < |r| ==> r[k] == s[order[k]]
  {
    seq(|order|, k requires 0 <= k < |order| => s[order[k]])
  }

  function Keys<T>(ranges: seq<Range<T>>, names: seq<seq<byte>>): (keys: seq<Key>)
    requires |names| == |ranges|
    ensures |keys| == |ranges|
    ensures forall k :: 0 <= k < |keys| ==> keys[k] == Key(ranges[k].low, ranges[k].high, names[k])
  {
    seq(|ranges|, k requires 0 <= k < |ranges| => Key(ranges[k].low, ranges[k].high, names[k]))
  }

  function SortRanges<T>(ranges: seq<Range<T>>, names: seq<seq<byte>>): (r: seq<Range<T>>)
    requires |names| == |ranges|
    ensures |r| == |ranges|
  {
    Permute(ranges, SortOrder(Keys(ranges, names), |ranges|))
  }

  lemma InsertElements<T>(s: seq<T>, p: nat, x: T)
    requires p <= |s|
    ensures multiset(s[..p] + [x] + s[p..]) == multiset(s) + multiset{x}
  {
    assert s == s[..p] + s[p..];
  }

  lemma PermuteInsert<T>(s: seq<T>, o: seq<nat>, p: nat, i: nat)
    requires p <= |o| && i < |s| && forall k :: 0 <= k < |o| ==> o[k] < |s|
    ensures Permute(s, o[..p] + [i] + o[p..]) == Permute(s, o)[..p] + [s[i]] + Permute(s, o)[p..]
  {
  }

  lemma SortOrderStep(keys: seq<Key>, n: nat)
    requires 0 < n <= |keys|
    ensures var o := SortOrder(keys, n - 1);
      var p := InsertAt(keys, o, n - 1, n - 1);
      SortOrder(keys, n) == o[..p] + [n - 1] + o[p..]
  {
  }

  lemma PermuteInserted<T>(s: seq<T>, keys: seq<Key>, n: nat)
    requires 0 < n <= |keys| == |s|
    ensures multiset(Permute(s, SortOrder(keys, n))) == multiset(Permute(s, SortOrder(keys, n - 1))) + multiset{s[n - 1]}
  {
    hide InsertAt, CompareKeys, Permute, SortOrder;
    SortOrderStep(keys, n);
    var o := SortOrder(keys, n - 1);
    var p := InsertAt(keys, o, n - 1, n - 1);
    PermuteInsert(s, o, p, n - 1);
    InsertElements(Permute(s, o), p, s[n - 1]);
  }

  lemma {:induction false} SortOrderElements<T>(s: seq<T>, keys: seq<Key>, n: nat)
    requires n <= |keys| == |s|
    ensures multiset(Permute(s, SortOrder(keys, n))) == multiset(s[..n])
  {
    hide SortOrder, Permute;
    if n == 0 {
      assert Permute(s, SortOrder(keys, n)) == [];
    } else {
      SortOrderElements(s, keys, n - 1);
      PermuteInserted(s, keys, n);
      assert s[..n] == s[..n - 1] + [s[n - 1]];
    }
  }

  // ---------------------------------------------------------------------------
  // The order of names
  // ---------------------------------------------------------------------------

  /** At the first difference a has the smaller byte, or has ended. */
  ghost predicate NameLess(a: seq<byte>, b: seq<byte>) {
    exists k: nat :: DiffersAt(a, b, k)
  }

  predicate DiffersAt(a: seq<byte>, b: seq<byte>, k: nat) {
    k <= |a| && k < |b| && a[..k] == b[..k] && (k == |a| || a[k] < b[k])
  }

  lemma {:induction false} StrcmpDiffers(a: seq<byte>, b: seq<byte>, k: nat)
    requires DiffersAt(a, b, k)
    ensures Strcmp(a, b) < 0 && Strcmp(b, a) > 0
    decreases k
  {
    if k > 0 {
      assert a[0] == a[..k][0] == b[..k][0] == b[0];
      assert a[1..][..k - 1] == a[..k][1..] == b[..k][1..] == b[1..][..k - 1];
      StrcmpDiffers(a[1..], b[1..], k - 1);
    }
  }

  lemma {:induction false} StrcmpTransitive(a: seq<byte>, b: seq<byte>, c: seq<byte>)
    requires Strcmp(a, b) <= 0 && Strcmp(b, c) <= 0
    ensures Strcmp(a, c) <= 0
    decreases |a|
  {
    if a != [] && b != [] && c != [] && a[0] == b[0] == c[0] {
      StrcmpTransitive(a[1..], b[1..], c[1..]);
    }
  }

  lemma {:induction false} StrcmpTotal(a: seq<byte>, b: seq<byte>)
    ensures Strcmp(a, b) >= 0 ==> Strcmp(b, a) <= 0
    decreases |a|
  {
    if a != [] && b != [] && a[0] == b[0] {
      StrcmpTotal(a[1..], b[1..]);
    }
  }

  // ---------------------------------------------------------------------------
  // The result is in order
  // ---------------------------------------------------------------------------

  ghost predicate KeyOrdered(keys: seq<Key>, order: seq<nat>)
    requires forall k :: 0 <= k < |order| ==> order[k] < |keys|
  {
    forall k, l :: 0 <= k < l < |order| ==> KeyBefore(keys[order[k]], keys[order[l]])
  }

  predicate KeyBefore(a: Key, b: Key) {
    CompareKeys(a, b) <= 0
  }

  lemma CompareBefore(a: Key, b: Key)
    ensures CompareKeys(a, b) < 0 ==> KeyBefore(a, b)
    ensures CompareKeys(a, b) >= 0 ==> KeyBefore(b, a)
  {
    StrcmpTotal(a.name, b.name);
  }

  lemma BeforeTransitive(a: Key, b: Key, c: Key)
    requires KeyBefore(a, b) && KeyBefore(b, c)
    ensures KeyBefore(a, c)
  {
    if Strcmp(a.name, b.name) <= 0 && Strcmp(b.name, c.name) <= 0 {
      StrcmpTransitive(a.name, b.name, c.name);
    }
  }

  lemma InsertKeepsOrdered(keys: seq<Key>, o: seq<nat>, n: nat)
    requires n < |keys| && |o| == n && forall k :: 0 <= k < n ==> o[k] < n
    requires KeyOrdered(keys, o)
    ensures var p := InsertAt(keys, o, n, n); KeyOrdered(keys, o[..p] + [n] + o[p..])
  {
    hide CompareKeys;
    var p := InsertAt(keys, o, n, n);
    forall k | 0 <= k < p
      ensures KeyBefore(keys[o[k]], keys[n])
    {
      CompareBefore(keys[n], keys[o[p - 1]]);
      if k < p - 1 {
        BeforeTransitive(keys[o[k]], keys[o[p - 1]], keys[n]);
      }
    }
    forall k | p <= k < n
      ensures KeyBefore(keys[n], keys[o[k]])
    {
      CompareBefore(keys[n], keys[o[k]]);
    }
  }

  lemma {:induction false} SortOrderOrdered(keys: seq<Key>, n: nat)
    requires n <= |keys|
    ensures KeyOrdered(keys, SortOrder(keys, n))
  {
    hide InsertAt, KeyBefore;
    if n > 0 {
      SortOrderOrdered(keys, n - 1);
      InsertKeepsOrdered(keys, SortOrder(keys, n - 1), n - 1);
    }
  }

  /** The result has the same ranges, in the order that the search relies on: by start, and the longer first. */
  lemma SortRangesSorts<T>(ranges: seq<Range<T>>, names: seq<seq<byte>>)
    requires |names| == |ranges|
    ensures SortedRanges(SortRanges(ranges, names))
    ensures multiset(SortRanges(ranges, names)) == multiset(ranges)
  {
    hide SortOrder, Strcmp;
    var n, keys := |ranges|, Keys(ranges, names);
    var order := SortOrder(keys, n);
    SortOrderOrdered(keys, n);
    SortOrderElements(ranges, keys, n);
    assert ranges[..n] == ranges;
    var sorted := SortRanges(ranges, names);
    forall i, j | 0 <= i < j < n
      ensures sorted[i].low < sorted[j].low || (sorted[i].low == sorted[j].low && sorted[i].high >= sorted[j].high)
    {
      assert KeyBefore(keys[order[i]], keys[order[j]]);
    }
  }

  /** The same ranges of different functions are in the order of their names. */
  lemma EqualRangesByName<T>(ranges: seq<Range<T>>, names: seq<seq<byte>>, nameOf: T -> seq<byte>, i: nat, j: nat)
    requires |names| == |ranges| && forall k :: 0 <= k < |names| ==> names[k] == nameOf(ranges[k].owner)
    requires i < j < |ranges|
    ensures var t := SortRanges(ranges, names);
      t[i].low == t[j].low && t[i].high == t[j].high ==> !NameLess(nameOf(t[j].owner), nameOf(t[i].owner))
  {
    hide SortOrder, Strcmp, DiffersAt;
    var keys := Keys(ranges, names);
    var order := SortOrder(keys, |ranges|);
    SortOrderOrdered(keys, |ranges|);
    assert KeyBefore(keys[order[i]], keys[order[j]]);
    var a, b := names[order[i]], names[order[j]];
    if NameLess(b, a) {
      var k: nat :| DiffersAt(b, a, k);
      StrcmpDiffers(b, a, k);
    }
  }
}
