// The order in which argv holds the arguments while options are picked out of it.
module ArgOrder {
  import opened OptionScan

  /** The numbers from a up to b. */
  function Ids(a: nat, b: nat): (s: seq<nat>)
    requires a <= b
    ensures |s| == b - a
  {
    seq(b - a, i requires 0 <= i => a + i)
  }

  ghost predicate AscendingBelow(s: seq<nat>, n: nat) {
    (forall i, j :: 0 <= i < j < |s| ==> s[i] < s[j]) && forall i :: 0 <= i < |s| ==> s[i] < n
  }

  ghost predicate AtLeast(s: seq<nat>, m: nat) {
    forall i :: 0 <= i < |s| ==> s[i] >= m
  }

  ghost predicate Disjoint(s: seq<nat>, t: seq<nat>) {
    forall i, j :: 0 <= i < |s| && 0 <= j < |t| ==> s[i] != t[j]
  }

  /**
   * Of n arguments, numbered as they were given: rest is what was last of them, as it was, and the
   * others are in processed or in files, each in order.
   */
  ghost predicate InOrder(processed: seq<nat>, rest: seq<nat>, files: seq<nat>, n: nat) {
    && |rest| <= n && rest == Ids(n - |rest|, n)
    && AscendingBelow(processed, n - |rest|) && AscendingBelow(files, n - |rest|)
    && Disjoint(processed, files)
  }

  ghost predicate Arranged(a: seq<nat>, lo: nat, last: nat) {
    lo <= last <= |a| && InOrder(a[..lo], a[lo..last], a[last..], |a|)
  }

  lemma AscendingAppend(s: seq<nat>, t: seq<nat>, m: nat, n: nat)
    requires AscendingBelow(s, m) && AscendingBelow(t, n) && m <= n && AtLeast(t, m)
    ensures AscendingBelow(s + t, n)
  {
  }

  lemma DisjointAppend(s: seq<nat>, t: seq<nat>, s': seq<nat>, t': seq<nat>, m: nat)
    requires Disjoint(s, t) && Disjoint(s', t') && AscendingBelow(s, m) && AscendingBelow(t, m)
    requires AtLeast(s', m) && AtLeast(t', m)
    ensures Disjoint(s + s', t + t')
  {
  }

  lemma IdsParts(a: nat, b: nat, i: nat, j: nat)
    requires a <= b && i <= j <= b - a
    ensures Ids(a, b)[i..j] == Ids(a + i, a + j) && Ids(a, b)[..i] == Ids(a, a + i) && Ids(a, b)[j..] == Ids(a + j, b)
    ensures AscendingBelow(Ids(a + i, a + j), a + j) && AscendingBelow(Ids(a, a + i), a + j)
    ensures Disjoint(Ids(a + i, a + j), Ids(a, a + i))
    ensures AtLeast(Ids(a + i, a + j), a) && AtLeast(Ids(a, a + i), a)
  {
    hide AscendingBelow, Disjoint, AtLeast;
    IdsSlice(a, b, i, j);
    IdsSlice(a, b, 0, i);
    IdsSlice(a, b, j, b - a);
    IdsAscend(a + i, a + j, a + j);
    IdsAscend(a, a + i, a + j);
    IdsApart(a, a + i, a + i, a + j);
    assert Ids(a, b)[..i] == Ids(a, b)[0..i] && Ids(a, b)[j..] == Ids(a, b)[j..b - a];
  }

  lemma IdsSlice(a: nat, b: nat, i: nat, j: nat)
    requires a <= b && i <= j <= b - a
    ensures Ids(a, b)[i..j] == Ids(a + i, a + j)
  {
    assert |Ids(a, b)[i..j]| == |Ids(a + i, a + j)|;
    forall k | 0 <= k < j - i
      ensures Ids(a, b)[i..j][k] == Ids(a + i, a + j)[k]
    {
      assert Ids(a, b)[i..j][k] == Ids(a, b)[i + k] == a + i + k == Ids(a + i, a + j)[k];
    }
  }

  lemma IdsAscend(a: nat, b: nat, n: nat)
    requires a <= b <= n
    ensures AscendingBelow(Ids(a, b), n)
  {
  }

  lemma IdsApart(a: nat, b: nat, c: nat, d: nat)
    requires a <= b <= c <= d
    ensures Disjoint(Ids(c, d), Ids(a, b)) && AtLeast(Ids(c, d), a) && AtLeast(Ids(a, b), a)
  {
    forall k, l | 0 <= k < d - c && 0 <= l < b - a
      ensures Ids(c, d)[k] != Ids(a, b)[l]
    {
      assert Ids(c, d)[k] == c + k && Ids(a, b)[l] == a + l;
    }
  }

  /** count arguments become files, and k of those behind them are processed. */
  lemma OrderKept(processed: seq<nat>, rest: seq<nat>, files: seq<nat>, n: nat, count: nat, k: nat)
    requires InOrder(processed, rest, files, n) && count + k <= |rest|
    ensures InOrder(processed + rest[count..count + k], rest[count + k..], files + rest[..count], n)
  {
    hide AscendingBelow, Disjoint, Ids;
    var m := n - |rest|;
    IdsParts(m, n, count, count + k);
    AscendingAppend(processed, rest[count..count + k], m, m + count + k);
    AscendingAppend(files, rest[..count], m, m + count + k);
    DisjointAppend(processed, files, rest[count..count + k], rest[..count], m);
  }

  /** The ids whose mark is b. */
  function Pick(ids: seq<nat>, marks: seq<bool>, b: bool): seq<nat>
    requires |ids| >= |marks|
  {
    if marks == [] then []
    else if marks[0] == b then [ids[0]] + Pick(ids[1..], marks[1..], b)
    else Pick(ids[1..], marks[1..], b)
  }

  /** The first |marks| unscanned arguments have been sorted into processed ones and files. */
  ghost predicate Advanced(a: seq<nat>, lo: nat, last: nat, a': seq<nat>, lo': nat, last': nat, marks: seq<bool>) {
    && lo <= last <= |a| == |a'| && lo' <= last' <= |a'| && |marks| <= last - lo
    && a'[..lo'] == a[..lo] + Pick(a[lo..last], marks, true)
    && a'[lo'..last'] == a[lo + |marks|..last]
    && a'[last'..] == a[last..] + Pick(a[lo..last], marks, false)
  }

  lemma {:induction false} PickFiles(ids: seq<nat>, j: nat, b: bool)
    requires j <= |ids|
    ensures Pick(ids, Files(j), b) == if b then [] else ids[..j]
  {
    if j > 0 {
      assert Files(j)[1..] == Files(j - 1);
      PickFiles(ids[1..], j - 1, b);
      assert ids[..j] == [ids[0]] + ids[1..][..j - 1];
    }
  }

  lemma {:induction false} PickAppend(ids: seq<nat>, a: seq<bool>, c: seq<bool>, b: bool)
    requires |ids| >= |a| + |c|
    ensures Pick(ids, a + c, b) == Pick(ids, a, b) + Pick(ids[|a|..], c, b)
  {
    if a == [] {
      assert a + c == c && ids[0..] == ids;
    } else {
      assert (a + c)[1..] == a[1..] + c && ids[1..][|a| - 1..] == ids[|a|..];
      PickAppend(ids[1..], a[1..], c, b);
    }
  }

  /** Two advances in a row are one. */
  lemma AdvancedTwice(a: seq<nat>, lo: nat, last: nat, a1: seq<nat>, lo1: nat, last1: nat,
                      a2: seq<nat>, lo2: nat, last2: nat, m: seq<bool>, n: seq<bool>)
    requires Advanced(a, lo, last, a1, lo1, last1, m) && Advanced(a1, lo1, last1, a2, lo2, last2, n)
    ensures Advanced(a, lo, last, a2, lo2, last2, m + n)
  {
    var ids := a[lo..last];
    PickAppend(ids, m, n, true);
    PickAppend(ids, m, n, false);
    assert ids[|m|..] == a1[lo1..last1];
    assert a[lo + |m + n|..last] == a[lo + |m|..last][|n|..];
    assert a1[lo1 + |n|..last1] == a1[lo1..last1][|n|..];
  }

  /** What ShuffleArg does to the array. */
  function Shuffled(a: seq<nat>, start: nat, count: nat): (s: seq<nat>)
    requires start + count <= |a|
    ensures |s| == |a|
  {
    a[..start] + a[start + count..] + a[start..start + count]
  }

  lemma ShuffledParts(a: seq<nat>, lo: nat, last: nat, count: nat, k: nat)
    requires lo + count + k <= last <= |a|
    ensures var a' := Shuffled(a, lo, count);
      && a'[..lo + k] == a[..lo] + a[lo + count..lo + count + k]
      && a'[lo + k..last - count] == a[lo + count + k..last]
      && a'[last - count..] == a[last..] + a[lo..lo + count]
  {
    var a' := Shuffled(a, lo, count);
    assert a'[..lo + k] == a[..lo] + a[lo + count..lo + count + k];
    assert a'[lo + k..last - count] == a[lo + count + k..last];
    assert a'[last - count..] == a[last..] + a[lo..lo + count];
  }

  /** The shuffle of Next: count files go to the end, and k = 0 or 1 arguments behind them are processed. */
  lemma ShuffleAdvances(a: seq<nat>, lo: nat, last: nat, count: nat, k: nat)
    requires lo + count + k <= last <= |a| && k <= 1
    ensures Advanced(a, lo, last, Shuffled(a, lo, count), lo + k, last - count, Files(count) + Taken(k))
  {
    hide Shuffled, Pick, Files, Taken;
    var ids := a[lo..last];
    ShuffledParts(a, lo, last, count, k);
    PickAppend(ids, Files(count), Taken(k), true);
    PickAppend(ids, Files(count), Taken(k), false);
    PickFiles(ids, count, true);
    PickFiles(ids, count, false);
    PickTaken(ids[count..], k);
    SliceOfSlice(a, lo, last, 0, count);
    SliceOfSlice(a, lo, last, count, count + k);
    assert ids[..count] == ids[0..count] && ids[count..][..k] == ids[count..count + k];
  }

  function Taken(n: nat): (s: seq<bool>)
    ensures |s| == n
  {
    seq(n, _ => true)
  }

  lemma {:induction false} PickTaken(ids: seq<nat>, n: nat)
    requires n <= |ids|
    ensures Pick(ids, Taken(n), true) == ids[..n] && Pick(ids, Taken(n), false) == []
  {
    if n > 0 {
      assert Taken(n)[1..] == Taken(n - 1);
      PickTaken(ids[1..], n - 1);
      assert ids[..n] == [ids[0]] + ids[1..][..n - 1];
    }
  }

  lemma ShuffleKeepsArranged(a: seq<nat>, lo: nat, last: nat, count: nat, k: nat)
    requires Arranged(a, lo, last) && lo + count + k <= last
    ensures Arranged(Shuffled(a, lo, count), lo + k, last - count)
  {
    hide InOrder, Shuffled;
    var rest := a[lo..last];
    ShuffledParts(a, lo, last, count, k);
    OrderKept(a[..lo], rest, a[last..], |a|, count, k);
    SliceOfSlice(a, lo, last, count, count + k);
    SliceOfSlice(a, lo, last, count + k, last - lo);
    SliceOfSlice(a, lo, last, 0, count);
    assert rest[count + k..] == rest[count + k..last - lo] && rest[..count] == rest[0..count];
  }

  lemma SliceOfSlice(a: seq<nat>, lo: nat, hi: nat, i: nat, j: nat)
    requires lo <= hi <= |a| && i <= j <= hi - lo
    ensures a[lo..hi][i..j] == a[lo + i..lo + j]
  {
    forall q | 0 <= q < j - i
      ensures a[lo..hi][i..j][q] == a[lo + i..lo + j][q]
    {
    }
  }
}
