// bsearch of the C library: a comparison result per entry, positive while the key lies after it.
module BinarySearch {
  import opened Words

  /** What bsearch demands of its caller: entries after the key, then matches, then entries before it. */
  ghost predicate Partitioned(signs: seq<int>) {
    forall i, j :: 0 <= i < j < |signs| ==> signs[i] >= signs[j]
  }

  /** All that bsearch promises: some match, no matter which, and NULL only when there is none. */
  ghost predicate SearchResult(signs: seq<int>, r: Option<nat>) {
    match r
    case Some(k) => k < |signs| && signs[k] == 0
    case None => forall i :: 0 <= i < |signs| ==> signs[i] != 0
  }

  /** The usual halving, which is defined whether or not the demand is met. */
  function Probe(signs: seq<int>, l: nat, u: nat): (r: Option<nat>)
    requires l <= u <= |signs|
    ensures r.Some? ==> l <= r.value < u && signs[r.value] == 0
    decreases u - l
  {
    if l == u then None
    else
      var idx := (l + u) / 2;
      if signs[idx] < 0 then Probe(signs, l, idx)
      else if signs[idx] > 0 then Probe(signs, idx + 1, u)
      else Some(idx)
  }

  lemma {:induction false} ProbeFinds(signs: seq<int>, l: nat, u: nat)
    requires l <= u <= |signs| && Partitioned(signs)
    ensures Probe(signs, l, u) == None ==> forall i :: l <= i < u ==> signs[i] != 0
    decreases u - l
  {
    if l < u {
      var idx := (l + u) / 2;
      if signs[idx] < 0 {
        ProbeFinds(signs, l, idx);
      } else if signs[idx] > 0 {
        ProbeFinds(signs, idx + 1, u);
      }
    }
  }

  /** Any search by halving of its own kind: it may look at any entry of what is left, and goes by the sign. */
  ghost predicate Searched(signs: seq<int>, l: nat, u: nat, r: Option<nat>): (b: bool)
    requires l <= u <= |signs|
    ensures b && r.Some? ==> l <= r.value < u && signs[r.value] == 0
    decreases u - l
  {
    if l == u then r == None
    else exists m :: l <= m < u && Looked(signs, l, m, u, r)
  }

  /** The search that looks at entry m first. */
  ghost predicate Looked(signs: seq<int>, l: nat, m: nat, u: nat, r: Option<nat>): (b: bool)
    requires l <= m < u <= |signs|
    ensures b && r.Some? ==> l <= r.value < u && signs[r.value] == 0
    decreases u - l, 0
  {
    if signs[m] < 0 then Searched(signs, l, m, r)
    else if signs[m] > 0 then Searched(signs, m + 1, u, r)
    else r == Some(m)
  }

  lemma {:induction false} ProbeSearches(signs: seq<int>, l: nat, u: nat)
    requires l <= u <= |signs|
    ensures Searched(signs, l, u, Probe(signs, l, u))
    decreases u - l
  {
    if l < u {
      var idx := (l + u) / 2;
      if signs[idx] < 0 {
        ProbeSearches(signs, l, idx);
      } else if signs[idx] > 0 {
        ProbeSearches(signs, idx + 1, u);
      }
      assert Looked(signs, l, idx, u, Probe(signs, l, u));
    }
  }

  /** On partitioned signs every such search gives what bsearch promises. */
  lemma {:induction false} SearchedFinds(signs: seq<int>, l: nat, u: nat, r: Option<nat>)
    requires l <= u <= |signs| && Partitioned(signs) && Searched(signs, l, u, r)
    ensures r.None? ==> forall i :: l <= i < u ==> signs[i] != 0
    decreases u - l
  {
    if l < u {
      var m :| l <= m < u && Looked(signs, l, m, u, r);
      if signs[m] < 0 {
        SearchedFinds(signs, l, m, r);
      } else if signs[m] > 0 {
        SearchedFinds(signs, m + 1, u, r);
      }
    }
  }

  method BSearch(n: nat, compare: nat --> int, ghost signs: seq<int>) returns (r: Option<nat>)
    requires |signs| == n
    requires forall i: nat :: i < n ==> compare.requires(i) && compare(i) == signs[i]
    ensures r == Probe(signs, 0, n)
    ensures Partitioned(signs) ==> SearchResult(signs, r)
  {
    ghost var whole := Probe(signs, 0, n);
    if Partitioned(signs) {
      ProbeFinds(signs, 0, n);
    }
    var l, u := 0, n;
    while l < u
      invariant 0 <= l <= u <= n
      invariant Probe(signs, l, u) == whole
    {
      var idx := (l + u) / 2;
      var comparison := compare(idx);
      if comparison < 0 {
        u := idx;
      } else if comparison > 0 {
        l := idx + 1;
      } else {
        return Some(idx);
      }
    }
    return None;
  }
}
