// What a growable vector is for, whichever allocator is below it.
module VectorSpec {
  import opened Words

  datatype Script = Grow(more: nat) | Fill(contents: seq<byte>) | Clear | Finish | Release

  /** The contents, where room that was grown but not written is None, and the arrays finished so far. */
  datatype Abstract = Abstract(contents: seq<Option<byte>>, done: seq<seq<Option<byte>>>)

  function Unset(n: nat): (s: seq<Option<byte>>)
    ensures |s| == n
  {
    seq(n, _ => None)
  }

  function Written(contents: seq<byte>): (s: seq<Option<byte>>)
    ensures |s| == |contents|
  {
    seq(|contents|, i requires 0 <= i < |contents| => Some(contents[i]))
  }

  function Act(a: Abstract, op: Script): Abstract {
    match op
    case Grow(more) => a.(contents := a.contents + Unset(more))
    case Fill(contents) => a.(contents := Written(contents))
    case Clear => a.(contents := [])
    case Finish => if a.contents == [] then a else Abstract([], a.done + [a.contents])
    case Release => a
  }

  /** Memory that holds all that was written. */
  ghost predicate Models(c: seq<Option<byte>>, memory: seq<byte>) {
    |memory| == |c| && forall i :: 0 <= i < |c| && c[i].Some? ==> memory[i] == c[i].value
  }

  /** The contents of finished arrays, which are listed with the place they are at. */
  function Arrays(done: seq<(nat, seq<byte>)>): (s: seq<seq<byte>>)
    ensures |s| == |done| && forall k :: 0 <= k < |done| ==> s[k] == done[k].1
  {
    seq(|done|, k requires 0 <= k < |done| => done[k].1)
  }

  /** Each finished array holds what its contents were. */
  ghost predicate ModelsAll(done: seq<seq<Option<byte>>>, arrays: seq<seq<byte>>) {
    |arrays| == |done| && forall k :: 0 <= k < |done| ==> Models(done[k], arrays[k])
  }
}
