// From a pc to the callback sequence: dwarf_fileline, dwarf_lookup_pc and report_inlined_functions.
module Lookup {
  import opened Words
  import opened BinarySearch
  import opened AddressRanges
  import opened LineTable
  import LM = LineMachine
  import D = DieWalk

  /** A file name argument of the callback: the null pointer, a name of the line table, or a path. */
  datatype Where = Nowhere | InFile(file: LM.File) | UnitFile(path: seq<byte>)

  /** The arguments of one call of the user's callback. */
  datatype Frame = Frame(pc: word, file: Where, line: int, name: Option<seq<byte>>)

  /** The user's callback: it remembers the calls, and answers as it likes from what it has seen. */
  class Callback {
    const answer: seq<Frame> -> int
    var calls: seq<Frame>

    constructor (answer: seq<Frame> -> int)
      ensures calls == [] && this.answer == answer
    {
      this.answer := answer;
      calls := [];
    }

    method Call(f: Frame) returns (ret: int)
      modifies `calls
      ensures calls == old(calls) + [f] && ret == answer(calls)
    {
      calls := calls + [f];
      ret := answer(calls);
    }
  }

  /** Calls for the frames in turn, until one is answered with a value other than 0. */
  function Deliver(answer: seq<Frame> -> int, calls: seq<Frame>, frames: seq<Frame>): (seq<Frame>, int)
    decreases |frames|
  {
    if frames == [] then (calls, 0)
    else
      var now := calls + [frames[0]];
      if answer(now) != 0 then (now, answer(now)) else Deliver(answer, now, frames[1..])
  }

  /** The first k frames have been passed to the callback. */
  function After(calls: seq<Frame>, frames: seq<Frame>, k: nat): seq<Frame>
    requires k <= |frames|
  {
    calls + frames[..k]
  }

  /** The calls made are the frames up to the first that is answered with a value other than 0. */
  lemma {:induction false} DeliverStops(answer: seq<Frame> -> int, calls: seq<Frame>, frames: seq<Frame>) returns (n: nat)
    ensures n <= |frames| && Deliver(answer, calls, frames).0 == After(calls, frames, n)
    ensures forall k :: 0 < k < n ==> answer(After(calls, frames, k)) == 0
    ensures n < |frames| ==> n > 0 && answer(After(calls, frames, n)) != 0
    ensures n > 0 ==> Deliver(answer, calls, frames).1 == answer(After(calls, frames, n))
    ensures n == 0 ==> frames == [] && Deliver(answer, calls, frames).1 == 0
    decreases |frames|
  {
    if frames == [] {
      n := 0;
    } else {
      var now := calls + [frames[0]];
      assert After(calls, frames, 1) == now;
      if answer(now) != 0 {
        n := 1;
      } else {
        var m := DeliverStops(answer, now, frames[1..]);
        n := m + 1;
        forall k | 0 <= k <= m
          ensures After(now, frames[1..], k) == After(calls, frames, k + 1)
        {
          assert frames[..k + 1] == [frames[0]] + frames[1..][..k];
        }
        forall k | 0 < k < n
          ensures answer(After(calls, frames, k)) == 0
        {
          assert k > 1 ==> answer(After(now, frames[1..], k - 1)) == 0;
        }
      }
    }
  }

  lemma {:induction false} DeliverAppend(answer: seq<Frame> -> int, calls: seq<Frame>, a: seq<Frame>, b: seq<Frame>)
    ensures var (mid, ret) := Deliver(answer, calls, a);
      Deliver(answer, calls, a + b) == if ret != 0 then (mid, ret) else Deliver(answer, mid, b)
    decreases |a|
  {
    if a == [] {
      assert a + b == b;
    } else {
      assert (a + b)[1..] == a[1..] + b;
      DeliverAppend(answer, calls + [a[0]], a[1..], b);
    }
  }

  // ---------------------------------------------------------------------------
  // Inlined calls
  // ---------------------------------------------------------------------------

  /** bsearch and the forward walk, on the ranges of a unit or of a function. */
  function Find<T>(ranges: seq<Range<T>>, pc: word): (r: Option<nat>)
    ensures r.Some? ==> r.value < |ranges|
  {
    WalkFrom(ranges, pc, Probe(RangeSigns(ranges, pc), 0, |ranges|))
  }

  /** The functions inlined into f at pc, innermost first. */
  function InlinedAt(f: D.Func, pc: word): seq<D.Func>
    decreases f
  {
    match Find(f.addrs, pc)
    case None => []
    case Some(k) => InlinedAt(f.addrs[k].owner, pc) + [f.addrs[k].owner]
  }

  function CallSite(f: D.Func): Where {
    if f.callerFile.None? then Nowhere else InFile(f.callerFile.value)
  }

  /** Where the frame after those of a chain is: at the call site of its outermost function. */
  function Outside(chain: seq<D.Func>, file: Where, line: int): (Where, int) {
    if chain == [] then (file, line) else (CallSite(chain[|chain| - 1]), chain[|chain| - 1].callerLine)
  }

  /** Frames for a chain of functions, innermost first: the first at (file, line), the others at call sites. */
  function Frames(pc: word, chain: seq<D.Func>, file: Where, line: int): (frames: seq<Frame>)
    ensures |frames| == |chain|
  {
    if chain == [] then []
    else [Frame(pc, file, line, Some(chain[0].name))] + Frames(pc, chain[1..], CallSite(chain[0]), chain[0].callerLine)
  }

  lemma {:induction false} FramesAppend(pc: word, a: seq<D.Func>, b: seq<D.Func>, file: Where, line: int)
    ensures var (f, l) := Outside(a, file, line);
      Frames(pc, a + b, file, line) == Frames(pc, a, file, line) + Frames(pc, b, f, l)
  {
    if a == [] {
      assert a + b == b;
    } else {
      assert (a + b)[1..] == a[1..] + b;
      FramesAppend(pc, a[1..], b, CallSite(a[0]), a[0].callerLine);
    }
  }

  /** The frame of each function: its name, and for all but the innermost the call site of the one before. */
  lemma {:induction false} FrameAt(pc: word, chain: seq<D.Func>, file: Where, line: int, k: nat)
    requires k < |chain|
    ensures var f := Frames(pc, chain, file, line)[k];
      && f.pc == pc && f.name == Some(chain[k].name)
      && (k == 0 ==> f.file == file && f.line == line)
      && (k > 0 ==> f.file == CallSite(chain[k - 1]) && f.line == chain[k - 1].callerLine)
  {
    if k > 0 {
      FrameAt(pc, chain[1..], CallSite(chain[0]), chain[0].callerLine, k - 1);
      assert chain[1..][k - 1] == chain[k];
      assert k > 1 ==> chain[1..][k - 2] == chain[k - 1];
    }
  }

  lemma SingleFrame(pc: word, f: D.Func, file: Where, line: int)
    ensures Frames(pc, [f], file, line) == [Frame(pc, file, line, Some(f.name))]
  {
    assert [f][1..] == [];
  }

  lemma DeliverOne(answer: seq<Frame> -> int, calls: seq<Frame>, f: Frame)
    ensures Deliver(answer, calls, [f]) == (calls + [f], answer(calls + [f]))
  {
    assert [f][1..] == [];
  }

  /** After the frames of inner, one more call reports f. */
  lemma DeliverNext(answer: seq<Frame> -> int, calls: seq<Frame>, pc: word, inner: seq<D.Func>, f: D.Func, file: Where, line: int)
    ensures var (mid, ret) := Deliver(answer, calls, Frames(pc, inner, file, line));
      var (file', line') := Outside(inner, file, line);
      var all := mid + [Frame(pc, file', line', Some(f.name))];
      Deliver(answer, calls, Frames(pc, inner + [f], file, line)) == if ret != 0 then (mid, ret) else (all, answer(all))
  {
    hide Deliver, Frames;
    var (mid, ret) := Deliver(answer, calls, Frames(pc, inner, file, line));
    var (file', line') := Outside(inner, file, line);
    FramesAppend(pc, inner, [f], file, line);
    SingleFrame(pc, f, file', line');
    DeliverAppend(answer, calls, Frames(pc, inner, file, line), Frames(pc, [f], file', line'));
    DeliverOne(answer, mid, Frame(pc, file', line', Some(f.name)));
  }

  /** report_inlined_functions; the pointers filename and lineno are in and out parameters. */
  method ReportInlinedFunctions(pc: word, f: D.Func, callback: Callback, file: Where, line: int)
    returns (ret: int, file': Where, line': int)
    modifies callback`calls
    ensures var chain := InlinedAt(f, pc);
      && (callback.calls, ret) == Deliver(callback.answer, old(callback.calls), Frames(pc, chain, file, line))
      && (ret == 0 ==> (file', line') == Outside(chain, file, line))
    decreases f
  {
    hide WalkFrom, Probe, Deliver, Frames;
    ret, file', line' := 0, file, line;
    var k := LookupRange(f.addrs, pc);
    assert k == Find(f.addrs, pc);
    if k == None {
      NoFrames(callback.answer, callback.calls, pc, file, line);
      return;
    }
    var inlined := f.addrs[k.value].owner;
    ghost var inner := InlinedAt(inlined, pc);
    DeliverNext(callback.answer, callback.calls, pc, inner, inlined, file, line);
    ret, file', line' := ReportInlinedFunctions(pc, inlined, callback, file, line);
    if ret == 0 {
      ret := callback.Call(Frame(pc, file', line', Some(inlined.name)));
      file', line' := CallSite(inlined), inlined.callerLine;
    }
  }

  lemma NoFrames(answer: seq<Frame> -> int, calls: seq<Frame>, pc: word, file: Where, line: int)
    ensures Deliver(answer, calls, Frames(pc, [], file, line)) == (calls, 0)
  {
  }
}
