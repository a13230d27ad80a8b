// The same vectors in alloc.c, on malloc, realloc and free of the C library.
module ReallocVectors {
  import opened Words
  import Memory
  import VectorSpec

  /** Blocks by number; a block that was freed, or moved by realloc, is None. */
  type Blocks = seq<Option<seq<byte>>>

  datatype Vec = Vec(base: Option<nat>, size: nat, alc: nat)

  const EMPTY: Vec := Vec(None, 0, 0)

  predicate Live(blocks: Blocks, p: nat) {
    p < |blocks| && blocks[p].Some?
  }

  /** The bytes that realloc keeps: as many as fit. */
  function Resized(data: seq<byte>, size: nat): (s: seq<byte>)
    ensures |s| == size
  {
    if size <= |data| then data[..size] else data + Memory.Zeros(size - |data|)
  }

  /** realloc, always to a new place; the result is block |blocks|. */
  function Realloc(blocks: Blocks, p: Option<nat>, size: nat): (b: Blocks)
    requires p.Some? ==> Live(blocks, p.value)
    ensures |b| == |blocks| + 1
  {
    if p.None? then blocks + [Some(Memory.Zeros(size))]
    else blocks[p.value := None] + [Some(Resized(blocks[p.value].value, size))]
  }

  /** The vector has a block of its own, or none and is empty. */
  predicate Owns(blocks: Blocks, v: Vec) {
    match v.base
    case None => v.size == 0
    case Some(p) => Live(blocks, p) && v.size + v.alc == |blocks[p].value|
  }

  /** Without a block there must not seem to be room, or grow would hand out NULL. */
  predicate Usable(v: Vec) {
    v.base.None? ==> v.alc == 0
  }

  function Contents(blocks: Blocks, v: Vec): (s: seq<byte>)
    requires Owns(blocks, v)
    ensures |s| == v.size
  {
    if v.base.None? then [] else blocks[v.base.value].value[..v.size]
  }

  /** Thirty-two elements at first, then doubling up to 4096 bytes, then 4096 more at a time; at least what is needed. */
  function NewCapacity(size: nat, more: nat): (alc: nat)
    ensures alc >= size + more
  {
    var alc := if size == 0 then 32 * more else if size >= 4096 then size + 4096 else 2 * size;
    if alc < size + more then size + more else alc
  }

  /** The room left after a move, when what is added is not the larger part. */
  lemma RoomAfterMove(size: nat, more: nat)
    ensures var need, alc := size + more, NewCapacity(size, more);
      && (size == 0 ==> alc - need == 31 * more)
      && (0 < size < 4096 ==> alc - need == if more <= size then size - more else 0)
      && (size >= 4096 ==> alc - need == if more <= 4096 then 4096 - more else 0)
  {
  }

  function Grown(blocks: Blocks, v: Vec, more: nat): (Blocks, Vec)
    requires Owns(blocks, v) && Usable(v)
  {
    if more <= v.alc then (blocks, v.(size := v.size + more, alc := v.alc - more))
    else
      var alc := NewCapacity(v.size, more);
      (Realloc(blocks, v.base, alc), Vec(Some(|blocks|), v.size + more, alc - v.size - more))
  }

  /** What realloc does for no bytes is up to the C library: a block of none, if zero, or NULL once it has freed. */
  function Released(blocks: Blocks, v: Vec, zero: bool): (Blocks, Vec)
    requires Owns(blocks, v)
  {
    if v.size > 0 || zero then (Realloc(blocks, v.base, v.size), Vec(Some(|blocks|), v.size, 0))
    else (if v.base.None? then blocks else blocks[v.base.value := None], Vec(None, 0, v.alc))
  }

  /** After a release the vector can grow again, except one that is empty with room left when realloc gives NULL. */
  lemma ReleaseUsableIff(blocks: Blocks, v: Vec, zero: bool)
    requires Owns(blocks, v)
    ensures Owns(Released(blocks, v, zero).0, Released(blocks, v, zero).1)
    ensures Usable(Released(blocks, v, zero).1) <==> v.size > 0 || zero || v.alc == 0
  {
  }

  // ---------------------------------------------------------------------------
  // The vector in place
  // ---------------------------------------------------------------------------

  class Allocator {
    const zero: bool
    var blocks: Blocks

    constructor (zero: bool)
      ensures blocks == [] && this.zero == zero
    {
      this.zero := zero;
      blocks := [];
    }

    method Resize(p: Option<nat>, size: nat) returns (q: Option<nat>)
      requires p.Some? ==> Live(blocks, p.value)
      modifies this
      ensures size > 0 || zero ==> blocks == Realloc(old(blocks), p, size) && q == Some(|old(blocks)|)
      ensures size == 0 && !zero ==> q == None && blocks == if p.None? then old(blocks) else old(blocks)[p.value := None]
    {
      if size == 0 && !zero {
        if p.Some? {
          blocks := blocks[p.value := None];
        }
        return None;
      }
      q := Some(|blocks|);
      if p.Some? {
        var data := blocks[p.value].value;
        blocks := blocks[p.value := None] + [Some(Resized(data, size))];
      } else {
        blocks := blocks + [Some(Memory.Zeros(size))];
      }
    }
  }

  class Vector {
    const allocator: Allocator
    var base: Option<nat>
    var size: nat
    var alc: nat

    function Value(): Vec
      reads this
    {
      Vec(base, size, alc)
    }

    constructor (allocator: Allocator)
      ensures this.allocator == allocator && Value() == EMPTY
    {
      this.allocator := allocator;
      base, size, alc := None, 0, 0;
    }

    /** The result is the offset of the new room. */
    method Grow(more: nat) returns (room: nat)
      requires Owns(allocator.blocks, Value()) && Usable(Value())
      modifies this, allocator
      ensures (allocator.blocks, Value()) == Grown(old(allocator.blocks), old(Value()), more) && room == old(size)
    {
      if more > alc {
        var newAlc: nat;
        if size == 0 {
          newAlc := 32 * more;
        } else if size >= 4096 {
          newAlc := size + 4096;
        } else {
          newAlc := 2 * size;
        }
        if newAlc < size + more {
          newAlc := size + more;
        }
        base := allocator.Resize(base, newAlc);
        alc := newAlc - size;
      }
      room := size;
      size, alc := size + more, alc - more;
    }

    method Release() returns (ok: bool)
      requires Owns(allocator.blocks, Value())
      modifies this, allocator
      ensures (allocator.blocks, Value()) == Released(old(allocator.blocks), old(Value()), allocator.zero)
      ensures ok <==> old(size) > 0 || allocator.zero
    {
      base := allocator.Resize(base, size);
      if base == None {
        return false;
      }
      alc := 0;
      ok := true;
    }

    method Finish() returns (array_: Option<nat>)
      requires Owns(allocator.blocks, Value())
      modifies this, allocator
      ensures var (blocks, v) := Released(old(allocator.blocks), old(Value()), allocator.zero);
        allocator.blocks == blocks && array_ == v.base && Value() == if v.base.None? then v else EMPTY
    {
      var ok := Release();
      if !ok {
        return None;
      }
      array_ := base;
      base, size, alc := None, 0, 0;
    }
  }

  // ---------------------------------------------------------------------------
  // Refinement
  // ---------------------------------------------------------------------------

  datatype World = World(blocks: Blocks, vec: Vec, done: seq<(nat, seq<byte>)>)

  ghost predicate Stable(w: World) {
    Owns(w.blocks, w.vec) && forall k :: 0 <= k < |w.done| ==> Intact(w, w.done[k])
  }

  ghost predicate Intact(w: World, a: (nat, seq<byte>)) {
    a.0 < |w.blocks| && w.blocks[a.0] == Some(a.1) && w.vec.base != Some(a.0)
  }

  predicate MayAct(w: World, op: VectorSpec.Script) {
    match op
    case Grow(_) => Usable(w.vec)
    case Fill(contents) => w.vec.base.Some? && |contents| == w.vec.size
    case _ => true
  }

  function Written(blocks: Blocks, p: nat, contents: seq<byte>): Blocks
    requires Live(blocks, p) && |contents| <= |blocks[p].value|
  {
    blocks[p := Some(contents + blocks[p].value[|contents|..])]
  }

  ghost function Acts(w: World, op: VectorSpec.Script, zero: bool): World
    requires Stable(w) && MayAct(w, op)
  {
    match op
    case Grow(more) => var (b, v) := Grown(w.blocks, w.vec, more); World(b, v, w.done)
    case Fill(contents) => w.(blocks := Written(w.blocks, w.vec.base.value, contents))
    case Clear => w.(vec := w.vec.(size := 0, alc := w.vec.size + w.vec.alc))
    case Finish =>
      var (b, v) := Released(w.blocks, w.vec, zero);
      World(b, if v.base.None? then v else EMPTY,
            if w.vec.size == 0 then w.done else w.done + [(v.base.value, Contents(w.blocks, w.vec))])
    case Release => var (b, v) := Released(w.blocks, w.vec, zero); World(b, v, w.done)
  }

  ghost predicate Implements(w: World, a: VectorSpec.Abstract)
    requires Stable(w)
  {
    VectorSpec.Models(a.contents, Contents(w.blocks, w.vec)) && VectorSpec.ModelsAll(a.done, VectorSpec.Arrays(w.done))
  }

  /** Blocks other than the vector's own, and finished arrays among them, are not touched. */
  lemma ActsStable(w: World, op: VectorSpec.Script, zero: bool)
    requires Stable(w) && MayAct(w, op)
    ensures Stable(Acts(w, op, zero)) && w.done <= Acts(w, op, zero).done
  {
    var w' := Acts(w, op, zero);
    forall k | 0 <= k < |w.done|
      ensures Intact(w', w.done[k])
    {
      assert Intact(w, w.done[k]);
    }
  }

  lemma ActsImplements(w: World, op: VectorSpec.Script, zero: bool, a: VectorSpec.Abstract)
    requires Stable(w) && MayAct(w, op) && Implements(w, a)
    ensures Stable(Acts(w, op, zero)) && Implements(Acts(w, op, zero), VectorSpec.Act(a, op))
  {
    hide Intact;
    ActsStable(w, op, zero);
  }

  ghost predicate RunTo(w: World, ops: seq<VectorSpec.Script>, zero: bool, w': World)
    decreases |ops|
  {
    if ops == [] then w' == w
    else Stable(w) && MayAct(w, ops[0]) && RunTo(Acts(w, ops[0], zero), ops[1..], zero, w')
  }

  function ActAll(a: VectorSpec.Abstract, ops: seq<VectorSpec.Script>): VectorSpec.Abstract
    decreases |ops|
  {
    if ops == [] then a else ActAll(VectorSpec.Act(a, ops[0]), ops[1..])
  }

  /** Every run on realloc does what the abstract vector does, too. */
  lemma {:induction false} RunImplements(w: World, ops: seq<VectorSpec.Script>, zero: bool, w': World,
                                         a: VectorSpec.Abstract)
    requires Stable(w) && RunTo(w, ops, zero, w') && Implements(w, a)
    ensures Stable(w') && Implements(w', ActAll(a, ops)) && w.done <= w'.done
    decreases |ops|
  {
    hide Stable, MayAct, Acts, Implements;
    if ops != [] {
      ActsStable(w, ops[0], zero);
      ActsImplements(w, ops[0], zero, a);
      RunImplements(Acts(w, ops[0], zero), ops[1..], zero, w', VectorSpec.Act(a, ops[0]));
    }
  }
}
