// struct dwarf_buf and its readers, each against the reader function of module Readers.
module DwarfBuf {
  import opened Words
  import opened Leb128
  import opened Readers

  class Buf {
    const data: seq<byte>
    const bigEndian: bool
    var pos: nat
    var left: nat
    var reported_underflow: bool

    predicate Valid()
      reads this
    {
      pos + left <= |data|
    }

    /** The unread bytes. */
    function Rest(): (s: seq<byte>)
      requires Valid()
      reads this
      ensures |s| == left
    {
      data[pos..pos + left]
    }

    constructor (data: seq<byte>, pos: nat, left: nat, bigEndian: bool)
      requires pos + left <= |data|
      ensures Valid() && fresh(this)
      ensures Rest() == data[pos..pos + left] && !reported_underflow && this.bigEndian == bigEndian
      ensures this.data == data && this.pos == pos && this.left == left
    {
      this.data, this.bigEndian := data, bigEndian;
      this.pos, this.left, reported_underflow := pos, left, false;
    }

    /** Structure assignment, as in count_buf = abbrev_buf. */
    constructor Copy(b: Buf)
      requires b.Valid()
      ensures Valid() && fresh(this)
      ensures Rest() == b.Rest() && reported_underflow == b.reported_underflow && bigEndian == b.bigEndian
    {
      data, bigEndian := b.data, b.bigEndian;
      pos, left, reported_underflow := b.pos, b.left, b.reported_underflow;
    }

    method Require(count: nat) returns (ok: bool)
      requires Valid()
      modifies `reported_underflow
      ensures Valid() && Rest() == old(Rest())
      ensures ok == (count <= old(left))
      ensures reported_underflow == (old(reported_underflow) || !ok)
    {
      if left >= count {
        return true;
      }
      reported_underflow := true;
      return false;
    }

    method Advance(count: nat) returns (ok: bool)
      requires Valid()
      modifies this
      ensures Valid()
      ensures var r := Skip(old(Rest()), count);
        ok == r.value && Rest() == r.rest && reported_underflow == (old(reported_underflow) || r.short)
      ensures pos == old(pos) + if ok then count else 0
    {
      ok := Require(count);
      if ok {
        pos, left := pos + count, left - count;
      }
    }

    method ReadByte() returns (b: byte)
      requires Valid()
      modifies this
      ensures Valid() && pos + left == old(pos + left)
      ensures var r := Readers.ReadByte(old(Rest()));
        b == r.value && Rest() == r.rest && reported_underflow == (old(reported_underflow) || r.short)
    {
      var p := pos;
      var ok := Advance(1);
      b := if ok then data[p] else 0;
    }

    method ReadUInt16() returns (v: nat)
      requires Valid()
      modifies this
      ensures Valid() && pos + left == old(pos + left)
      ensures var r := ReadUInt(old(Rest()), 2, bigEndian);
        v == r.value && Rest() == r.rest && reported_underflow == (old(reported_underflow) || r.short)
    {
      ghost var s := Rest();
      var p := pos;
      var ok := Advance(2);
      if !ok {
        return 0;
      }
      assert data[p..p + 2] == s[..2];
      v := UInt(data[p..p + 2], bigEndian);
    }

    method ReadUInt32() returns (v: nat)
      requires Valid()
      modifies this
      ensures Valid() && pos + left == old(pos + left)
      ensures var r := ReadUInt(old(Rest()), 4, bigEndian);
        v == r.value && Rest() == r.rest && reported_underflow == (old(reported_underflow) || r.short)
    {
      ghost var s := Rest();
      var p := pos;
      var ok := Advance(4);
      if !ok {
        return 0;
      }
      assert data[p..p + 4] == s[..4];
      v := UInt(data[p..p + 4], bigEndian);
    }

    method ReadUInt64() returns (v: nat)
      requires Valid()
      modifies this
      ensures Valid() && pos + left == old(pos + left)
      ensures var r := ReadUInt(old(Rest()), 8, bigEndian);
        v == r.value && Rest() == r.rest && reported_underflow == (old(reported_underflow) || r.short)
    {
      ghost var s := Rest();
      var p := pos;
      var ok := Advance(8);
      if !ok {
        return 0;
      }
      assert data[p..p + 8] == s[..8];
      v := UInt(data[p..p + 8], bigEndian);
    }

    method ReadOffset(is64: bool) returns (v: nat)
      requires Valid()
      modifies this
      ensures Valid() && pos + left == old(pos + left)
      ensures var r := Readers.ReadOffset(old(Rest()), is64, bigEndian);
        v == r.value && Rest() == r.rest && reported_underflow == (old(reported_underflow) || r.short)
    {
      if is64 {
        v := ReadUInt64();
      } else {
        v := ReadUInt32();
      }
    }

    method ReadAddress(addrsize: nat) returns (v: nat)
      requires Valid()
      modifies this
      ensures Valid() && pos + left == old(pos + left)
      ensures var r := Readers.ReadAddress(old(Rest()), addrsize, bigEndian);
        v == r.value && Rest() == r.rest && reported_underflow == (old(reported_underflow) || r.short)
    {
      match addrsize {
        case 1 =>
          ghost var s := Rest();
          v := ReadByte();
          if s != [] {
            SingleByte(s, bigEndian);
          }
        case 2 => v := ReadUInt16();
        case 4 => v := ReadUInt32();
        case 8 => v := ReadUInt64();
        case _ => v := 0;
      }
    }

    method ReadULeb128() returns (ret: nat)
      requires Valid()
      modifies this
      ensures Valid() && pos + left == old(pos + left)
      ensures var r := ReadULeb(old(Rest()));
        ret == r.value && Rest() == r.rest && reported_underflow == (old(reported_underflow) || r.short)
    {
      ghost var s := Rest();
      ghost var i := 0;
      var shift, b: byte := 0, 0x80;
      ret := 0;
      while b >= 128
        invariant Valid() && i <= |s| && Rest() == s[i..] && pos + left == old(pos + left)
        invariant i == 0 ==> b >= 128
        invariant i > 0 ==> b == s[i - 1]
        invariant reported_underflow == old(reported_underflow)
        invariant Unterminated(s, if b >= 128 then i else i - 1)
        invariant shift == Shift(i) && ret == Accumulated(s[..i])
        decreases |s| - i
      {
        var p := pos;
        var ok := Advance(1);
        if !ok {
          NeverTerminated(s);
          return 0;
        }
        b := data[p];
        ret := OrPayload(ret, b, shift);
        shift := Wrap32(shift + 7);
        ShiftStep(i);
        assert s[..i + 1][..i] == s[..i];
        i := i + 1;
      }
      TerminatedAt(s, i);
    }

    method ReadSLeb128() returns (ret: int)
      requires Valid()
      modifies this
      ensures Valid() && pos + left == old(pos + left)
      ensures var r := ReadSLeb(old(Rest()));
        ret == r.value && Rest() == r.rest && reported_underflow == (old(reported_underflow) || r.short)
    {
      ghost var s := Rest();
      ghost var i := 0;
      var shift, b: byte, val := 0, 0x80, 0;
      while b >= 128
        invariant Valid() && i <= |s| && Rest() == s[i..] && pos + left == old(pos + left)
        invariant i == 0 ==> b >= 128
        invariant i > 0 ==> b == s[i - 1]
        invariant reported_underflow == old(reported_underflow)
        invariant Unterminated(s, if b >= 128 then i else i - 1)
        invariant shift == Shift(i) && val == Accumulated(s[..i])
        decreases |s| - i
      {
        var p := pos;
        var ok := Advance(1);
        if !ok {
          NeverTerminated(s);
          return 0;
        }
        b := data[p];
        val := OrPayload(val, b, shift);
        shift := Wrap32(shift + 7);
        ShiftStep(i);
        assert s[..i + 1][..i] == s[..i];
        i := i + 1;
      }
      TerminatedAt(s, i);
      ret := Signed64(SignExtended(val, b, shift));
    }
  }

  /** leb128_len: like the original, it may only be called on a terminated number. */
  method Leb128Len(s: seq<byte>) returns (ret: nat)
    requires HasTerminator(s)
    ensures ret == Span(s) && ReadULeb(s).rest == s[ret..] && ReadSLeb(s).rest == s[ret..]
  {
    ret := 1;
    var p := 0;
    while s[p] >= 128
      invariant p < |s| && ret == p + 1
      invariant SpanFrom(s, p) == Span(s)
      decreases |s| - p
    {
      p, ret := p + 1, ret + 1;
    }
  }

  lemma SingleByte(s: seq<byte>, big: bool)
    requires s != []
    ensures UInt(s[..1], big) == s[0]
  {
    assert s[..1][1..] == [] && s[..1][..0] == [];
    assert LittleEndian(s[..1][1..]) == 0 && BigEndian(s[..1][..0]) == 0;
  }

  lemma ShiftStep(i: nat)
    ensures Wrap32(Shift(i) + 7) == Shift(i + 1)
  {
    Wrap32Add(7 * i, 7);
    assert 7 * i + 7 == 7 * (i + 1);
  }

  predicate Unterminated(s: seq<byte>, n: int) {
    n <= |s| && forall i :: 0 <= i < n ==> s[i] >= 128
  }

  lemma NeverTerminated(s: seq<byte>)
    requires Unterminated(s, |s|)
    ensures !HasTerminator(s)
  {
  }

  lemma TerminatedAt(s: seq<byte>, n: nat)
    requires 0 < n <= |s| && Unterminated(s, n - 1) && s[n - 1] < 128
    ensures HasTerminator(s) && Span(s) == n
  {
    SpanFromReaches(s, 0, n);
  }
}
