// What each reader of dwarf.c takes from the front of the unread bytes.
module Readers {
  import opened Words
  import opened Leb128

  /** The value read, the bytes still unread, and whether the reader ran out of bytes. */
  datatype Read<T> = Read(value: T, rest: seq<byte>, short: bool)

  function ReadByte(s: seq<byte>): (r: Read<byte>)
    ensures |r.rest| <= |s|
    ensures s != [] ==> |r.rest| < |s|
  {
    if s == [] then Read(0, s, true) else Read(s[0], s[1..], false)
  }

  /** advance: all or nothing. */
  function Skip(s: seq<byte>, count: nat): (r: Read<bool>)
    ensures |r.rest| <= |s|
    ensures count > 0 && s != [] && r.value ==> |r.rest| < |s|
  {
    if count <= |s| then Read(true, s[count..], false) else Read(false, s, true)
  }

  function LittleEndian(bs: seq<byte>): nat {
    if bs == [] then 0 else bs[0] + 256 * LittleEndian(bs[1..])
  }

  function BigEndian(bs: seq<byte>): nat {
    if bs == [] then 0 else 256 * BigEndian(bs[..|bs| - 1]) + bs[|bs| - 1]
  }

  function UInt(bs: seq<byte>, big: bool): nat {
    if big then BigEndian(bs) else LittleEndian(bs)
  }

  /** read_uint16, read_uint32 and read_uint64, with n the number of bytes. */
  function ReadUInt(s: seq<byte>, n: nat, big: bool): (r: Read<nat>)
    ensures |r.rest| <= |s|
  {
    if n <= |s| then Read(UInt(s[..n], big), s[n..], false) else Read(0, s, true)
  }

  function ReadOffset(s: seq<byte>, is64: bool, big: bool): (r: Read<nat>)
    ensures |r.rest| <= |s|
  {
    ReadUInt(s, if is64 then 8 else 4, big)
  }

  predicate KnownAddressSize(addrsize: nat) {
    addrsize == 1 || addrsize == 2 || addrsize == 4 || addrsize == 8
  }

  /** An unknown address size reads nothing and is not an underflow. */
  function ReadAddress(s: seq<byte>, addrsize: nat, big: bool): (r: Read<nat>)
    ensures |r.rest| <= |s|
  {
    if KnownAddressSize(addrsize) then ReadUInt(s, addrsize, big) else Read(0, s, false)
  }

  function ReadULeb(s: seq<byte>): (r: Read<nat>)
    ensures |r.rest| <= |s|
    ensures s != [] ==> |r.rest| < |s|
  {
    if HasTerminator(s) then Read(Accumulated(s[..Span(s)]), s[Span(s)..], false) else Read(0, [], true)
  }

  function ReadSLeb(s: seq<byte>): (r: Read<int>)
    ensures |r.rest| <= |s|
    ensures s != [] ==> |r.rest| < |s|
  {
    if HasTerminator(s) then Read(ReadSigned(s[..Span(s)]), s[Span(s)..], false) else Read(0, [], true)
  }

  /** strnlen over all the unread bytes. */
  function StringLength(s: seq<byte>): (n: nat)
    ensures n <= |s|
    ensures forall i :: 0 <= i < n ==> s[i] != 0
    ensures n < |s| ==> s[n] == 0
  {
    if s == [] || s[0] == 0 then 0 else 1 + StringLength(s[1..])
  }

  // ---------------------------------------------------------------------------
  // A read that does not run out depends on the bytes it takes and on no others
  // ---------------------------------------------------------------------------

  /** The bytes of s that r took. */
  function Taken<T>(s: seq<byte>, r: Read<T>): seq<byte>
    requires |r.rest| <= |s|
  {
    s[..|s| - |r.rest|]
  }

  /** r is a read of s, and rx the same read after x replaced what r left unread. */
  ghost predicate Local<T>(s: seq<byte>, r: Read<T>, x: seq<byte>, rx: Read<T>) {
    !r.short ==> |r.rest| <= |s| && r.rest == s[|s| - |r.rest|..] && rx == Read(r.value, x, false)
  }

  lemma SkipLocal(s: seq<byte>, count: nat, x: seq<byte>)
    ensures var r := Skip(s, count); Local(s, r, x, Skip(Taken(s, r) + x, count))
  {
    if count <= |s| {
      assert (s[..count] + x)[count..] == x;
    }
  }

  lemma UIntLocal(s: seq<byte>, n: nat, big: bool, x: seq<byte>)
    ensures var r := ReadUInt(s, n, big); Local(s, r, x, ReadUInt(Taken(s, r) + x, n, big))
  {
    if n <= |s| {
      assert (s[..n] + x)[n..] == x;
      assert (s[..n] + x)[..n] == s[..n];
    }
  }

  lemma OffsetLocal(s: seq<byte>, is64: bool, big: bool, x: seq<byte>)
    ensures var r := ReadOffset(s, is64, big); Local(s, r, x, ReadOffset(Taken(s, r) + x, is64, big))
  {
    UIntLocal(s, if is64 then 8 else 4, big, x);
  }

  lemma AddressLocal(s: seq<byte>, addrsize: nat, big: bool, x: seq<byte>)
    ensures var r := ReadAddress(s, addrsize, big); Local(s, r, x, ReadAddress(Taken(s, r) + x, addrsize, big))
  {
    if KnownAddressSize(addrsize) {
      UIntLocal(s, addrsize, big, x);
    } else {
      assert s[..0] + x == x;
    }
  }

  lemma SpanLocal(s: seq<byte>, x: seq<byte>)
    requires HasTerminator(s)
    ensures var t := s[..Span(s)] + x;
      HasTerminator(t) && Span(t) == Span(s) && t[..Span(s)] == s[..Span(s)] && t[Span(s)..] == x
  {
    SpanIsEncoding(s);
    EncodingSpan(s[..Span(s)], x);
  }

  lemma ULebLocal(s: seq<byte>, x: seq<byte>)
    ensures var r := ReadULeb(s); Local(s, r, x, ReadULeb(Taken(s, r) + x))
  {
    if HasTerminator(s) {
      SpanLocal(s, x);
    }
  }

  lemma SLebLocal(s: seq<byte>, x: seq<byte>)
    ensures var r := ReadSLeb(s); Local(s, r, x, ReadSLeb(Taken(s, r) + x))
  {
    if HasTerminator(s) {
      SpanLocal(s, x);
    }
  }

  lemma {:induction false} StringLocal(s: seq<byte>, x: seq<byte>)
    requires StringLength(s) < |s|
    ensures StringLength(s[..StringLength(s) + 1] + x) == StringLength(s)
  {
    var n := StringLength(s);
    var t := s[..n + 1] + x;
    assert t[0] == s[0];
    if n > 0 {
      assert t[1..] == s[1..][..n] + x;
      StringLocal(s[1..], x);
    }
  }

  lemma {:induction false} StringEnds(name: seq<byte>, x: seq<byte>)
    requires 0 !in name
    ensures StringLength(name + [0] + x) == |name|
  {
    var t := name + [0] + x;
    if name != [] {
      assert t[0] == name[0];
      assert t[1..] == name[1..] + [0] + x;
      StringEnds(name[1..], x);
    }
  }

  /** What two reads in a row take. */
  lemma TakenTwice<T, U>(s: seq<byte>, r: Read<T>, q: Read<U>, x: seq<byte>)
    requires |q.rest| <= |r.rest| <= |s| && r.rest == s[|s| - |r.rest|..]
    requires q.rest == r.rest[|r.rest| - |q.rest|..]
    ensures Taken(s, q) + x == Taken(s, r) + (Taken(r.rest, q) + x)
    ensures q.rest == s[|s| - |q.rest|..]
  {
  }

  // ---------------------------------------------------------------------------
  // Encoders, and their round trips through the readers
  // ---------------------------------------------------------------------------

  function Pow256(n: nat): (p: nat)
    ensures p > 0
  {
    if n == 0 then 1 else 256 * Pow256(n - 1)
  }

  function EncodeUInt(v: nat, n: nat, big: bool): (bs: seq<byte>)
    ensures |bs| == n
  {
    if n == 0 then []
    else if big then EncodeUInt(v / 256, n - 1, big) + [v % 256]
    else [v % 256] + EncodeUInt(v / 256, n - 1, big)
  }

  lemma {:induction false} UIntRoundTrip(v: nat, n: nat, big: bool)
    requires v < Pow256(n)
    ensures UInt(EncodeUInt(v, n, big), big) == v
  {
    if n > 0 {
      UIntRoundTrip(v / 256, n - 1, big);
      var bs, e := EncodeUInt(v, n, big), EncodeUInt(v / 256, n - 1, big);
      if big {
        assert bs[..|bs| - 1] == e && bs[|bs| - 1] == v % 256;
      } else {
        assert bs[1..] == e && bs[0] == v % 256;
      }
    }
  }

  lemma ReadEncodedUInt(v: nat, n: nat, big: bool, tail: seq<byte>)
    requires v < Pow256(n)
    ensures ReadUInt(EncodeUInt(v, n, big) + tail, n, big) == Read(v, tail, false)
  {
    UIntRoundTrip(v, n, big);
    var bs := EncodeUInt(v, n, big);
    assert (bs + tail)[..n] == bs && (bs + tail)[n..] == tail;
  }

  lemma ReadEncodedULeb(v: word, tail: seq<byte>)
    ensures ReadULeb(EncodeUnsigned(v) + tail) == Read(v, tail, false)
  {
    UnsignedRoundTrip(v);
    EncodingSpan(EncodeUnsigned(v), tail);
    var bs := EncodeUnsigned(v);
    assert (bs + tail)[..|bs|] == bs && (bs + tail)[|bs|..] == tail;
  }

  lemma ReadEncodedSLeb(v: int, tail: seq<byte>)
    requires -U64 / 2 <= v < U64 / 2
    ensures ReadSLeb(EncodeSigned(v) + tail) == Read(v, tail, false)
  {
    SignedRoundTrip(v);
    EncodingSpan(EncodeSigned(v), tail);
    var bs := EncodeSigned(v);
    assert (bs + tail)[..|bs|] == bs && (bs + tail)[|bs|..] == tail;
  }
}
