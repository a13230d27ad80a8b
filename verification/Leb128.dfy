// LEB128 numbers (section 7.6 of DWARF 4): what the two readers compute, byte by byte,
// against the value the standard gives to an encoding.
module Leb128 {
  import opened Words

  // ---------------------------------------------------------------------------
  // The standard
  // ---------------------------------------------------------------------------

  /** Where the number that starts at s[0] ends, looking from s[i] on. */
  function SpanFrom(s: seq<byte>, i: nat): (n: nat)
    requires i <= |s|
    ensures i <= n <= |s|
    decreases |s| - i
  {
    if i == |s| then i else if s[i] < 128 then i + 1 else SpanFrom(s, i + 1)
  }

  /** Number of bytes up to and including the first byte without the continuation bit. */
  function Span(s: seq<byte>): (n: nat)
    ensures n <= |s|
    ensures s != [] ==> n > 0
  {
    SpanFrom(s, 0)
  }

  predicate HasTerminator(s: seq<byte>) {
    s != [] && s[Span(s) - 1] < 128
  }

  /** A whole encoding: continuation bit on all bytes but the last. */
  predicate Encoding(bs: seq<byte>) {
    |bs| > 0 && bs[|bs| - 1] < 128 && forall i :: 0 <= i < |bs| - 1 ==> bs[i] >= 128
  }

  /** The payload bits of an encoding, seven a byte, least significant first. */
  function UnsignedValue(bs: seq<byte>): nat {
    if bs == [] then 0 else bs[0] % 128 + 128 * UnsignedValue(bs[1..])
  }

  /** The two's complement value of the payload: its top bit is the sign. */
  function SignedValue(bs: seq<byte>): int
    requires |bs| > 0
  {
    UnsignedValue(bs) - (if bs[|bs| - 1] % 128 >= 64 then Pow2(7 * |bs|) else 0)
  }

  // ---------------------------------------------------------------------------
  // The readers
  // ---------------------------------------------------------------------------

  /** The variable shift after n bytes: an unsigned int that grows by 7 and wraps. */
  function Shift(n: nat): nat {
    Wrap32(7 * n)
  }

  /** The variable ret (or val) of the readers after the bytes bs. */
  function Accumulated(bs: seq<byte>): nat {
    if bs == [] then 0 else OrPayload(Accumulated(bs[..|bs| - 1]), bs[|bs| - 1], Shift(|bs| - 1))
  }

  function OrPayload(acc: nat, b: byte, shift: nat): nat {
    if shift < 64 then BitOr(acc, Wrap64(b % 128 * Pow2(shift))) else acc
  }

  /** The sign extension at the end of read_sleb128. */
  function SignExtended(acc: nat, last: byte, shift: nat): nat {
    if last % 128 >= 64 && shift < 64 then BitOr(acc, Wrap64((U64 - 1) * Pow2(shift))) else acc
  }

  function ReadSigned(bs: seq<byte>): int
    requires |bs| > 0
  {
    Signed64(SignExtended(Accumulated(bs), bs[|bs| - 1], Shift(|bs|)))
  }

  // ---------------------------------------------------------------------------
  // The readers against the standard
  // ---------------------------------------------------------------------------

  /** The longest encodings whose value the readers get right whatever the payload. */
  const UNSIGNED_LIMIT: nat := 613566757
  const SIGNED_LIMIT: nat := 613566756

  lemma {:induction false} UnsignedValueSnoc(bs: seq<byte>, b: byte)
    ensures UnsignedValue(bs + [b]) == UnsignedValue(bs) + b % 128 * Pow2(7 * |bs|)
  {
    if bs == [] {
      assert bs + [b] == [b];
      assert UnsignedValue([b]) == b % 128 + 128 * UnsignedValue([b][1..]);
    } else {
      assert (bs + [b])[1..] == bs[1..] + [b];
      UnsignedValueSnoc(bs[1..], b);
      var m := 7 * |bs[1..]|;
      Pow2Sum(7, m);
      Pow2Of64();
      assert Pow2(7 * |bs|) == 128 * Pow2(m);
      var x := b % 128;
      assert 128 * (x * Pow2(m)) == x * (128 * Pow2(m));
    }
  }

  lemma {:induction false} UnsignedValueBound(bs: seq<byte>)
    ensures UnsignedValue(bs) < Pow2(7 * |bs|)
  {
    if bs != [] {
      UnsignedValueBound(bs[1..]);
      Pow2Sum(7, 7 * |bs[1..]|);
      Pow2Of64();
      assert Pow2(7 * |bs|) == 128 * Pow2(7 * |bs[1..]|);
    }
  }

  lemma WholeMultiple(x: int, shift: nat)
    requires shift >= 64
    ensures x * Pow2(shift) == x * Pow2(shift - 64) * U64
  {
    Pow2Sum(64, shift - 64);
    Pow2Of64();
    Reassociate(x, U64, Pow2(shift - 64));
  }

  lemma Reassociate(x: int, y: int, z: int)
    ensures x * (y * z) == x * z * y
  {
  }

  lemma SplitProduct(x: nat, p: nat, q: nat)
    requires q > 0
    ensures x * p == x / q * (p * q) + x % q * p
    ensures 0 <= x % q * p <= p * q - p
  {
    var k, y := x / q, x % q;
    assert x == k * q + y;
    Distribute(k * q, y, p);
    Reassociate(k, p, q);
    assert k * q * p == k * (p * q);
    Distribute(q - 1 - y, y, p);
    Distribute(q, -1, p);
  }

  lemma Distribute(x: int, y: int, p: int)
    ensures (x + y) * p == x * p + y * p
  {
  }

  /** Or-ing shifted bits in above the bits already there adds them, modulo 2^64. */
  lemma OrShifted(acc: nat, x: nat, shift: nat)
    requires shift < 64 && acc < Pow2(shift)
    ensures BitOr(acc, Wrap64(x * Pow2(shift))) == Wrap64(acc + x * Pow2(shift))
  {
    var p, q := Pow2(shift), Pow2(64 - shift);
    Pow2Sum(shift, 64 - shift);
    Pow2Of64();
    SplitProduct(x, p, q);
    var k, y := x / q, x % q;
    WrapUnique(x * p, k, y * p);
    BitOrDisjoint(acc, y, shift);
    WrapUnique(acc + x * p, k, acc + y * p);
  }

  lemma SmallIsUnwrapped(x: nat, shift: nat)
    requires x < Pow2(shift) && shift <= 64
    ensures Wrap64(x) == x
  {
    Pow2Monotone(shift, 64);
    Pow2Of64();
    WrapUnique(x, 0, x);
  }

  lemma ShiftIsExact(n: nat)
    requires n < UNSIGNED_LIMIT
    ensures Shift(n) == 7 * n
  {
  }

  lemma OrPayloadStep(v: nat, b: byte, shift: nat)
    requires v < Pow2(shift)
    ensures OrPayload(Wrap64(v), b, shift) == Wrap64(v + b % 128 * Pow2(shift))
  {
    if shift < 64 {
      SmallIsUnwrapped(v, shift);
      OrShifted(v, b % 128, shift);
    } else {
      WholeMultiple(b % 128, shift);
      WrapMultiple(v, b % 128 * Pow2(shift - 64));
    }
  }

  /** As long as no shift has wrapped, the readers hold the payload modulo 2^64. */
  lemma {:induction false} ReadUnsignedIsValue(bs: seq<byte>)
    requires |bs| <= UNSIGNED_LIMIT
    ensures Accumulated(bs) == Wrap64(UnsignedValue(bs))
  {
    if bs != [] {
      var n := |bs| - 1;
      var head, b := bs[..n], bs[n];
      assert bs == head + [b];
      ReadUnsignedIsValue(head);
      ShiftIsExact(n);
      UnsignedValueSnoc(head, b);
      UnsignedValueBound(head);
      OrPayloadStep(UnsignedValue(head), b, 7 * n);
    }
  }

  lemma SignBits(v: nat, last: byte, shift: nat)
    requires v < Pow2(shift) && shift < 64 && last % 128 >= 64
    ensures Wrap64(SignExtended(Wrap64(v), last, shift)) == Wrap64(v - Pow2(shift))
  {
    var p := Pow2(shift);
    SmallIsUnwrapped(v, shift);
    OrShifted(v, U64 - 1, shift);
    Distribute(U64, -1, p);
    WrapMultiple(v - p, p);
    WrapIdempotent(v - p);
  }

  lemma SignVanishes(v: nat, shift: nat)
    requires shift >= 64
    ensures Wrap64(v) == Wrap64(v - Pow2(shift))
  {
    WholeMultiple(1, shift);
    var k: int := Pow2(shift - 64);
    WrapMultiple(v - Pow2(shift), k);
  }

  lemma SignedCongruent(x: int, y: int)
    requires Wrap64(x) == Wrap64(y)
    ensures Signed64(x) == Signed64(y)
  {
  }

  lemma SignAbsent(v: nat, last: byte, shift: nat)
    requires last % 128 < 64 || shift >= 64
    ensures Wrap64(SignExtended(Wrap64(v), last, shift)) == Wrap64(v - (if last % 128 >= 64 then Pow2(shift) else 0))
  {
    var acc := Wrap64(v);
    assert SignExtended(acc, last, shift) == acc;
    WrapIdempotent(v);
    if last % 128 >= 64 {
      SignVanishes(v, shift);
    }
  }

  /** read_sleb128 holds the signed payload modulo 2^64, as an int64_t. */
  lemma ReadSignedIsValue(bs: seq<byte>)
    requires 0 < |bs| <= SIGNED_LIMIT
    ensures ReadSigned(bs) == Signed64(SignedValue(bs))
  {
    ReadUnsignedIsValue(bs);
    UnsignedValueBound(bs);
    ShiftIsExact(|bs|);
    var v, last, shift := UnsignedValue(bs), bs[|bs| - 1], 7 * |bs|;
    if last % 128 >= 64 && shift < 64 {
      SignBits(v, last, shift);
    } else {
      SignAbsent(v, last, shift);
    }
    SignedCongruent(SignExtended(Accumulated(bs), last, shift), SignedValue(bs));
  }

  lemma WrapIdempotent(x: int)
    ensures Wrap64(Wrap64(x)) == Wrap64(x)
  {
    WrapUnique(Wrap64(x), 0, Wrap64(x));
  }

  // ---------------------------------------------------------------------------
  // The limits are sharp
  // ---------------------------------------------------------------------------

  lemma {:induction false} ZeroPayload(bs: seq<byte>, m: nat)
    requires m <= |bs|
    requires forall i :: 0 <= i < m ==> bs[i] % 128 == 0
    ensures UnsignedValue(bs) == UnsignedValue(bs[m..]) * Pow2(7 * m)
  {
    if m == 0 {
      assert bs[0..] == bs;
    } else {
      ZeroPayload(bs[1..], m - 1);
      assert bs[1..][m - 1..] == bs[m..];
      Pow2Sum(7, 7 * (m - 1));
      Pow2Of64();
      Reassociate(UnsignedValue(bs[m..]), 128, Pow2(7 * (m - 1)));
    }
  }

  lemma {:induction false} AccumulatedSkip(bs: seq<byte>, m: nat)
    requires m <= |bs|
    requires forall i :: m <= i < |bs| ==> bs[i] % 128 == 0
    ensures Accumulated(bs) == Accumulated(bs[..m])
  {
    if m == |bs| {
      assert bs[..m] == bs;
    } else {
      var n := |bs| - 1;
      AccumulatedSkip(bs[..n], m);
      assert bs[..n][..m] == bs[..m];
      assert 0 * Pow2(Shift(n)) == 0;
      BitOrZeroRight(Accumulated(bs[..m]));
    }
  }

  lemma {:induction false} BitOrZeroRight(a: nat)
    ensures BitOr(a, 0) == a
  {
    if a > 0 {
      BitOrZeroRight(a / 2);
    }
  }

  /** A single payload bit in the first byte whose shift has wrapped to 3. */
  function WrappedWitness(n: nat): (bs: seq<byte>)
    requires n > UNSIGNED_LIMIT
    ensures |bs| == n && Encoding(bs)
  {
    seq(n, i => (if i == UNSIGNED_LIMIT then 1 else 0) + (if i < n - 1 then 128 else 0))
  }

  lemma ZeroPayloadVanishes(bs: seq<byte>, m: nat)
    requires 10 <= m <= |bs|
    requires forall i :: 0 <= i < m ==> bs[i] % 128 == 0
    ensures Wrap64(UnsignedValue(bs)) == 0
  {
    ZeroPayload(bs, m);
    WholeMultiple(UnsignedValue(bs[m..]), 7 * m);
    WrapMultiple(0, UnsignedValue(bs[m..]) * Pow2(7 * m - 64));
  }

  lemma WrappedBit(b: byte)
    requires b % 128 == 1
    ensures OrPayload(0, b, 3) == 8
  {
    assert Pow2(3) == 8;
    BitOrZero(8);
  }

  lemma WrappedWitnessIsWrong(n: nat)
    requires n > UNSIGNED_LIMIT
    ensures Accumulated(WrappedWitness(n)) == 8
    ensures Wrap64(UnsignedValue(WrappedWitness(n))) == 0
  {
    hide OrPayload;
    var bs := WrappedWitness(n);
    var m := UNSIGNED_LIMIT + 1;
    AccumulatedSkip(bs, m);
    AccumulatedSkip(bs[..m - 1], 0);
    assert bs[..m][..m - 1] == bs[..m - 1];
    WrappedBit(bs[UNSIGNED_LIMIT]);
    ZeroPayloadVanishes(bs, UNSIGNED_LIMIT);
  }

  /** A negative number: with n == UNSIGNED_LIMIT its sign extension uses a wrapped shift. */
  function NegativeWitness(n: nat): (bs: seq<byte>)
    requires n > 0
    ensures |bs| == n && Encoding(bs)
  {
    seq(n, i => if i < n - 1 then 128 else 64)
  }

  lemma WrappedSign()
    ensures Signed64(SignExtended(0, 64, 3)) == -8
  {
    assert Pow2(3) == 8;
    WrapUnique((U64 - 1) * 8, 7, U64 - 8);
    BitOrZero(U64 - 8);
    WrapUnique(U64 - 8, 0, U64 - 8);
  }

  lemma NegativeWitnessIsWrong(n: nat)
    requires n == UNSIGNED_LIMIT
    ensures ReadSigned(NegativeWitness(n)) == -8
    ensures Signed64(SignedValue(NegativeWitness(n))) == 0
  {
    var bs := NegativeWitness(n);
    AccumulatedSkip(bs[..n - 1], 0);
    assert Shift(n - 1) >= 64 && Shift(n) == 3;
    WrappedSign();
    ZeroPayloadVanishes(bs, n - 1);
    SignVanishes(UnsignedValue(bs), 7 * n);
    SignedCongruent(SignedValue(bs), 0);
  }

  /** Encodings of n bytes are all read right exactly up to the limit. */
  lemma UnsignedExactIff(n: nat)
    ensures (forall bs :: |bs| == n && Encoding(bs) ==> Accumulated(bs) == Wrap64(UnsignedValue(bs)))
            <==> n <= UNSIGNED_LIMIT
  {
    if n <= UNSIGNED_LIMIT {
      forall bs: seq<byte> | |bs| == n && Encoding(bs)
        ensures Accumulated(bs) == Wrap64(UnsignedValue(bs))
      {
        ReadUnsignedIsValue(bs);
      }
    } else {
      WrappedWitnessIsWrong(n);
    }
  }

  lemma SignedExactIff(n: nat)
    ensures (forall bs :: |bs| == n && Encoding(bs) ==> ReadSigned(bs) == Signed64(SignedValue(bs)))
            <==> n <= SIGNED_LIMIT
  {
    if n <= SIGNED_LIMIT {
      forall bs: seq<byte> | |bs| == n && Encoding(bs)
        ensures ReadSigned(bs) == Signed64(SignedValue(bs))
      {
        ReadSignedIsValue(bs);
      }
    } else if n == UNSIGNED_LIMIT {
      NegativeWitnessIsWrong(n);
    } else {
      WrappedWitnessIsWrong(n);
      var bs := WrappedWitness(n);
      assert ReadSigned(bs) == 8;
      assert SignedValue(bs) == UnsignedValue(bs);
    }
  }

  // ---------------------------------------------------------------------------
  // Round trips
  // ---------------------------------------------------------------------------

  function EncodeUnsigned(v: nat): (bs: seq<byte>)
    ensures |bs| > 0
  {
    if v < 128 then [v] else [128 + v % 128] + EncodeUnsigned(v / 128)
  }

  /** Low seven bits first; stops once the rest is just copies of the sign bit. */
  function EncodeSigned(v: int): (bs: seq<byte>)
    ensures |bs| > 0
    decreases if v < 0 then -v else v
  {
    if -64 <= v < 64 then [v % 128] else [128 + v % 128] + EncodeSigned(v / 128)
  }

  lemma EncodingCons(b: byte, bs: seq<byte>)
    requires b >= 128 && Encoding(bs)
    ensures Encoding([b] + bs)
  {
  }

  function Pow128(k: nat): (p: nat)
    ensures p > 0
  {
    if k == 0 then 1 else 128 * Pow128(k - 1)
  }

  lemma {:induction false} EncodeUnsignedIsEncoding(v: nat, k: nat)
    requires v < 128 * Pow128(k)
    ensures Encoding(EncodeUnsigned(v)) && UnsignedValue(EncodeUnsigned(v)) == v
    ensures |EncodeUnsigned(v)| <= k + 1
  {
    if v < 128 {
      assert UnsignedValue([v]) == v % 128 + 128 * UnsignedValue([v][1..]);
    } else {
      var b: byte, q := 128 + v % 128, v / 128;
      EncodeUnsignedIsEncoding(q, k - 1);
      EncodingCons(b, EncodeUnsigned(q));
      assert ([b] + EncodeUnsigned(q))[1..] == EncodeUnsigned(q);
    }
  }

  lemma SignedValueCons(b: byte, bs: seq<byte>)
    requires |bs| > 0
    ensures SignedValue([b] + bs) == b % 128 + 128 * SignedValue(bs)
  {
    assert ([b] + bs)[1..] == bs;
    Pow2Sum(7, 7 * |bs|);
    Pow2Of64();
  }

  lemma SignedSingle(v: int)
    requires -64 <= v < 64
    ensures SignedValue([v % 128]) == v
  {
    var b: byte := v % 128;
    assert UnsignedValue([b]) == b % 128 + 128 * UnsignedValue([b][1..]);
    Pow2Of64();
  }

  lemma {:induction false} EncodeSignedIsEncoding(v: int, k: nat)
    requires -64 * Pow128(k) <= v < 64 * Pow128(k)
    ensures Encoding(EncodeSigned(v)) && SignedValue(EncodeSigned(v)) == v
    ensures |EncodeSigned(v)| <= k + 1
    decreases k
  {
    if -64 <= v < 64 {
      SignedSingle(v);
    } else {
      var b: byte, q := 128 + v % 128, v / 128;
      assert k > 0 by {
        assert k == 0 ==> Pow128(k) == 1;
      }
      assert Pow128(k) == 128 * Pow128(k - 1);
      EncodeSignedIsEncoding(q, k - 1);
      var rest := EncodeSigned(q);
      EncodingCons(b, rest);
      SignedValueCons(b, rest);
      assert SignedValue([b] + rest) == v;
    }
  }

  lemma UnsignedRoundTrip(v: word)
    ensures Encoding(EncodeUnsigned(v)) && |EncodeUnsigned(v)| <= 10
    ensures Accumulated(EncodeUnsigned(v)) == v
  {
    assert Pow128(9) == 128 * Pow128(8);
    EncodeUnsignedIsEncoding(v, 9);
    ReadUnsignedIsValue(EncodeUnsigned(v));
    WrapUnique(v, 0, v);
  }

  lemma SignedRoundTrip(v: int)
    requires -U64 / 2 <= v < U64 / 2
    ensures Encoding(EncodeSigned(v)) && |EncodeSigned(v)| <= 10
    ensures ReadSigned(EncodeSigned(v)) == v
  {
    assert Pow128(9) == 128 * Pow128(8);
    EncodeSignedIsEncoding(v, 9);
    ReadSignedIsValue(EncodeSigned(v));
    if v < 0 {
      WrapUnique(v, -1, v + U64);
    } else {
      WrapUnique(v, 0, v);
    }
  }

  lemma {:induction false} SpanFromReaches(s: seq<byte>, i: nat, n: nat)
    requires i < n <= |s| && s[n - 1] < 128
    requires forall k :: i <= k < n - 1 ==> s[k] >= 128
    ensures SpanFrom(s, i) == n
    decreases n - i
  {
    if i < n - 1 {
      SpanFromReaches(s, i + 1, n);
    }
  }

  lemma {:induction false} SpanFromContinues(s: seq<byte>, i: nat)
    requires i <= |s|
    ensures forall k :: i <= k < SpanFrom(s, i) - 1 ==> s[k] >= 128
    decreases |s| - i
  {
    if i < |s| && s[i] >= 128 {
      SpanFromContinues(s, i + 1);
    }
  }

  lemma EncodingSpan(bs: seq<byte>, tail: seq<byte>)
    requires Encoding(bs)
    ensures HasTerminator(bs + tail) && Span(bs + tail) == |bs|
  {
    SpanFromReaches(bs + tail, 0, |bs|);
  }

  lemma SpanIsEncoding(s: seq<byte>)
    requires HasTerminator(s)
    ensures Span(s) > 0 && Encoding(s[..Span(s)])
  {
    SpanFromContinues(s, 0);
  }
}
