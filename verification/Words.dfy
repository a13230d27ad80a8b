// Machine words of the C sources, written out as integers with explicit wrap-around.
module Words {

  const U16: int := 0x1_0000
  const U32: int := 0x1_0000_0000
  const U64: int := 0x1_0000_0000_0000_0000

  type byte = x: int | 0 <= x < 256
  type word = x: int | 0 <= x < U64

  datatype Option<+T> = None | Some(value: T)

  function Wrap64(x: int): (w: word) {
    x % U64
  }

  function Wrap32(x: int): nat {
    x % U32
  }

  /** The int64_t with the same bits as x. */
  function Signed64(x: int): int {
    if Wrap64(x) < U64 / 2 then Wrap64(x) else Wrap64(x) - U64
  }

  /** The int with the same low 32 bits as x. */
  function Signed32(x: int): int {
    if Wrap32(x) < U32 / 2 then Wrap32(x) else Wrap32(x) - U32
  }

  function Pow2(n: nat): (p: nat)
    ensures p > 0
  {
    if n == 0 then 1 else 2 * Pow2(n - 1)
  }

  lemma {:induction false} Pow2Sum(m: nat, n: nat)
    ensures Pow2(m + n) == Pow2(m) * Pow2(n)
  {
    if n > 0 {
      Pow2Sum(m, n - 1);
      assert Pow2(m + n) == 2 * Pow2(m + (n - 1));
    }
  }

  lemma Pow2Monotone(m: nat, n: nat)
    requires m <= n
    ensures Pow2(m) <= Pow2(n)
    decreases n - m
  {
    if m < n {
      Pow2Monotone(m, n - 1);
    }
  }

  lemma Pow2Of8()
    ensures Pow2(7) == 128 && Pow2(8) == 256
  {
    assert Pow2(4) == 16;
  }

  lemma Pow2Of64()
    ensures Pow2(7) == 128
    ensures Pow2(64) == U64
  {
    hide Pow2;
    Pow2Of8();
    Pow2Sum(8, 8);
    Pow2Sum(16, 16);
    Pow2Sum(32, 32);
  }

  /** The C operator | on unsigned operands. */
  function BitOr(a: nat, b: nat): nat {
    if a == 0 && b == 0 then 0
    else 2 * BitOr(a / 2, b / 2) + (if a % 2 == 1 || b % 2 == 1 then 1 else 0)
  }

  lemma {:induction false} BitOrZero(b: nat)
    ensures BitOr(0, b) == b
  {
    if b > 0 {
      BitOrZero(b / 2);
    }
  }

  /** Or of a value below 2^n with a multiple of 2^n is their sum. */
  lemma {:induction false} BitOrDisjoint(a: nat, b: nat, n: nat)
    requires a < Pow2(n)
    ensures BitOr(a, b * Pow2(n)) == a + b * Pow2(n)
  {
    if n == 0 {
      BitOrZero(b);
      assert b * Pow2(n) == b;
    } else {
      var h := b * Pow2(n - 1);
      assert b * Pow2(n) == 2 * h by {
        assert Pow2(n) == 2 * Pow2(n - 1);
      }
      BitOrDisjoint(a / 2, b, n - 1);
      assert (2 * h) / 2 == h;
      assert BitOr(a / 2, h) == a / 2 + h;
      if a == 0 && h == 0 {
      } else {
        assert BitOr(a, 2 * h) == 2 * (a / 2 + h) + (if a % 2 == 1 then 1 else 0);
      }
    }
  }

  lemma WrapUnique(x: int, k: int, r: word)
    requires x == k * U64 + r
    ensures Wrap64(x) == r
  {
    var q := x / U64;
    assert x == q * U64 + x % U64;
    assert (k - q) * U64 == x % U64 - r;
    assert -U64 < (k - q) * U64 < U64;
    assert k == q;
  }

  lemma WrapSum(x: int, y: int)
    ensures Wrap64(Wrap64(x) + y) == Wrap64(x + y)
    ensures Wrap64(x + Wrap64(y)) == Wrap64(x + y)
  {
    var s := Wrap64(x + y);
    WrapUnique(Wrap64(x) + y, (x + y) / U64 - x / U64, s);
    WrapUnique(x + Wrap64(y), (x + y) / U64 - y / U64, s);
  }

  lemma {:induction false} ProductAtLeast(q: nat, d: nat)
    requires d > 0
    ensures q <= q * d
  {
    if d > 1 {
      ProductAtLeast(q, d - 1);
      assert q * d == q * (d - 1) + q;
    }
  }

  lemma QuotientBelow(n: nat, d: nat)
    requires d > 0
    ensures n / d <= n
  {
    var q, r := n / d, n % d;
    assert n == q * d + r;
    ProductAtLeast(q, d);
  }

  lemma Wrap32Add(x: int, y: int)
    ensures Wrap32(Wrap32(x) + y) == Wrap32(x + y)
  {
    var q, r := (x % U32 + y) / U32, (x % U32 + y) % U32;
    assert x + y == (x / U32 + q) * U32 + r;
    Wrap32Unique(x + y, x / U32 + q, r);
  }

  lemma Wrap32Unique(x: int, k: int, r: int)
    requires x == k * U32 + r && 0 <= r < U32
    ensures Wrap32(x) == r
  {
    var q := x / U32;
    assert x == q * U32 + x % U32;
    assert (k - q) * U32 == x % U32 - r;
    assert -U32 < (k - q) * U32 < U32;
    assert k == q;
  }

  lemma WrapMultiple(x: int, k: int)
    ensures Wrap64(x + k * U64) == Wrap64(x)
  {
    WrapUnique(x + k * U64, x / U64 + k, Wrap64(x));
  }
}
