/** Bytes, bits of a byte and fixed-width addition, shared by the byte-level models. */
module Bytes {

  type Byte = x: int | 0 <= x < 256

  const U32: int := 0x1_0000_0000

  /** Addition of two uint32_t values, which wraps around. */
  function Add32(a: int, b: int): int {
    if a + b < U32 then a + b else a + b - U32
  }

  /** A little-endian uint16_t. */
  function Le16(lo: int, hi: int): int {
    lo + 256 * hi
  }

  /** A little-endian uint32_t. */
  function Le32(a: Byte, b: Byte, c: Byte, d: Byte): (x: nat)
    ensures x < U32
  {
    a + 256 * (b + 256 * (c + 256 * d))
  }

  /** The low byte of a number; by subtraction rather than division, which keeps proofs linear. */
  function Low(x: nat): (r: Byte)
    ensures x < 256 ==> r == x
  {
    if x < 256 then x else Low(x - 256)
  }

  /** What is above the low byte of a number. */
  function High(x: nat): (r: nat)
    ensures Le16(Low(x), r) == x
  {
    if x < 256 then 0 else 1 + High(x - 256)
  }

  /** These are the remainder and the quotient by 256. */
  lemma {:induction false} LowHighDivide(x: nat)
    ensures Low(x) == x % 256 && High(x) == x / 256
  {
    if x >= 256 {
      LowHighDivide(x - 256);
    }
  }

  lemma {:induction false} LowHighOfLe16(lo: Byte, hi: nat)
    ensures Low(Le16(lo, hi)) == lo && High(Le16(lo, hi)) == hi
  {
    if hi > 0 {
      LowHighOfLe16(lo, hi - 1);
      assert Le16(lo, hi) - 256 == Le16(lo, hi - 1);
    }
  }

  /** The two bytes of a uint16_t give it back. */
  lemma {:induction false} BytesOf16(x: nat)
    requires x < 0x10000
    ensures Le16(x % 256, x / 256 % 256) == x
  {
  }

  function Zeros(n: nat): (r: seq<Byte>)
    ensures |r| == n
  {
    seq(n, _ => 0)
  }

  lemma {:induction false} SliceOfSlice(s: seq<Byte>, a: nat, b: nat, i: nat, j: nat)
    requires a <= b <= |s| && i <= j <= b - a
    ensures s[a..b][i..j] == s[a + i..a + j]
  {
    var t, u, v := s[a..b], s[a..b][i..j], s[a + i..a + j];
    forall k | 0 <= k < j - i ensures u[k] == v[k] {
      assert u[k] == t[i + k];
      assert v[k] == s[a + i + k];
    }
  }

  function Pow2(i: nat): nat {
    if i == 0 then 1 else 2 * Pow2(i - 1)
  }

  /** Bit i of n, bit 0 being the least significant. */
  predicate Bit(n: nat, i: nat) {
    if i == 0 then n % 2 == 1 else Bit(n / 2, i - 1)
  }

  /** `n | (1 << i)` */
  function SetBit(n: nat, i: nat): nat {
    if i == 0 then n / 2 * 2 + 1 else SetBit(n / 2, i - 1) * 2 + n % 2
  }

  /** Setting bit i sets that bit and no other. */
  lemma {:induction false} SetBitBits(n: nat, i: nat, j: nat)
    ensures Bit(SetBit(n, i), j) == (j == i || Bit(n, j))
  {
    if i > 0 && j > 0 {
      SetBitBits(n / 2, i - 1, j - 1);
    }
  }

  lemma {:induction false} SetBitBound(n: nat, i: nat, width: nat)
    requires n < Pow2(width) && i < width
    ensures SetBit(n, i) < Pow2(width)
  {
    var half := n / 2;
    assert Pow2(width) == 2 * Pow2(width - 1) && half < Pow2(width - 1);
    if i > 0 {
      SetBitBound(half, i - 1, width - 1);
      assert SetBit(n, i) == SetBit(half, i - 1) * 2 + n % 2;
    }
  }

  /** A number of known width is determined by its bits. */
  lemma {:induction false} SameBits(a: nat, b: nat, width: nat)
    requires a < Pow2(width) && b < Pow2(width)
    requires forall j: nat | j < width :: Bit(a, j) == Bit(b, j)
    ensures a == b
  {
    if width > 0 {
      assert Bit(a, 0) == Bit(b, 0);
      forall j: nat | j < width - 1
        ensures Bit(a / 2, j) == Bit(b / 2, j)
      {
        assert Bit(a, j + 1) == Bit(b, j + 1);
      }
      SameBits(a / 2, b / 2, width - 1);
    }
  }

  lemma {:induction false} ZeroBits(i: nat)
    ensures !Bit(0, i)
  {
    if i > 0 {
      ZeroBits(i - 1);
    }
  }

  lemma {:induction false} ByteWidth()
    ensures Pow2(8) == 256
  {
    assert Pow2(4) == 16;
  }

  /** `b |= 1 << i` on a byte. */
  function SetByteBit(b: Byte, i: nat): (r: Byte)
    requires i < 8
    ensures forall j: nat :: Bit(r, j) == (j == i || Bit(b, j))
  {
    ByteWidth();
    SetBitBound(b, i, 8);
    assert forall j: nat :: Bit(SetBit(b, i), j) == (j == i || Bit(b, j)) by {
      forall j: nat ensures Bit(SetBit(b, i), j) == (j == i || Bit(b, j)) {
        SetBitBits(b, i, j);
      }
    }
    SetBit(b, i)
  }

  // ----- what these mean in arithmetic

  lemma {:induction false} AddWraps(a: nat, b: nat)
    requires a < U32 && b < U32
    ensures Add32(a, b) == (a + b) % 0x1_0000_0000
  {
  }

  lemma {:induction false} LittleEndian(a: Byte, b: Byte, c: Byte, d: Byte)
    ensures Le16(a, b) == a + 0x100 * b
    ensures Le32(a, b, c, d) == a + 0x100 * b + 0x1_0000 * c + 0x100_0000 * d
  {
  }

  lemma {:induction false} MulMono(a: int, b: int, d: nat)
    requires a <= b
    ensures a * d <= b * d
  {
  }

  lemma {:induction false} HalfTwice(n: nat, p: nat)
    requires p > 0
    ensures n / 2 / p == n / (2 * p)
  {
    var q := n / 2 / p;
    assert q * p <= n / 2 < q * p + p;
    assert q * (2 * p) == 2 * (q * p);
    var r := n - q * (2 * p);
    assert 0 <= r < 2 * p;
    assert n == q * (2 * p) + r;
    DivideUnique(n, 2 * p, q, r);
  }

  lemma {:induction false} DivideUnique(n: nat, d: nat, q: nat, r: nat)
    requires d > 0 && n == q * d + r && r < d
    ensures n / d == q
  {
    var k := n / d;
    assert k * d <= n < k * d + d;
    if k < q {
      MulMono(k + 1, q, d);
    } else if k > q {
      MulMono(q + 1, k, d);
    }
  }

  lemma {:induction false} Pow2Positive(i: nat)
    ensures Pow2(i) > 0
  {
    if i > 0 {
      Pow2Positive(i - 1);
    }
  }

  /** Bit i is the parity of the quotient by 2^i. */
  lemma {:induction false} BitIsParity(n: nat, i: nat)
    ensures Pow2(i) > 0 && (Bit(n, i) <==> n / Pow2(i) % 2 == 1)
  {
    Pow2Positive(i);
    if i > 0 {
      BitIsParity(n / 2, i - 1);
      Pow2Positive(i - 1);
      HalfTwice(n, Pow2(i - 1));
    }
  }
}
