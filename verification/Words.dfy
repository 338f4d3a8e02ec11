// Machine integers of the CUDA kernels and the Rust host code, as ranges of the
// mathematical integers. Every wrap-around the code relies on is written out.

module Words {
  const TWO32: int := 0x1_0000_0000
  const TWO31: int := 0x8000_0000
  const INT_MAX: int := 0x7fff_ffff

  type u32 = x: int | 0 <= x < 0x1_0000_0000
  type Byte = x: int | 0 <= x < 256
  type i32 = x: int | -0x8000_0000 <= x < 0x8000_0000

  // Unsigned arithmetic and the cast from a signed word wrap modulo 2^32.
  function WrapU32(x: int): u32 {
    x % 0x1_0000_0000
  }

  // Two's-complement reading of the low 32 bits.
  function WrapI32(x: int): i32 {
    (x + 0x8000_0000) % 0x1_0000_0000 - 0x8000_0000
  }

  // Both readings of a wrapped value differ from it by a multiple of 2^32.
  lemma WrapsByMultiples(x: int)
    ensures (x - WrapU32(x)) % 0x1_0000_0000 == 0 && (x - WrapI32(x)) % 0x1_0000_0000 == 0
  {
  }

  lemma WrapCongruent(a: int, b: int, k: int)
    requires a == b + TWO32 * k
    ensures WrapU32(a) == WrapU32(b)
  {
    var qa, qb := a / TWO32, b / TWO32;
    assert a % TWO32 - b % TWO32 == TWO32 * (qb + k - qa);
  }

  // ---- division by a variable ----

  lemma SmallMultipleIsZero(k: int, d: int)
    requires d > 0 && -d < k * d < d
    ensures k == 0
  {
    assert k >= 1 ==> k * d >= d;
    assert k <= -1 ==> k * d <= -d;
  }

  lemma DivModUnique(a: int, d: int, q: int, r: int)
    requires d > 0 && 0 <= r < d && a == q * d + r
    ensures a / d == q && a % d == r
  {
    var q', r' := a / d, a % d;
    assert a == q' * d + r';
    assert (q' - q) * d == r - r';
    SmallMultipleIsZero(q' - q, d);
  }

  lemma ResiduesApart(a: int, b: int, d: int)
    requires d > 0 && a < b < a + d
    ensures a % d != b % d
  {
    if a % d == b % d {
      assert a == a / d * d + a % d && b == b / d * d + b % d;
      assert (b / d - a / d) * d == b - a;
      SmallMultipleIsZero(b / d - a / d, d);
      assert false;
    }
  }

  lemma ResidueStep(a: int, d: int)
    requires d > 0
    ensures (a + d) % d == a % d && (a + d) / d == a / d + 1
  {
    assert a + d == (a / d + 1) * d + a % d;
    DivModUnique(a + d, d, a / d + 1, a % d);
  }

  lemma DivMonotone(a: int, b: int, d: int)
    requires d > 0 && a <= b
    ensures a / d <= b / d
  {
    var k := a / d - b / d;
    assert a == a / d * d + a % d && b == b / d * d + b % d;
    assert k * d < d;
    assert k >= 1 ==> k * d >= d;
  }

  lemma SmallResidue(a: int, d: int)
    requires 0 <= a < d
    ensures a % d == a && a / d == 0
  {
    DivModUnique(a, d, 0, a);
  }

  function CeilDiv(n: nat, d: nat): nat
    requires d > 0
  {
    (n + d - 1) / d
  }

  function Min(a: nat, b: nat): nat {
    if a <= b then a else b
  }

  // i += stride for an int i and an unsigned stride.
  function NextIndex(i: i32, stride: u32): i32 {
    WrapI32(i + stride)
  }

  lemma NextIndexIsPlain(i: i32, stride: u32)
    requires 0 <= i && i + stride < TWO31
    ensures NextIndex(i, stride) == i + stride
  {
  }

  // ---- bits ----

  // (word >> b) & 1
  function Bit(word: nat, b: nat): (bit: nat)
    ensures bit <= 1
    decreases b
  {
    if b == 0 then word % 2 else Bit(word / 2, b - 1)
  }

  ghost function Pow2(k: nat): (p: nat)
    ensures p > 0
  {
    if k == 0 then 1 else 2 * Pow2(k - 1)
  }

  lemma Pow2Of32()
    ensures Pow2(32) == TWO32
  {
    assert Pow2(8) == 256;
    assert Pow2(16) == 65536;
    assert Pow2(24) == 16777216;
  }

  // a ^ b on words of n bits
  function Xor(a: nat, b: nat, n: nat): (r: nat)
    ensures r < Pow2(n)
    decreases n
  {
    if n == 0 then 0 else 2 * Xor(a / 2, b / 2, n - 1) + (a + b) % 2
  }

  lemma LowestBit(rest: nat, bit: nat)
    requires bit <= 1
    ensures (2 * rest + bit) / 2 == rest && (2 * rest + bit) % 2 == bit
  {
  }

  lemma {:induction false} XorBit(a: nat, b: nat, n: nat, i: nat)
    requires i < n
    ensures Bit(Xor(a, b, n), i) == (Bit(a, i) + Bit(b, i)) % 2
    decreases n
  {
    LowestBit(Xor(a / 2, b / 2, n - 1), (a + b) % 2);
    if i > 0 {
      XorBit(a / 2, b / 2, n - 1, i - 1);
    }
  }

  // Halves and lowest bits determine a number; the lowest bit of a sum with s tells that of a.
  lemma FromHalves(s: nat, a: nat, b: nat)
    requires a / 2 == b / 2 && (s + a) % 2 == (s + b) % 2
    ensures a == b
  {
  }

  lemma HalfFits(a: nat, p: nat)
    requires a < 2 * p
    ensures a / 2 < p
  {
  }

  lemma {:induction false} XorApart(s: nat, a: nat, b: nat, n: nat)
    requires a < Pow2(n) && b < Pow2(n) && Xor(s, a, n) == Xor(s, b, n)
    ensures a == b
    decreases n
  {
    if n > 0 {
      LowestBit(Xor(s / 2, a / 2, n - 1), (s + a) % 2);
      LowestBit(Xor(s / 2, b / 2, n - 1), (s + b) % 2);
      HalfFits(a, Pow2(n - 1));
      HalfFits(b, Pow2(n - 1));
      XorApart(s / 2, a / 2, b / 2, n - 1);
      FromHalves(s, a, b);
    }
  }
}
