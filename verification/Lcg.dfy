// The 32-bit linear congruential generator shared by the kernels
// (cu/common.cuh:53-55, src/oracle.rs:61-63) has full period 2^32: from any state
// every state is reached, and a state recurs exactly at the multiples of 2^32.

module Lcg {
  import opened Words


  function LcgNext(state: u32): u32 {
    WrapU32(1664525 * state + 1013904223)
  }

  // The state after n draws.
  function Advance(state: u32, n: nat): u32
    decreases n
  {
    if n == 0 then state else Advance(LcgNext(state), n - 1)
  }

  lemma {:induction false} AdvanceSplit(state: u32, m: nat, n: nat)
    ensures Advance(state, m + n) == Advance(Advance(state, m), n)
    decreases m
  {
    if m > 0 {
      AdvanceSplit(LcgNext(state), m - 1, n);
    }
  }

  // ---- the generator without wrap-around ----

  ghost function Raw(x: int, n: nat): int
    decreases n
  {
    if n == 0 then x else Raw(1664525 * x + 1013904223, n - 1)
  }

  lemma {:induction false} RawSplit(x: int, m: nat, n: nat)
    ensures Raw(x, m + n) == Raw(Raw(x, m), n)
    decreases m
  {
    if m > 0 {
      RawSplit(1664525 * x + 1013904223, m - 1, n);
    }
  }

  lemma WrapAffine(x: int)
    ensures LcgNext(WrapU32(x)) == WrapU32(1664525 * x + 1013904223)
  {
    var q := x / TWO32;
    assert x == WrapU32(x) + TWO32 * q;
    WrapCongruent(1664525 * x + 1013904223, 1664525 * WrapU32(x) + 1013904223, q * 1664525);
  }

  lemma {:induction false} AdvanceIsRaw(x: int, n: nat)
    ensures Advance(WrapU32(x), n) == WrapU32(Raw(x, n))
    decreases n
  {
    if n > 0 {
      WrapAffine(x);
      AdvanceIsRaw(1664525 * x + 1013904223, n - 1);
    }
  }

  lemma AdvanceGap(state: u32, n: nat) returns (z: int)
    ensures Raw(state, n) == Advance(state, n) + TWO32 * z
  {
    AdvanceIsRaw(state, n);
    z := Raw(state, n) / TWO32;
  }

  // 2^k draws act as y -> (1 + 4pu) y + p(2v + 1) with p = 2^k: the identity modulo 4p
  // plus an odd multiple of p. This is where the multiplier being 1 modulo 4 and the
  // increment being odd are used.
  lemma {:induction false} Jump(k: nat) returns (u: int, v: int)
    ensures forall y :: Raw(y, Pow2(k)) == (1 + 4 * Pow2(k) * u) * y + Pow2(k) * (2 * v + 1)
  {
    var p := Pow2(k);
    if k == 0 {
      u, v := 416131, 506952111;
      assert forall y :: Raw(y, 1) == Raw(1664525 * y + 1013904223, 0);
    } else {
      var h := Pow2(k - 1);
      var u', v' := Jump(k - 1);
      u := u' + 2 * h * u' * u';
      v := v' + h * u' * (2 * v' + 1);
      forall y ensures Raw(y, p) == (1 + 4 * p * u) * y + p * (2 * v + 1) {
        RawSplit(y, h, h);
        var a, b := 1 + 4 * h * u', h * (2 * v' + 1);
        assert Raw(y, p) == a * (a * y + b) + b;
        SquareStep(h, u', v', y);
      }
    }
  }

  lemma SquareStep(h: int, u: int, v: int, y: int)
    ensures
      var a, b := 1 + 4 * h * u, h * (2 * v + 1);
      a * (a * y + b) + b
      == (1 + 4 * (2 * h) * (u + 2 * h * u * u)) * y + 2 * h * (2 * (v + h * u * (2 * v + 1)) + 1)
  {
    var a, b := 1 + 4 * h * u, h * (2 * v + 1);
    assert a * a == 1 + 4 * (2 * h) * (u + 2 * h * u * u);
    assert a * b + b == 2 * h * (2 * (v + h * u * (2 * v + 1)) + 1);
    assert a * (a * y + b) + b == (a * a) * y + (a * b + b);
  }

  // ---- every state is reached ----

  // Fix the target one binary digit at a time: 2^k extra draws change digit k and
  // nothing below it.
  lemma {:induction false} ReachModulo(x: int, t: int, k: nat) returns (n: nat, q: int)
    ensures n < Pow2(k)
    ensures Raw(x, n) == t + Pow2(k) * q
  {
    if k == 0 {
      n, q := 0, x - t;
    } else {
      var p := Pow2(k - 1);
      n, q := ReachModulo(x, t, k - 1);
      if q % 2 == 0 {
        q := q / 2;
      } else {
        var u, v := Jump(k - 1);
        var y := Raw(x, n);
        var w := q / 2;
        RawSplit(x, n, p);
        assert Raw(x, n + p) == (1 + 4 * p * u) * y + p * (2 * v + 1);
        OddStep(p, u, v, y, t, w);
        n, q := n + p, w + v + 1 + 2 * u * y;
      }
    }
  }

  lemma OddStep(p: int, u: int, v: int, y: int, t: int, w: int)
    requires y == t + p * (2 * w + 1)
    ensures (1 + 4 * p * u) * y + p * (2 * v + 1) == t + 2 * p * (w + v + 1 + 2 * u * y)
  {
    assert (1 + 4 * p * u) * y == y + 2 * p * (2 * u * y);
    assert p * (2 * w + 1) + p * (2 * v + 1) == 2 * p * (w + v + 1);
  }

  // From any state, every state is at most 2^32 - 1 draws away.
  lemma LcgReaches(state: u32, target: u32)
    ensures exists n: nat :: n < TWO32 && Advance(state, n) == target
  {
    var n, q := ReachModulo(state, target, 32);
    Pow2Of32();
    var z := AdvanceGap(state, n);
    SameWord(Raw(state, n), Advance(state, n), z, target, q);
  }

  lemma SameWord(raw: int, a: u32, z: int, b: u32, q: int)
    requires raw == a + TWO32 * z && raw == b + TWO32 * q
    ensures a == b
  {
  }

  // ---- and recurs only after a full period ----

  lemma {:induction false} FullTurns(x: int, k: nat, j: nat) returns (z: int)
    ensures Raw(x, Pow2(k) * j) == x + Pow2(k) * z
    decreases j
  {
    var p := Pow2(k);
    if j == 0 {
      z := 0;
    } else {
      var u, v := Jump(k);
      var y := Raw(x, p);
      z := FullTurns(y, k, j - 1);
      assert p * j == p + p * (j - 1);
      RawSplit(x, p, p * (j - 1));
      assert y - x == p * (4 * u * x + 2 * v + 1);
      assert Raw(x, p * j) == x + p * (4 * u * x + 2 * v + 1) + p * z;
      z := 4 * u * x + 2 * v + 1 + z;
    }
  }

  lemma {:induction false} ReturnModulo(x: int, d: nat, k: nat, z: int) returns (j: nat)
    requires Raw(x, d) == x + Pow2(k) * z
    ensures d == Pow2(k) * j
  {
    if k == 0 {
      j := d;
    } else {
      var p := Pow2(k - 1);
      assert Pow2(k) * z == p * (2 * z);
      j := ReturnModulo(x, d, k - 1, 2 * z);
      if j % 2 == 1 {
        NoOddReturn(x, d, k - 1, j / 2, z);
        assert false;
      }
      var h := j / 2;
      assert p * (2 * h) == Pow2(k) * h;
      j := h;
    }
  }

  lemma NoOddReturn(x: int, d: nat, k: nat, i: nat, z: int)
    requires d == Pow2(k) * (2 * i + 1)
    ensures Raw(x, d) != x + Pow2(k + 1) * z
  {
    var p := Pow2(k);
    var z' := FullTurns(x, k + 1, i);
    var y := Raw(x, 2 * p * i);
    var u, v := Jump(k);
    assert d == 2 * p * i + p;
    RawSplit(x, 2 * p * i, p);
    OddJumpMoves(p, u, v, x, y, z, z');
  }

  lemma OddJumpMoves(p: int, u: int, v: int, x: int, y: int, z: int, z': int)
    requires p > 0 && y == x + 2 * p * z'
    ensures x + 2 * p * z != (1 + 4 * p * u) * y + p * (2 * v + 1)
  {
    var e := z - z' - 2 * u * y - v;
    assert (1 + 4 * p * u) * y == y + 2 * p * (2 * u * y);
    assert x + 2 * p * z - ((1 + 4 * p * u) * y + p * (2 * v + 1)) == p * (2 * e - 1);
    assert 2 * e - 1 != 0;
  }

  lemma FullPeriodNeeded(state: u32, d: nat)
    requires Advance(state, d) == state
    ensures d % TWO32 == 0
  {
    var z := AdvanceGap(state, d);
    Pow2Of32();
    var j := ReturnModulo(state, d, 32, z);
  }

  lemma FullPeriodSuffices(state: u32, j: nat)
    ensures Advance(state, TWO32 * j) == state
  {
    Pow2Of32();
    var z := FullTurns(state, 32, j);
    var z' := AdvanceGap(state, TWO32 * j);
  }

  // A state comes back after d draws exactly when d is a multiple of 2^32.
  lemma LcgPeriod(state: u32, d: nat)
    ensures Advance(state, d) == state <==> d % TWO32 == 0
  {
    if Advance(state, d) == state {
      FullPeriodNeeded(state, d);
    }
    if d % TWO32 == 0 {
      FullPeriodSuffices(state, d / TWO32);
    }
  }
}
