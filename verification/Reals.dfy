// Real-valued stand-ins for the floating-point operations the components share.

module Reals {

  // A fused multiply-add, with whatever rounding.
  type Fma = (real, real, real) -> real

  // One that does not round.
  ghost predicate Exact(fma: Fma) {
    forall a, b, c :: fma(a, b, c) == a * b + c
  }

  const SHIP_EPS: real := 0.00000001

  function Abs(x: real): (r: real)
    ensures r >= 0.0 && (r == x || r == -x)
  {
    if x < 0.0 then -x else x
  }

  // The product of n numbers from xs[x] with n numbers from ys[y], added up.
  function FlatDot(xs: seq<real>, x: nat, ys: seq<real>, y: nat, n: nat): real
    requires x + n <= |xs| && y + n <= |ys|
  {
    if n == 0 then 0.0 else FlatDot(xs, x, ys, y, n - 1) + xs[x + n - 1] * ys[y + n - 1]
  }

  lemma {:induction false} FlatDotOfSlices(xs: seq<real>, x: nat, ys: seq<real>, y: nat, m: nat, n: nat)
    requires n <= m && x + m <= |xs| && y + m <= |ys|
    ensures FlatDot(xs[x..x + m], 0, ys[y..y + m], 0, n) == FlatDot(xs, x, ys, y, n)
    decreases n
  {
    if n > 0 {
      FlatDotOfSlices(xs, x, ys, y, m, n - 1);
    }
  }

  lemma ProductPositive(a: real, b: real, product: real)
    requires a > 0.0 && b > 0.0 && product == a * b
    ensures product > 0.0
  {
  }

  // ---- decaying sums ----

  function Pow(x: real, n: nat): real {
    if n == 0 then 1.0 else x * Pow(x, n - 1)
  }

  // The inputs weighted by d^(T-1-j), for j from 0 to T-1.
  function DecayedSum(d: real, inputs: seq<real>): real {
    if inputs == [] then 0.0 else Pow(d, |inputs| - 1) * inputs[0] + DecayedSum(d, inputs[1..])
  }

  // One more input: everything before it decays once.
  lemma {:induction false} DecayedSumGrows(d: real, inputs: seq<real>, c: real)
    ensures DecayedSum(d, inputs + [c]) == d * DecayedSum(d, inputs) + c
  {
    if inputs == [] {
      assert DecayedSum(d, ([] + [c])[1..]) == 0.0;
    } else {
      assert (inputs + [c])[1..] == inputs[1..] + [c];
      DecayedSumGrows(d, inputs[1..], c);
      var n := |inputs|;
      assert Pow(d, n) * inputs[0] == d * (Pow(d, n - 1) * inputs[0]);
    }
  }

  // A value that decays and takes an input in every step.
  ghost predicate DecayStep(d: real, values: seq<real>, inputs: seq<real>, t: nat)
    requires t < |inputs| && t + 1 < |values|
  {
    values[t + 1] == d * values[t] + inputs[t]
  }

  ghost predicate Decays(d: real, values: seq<real>, inputs: seq<real>) {
    |values| == |inputs| + 1 && forall t: nat :: t < |inputs| ==> DecayStep(d, values, inputs, t)
  }

  function ClosedForm(d: real, start: real, inputs: seq<real>): real {
    Pow(d, |inputs|) * start + DecayedSum(d, inputs)
  }

  lemma ClosedFormGrows(d: real, start: real, inputs: seq<real>, c: real)
    ensures ClosedForm(d, start, inputs + [c]) == d * ClosedForm(d, start, inputs) + c
  {
    DecayedSumGrows(d, inputs, c);
    var p, s := Pow(d, |inputs|), DecayedSum(d, inputs);
    assert Pow(d, |inputs + [c]|) == d * p;
    assert d * (p * start + s) == d * p * start + d * s;
  }

  // In closed form it is the decayed start value plus the decayed sum of the inputs.
  lemma {:induction false} DecayClosedForm(d: real, values: seq<real>, inputs: seq<real>)
    requires Decays(d, values, inputs)
    ensures values[|inputs|] == ClosedForm(d, values[0], inputs)
    decreases |inputs|
  {
    if inputs == [] {
      assert ClosedForm(d, values[0], []) == values[0];
    } else {
      var n := |inputs| - 1;
      var earlier, taken := values[..n + 1], inputs[..n];
      forall t: nat | t < n ensures DecayStep(d, earlier, taken, t) {
        assert DecayStep(d, values, inputs, t);
      }
      DecayClosedForm(d, earlier, taken);
      assert inputs == taken + [inputs[n]] && DecayStep(d, values, inputs, n);
      ClosedFormGrows(d, values[0], taken, inputs[n]);
    }
  }
}
