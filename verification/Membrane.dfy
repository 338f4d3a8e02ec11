// Sum and maximum of the membrane rates of change, reduced in two launches
// (cu/spiking_network.cu:355-399, :470-514).

module Membrane {
  import opened Reals
  import opened Folds
  import opened GridReduce

  type NonNeg = x: real | x >= 0.0

  // Sum and maximum reduced side by side.
  datatype Change = Change(sum: NonNeg, max: NonNeg)

  const NONE: Change := Change(0.0, 0.0)

  function Max(a: NonNeg, b: NonNeg): NonNeg {
    if a >= b then a else b
  }

  function Combine(a: Change, b: Change): Change {
    Change(a.sum + b.sum, Max(a.max, b.max))
  }

  lemma CombineIsMonoid()
    ensures Monoid(Combine, NONE)
  {
    forall x, y ensures Commutes(Combine, x, y) {}
    forall x, y, z ensures Associates(Combine, x, y, z) {}
    forall x ensures Neutral(Combine, NONE, x) {}
  }

  function InverseTime(dt: real): (inv: NonNeg)
    ensures inv > 0.0
  {
    1.0 / (if Abs(dt) >= SHIP_EPS then Abs(dt) else SHIP_EPS)
  }

  function Rate(before: real, now: real, dt: real): NonNeg {
    RateNonNegative(Abs(now - before), InverseTime(dt));
    Abs(now - before) * InverseTime(dt)
  }

  lemma RateNonNegative(a: NonNeg, inv: NonNeg)
    ensures a * inv >= 0.0
    ensures inv > 0.0 ==> (a * inv == 0.0 <==> a == 0.0)
  {
  }

  // A rate is the change per time, or per 1e-8 when the time is shorter than that.
  lemma RateMeaning(before: real, now: real, dt: real)
    ensures
      var change := if now >= before then now - before else before - now;
      && (dt >= 0.00000001 ==> Rate(before, now, dt) * dt == change)
      && (dt <= -0.00000001 ==> Rate(before, now, dt) * -dt == change)
      && (-0.00000001 < dt < 0.00000001 ==> Rate(before, now, dt) * 0.00000001 == change)
  {
    var time := if Abs(dt) >= 0.00000001 then Abs(dt) else 0.00000001;
    InverseTimes(Abs(now - before), InverseTime(dt), time);
  }

  lemma InverseTimes(change: real, inverse: real, time: real)
    requires time > 0.0 && inverse == 1.0 / time
    ensures change * inverse * time == change
  {
    assert inverse * time == 1.0;
    assert change * inverse * time == change * (inverse * time);
  }

  function Rates(before: seq<real>, now: seq<real>, dt: real): (rates: seq<Change>)
    requires |before| == |now|
    ensures |rates| == |now|
  {
    seq(|now|, i requires 0 <= i < |now| => Change(Rate(before[i], now[i], dt), Rate(before[i], now[i], dt)))
  }

  // Both launches, for every grid that covers the neurons.
  method MembraneChange(before: seq<real>, now: seq<real>, dt: real, shape: GridShape) returns (change: Change)
    requires |before| == |now| && Covers(shape, |now|)
    ensures change == Fold(Combine, NONE, Rates(before, now, dt))
  {
    CombineIsMonoid();
    change := TwoPassReduce(Combine, NONE, Rates(before, now, dt), shape);
  }

  // The sum in neuron order.
  function RateSum(before: seq<real>, now: seq<real>, dt: real): NonNeg
    requires |before| == |now|
  {
    if now == [] then 0.0 else Rate(before[0], now[0], dt) + RateSum(before[1..], now[1..], dt)
  }

  lemma {:induction false} FoldIsSumAndMax(before: seq<real>, now: seq<real>, dt: real)
    requires |before| == |now|
    ensures
      var change := Fold(Combine, NONE, Rates(before, now, dt));
      && change.sum == RateSum(before, now, dt)
      && (forall i :: 0 <= i < |now| ==> Rate(before[i], now[i], dt) <= change.max)
      && (now != [] ==> exists i :: 0 <= i < |now| && Rate(before[i], now[i], dt) == change.max)
      && (now == [] ==> change.max == 0.0)
  {
    if now != [] {
      FoldIsSumAndMax(before[1..], now[1..], dt);
      var rest := Fold(Combine, NONE, Rates(before[1..], now[1..], dt));
      var first := Rate(before[0], now[0], dt);
      assert Rates(before, now, dt)[1..] == Rates(before[1..], now[1..], dt);
      assert Fold(Combine, NONE, Rates(before, now, dt)) == Change(first + rest.sum, Max(first, rest.max));
      if first < rest.max {
        var i :| 0 <= i < |now| - 1 && Rate(before[1..][i], now[1..][i], dt) == rest.max;
        assert Rate(before[i + 1], now[i + 1], dt) == rest.max;
      }
      forall i | 0 <= i < |now| ensures Rate(before[i], now[i], dt) <= Max(first, rest.max) {
        if i > 0 {
          assert before[i] == before[1..][i - 1] && now[i] == now[1..][i - 1];
        }
      }
    }
  }

  // Both results are zero exactly when no membrane moved.
  lemma ZeroExactlyWhenStill(before: seq<real>, now: seq<real>, dt: real)
    requires |before| == |now|
    ensures Fold(Combine, NONE, Rates(before, now, dt)).max == 0.0 <==> before == now
    ensures Fold(Combine, NONE, Rates(before, now, dt)).sum == 0.0 <==> before == now
  {
    FoldIsSumAndMax(before, now, dt);
    SumIsZero(before, now, dt);
    forall i | 0 <= i < |now| ensures Rate(before[i], now[i], dt) == 0.0 <==> before[i] == now[i] {
      RateNonNegative(Abs(now[i] - before[i]), InverseTime(dt));
    }
  }

  lemma {:induction false} SumIsZero(before: seq<real>, now: seq<real>, dt: real)
    requires |before| == |now|
    ensures RateSum(before, now, dt) == 0.0 <==> before == now
  {
    if now != [] {
      RateNonNegative(Abs(now[0] - before[0]), InverseTime(dt));
      SumIsZero(before[1..], now[1..], dt);
      assert before == [before[0]] + before[1..] && now == [now[0]] + now[1..];
    }
  }
}
