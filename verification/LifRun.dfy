// Whole runs of LIF ticks: refractory behaviour and firing rate (src/oracle.rs:363-411).

module LifRun {
  import opened Reals
  import opened Words
  import opened Lif
  import opened LifWeighted

  // cells[t] is the neuron before tick t, drive[t] its input current in that tick.
  ghost predicate Trajectory(fma: Fma, cells: seq<Cell>, drive: seq<real>) {
    && |cells| == |drive| + 1
    && forall t :: 0 <= t < |drive| ==> cells[t + 1] == Next(fma, cells[t], drive[t])
  }

  ghost predicate SpikesIn(cells: seq<Cell>, t: nat)
    requires t + 1 < |cells|
  {
    cells[t + 1].spike == 1
  }

  // A spike in tick t: held at reset for ticks t+1 and t+2, integrating from reset in tick t+3.
  lemma AfterSpike(fma: Fma, cells: seq<Cell>, drive: seq<real>, t: nat)
    requires Trajectory(fma, cells, drive) && t < |drive| && SpikesIn(cells, t)
    ensures t + 1 < |drive| ==> cells[t + 2] == Cell(0.0, 1, 0)
    ensures t + 2 < |drive| ==> cells[t + 3] == Cell(0.0, 0, 0)
  {
    assert cells[t + 1] == Next(fma, cells[t], drive[t]);
    if t + 1 < |drive| {
      assert cells[t + 2] == Next(fma, cells[t + 1], drive[t + 1]);
    }
    if t + 2 < |drive| {
      assert cells[t + 3] == Next(fma, cells[t + 2], drive[t + 2]);
    }
  }

  lemma SpikesApart(fma: Fma, cells: seq<Cell>, drive: seq<real>, s: nat, t: nat)
    requires Trajectory(fma, cells, drive) && s < t < |drive| && SpikesIn(cells, s) && SpikesIn(cells, t)
    ensures t >= s + 3
  {
    AfterSpike(fma, cells, drive, s);
  }

  // Every updated membrane is below threshold, and the counter runs down to the 0..2 range.
  lemma {:induction false} CounterAndMembrane(fma: Fma, cells: seq<Cell>, drive: seq<real>, t: nat)
    requires Trajectory(fma, cells, drive) && t < |cells|
    ensures t > 0 ==> cells[t].v < 1.0 && cells[t].spike <= 1
    ensures cells[t].refract <= 2 || cells[t].refract == cells[0].refract - t
    decreases t
  {
    if t > 0 {
      CounterAndMembrane(fma, cells, drive, t - 1);
      assert cells[t - 1 + 1] == Next(fma, cells[t - 1], drive[t - 1]);
    }
  }

  // ---- firing rate ----

  function SpikeCount(cells: seq<Cell>): (count: nat) {
    if |cells| <= 1 then 0
    else SpikeCount(cells[..|cells| - 1]) + if cells[|cells| - 1].spike == 1 then 1 else 0
  }

  lemma {:induction false} CountSplit(cells: seq<Cell>, mid: nat)
    requires mid < |cells|
    ensures SpikeCount(cells) == SpikeCount(cells[..mid + 1]) + SpikeCount(cells[mid..])
    decreases |cells|
  {
    if mid + 1 == |cells| {
      assert cells[..mid + 1] == cells;
    } else {
      var n := |cells| - 1;
      CountSplit(cells[..n], mid);
      assert cells[..n][..mid + 1] == cells[..mid + 1];
      assert cells[..n][mid..] == cells[mid..][..n - mid];
    }
  }

  lemma {:induction false} NoSpikes(cells: seq<Cell>)
    requires forall t :: 1 <= t < |cells| ==> cells[t].spike != 1
    ensures SpikeCount(cells) == 0
    decreases |cells|
  {
    if |cells| > 1 {
      NoSpikes(cells[..|cells| - 1]);
    }
  }

  // At most one spike in any three consecutive ticks.
  lemma {:induction false} OneInThree(fma: Fma, cells: seq<Cell>, drive: seq<real>)
    requires Trajectory(fma, cells, drive) && |drive| <= 3
    ensures SpikeCount(cells) <= 1
  {
    if n: nat :| n < |drive| && SpikesIn(cells, n) {
      forall t: nat | t < |drive| && SpikesIn(cells, t) ensures t == n {
        if t < n { SpikesApart(fma, cells, drive, t, n); }
        if n < t { SpikesApart(fma, cells, drive, n, t); }
      }
      OnlySpike(cells, n);
    } else {
      forall t | 1 <= t < |cells| ensures cells[t].spike != 1 {
        assert !SpikesIn(cells, t - 1);
      }
      NoSpikes(cells);
    }
  }

  lemma OnlySpike(cells: seq<Cell>, n: nat)
    requires n + 1 < |cells| && forall t: nat :: t + 1 < |cells| && SpikesIn(cells, t) ==> t == n
    ensures SpikeCount(cells) <= 1
  {
    forall t | 1 <= t < |cells| && t != n + 1 ensures cells[t].spike != 1 {
      assert !SpikesIn(cells, t - 1);
    }
    AtMostAt(cells, n + 1);
  }

  lemma {:induction false} AtMostAt(cells: seq<Cell>, at: nat)
    requires forall t :: 1 <= t < |cells| && t != at ==> cells[t].spike != 1
    ensures SpikeCount(cells) <= 1
    decreases |cells|
  {
    if |cells| > 1 {
      if at == |cells| - 1 {
        NoSpikes(cells[..at]);
      } else {
        AtMostAt(cells[..|cells| - 1], at);
      }
    }
  }

  // T ticks hold at most ceil(T / 3) spikes.
  lemma {:induction false} RateBound(fma: Fma, cells: seq<Cell>, drive: seq<real>)
    requires Trajectory(fma, cells, drive)
    ensures SpikeCount(cells) <= CeilDiv(|drive|, 3)
    decreases |drive|
  {
    if |drive| <= 3 {
      OneInThree(fma, cells, drive);
      if |drive| == 0 {
        NoSpikes(cells);
      }
    } else {
      CountSplit(cells, 3);
      OneInThree(fma, cells[..4], drive[..3]);
      RateBound(fma, cells[3..], drive[3..]);
    }
  }

  // Every integrated potential reaches the threshold.
  ghost predicate StrongDrive(fma: Fma, start: Cell, drive: seq<real>) {
    && (forall t :: 0 <= t < |drive| ==> fma(DECAY, RESET, drive[t]) >= 1.0)
    && (drive != [] ==> fma(DECAY, start.v, drive[0]) >= 1.0)
  }

  // The bound is met under such a drive.
  lemma {:induction false} RateBoundIsTight(fma: Fma, cells: seq<Cell>, drive: seq<real>)
    requires Trajectory(fma, cells, drive) && cells[0].refract == 0 && StrongDrive(fma, cells[0], drive)
    ensures SpikeCount(cells) == CeilDiv(|drive|, 3)
    decreases |drive|
  {
    if drive == [] {
      NoSpikes(cells);
    } else {
      assert cells[0 + 1] == Next(fma, cells[0], drive[0]);
      assert SpikesIn(cells, 0);
      AfterSpike(fma, cells, drive, 0);
      var head := if |drive| < 3 then |drive| else 3;
      FirstOnly(cells, head);
      if |drive| >= 3 {
        CountSplit(cells, 3);
        assert cells[3] == Cell(0.0, 0, 0);
        RateBoundIsTight(fma, cells[3..], drive[3..]);
      } else {
        assert cells[..head + 1] == cells;
      }
    }
  }

  lemma FirstOnly(cells: seq<Cell>, head: nat)
    requires 1 <= head < |cells| && cells[1].spike == 1
    requires forall t :: 2 <= t <= head ==> cells[t].spike != 1
    ensures SpikeCount(cells[..head + 1]) == 1
  {
    var part := cells[..head + 1];
    CountSplit(part, 1);
    NoSpikes(part[1..]);
    assert |part[..2]| == 2 && part[..2][..1] == [part[0]];
  }

  // ---- networks ----

  // nets[t] is the network before tick t.
  ghost predicate Evolution(fma: Fma, nets: seq<seq<Cell>>, currents: seq<seq<real>>, n: nat) {
    && |nets| == |currents| + 1
    && (forall t :: 0 <= t < |nets| ==> |nets[t]| == n)
    && (forall t :: 0 <= t < |currents| ==> |currents[t]| >= n)
    && forall t :: 0 <= t < |currents| ==> nets[t + 1] == Tick(fma, nets[t], currents[t])
  }

  // What one neuron goes through, tick by tick.
  ghost function OfNeuron<T>(ticks: seq<seq<T>>, i: nat): (history: seq<T>)
    requires forall t :: 0 <= t < |ticks| ==> i < |ticks[t]|
    ensures |history| == |ticks|
  {
    seq(|ticks|, t requires 0 <= t < |ticks| => ticks[t][i])
  }

  lemma NeuronTrajectory(fma: Fma, nets: seq<seq<Cell>>, currents: seq<seq<real>>, n: nat, i: nat)
    requires Evolution(fma, nets, currents, n) && i < n
    ensures Trajectory(fma, OfNeuron(nets, i), OfNeuron(currents, i))
  {
  }


  function TickCurrents(fma: Fma, weights: seq<real>, inputs: seq<seq<real>>, nInputs: nat, n: nat): (currents: seq<seq<real>>)
    requires n * nInputs <= |weights| && forall t :: 0 <= t < |inputs| ==> |inputs[t]| == nInputs
    ensures |currents| == |inputs|
  {
    seq(|inputs|, t requires 0 <= t < |inputs| => Currents(fma, weights, inputs[t], n))
  }

  // Weighted launches one after another, each with its own inputs and thread orders.
  method RunWeighted(fma: Fma, membrane: array<real>, weights: seq<real>, inputs: seq<seq<real>>, nInputs: nat,
                     refract: array<u32>, spikes: array<u32>, n: nat, grids: seq<WeightedGrid>)
      returns (ghost nets: seq<seq<Cell>>)
    requires Buffers(membrane, refract, spikes, n) && n * nInputs <= |weights|
    requires |grids| == |inputs|
    requires forall t :: 0 <= t < |inputs| ==>
      |inputs[t]| == nInputs && GridFits(grids[t], n) && nInputs + grids[t].blockDim <= TWO31
    modifies membrane, refract, spikes
    ensures Evolution(fma, nets, TickCurrents(fma, weights, inputs, nInputs, n), n)
    ensures nets[0] == old(Cells(membrane, refract, spikes, n))
    ensures nets[|inputs|] == Cells(membrane, refract, spikes, n)
  {
    ghost var currents := TickCurrents(fma, weights, inputs, nInputs, n);
    nets := [Cells(membrane, refract, spikes, n)];
    for t := 0 to |inputs|
      invariant Evolution(fma, nets, currents[..t], n)
      invariant nets[0] == old(Cells(membrane, refract, spikes, n)) && nets[t] == Cells(membrane, refract, spikes, n)
    {
      LifStepWeighted(fma, membrane, weights, inputs[t], refract, spikes, n, grids[t]);
      EvolutionGrows(fma, nets, currents, n, t);
      nets := nets + [Cells(membrane, refract, spikes, n)];
    }
    assert currents[..|inputs|] == currents;
  }

  lemma EvolutionGrows(fma: Fma, nets: seq<seq<Cell>>, currents: seq<seq<real>>, n: nat, t: nat)
    requires t < |currents| && |currents[t]| >= n && Evolution(fma, nets, currents[..t], n)
    ensures Evolution(fma, nets + [Tick(fma, nets[t], currents[t])], currents[..t + 1], n)
  {
  }

  // In every such run each neuron keeps the rate bound, its refractory pause and its potential
  // below threshold.
  lemma NeuronInRun(fma: Fma, nets: seq<seq<Cell>>, currents: seq<seq<real>>, n: nat, i: nat)
    requires Evolution(fma, nets, currents, n) && i < n
    ensures SpikeCount(OfNeuron(nets, i)) <= CeilDiv(|currents|, 3)
    ensures forall t :: 0 < t <= |currents| ==> nets[t][i].v < 1.0
    ensures nets[0][i].refract <= 2 ==> forall t :: 0 <= t <= |currents| ==> nets[t][i].refract <= 2
    ensures forall s, t :: 0 < s < t <= |currents| && nets[s][i].spike == 1 && nets[t][i].spike == 1 ==> t >= s + 3
  {
    NeuronTrajectory(fma, nets, currents, n, i);
    var cells, drive := OfNeuron(nets, i), OfNeuron(currents, i);
    RateBound(fma, cells, drive);
    forall t: nat | t <= |currents|
      ensures (t > 0 ==> nets[t][i].v < 1.0) && (nets[0][i].refract <= 2 ==> nets[t][i].refract <= 2)
    {
      CounterAndMembrane(fma, cells, drive, t);
    }
    forall s: nat, t: nat | 0 < s < t <= |currents| && nets[s][i].spike == 1 && nets[t][i].spike == 1 ensures t >= s + 3 {
      SpikesApart(fma, cells, drive, s - 1, t - 1);
    }
  }
}
