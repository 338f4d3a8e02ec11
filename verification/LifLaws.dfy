// What the membrane does between spikes, in exact arithmetic (cu/spiking_network.cu:100-118,
// :161-177; src/oracle.rs:363-412).

module LifLaws {
  import opened Reals
  import opened Launch
  import opened Lif
  import opened LifRun

  ghost predicate SpikeFree(cells: seq<Cell>) {
    forall t: nat :: t + 1 < |cells| ==> !SpikesIn(cells, t)
  }

  // A neuron that may integrate and does not spike goes on integrating.
  lemma {:induction false} StaysReady(fma: Fma, cells: seq<Cell>, drive: seq<real>, t: nat)
    requires Trajectory(fma, cells, drive) && cells[0].refract == 0 && SpikeFree(cells) && t < |cells|
    ensures cells[t].refract == 0
    decreases t
  {
    if t > 0 {
      StaysReady(fma, cells, drive, t - 1);
      assert cells[t - 1 + 1] == Next(fma, cells[t - 1], drive[t - 1]);
      assert !SpikesIn(cells, t - 1);
    }
  }

  // A refractory neuron is held at reset, whatever its potential and input, and counts down.
  lemma RefractoryHeld(fma: Fma, cells: seq<Cell>, drive: seq<real>, t: nat)
    requires Trajectory(fma, cells, drive) && t < |drive| && cells[t].refract > 0
    ensures cells[t + 1] == Cell(0.0, cells[t].refract - 1, 0)
  {
    assert cells[t + 1] == Next(fma, cells[t], drive[t]);
  }

  function Potentials(cells: seq<Cell>): (values: seq<real>)
    ensures |values| == |cells|
  {
    seq(|cells|, t requires 0 <= t < |cells| => cells[t].v)
  }

  lemma PotentialStep(fma: Fma, cells: seq<Cell>, drive: seq<real>, t: nat)
    requires Exact(fma) && Trajectory(fma, cells, drive) && cells[0].refract == 0 && SpikeFree(cells) && t < |drive|
    ensures DecayStep(0.85, Potentials(cells), drive, t)
  {
    StaysReady(fma, cells, drive, t);
    assert cells[t + 1] == Next(fma, cells[t], drive[t]) && !SpikesIn(cells, t);
    assert fma(0.85, cells[t].v, drive[t]) == 0.85 * cells[t].v + drive[t];
  }

  // Over T ticks without a spike: v_T = 0.85^T * v_0 + the sum of 0.85^(T-1-j) * I_j.
  lemma PotentialInClosedForm(fma: Fma, cells: seq<Cell>, drive: seq<real>)
    requires Exact(fma) && Trajectory(fma, cells, drive) && cells[0].refract == 0 && SpikeFree(cells)
    ensures cells[|drive|].v == Pow(0.85, |drive|) * cells[0].v + DecayedSum(0.85, drive)
  {
    forall t: nat | t < |drive| ensures DecayStep(0.85, Potentials(cells), drive, t) {
      PotentialStep(fma, cells, drive, t);
    }
    DecayClosedForm(0.85, Potentials(cells), drive);
  }

  lemma SpikeTest(fma: Fma, cell: Cell, current: real, potential: real)
    requires Exact(fma) && cell.refract == 0 && potential == 0.85 * cell.v + current
    ensures Next(fma, cell, current).spike == 1 <==> potential >= 1.0
  {
    assert fma(0.85, cell.v, current) == 0.85 * cell.v + current;
  }

  // The next tick spikes exactly when that sum, carried one tick on, reaches 1.
  lemma SpikesExactly(fma: Fma, cells: seq<Cell>, drive: seq<real>, current: real)
    requires Exact(fma) && Trajectory(fma, cells, drive) && cells[0].refract == 0 && SpikeFree(cells)
    ensures Next(fma, cells[|drive|], current).spike == 1 <==> ClosedForm(0.85, cells[0].v, drive + [current]) >= 1.0
  {
    var n := |drive|;
    StaysReady(fma, cells, drive, n);
    PotentialInClosedForm(fma, cells, drive);
    ClosedFormGrows(0.85, cells[0].v, drive, current);
    SpikeTest(fma, cells[n], current, ClosedForm(0.85, cells[0].v, drive + [current]));
  }

  // The same for a neuron of a network whose launches have run.
  lemma NeuronInClosedForm(fma: Fma, nets: seq<seq<Cell>>, currents: seq<seq<real>>, n: nat, i: nat)
    requires Exact(fma) && Evolution(fma, nets, currents, n) && i < n
    requires nets[0][i].refract == 0 && SpikeFree(OfNeuron(nets, i))
    ensures OfNeuron(nets, i)[|currents|].v == ClosedForm(0.85, OfNeuron(nets, i)[0].v, OfNeuron(currents, i))
  {
    NeuronTrajectory(fma, nets, currents, n, i);
    PotentialInClosedForm(fma, OfNeuron(nets, i), OfNeuron(currents, i));
  }

  // ---- input currents ----

  lemma {:induction false} CurrentIsDot(fma: Fma, w: seq<real>, x: seq<real>)
    requires Exact(fma) && |w| == |x|
    ensures Current(fma, w, x) == FlatDot(w, 0, x, 0, |w|)
    decreases |w|
  {
    if w != [] {
      var n := |w| - 1;
      CurrentIsDot(fma, w[..n], x[..n]);
      FlatDotOfSlices(w, 0, x, 0, n, n);
      assert w[0..0 + n] == w[..n] && x[0..0 + n] == x[..n];
      assert fma(w[n], x[n], Current(fma, w[..n], x[..n])) == w[n] * x[n] + Current(fma, w[..n], x[..n]);
    }
  }

  // Neuron i receives the product of row i of the weights with the inputs.
  lemma CurrentsAreDots(fma: Fma, weights: seq<real>, x: seq<real>, n: nat, i: nat)
    requires Exact(fma) && n * |x| <= |weights| && i < n
    ensures 0 <= i * |x| <= i * |x| + |x| <= |weights|
    ensures Currents(fma, weights, x, n)[i] == FlatDot(weights, i * |x|, x, 0, |x|)
  {
    RowInside(i, n, |x|);
    CurrentIsDot(fma, Row(weights, i, |x|), x);
    FlatDotOfSlices(weights, i * |x|, x, 0, |x|, |x|);
    assert x[0..0 + |x|] == x;
  }

  // ---- constant currents ----

  function Steady(c: real, n: nat): (drive: seq<real>)
    ensures |drive| == n && forall t :: 0 <= t < n ==> drive[t] == c
  {
    seq(n, _ => c)
  }

  ghost function Run(fma: Fma, start: Cell, drive: seq<real>): (cells: seq<Cell>)
    ensures |cells| == |drive| + 1 && cells[0] == start && Trajectory(fma, cells, drive)
    decreases |drive|
  {
    if drive == [] then [start]
    else
      var n := |drive| - 1;
      var before := Run(fma, start, drive[..n]);
      before + [Next(fma, before[n], drive[n])]
  }

  // From rest, a spike falls within the first T ticks of a constant current.
  ghost predicate SpikesWithin(fma: Fma, c: real, T: nat) {
    exists t: nat :: t < T && SpikesIn(Run(fma, Cell(0.0, 0, 0), Steady(c, T)), t)
  }

  lemma {:induction false} WeakDrive(fma: Fma, cells: seq<Cell>, drive: seq<real>, c: real, t: nat)
    requires Exact(fma) && Trajectory(fma, cells, drive) && cells[0] == Cell(0.0, 0, 0) && drive == Steady(c, |drive|)
    requires c <= 0.15 && t <= |drive|
    ensures cells[t].v < 1.0 && cells[t].refract == 0 && cells[t].spike == 0
    decreases t
  {
    if t > 0 {
      WeakDrive(fma, cells, drive, c, t - 1);
      assert cells[t - 1 + 1] == Next(fma, cells[t - 1], drive[t - 1]);
      assert fma(0.85, cells[t - 1].v, c) == 0.85 * cells[t - 1].v + c;
    }
  }

  // While nothing spikes the potential rises by at least c - 0.15 in every tick.
  lemma {:induction false} StrongDriveRises(fma: Fma, cells: seq<Cell>, drive: seq<real>, c: real, t: nat)
    requires Exact(fma) && Trajectory(fma, cells, drive) && cells[0] == Cell(0.0, 0, 0) && drive == Steady(c, |drive|)
    requires SpikeFree(cells) && t <= |drive|
    ensures cells[t].v < 1.0 && cells[t].v >= t as real * (c - 0.15)
    decreases t
  {
    if t > 0 {
      StrongDriveRises(fma, cells, drive, c, t - 1);
      StaysReady(fma, cells, drive, t - 1);
      assert cells[t - 1 + 1] == Next(fma, cells[t - 1], drive[t - 1]) && !SpikesIn(cells, t - 1);
      assert fma(0.85, cells[t - 1].v, c) == 0.85 * cells[t - 1].v + c;
      assert t as real * (c - 0.15) == (t - 1) as real * (c - 0.15) + (c - 0.15);
    }
  }

  // Under a constant current a resting neuron ever spikes exactly when the current exceeds 0.15,
  // what one tick of decay takes from a membrane at the threshold.
  lemma ConstantDriveSpikes(fma: Fma, c: real)
    requires Exact(fma)
    ensures (exists T: nat :: SpikesWithin(fma, c, T)) <==> c > 0.15
  {
    if c > 0.15 {
      var n := EnoughSteps(c - 0.15);
      var drive := Steady(c, n);
      var cells := Run(fma, Cell(0.0, 0, 0), drive);
      if SpikeFree(cells) {
        StrongDriveRises(fma, cells, drive, c, n);
        assert false;
      }
      var t: nat :| t + 1 < |cells| && SpikesIn(cells, t);
      assert SpikesWithin(fma, c, n);
    } else if T: nat :| SpikesWithin(fma, c, T) {
      var drive := Steady(c, T);
      var cells := Run(fma, Cell(0.0, 0, 0), drive);
      var t: nat :| t < T && SpikesIn(cells, t);
      WeakDrive(fma, cells, drive, c, t + 1);
      assert false;
    }
  }

  lemma EnoughSteps(gain: real) returns (n: nat)
    requires gain > 0.0
    ensures n as real * gain >= 1.0
  {
    n := (1.0 / gain).Floor + 1;
    assert n as real >= 1.0 / gain;
    assert 1.0 / gain * gain == 1.0;
  }
}
