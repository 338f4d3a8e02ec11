// The leaky integrate-and-fire kernels and their scalar oracles
// (cu/spiking_network.cu:89-180; src/oracle.rs:388-506). The fused multiply-add is a parameter:
// device and oracle agree for every rounding of it.

module Lif {
  import opened Reals
  import opened Words
  import opened Launch
  import opened Strided

  const DECAY: real := 0.85
  const THRESHOLD: real := 1.0
  const RESET: real := 0.0
  const REFRACT_TICKS: u32 := 2

  // One neuron: potential, refractory counter, and the spike flag of the last tick.
  datatype Cell = Cell(v: real, refract: u32, spike: u32)

  function Next(fma: Fma, cell: Cell, current: real): Cell {
    if cell.refract > 0 then Cell(RESET, cell.refract - 1, 0)
    else
      var v := fma(DECAY, cell.v, current);
      if v >= THRESHOLD then Cell(RESET, REFRACT_TICKS, 1) else Cell(v, 0, 0)
  }

  // Input current in input-index order, one fused multiply-add per input.
  function Current(fma: Fma, w: seq<real>, x: seq<real>): real
    requires |w| == |x|
  {
    if w == [] then 0.0
    else
      var n := |w| - 1;
      fma(w[n], x[n], Current(fma, w[..n], x[..n]))
  }

  function Currents(fma: Fma, weights: seq<real>, x: seq<real>, n: nat): (currents: seq<real>)
    requires n * |x| <= |weights|
    ensures |currents| == n
  {
    seq(n, i requires 0 <= i < n => RowInside(i, n, |x|); Current(fma, Row(weights, i, |x|), x))
  }

  // One tick of the whole network.
  function Tick(fma: Fma, cells: seq<Cell>, currents: seq<real>): (after: seq<Cell>)
    requires |cells| <= |currents|
    ensures |after| == |cells|
  {
    seq(|cells|, i requires 0 <= i < |cells| => Next(fma, cells[i], currents[i]))
  }

  // ---- the buffers ----

  ghost function Cells(membrane: array<real>, refract: array<u32>, spikes: array<u32>, n: nat): (cells: seq<Cell>)
    requires n <= membrane.Length && n <= refract.Length && n <= spikes.Length
    reads membrane, refract, spikes
    ensures |cells| == n
  {
    seq(n, i requires 0 <= i < n reads membrane, refract, spikes
      requires n <= membrane.Length && n <= refract.Length && n <= spikes.Length
      => Cell(membrane[i], refract[i], spikes[i]))
  }

  // Whatever the buffers hold beyond the neurons.
  ghost function Rest(membrane: array<real>, refract: array<u32>, spikes: array<u32>, n: nat): (seq<real>, seq<u32>, seq<u32>)
    requires n <= membrane.Length && n <= refract.Length && n <= spikes.Length
    reads membrane, refract, spikes
  {
    (membrane[n..], refract[n..], spikes[n..])
  }

  ghost predicate Buffers(membrane: array<real>, refract: array<u32>, spikes: array<u32>, n: nat) {
    && n <= membrane.Length && n <= refract.Length && n <= spikes.Length
    && refract != spikes
  }

  // lif_update: one neuron of the oracle.
  method LifUpdate(fma: Fma, membrane: array<real>, refract: array<u32>, i: nat, current: real) returns (spike: u32)
    requires i < membrane.Length && i < refract.Length
    modifies membrane, refract
    ensures
      var next := Next(fma, Cell(old(membrane[i]), old(refract[i]), 0), current);
      && membrane[..] == old(membrane[..])[i := next.v]
      && refract[..] == old(refract[..])[i := next.refract]
      && spike == next.spike
  {
    if refract[i] > 0 {
      membrane[i] := RESET;
      refract[i] := refract[i] - 1;
      return 0;
    }
    var next := fma(DECAY, membrane[i], current);
    if next >= THRESHOLD {
      membrane[i] := RESET;
      refract[i] := REFRACT_TICKS;
      spike := 1;
    } else {
      membrane[i] := next;
      spike := 0;
    }
  }

  // acc = fma(row[j], x[j], acc) over a row, as the oracle computes it.
  method RowCurrent(fma: Fma, row: seq<real>, x: seq<real>) returns (acc: real)
    requires |row| == |x|
    ensures acc == Current(fma, row, x)
  {
    acc := 0.0;
    for j := 0 to |x|
      invariant acc == Current(fma, row[..j], x[..j])
    {
      acc := fma(row[j], x[j], acc);
      CurrentGrows(fma, row, x, j);
    }
    assert row[..|x|] == row && x[..|x|] == x;
  }

  lemma CurrentGrows(fma: Fma, w: seq<real>, x: seq<real>, j: nat)
    requires |w| == |x| && j < |w|
    ensures Current(fma, w[..j + 1], x[..j + 1]) == fma(w[j], x[j], Current(fma, w[..j], x[..j]))
  {
    assert w[..j + 1][..j] == w[..j] && x[..j + 1][..j] == x[..j];
  }

  // ---- kernels ----

  // The neurons of `done` have ticked, the others have not.
  ghost predicate Ticked(fma: Fma, before: seq<Cell>, after: seq<Cell>, currents: seq<real>, done: set<nat>) {
    && |before| == |after| && |before| <= |currents|
    && forall i: nat :: i < |before| ==> after[i] == if i in done then Next(fma, before[i], currents[i]) else before[i]
  }

  lemma TickOne(fma: Fma, before: seq<Cell>, after: seq<Cell>, later: seq<Cell>, currents: seq<real>, done: set<nat>, i: nat)
    requires Ticked(fma, before, after, currents, done) && i !in done
    requires later == if i < |after| then after[i := Next(fma, after[i], currents[i])] else after
    ensures Ticked(fma, before, later, currents, done + {i})
  {
  }

  // What both kernels do with a neuron once its current is known or irrelevant.
  method StoreTick(fma: Fma, membrane: array<real>, refract: array<u32>, spikes: array<u32>, n: nat, tid: nat, current: real)
    requires Buffers(membrane, refract, spikes, n) && tid < n
    modifies membrane, refract, spikes
    ensures Cells(membrane, refract, spikes, n)
         == old(Cells(membrane, refract, spikes, n))[tid := Next(fma, old(Cells(membrane, refract, spikes, n))[tid], current)]
    ensures Rest(membrane, refract, spikes, n) == old(Rest(membrane, refract, spikes, n))
  {
    var ref := refract[tid];
    var v := membrane[tid];
    var spike: u32 := 0;
    if ref > 0 {
      v := RESET;
      refract[tid] := ref - 1;
    } else {
      v := fma(DECAY, v, current);
      if v >= THRESHOLD {
        spike := 1;
        v := RESET;
        refract[tid] := REFRACT_TICKS;
      }
    }
    membrane[tid] := v;
    spikes[tid] := spike;
  }

  // The lif_step launch, any grid that covers the neurons, threads in any order.
  method LifStep(fma: Fma, membrane: array<real>, iExt: seq<real>, refract: array<u32>, spikes: array<u32>, n: nat,
                 threads: nat, order: seq<nat>)
    requires Buffers(membrane, refract, spikes, n) && n <= |iExt|
    requires IntGrid(order, threads, n)
    modifies membrane, refract, spikes
    ensures Cells(membrane, refract, spikes, n) == Tick(fma, old(Cells(membrane, refract, spikes, n)), iExt)
    ensures Rest(membrane, refract, spikes, n) == old(Rest(membrane, refract, spikes, n))
  {
    ghost var before := Cells(membrane, refract, spikes, n);
    ghost var done: set<nat> := {};
    for s := 0 to |order|
      invariant forall t: nat :: t in done <==> Ran(order, s, t)
      invariant Ticked(fma, before, Cells(membrane, refract, spikes, n), iExt, done)
      invariant Rest(membrane, refract, spikes, n) == old(Rest(membrane, refract, spikes, n))
    {
      ThreadIdIsPlain(order[s]);
      var tid: nat := ThreadId(order[s]);
      RanStep(order, threads, s);
      ghost var now := Cells(membrane, refract, spikes, n);
      if tid < n {
        StoreTick(fma, membrane, refract, spikes, n, tid, iExt[tid]);
      }
      TickOne(fma, before, now, Cells(membrane, refract, spikes, n), iExt, done, tid);
      done := done + {tid};
    }
    RanAll(order, threads);
  }

  // Staging of the inputs into the block's shared memory: thread t copies t, t + blockDim, ...
  method Stage(input: seq<real>, shared: array<real>, blockDim: nat, t: nat)
    requires |input| <= shared.Length && t < blockDim && |input| + blockDim <= TWO31
    modifies shared
    ensures Written(old(shared[..]), shared[..], input, Visited(t, blockDim, |input|))
  {
    ghost var before := shared[..];
    VisitedStart(t, blockDim, Min(t, |input|));
    var i: int := t;
    while i < |input|
      invariant 0 <= i && i % blockDim == t
      invariant Written(before, shared[..], input, Visited(t, blockDim, Min(i, |input|)))
      decreases |input| - i
    {
      VisitedStep(t, blockDim, i, Min(i + blockDim, |input|));
      WrittenStep(before, shared[..], input, Visited(t, blockDim, i), i);
      shared[i] := input[i];
      NextIndexIsPlain(i, blockDim);
      i := NextIndex(i, blockDim);
    }
  }

  // Everything before the barrier, threads in any order: the shared copy is complete.
  method StagePhase(input: seq<real>, shared: array<real>, blockDim: nat, order: seq<nat>)
    requires |input| <= shared.Length && 0 < blockDim && |input| + blockDim <= TWO31 && Schedule(order, blockDim)
    modifies shared
    ensures shared[..|input|] == input
  {
    for s := 0 to |order|
      invariant forall t: nat :: Ran(order, s, t) ==> ThreadStored(input, shared[..], blockDim, t)
    {
      var t := order[s];
      RanStep(order, blockDim, s);
      ghost var before := shared[..];
      Stage(input, shared, blockDim, t);
      ThreadStores(input, before, shared[..], blockDim, t);
    }
    RanAll(order, blockDim);
    AllThreadsStored(input, shared[..], blockDim);
  }

  // lif_step_oracle
  method LifStepOracle(fma: Fma, membrane: array<real>, iExt: seq<real>, refract: array<u32>) returns (spikes: array<u32>)
    requires |iExt| == membrane.Length == refract.Length
    modifies membrane, refract
    ensures fresh(spikes) && spikes.Length == membrane.Length
    ensures Cells(membrane, refract, spikes, membrane.Length) == Tick(fma, old(Unspiked(membrane[..], refract[..])), iExt)
  {
    var n := membrane.Length;
    spikes := new u32[n](_ => 0);
    ghost var before := Unspiked(membrane[..], refract[..]);
    ghost var done: set<nat> := {};
    for i := 0 to n
      invariant forall t: nat :: t in done <==> t < i
      invariant Ticked(fma, before, Cells(membrane, refract, spikes, n), iExt, done)
    {
      ghost var now := Cells(membrane, refract, spikes, n);
      spikes[i] := LifUpdate(fma, membrane, refract, i, iExt[i]);
      TickOne(fma, before, now, Cells(membrane, refract, spikes, n), iExt, done, i);
      done := done + {i};
    }
  }

  // Neurons as the oracle finds them, without spike flags.
  ghost function Unspiked(v: seq<real>, refract: seq<u32>): (cells: seq<Cell>)
    requires |v| == |refract|
    ensures |cells| == |v|
  {
    seq(|v|, i requires 0 <= i < |v| => Cell(v[i], refract[i], 0))
  }

  // The flags left by the previous tick do not matter, so kernel and oracle tick alike.
  lemma TickIgnoresFlags(fma: Fma, cells: seq<Cell>, v: seq<real>, refract: seq<u32>, currents: seq<real>)
    requires |cells| == |v| == |refract| <= |currents|
    requires forall i :: 0 <= i < |cells| ==> cells[i].v == v[i] && cells[i].refract == refract[i]
    ensures Tick(fma, cells, currents) == Tick(fma, Unspiked(v, refract), currents)
  {
    assert forall i :: 0 <= i < |cells| ==> Next(fma, cells[i], currents[i]) == Next(fma, Unspiked(v, refract)[i], currents[i]);
  }
}
