// lif_step_weighted against its oracle (cu/spiking_network.cu:138-180; src/oracle.rs:463-506).

module LifWeighted {
  import opened Reals
  import opened Words
  import opened Launch
  import opened Lif

  lemma NextIgnoresCurrent(fma: Fma, cell: Cell, a: real, b: real)
    requires cell.refract > 0
    ensures Next(fma, cell, a) == Next(fma, cell, b)
  {
  }

  // The current of neuron `tid`; a refractory neuron skips the dot product.
  method NeuronCurrent(fma: Fma, weights: seq<real>, x: seq<real>, refractory: bool, n: nat, tid: nat) returns (current: real)
    requires n * |x| <= |weights| && tid < n
    ensures !refractory ==> current == Currents(fma, weights, x, n)[tid]
  {
    current := 0.0;
    if !refractory {
      RowInside(tid, n, |x|);
      current := RowCurrent(fma, Row(weights, tid, |x|), x);
    }
  }

  // One thread after the barrier.
  method WeightedThread(fma: Fma, membrane: array<real>, weights: seq<real>, x: seq<real>, refract: array<u32>,
                        spikes: array<u32>, n: nat, tid: nat)
    requires Buffers(membrane, refract, spikes, n) && n * |x| <= |weights|
    modifies membrane, refract, spikes
    ensures
      var before := old(Cells(membrane, refract, spikes, n));
      Cells(membrane, refract, spikes, n)
        == if tid < n then before[tid := Next(fma, before[tid], Currents(fma, weights, x, n)[tid])] else before
    ensures Rest(membrane, refract, spikes, n) == old(Rest(membrane, refract, spikes, n))
  {
    if tid < n {
      ghost var cell := Cells(membrane, refract, spikes, n)[tid];
      var current := NeuronCurrent(fma, weights, x, refract[tid] > 0, n, tid);
      if refract[tid] > 0 {
        NextIgnoresCurrent(fma, cell, current, Currents(fma, weights, x, n)[tid]);
      }
      StoreTick(fma, membrane, refract, spikes, n, tid, current);
    }
  }

  // ---- one block ----

  ghost predicate InBlock(block: nat, blockDim: nat, tid: nat)
    requires blockDim > 0
  {
    tid / blockDim == block
  }

  // Global thread ids of the threads of `block` that have run.
  ghost predicate RanIn(order: seq<nat>, s: nat, block: nat, blockDim: nat, tid: nat)
    requires s <= |order| && blockDim > 0
  {
    InBlock(block, blockDim, tid) && Ran(order, s, tid % blockDim)
  }

  lemma RanInStep(order: seq<nat>, s: nat, block: nat, blockDim: nat, tid: nat)
    requires 0 < blockDim && Schedule(order, blockDim) && s < |order|
    ensures 0 <= block * blockDim + order[s]
    ensures RanIn(order, s + 1, block, blockDim, tid)
       <==> RanIn(order, s, block, blockDim, tid) || tid == block * blockDim + order[s]
    ensures !RanIn(order, s, block, blockDim, block * blockDim + order[s])
  {
    RanStep(order, blockDim, s);
    DivModUnique(block * blockDim + order[s], blockDim, block, order[s]);
    assert tid == tid / blockDim * blockDim + tid % blockDim;
  }

  lemma RanInAll(order: seq<nat>, block: nat, blockDim: nat, tid: nat)
    requires 0 < blockDim && Schedule(order, blockDim)
    ensures RanIn(order, |order|, block, blockDim, tid) <==> InBlock(block, blockDim, tid)
  {
    RanAll(order, blockDim);
    assert tid % blockDim < blockDim;
  }

  // The phase after the barrier: the block's neurons tick on the inputs they find in shared memory.
  method ComputePhase(fma: Fma, membrane: array<real>, weights: seq<real>, x: seq<real>, refract: array<u32>,
                      spikes: array<u32>, n: nat, block: nat, blockDim: nat, order: seq<nat>,
                      ghost start: seq<Cell>, ghost finished: set<nat>) returns (ghost done: set<nat>)
    requires Buffers(membrane, refract, spikes, n) && n * |x| <= |weights|
    requires 0 < blockDim && Schedule(order, blockDim) && block * blockDim + blockDim <= TWO31
    requires Ticked(fma, start, Cells(membrane, refract, spikes, n), Currents(fma, weights, x, n), finished)
    requires forall t: nat :: t in finished ==> !InBlock(block, blockDim, t)
    modifies membrane, refract, spikes
    ensures Ticked(fma, start, Cells(membrane, refract, spikes, n), Currents(fma, weights, x, n), done)
    ensures forall t: nat :: t in done <==> t in finished || InBlock(block, blockDim, t)
    ensures Rest(membrane, refract, spikes, n) == old(Rest(membrane, refract, spikes, n))
  {
    done := finished;
    for s := 0 to |order|
      invariant forall t: nat :: t in done <==> t in finished || RanIn(order, s, block, blockDim, t)
      invariant Ticked(fma, start, Cells(membrane, refract, spikes, n), Currents(fma, weights, x, n), done)
      invariant Rest(membrane, refract, spikes, n) == old(Rest(membrane, refract, spikes, n))
    {
      RanInStep(order, s, block, blockDim, 0);
      ThreadIdIsPlain(block * blockDim + order[s]);
      var tid: nat := ThreadId(block * blockDim + order[s]);
      forall t: nat { RanInStep(order, s, block, blockDim, t); }
      ghost var now := Cells(membrane, refract, spikes, n);
      WeightedThread(fma, membrane, weights, x, refract, spikes, n, tid);
      TickOne(fma, start, now, Cells(membrane, refract, spikes, n), Currents(fma, weights, x, n), done, tid);
      done := done + {tid};
    }
    forall t: nat { RanInAll(order, block, blockDim, t); }
  }

  // ---- the grid ----

  // Thread orders: the blocks, and within each block the phases before and after the barrier.
  datatype WeightedGrid = WeightedGrid(blocks: nat, blockDim: nat, blockOrder: seq<nat>,
                                       stageOrder: seq<seq<nat>>, computeOrder: seq<seq<nat>>)

  ghost predicate GridFits(grid: WeightedGrid, n: nat) {
    && 0 < grid.blockDim && n <= grid.blocks * grid.blockDim <= TWO31
    && Schedule(grid.blockOrder, grid.blocks)
    && |grid.stageOrder| == |grid.computeOrder| == grid.blocks
    && (forall b :: 0 <= b < grid.blocks ==> Schedule(grid.stageOrder[b], grid.blockDim))
    && (forall b :: 0 <= b < grid.blocks ==> Schedule(grid.computeOrder[b], grid.blockDim))
  }

  lemma BlockOfNeuron(tid: nat, n: nat, blocks: nat, blockDim: nat)
    requires tid < n <= blocks * blockDim && 0 < blockDim
    ensures 0 <= tid / blockDim < blocks
  {
    var q := tid / blockDim;
    assert tid == q * blockDim + tid % blockDim;
    assert q >= blocks ==> q * blockDim >= blocks * blockDim;
  }

  ghost predicate BlockRan(grid: WeightedGrid, s: nat, tid: nat)
    requires grid.blockDim > 0 && s <= |grid.blockOrder|
  {
    Ran(grid.blockOrder, s, tid / grid.blockDim)
  }

  lemma BlockRanStep(grid: WeightedGrid, n: nat, s: nat)
    requires GridFits(grid, n) && s < |grid.blockOrder|
    ensures forall t: nat :: BlockRan(grid, s + 1, t) <==> BlockRan(grid, s, t) || InBlock(grid.blockOrder[s], grid.blockDim, t)
    ensures forall t: nat :: InBlock(grid.blockOrder[s], grid.blockDim, t) ==> !BlockRan(grid, s, t)
  {
    RanStep(grid.blockOrder, grid.blocks, s);
  }

  lemma AllBlocksRan(grid: WeightedGrid, n: nat)
    requires GridFits(grid, n)
    ensures forall t: nat :: t < n ==> BlockRan(grid, |grid.blockOrder|, t)
  {
    RanAll(grid.blockOrder, grid.blocks);
    forall t: nat | t < n ensures BlockRan(grid, |grid.blockOrder|, t) {
      BlockOfNeuron(t, n, grid.blocks, grid.blockDim);
    }
  }

  // One block with its own shared memory.
  method WeightedBlock(fma: Fma, membrane: array<real>, weights: seq<real>, input: seq<real>, refract: array<u32>,
                       spikes: array<u32>, n: nat, grid: WeightedGrid, block: nat,
                       ghost start: seq<Cell>, ghost finished: set<nat>) returns (ghost done: set<nat>)
    requires Buffers(membrane, refract, spikes, n) && n * |input| <= |weights|
    requires GridFits(grid, n) && block < grid.blocks && |input| + grid.blockDim <= TWO31
    requires Ticked(fma, start, Cells(membrane, refract, spikes, n), Currents(fma, weights, input, n), finished)
    requires forall t: nat :: t in finished ==> !InBlock(block, grid.blockDim, t)
    modifies membrane, refract, spikes
    ensures Ticked(fma, start, Cells(membrane, refract, spikes, n), Currents(fma, weights, input, n), done)
    ensures forall t: nat :: t in done <==> t in finished || InBlock(block, grid.blockDim, t)
    ensures Rest(membrane, refract, spikes, n) == old(Rest(membrane, refract, spikes, n))
  {
    var shared := new real[|input|](_ => 0.0);
    StagePhase(input, shared, grid.blockDim, grid.stageOrder[block]);
    RowInside(block, grid.blocks, grid.blockDim);
    done := ComputePhase(fma, membrane, weights, shared[..|input|], refract, spikes, n, block, grid.blockDim,
      grid.computeOrder[block], start, finished);
  }

  // The whole launch ticks every neuron once, on its own dot product.
  method LifStepWeighted(fma: Fma, membrane: array<real>, weights: seq<real>, input: seq<real>, refract: array<u32>,
                         spikes: array<u32>, n: nat, grid: WeightedGrid)
    requires Buffers(membrane, refract, spikes, n) && n * |input| <= |weights|
    requires GridFits(grid, n) && |input| + grid.blockDim <= TWO31
    modifies membrane, refract, spikes
    ensures Cells(membrane, refract, spikes, n)
         == Tick(fma, old(Cells(membrane, refract, spikes, n)), Currents(fma, weights, input, n))
    ensures Rest(membrane, refract, spikes, n) == old(Rest(membrane, refract, spikes, n))
  {
    ghost var before, currents := Cells(membrane, refract, spikes, n), Currents(fma, weights, input, n);
    ghost var done: set<nat> := {};
    for s := 0 to |grid.blockOrder|
      invariant forall t: nat :: t in done <==> BlockRan(grid, s, t)
      invariant Ticked(fma, before, Cells(membrane, refract, spikes, n), currents, done)
      invariant Rest(membrane, refract, spikes, n) == old(Rest(membrane, refract, spikes, n))
    {
      var block := grid.blockOrder[s];
      BlockRanStep(grid, n, s);
      done := WeightedBlock(fma, membrane, weights, input, refract, spikes, n, grid, block, before, done);
    }
    AllBlocksRan(grid, n);
  }

  // lif_step_weighted_oracle
  method LifStepWeightedOracle(fma: Fma, membrane: array<real>, weights: seq<real>, input: seq<real>,
                               refract: array<u32>) returns (spikes: array<u32>)
    requires refract.Length == membrane.Length && |weights| == membrane.Length * |input|
    modifies membrane, refract
    ensures fresh(spikes) && spikes.Length == membrane.Length
    ensures Cells(membrane, refract, spikes, membrane.Length)
         == Tick(fma, old(Unspiked(membrane[..], refract[..])), Currents(fma, weights, input, membrane.Length))
  {
    var n := membrane.Length;
    spikes := new u32[n](_ => 0);
    ghost var before, currents := Unspiked(membrane[..], refract[..]), Currents(fma, weights, input, n);
    ghost var done: set<nat> := {};
    for i := 0 to n
      invariant forall t: nat :: t in done <==> t < i
      invariant Ticked(fma, before, Cells(membrane, refract, spikes, n), currents, done)
    {
      ghost var now := Cells(membrane, refract, spikes, n);
      var current := NeuronCurrent(fma, weights, input, refract[i] > 0, n, i);
      if refract[i] > 0 {
        NextIgnoresCurrent(fma, now[i], current, currents[i]);
      }
      spikes[i] := LifUpdate(fma, membrane, refract, i, current);
      TickOne(fma, before, now, Cells(membrane, refract, spikes, n), currents, done, i);
      done := done + {i};
    }
  }
}
