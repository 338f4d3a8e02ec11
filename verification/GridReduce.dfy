// The two-pass reductions of the library: every block reduces its threads' values to one
// partial, and a single block folds the partials
// (cu/satsolver.cu:276-329, :394-493; cu/spiking_network.cu:355-399, :470-514).

module GridReduce {
  import opened Words
  import opened Launch
  import opened Folds
  import opened Warp

  // Values of `n` consecutive threads; threads past the last value hold the unit.
  function ThreadValues<T>(vals: seq<T>, unit: T, from: nat, n: nat): (threads: seq<T>)
    ensures |threads| == n
  {
    seq(n, t requires 0 <= t < n => if from + t < |vals| then vals[from + t] else unit)
  }

  function BlockValues<T>(vals: seq<T>, unit: T, blocks: nat, blockDim: nat): (values: seq<seq<T>>)
    ensures |values| == blocks
  {
    seq(blocks, b requires 0 <= b < blocks => ThreadValues(vals, unit, RowStart(b, blockDim), blockDim))
  }

  lemma ThreadValuesSplit<T>(vals: seq<T>, unit: T, m: nat, n: nat)
    ensures ThreadValues(vals, unit, 0, m + n) == ThreadValues(vals, unit, 0, m) + ThreadValues(vals, unit, m, n)
  {
  }

  // The values of consecutive blocks, one after another, are those of all their threads.
  lemma {:induction false} BlocksCover<T>(vals: seq<T>, unit: T, values: seq<seq<T>>, blockDim: nat)
    requires forall b :: 0 <= b < |values| ==> values[b] == ThreadValues(vals, unit, RowStart(b, blockDim), blockDim)
    ensures Flatten(values) == ThreadValues(vals, unit, 0, RowStart(|values|, blockDim))
    decreases |values|
  {
    if values != [] {
      var n := |values| - 1;
      BlocksCover(vals, unit, values[..n], blockDim);
      ThreadValuesSplit(vals, unit, RowStart(n, blockDim), blockDim);
    }
  }

  // int tid = blockIdx.x * blockDim.x + threadIdx.x; x = (tid < n) ? vals[tid] : unit
  method LoadBlock<T>(vals: seq<T>, unit: T, from: nat, n: nat) returns (threads: seq<T>)
    requires from + n <= TWO31
    ensures threads == ThreadValues(vals, unit, from, n)
  {
    threads := [];
    for t := 0 to n
      invariant threads == ThreadValues(vals, unit, from, t)
    {
      ThreadIdIsPlain(from + t);
      var tid: nat := ThreadId(from + t);
      threads := threads + [if tid < |vals| then vals[tid] else unit];
    }
  }

  // Launch shape: `blocks` blocks of `32 * nWarps` threads, then one block of `32 * pass2Warps`.
  datatype GridShape = GridShape(blocks: nat, nWarps: nat, pass2Warps: nat,
                                 blockOrder: seq<nat>, warpOrder: seq<nat>, pass2Order: seq<nat>)

  ghost predicate Covers(shape: GridShape, n: nat) {
    && 1 <= shape.nWarps <= 32 && 1 <= shape.pass2Warps <= 32 && n <= shape.blocks * (32 * shape.nWarps) <= TWO31
    && Schedule(shape.blockOrder, shape.blocks) && Schedule(shape.warpOrder, shape.nWarps)
    && Schedule(shape.pass2Order, shape.pass2Warps)
  }

  lemma BlockInGrid(b: nat, blocks: nat, blockDim: nat)
    requires b < blocks && blocks * blockDim <= TWO31
    ensures RowStart(b, blockDim) + blockDim <= TWO31
  {
    NextRowStart(b, blocks, blockDim);
    RowStartIsProduct(blocks, blockDim);
  }

  lemma PartialsAreFew(blocks: nat, nWarps: nat)
    requires 1 <= nWarps && blocks * (32 * nWarps) <= TWO31
    ensures 32 * blocks <= TWO31
  {
    assert blocks * (32 * nWarps) == 32 * blocks + 32 * blocks * (nWarps - 1);
  }

  // First pass, blocks in any order: partial b is the fold of block b.
  method Pass1<T(0, !new)>(op: (T, T) -> T, unit: T, vals: seq<T>, shape: GridShape) returns (partials: seq<T>)
    requires Monoid(op, unit) && Covers(shape, |vals|)
    ensures |partials| == shape.blocks
    ensures forall b :: 0 <= b < |partials| ==>
      partials[b] == Fold(op, unit, BlockValues(vals, unit, shape.blocks, 32 * shape.nWarps)[b])
  {
    var blockDim := 32 * shape.nWarps;
    ghost var values := BlockValues(vals, unit, shape.blocks, blockDim);
    var slots := new T[shape.blocks](_ => unit);
    for s := 0 to |shape.blockOrder|
      invariant forall b: nat :: Ran(shape.blockOrder, s, b) ==> b < shape.blocks && slots[b] == Fold(op, unit, values[b])
    {
      var b := shape.blockOrder[s];
      RanStep(shape.blockOrder, shape.blocks, s);
      BlockInGrid(b, shape.blocks, blockDim);
      var threads := LoadBlock(vals, unit, RowStart(b, blockDim), blockDim);
      slots[b] := BlockReduce(op, unit, threads, shape.nWarps, shape.warpOrder);
    }
    RanAll(shape.blockOrder, shape.blocks);
    partials := slots[..];
  }

  // Second pass: thread t folds partials t, t + blockDim, ... before the block reduction.
  method Pass2<T(0, !new)>(op: (T, T) -> T, unit: T, partials: seq<T>, nWarps: nat, warpOrder: seq<nat>) returns (total: T)
    requires Monoid(op, unit) && 1 <= nWarps <= 32 && Schedule(warpOrder, nWarps)
    requires |partials| + 32 * nWarps <= TWO31
    ensures total == Fold(op, unit, partials)
  {
    var blockDim := 32 * nWarps;
    var locals: seq<T> := [];
    for tid := 0 to blockDim
      invariant |locals| == tid
      invariant forall t: nat :: t < tid ==> locals[t] == StridedFold(op, unit, partials, t, blockDim)
    {
      var mine := AccumulateStrided(op, unit, partials, tid, blockDim);
      locals := locals + [mine];
    }
    assert locals == StridedFolds(op, unit, partials, blockDim);
    StridedFoldsTotal(op, unit, partials, blockDim);
    total := BlockReduce(op, unit, locals, nWarps, warpOrder);
  }

  // Both passes together are the plain fold, for every grid that covers the values.
  method TwoPassReduce<T(0, !new)>(op: (T, T) -> T, unit: T, vals: seq<T>, shape: GridShape) returns (total: T)
    requires Monoid(op, unit) && Covers(shape, |vals|)
    ensures total == Fold(op, unit, vals)
  {
    var partials := Pass1(op, unit, vals, shape);
    ghost var blockDim := 32 * shape.nWarps;
    FoldOfFolds(op, unit, BlockValues(vals, unit, shape.blocks, blockDim), partials);
    BlocksCover(vals, unit, BlockValues(vals, unit, shape.blocks, blockDim), blockDim);
    RowStartIsProduct(shape.blocks, blockDim);
    PaddingIsNeutral(op, unit, vals, ThreadValues(vals, unit, 0, RowStart(shape.blocks, blockDim)));
    PartialsAreFew(shape.blocks, shape.nWarps);
    total := Pass2(op, unit, partials, shape.pass2Warps, shape.pass2Order);
  }
}
