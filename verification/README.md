# Verified model of the GPU accelerator's kernels, oracles and benchmark harness

This project models the numerical and concurrent core of the accelerator library in Dafny and
proves what its kernels, its scalar oracles and its benchmark harness are for. `dafny verify
dfyconfig.toml` checks everything.

## What is modelled

**Launches.** A kernel launch runs its thread bodies in an arbitrary order, given as a schedule
that lists every thread once; contracts do not mention the order, so every order gives the same
result. A barrier splits a block into phases, each with its own order. A warp shuffle updates 32
lanes at once, and a lane that reads past lane 31 keeps its own value. Shared memory is an array
of the block.

**Numbers.** 32-bit words are ranges of the mathematical integers; the wrap-around of the random
generator, of `0u - unsat_cnt`, of literal decoding, of `n_clauses + 1`, of thread indices and of
strided loop counters is written out, and each contract asks for exactly the sizes below which the
kernel's own arithmetic does not overflow; signed overflow is modelled as wrapping.
Floating-point values are reals. Square root and exponential are parameters. The LIF and STDP
kernels use the fused multiply-add as a parameter, because device and reference perform the same
operations in the same order: their agreement then holds for every rounding. The walk probability
0.57f is the exact fraction 9563013 / 2^24.

**Components.**

- *WalkSAT* (`Lcg`, `RankDraw`, `SatFormula`, `SatWords`, `SatStep`, `SatDraws`, `SatKernel`,
  `SatRun`, `BestReduce`): the
  full period of the generator makes the rejection loop terminate from every state, and accepted
  draws are exactly uniform. A step flips a variable of the chosen clause, so the new score is the
  old one plus breaks minus makes, with at least one make. Runs keep 0/1 bytes and exact scores, and
  solved walkers stay put. The reported best score is zero exactly when some walker satisfies the
  formula, and the extracted assignment then satisfies every clause.
- *Parallel reductions* (`Folds`, `Warp`, `GridReduce`, `Membrane`): shuffle tree, block reduction
  and two-pass reduction equal the plain fold of any commutative monoid, for every grid that covers
  the input. Score/walker minima, cosine sums and membrane sum/maximum are instances.
- *Cosine similarity and top-k routing* (`Cosine`, `CosineKernels`, `CosineLaws`, `TopKSpec`, `TopKInsert`,
  `TopKMerge`, `TopKBlock`): both accumulation paths equal the scalar oracle, scores lie strictly
  between -1 and 1, and the selected keys are the sort by (score descending, index ascending)
  truncated to min(top_k, n_keys, 32), followed by -1.
- *Ternary matrices* (`Bitpacking`, `BytePacking`, `TernaryRow`, `TernaryMatmul`, `GridStride`,
  `TernaryKernels`, `TernaryLaws`): packing round trips at word and byte level; device, host
  reference and oracle all compute the dense product of the clamped weights.
- *Spiking kernels* (`Lif`, `LifWeighted`, `LifRun`, `LifLaws`, `Stdp`, `StdpLaws`): staged and
  unstaged LIF launches equal their oracles, whole runs obey the refractory period and its
  firing-rate bound, potentials between spikes have a closed form, and the two plasticity launches
  equal the sequential update on the advanced traces.
- *Calendar* (`Calendar`): the timestamp conversion against a calendar that is defined day by day.
  Leap years follow Appendix C of RFC 3339, the calendar section 3.2.1 of ISO 8601:2004.
- *Benchmark statistics and gate* (`Sorting`, `Statistics`, `Manifest`, `Compare`, `Gate`,
  `GateLaws`, `GateReport`).
- *Context lifecycle* (`CudaState`, `ContextGuard`, `KernelModules`, `Accelerator`, `Lifecycle`):
  ownership over the thread's context binding, the live resources, queued work and a log of what
  was given back. Whether each driver call succeeds is a parameter, so every failure is covered.

Where kernel, reference and contract are stated through one function, separate laws (the `Laws`
modules, `SatWords` and `SatDraws`) say what that function means in the terms of the buffers.

`Words`, `Reals`, `Launch`, `Strided` and `Wrappers` hold machine words, real-valued operations,
schedules, thread indices and row-major buffers, strided loops, and optional values.

## Findings

- The GEMV row counter is a signed 32-bit integer. The grid-stride loop is safe exactly when
  M + threads <= 2^31; for the grid the wrapper chooses that is exactly M <= 2^30. The wrapper does
  not check it. Larger M wraps the counter to a negative row, for example M = 2^30 + 1
  (`GridStride.StrideSafeExactly`, `GridStride.WrapperSafeExactly`, `GridStride.WrapperFailsAbove`).
- Kernels that compute an `int` index as `blockIdx.x * blockDim.x + threadIdx.x` pass no negative
  index through their guard exactly when the grid has at most 2^31 threads. The wrappers' grids
  stay within that limit; a larger grid launched directly does not (`Launch.IdsSafeExactly`,
  `Launch.WrapperGridFits`). The shared-memory, key, slot and partial loops have the GEMV counter's
  shape, so the same bound, length plus stride at most 2^31, is required of them.
- The greedy WalkSAT branch starts from `n_clauses + 1` in an `int`. It finds a variable exactly when
  the chosen clause has a valid literal and there are fewer than INT_MAX clauses; with INT_MAX
  clauses it is stuck, shown for INT_MAX copies of one clause and generator state 4
  (`SatStep.GreedyFindsExactly`, `SatStep.GreedyStuckAtMax`).
- The year estimate never undershoots exactly for additive constants from 14775 on, so the
  program's 14780 has five units to spare (`Calendar.EstimateConstant`).
- A failed construction and the probe restore the caller's binding exactly when that binding could
  be captured and set again; otherwise it stays where the construction left it
  (`Accelerator.GpuAccelerator.New`, `Lifecycle.Probe`). Drop destroys the resources even when the
  last synchronisation failed; they are then not known to be idle (`Accelerator.TeardownOrder`).
- A baseline that records no dispersion can never pass an enforced gate (`GateLaws.LegacyNeverPasses`).

## Model

| member | source | states |
|---|---|---|
| Lcg.LcgReaches | cu/common.cuh:53-55 | from every 32-bit state the generator reaches every value within 2^32 steps |
| Lcg.LcgPeriod | cu/common.cuh:53-55 | a state recurs after d steps exactly when d is a multiple of 2^32 |
| RankDraw.ThresholdIsResidue | cu/satsolver.cu:186-188 | `(0u - u) % u` is 2^32 mod u and below u |
| RankDraw.AcceptedDrawIsFirst | cu/satsolver.cu:186-189 | the accepted draw exists within 2^32 steps and is the first one at or above the threshold |
| RankDraw.DrawAccepted | cu/satsolver.cu:189 | the do/while loop terminates from every generator state with that first accepted draw |
| RankDraw.DrawIsUniform | cu/satsolver.cu:186-190 | every rank has exactly floor(2^32 / u) accepted 32-bit values |
| SatWords.BufferEncodesFormula | cu/satsolver.cu:26-37 | every clause buffer of sufficient length encodes a formula of the given dimensions, whose clauses hold exactly when one of their words does |
| SatWords.WordHoldsOnBinary | cu/satsolver.cu:57-61 | on 0/1 rows the word 2v wants byte v to be 1 and the word 2v + 1 wants it to be 0; words past the row hold never |
| SatWords.ClauseIsWords | cu/satsolver.cu:48-65 | a clause holds exactly when one of its words in the buffer holds |
| SatWords.FormulaIsWords | cu/satsolver.cu:175-184 | a row's score is the number of clauses of the buffer without a word that holds |
| SatWords.BreaksIsCardinality | cu/satsolver.cu:230-240 | the break count is the number of clauses that hold before and not after the flip |
| SatWords.FlipChangesLowestBit | cu/satsolver.cu:249 | a flip changes the lowest bit of a byte and no other |
| SatFormula.NthUnsatUnique | cu/satsolver.cu:190-200 | exactly one clause is the rank-th unsatisfied one |
| SatFormula.FlipBalance | cu/satsolver.cu:223-256 | flipping a variable changes the score by breaks minus makes |
| SatFormula.FlipSatisfies | cu/satsolver.cu:48-65 | flipping a variable of an unsatisfied clause satisfies that clause |
| SatKernel.EvalClause | cu/satsolver.cu:48-65 | the clause evaluation loop returns 1 exactly when some word of the clause holds in the row, out-of-range variables included |
| SatKernel.SelectUnsat | cu/satsolver.cu:190-200 | the second scan always finds the clause that is rank-th among the unsatisfied ones |
| SatKernel.TrialBreaks | cu/satsolver.cu:230-240 | the trial flips leave the assignment as it was and count exactly the clauses that break |
| SatKernel.PickRandom | cu/satsolver.cu:208-222 | the random branch picks the drawn valid literal, or none when there is none |
| SatKernel.PickGreedy | cu/satsolver.cu:223-247 | the greedy branch, with its wrapping start value, picks what the first-least-break selection picks and leaves the assignment as it was |
| SatStep.GreedyBelowIsFirstLeast | cu/satsolver.cu:223-247 | that selection is the first valid literal of least break count; with INT_MAX clauses it selects nothing |
| SatStep.GreedyFindsExactly | cu/satsolver.cu:224-245 | the greedy branch finds a variable exactly when a literal is valid and there are fewer than INT_MAX clauses |
| SatStep.GreedyStuckAtMax | cu/satsolver.cu:224 | a concrete formula of INT_MAX clauses on which a greedy step changes nothing although one flip satisfies it |
| SatStep.InitRowIsBinary | cu/satsolver.cu:106-134 | initial assignments are 0/1 |
| SatDraws.WalkersDiffer | cu/satsolver.cu:121-122 | for one seed, different walkers initialise and step from different generator states |
| SatDraws.InitReadsBitSixteen | cu/satsolver.cu:123-126 | variable v starts as bit 16 of the walker's draw number v + 1 |
| SatDraws.WalkThresholdIsNearest | cu/satsolver.cu:204-208 | a step is random for exactly 9563013 of the 2^24 leading draws, the count nearest to a share of 0.57 |
| SatDraws.RandomPicksDrawn | cu/satsolver.cu:208-222 | the random branch picks the valid literal with as many valid ones before it as the upper 24 bits of the draw leave modulo their number |
| SatStep.TargetInChosenClause | cu/satsolver.cu:202-249 | the flipped variable occurs in the chosen clause; none is flipped exactly when the clause has no valid literal or the step is greedy on INT_MAX clauses |
| SatStep.FlipPaysForItself | cu/satsolver.cu:202-256 | a flip satisfies the chosen clause, and the new score is the old one plus breaks minus makes with makes >= 1 |
| SatStep.FreeMoveLowersScore | cu/satsolver.cu:223-256 | a greedy step with a break-0 literal strictly lowers the score exactly when there are fewer than INT_MAX clauses |
| SatStep.StepKeepsBinary | cu/satsolver.cu:249 | a step keeps assignment bytes 0/1 |
| SatKernel.InitThread | cu/satsolver.cu:106-134 | an init thread writes its walker's row and score and nothing else |
| SatKernel.StepThread | cu/satsolver.cu:157-257 | a step thread moves its own walker by one step, with its exact score, and nothing else |
| SatRun.RunKeepsBinary | cu/satsolver.cu:106-257 | in every run every walker keeps 0/1 bytes |
| SatRun.SolvedWalkerStays | cu/satsolver.cu:181-184 | a walker with a satisfying assignment never changes again |
| SatRun.FlagsLaunch | cu/satsolver.cu:289-298 | flag (walker, clause) is 1 or 0 as some word of the clause holds in the walker's row or none |
| SatRun.CheckLaunch | cu/satsolver.cu:342-351 | a walker is marked solved exactly when its score is zero |
| SatRun.ExtractLaunch | cu/satsolver.cu:366-380 | the output is the best walker's row, or walker 0's for an index out of range |
| SatRun.Walk | cu/satsolver.cu:106-257 | init and any number of steps in any thread orders reach the run's rows, with exact scores |
| SatRun.Solve | cu/satsolver.cu:106-493 | the reduced score counts the buffer's clauses that the extracted assignment leaves unsatisfied and is least among the walkers; it is zero exactly when some walker satisfies every clause of the buffer, and the extracted assignment then does |
| SatRun.BestIsLeastScore | cu/satsolver.cu:276-329 | the best pair of the scores is a walker of least score |
| Warp.TreeFolds | cu/common.cuh:25-50 | the shuffle tree leaves the fold of all 32 lanes in lane 0 |
| Warp.TreeSelects | cu/vector_similarity.cu:99-120 | the same tree selects a best lane for any total preference |
| Warp.BlockReduce | cu/satsolver.cu:304-328 | warps in any order, shared memory and padding give the fold of the block |
| Folds.StridedFoldsTotal | cu/spiking_network.cu:479-488 | the strided accumulators of all threads together hold the plain fold |
| Folds.AccumulateStrided | cu/spiking_network.cu:479-486 | one thread's strided loop computes its accumulator |
| GridReduce.TwoPassReduce | cu/satsolver.cu:289-493 | two passes equal the plain fold for every grid of at most 2^31 threads that covers the input |
| Launch.IdsSafeExactly | cu/satsolver.cu:117-118 | no thread passes the guard with a negative index exactly when the grid has at most 2^31 threads |
| Launch.WrapperGridFits | src/gpu/accelerator.rs:597 | ceil(n / 256) blocks of 256 cover n items within that limit |
| BestReduce.BestIsMonoid | cu/satsolver.cu:67-91 | the better of two (score, walker) pairs is a commutative monoid with INT_MAX padding as unit |
| BestReduce.BestWalkerUnique | src/oracle.rs:214-222 | at most one pair is the best walker |
| BestReduce.FoldIsBestWalker | cu/satsolver.cu:446-493 | the fold is the lowest walker of least score, also when scores are INT_MAX |
| BestReduce.OracleBest | src/oracle.rs:214-222 | the sequential scan finds the best walker |
| BestReduce.DeviceBest | cu/satsolver.cu:289-329 | the device reduction finds the best walker, so it equals the scan |
| Membrane.MembraneChange | cu/spiking_network.cu:355-399 | both launches together give the fold of all rates of change |
| Membrane.FoldIsSumAndMax | cu/spiking_network.cu:470-514 | that fold is the sum in neuron order and an attained upper bound |
| Membrane.RateMeaning | cu/spiking_network.cu:364-369 | a rate times the elapsed time, or 1e-8 when that is longer, is the size of the change |
| Membrane.ZeroExactlyWhenStill | cu/spiking_network.cu:355-399 | sum and maximum are zero exactly when no membrane moved |
| Cosine.DotBound | cu/vector_similarity.cu:37-57 | the three sums obey the Cauchy-Schwarz inequality |
| Cosine.ScoreInUnitInterval | cu/vector_similarity.cu:26-31 | in exact arithmetic every score lies strictly between -1 and 1 |
| Cosine.ZeroVectorScoresZero | src/oracle.rs:98-103 | a zero vector scores zero |
| CosineLaws.ScoreTimesNorms | cu/vector_similarity.cu:26-31 | a score times (the product of the norms + 1e-8) is the dot product |
| CosineLaws.PairTimesNorms | src/oracle.rs:125-134 | cell (q, k) obeys that law for row q of the queries and row k of the keys in the flat buffers |
| CosineLaws.OppositeScores | cu/vector_similarity.cu:26-31 | the opposite key has the opposite score |
| CosineLaws.SelfScore | cu/vector_similarity.cu:26-31 | a vector with squares summing to N scores N / (N + 1e-8) against itself |
| CosineKernels.PairScore | cu/vector_similarity.cu:37-57 | the scalar path and the 32-lane path both give the score of the sequential sums |
| CosineKernels.OraclePair | src/oracle.rs:123-134 | the oracle's loop gives the same score |
| CosineKernels.BatchedLaunch | cu/vector_similarity.cu:137-161 | blocks in any order give every query-key pair its score and write nothing else |
| CosineKernels.BatchedOracle | src/oracle.rs:105-138 | the oracle gives every query-key pair its score |
| CosineKernels.AllScoresUnique | src/oracle.rs:105-138 | two matrices with every score in place are equal, so kernel and oracle agree |
| CosineKernels.RouteQuery | cu/vector_similarity.cu:187-289 | the block of a query selects the top keys of the oracle's similarity row, stores that row, and writes nothing outside its own rows |
| CosineKernels.RouteLaunch | cu/vector_similarity.cu:187-289 | blocks in any order route every query and write nothing beyond the query rows |
| CosineLaws.RoutesToItself | cu/vector_similarity.cu:187-289 | a nonzero query routed among itself and its opposite finds itself in slot 0, in either key order |
| TopKSpec.TopSeqRanks | cu/vector_similarity.cu:60-68 | slot i of the reference selection is the key that exactly i keys beat |
| TopKSpec.RankDeterminesKey | cu/vector_similarity.cu:60-68 | no two keys are beaten by equally many keys |
| TopKSpec.InsertIsTop | cu/vector_similarity.cu:70-97 | inserting a key into the truncated top list gives the truncated top list of one key more |
| TopKInsert.TopkInsert | cu/vector_similarity.cu:70-97 | the in-place insertion shifts entries exactly as sorted insertion with truncation does |
| TopKInsert.ScanKeys | cu/vector_similarity.cu:230-240 | a thread's strided scan keeps the top of its own keys and stores their similarities |
| TopKMerge.WarpBest | cu/vector_similarity.cu:99-120 | the shuffle tree finds a best candidate and its lane |
| TopKMerge.Merge | cu/vector_similarity.cu:242-285 | merging lists of disjoint key sets gives the top of their union, with sentinels when keys run out |
| TopKBlock.TopKUnique | cu/vector_similarity.cu:187-289 | at most one output is the top-k selection of a row |
| TopKBlock.TopKMeaning | cu/vector_similarity.cu:60-68 | the slots hold valid keys by descending score and, among equals, ascending index; every other key comes after them; further slots hold -1 |
| TopKBlock.SelectKeys | cu/vector_similarity.cu:230-285 | both scan paths, the lane merges and the cross-warp merge select the top keys of the whole row |
| TopKBlock.TopKRow | cu/vector_similarity.cu:187-289 | for every legal block the query's first min(top_k, n_keys, 32) slots hold the best keys in order and the rest -1; other rows are untouched |
| Bitpacking.PackTernary | src/bitpacking.rs:134-144 | packing yields the words whose fields encode the clamped values, zero beyond |
| Bitpacking.UnpackTernary | src/bitpacking.rs:152-163 | unpacking decodes each field, up to the requested count |
| Bitpacking.PackedBits | src/bitpacking.rs:112-144 | bit 2 (i mod 16) of word i / 16 is set exactly for a positive value i, the next bit exactly for a negative one |
| Bitpacking.UnpackedBits | src/bitpacking.rs:122-163 | unpacking reads 1 for the low bit alone, -1 for the high bit alone, and 0 otherwise |
| Bitpacking.PackedRoundTrip | src/bitpacking.rs:109-163 | decoding packed fields gives the clamped values, and zero in the padding |
| Bitpacking.PackingUnique | src/bitpacking.rs:134-144 | a value sequence has one packing |
| BytePacking.PackedAsLeBytes | src/bitpacking.rs:271-277 | the bytes of each word in little-endian order |
| BytePacking.PackedFromLeBytes | src/bitpacking.rs:282-298 | words rebuilt from bytes, zero past the end |
| BytePacking.LeBytesValue | src/bitpacking.rs:271-277 | the four bytes of a word are its digits to base 256, lowest first |
| BytePacking.LeBytesRoundTrip | src/bitpacking.rs:271-298 | rebuilding words from their little-endian bytes gives the words back |
| BytePacking.PackTernaryBytes | src/bitpacking.rs:240-252 | byte packing yields the bytes whose fields encode the clamped values |
| BytePacking.UnpackTernaryBytes | src/bitpacking.rs:257-268 | unpacking decodes each byte field, up to the requested count |
| BytePacking.PayloadIsPrefix | src/bitpacking.rs:235-252 | the byte payload is a prefix of the little-endian bytes of the word packing |
| BytePacking.PayloadRebuildsPacking | src/bitpacking.rs:282-298 | rebuilding words from the payload gives a word packing of the same values |
| BytePacking.PayloadRoundTrip | src/bitpacking.rs:240-298 | unpacking the payload, or the words rebuilt from it, gives the clamped values |
| TernaryRow.DeviceRow | cu/ternary_gemm.cu:60-79 | the device loop over one packed row gives the group-scaled product, with either skip_zeros |
| TernaryRow.HostRow | src/bitpacking.rs:396-411 | the host loop over one packed row gives the same product |
| TernaryRow.PackedRowIsDense | src/bitpacking.rs:374-412 | on packed words that product is the dense sum of clamped weight, scale and activation |
| TernaryRow.GroupCountIsCeil | cu/ternary_gemm.cu:54-55 | the device's overflow-safe group count is the ceiling the host uses |
| TernaryMatmul.LayoutsAgree | src/bitpacking.rs:384-393 | host and device strides fit the same buffers |
| TernaryMatmul.PackTernaryMatrix | src/bitpacking.rs:204-222 | row-by-row packing pads each row to whole words |
| TernaryMatmul.PackedGemvIsDense | src/bitpacking.rs:374-412 | every GEMV entry is the dense dot product, for k not a multiple of 16 and partial last groups |
| TernaryLaws.GemvIsDense | src/bitpacking.rs:374-412 | entry m is the sum over k of scale (m, k / group) times x[k], added or subtracted by the sign of weight (m, k) in the unpacked matrix |
| TernaryLaws.GemmIsDense | src/bitpacking.rs:425-466 | cell (m, n) is that sum for column n of B |
| TernaryLaws.ColumnEntries | cu/ternary_gemm.cu:139 | column n of B is read from entries k * N + n |
| TernaryMatmul.GemvRef | src/bitpacking.rs:374-412 | the host reference, with its own word and scale strides, computes that product |
| TernaryMatmul.GemvOracle | src/oracle.rs:277-315 | the oracle, with its own word and scale strides, computes that product |
| GridStride.StrideSafeExactly | cu/ternary_gemm.cu:58-60 | the row counter never goes negative exactly when M + threads <= 2^31 |
| GridStride.WrapperSafeExactly | src/gpu/accelerator.rs:857-858 | with the wrapper's grid that is exactly M <= 2^30 |
| GridStride.WrapperFailsAbove | src/gpu/accelerator.rs:857-858 | a concrete M for which the wrapper's launch wraps |
| TernaryKernels.GemvThread | cu/ternary_gemm.cu:53-79 | a thread writes exactly the rows of its grid-stride loop, each with its product |
| TernaryKernels.GemvLaunch | cu/ternary_gemm.cu:37-80 | for a safe stride every row gets its product and nothing else is written; invalid dimensions write nothing |
| TernaryKernels.GemmColumnIsGemv | cu/ternary_gemm.cu:113-142 | column n of the product is the GEMV of column n |
| TernaryKernels.GemmGridCovers | src/gpu/accelerator.rs:979-989 | the wrapper's grid covers every output cell, and is refused exactly beyond 256 * (2^32 - 1) cells |
| TernaryKernels.TernaryGemm | src/gpu/accelerator.rs:923-1030 | succeeds exactly for valid dimensions, buffers and grids, writing the whole product (zeros for k = 0); refused calls change nothing |
| TernaryKernels.GemmLaunch | cu/ternary_gemm.cu:96-143 | every output cell is written once with its entry, in any thread order, and nothing else |
| TernaryKernels.GemmRef | src/bitpacking.rs:425-466 | the host reference computes the same matrix |
| TernaryKernels.GemmOracle | src/oracle.rs:320-361 | the oracle computes the same matrix |
| Launch.ThreadOfCell | cu/ternary_gemm.cu:113-120 | flattened thread ids and cells correspond one to one |
| Lif.LifUpdate | src/oracle.rs:397-412 | a refractory neuron is held at reset and counts down, any other integrates once and spikes at threshold; no other neuron changes |
| Lif.LifStep | cu/spiking_network.cu:89-119 | the launch ticks every neuron once, in any thread order, and nothing else |
| Lif.LifStepOracle | src/oracle.rs:424-443 | the oracle ticks every neuron once |
| Lif.StagePhase | cu/spiking_network.cu:149-151 | strided staging by threads in any order completes the shared copy before the barrier |
| Lif.TickIgnoresFlags | src/oracle.rs:397-412 | stale spike flags do not influence a tick, so kernel and oracle tick alike |
| LifWeighted.LifStepWeighted | cu/spiking_network.cu:138-180 | for any block size and orders, every neuron ticks once on its own dot product |
| LifWeighted.LifStepWeightedOracle | src/oracle.rs:461-506 | the oracle ticks every neuron once on its own dot product |
| LifRun.AfterSpike | src/oracle.rs:368-375 | after a spike the neuron is held at reset for two ticks and integrates again from reset |
| LifLaws.RefractoryHeld | cu/spiking_network.cu:104-106 | a refractory neuron is held at reset, whatever its potential and input, and counts down |
| LifLaws.PotentialInClosedForm | cu/spiking_network.cu:107-108 | over T ticks without a spike, in exact arithmetic, v_T = 0.85^T v_0 + sum of 0.85^(T-1-j) I_j |
| LifLaws.SpikesExactly | cu/spiking_network.cu:107-114 | the next tick spikes exactly when that sum, carried one tick on, reaches 1 |
| LifLaws.NeuronInClosedForm | cu/spiking_network.cu:138-180 | the same for each neuron of a network whose launches have run |
| LifLaws.CurrentsAreDots | cu/spiking_network.cu:164-167 | in exact arithmetic neuron i receives the dot product of row i of the weights with the inputs |
| LifLaws.ConstantDriveSpikes | src/oracle.rs:397-412 | under a constant current a resting neuron ever spikes exactly when the current exceeds 0.15 |
| LifRun.SpikesApart | src/oracle.rs:368-375 | two spikes of one neuron are at least three ticks apart |
| LifRun.CounterAndMembrane | cu/spiking_network.cu:100-118 | every updated membrane is below threshold, and the counter stays in or runs down to 0..2 |
| LifRun.RateBound | cu/spiking_network.cu:100-118 | T ticks hold at most ceil(T / 3) spikes |
| LifRun.RateBoundIsTight | cu/spiking_network.cu:100-118 | under a drive that always reaches threshold the bound is met |
| LifRun.RunWeighted | cu/spiking_network.cu:138-180 | successive launches produce the network's evolution tick by tick |
| LifRun.NeuronInRun | cu/spiking_network.cu:138-180 | in every such evolution each neuron keeps the rate bound, the pause and its potential below threshold |
| Stdp.LearnAt | cu/spiking_network.cu:257-289 | the new weight of a synapse depends on its own old weight, its spikes and its advanced traces |
| StdpLaws.LearnedAmount | cu/spiking_network.cu:284-287 | a weight gains 0.01 per post spike and pre trace, loses 0.012 per pre spike and post trace, and stops at 0 and 2 |
| StdpLaws.StrengthensExactly | cu/spiking_network.cu:284 | without a pre spike a weight grows exactly for a post spike on a pre trace below the limit, whatever the post trace |
| StdpLaws.WeakensExactly | cu/spiking_network.cu:285 | without a post spike a weight shrinks exactly for a pre spike on a post trace above the limit, whatever the pre trace |
| StdpLaws.UpdatedAt | cu/spiking_network.cu:257-315 | what one update does to one synapse and its two traces |
| StdpLaws.PreThenPost | cu/spiking_network.cu:236-238 | over two updates a pre spike followed by a post spike adds 0.01 times the decay, up to the limit |
| StdpLaws.PostThenPre | cu/spiking_network.cu:236-238 | over two updates a post spike followed by a pre spike takes 0.012 times the decay, down to the limit |
| StdpLaws.TraceInClosedForm | cu/spiking_network.cu:299-315 | over T updates a trace is its decayed start value plus the decayed sum of its spikes |
| Stdp.WeightLaunch | cu/spiking_network.cu:257-289 | every weight is written once, from locally advanced old traces, in any thread order |
| Stdp.TraceLaunch | cu/spiking_network.cu:299-315 | every trace advances exactly once, in any thread order |
| Stdp.GridsCover | src/gpu/accelerator.rs:304-352 | the wrapper's grids cover all indices, and no trace thread index is negative |
| Stdp.StdpUpdate | src/gpu/accelerator.rs:273-400 | succeeds exactly for valid shapes, buffers and grids; weights and traces become one update of the old ones, with decay exp(-dt / 20), the weights learning from the traces that are stored; otherwise nothing changes |
| Stdp.StdpSequential | cu/spiking_network.cu:236-256 | the sequential nested-loop update gives the same weights and traces |
| Stdp.LearningDirection | cu/spiking_network.cu:236-240 | post spikes alone never weaken, pre spikes alone never strengthen, silence changes nothing, and weights stay in range |
| Calendar.DateAfterIsValid | examples/benchmark.rs:2983-2995 | every day number stands for a valid Gregorian date |
| Calendar.YearStartCounts | examples/benchmark.rs:2985 | the closed day-count formula counts the days of the March-based years |
| Calendar.DayNumberInverts | examples/benchmark.rs:2983-2995 | the day-count formula inverts the conversion |
| Calendar.DateOfDayNumber | examples/benchmark.rs:2983-2995 | every valid date from 0000-03-01 on is the date of its day number |
| Calendar.EstimateAtMostOneHigh | examples/benchmark.rs:2984-2989 | the estimate is the true year or the next, and the sign of the day of year tells which |
| Calendar.EstimateConstant | examples/benchmark.rs:2984 | constants that never underestimate are exactly those from 14775 on |
| Calendar.MonthArithmetic | examples/benchmark.rs:2990-2993 | the month and day arithmetic agrees with the month lengths |
| Calendar.DaysToYmd | examples/benchmark.rs:2983-2995 | the result is the date g days after 0000-03-01, and every intermediate value fits an i64 |
| Calendar.EpochDate | examples/benchmark.rs:2975 | day 719468 is 1970-01-01 |
| Calendar.Timestamp | examples/benchmark.rs:2967-2981 | for every u64 the timestamp is valid, determines the seconds, and nothing overflows |
| Statistics.StatsIgnoreOrder | src/bench/stats.rs:32-78 | the statistics do not depend on the order of the samples |
| Statistics.PercentileIsSmallest | src/bench/stats.rs:93-101 | a percentile is the smallest sample with at least p% of the samples at or below it |
| Statistics.StatsOrdered | src/bench/stats.rs:65-78 | min <= p50 <= p95 <= p99 <= max, mean and median lie between min and max, MAD is not negative |
| Statistics.HalfWithinMad | src/bench/stats.rs:54-57 | at least half of the samples lie within the MAD of the median |
| Statistics.MedianIsCentral | src/bench/stats.rs:54-57 | the median is the midpoint of the two central samples, the MAD of the two central distances from it |
| Statistics.MeanIsTotal | src/bench/stats.rs:52-53 | n times the mean is the sum of the samples as given |
| Statistics.DispersionIsRatio | src/bench/stats.rs:58-64 | the dispersion times the size of the median is the MAD; for a median of practically zero it is zero or the largest double |
| Statistics.Extremes | src/bench/stats.rs:66-73 | minimum and maximum are samples and bound all samples |
| Manifest.Validate | examples/benchmark.rs:1275-1322 | accepts exactly non-empty cases with the declared count and every aggregate within 1e-12, absolute or relative to either value |
| Manifest.FromSamplesValid | src/bench/manifest.rs:173-202 | a case built from samples keeps its metadata and samples and satisfies those conditions exactly when there is a sample |
| Compare.ClassExactly | src/bench/compare.rs:183-221 | the exact condition of each of the four classes |
| Compare.AcceptedExactly | src/bench/compare.rs:201-221 | pass or noisy exactly with enough samples and known dispersion on both sides, and noise on either or not both budgets exceeded |
| Compare.ReportedFields | src/bench/compare.rs:222-231 | a row reports both sides' counts, medians and dispersions, their difference and its ratio to the baseline |
| Compare.FailsExactly | src/bench/compare.rs:183-221 | a comparison fails exactly when both budgets are exceeded on enough quiet samples, for any baseline median including zero |
| Compare.ImprovementNeverFails | src/bench/compare.rs:183-221 | a case that did not get slower never fails |
| Compare.ComparisonIgnoresOrder | src/bench/compare.rs:183-221 | classification does not depend on sample order |
| Gate.ChecksAreComplete | examples/benchmark.rs:939-1026 | the six provenance checks together compare every recorded field |
| Gate.FatesExactly | examples/benchmark.rs:1085-1110 | warmup is compared first, then kernel variant, dimensions and seed, and only a full match is classified |
| Gate.AgreesExactly | examples/benchmark.rs:1085-1128 | the tests come to field-by-field agreement and the acceptance condition on the statistics |
| GateReport.DuplicateNames | examples/benchmark.rs:1194-1203 | the result holds exactly the names that occur twice |
| GateReport.CompareCases | examples/benchmark.rs:1065-1129 | the loop classifies or rejects each case according to its fate |
| GateReport.ComparisonReport | src/bench/compare.rs:150-181 | the report adds the empty-comparison rejection when due, and passes exactly without rejections and failures or without enforcement |
| GateReport.CompareWithBaseline | examples/benchmark.rs:906-1171 | the rejections are exactly the justified ones, and the enforced gate passes exactly under the stated conditions |
| GateReport.ExitCode | examples/benchmark.rs:886-905 | an unloadable baseline fails in either mode; otherwise the code follows the gate |
| GateLaws.GateExactly | examples/benchmark.rs:926-1136 | nothing is rejected and no row fails exactly when names are unique, non-empty and the same set, provenance matches, and every case agrees field by field with its row and meets the acceptance condition |
| GateLaws.NothingSkipped | examples/benchmark.rs:1041-1129 | every current case has a row, a rejection of its own, or a run-level rejection |
| GateLaws.LegacyNeverPasses | examples/benchmark.rs:1410-1429 | a baseline without dispersion never passes an enforced gate |
| CudaState.DestroyedAccounted | src/gpu/accelerator.rs:1127-1131 | destroying a live resource with its context current keeps the account: each resource alive or destroyed once |
| ContextGuard.CurrentContextGuard.Capture | src/gpu/context.rs:49-57 | capture remembers the binding, or that it could not be read |
| ContextGuard.CurrentContextGuard.Enter | src/gpu/context.rs:62-77 | the owned context becomes current exactly when capture and binding succeed; otherwise nothing changes |
| ContextGuard.CurrentContextGuard.Drop | src/gpu/context.rs:84-98 | an armed guard puts the captured binding back unless that is refused |
| KernelModules.LoadModules | src/gpu/kernel.rs:93-173 | all modules load, or those already loaded are destroyed |
| Accelerator.InitContext | src/gpu/context.rs:102-126 | the context is retained and current on success, and released on failure |
| Accelerator.Acquire | src/gpu/accelerator.rs:96-162 | succeeds exactly when every step does; a failure gives everything back |
| Accelerator.TeardownOrder | src/gpu/accelerator.rs:1112-1135 | teardown destroys scratch, stream and modules in that order with the owned context current, idle unless synchronisation failed, and restores before releasing |
| Accelerator.GpuAccelerator.New | src/gpu/accelerator.rs:58-173 | a failed construction leaves nothing behind and restores the caller unless capture or restore failed |
| Accelerator.GpuAccelerator.EnsureAuxScratch | src/gpu/accelerator.rs:1033-1064 | exact success condition; both buffers exist together, have equal length, never shrink, and replaced ones were idle |
| Accelerator.PartialsCover | src/gpu/accelerator.rs:597-599 | the scratch length is the fewest blocks of 256 that cover the walkers |
| Accelerator.GpuAccelerator.AuxReduce | src/gpu/accelerator.rs:551-679 | exact success condition over dimensions, buffer lengths, context and driver; launches happen only with scratch for every block of 256 walkers |
| Accelerator.GpuAccelerator.Drop | src/gpu/accelerator.rs:1091-1136 | aborts exactly when the owned context cannot be entered; otherwise performs the teardown |
| Lifecycle.PerformAll | src/gpu/accelerator.rs:1033-1064 | over any sequence of calls and context switches the scratch buffers never shrink and nothing is given back unless idle |
| Lifecycle.Life | src/gpu/accelerator.rs:96-1136 | construction, any calls and context switches, drop: unless the process aborts nothing stays alive or retained, everything was destroyed once (and idle, if the last synchronisation succeeded), and the caller's binding is kept unless restoring it was refused |
| Lifecycle.Probe | src/capability.rs:334-338 | the probe leaves nothing behind and restores the caller's binding exactly when capture and restore succeed |

## Left out

- IEEE rounding, NaN, infinities and flush-to-zero: samples, scores, weights and activations are reals, so cosine and top-k cover finite scores only, as docs/ARCHITECTURE.md states, and percentile ranks use exact products.
- Values of square root, exponential and logarithm: parameters; the routing-entropy reduction differs from the membrane reduction only in its logarithm and is not modelled.
- Negative dimensions of the WalkSAT and LIF kernels: such launches return at once; dimensions are natural numbers here.
- Launches of more than 2^31 threads or with loop counters beyond 2^31: the kernels index out of bounds there, as the findings say, so their contracts exclude exactly those sizes.
- TernaryKernels.TernaryGemm: failures of the driver itself, which also refuses grids beyond its own block limit.
- Blocks whose size is not a multiple of 32: the reductions and routing kernels document full warps.
- Interleaving inside one thread body: bodies touch only cells of their own between barriers, so a launch is an order of whole bodies per phase.
- The vectorised 128-bit weight load and bulk unpacking helpers: they read the same fields.
- Accelerator.GpuAccelerator.AuxReduce: which error a refused call reports.
- Accelerator.GpuAccelerator.Drop: the order of destruction among the kernel modules is that of loading; the program's hash map leaves it unspecified.
- Sorting.Sort: stands for the library sort; only sortedness and permutation are used.
- Launch failures of kernels other than the scratch reduction, and the driver calls behind them.
- Scale computation from absolute maxima, binary packing, Poisson encoding, spike rate, membrane reset and logit bias: single-pass element-wise members.
- The capability decision table, error texts, redaction, toolchain canonicalisation, JSON, files, command line, clocks and printing: input and output; a report that cannot be written also makes the comparison exit with 1.
