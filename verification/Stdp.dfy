// Spike-timing plasticity: a weight launch followed by a trace launch
// (cu/spiking_network.cu:257-315; src/gpu/accelerator.rs:273-400).

module Stdp {
  import opened Reals
  import opened Words
  import opened Launch
  import opened Strided

  const A_PLUS: real := 0.01
  const A_MINUS: real := 0.012
  const TAU: real := 20.0
  const W_MIN: real := 0.0
  const W_MAX: real := 2.0

  function ClampWeight(w: real): (c: real)
    ensures W_MIN <= c <= W_MAX && (W_MIN <= w <= W_MAX ==> c == w)
  {
    var low := if w < W_MAX then w else W_MAX;
    if W_MIN < low then low else W_MIN
  }

  // One weight between a pre- and a postsynaptic neuron, given their advanced traces.
  function Learned(w: real, post: real, pre: real, postTrace: real, preTrace: real): real {
    ClampWeight(w + A_PLUS * post * preTrace - A_MINUS * pre * postTrace)
  }

  // The first n traces advanced by one step.
  function Advanced(fma: Fma, decay: real, traces: seq<real>, spikes: seq<real>, n: nat): (after: seq<real>)
    requires n <= |traces| && n <= |spikes|
    ensures |after| == |traces|
  {
    seq(|traces|, i requires 0 <= i < |traces| => if i < n then fma(decay, traces[i], spikes[i]) else traces[i])
  }

  // Sizes and spikes of one update.
  datatype Synapses = Synapses(nPost: nat, nPre: nat, postSpikes: seq<real>, preSpikes: seq<real>)

  ghost predicate Fits(s: Synapses, weights: nat, post: nat, pre: nat) {
    && s.nPost * s.nPre <= weights && s.nPost <= post && s.nPre <= pre
    && s.nPost <= |s.postSpikes| && s.nPre <= |s.preSpikes|
  }

  // The row-major weight matrix after learning from the advanced traces.
  function Learn(s: Synapses, weights: seq<real>, postTraces: seq<real>, preTraces: seq<real>): (after: seq<real>)
    requires Fits(s, |weights|, |postTraces|, |preTraces|)
    ensures |after| == s.nPost * s.nPre
  {
    seq(s.nPost * s.nPre, t requires 0 <= t < s.nPost * s.nPre => CellOfThread(t, s.nPost, s.nPre);
      Learned(weights[t], s.postSpikes[t / s.nPre], s.preSpikes[t % s.nPre], postTraces[t / s.nPre], preTraces[t % s.nPre]))
  }

  // Weights and traces between updates.
  datatype Plastic = Plastic(weights: seq<real>, postTraces: seq<real>, preTraces: seq<real>)

  ghost predicate PlasticFits(s: Synapses, p: Plastic) {
    Fits(s, |p.weights|, |p.postTraces|, |p.preTraces|)
  }

  // One update: every trace advances once, and the weights learn from the advanced traces.
  function Updated(fma: Fma, decay: real, s: Synapses, p: Plastic): (after: Plastic)
    requires PlasticFits(s, p)
    ensures PlasticFits(s, after)
    ensures |after.weights| == |p.weights| && |after.postTraces| == |p.postTraces| && |after.preTraces| == |p.preTraces|
  {
    var post := Advanced(fma, decay, p.postTraces, s.postSpikes, s.nPost);
    var pre := Advanced(fma, decay, p.preTraces, s.preSpikes, s.nPre);
    Plastic(Learn(s, p.weights, post, pre) + p.weights[s.nPost * s.nPre..], post, pre)
  }

  // What the update means at one synapse.
  lemma LearnAt(s: Synapses, weights: seq<real>, postTraces: seq<real>, preTraces: seq<real>, post: nat, pre: nat)
    requires Fits(s, |weights|, |postTraces|, |preTraces|) && post < s.nPost && pre < s.nPre
    ensures 0 <= post * s.nPre + pre < s.nPost * s.nPre
    ensures Learn(s, weights, postTraces, preTraces)[post * s.nPre + pre]
         == Learned(weights[post * s.nPre + pre], s.postSpikes[post], s.preSpikes[pre], postTraces[post], preTraces[pre])
  {
    ThreadOfCell(post, pre, s.nPost, s.nPre);
  }

  // ---- the weight launch ----

  lemma AdvancedAt(fma: Fma, decay: real, traces: seq<real>, spikes: seq<real>, n: nat, i: nat)
    requires i < n <= |traces| && n <= |spikes|
    ensures Advanced(fma, decay, traces, spikes, n)[i] == fma(decay, traces[i], spikes[i])
  {
  }

  // One thread of stdp_update_weights: it reads the old traces and advances them locally.
  method WeightThread(fma: Fma, decay: real, s: Synapses, weights: array<real>, postTraces: array<real>,
                      preTraces: array<real>, idx: nat)
    requires Fits(s, weights.Length, postTraces.Length, preTraces.Length)
    requires weights != postTraces && weights != preTraces
    modifies weights
    ensures idx >= s.nPost * s.nPre ==> weights[..] == old(weights[..])
    ensures idx < s.nPost * s.nPre ==>
      var post := Advanced(fma, decay, postTraces[..], s.postSpikes, s.nPost);
      var pre := Advanced(fma, decay, preTraces[..], s.preSpikes, s.nPre);
      weights[..] == old(weights[..])[idx := Learn(s, old(weights[..]), post, pre)[idx]]
  {
    if idx >= s.nPost * s.nPre {
      return;
    }
    CellOfThread(idx, s.nPost, s.nPre);
    var post, pre := idx / s.nPre, idx % s.nPre;
    var preTr := fma(decay, preTraces[pre], s.preSpikes[pre]);
    var postTr := fma(decay, postTraces[post], s.postSpikes[post]);
    AdvancedAt(fma, decay, preTraces[..], s.preSpikes, s.nPre, pre);
    AdvancedAt(fma, decay, postTraces[..], s.postSpikes, s.nPost, post);
    LearnAtThread(s, weights[..], Advanced(fma, decay, postTraces[..], s.postSpikes, s.nPost),
      Advanced(fma, decay, preTraces[..], s.preSpikes, s.nPre), idx);
    weights[idx] := LearnWeight(weights[idx], s.postSpikes[post], s.preSpikes[pre], postTr, preTr);
  }

  method LearnWeight(before: real, ps: real, prs: real, postTr: real, preTr: real) returns (w: real)
    ensures w == Learned(before, ps, prs, postTr, preTr)
  {
    w := before;
    w := w + A_PLUS * ps * preTr;
    w := w - A_MINUS * prs * postTr;
    w := ClampWeight(w);
  }

  lemma LearnAtThread(s: Synapses, weights: seq<real>, postTraces: seq<real>, preTraces: seq<real>, idx: nat)
    requires Fits(s, |weights|, |postTraces|, |preTraces|) && idx < s.nPost * s.nPre
    ensures s.nPre > 0 && 0 <= idx / s.nPre < s.nPost && 0 <= idx % s.nPre < s.nPre
    ensures Learn(s, weights, postTraces, preTraces)[idx]
         == Learned(weights[idx], s.postSpikes[idx / s.nPre], s.preSpikes[idx % s.nPre],
                    postTraces[idx / s.nPre], preTraces[idx % s.nPre])
  {
    CellOfThread(idx, s.nPost, s.nPre);
  }

  // Each weight's new value depends on its own old value only.
  lemma LearnStep(s: Synapses, before: seq<real>, now: seq<real>, post: seq<real>, pre: seq<real>,
                  done: set<nat>, idx: nat)
    requires Fits(s, |before|, |post|, |pre|)
    requires Written(before, now, Learn(s, before, post, pre), done)
    requires idx !in done && idx < s.nPost * s.nPre
    ensures Learn(s, now, post, pre)[idx] == Learn(s, before, post, pre)[idx]
    ensures Written(before, now[idx := Learn(s, now, post, pre)[idx]], Learn(s, before, post, pre), done + {idx})
  {
    WrittenStep(before, now, Learn(s, before, post, pre), done, idx);
  }

  // stdp_update_weights, threads in any order.
  method WeightLaunch(fma: Fma, decay: real, s: Synapses, weights: array<real>, postTraces: array<real>,
                      preTraces: array<real>, threads: nat, order: seq<nat>)
    requires Fits(s, weights.Length, postTraces.Length, preTraces.Length)
    requires weights != postTraces && weights != preTraces
    requires s.nPost * s.nPre <= threads && Schedule(order, threads)
    modifies weights
    ensures
      var post := Advanced(fma, decay, postTraces[..], s.postSpikes, s.nPost);
      var pre := Advanced(fma, decay, preTraces[..], s.preSpikes, s.nPre);
      weights[..] == Learn(s, old(weights[..]), post, pre) + old(weights[s.nPost * s.nPre..])
  {
    ghost var before := weights[..];
    ghost var post := Advanced(fma, decay, postTraces[..], s.postSpikes, s.nPost);
    ghost var pre := Advanced(fma, decay, preTraces[..], s.preSpikes, s.nPre);
    ghost var done: set<nat> := {};
    for i := 0 to |order|
      invariant forall t: nat :: t in done <==> t < s.nPost * s.nPre && Ran(order, i, t)
      invariant Written(before, weights[..], Learn(s, before, post, pre), done)
    {
      var idx := order[i];
      RanStep(order, threads, i);
      if idx < s.nPost * s.nPre {
        LearnStep(s, before, weights[..], post, pre, done, idx);
        done := done + {idx};
      }
      WeightThread(fma, decay, s, weights, postTraces, preTraces, idx);
    }
    RanAll(order, threads);
    AllWritten(before, weights[..], Learn(s, before, post, pre), done);
  }

  lemma AllWritten(before: seq<real>, after: seq<real>, target: seq<real>, done: set<nat>)
    requires Written(before, after, target, done) && forall t: nat :: t in done <==> t < |target|
    ensures after == target + before[|target|..]
  {
  }

  // ---- the trace launch ----

  // One thread of stdp_update_traces: it owns entry tid of both trace buffers.
  method TraceThread(fma: Fma, decay: real, s: Synapses, postTraces: array<real>, preTraces: array<real>, tid: nat)
    requires Fits(s, s.nPost * s.nPre, postTraces.Length, preTraces.Length) && postTraces != preTraces
    modifies postTraces, preTraces
    ensures preTraces[..] == StepAt(fma, decay, old(preTraces[..]), s.preSpikes, s.nPre, tid)
    ensures postTraces[..] == StepAt(fma, decay, old(postTraces[..]), s.postSpikes, s.nPost, tid)
  {
    if tid < s.nPre {
      preTraces[tid] := fma(decay, preTraces[tid], s.preSpikes[tid]);
    }
    if tid < s.nPost {
      postTraces[tid] := fma(decay, postTraces[tid], s.postSpikes[tid]);
    }
  }

  ghost function StepAt(fma: Fma, decay: real, traces: seq<real>, spikes: seq<real>, n: nat, i: nat): seq<real>
    requires n <= |traces| && n <= |spikes|
  {
    if i < n then traces[i := fma(decay, traces[i], spikes[i])] else traces
  }

  // The entries of `done` have advanced once, the others not yet.
  ghost predicate PartlyAdvanced(fma: Fma, decay: real, before: seq<real>, now: seq<real>, spikes: seq<real>, n: nat,
                                 done: set<nat>) {
    && n <= |before| == |now| && n <= |spikes|
    && forall i: nat :: i < |before| ==>
      now[i] == if i < n && i in done then fma(decay, before[i], spikes[i]) else before[i]
  }

  lemma AdvanceOne(fma: Fma, decay: real, before: seq<real>, now: seq<real>, spikes: seq<real>, n: nat,
                   done: set<nat>, i: nat)
    requires PartlyAdvanced(fma, decay, before, now, spikes, n, done) && i !in done
    ensures PartlyAdvanced(fma, decay, before, StepAt(fma, decay, now, spikes, n, i), spikes, n, done + {i})
  {
  }

  // stdp_update_traces, threads in any order: every trace advances exactly once.
  method TraceLaunch(fma: Fma, decay: real, s: Synapses, postTraces: array<real>, preTraces: array<real>,
                     threads: nat, order: seq<nat>)
    requires Fits(s, s.nPost * s.nPre, postTraces.Length, preTraces.Length) && postTraces != preTraces
    requires IntGrid(order, threads, s.nPost) && s.nPre <= threads
    modifies postTraces, preTraces
    ensures preTraces[..] == Advanced(fma, decay, old(preTraces[..]), s.preSpikes, s.nPre)
    ensures postTraces[..] == Advanced(fma, decay, old(postTraces[..]), s.postSpikes, s.nPost)
  {
    ghost var preBefore, postBefore := preTraces[..], postTraces[..];
    ghost var done: set<nat> := {};
    for i := 0 to |order|
      invariant forall t: nat :: t in done <==> Ran(order, i, t)
      invariant PartlyAdvanced(fma, decay, preBefore, preTraces[..], s.preSpikes, s.nPre, done)
      invariant PartlyAdvanced(fma, decay, postBefore, postTraces[..], s.postSpikes, s.nPost, done)
    {
      ThreadIdIsPlain(order[i]);
      var tid: nat := ThreadId(order[i]);
      RanStep(order, threads, i);
      AdvanceOne(fma, decay, preBefore, preTraces[..], s.preSpikes, s.nPre, done, tid);
      AdvanceOne(fma, decay, postBefore, postTraces[..], s.postSpikes, s.nPost, done, tid);
      TraceThread(fma, decay, s, postTraces, preTraces, tid);
      done := done + {tid};
    }
    RanAll(order, threads);
  }

  // ---- the wrapper ----

  datatype Outcome = Done | NegativeShapeOrTime | BufferTooSmall | GridTooLarge

  // Schedules the device may choose for the two launches, for any number of threads.
  datatype Orders = Orders(weights: seq<nat>, traces: seq<nat>)

  function WeightBlocks(nPost: nat, nPre: nat): nat {
    CeilDiv(nPost * nPre, 256)
  }

  function TraceBlocks(nPost: nat, nPre: nat): nat {
    CeilDiv(if nPost > nPre then nPost else nPre, 256)
  }

  // The grids cover every index, and the trace kernel's 32-bit thread ids do not overflow.
  lemma GridsCover(nPost: nat, nPre: nat)
    requires nPost <= INT_MAX && nPre <= INT_MAX
    ensures nPost * nPre <= 256 * WeightBlocks(nPost, nPre)
    ensures nPost <= 256 * TraceBlocks(nPost, nPre) && nPre <= 256 * TraceBlocks(nPost, nPre) <= TWO31
    ensures IdsAreSafe(256 * TraceBlocks(nPost, nPre), if nPost > nPre then nPost else nPre)
  {
    WrapperGridFits(if nPost > nPre then nPost else nPre);
  }

  // stdp_update: the weights learn from exactly the trace values that are stored.
  method StdpUpdate(fma: Fma, exp: real -> real, weights: array<real>, preSpikes: seq<real>, postSpikes: seq<real>,
                    preTraces: array<real>, postTraces: array<real>, nPost: i32, nPre: i32, dt: real, orders: Orders)
      returns (outcome: Outcome)
    requires weights != postTraces && weights != preTraces && postTraces != preTraces
    requires nPost >= 0 && nPre >= 0 ==>
      Schedule(orders.weights, 256 * WeightBlocks(nPost, nPre)) && Schedule(orders.traces, 256 * TraceBlocks(nPost, nPre))
    modifies weights, preTraces, postTraces
    ensures outcome == Done <==>
      && nPost >= 0 && nPre >= 0 && dt >= 0.0
      && Fits(Synapses(nPost, nPre, postSpikes, preSpikes), weights.Length, postTraces.Length, preTraces.Length)
      && WeightBlocks(nPost, nPre) <= INT_MAX
    ensures outcome != Done ==>
      weights[..] == old(weights[..]) && preTraces[..] == old(preTraces[..]) && postTraces[..] == old(postTraces[..])
    ensures outcome == Done ==>
      Plastic(weights[..], postTraces[..], preTraces[..])
        == Updated(fma, exp(-dt / 20.0), Synapses(nPost, nPre, postSpikes, preSpikes),
                   old(Plastic(weights[..], postTraces[..], preTraces[..])))
  {
    if nPost < 0 || nPre < 0 || dt < 0.0 {
      return NegativeShapeOrTime;
    }
    if weights.Length < nPost * nPre || |preSpikes| < nPre || |postSpikes| < nPost
       || preTraces.Length < nPre || postTraces.Length < nPost {
      return BufferTooSmall;
    }
    var s := Synapses(nPost, nPre, postSpikes, preSpikes);
    var decay := exp(-dt / TAU);
    GridsCover(nPost, nPre);
    if nPost == 0 && nPre == 0 {
      return Done;
    }
    if nPost > 0 && nPre > 0 {
      if WeightBlocks(nPost, nPre) > INT_MAX {
        return GridTooLarge;
      }
      WeightLaunch(fma, decay, s, weights, postTraces, preTraces, 256 * WeightBlocks(nPost, nPre), orders.weights);
    }
    TraceLaunch(fma, decay, s, postTraces, preTraces, 256 * TraceBlocks(nPost, nPre), orders.traces);
    outcome := Done;
  }

  // The same update in the textbook order: all traces first, then the weights row by row.
  method StdpSequential(fma: Fma, decay: real, s: Synapses, weights: array<real>, postTraces: array<real>, preTraces: array<real>)
    requires Fits(s, weights.Length, postTraces.Length, preTraces.Length)
    requires weights != postTraces && weights != preTraces && postTraces != preTraces
    modifies weights, preTraces, postTraces
    ensures preTraces[..] == Advanced(fma, decay, old(preTraces[..]), s.preSpikes, s.nPre)
    ensures postTraces[..] == Advanced(fma, decay, old(postTraces[..]), s.postSpikes, s.nPost)
    ensures weights[..] == Learn(s, old(weights[..]), postTraces[..], preTraces[..]) + old(weights[s.nPost * s.nPre..])
  {
    AdvanceAll(fma, decay, preTraces, s.preSpikes, s.nPre);
    AdvanceAll(fma, decay, postTraces, s.postSpikes, s.nPost);
    LearnAll(s, weights, postTraces[..], preTraces[..]);
  }

  method LearnAll(s: Synapses, weights: array<real>, postTraces: seq<real>, preTraces: seq<real>)
    requires Fits(s, weights.Length, |postTraces|, |preTraces|)
    modifies weights
    ensures weights[..] == Learn(s, old(weights[..]), postTraces, preTraces) + old(weights[s.nPost * s.nPre..])
  {
    ghost var before, target := weights[..], Learn(s, weights[..], postTraces, preTraces);
    RowStartIsProduct(s.nPost, s.nPre);
    forall post: nat, pre: nat | post < s.nPost && pre < s.nPre
      ensures TargetCell(s, before, postTraces, preTraces, target, post, pre)
    {
      LearnInRow(s, before, postTraces, preTraces, post, pre);
    }
    LearnRows(s, weights, postTraces, preTraces, before, target);
  }

  // Entry (post, pre) of `target` is what that synapse learns.
  ghost predicate TargetCell(s: Synapses, before: seq<real>, postTraces: seq<real>, preTraces: seq<real>,
                             target: seq<real>, post: nat, pre: nat)
    requires Sized(s, before, postTraces, preTraces, target) && post < s.nPost && pre < s.nPre
  {
    var i := RowStart(post, s.nPre) + pre;
    i < |target| && target[i] == Learned(before[i], s.postSpikes[post], s.preSpikes[pre], postTraces[post], preTraces[pre])
  }

  ghost predicate Sized(s: Synapses, before: seq<real>, postTraces: seq<real>, preTraces: seq<real>, target: seq<real>) {
    && s.nPost <= |postTraces| && s.nPre <= |preTraces| && s.nPost <= |s.postSpikes| && s.nPre <= |s.preSpikes|
    && |target| <= |before| && |target| == RowStart(s.nPost, s.nPre)
  }

  ghost predicate Target(s: Synapses, before: seq<real>, postTraces: seq<real>, preTraces: seq<real>, target: seq<real>) {
    && Sized(s, before, postTraces, preTraces, target)
    && forall post: nat, pre: nat :: post < s.nPost && pre < s.nPre ==>
      TargetCell(s, before, postTraces, preTraces, target, post, pre)
  }

  method LearnRows(s: Synapses, weights: array<real>, postTraces: seq<real>, preTraces: seq<real>,
                   ghost before: seq<real>, ghost target: seq<real>)
    requires before == weights[..] && Target(s, before, postTraces, preTraces, target)
    modifies weights
    ensures weights[..] == Replaced(before, target, |target|)
  {
    ReplacedNothing(before, target);
    var row: nat := 0;
    for post := 0 to s.nPost
      invariant row == RowStart(post, s.nPre)
      invariant row <= |target| && weights[..] == Replaced(before, target, row)
    {
      NextRowStart(post, s.nPost, s.nPre);
      LearnRow(s, weights, postTraces, preTraces, post, row, before, target);
      row := row + s.nPre;
    }
  }

  // `target` up to entry i, `before` from there on.
  ghost function Replaced(before: seq<real>, target: seq<real>, i: nat): seq<real>
    requires i <= |target| && i <= |before|
  {
    target[..i] + before[i..]
  }

  method AdvanceAll(fma: Fma, decay: real, traces: array<real>, spikes: seq<real>, n: nat)
    requires n <= traces.Length && n <= |spikes|
    modifies traces
    ensures traces[..] == Advanced(fma, decay, old(traces[..]), spikes, n)
  {
    for i := 0 to n
      invariant traces[..] == Advanced(fma, decay, old(traces[..]), spikes, i)
    {
      traces[i] := fma(decay, traces[i], spikes[i]);
    }
  }

  lemma ReplacedNothing(before: seq<real>, target: seq<real>)
    requires |target| <= |before|
    ensures Replaced(before, target, 0) == before
  {
  }

  lemma ReplacedStep(before: seq<real>, target: seq<real>, i: nat)
    requires i < |target| <= |before|
    ensures Replaced(before, target, i)[i] == before[i]
    ensures Replaced(before, target, i)[i := target[i]] == Replaced(before, target, i + 1)
  {
  }

  method LearnRow(s: Synapses, weights: array<real>, postTraces: seq<real>, preTraces: seq<real>, post: nat,
                  row: nat, ghost before: seq<real>, ghost target: seq<real>)
    requires Target(s, before, postTraces, preTraces, target) && |before| == weights.Length
    requires post < s.nPost && row == RowStart(post, s.nPre) && row + s.nPre <= |target|
    requires weights[..] == Replaced(before, target, row)
    modifies weights
    ensures weights[..] == Replaced(before, target, row + s.nPre)
  {
    for pre := 0 to s.nPre
      invariant weights[..] == Replaced(before, target, row + pre)
    {
      assert TargetCell(s, before, postTraces, preTraces, target, post, pre);
      ReplacedStep(before, target, row + pre);
      weights[row + pre] := Learned(weights[row + pre], s.postSpikes[post], s.preSpikes[pre], postTraces[post], preTraces[pre]);
    }
  }

  lemma LearnInRow(s: Synapses, weights: seq<real>, postTraces: seq<real>, preTraces: seq<real>, post: nat, pre: nat)
    requires Fits(s, |weights|, |postTraces|, |preTraces|) && post < s.nPost && pre < s.nPre
    requires Sized(s, weights, postTraces, preTraces, Learn(s, weights, postTraces, preTraces))
    ensures TargetCell(s, weights, postTraces, preTraces, Learn(s, weights, postTraces, preTraces), post, pre)
  {
    RowStartIsProduct(post, s.nPre);
    LearnAt(s, weights, postTraces, preTraces, post, pre);
  }

  // ---- what learning does ----

  // A postsynaptic spike alone never weakens a synapse, a presynaptic spike alone never
  // strengthens it, and without spikes it stays as it is.
  lemma LearningDirection(w: real, post: real, pre: real, postTrace: real, preTrace: real)
    requires W_MIN <= w <= W_MAX && post >= 0.0 && pre >= 0.0 && postTrace >= 0.0 && preTrace >= 0.0
    ensures W_MIN <= Learned(w, post, pre, postTrace, preTrace) <= W_MAX
    ensures pre == 0.0 ==> Learned(w, post, pre, postTrace, preTrace) >= w
    ensures post == 0.0 ==> Learned(w, post, pre, postTrace, preTrace) <= w
    ensures pre == 0.0 && post == 0.0 ==> Learned(w, post, pre, postTrace, preTrace) == w
  {
    assert post * preTrace >= 0.0 && pre * postTrace >= 0.0;
    assert A_PLUS * post * preTrace == A_PLUS * (post * preTrace);
    assert A_MINUS * pre * postTrace == A_MINUS * (pre * postTrace);
  }
}
