// What plasticity does to one synapse, over one update, two, and whole runs
// (cu/spiking_network.cu:234-256, :276-289, :303-315).

module StdpLaws {
  import opened Reals
  import opened Launch
  import opened Stdp

  // ---- one update ----

  // Away from the limits a weight gains 0.01 per post spike and pre trace and loses 0.012 per pre
  // spike and post trace; beyond them it stops at 0 and 2.
  lemma LearnedAmount(w: real, post: real, pre: real, postTrace: real, preTrace: real)
    ensures
      var u := w + 0.01 * post * preTrace - 0.012 * pre * postTrace;
      var l := Learned(w, post, pre, postTrace, preTrace);
      (0.0 <= u <= 2.0 ==> l == u) && (u < 0.0 ==> l == 0.0) && (u > 2.0 ==> l == 2.0)
  {
    var u := w + 0.01 * post * preTrace - 0.012 * pre * postTrace;
    ClampedAmount(u);
    SameProducts(A_PLUS, 0.01, post, preTrace);
    SameProducts(A_MINUS, 0.012, pre, postTrace);
    assert Learned(w, post, pre, postTrace, preTrace) == ClampWeight(u);
  }

  lemma SameProducts(a: real, b: real, x: real, y: real)
    requires a == b
    ensures a * x * y == b * x * y
  {
  }

  lemma ClampedAmount(u: real)
    ensures 0.0 <= u <= 2.0 ==> ClampWeight(u) == u
    ensures u < 0.0 ==> ClampWeight(u) == 0.0
    ensures u > 2.0 ==> ClampWeight(u) == 2.0
  {
  }

  // Without a pre spike the weight grows exactly for a post spike on a pre trace below the limit,
  // whatever the post trace.
  lemma StrengthensExactly(w: real, post: real, postTrace: real, preTrace: real)
    requires 0.0 <= w <= 2.0 && post >= 0.0 && preTrace >= 0.0
    ensures Learned(w, post, 0.0, postTrace, preTrace) > w <==> post > 0.0 && preTrace > 0.0 && w < 2.0
  {
    LearnedAmount(w, post, 0.0, postTrace, preTrace);
    ProductSign(post, preTrace, post * preTrace);
    assert 0.01 * post * preTrace == 0.01 * (post * preTrace);
    assert 0.012 * 0.0 * postTrace == 0.0;
  }

  // Without a post spike it shrinks exactly for a pre spike on a post trace above the limit.
  lemma WeakensExactly(w: real, pre: real, postTrace: real, preTrace: real)
    requires 0.0 <= w <= 2.0 && pre >= 0.0 && postTrace >= 0.0
    ensures Learned(w, 0.0, pre, postTrace, preTrace) < w <==> pre > 0.0 && postTrace > 0.0 && w > 0.0
  {
    LearnedAmount(w, 0.0, pre, postTrace, preTrace);
    ProductSign(pre, postTrace, pre * postTrace);
    assert 0.012 * pre * postTrace == 0.012 * (pre * postTrace);
    assert 0.01 * 0.0 * preTrace == 0.0;
  }

  lemma ProductSign(a: real, b: real, product: real)
    requires a >= 0.0 && b >= 0.0 && product == a * b
    ensures product >= 0.0 && (product > 0.0 <==> a > 0.0 && b > 0.0)
  {
    if a > 0.0 && b > 0.0 {
      ProductPositive(a, b, product);
    } else {
      assert product == 0.0;
    }
  }

  // The update at synapse (post, pre), whose weight is entry `i`.
  lemma UpdatedAt(fma: Fma, decay: real, s: Synapses, p: Plastic, post: nat, pre: nat, i: nat)
    requires PlasticFits(s, p) && post < s.nPost && pre < s.nPre && i == post * s.nPre + pre
    ensures i < |p.weights|
    ensures
      var u := Updated(fma, decay, s, p);
      var postTrace := fma(decay, p.postTraces[post], s.postSpikes[post]);
      var preTrace := fma(decay, p.preTraces[pre], s.preSpikes[pre]);
      && u.postTraces[post] == postTrace && u.preTraces[pre] == preTrace
      && u.weights[i] == Learned(p.weights[i], s.postSpikes[post], s.preSpikes[pre], postTrace, preTrace)
  {
    LearnAt(s, p.weights, Updated(fma, decay, s, p).postTraces, Updated(fma, decay, s, p).preTraces, post, pre);
  }

  // ---- two updates ----

  // A synapse whose traces have died out.
  ghost predicate Quiet(s: Synapses, p: Plastic, post: nat, pre: nat, i: nat) {
    && PlasticFits(s, p) && post < s.nPost && pre < s.nPre && i == post * s.nPre + pre
    && p.postTraces[post] == 0.0 && p.preTraces[pre] == 0.0 && i < |p.weights| && 0.0 <= p.weights[i] <= 2.0
  }

  ghost predicate Spikes(s: Synapses, post: nat, pre: nat, postSpike: real, preSpike: real) {
    post < |s.postSpikes| && pre < |s.preSpikes| && s.postSpikes[post] == postSpike && s.preSpikes[pre] == preSpike
  }

  // First the pre neuron spikes, then the post neuron: the synapse is strengthened.
  lemma PreThenPost(fma: Fma, d: real, d': real, s: Synapses, s': Synapses, p: Plastic, post: nat, pre: nat, i: nat)
    requires Exact(fma) && d' > 0.0 && Quiet(s, p, post, pre, i) && s'.nPost == s.nPost && s'.nPre == s.nPre
    requires Spikes(s, post, pre, 0.0, 1.0) && Spikes(s', post, pre, 1.0, 0.0)
    requires PlasticFits(s', Updated(fma, d, s, p))
    ensures
      var w := Updated(fma, d', s', Updated(fma, d, s, p)).weights[i];
      w == (if p.weights[i] + 0.01 * d' <= 2.0 then p.weights[i] + 0.01 * d' else 2.0)
  {
    var q := Updated(fma, d, s, p);
    UpdatedAt(fma, d, s, p, post, pre, i);
    UpdatedAt(fma, d', s', q, post, pre, i);
    ExactTraces(fma, d, p.postTraces[post], p.preTraces[pre]);
    assert q.postTraces[post] == 0.0 && q.preTraces[pre] == 1.0;
    LearnedAmount(p.weights[i], 0.0, 1.0, 0.0, 1.0);
    assert fma(d', 1.0, 0.0) == d' && fma(d', 0.0, 1.0) == 1.0;
    LearnedAmount(p.weights[i], 1.0, 0.0, 1.0, d');
  }

  // First the post neuron, then the pre neuron: it is weakened.
  lemma PostThenPre(fma: Fma, d: real, d': real, s: Synapses, s': Synapses, p: Plastic, post: nat, pre: nat, i: nat)
    requires Exact(fma) && d' > 0.0 && Quiet(s, p, post, pre, i) && s'.nPost == s.nPost && s'.nPre == s.nPre
    requires Spikes(s, post, pre, 1.0, 0.0) && Spikes(s', post, pre, 0.0, 1.0)
    requires PlasticFits(s', Updated(fma, d, s, p))
    ensures
      var w := Updated(fma, d', s', Updated(fma, d, s, p)).weights[i];
      w == (if p.weights[i] - 0.012 * d' >= 0.0 then p.weights[i] - 0.012 * d' else 0.0)
  {
    var q := Updated(fma, d, s, p);
    UpdatedAt(fma, d, s, p, post, pre, i);
    UpdatedAt(fma, d', s', q, post, pre, i);
    ExactTraces(fma, d, p.postTraces[post], p.preTraces[pre]);
    assert q.postTraces[post] == 1.0 && q.preTraces[pre] == 0.0;
    LearnedAmount(p.weights[i], 1.0, 0.0, 1.0, 0.0);
    assert fma(d', 1.0, 0.0) == d' && fma(d', 0.0, 1.0) == 1.0;
    LearnedAmount(p.weights[i], 0.0, 1.0, d', 1.0);
  }

  lemma ExactTraces(fma: Fma, d: real, x: real, y: real)
    requires Exact(fma) && x == 0.0 && y == 0.0
    ensures fma(d, x, 0.0) == 0.0 && fma(d, y, 1.0) == 1.0 && fma(d, x, 1.0) == 1.0 && fma(d, y, 0.0) == 0.0
  {
    assert d * 0.0 == 0.0;
  }

  // ---- traces over a run ----

  ghost predicate TraceStep(fma: Fma, d: real, traces: seq<seq<real>>, spikes: seq<seq<real>>, n: nat, t: nat)
    requires t < |spikes| && t + 1 < |traces|
  {
    n <= |traces[t]| && n <= |spikes[t]| && traces[t + 1] == Advanced(fma, d, traces[t], spikes[t], n)
  }

  ghost predicate TraceRun(fma: Fma, d: real, traces: seq<seq<real>>, spikes: seq<seq<real>>, n: nat) {
    && |traces| == |spikes| + 1 && (forall t :: 0 <= t < |traces| ==> |traces[t]| >= n)
    && (forall t :: 0 <= t < |spikes| ==> |spikes[t]| >= n)
    && forall t: nat :: t < |spikes| ==> TraceStep(fma, d, traces, spikes, n, t)
  }

  function Entry(rows: seq<seq<real>>, i: nat): (entries: seq<real>)
    requires forall t :: 0 <= t < |rows| ==> i < |rows[t]|
    ensures |entries| == |rows|
  {
    seq(|rows|, t requires 0 <= t < |rows| => rows[t][i])
  }

  // Over T updates a trace is the decayed start value plus the decayed sum of its spikes.
  lemma TraceInClosedForm(fma: Fma, d: real, traces: seq<seq<real>>, spikes: seq<seq<real>>, n: nat, i: nat)
    requires Exact(fma) && TraceRun(fma, d, traces, spikes, n) && i < n
    ensures traces[|spikes|][i] == Pow(d, |spikes|) * traces[0][i] + DecayedSum(d, Entry(spikes, i))
  {
    var values, inputs := Entry(traces, i), Entry(spikes, i);
    forall t: nat | t < |spikes| ensures DecayStep(d, values, inputs, t) {
      assert TraceStep(fma, d, traces, spikes, n, t);
      assert fma(d, traces[t][i], spikes[t][i]) == d * traces[t][i] + spikes[t][i];
    }
    DecayClosedForm(d, values, inputs);
  }
}
