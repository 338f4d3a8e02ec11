// The cosine kernels as the device runs them, against the scalar oracle
// (cu/vector_similarity.cu:33-57, :137-161, :203-230; src/oracle.rs:105-138).

module CosineKernels {
  import opened Words
  import opened Launch
  import opened Folds
  import opened Warp
  import opened Cosine
  import opened TopKBlock

  // ---- one pair ----

  lemma OneThreadFolds(s: seq<Sums>)
    ensures StridedFold(Add, ZERO, s, 0, 1) == Fold(Add, ZERO, s)
  {
    AddIsMonoid();
    StridedFoldsTotal(Add, ZERO, s, 1);
    var only := StridedFold(Add, ZERO, s, 0, 1);
    assert StridedFolds(Add, ZERO, s, 1) == [only];
    assert Fold(Add, ZERO, [only][1..]) == ZERO;
    assert Neutral(Add, ZERO, only);
  }

  // cosine_pair_score: one thread for short vectors, otherwise 32 lanes and the shuffle tree.
  method PairScore(sqrt: real -> real, q: seq<real>, k: seq<real>) returns (score: real)
    requires |q| == |k| && NonNegative(sqrt) && |q| + 32 <= TWO31
    ensures score == Score(sqrt, q, k)
  {
    var sums;
    AddIsMonoid();
    if |q| <= 32 {
      sums := AccumulateStrided(Add, ZERO, Terms(q, k), 0, 1);
      OneThreadFolds(Terms(q, k));
    } else {
      var lanes: seq<Sums> := [];
      for lane := 0 to 32
        invariant |lanes| == lane
        invariant forall l: nat :: l < lane ==> lanes[l] == StridedFold(Add, ZERO, Terms(q, k), l, 32)
      {
        var mine := AccumulateStrided(Add, ZERO, Terms(q, k), lane, 32);
        lanes := lanes + [mine];
      }
      assert lanes == StridedFolds(Add, ZERO, Terms(q, k), 32);
      StridedFoldsTotal(Add, ZERO, Terms(q, k), 32);
      sums := WarpTotal(Add, ZERO, lanes);
    }
    NormsNonNegative(q, k);
    score := CosineScore(sqrt, sums);
  }

  // The oracle's loop over one pair.
  method OraclePair(sqrt: real -> real, q: seq<real>, k: seq<real>) returns (score: real)
    requires |q| == |k| && NonNegative(sqrt)
    ensures score == Score(sqrt, q, k)
  {
    var dot, normQ, normK := 0.0, 0.0, 0.0;
    AddIsMonoid();
    for d := 0 to |q|
      invariant Sums(dot, normQ, normK) == Fold(Add, ZERO, Terms(q, k)[..d])
    {
      FoldAppend(Add, ZERO, Terms(q, k)[..d], Terms(q, k)[d]);
      assert Terms(q, k)[..d + 1] == Terms(q, k)[..d] + [Terms(q, k)[d]];
      dot := dot + q[d] * k[d];
      normQ := normQ + q[d] * q[d];
      normK := normK + k[d] * k[d];
    }
    assert Terms(q, k)[..|q|] == Terms(q, k);
    NormsNonNegative(q, k);
    score := CosineScore(sqrt, Sums(dot, normQ, normK));
  }

  // ---- the matrix of all pairs ----

  datatype Batch = Batch(queries: seq<real>, keys: seq<real>, nQueries: nat, nKeys: nat, dim: nat)

  function CellCount(b: Batch): nat {
    b.nQueries * b.nKeys
  }

  ghost predicate BatchFits(b: Batch) {
    b.nQueries * b.dim <= |b.queries| && b.nKeys * b.dim <= |b.keys|
  }

  function PairAt(sqrt: real -> real, b: Batch, q: nat, k: nat): real
    requires BatchFits(b) && NonNegative(sqrt) && q < b.nQueries && k < b.nKeys
  {
    RowInside(q, b.nQueries, b.dim);
    RowInside(k, b.nKeys, b.dim);
    Score(sqrt, Row(b.queries, q, b.dim), Row(b.keys, k, b.dim))
  }

  ghost predicate CellIs(sqrt: real -> real, b: Batch, out: seq<real>, q: nat, k: nat)
    requires BatchFits(b) && NonNegative(sqrt) && q < b.nQueries && k < b.nKeys
  {
    0 <= q * b.nKeys + k < |out| && out[q * b.nKeys + k] == PairAt(sqrt, b, q, k)
  }

  // Every query-key pair has its score in its row-major cell.
  ghost predicate AllScores(sqrt: real -> real, b: Batch, out: seq<real>)
    requires BatchFits(b) && NonNegative(sqrt)
  {
    forall q: nat, k: nat :: q < b.nQueries && k < b.nKeys ==> CellIs(sqrt, b, out, q, k)
  }

  // That leaves no freedom in the matrix, so kernel and oracle agree.
  lemma AllScoresUnique(sqrt: real -> real, b: Batch, x: seq<real>, y: seq<real>)
    requires BatchFits(b) && NonNegative(sqrt) && AllScores(sqrt, b, x) && AllScores(sqrt, b, y)
    requires CellCount(b) <= |x| && CellCount(b) <= |y|
    ensures x[..CellCount(b)] == y[..CellCount(b)]
  {
    forall t: nat | t < CellCount(b) ensures x[t] == y[t] {
      CellOfThread(t, b.nQueries, b.nKeys);
      assert CellIs(sqrt, b, x, t / b.nKeys, t % b.nKeys) && CellIs(sqrt, b, y, t / b.nKeys, t % b.nKeys);
    }
  }

  // Cells already right stay right.
  ghost predicate Kept(sqrt: real -> real, b: Batch, before: seq<real>, after: seq<real>)
    requires BatchFits(b) && NonNegative(sqrt)
  {
    forall q: nat, k: nat :: q < b.nQueries && k < b.nKeys && CellIs(sqrt, b, before, q, k) ==> CellIs(sqrt, b, after, q, k)
  }

  // Storing one cell fills it and disturbs no other.
  lemma StoreKeeps(sqrt: real -> real, b: Batch, before: seq<real>, q: nat, k: nat, other: nat, key: nat)
    requires BatchFits(b) && NonNegative(sqrt) && q < b.nQueries && k < b.nKeys
    requires other < b.nQueries && key < b.nKeys && CellCount(b) <= |before|
    ensures 0 <= q * b.nKeys + k < |before|
    ensures CellIs(sqrt, b, before, other, key) || (other == q && key == k) ==>
      CellIs(sqrt, b, before[q * b.nKeys + k := PairAt(sqrt, b, q, k)], other, key)
  {
    ThreadOfCell(q, k, b.nQueries, b.nKeys);
    ThreadOfCell(other, key, b.nQueries, b.nKeys);
  }

  method StoreCell(sqrt: real -> real, b: Batch, out: array<real>, q: nat, k: nat, score: real)
    requires BatchFits(b) && NonNegative(sqrt) && q < b.nQueries && k < b.nKeys && CellCount(b) <= out.Length
    requires score == PairAt(sqrt, b, q, k)
    modifies out
    ensures CellIs(sqrt, b, out[..], q, k)
    ensures Kept(sqrt, b, old(out[..]), out[..])
    ensures out[CellCount(b)..] == old(out[CellCount(b)..])
  {
    ghost var before := out[..];
    ThreadOfCell(q, k, b.nQueries, b.nKeys);
    out[q * b.nKeys + k] := score;
    assert out[..] == before[q * b.nKeys + k := score];
    StoreKeeps(sqrt, b, before, q, k, q, k);
    forall other: nat, key: nat | other < b.nQueries && key < b.nKeys && CellIs(sqrt, b, before, other, key)
      ensures CellIs(sqrt, b, out[..], other, key)
    {
      StoreKeeps(sqrt, b, before, q, k, other, key);
    }
  }

  // qv = queries + q * dim; kv = keys + k * dim
  method DevicePair(sqrt: real -> real, b: Batch, q: nat, k: nat) returns (score: real)
    requires BatchFits(b) && NonNegative(sqrt) && q < b.nQueries && k < b.nKeys && b.dim + 32 <= TWO31
    ensures score == PairAt(sqrt, b, q, k)
  {
    RowInside(q, b.nQueries, b.dim);
    RowInside(k, b.nKeys, b.dim);
    score := PairScore(sqrt, Row(b.queries, q, b.dim), Row(b.keys, k, b.dim));
  }

  // One block of cosine_similarity_batched.
  method BatchedBlock(sqrt: real -> real, b: Batch, out: array<real>, q: nat, k: nat)
    requires BatchFits(b) && NonNegative(sqrt) && CellCount(b) <= out.Length && b.dim + 32 <= TWO31
    modifies out
    ensures q < b.nQueries && k < b.nKeys ==> CellIs(sqrt, b, out[..], q, k)
    ensures Kept(sqrt, b, old(out[..]), out[..])
    ensures out[CellCount(b)..] == old(out[CellCount(b)..])
  {
    if q >= b.nQueries || k >= b.nKeys {
      return;
    }
    var score := DevicePair(sqrt, b, q, k);
    StoreCell(sqrt, b, out, q, k, score);
  }

  // Blocks of the n_keys x n_queries grid in any order.
  ghost predicate PairSchedule(order: seq<(nat, nat)>, b: Batch) {
    forall q: nat, k: nat :: q < b.nQueries && k < b.nKeys ==> (k, q) in order
  }

  method BatchedLaunch(sqrt: real -> real, b: Batch, out: array<real>, order: seq<(nat, nat)>)
    requires BatchFits(b) && NonNegative(sqrt) && CellCount(b) <= out.Length && PairSchedule(order, b)
    requires b.dim + 32 <= TWO31
    modifies out
    ensures AllScores(sqrt, b, out[..])
    ensures out[CellCount(b)..] == old(out[CellCount(b)..])
  {
    for s := 0 to |order|
      invariant forall q: nat, k: nat :: q < b.nQueries && k < b.nKeys && (k, q) in order[..s] ==> CellIs(sqrt, b, out[..], q, k)
      invariant out[CellCount(b)..] == old(out[CellCount(b)..])
    {
      var (k, q) := order[s];
      BatchedBlock(sqrt, b, out, q, k);
      assert order[..s + 1] == order[..s] + [order[s]];
    }
    assert order[..|order|] == order;
  }

  // cosine_similarity_batched_oracle
  method BatchedOracle(sqrt: real -> real, b: Batch) returns (out: array<real>)
    requires BatchFits(b) && NonNegative(sqrt)
    ensures fresh(out) && out.Length == CellCount(b) && AllScores(sqrt, b, out[..])
  {
    out := new real[CellCount(b)](_ => 0.0);
    for q := 0 to b.nQueries
      invariant forall p: nat :: p < q ==> RowDone(sqrt, b, out[..], p, b.nKeys)
    {
      ghost var before := out[..];
      OracleRow(sqrt, b, out, q);
      forall p: nat | p < q ensures RowDone(sqrt, b, out[..], p, b.nKeys) {
        RowKept(sqrt, b, before, out[..], p, b.nKeys);
      }
    }
    forall q: nat, k: nat | q < b.nQueries && k < b.nKeys ensures CellIs(sqrt, b, out[..], q, k) {
      assert RowDone(sqrt, b, out[..], q, b.nKeys);
    }
  }

  // The first n cells of row q are in place.
  ghost predicate RowDone(sqrt: real -> real, b: Batch, out: seq<real>, q: nat, n: nat)
    requires BatchFits(b) && NonNegative(sqrt) && q < b.nQueries && n <= b.nKeys
  {
    forall k: nat :: k < n ==> CellIs(sqrt, b, out, q, k)
  }

  lemma RowKept(sqrt: real -> real, b: Batch, before: seq<real>, after: seq<real>, q: nat, n: nat)
    requires BatchFits(b) && NonNegative(sqrt) && q < b.nQueries && n <= b.nKeys
    requires RowDone(sqrt, b, before, q, n) && Kept(sqrt, b, before, after)
    ensures RowDone(sqrt, b, after, q, n)
  {
    forall k: nat | k < n ensures CellIs(sqrt, b, after, q, k) {
      assert CellIs(sqrt, b, before, q, k);
    }
  }

  lemma RowGrows(sqrt: real -> real, b: Batch, out: seq<real>, q: nat, n: nat)
    requires BatchFits(b) && NonNegative(sqrt) && q < b.nQueries && n < b.nKeys
    requires RowDone(sqrt, b, out, q, n) && CellIs(sqrt, b, out, q, n)
    ensures RowDone(sqrt, b, out, q, n + 1)
  {
  }

  lemma KeptOnwards(sqrt: real -> real, b: Batch, x: seq<real>, y: seq<real>, z: seq<real>)
    requires BatchFits(b) && NonNegative(sqrt) && Kept(sqrt, b, x, y) && Kept(sqrt, b, y, z)
    ensures Kept(sqrt, b, x, z)
  {
    forall q: nat, k: nat | q < b.nQueries && k < b.nKeys && CellIs(sqrt, b, x, q, k) ensures CellIs(sqrt, b, z, q, k) {
      assert CellIs(sqrt, b, y, q, k);
    }
  }

  method OracleCell(sqrt: real -> real, b: Batch, out: array<real>, q: nat, k: nat)
    requires BatchFits(b) && NonNegative(sqrt) && out.Length == CellCount(b) && q < b.nQueries && k < b.nKeys
    modifies out
    ensures CellIs(sqrt, b, out[..], q, k) && Kept(sqrt, b, old(out[..]), out[..])
  {
    RowInside(q, b.nQueries, b.dim);
    RowInside(k, b.nKeys, b.dim);
    var score := OraclePair(sqrt, Row(b.queries, q, b.dim), Row(b.keys, k, b.dim));
    StoreCell(sqrt, b, out, q, k, score);
  }

  method OracleRow(sqrt: real -> real, b: Batch, out: array<real>, q: nat)
    requires BatchFits(b) && NonNegative(sqrt) && out.Length == CellCount(b) && q < b.nQueries
    modifies out
    ensures RowDone(sqrt, b, out[..], q, b.nKeys) && Kept(sqrt, b, old(out[..]), out[..])
  {
    for k := 0 to b.nKeys
      invariant RowDone(sqrt, b, out[..], q, k) && Kept(sqrt, b, old(out[..]), out[..])
    {
      ghost var before := out[..];
      OracleCell(sqrt, b, out, q, k);
      RowKept(sqrt, b, before, out[..], q, k);
      RowGrows(sqrt, b, out[..], q, k);
      KeptOnwards(sqrt, b, old(out[..]), before, out[..]);
    }
  }

  // ---- routing ----

  // Similarities of one query to all keys.
  function QueryRow(sqrt: real -> real, b: Batch, q: nat): (scores: seq<real>)
    requires BatchFits(b) && NonNegative(sqrt) && q < b.nQueries
    ensures |scores| == b.nKeys
  {
    seq(b.nKeys, k requires 0 <= k < b.nKeys => PairAt(sqrt, b, q, k))
  }

  function SlotCount(b: Batch, topK: nat): nat {
    b.nQueries * topK
  }

  // The block of query q owns row q of the similarities and of the output slots.
  ghost predicate RouteFits(b: Batch, similarities: nat, out: nat, topK: nat, nWarps: nat) {
    && CellCount(b) <= similarities && SlotCount(b, topK) <= out && b.dim + 32 <= TWO31
    && b.nKeys + KeyStride(b.dim, nWarps) <= TWO31 && topK + 32 * nWarps <= TWO31
  }

  // Query q is routed: its slots hold the top keys of its similarity row, which is stored.
  ghost predicate Routed(sqrt: real -> real, b: Batch, similarities: seq<real>, out: seq<int>, topK: nat, q: nat)
    requires BatchFits(b) && NonNegative(sqrt) && q < b.nQueries
    requires CellCount(b) <= |similarities| && SlotCount(b, topK) <= |out|
  {
    RowInside(q, b.nQueries, b.nKeys);
    RowInside(q, b.nQueries, topK);
    && Row(similarities, q, b.nKeys) == QueryRow(sqrt, b, q)
    && IsTopK(QueryRow(sqrt, b, q), Row(out, q, topK))
  }

  // One block of cosine_similarity_top_k.
  method RouteQuery(sqrt: real -> real, b: Batch, q: nat, similarities: array<real>, out: array<int>, topK: nat, shape: BlockShape)
    requires BatchFits(b) && NonNegative(sqrt) && q < b.nQueries && topK > 0
    requires LegalShape(shape) && RouteFits(b, similarities.Length, out.Length, topK, shape.nWarps)
    modifies similarities, out
    ensures Routed(sqrt, b, similarities[..], out[..], topK, q)
    ensures OnlyRowChanged(old(similarities[..]), similarities[..], q, b.nKeys)
    ensures OnlyRowChanged(old(out[..]), out[..], q, topK)
  {
    RowInside(q, b.nQueries, b.nKeys);
    RowInside(q, b.nQueries, topK);
    var simBase, outBase := q * b.nKeys, q * topK;
    var scores := ScoreKeys(sqrt, b, q);
    ghost var sims, slots := similarities[..], out[..];
    TopKRow(scores, similarities, simBase, out, outBase, b.dim, topK, shape);
    SlicesKept(sims, similarities[..], q, b.nKeys, simBase);
    SlicesKept(slots, out[..], q, topK, outBase);
    RowsAreRouted(sqrt, b, similarities[..], out[..], topK, q, simBase, outBase);
  }

  lemma RowsAreRouted(sqrt: real -> real, b: Batch, s: seq<real>, o: seq<int>, topK: nat, q: nat, simBase: nat, outBase: nat)
    requires BatchFits(b) && NonNegative(sqrt) && q < b.nQueries
    requires CellCount(b) <= |s| && SlotCount(b, topK) <= |o|
    requires simBase == q * b.nKeys && simBase + b.nKeys <= |s| && outBase == q * topK && outBase + topK <= |o|
    requires s[simBase..simBase + b.nKeys] == QueryRow(sqrt, b, q)
    requires IsTopK(QueryRow(sqrt, b, q), o[outBase..outBase + topK])
    ensures Routed(sqrt, b, s, o, topK, q)
  {
  }

  lemma RoutedKept(sqrt: real -> real, b: Batch, s: seq<real>, s': seq<real>, o: seq<int>, o': seq<int>, topK: nat, q: nat, p: nat)
    requires BatchFits(b) && NonNegative(sqrt) && q < b.nQueries && p < b.nQueries && p != q
    requires CellCount(b) <= |s| && SlotCount(b, topK) <= |o|
    requires OnlyRowChanged(s, s', q, b.nKeys) && OnlyRowChanged(o, o', q, topK)
    requires Routed(sqrt, b, s, o, topK, p)
    ensures Routed(sqrt, b, s', o', topK, p)
  {
    RowInside(p, b.nQueries, b.nKeys);
    RowInside(p, b.nQueries, topK);
    OtherRowKept(s, s', q, p, b.nKeys);
    OtherRowKept(o, o', q, p, topK);
  }

  // The block of `q` as the launch sees it; blocks past the last query return at once.
  method RouteBlock(sqrt: real -> real, b: Batch, q: nat, similarities: array<real>, out: array<int>, topK: nat, shape: BlockShape)
    requires BatchFits(b) && NonNegative(sqrt) && topK > 0
    requires LegalShape(shape) && RouteFits(b, similarities.Length, out.Length, topK, shape.nWarps)
    modifies similarities, out
    ensures q < b.nQueries ==> Routed(sqrt, b, similarities[..], out[..], topK, q)
    ensures forall p: nat :: p < b.nQueries && Routed(sqrt, b, old(similarities[..]), old(out[..]), topK, p) ==>
      Routed(sqrt, b, similarities[..], out[..], topK, p)
    ensures KeptBeyond(old(similarities[..]), similarities[..], CellCount(b))
    ensures KeptBeyond(old(out[..]), out[..], SlotCount(b, topK))
  {
    if q >= b.nQueries {
      return;
    }
    ghost var sims, slots := similarities[..], out[..];
    RouteQuery(sqrt, b, q, similarities, out, topK, shape);
    BeyondKept(sims, similarities[..], q, b.nQueries, b.nKeys, CellCount(b));
    BeyondKept(slots, out[..], q, b.nQueries, topK, SlotCount(b, topK));
    forall p: nat | p < b.nQueries && Routed(sqrt, b, sims, slots, topK, p)
      ensures Routed(sqrt, b, similarities[..], out[..], topK, p)
    {
      if p != q {
        RoutedKept(sqrt, b, sims, similarities[..], slots, out[..], topK, q, p);
      }
    }
  }

  // cosine_similarity_top_k, blocks in any order: every query is routed.
  method RouteBlocks(sqrt: real -> real, b: Batch, similarities: array<real>, out: array<int>, topK: nat, nWarps: nat,
                     shapes: seq<BlockShape>, order: seq<nat>)
    requires BatchFits(b) && NonNegative(sqrt) && topK > 0
    requires RouteFits(b, similarities.Length, out.Length, topK, nWarps)
    requires forall q :: 0 <= q < |shapes| ==> LegalShape(shapes[q]) && shapes[q].nWarps == nWarps
    requires b.nQueries <= |shapes| && Schedule(order, |shapes|)
    modifies similarities, out
    ensures forall q: nat :: q < b.nQueries ==> Routed(sqrt, b, similarities[..], out[..], topK, q)
    ensures KeptBeyond(old(similarities[..]), similarities[..], CellCount(b))
    ensures KeptBeyond(old(out[..]), out[..], SlotCount(b, topK))
  {
    for s := 0 to |order|
      invariant forall q: nat :: q < b.nQueries && Ran(order, s, q) ==> Routed(sqrt, b, similarities[..], out[..], topK, q)
      invariant KeptBeyond(old(similarities[..]), similarities[..], CellCount(b))
      invariant KeptBeyond(old(out[..]), out[..], SlotCount(b, topK))
    {
      RanStep(order, |shapes|, s);
      RouteBlock(sqrt, b, order[s], similarities, out, topK, shapes[order[s]]);
    }
    RanAll(order, |shapes|);
  }

  method RouteLaunch(sqrt: real -> real, b: Batch, similarities: array<real>, out: array<int>, topK: int, nWarps: nat,
                     shapes: seq<BlockShape>, order: seq<nat>)
    requires BatchFits(b) && NonNegative(sqrt)
    requires topK > 0 ==> RouteFits(b, similarities.Length, out.Length, topK, nWarps)
    requires forall q :: 0 <= q < |shapes| ==> LegalShape(shapes[q]) && shapes[q].nWarps == nWarps
    requires b.nQueries <= |shapes| && Schedule(order, |shapes|)
    modifies similarities, out
    ensures topK > 0 ==> forall q: nat :: q < b.nQueries ==> Routed(sqrt, b, similarities[..], out[..], topK, q)
    ensures topK > 0 ==> KeptBeyond(old(similarities[..]), similarities[..], CellCount(b))
    ensures topK > 0 ==> KeptBeyond(old(out[..]), out[..], SlotCount(b, topK))
    ensures topK <= 0 ==> out[..] == old(out[..]) && similarities[..] == old(similarities[..])
  {
    if topK > 0 {
      RouteBlocks(sqrt, b, similarities, out, topK, nWarps, shapes, order);
    }
  }

  method ScoreKeys(sqrt: real -> real, b: Batch, q: nat) returns (scores: seq<real>)
    requires BatchFits(b) && NonNegative(sqrt) && q < b.nQueries && b.dim + 32 <= TWO31
    ensures scores == QueryRow(sqrt, b, q)
  {
    scores := [];
    for k := 0 to b.nKeys
      invariant scores == QueryRow(sqrt, b, q)[..k]
    {
      var score := DevicePair(sqrt, b, q, k);
      scores := scores + [score];
    }
  }
}
