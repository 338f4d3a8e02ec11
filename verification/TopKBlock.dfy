// One block of cosine_similarity_top_k: the block of one query
// (cu/vector_similarity.cu:187-289).

module TopKBlock {
  import opened Words
  import opened Launch
  import opened Strided
  import opened TopKSpec
  import opened TopKInsert
  import opened TopKMerge

  ghost function KeySet(n: nat): (keys: set<nat>)
    ensures forall k: nat :: k in keys <==> k < n
  {
    if n == 0 then {} else KeySet(n - 1) + {n - 1}
  }

  lemma {:induction false} KeySetSize(n: nat)
    ensures |KeySet(n)| == n
    decreases n
  {
    if n > 0 {
      var rest := KeySet(n - 1);
      KeySetSize(n - 1);
      assert |rest + {n - 1}| == |rest| + 1;
    }
  }

  // ---- which thread inserts which keys ----

  // Short vectors: one key per thread. Longer ones: one key per warp, kept by its lane 0.
  predicate ScalarPath(dim: nat) {
    dim <= 32
  }

  ghost function Share(dim: nat, nWarps: nat, n: nat, t: nat): (keys: set<nat>)
    requires nWarps > 0
    ensures forall k :: k in keys ==> k < n
  {
    if ScalarPath(dim) then Visited(t, 32 * nWarps, n)
    else if t % 32 == 0 then Visited(t / 32, nWarps, n)
    else {}
  }

  function Owner(dim: nat, nWarps: nat, k: nat): (t: nat)
    requires nWarps > 0
    ensures t < 32 * nWarps
  {
    if ScalarPath(dim) then k % (32 * nWarps) else 32 * (k % nWarps)
  }

  // Every key belongs to exactly one thread.
  lemma ShareIsOwned(dim: nat, nWarps: nat, n: nat, t: nat, k: nat)
    requires nWarps > 0
    ensures k in Share(dim, nWarps, n, t) <==> k < n && Owner(dim, nWarps, k) == t
  {
    if ScalarPath(dim) {
      VisitedMember(t, 32 * nWarps, n, k);
    } else {
      VisitedMember(t / 32, nWarps, n, k);
    }
  }

  ghost function LaneShares(dim: nat, nWarps: nat, n: nat, w: nat): (sets: seq<set<nat>>)
    requires nWarps > 0
    ensures |sets| == 32
  {
    seq(32, l requires 0 <= l < 32 => Share(dim, nWarps, n, 32 * w + l))
  }

  ghost function WarpShares(dim: nat, nWarps: nat, n: nat): (sets: seq<set<nat>>)
    requires nWarps > 0
    ensures |sets| == nWarps
  {
    seq(nWarps, w requires 0 <= w < nWarps => Union(LaneShares(dim, nWarps, n, w)))
  }

  lemma WarpShareIsOwned(dim: nat, nWarps: nat, n: nat, w: nat, k: nat)
    requires nWarps > 0
    ensures k in Union(LaneShares(dim, nWarps, n, w)) <==> k < n && Owner(dim, nWarps, k) / 32 == w
  {
    var sets := LaneShares(dim, nWarps, n, w);
    if k in Union(sets) {
      var l :| 0 <= l < 32 && k in sets[l];
      ShareIsOwned(dim, nWarps, n, 32 * w + l, k);
    }
    if k < n && Owner(dim, nWarps, k) / 32 == w {
      var l := Owner(dim, nWarps, k) % 32;
      ShareIsOwned(dim, nWarps, n, 32 * w + l, k);
      assert k in sets[l];
    }
  }

  lemma LaneSharesApart(dim: nat, nWarps: nat, n: nat, w: nat)
    requires nWarps > 0
    ensures Disjoint(LaneShares(dim, nWarps, n, w))
  {
    var sets := LaneShares(dim, nWarps, n, w);
    forall i, j ensures Apart(sets, i, j) {
      if 0 <= i < 32 && 0 <= j < 32 && i != j {
        forall k | k in sets[i] ensures k !in sets[j] {
          ShareIsOwned(dim, nWarps, n, 32 * w + i, k);
          ShareIsOwned(dim, nWarps, n, 32 * w + j, k);
        }
      }
    }
  }

  lemma WarpSharesApart(dim: nat, nWarps: nat, n: nat)
    requires nWarps > 0
    ensures Disjoint(WarpShares(dim, nWarps, n))
  {
    var sets := WarpShares(dim, nWarps, n);
    forall i, j ensures Apart(sets, i, j) {
      if 0 <= i < nWarps && 0 <= j < nWarps && i != j {
        forall k | k in sets[i] ensures k !in sets[j] {
          WarpShareIsOwned(dim, nWarps, n, i, k);
          WarpShareIsOwned(dim, nWarps, n, j, k);
        }
      }
    }
  }

  lemma WarpSharesCover(dim: nat, nWarps: nat, n: nat)
    requires nWarps > 0
    ensures Union(WarpShares(dim, nWarps, n)) == KeySet(n)
  {
    var sets := WarpShares(dim, nWarps, n);
    forall k: nat ensures k in Union(sets) <==> k < n {
      if k in Union(sets) {
        var w :| 0 <= w < nWarps && k in sets[w];
        WarpShareIsOwned(dim, nWarps, n, w, k);
      }
      if k < n {
        var w := Owner(dim, nWarps, k) / 32;
        WarpShareIsOwned(dim, nWarps, n, w, k);
        assert k in sets[w];
      }
    }
  }

  // ---- what the block must write ----

  function SelectedCount(topK: int, nKeys: nat): nat {
    if topK <= 0 then 0 else Min(Min(topK, nKeys), MAX_ROUTING_TOP_K)
  }

  // Slot t holds the key that exactly t keys of the row beat; further slots hold -1.
  ghost predicate IsTopK(scores: seq<real>, slots: seq<int>) {
    forall t :: 0 <= t < |slots| ==>
      if t < SelectedCount(|slots|, |scores|)
      then 0 <= slots[t] < |scores| && |BetterKeys(scores, KeySet(|scores|), slots[t])| == t
      else slots[t] == -1
  }

  lemma TopKUnique(scores: seq<real>, a: seq<int>, b: seq<int>)
    requires |a| == |b| && IsTopK(scores, a) && IsTopK(scores, b)
    ensures a == b
  {
    forall t | 0 <= t < |a| ensures a[t] == b[t] {
      if t < SelectedCount(|a|, |scores|) {
        RankDeterminesKey(scores, KeySet(|scores|), a[t], b[t]);
      }
    }
  }

  lemma BetterMeansFewer(scores: seq<real>, a: nat, b: nat)
    requires a < |scores| && b < |scores| && KeyBetter(scores, a, b)
    ensures |BetterKeys(scores, KeySet(|scores|), a)| < |BetterKeys(scores, KeySet(|scores|), b)|
  {
    var all := KeySet(|scores|);
    var x, y := BetterKeys(scores, all, a), BetterKeys(scores, all, b);
    assert a in y && a !in x;
    SubsetSize(x + {a}, y);
  }

  // The selection spelled out: valid keys by descending score and, among equals, ascending index;
  // every other key comes after all of them; further slots hold -1.
  lemma TopKMeaning(scores: seq<real>, slots: seq<int>, n: nat)
    requires IsTopK(scores, slots)
    requires n <= |slots| && n <= |scores| && n <= 32 && (n == |slots| || n == |scores| || n == 32)
    ensures forall t :: 0 <= t < n ==> 0 <= slots[t] < |scores|
    ensures forall s, t :: 0 <= s < t < n ==>
      scores[slots[s]] > scores[slots[t]] || (scores[slots[s]] == scores[slots[t]] && slots[s] < slots[t])
    ensures forall t, k :: 0 <= t < n && 0 <= k < |scores| && k !in slots[..n] ==>
      scores[slots[t]] > scores[k] || (scores[slots[t]] == scores[k] && slots[t] < k)
    ensures forall t :: n <= t < |slots| ==> slots[t] == -1
  {
    assert n == SelectedCount(|slots|, |scores|);
    forall s, t | 0 <= s < t < n ensures KeyBetter(scores, slots[s], slots[t]) {
      if KeyBetter(scores, slots[t], slots[s]) {
        BetterMeansFewer(scores, slots[t], slots[s]);
      }
    }
    forall t, k | 0 <= t < n && 0 <= k < |scores| && k !in slots[..n] ensures KeyBetter(scores, slots[t], k) {
      UnselectedIsWorse(scores, slots, n, t, k);
    }
  }

  lemma UnselectedIsWorse(scores: seq<real>, slots: seq<int>, n: nat, t: nat, k: nat)
    requires IsTopK(scores, slots) && n == SelectedCount(|slots|, |scores|)
    requires t < n && k < |scores| && k !in slots[..n]
    ensures KeyBetter(scores, slots[t], k)
  {
    assert slots[..n][t] == slots[t] != k;
    if KeyBetter(scores, k, slots[t]) {
      BetterMeansFewer(scores, k, slots[t]);
      var rank := |BetterKeys(scores, KeySet(|scores|), k)|;
      RankDeterminesKey(scores, KeySet(|scores|), slots[rank], k);
    }
  }

  lemma MergedIsTopK(scores: seq<real>, merged: seq<Cand>, t: nat)
    requires t < |merged| <= |scores| && Represents(merged, TopSeq(scores, KeySet(|scores|), |merged|))
    requires forall j :: 0 <= j < |merged| ==> merged[j] == Published(merged[j])
    ensures 0 <= merged[t].idx < |scores| && |BetterKeys(scores, KeySet(|scores|), merged[t].idx)| == t
  {
    KeySetSize(|scores|);
    TopSeqRanks(scores, KeySet(|scores|), |merged|, t);
    assert Match(merged[t], TopSeq(scores, KeySet(|scores|), |merged|)[t]);
  }

  // ---- the phases of the block ----

  ghost predicate ThreadDone(scores: seq<real>, dim: nat, nWarps: nat, k: nat, t: nat, list: seq<Cand>)
    requires nWarps > 0
  {
    Keys(scores, Share(dim, nWarps, |scores|, t)) && list == TopSeq(scores, Share(dim, nWarps, |scores|, t), k)
  }

  // Keys skipped from one to the next by the scan of a thread.
  function KeyStride(dim: nat, nWarps: nat): nat {
    if ScalarPath(dim) then 32 * nWarps else nWarps
  }

  // The candidate list of one thread, and its part of the similarity row at `base`.
  method ThreadList(scores: seq<real>, similarities: array<real>, base: nat, dim: nat, nWarps: nat, k: nat, t: nat)
    returns (list: seq<Cand>)
    requires 1 <= nWarps <= 32 && t < 32 * nWarps && k <= MAX_ROUTING_TOP_K && base + |scores| <= similarities.Length
    requires |scores| + KeyStride(dim, nWarps) <= TWO31
    modifies similarities
    ensures ThreadDone(scores, dim, nWarps, k, t, list)
    ensures similarities[..base] == old(similarities[..base])
    ensures Written(old(similarities[base..]), similarities[base..], scores, Share(dim, nWarps, |scores|, t))
  {
    var lane, warp := t % 32, t / 32;
    if ScalarPath(dim) {
      list := ScanKeys(scores, similarities, base, t, 32 * nWarps, k);
    } else if lane == 0 {
      list := ScanKeys(scores, similarities, base, warp, nWarps, k);
    } else {
      var localScores, localIndices := EmptyList();
      AllEmpty(scores, k);
      list := View(localScores, localIndices, k);
    }
  }

  method ScanPhase(scores: seq<real>, similarities: array<real>, base: nat, dim: nat, nWarps: nat, k: nat, order: seq<nat>)
    returns (lists: array<seq<Cand>>)
    requires 1 <= nWarps <= 32 && k <= MAX_ROUTING_TOP_K && base + |scores| <= similarities.Length
    requires |scores| + KeyStride(dim, nWarps) <= TWO31 && Schedule(order, 32 * nWarps)
    modifies similarities
    ensures fresh(lists) && lists.Length == 32 * nWarps
    ensures forall t: nat :: t < 32 * nWarps ==> ThreadDone(scores, dim, nWarps, k, t, lists[t])
    ensures forall t: nat :: t < 32 * nWarps ==> Stored(scores, similarities[base..], Share(dim, nWarps, |scores|, t))
    ensures similarities[..base] == old(similarities[..base])
    ensures similarities[base..][|scores|..] == old(similarities[base..][|scores|..])
  {
    lists := new seq<Cand>[32 * nWarps](_ => []);
    for s := 0 to |order|
      invariant forall t: nat :: Ran(order, s, t) ==> t < 32 * nWarps && ThreadDone(scores, dim, nWarps, k, t, lists[t])
      invariant forall t: nat :: Ran(order, s, t) ==> Stored(scores, similarities[base..], Share(dim, nWarps, |scores|, t))
      invariant similarities[..base] == old(similarities[..base])
      invariant similarities[base..][|scores|..] == old(similarities[base..][|scores|..])
    {
      var t := order[s];
      RanStep(order, 32 * nWarps, s);
      ghost var before := similarities[base..];
      lists[t] := ThreadList(scores, similarities, base, dim, nWarps, k, t);
      forall u: nat | Ran(order, s + 1, u) ensures Stored(scores, similarities[base..], Share(dim, nWarps, |scores|, u)) {
        if u != t {
          StoredGrows(scores, before, similarities[base..], Share(dim, nWarps, |scores|, t), Share(dim, nWarps, |scores|, u));
        }
      }
    }
    RanAll(order, 32 * nWarps);
  }

  // What warp w publishes in shared memory: the best of its lanes' keys.
  ghost predicate WarpDone(scores: seq<real>, dim: nat, nWarps: nat, k: nat, w: nat, list: seq<Cand>)
    requires nWarps > 0
  {
    var keys := Union(LaneShares(dim, nWarps, |scores|, w));
    |list| == k && Keys(scores, keys) && Represents(list, TopSeq(scores, keys, k))
  }

  lemma LanesAreLists(scores: seq<real>, dim: nat, nWarps: nat, k: nat, w: nat, lists: seq<seq<Cand>>)
    requires nWarps > 0 && |lists| == 32
    requires forall l: nat :: l < 32 ==> ThreadDone(scores, dim, nWarps, k, 32 * w + l, lists[l])
    ensures Lists(scores, lists, LaneShares(dim, nWarps, |scores|, w), k)
  {
    var sets := LaneShares(dim, nWarps, |scores|, w);
    forall i | 0 <= i < 32
      ensures Keys(scores, sets[i]) && |lists[i]| == k && Represents(lists[i], TopSeq(scores, sets[i], k))
    {
      assert ThreadDone(scores, dim, nWarps, k, 32 * w + i, lists[i]);
    }
  }

  method MergePhase(ghost scores: seq<real>, lists: array<seq<Cand>>, ghost dim: nat, nWarps: nat, k: nat, order: seq<nat>)
    returns (shared: array<seq<Cand>>)
    requires 1 <= nWarps <= 32 && lists.Length == 32 * nWarps && Schedule(order, nWarps)
    requires forall t: nat :: t < 32 * nWarps ==> ThreadDone(scores, dim, nWarps, k, t, lists[t])
    ensures fresh(shared) && shared.Length == nWarps
    ensures forall w: nat :: w < nWarps ==> WarpDone(scores, dim, nWarps, k, w, shared[w])
  {
    shared := new seq<Cand>[nWarps](_ => []);
    for s := 0 to |order|
      invariant forall w: nat :: Ran(order, s, w) ==> w < nWarps && WarpDone(scores, dim, nWarps, k, w, shared[w])
    {
      var w := order[s];
      RanStep(order, nWarps, s);
      var lanes := lists[32 * w..32 * w + 32];
      forall l: nat | l < 32 ensures ThreadDone(scores, dim, nWarps, k, 32 * w + l, lanes[l]) {
        assert lanes[l] == lists[32 * w + l];
      }
      LanesAreLists(scores, dim, nWarps, k, w, lanes);
      LaneSharesApart(dim, nWarps, |scores|, w);
      shared[w] := Merge(scores, lanes, LaneShares(dim, nWarps, |scores|, w), k);
    }
    RanAll(order, nWarps);
  }

  lemma WarpsAreLists(scores: seq<real>, dim: nat, nWarps: nat, k: nat, lists: seq<seq<Cand>>)
    requires 1 <= nWarps == |lists| <= 32
    requires forall w: nat :: w < nWarps ==> WarpDone(scores, dim, nWarps, k, w, lists[w])
    ensures Lists(scores, lists, WarpShares(dim, nWarps, |scores|), k)
  {
    var sets := WarpShares(dim, nWarps, |scores|);
    forall i | 0 <= i < nWarps
      ensures Keys(scores, sets[i]) && |lists[i]| == k && Represents(lists[i], TopSeq(scores, sets[i], k))
    {
      assert WarpDone(scores, dim, nWarps, k, i, lists[i]);
    }
  }

  // for (t = from + threadIdx.x; t < upto; t += blockDim.x) out_idx[t] = -1, for the slots at `base`
  method FillThread(out: array<int>, base: nat, from: nat, upto: nat, blockDim: nat, th: nat)
    requires from <= upto && base + upto <= out.Length && th < blockDim && upto + blockDim <= TWO31
    modifies out
    ensures out[..base + from] == old(out[..base + from]) && out[base + upto..] == old(out[base + upto..])
    ensures Written(old(out[base + from..]), out[base + from..], NoKeys(upto - from), Visited(th, blockDim, upto - from))
  {
    ghost var before := out[base + from..];
    ghost var target := NoKeys(upto - from);
    VisitedStart(th, blockDim, Min(th, upto - from));
    var t: int := from + th;
    while t < upto
      invariant from <= t && (t - from) % blockDim == th
      invariant out[..base + from] == old(out[..base + from]) && out[base + upto..] == old(out[base + upto..])
      invariant Written(before, out[base + from..], target, Visited(th, blockDim, Min(t - from, upto - from)))
      decreases upto - t
    {
      VisitedStep(th, blockDim, t - from, Min(t - from + blockDim, upto - from));
      WrittenStep(before, out[base + from..], target, Visited(th, blockDim, t - from), t - from);
      StoreAt(out, base + from, t - from, -1);
      assert out[base + upto..] == out[base + from..][upto - from..];
      NextIndexIsPlain(t, blockDim);
      t := NextIndex(t, blockDim);
    }
  }

  function NoKeys(n: nat): (slots: seq<int>)
    ensures |slots| == n
  {
    seq(n, _ => -1)
  }

  // The same by every thread of the block, in any order.
  method FillRest(out: array<int>, base: nat, from: nat, upto: nat, blockDim: nat, order: seq<nat>)
    requires from <= upto && base + upto <= out.Length && blockDim > 0 && upto + blockDim <= TWO31
    requires Schedule(order, blockDim)
    modifies out
    ensures out[..base + from] == old(out[..base + from]) && out[base + upto..] == old(out[base + upto..])
    ensures out[base + from..base + upto] == NoKeys(upto - from)
  {
    ghost var start, target := base + from, NoKeys(upto - from);
    ghost var now := out[start..];
    for s := 0 to |order|
      invariant now == out[start..]
      invariant forall th: nat :: Ran(order, s, th) ==> ThreadStored(target, now, blockDim, th)
      invariant out[..start] == old(out[..start]) && out[base + upto..] == old(out[base + upto..])
    {
      var th := order[s];
      RanStep(order, blockDim, s);
      ghost var before := now;
      FillThread(out, base, from, upto, blockDim, th);
      now := out[start..];
      ThreadStores(target, before, now, blockDim, th);
    }
    RanAll(order, blockDim);
    AllThreadsStored(target, now, blockDim);
    assert out[start..base + upto] == now[..|target|];
  }

  // The schedules of one block.
  datatype BlockShape = BlockShape(nWarps: nat, scanOrder: seq<nat>, mergeOrder: seq<nat>, fillOrder: seq<nat>)

  ghost predicate LegalShape(shape: BlockShape) {
    && 1 <= shape.nWarps <= 32
    && Schedule(shape.scanOrder, 32 * shape.nWarps) && Schedule(shape.mergeOrder, shape.nWarps)
    && Schedule(shape.fillOrder, 32 * shape.nWarps)
  }

  // Selection after the scores are known: both merges and the output slots.
  method SelectKeys(scores: seq<real>, similarities: array<real>, base: nat, dim: nat, k: nat, shape: BlockShape)
    returns (merged: seq<Cand>)
    requires LegalShape(shape) && k <= MAX_ROUTING_TOP_K && base + |scores| <= similarities.Length
    requires |scores| + KeyStride(dim, shape.nWarps) <= TWO31
    modifies similarities
    ensures Represents(merged, TopSeq(scores, KeySet(|scores|), k))
    ensures forall j :: 0 <= j < |merged| ==> merged[j] == Published(merged[j])
    ensures similarities[base..base + |scores|] == scores
    ensures similarities[..base] == old(similarities[..base])
    ensures similarities[base + |scores|..] == old(similarities[base + |scores|..])
  {
    var nWarps := shape.nWarps;
    ghost var tail := similarities[base + |scores|..];
    assert tail == similarities[base..][|scores|..];
    var lists := ScanPhase(scores, similarities, base, dim, nWarps, k, shape.scanOrder);
    AllStored(scores, similarities[base..], dim, nWarps);
    assert similarities[base..base + |scores|] == similarities[base..][..|scores|];
    assert similarities[base + |scores|..] == similarities[base..][|scores|..];
    var shared := MergePhase(scores, lists, dim, nWarps, k, shape.mergeOrder);
    // __syncthreads()
    WarpsAreLists(scores, dim, nWarps, k, shared[..]);
    WarpSharesApart(dim, nWarps, |scores|);
    WarpSharesCover(dim, nWarps, |scores|);
    merged := Merge(scores, shared[..], WarpShares(dim, nWarps, |scores|), k);
  }

  lemma AllStored(scores: seq<real>, similarities: seq<real>, dim: nat, nWarps: nat)
    requires nWarps > 0 && |scores| <= |similarities|
    requires forall t: nat :: t < 32 * nWarps ==> Stored(scores, similarities, Share(dim, nWarps, |scores|, t))
    ensures similarities[..|scores|] == scores
  {
    forall k: nat | k < |scores| ensures similarities[k] == scores[k] {
      ShareIsOwned(dim, nWarps, |scores|, Owner(dim, nWarps, k), k);
      assert Stored(scores, similarities, Share(dim, nWarps, |scores|, Owner(dim, nWarps, k)));
    }
  }

  function Indices(merged: seq<Cand>): (indices: seq<int>)
    ensures |indices| == |merged|
  {
    seq(|merged|, t requires 0 <= t < |merged| => merged[t].idx)
  }

  // Lane 0 of warp 0 writes the selected indices.
  method WriteSlots(out: array<int>, base: nat, merged: seq<Cand>)
    requires base + |merged| <= out.Length
    modifies out
    ensures out[base..base + |merged|] == Indices(merged)
    ensures out[..base] == old(out[..base]) && out[base + |merged|..] == old(out[base + |merged|..])
  {
    for slot := 0 to |merged|
      invariant out[base..base + slot] == Indices(merged)[..slot]
      invariant out[..base] == old(out[..base]) && out[base + |merged|..] == old(out[base + |merged|..])
    {
      out[base + slot] := merged[slot].idx;
      assert out[base..base + slot + 1] == out[base..base + slot] + [merged[slot].idx];
    }
  }

  lemma SlotsAreTopK(scores: seq<real>, slots: seq<int>, merged: seq<Cand>)
    requires |merged| == SelectedCount(|slots|, |scores|)
    requires Represents(merged, TopSeq(scores, KeySet(|scores|), |merged|))
    requires forall j :: 0 <= j < |merged| ==> merged[j] == Published(merged[j])
    requires forall t :: 0 <= t < |slots| ==> slots[t] == if t < |merged| then merged[t].idx else -1
    ensures IsTopK(scores, slots)
  {
    forall t | 0 <= t < |merged|
      ensures 0 <= slots[t] < |scores| && |BetterKeys(scores, KeySet(|scores|), slots[t])| == t
    {
      MergedIsTopK(scores, merged, t);
    }
  }

  // The output slots of a query: the selected indices, then -1.
  method WriteRow(out: array<int>, base: nat, merged: seq<Cand>, topK: nat, shape: BlockShape)
    requires LegalShape(shape) && |merged| <= topK && base + topK <= out.Length && topK + 32 * shape.nWarps <= TWO31
    modifies out
    ensures out[base..base + topK] == Indices(merged) + NoKeys(topK - |merged|)
    ensures out[..base] == old(out[..base]) && out[base + topK..] == old(out[base + topK..])
  {
    ghost var before := out[..];
    WriteSlots(out, base, merged);
    ghost var written := out[..];
    FillRest(out, base, |merged|, topK, 32 * shape.nWarps, shape.fillOrder);
    TwoParts(before, written, out[..], base, base + |merged|, base + topK);
  }

  // Filling base..mid and then mid..end leaves the rest alone and both parts in place.
  lemma TwoParts(before: seq<int>, written: seq<int>, after: seq<int>, base: nat, mid: nat, end: nat)
    requires base <= mid <= end <= |before| == |written| == |after|
    requires written[..base] == before[..base] && written[mid..] == before[mid..]
    requires after[..mid] == written[..mid] && after[end..] == written[end..]
    ensures after[base..end] == written[base..mid] + after[mid..end]
    ensures after[..base] == before[..base] && after[end..] == before[end..]
  {
    assert after[..base] == after[..mid][..base] && written[..base] == written[..mid][..base];
    assert after[base..mid] == after[..mid][base..] && written[base..mid] == written[..mid][base..];
    assert written[end..] == written[mid..][end - mid..] && before[end..] == before[mid..][end - mid..];
  }

  // What the block of one query needs: its similarity row and its output slots inside the
  // buffers, and loop counters that do not overflow.
  ghost predicate BlockFits(nKeys: nat, similarities: nat, simBase: nat, out: nat, outBase: nat, dim: nat, topK: int, nWarps: nat) {
    topK > 0 ==>
      && simBase + nKeys <= similarities && outBase + topK <= out
      && nKeys + KeyStride(dim, nWarps) <= TWO31 && topK + 32 * nWarps <= TWO31
  }

  // The kernel for one query: its row of scores at `simBase`, its `topK` output slots at `outBase`.
  method TopKRow(scores: seq<real>, similarities: array<real>, simBase: nat, out: array<int>, outBase: nat, dim: nat,
                 topK: int, shape: BlockShape)
    requires LegalShape(shape)
    requires BlockFits(|scores|, similarities.Length, simBase, out.Length, outBase, dim, topK, shape.nWarps)
    modifies similarities, out
    ensures topK <= 0 ==> out[..] == old(out[..]) && similarities[..] == old(similarities[..])
    ensures topK > 0 ==> IsTopK(scores, out[outBase..outBase + topK])
    ensures topK > 0 ==> out[..outBase] == old(out[..outBase]) && out[outBase + topK..] == old(out[outBase + topK..])
    ensures topK > 0 ==> similarities[simBase..simBase + |scores|] == scores
    ensures topK > 0 ==> similarities[..simBase] == old(similarities[..simBase])
    ensures topK > 0 ==> similarities[simBase + |scores|..] == old(similarities[simBase + |scores|..])
  {
    if topK <= 0 {
      return;
    }
    var requestedK := if topK < |scores| then topK else |scores|;
    var actualK := if requestedK < MAX_ROUTING_TOP_K then requestedK else MAX_ROUTING_TOP_K;
    if requestedK <= 0 {
      FillRest(out, outBase, 0, topK, 32 * shape.nWarps, shape.fillOrder);
      assert similarities[simBase..simBase] == scores;
      SlotsAreTopK(scores, out[outBase..outBase + topK], []);
      return;
    }
    var merged := SelectKeys(scores, similarities, simBase, dim, actualK, shape);
    WriteRow(out, outBase, merged, topK, shape);
    SlotsAreTopK(scores, out[outBase..outBase + topK], merged);
  }
}
