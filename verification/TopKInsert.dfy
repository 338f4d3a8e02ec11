// The per-thread candidate lists of cosine_similarity_top_k: insertion in place and the
// strided scan over keys (cu/vector_similarity.cu:70-97, :221-240).

module TopKInsert {
  import opened Words
  import opened Strided
  import opened TopKSpec

  const MAX_ROUTING_TOP_K: nat := 32

  function View(scores: array<Score>, indices: array<int>, n: nat): (list: seq<Cand>)
    requires n <= scores.Length && n <= indices.Length
    reads scores, indices
    ensures |list| == n
  {
    seq(n, i requires 0 <= i < n reads scores, indices => Cand(scores[i], indices[i]))
  }

  // `c` put after the last element it does not beat, as the bubbling loop finds it.
  function InsertRight(list: seq<Cand>, c: Cand): (r: seq<Cand>)
    ensures |r| == |list| + 1
  {
    if list == [] then [c]
    else if Better(c, list[|list| - 1]) then InsertRight(list[..|list| - 1], c) + [list[|list| - 1]]
    else list + [c]
  }

  lemma {:induction false} InsertLeftAppend(a: seq<Cand>, x: Cand, c: Cand)
    requires Better(c, x)
    ensures InsertLeft(a + [x], c) == InsertLeft(a, c) + [x]
  {
    if a != [] && !Better(c, a[0]) {
      assert (a + [x])[1..] == a[1..] + [x];
      InsertLeftAppend(a[1..], x, c);
    }
  }

  lemma {:induction false} InsertLeftLast(a: seq<Cand>, c: Cand)
    requires forall i :: 0 <= i < |a| ==> !Better(c, a[i])
    ensures InsertLeft(a, c) == a + [c]
  {
    if a != [] {
      InsertLeftLast(a[1..], c);
    }
  }

  lemma {:induction false} InsertSidesAgree(list: seq<Cand>, c: Cand)
    requires Monotone(list, c)
    ensures InsertRight(list, c) == InsertLeft(list, c)
    decreases |list|
  {
    if list != [] {
      var n := |list| - 1;
      if Better(c, list[n]) {
        InsertSidesAgree(list[..n], c);
        InsertLeftAppend(list[..n], list[n], c);
        assert list == list[..n] + [list[n]];
      } else {
        InsertLeftLast(list, c);
      }
    }
  }

  // The list after topk_insert.
  function Inserted(list: seq<Cand>, c: Cand): (r: seq<Cand>)
    ensures |r| == |list|
  {
    if list == [] || !Better(c, list[|list| - 1]) then list else InsertRight(list[..|list| - 1], c)
  }

  lemma InsertedIsTruncatedInsert(list: seq<Cand>, c: Cand)
    requires Monotone(list, c)
    ensures Inserted(list, c) == InsertLeft(list, c)[..|list|]
  {
    if list != [] {
      var n := |list| - 1;
      assert list == list[..n] + [list[n]];
      if Better(c, list[n]) {
        InsertSidesAgree(list[..n], c);
        InsertLeftAppend(list[..n], list[n], c);
      } else {
        InsertLeftLast(list, c);
      }
    }
  }

  // Exchange the candidate at `pos` with its predecessor.
  method SwapInPlace(scores: array<Score>, indices: array<int>, pos: nat, topK: nat)
    requires 0 < pos < topK <= scores.Length && topK <= indices.Length
    modifies scores, indices
    ensures
      var before := old(View(scores, indices, topK));
      View(scores, indices, topK) == before[pos - 1 := before[pos]][pos := before[pos - 1]]
  {
    var tmpScore, tmpIdx := scores[pos - 1], indices[pos - 1];
    scores[pos - 1] := scores[pos];
    indices[pos - 1] := indices[pos];
    scores[pos] := tmpScore;
    indices[pos] := tmpIdx;
  }

  // topk_insert
  method TopkInsert(score: Score, idx: int, scores: array<Score>, indices: array<int>, topK: nat)
    requires topK <= scores.Length && topK <= indices.Length
    modifies scores, indices
    ensures View(scores, indices, topK) == Inserted(old(View(scores, indices, topK)), Cand(score, idx))
  {
    if topK <= 0 {
      return;
    }
    ghost var c := Cand(score, idx);
    ghost var list := View(scores, indices, topK);
    var tail := topK - 1;
    assert list[tail] == Cand(scores[tail], indices[tail]);
    if !Better(Cand(score, idx), Cand(scores[tail], indices[tail])) {
      return;
    }
    scores[tail] := score;
    indices[tail] := idx;
    assert View(scores, indices, topK) == list[..tail] + [c];
    var pos := tail;
    ghost var moved: seq<Cand> := [];
    while pos > 0
      invariant 0 <= pos <= tail && |moved| == tail - pos
      invariant View(scores, indices, topK) == list[..pos] + [c] + moved
      invariant InsertRight(list[..tail], c) == InsertRight(list[..pos], c) + moved
    {
      assert View(scores, indices, topK)[pos] == c;
      assert View(scores, indices, topK)[pos - 1] == list[pos - 1];
      if !Better(Cand(scores[pos], indices[pos]), Cand(scores[pos - 1], indices[pos - 1])) {
        break;
      }
      SwapDown(list, c, moved, pos);
      SwapInPlace(scores, indices, pos, topK);
      moved := [list[pos - 1]] + moved;
      pos := pos - 1;
    }
    assert InsertRight(list[..pos], c) == list[..pos] + [c];
  }

  lemma SwapDown(list: seq<Cand>, c: Cand, moved: seq<Cand>, pos: nat)
    requires 0 < pos < |list| && Better(c, list[pos - 1])
    ensures InsertRight(list[..pos], c) + moved == InsertRight(list[..pos - 1], c) + ([list[pos - 1]] + moved)
    ensures (list[..pos] + [c] + moved)[pos - 1 := c][pos := list[pos - 1]] == list[..pos - 1] + [c] + ([list[pos - 1]] + moved)
  {
    assert list[..pos][..pos - 1] == list[..pos - 1];
  }

  // ---- the scan of one thread ----

  // One key is inserted into the running list.
  lemma InsertVisited(scores: seq<real>, keys: set<nat>, n: nat, k: nat)
    requires Keys(scores, keys) && k < |scores| && k !in keys
    ensures Inserted(TopSeq(scores, keys, n), Key(scores, k)) == TopSeq(scores, keys + {k}, n)
  {
    TopSeqMonotone(scores, keys, n, k);
    InsertedIsTruncatedInsert(TopSeq(scores, keys, n), Key(scores, k));
    InsertIsTop(scores, keys, n, k);
  }

  // The body of the scan for one key.
  method TakeKey(scores: seq<real>, localScores: array<Score>, localIndices: array<int>, actualK: nat,
                 k: nat, ghost keys: set<nat>)
    requires actualK <= localScores.Length && actualK <= localIndices.Length
    requires Keys(scores, keys) && k < |scores| && k !in keys
    requires View(localScores, localIndices, actualK) == TopSeq(scores, keys, actualK)
    modifies localScores, localIndices
    ensures View(localScores, localIndices, actualK) == TopSeq(scores, keys + {k}, actualK)
  {
    InsertVisited(scores, keys, actualK, k);
    TopkInsert(Finite(scores[k]), k, localScores, localIndices, actualK);
  }

  // for (k = first; k < n_keys; k += stride): write the score into the row at `base`, insert the key.
  method ScanKeys(scores: seq<real>, similarities: array<real>, base: nat, first: nat, stride: nat, actualK: nat)
    returns (list: seq<Cand>)
    requires first < stride && |scores| + stride <= TWO31
    requires actualK <= MAX_ROUTING_TOP_K && base + |scores| <= similarities.Length
    modifies similarities
    ensures list == TopSeq(scores, Visited(first, stride, |scores|), actualK)
    ensures similarities[..base] == old(similarities[..base])
    ensures Written(old(similarities[base..]), similarities[base..], scores, Visited(first, stride, |scores|))
  {
    var localScores, localIndices := EmptyList();
    AllEmpty(scores, actualK);
    assert View(localScores, localIndices, actualK) == TopSeq(scores, {}, actualK);
    ghost var before := similarities[base..];
    ghost var keys: set<nat> := {};
    var k: int := first;
    VisitedStart(first, stride, Min(k, |scores|));
    while k < |scores|
      invariant 0 <= k && k % stride == first
      invariant keys == Visited(first, stride, Min(k, |scores|))
      invariant View(localScores, localIndices, actualK) == TopSeq(scores, keys, actualK)
      invariant similarities[..base] == old(similarities[..base])
      invariant Written(before, similarities[base..], scores, keys)
      decreases |scores| - k
    {
      WrittenStep(before, similarities[base..], scores, keys, k);
      StoreAt(similarities, base, k, scores[k]);
      TakeKey(scores, localScores, localIndices, actualK, k, keys);
      VisitedStep(first, stride, k, Min(k + stride, |scores|));
      keys := keys + {k};
      NextIndexIsPlain(k, stride);
      k := NextIndex(k, stride);
    }
    list := View(localScores, localIndices, actualK);
  }

  method EmptyList() returns (localScores: array<Score>, localIndices: array<int>)
    ensures fresh(localScores) && fresh(localIndices)
    ensures localScores.Length == localIndices.Length == MAX_ROUTING_TOP_K
    ensures forall i :: 0 <= i < MAX_ROUTING_TOP_K ==> localScores[i] == NegInf && localIndices[i] == INT_MAX
  {
    localScores := new Score[MAX_ROUTING_TOP_K](_ => NegInf);
    localIndices := new int[MAX_ROUTING_TOP_K](_ => INT_MAX);
  }
}
