// The ranking contract of cosine_similarity_top_k: scores descending, equal scores by lower
// key index. `TopSeq` is the selection-sort reference the kernel is compared with.

module TopKSpec {

  // Scores of keys are finite; the empty slot holds negative infinity.
  datatype Score = NegInf | Finite(value: real)

  datatype Cand = Cand(score: Score, idx: int)

  // COSINE_SENTINEL with index INT_MAX
  const EMPTY: Cand := Cand(NegInf, 0x7fff_ffff)

  predicate ScoreGreater(a: Score, b: Score) {
    a.Finite? && (b.NegInf? || a.value > b.value)
  }

  // topk_better
  predicate Better(a: Cand, b: Cand) {
    ScoreGreater(a.score, b.score) || (a.score == b.score && a.idx < b.idx)
  }

  function Key(scores: seq<real>, k: nat): Cand
    requires k < |scores|
  {
    Cand(Finite(scores[k]), k)
  }

  // The contract's order on keys.
  predicate KeyBetter(scores: seq<real>, a: nat, b: nat)
    requires a < |scores| && b < |scores|
  {
    scores[a] > scores[b] || (scores[a] == scores[b] && a < b)
  }

  ghost predicate Keys(scores: seq<real>, keys: set<nat>) {
    forall k :: k in keys ==> k < |scores|
  }

  ghost predicate IsBest(scores: seq<real>, keys: set<nat>, best: nat)
    requires Keys(scores, keys)
  {
    best in keys && forall k :: k in keys && k != best ==> KeyBetter(scores, best, k)
  }

  lemma {:induction false} BestExists(scores: seq<real>, keys: set<nat>)
    requires Keys(scores, keys) && keys != {}
    ensures exists best :: IsBest(scores, keys, best)
    decreases |keys|
  {
    var k :| k in keys;
    var rest := keys - {k};
    assert forall j :: j in keys && j != k ==> j in rest;
    if rest == {} {
      assert IsBest(scores, keys, k);
    } else {
      BestExists(scores, rest);
      var best :| IsBest(scores, rest, best);
      if KeyBetter(scores, k, best) {
        assert IsBest(scores, keys, k);
      } else {
        assert IsBest(scores, keys, best);
      }
    }
  }

  ghost function BestKey(scores: seq<real>, keys: set<nat>): (best: nat)
    requires Keys(scores, keys) && keys != {}
    ensures IsBest(scores, keys, best)
  {
    BestExists(scores, keys);
    var best :| IsBest(scores, keys, best);
    best
  }

  lemma BestUnique(scores: seq<real>, keys: set<nat>, best: nat)
    requires Keys(scores, keys) && IsBest(scores, keys, best)
    ensures keys != {} && BestKey(scores, keys) == best
  {
    assert best in keys;
    var other := BestKey(scores, keys);
  }

  // The n best keys in order, padded with empty slots.
  ghost function TopSeq(scores: seq<real>, keys: set<nat>, n: nat): (top: seq<Cand>)
    requires Keys(scores, keys)
    ensures |top| == n
    decreases n
  {
    if n == 0 then []
    else if keys == {} then [EMPTY] + TopSeq(scores, {}, n - 1)
    else
      var best := BestKey(scores, keys);
      [Key(scores, best)] + TopSeq(scores, keys - {best}, n - 1)
  }

  lemma {:induction false} TopSeqPrefix(scores: seq<real>, keys: set<nat>, m: nat, n: nat)
    requires Keys(scores, keys) && m <= n
    ensures TopSeq(scores, keys, n)[..m] == TopSeq(scores, keys, m)
    decreases m
  {
    if m > 0 {
      var rest := if keys == {} then {} else keys - {BestKey(scores, keys)};
      TopSeqPrefix(scores, rest, m - 1, n - 1);
      assert TopSeq(scores, keys, n)[..m] == [TopSeq(scores, keys, n)[0]] + TopSeq(scores, rest, n - 1)[..m - 1];
    }
  }

  // ---- what the list contains ----

  ghost function BetterKeys(scores: seq<real>, keys: set<nat>, k: nat): set<nat>
    requires Keys(scores, keys) && k < |scores|
  {
    set j | j in keys && KeyBetter(scores, j, k)
  }

  // Slot i holds the key that exactly i keys beat; slots past the last key are empty.
  ghost predicate RankedSlot(scores: seq<real>, keys: set<nat>, i: nat, slot: Cand)
    requires Keys(scores, keys)
  {
    if i < |keys| then exists k :: k in keys && slot == Key(scores, k) && |BetterKeys(scores, keys, k)| == i
    else slot == EMPTY
  }

  lemma {:induction false} TopSeqRanks(scores: seq<real>, keys: set<nat>, n: nat, i: nat)
    requires Keys(scores, keys) && i < n
    ensures RankedSlot(scores, keys, i, TopSeq(scores, keys, n)[i])
    decreases n
  {
    if keys == {} {
      AllEmpty(scores, n);
    } else {
      var best := BestKey(scores, keys);
      if i == 0 {
        assert BetterKeys(scores, keys, best) == {};
        assert |keys| > 0;
      } else {
        TopSeqRanks(scores, keys - {best}, n - 1, i - 1);
        RankBelowBest(scores, keys, best, i, TopSeq(scores, keys - {best}, n - 1)[i - 1]);
      }
    }
  }

  lemma RankBelowBest(scores: seq<real>, keys: set<nat>, best: nat, i: nat, slot: Cand)
    requires Keys(scores, keys) && IsBest(scores, keys, best) && i > 0
    requires RankedSlot(scores, keys - {best}, i - 1, slot)
    ensures RankedSlot(scores, keys, i, slot)
  {
    assert |keys - {best}| == |keys| - 1;
    if i < |keys| {
      var k :| k in keys - {best} && slot == Key(scores, k) && |BetterKeys(scores, keys - {best}, k)| == i - 1;
      assert BetterKeys(scores, keys, k) == BetterKeys(scores, keys - {best}, k) + {best};
    }
  }

  // No two keys have the same rank, so the ranks determine the list.
  lemma RankDeterminesKey(scores: seq<real>, keys: set<nat>, a: nat, b: nat)
    requires Keys(scores, keys) && a in keys && b in keys
    requires |BetterKeys(scores, keys, a)| == |BetterKeys(scores, keys, b)|
    ensures a == b
  {
    if a != b {
      var hi, lo := if KeyBetter(scores, a, b) then a else b, if KeyBetter(scores, a, b) then b else a;
      assert BetterKeys(scores, keys, hi) + {hi} <= BetterKeys(scores, keys, lo);
      SubsetSize(BetterKeys(scores, keys, hi) + {hi}, BetterKeys(scores, keys, lo));
      assert false;
    }
  }

  lemma {:induction false} SubsetSize(a: set<nat>, b: set<nat>)
    requires a <= b
    ensures |a| <= |b|
    decreases |a|
  {
    if a != {} {
      var x :| x in a;
      SubsetSize(a - {x}, b - {x});
    }
  }

  // ---- inserting a key ----

  // `c` put before the first element it beats.
  function InsertLeft(list: seq<Cand>, c: Cand): (r: seq<Cand>)
    ensures |r| == |list| + 1
  {
    if list == [] then [c]
    else if Better(c, list[0]) then [c] + list
    else [list[0]] + InsertLeft(list[1..], c)
  }

  lemma InsertFront(list: seq<Cand>, c: Cand, n: nat)
    requires 0 < n == |list|
    ensures Better(c, list[0]) ==> InsertLeft(list, c)[..n] == [c] + list[..n - 1]
    ensures !Better(c, list[0]) ==> InsertLeft(list, c)[..n] == [list[0]] + InsertLeft(list[1..], c)[..n - 1]
  {
  }

  // Inserting into the list of the n best keys and dropping the last slot gives the n best of
  // the larger set.
  lemma {:induction false} InsertIsTop(scores: seq<real>, keys: set<nat>, n: nat, c: nat)
    requires Keys(scores, keys) && c < |scores| && c !in keys
    ensures InsertLeft(TopSeq(scores, keys, n), Key(scores, c))[..n] == TopSeq(scores, keys + {c}, n)
    decreases n
  {
    if n > 0 {
      var list, key := TopSeq(scores, keys, n), Key(scores, c);
      InsertFront(list, key, n);
      if keys == {} || KeyBetter(scores, c, BestKey(scores, keys)) {
        TopSeqFirst(scores, keys + {c}, n, c);
        assert keys + {c} - {c} == keys;
        TopSeqPrefix(scores, keys, n - 1, n);
      } else {
        var best := BestKey(scores, keys);
        TopSeqFirst(scores, keys + {c}, n, best);
        assert keys + {c} - {best} == keys - {best} + {c};
        InsertIsTop(scores, keys - {best}, n - 1, c);
        assert list[1..] == TopSeq(scores, keys - {best}, n - 1);
      }
    }
  }

  lemma TopSeqFirst(scores: seq<real>, keys: set<nat>, n: nat, best: nat)
    requires Keys(scores, keys) && n > 0 && IsBest(scores, keys, best)
    ensures TopSeq(scores, keys, n) == [Key(scores, best)] + TopSeq(scores, keys - {best}, n - 1)
  {
    BestUnique(scores, keys, best);
  }

  // A candidate that beats a slot beats every later slot too.
  ghost predicate Monotone(list: seq<Cand>, c: Cand) {
    forall i, j :: 0 <= i < j < |list| && Better(c, list[i]) ==> Better(c, list[j])
  }

  lemma {:induction false} TopSeqMonotone(scores: seq<real>, keys: set<nat>, n: nat, c: nat)
    requires Keys(scores, keys) && c < |scores|
    ensures Monotone(TopSeq(scores, keys, n), Key(scores, c))
    decreases n
  {
    if n > 0 {
      var list := TopSeq(scores, keys, n);
      if keys == {} {
        TopSeqMonotone(scores, {}, n - 1, c);
        AllEmpty(scores, n);
      } else {
        var best := BestKey(scores, keys);
        TopSeqMonotone(scores, keys - {best}, n - 1, c);
        var rest := TopSeq(scores, keys - {best}, n - 1);
        assert list[1..] == rest;
        if Better(Key(scores, c), list[0]) {
          forall j | 0 <= j < n - 1 ensures Better(Key(scores, c), rest[j]) {
            TopSeqFrom(scores, keys - {best}, n - 1, j);
          }
        }
        assert forall j :: 1 <= j < n ==> list[j] == rest[j - 1];
      }
    }
  }

  lemma {:induction false} AllEmpty(scores: seq<real>, n: nat)
    ensures forall i :: 0 <= i < n ==> TopSeq(scores, {}, n)[i] == EMPTY
    decreases n
  {
    if n > 0 {
      AllEmpty(scores, n - 1);
    }
  }

  lemma {:induction false} TopSeqFrom(scores: seq<real>, keys: set<nat>, n: nat, i: nat)
    requires Keys(scores, keys) && i < n
    ensures TopSeq(scores, keys, n)[i] == EMPTY || exists k :: k in keys && TopSeq(scores, keys, n)[i] == Key(scores, k)
    decreases n
  {
    if i > 0 {
      TopSeqFrom(scores, if keys == {} then {} else keys - {BestKey(scores, keys)}, n - 1, i - 1);
    }
  }
}
