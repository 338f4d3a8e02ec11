// Merging up to 32 sorted candidate lists, one per lane, by repeated warp reductions
// (cu/vector_similarity.cu:99-120, :242-285). Both merges of the kernel have this shape: the
// lanes of a warp, and then the warps of a block.

module TopKMerge {
  import opened Warp
  import opened TopKSpec

  // A candidate in flight with the lane that owns it.
  datatype Held = Held(c: Cand, lane: nat)

  function Pick(mine: Held, other: Held): Held {
    if Better(other.c, mine.c) then other else mine
  }

  predicate AtLeast(x: Held, y: Held) {
    !Better(y.c, x.c)
  }

  lemma PickSelects()
    ensures Selects(Pick, AtLeast)
  {
    forall x, y ensures Keeps(Pick, AtLeast, x, y) {}
    forall x, y, z ensures Chains(AtLeast, x, y, z) {}
  }

  // warp_reduce_best, after its broadcast from lane 0.
  method WarpBest(cands: seq<Cand>) returns (best: Held)
    requires |cands| == 32
    ensures best.lane < 32 && best.c == cands[best.lane]
    ensures forall i :: 0 <= i < 32 ==> !Better(cands[i], best.c)
  {
    PickSelects();
    var lanes := seq(32, i requires 0 <= i < 32 => Held(cands[i], i));
    best := WarpSelect(Pick, AtLeast, lanes);
    forall i | 0 <= i < 32 ensures !Better(cands[i], best.c) {
      assert AtLeast(best, lanes[i]) && lanes[i].c == cands[i];
    }
  }

  // Empty slots carry different indices in registers and in shared memory; only their score
  // matters.
  predicate Match(a: Cand, b: Cand) {
    a == b || (a.score.NegInf? && b.score.NegInf?)
  }

  ghost predicate Represents(list: seq<Cand>, top: seq<Cand>) {
    |list| == |top| && forall j :: 0 <= j < |list| ==> Match(list[j], top[j])
  }

  ghost function Union(sets: seq<set<nat>>): set<nat> {
    set i, k | 0 <= i < |sets| && k in sets[i] :: k
  }

  ghost predicate Apart(sets: seq<set<nat>>, i: int, j: int) {
    0 <= i < |sets| && 0 <= j < |sets| ==> i == j || sets[i] !! sets[j]
  }

  ghost predicate Disjoint(sets: seq<set<nat>>) {
    forall i, j :: Apart(sets, i, j)
  }

  ghost predicate AllKeys(scores: seq<real>, sets: seq<set<nat>>) {
    forall i :: 0 <= i < |sets| ==> Keys(scores, sets[i])
  }

  // ---- one lane's cursor ----

  // The lane has handed out the first `cursor` entries; what is left of its keys is `rest`.
  ghost predicate LaneAt(scores: seq<real>, list: seq<Cand>, cursor: nat, cand: Cand, rest: set<nat>) {
    && Keys(scores, rest) && cursor <= |list|
    && Represents(list[cursor..], TopSeq(scores, rest, |list| - cursor))
    && cand == if cursor < |list| then list[cursor] else EMPTY
  }

  ghost function Without(scores: seq<real>, rest: set<nat>): set<nat>
    requires Keys(scores, rest)
  {
    if rest == {} then {} else rest - {BestKey(scores, rest)}
  }

  lemma LaneHead(scores: seq<real>, list: seq<Cand>, cursor: nat, cand: Cand, rest: set<nat>)
    requires LaneAt(scores, list, cursor, cand, rest) && cursor < |list|
    ensures rest == {} ==> cand.score == NegInf
    ensures rest != {} ==> cand == Key(scores, BestKey(scores, rest))
  {
    assert list[cursor..][0] == cand;
  }

  lemma LaneAdvances(scores: seq<real>, list: seq<Cand>, cursor: nat, cand: Cand, rest: set<nat>)
    requires LaneAt(scores, list, cursor, cand, rest) && cursor < |list|
    ensures LaneAt(scores, list, cursor + 1, if cursor + 1 < |list| then list[cursor + 1] else EMPTY, Without(scores, rest))
  {
    var top := TopSeq(scores, rest, |list| - cursor);
    assert top[1..] == TopSeq(scores, Without(scores, rest), |list| - cursor - 1);
    assert list[cursor + 1..] == list[cursor..][1..];
    forall j | 0 <= j < |list| - cursor - 1 ensures Match(list[cursor + 1..][j], top[1..][j]) {
      assert Match(list[cursor..][j + 1], top[j + 1]);
    }
  }

  // ---- the best head is the best remaining key ----

  ghost predicate Head(scores: seq<real>, rests: seq<set<nat>>, cands: seq<Cand>, i: nat) {
    i < |cands| ==>
      if i >= |rests| then cands[i].score == NegInf
      else
        && Keys(scores, rests[i])
        && (if rests[i] == {} then cands[i].score == NegInf else cands[i] == Key(scores, BestKey(scores, rests[i])))
  }

  ghost predicate Heads(scores: seq<real>, rests: seq<set<nat>>, cands: seq<Cand>) {
    |rests| <= |cands| && forall i :: Head(scores, rests, cands, i)
  }

  lemma UnionKeys(scores: seq<real>, sets: seq<set<nat>>)
    requires AllKeys(scores, sets)
    ensures Keys(scores, Union(sets))
  {
  }

  lemma BestHead(scores: seq<real>, rests: seq<set<nat>>, cands: seq<Cand>, best: Held)
    requires Heads(scores, rests, cands) && best.lane < |cands| && best.c == cands[best.lane]
    requires forall i :: 0 <= i < |cands| ==> !Better(cands[i], best.c)
    ensures Keys(scores, Union(rests))
    ensures best.c.score == NegInf ==> Union(rests) == {}
    ensures best.c.score != NegInf ==>
      && best.lane < |rests| && Keys(scores, rests[best.lane]) && rests[best.lane] != {}
      && IsBest(scores, Union(rests), BestKey(scores, rests[best.lane]))
  {
    forall i | 0 <= i < |rests| ensures Keys(scores, rests[i]) {
      assert Head(scores, rests, cands, i);
    }
    UnionKeys(scores, rests);
    assert Head(scores, rests, cands, best.lane);
    if best.c.score == NegInf {
      forall i | 0 <= i < |rests| ensures rests[i] == {} {
        assert Head(scores, rests, cands, i) && !Better(cands[i], best.c);
      }
    } else {
      var b := BestKey(scores, rests[best.lane]);
      assert b in rests[best.lane];
      forall k | k in Union(rests) && k != b ensures KeyBetter(scores, b, k) {
        var i :| 0 <= i < |rests| && k in rests[i];
        assert Head(scores, rests, cands, i) && !Better(cands[i], best.c);
      }
    }
  }

  lemma UnionWithout(rests: seq<set<nat>>, lane: nat, b: nat)
    requires Disjoint(rests) && lane < |rests| && b in rests[lane]
    ensures Disjoint(rests[lane := rests[lane] - {b}])
    ensures Union(rests[lane := rests[lane] - {b}]) == Union(rests) - {b}
  {
    var after := rests[lane := rests[lane] - {b}];
    forall k | k in Union(rests) - {b} ensures k in Union(after) {
      var i :| 0 <= i < |rests| && k in rests[i];
      assert k in after[i];
    }
    forall k | k in Union(after) ensures k in Union(rests) - {b} {
      var i :| 0 <= i < |after| && k in after[i];
      assert k in rests[i];
      assert Apart(rests, i, lane);
    }
    forall i, j ensures Apart(after, i, j) {
      assert Apart(rests, i, j);
    }
  }

  // ---- the merge loop ----

  // Registers of the 32 lanes between two rounds.
  datatype Lanes = Lanes(cursors: seq<nat>, cands: seq<Cand>)

  ghost predicate LaneOk(scores: seq<real>, lists: seq<seq<Cand>>, lanes: Lanes, rests: seq<set<nat>>, i: nat)
    requires |lists| == |rests| <= 32 == |lanes.cursors| == |lanes.cands|
  {
    i < 32 ==>
      if i < |lists| then LaneAt(scores, lists[i], lanes.cursors[i], lanes.cands[i], rests[i])
      else lanes.cands[i] == EMPTY
  }

  ghost predicate LanesAt(scores: seq<real>, lists: seq<seq<Cand>>, lanes: Lanes, rests: seq<set<nat>>) {
    && |lists| == |rests| <= 32 == |lanes.cursors| == |lanes.cands|
    && forall i :: LaneOk(scores, lists, lanes, rests, i)
  }

  lemma LanesShowHeads(scores: seq<real>, lists: seq<seq<Cand>>, lanes: Lanes, rests: seq<set<nat>>)
    requires LanesAt(scores, lists, lanes, rests)
    requires forall i :: 0 <= i < |lists| ==> lanes.cursors[i] < |lists[i]|
    ensures Heads(scores, rests, lanes.cands)
  {
    forall i: nat ensures Head(scores, rests, lanes.cands, i) {
      assert LaneOk(scores, lists, lanes, rests, i);
      if i < |lists| {
        LaneHead(scores, lists[i], lanes.cursors[i], lanes.cands[i], rests[i]);
      }
    }
  }

  // The remaining keys after the winner of a slot left its lane.
  ghost function RestsAfter(scores: seq<real>, rests: seq<set<nat>>, lane: nat): (after: seq<set<nat>>)
    requires lane < |rests| ==> Keys(scores, rests[lane])
    ensures |after| == |rests|
  {
    if lane < |rests| then rests[lane := Without(scores, rests[lane])] else rests
  }

  lemma NextRests(scores: seq<real>, rests: seq<set<nat>>, cands: seq<Cand>, best: Held, slots: nat)
    requires Heads(scores, rests, cands) && Disjoint(rests) && best.lane < |cands| && best.c == cands[best.lane]
    requires forall i :: 0 <= i < |cands| ==> !Better(cands[i], best.c)
    requires slots > 0 && Keys(scores, Union(rests))
    ensures Match(best.c, TopSeq(scores, Union(rests), slots)[0])
    ensures best.lane < |rests| ==> Keys(scores, rests[best.lane])
    ensures
      var after := RestsAfter(scores, rests, best.lane);
      && Disjoint(after) && Keys(scores, Union(after))
      && TopSeq(scores, Union(rests), slots)[1..] == TopSeq(scores, Union(after), slots - 1)
  {
    BestHead(scores, rests, cands, best);
    assert Head(scores, rests, cands, best.lane);
    if best.c.score == NegInf {
      assert Union(rests) == {};
      if best.lane < |rests| {
        NoKeysLeft(rests, best.lane);
        assert rests[best.lane := {}] == rests;
      }
    } else {
      var b := BestKey(scores, rests[best.lane]);
      TopSeqFirst(scores, Union(rests), slots, b);
      UnionWithout(rests, best.lane, b);
    }
  }

  lemma NoKeysLeft(rests: seq<set<nat>>, i: nat)
    requires Union(rests) == {} && i < |rests|
    ensures rests[i] == {}
  {
    assert forall k :: k in rests[i] ==> k in Union(rests);
  }

  ghost predicate Lists(scores: seq<real>, lists: seq<seq<Cand>>, sets: seq<set<nat>>, k: nat) {
    && |lists| == |sets| <= 32 && AllKeys(scores, sets)
    && forall i :: 0 <= i < |lists| ==> |lists[i]| == k && Represents(lists[i], TopSeq(scores, sets[i], k))
  }

  // The merged list, in the form both merges write it: the index of an empty slot is -1.
  function Published(c: Cand): Cand {
    if c.score.NegInf? then Cand(c.score, -1) else c
  }

  function NextLanes(lists: seq<seq<Cand>>, lanes: Lanes, lane: nat): Lanes
    requires lane < |lists| <= 32 == |lanes.cursors| == |lanes.cands|
  {
    var next := lanes.cursors[lane] + 1;
    Lanes(lanes.cursors[lane := next], lanes.cands[lane := if next < |lists[lane]| then lists[lane][next] else EMPTY])
  }

  lemma LanesAdvance(scores: seq<real>, lists: seq<seq<Cand>>, lanes: Lanes, rests: seq<set<nat>>, lane: nat)
    requires LanesAt(scores, lists, lanes, rests)
    requires lane < |lists| && lanes.cursors[lane] < |lists[lane]|
    ensures Keys(scores, rests[lane])
    ensures LanesAt(scores, lists, NextLanes(lists, lanes, lane), RestsAfter(scores, rests, lane))
  {
    assert LaneOk(scores, lists, lanes, rests, lane);
    LaneAdvances(scores, lists[lane], lanes.cursors[lane], lanes.cands[lane], rests[lane]);
    forall i: nat ensures LaneOk(scores, lists, NextLanes(lists, lanes, lane), RestsAfter(scores, rests, lane), i) {
      assert LaneOk(scores, lists, lanes, rests, i);
    }
  }

  lemma LanesStart(scores: seq<real>, lists: seq<seq<Cand>>, sets: seq<set<nat>>, k: nat, lanes: Lanes)
    requires Lists(scores, lists, sets, k)
    requires |lanes.cursors| == |lanes.cands| == 32 && forall i :: 0 <= i < 32 ==> lanes.cursors[i] == 0
    requires forall i :: 0 <= i < 32 ==> lanes.cands[i] == if i < |lists| && k > 0 then lists[i][0] else EMPTY
    ensures LanesAt(scores, lists, lanes, sets)
  {
    forall i: nat ensures LaneOk(scores, lists, lanes, sets, i) {
      if i < |lists| {
        assert lists[i][0..] == lists[i];
      }
    }
  }

  // The first slots of the merged list.
  ghost predicate MergedSoFar(merged: seq<Cand>, top: seq<Cand>) {
    && |merged| <= |top|
    && forall j :: 0 <= j < |merged| ==> Match(merged[j], top[j]) && merged[j] == Published(merged[j])
  }

  lemma MergedGrows(merged: seq<Cand>, top: seq<Cand>, c: Cand)
    requires MergedSoFar(merged, top) && |merged| < |top| && Match(c, top[|merged|..][0])
    ensures MergedSoFar(merged + [Published(c)], top)
  {
  }

  ghost predicate Ready(scores: seq<real>, lists: seq<seq<Cand>>, lanes: Lanes, rests: seq<set<nat>>, slot: nat) {
    && LanesAt(scores, lists, lanes, rests)
    && Disjoint(rests) && Keys(scores, Union(rests))
    && forall i :: 0 <= i < |lists| ==> lanes.cursors[i] <= slot
  }

  // The winner's cursor moves on and its next candidate is loaded.
  method AdvanceWinner(ghost scores: seq<real>, lists: seq<seq<Cand>>, k: nat, ghost slot: nat,
                       lanes: Lanes, ghost rests: seq<set<nat>>, best: Held) returns (next: Lanes, ghost rests': seq<set<nat>>)
    requires Ready(scores, lists, lanes, rests, slot) && slot < k && forall i :: 0 <= i < |lists| ==> |lists[i]| == k
    requires best.lane < 32 && best.c == lanes.cands[best.lane]
    requires forall i :: 0 <= i < 32 ==> !Better(lanes.cands[i], best.c)
    ensures Ready(scores, lists, next, rests', slot + 1)
    ensures Match(best.c, TopSeq(scores, Union(rests), k - slot)[0])
    ensures TopSeq(scores, Union(rests), k - slot)[1..] == TopSeq(scores, Union(rests'), k - slot - 1)
  {
    LanesShowHeads(scores, lists, lanes, rests);
    NextRests(scores, rests, lanes.cands, best, k - slot);
    rests' := RestsAfter(scores, rests, best.lane);
    if best.lane < |lists| {
      LanesAdvance(scores, lists, lanes, rests, best.lane);
      next := NextLanes(lists, lanes, best.lane);
    } else {
      next := lanes;
    }
  }

  // Every lane starts with the head of its list.
  method StartLanes(ghost scores: seq<real>, lists: seq<seq<Cand>>, ghost sets: seq<set<nat>>, k: nat) returns (lanes: Lanes)
    requires Lists(scores, lists, sets, k) && Disjoint(sets) && Keys(scores, Union(sets))
    ensures Ready(scores, lists, lanes, sets, 0)
  {
    lanes := Lanes(seq(32, _ => 0),
      seq(32, i requires 0 <= i < 32 => if i < |lists| && k > 0 then lists[i][0] else EMPTY));
    LanesStart(scores, lists, sets, k, lanes);
  }

  // k rounds: reduce the heads, publish the winner, advance the winner's cursor.
  method Merge(ghost scores: seq<real>, lists: seq<seq<Cand>>, ghost sets: seq<set<nat>>, k: nat) returns (merged: seq<Cand>)
    requires Lists(scores, lists, sets, k) && Disjoint(sets)
    ensures Keys(scores, Union(sets)) && Represents(merged, TopSeq(scores, Union(sets), k))
    ensures forall j :: 0 <= j < |merged| ==> merged[j] == Published(merged[j])
  {
    UnionKeys(scores, sets);
    ghost var top := TopSeq(scores, Union(sets), k);
    ghost var rests := sets;
    var lanes := StartLanes(scores, lists, sets, k);
    merged := [];
    assert top[0..] == top;
    for slot := 0 to k
      invariant |merged| == slot && MergedSoFar(merged, top)
      invariant Ready(scores, lists, lanes, rests, slot)
      invariant top[slot..] == TopSeq(scores, Union(rests), k - slot)
    {
      var best := WarpBest(lanes.cands);
      lanes, rests := AdvanceWinner(scores, lists, k, slot, lanes, rests, best);
      MergedGrows(merged, top, best.c);
      assert top[slot + 1..] == top[slot..][1..];
      merged := merged + [Published(best.c)];
    }
  }
}
