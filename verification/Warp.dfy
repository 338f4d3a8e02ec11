// Warp shuffle trees and two-level block reductions (cu/common.cuh:25-50 and the block
// reductions built on them). A shuffle updates the 32 lanes of a warp simultaneously; a lane
// that would read past lane 31 reads its own value.

module Warp {
  import opened Launch
  import opened Folds

  // One round of `val = op(val, __shfl_down_sync(mask, val, offset))`.
  function ShuffleRound<T>(op: (T, T) -> T, lanes: seq<T>, offset: nat): (after: seq<T>)
    requires |lanes| == 32
    ensures |after| == 32
  {
    seq(32, i requires 0 <= i < 32 => op(lanes[i], if i + offset < 32 then lanes[i + offset] else lanes[i]))
  }

  function ShuffleTree<T>(op: (T, T) -> T, lanes: seq<T>, offset: nat): (after: seq<T>)
    requires |lanes| == 32
    ensures |after| == 32
    decreases offset
  {
    if offset == 0 then lanes else ShuffleTree(op, ShuffleRound(op, lanes, offset), offset / 2)
  }

  // The low lanes of a round combine the two halves of what it reads.
  lemma RoundIsZip<T>(op: (T, T) -> T, lanes: seq<T>, offset: nat)
    requires |lanes| == 32 && 2 * offset <= 32
    ensures ShuffleRound(op, lanes, offset)[..offset] == Zip(op, lanes[..offset], lanes[offset..2 * offset])
    ensures lanes[..2 * offset] == lanes[..offset] + lanes[offset..2 * offset]
  {
  }

  predicate TreeOffset(offset: nat) {
    offset == 16 || offset == 8 || offset == 4 || offset == 2 || offset == 1
  }

  // Lane 0 ends up with all the lanes the remaining rounds can reach.
  lemma {:induction false} TreeFolds<T(!new)>(op: (T, T) -> T, unit: T, lanes: seq<T>, offset: nat)
    requires Monoid(op, unit) && |lanes| == 32 && TreeOffset(offset)
    ensures ShuffleTree(op, lanes, offset)[0] == Fold(op, unit, lanes[..2 * offset])
    decreases offset
  {
    var after := ShuffleRound(op, lanes, offset);
    RoundIsZip(op, lanes, offset);
    FoldZip(op, unit, lanes[..offset], lanes[offset..2 * offset]);
    FoldConcat(op, unit, lanes[..offset], lanes[offset..2 * offset]);
    if offset == 1 {
      assert Fold(op, unit, after[..1][1..]) == unit && Neutral(op, unit, after[0]);
      assert ShuffleTree(op, after, 0) == after;
    } else {
      TreeFolds(op, unit, after, offset / 2);
    }
  }

  // ---- reductions that select one of the lanes ----

  // `op` keeps one of its arguments, one that is at least as good as both.
  ghost predicate Keeps<T>(op: (T, T) -> T, atLeast: (T, T) -> bool, x: T, y: T) {
    (op(x, y) == x || op(x, y) == y) && atLeast(op(x, y), x) && atLeast(op(x, y), y)
  }

  ghost predicate Chains<T>(atLeast: (T, T) -> bool, x: T, y: T, z: T) {
    atLeast(x, y) && atLeast(y, z) ==> atLeast(x, z)
  }

  ghost predicate Selects<T(!new)>(op: (T, T) -> T, atLeast: (T, T) -> bool) {
    && (forall x, y :: Keeps(op, atLeast, x, y))
    && (forall x, y, z :: Chains(atLeast, x, y, z))
  }

  ghost predicate BestOf<T>(atLeast: (T, T) -> bool, best: T, s: seq<T>) {
    && (exists j :: 0 <= j < |s| && s[j] == best)
    && (forall j :: 0 <= j < |s| ==> atLeast(best, s[j]))
  }

  lemma BestOfHalves<T(!new)>(op: (T, T) -> T, atLeast: (T, T) -> bool, a: seq<T>, b: seq<T>, best: T)
    requires Selects(op, atLeast) && |a| == |b| && BestOf(atLeast, best, Zip(op, a, b))
    ensures BestOf(atLeast, best, a + b)
  {
    var zip, both := Zip(op, a, b), a + b;
    forall j | 0 <= j < |both| ensures atLeast(best, both[j]) {
      var k := if j < |a| then j else j - |a|;
      assert zip[k] == op(a[k], b[k]) && Keeps(op, atLeast, a[k], b[k]);
      assert Chains(atLeast, best, zip[k], both[j]);
    }
    var k :| 0 <= k < |a| && zip[k] == best;
    assert Keeps(op, atLeast, a[k], b[k]);
    assert both[k] == a[k] && both[k + |a|] == b[k];
  }

  lemma OnlyOneIsBest<T(!new)>(op: (T, T) -> T, atLeast: (T, T) -> bool, x: T)
    requires Selects(op, atLeast)
    ensures BestOf(atLeast, x, [x])
  {
    assert Keeps(op, atLeast, x, x);
    assert [x][0] == x;
  }

  lemma {:induction false} TreeSelects<T(!new)>(op: (T, T) -> T, atLeast: (T, T) -> bool, lanes: seq<T>, offset: nat)
    requires Selects(op, atLeast) && |lanes| == 32 && TreeOffset(offset)
    ensures BestOf(atLeast, ShuffleTree(op, lanes, offset)[0], lanes[..2 * offset])
    decreases offset
  {
    var after := ShuffleRound(op, lanes, offset);
    var best := ShuffleTree(op, after, offset / 2)[0];
    if offset == 1 {
      assert after[..1] == [best];
      OnlyOneIsBest(op, atLeast, best);
    } else {
      TreeSelects(op, atLeast, after, offset / 2);
      assert 2 * (offset / 2) == offset;
    }
    RoundSelects(op, atLeast, lanes, offset, best);
  }

  lemma RoundSelects<T(!new)>(op: (T, T) -> T, atLeast: (T, T) -> bool, lanes: seq<T>, offset: nat, best: T)
    requires Selects(op, atLeast) && |lanes| == 32 && 2 * offset <= 32
    requires BestOf(atLeast, best, ShuffleRound(op, lanes, offset)[..offset])
    ensures BestOf(atLeast, best, lanes[..2 * offset])
  {
    RoundIsZip(op, lanes, offset);
    BestOfHalves(op, atLeast, lanes[..offset], lanes[offset..2 * offset], best);
  }

  // ---- the loops ----

  // All lanes read before any lane writes.
  method ShuffleInPlace<T>(op: (T, T) -> T, lanes: array<T>, offset: nat)
    requires lanes.Length == 32
    modifies lanes
    ensures lanes[..] == ShuffleRound(op, old(lanes[..]), offset)
  {
    forall i | 0 <= i < 32 {
      lanes[i] := op(lanes[i], if i + offset < 32 then lanes[i + offset] else lanes[i]);
    }
  }

  // for (offset = 16; offset > 0; offset >>= 1) val = op(val, shfl_down(val, offset))
  method WarpReduce<T>(op: (T, T) -> T, lanes: array<T>)
    requires lanes.Length == 32
    modifies lanes
    ensures lanes[..] == ShuffleTree(op, old(lanes[..]), 16)
  {
    var offset := 16;
    while offset > 0
      invariant 0 <= offset
      invariant ShuffleTree(op, lanes[..], offset) == ShuffleTree(op, old(lanes[..]), 16)
    {
      ShuffleInPlace(op, lanes, offset);
      offset := offset / 2;
    }
  }

  // The value lane 0 holds after the shuffle tree over one warp.
  method WarpTotal<T(!new)>(op: (T, T) -> T, ghost unit: T, warp: seq<T>) returns (total: T)
    requires Monoid(op, unit) && |warp| == 32
    ensures total == Fold(op, unit, warp)
  {
    var lanes := new T[32](i requires 0 <= i < 32 => warp[i]);
    assert lanes[..] == warp;
    WarpReduce(op, lanes);
    TreeFolds(op, unit, warp, 16);
    assert warp[..2 * 16] == warp;
    total := lanes[0];
  }

  // The same tree with an operation that keeps the better of two lanes.
  method WarpSelect<T(!new)>(op: (T, T) -> T, ghost atLeast: (T, T) -> bool, warp: seq<T>) returns (best: T)
    requires Selects(op, atLeast) && |warp| == 32
    ensures BestOf(atLeast, best, warp)
  {
    var lanes := new T[32](i requires 0 <= i < 32 => warp[i]);
    assert lanes[..] == warp;
    WarpReduce(op, lanes);
    TreeSelects(op, atLeast, warp, 16);
    assert warp[..2 * 16] == warp;
    best := lanes[0];
  }

  // Values of the 32 lanes of warp w.
  function WarpLanes<T>(vals: seq<T>, w: nat): (lanes: seq<T>)
    requires 32 * w + 32 <= |vals|
    ensures |lanes| == 32
  {
    vals[32 * w..32 * w + 32]
  }

  function Warps<T>(vals: seq<T>, nWarps: nat): (warps: seq<seq<T>>)
    requires 32 * nWarps <= |vals|
    ensures |warps| == nWarps
  {
    seq(nWarps, w requires 0 <= w < nWarps => WarpLanes(vals, w))
  }

  lemma {:induction false} WarpsCover<T>(vals: seq<T>, nWarps: nat)
    requires 32 * nWarps <= |vals|
    ensures Flatten(Warps(vals, nWarps)) == vals[..32 * nWarps]
    decreases nWarps
  {
    if nWarps > 0 {
      WarpsCover(vals, nWarps - 1);
      assert Warps(vals, nWarps)[..nWarps - 1] == Warps(vals, nWarps - 1);
    }
  }

  // Before the barrier each warp reduces its lanes and lane 0 writes the warp's slot of shared
  // memory. Warps run in any order; slots past the last warp stay uninitialised.
  method WarpPartials<T(0, !new)>(op: (T, T) -> T, ghost unit: T, vals: seq<T>, nWarps: nat, warpOrder: seq<nat>)
    returns (shared: array<T>)
    requires Monoid(op, unit)
    requires nWarps <= 32 && |vals| == 32 * nWarps && Schedule(warpOrder, nWarps)
    ensures fresh(shared) && shared.Length == 32
    ensures forall w :: 0 <= w < nWarps ==> shared[w] == Fold(op, unit, WarpLanes(vals, w))
  {
    shared := new T[32];
    for s := 0 to |warpOrder|
      invariant forall w: nat :: Ran(warpOrder, s, w) ==> w < nWarps && shared[w] == Fold(op, unit, WarpLanes(vals, w))
    {
      var w := warpOrder[s];
      shared[w] := WarpTotal(op, unit, WarpLanes(vals, w));
      RanStep(warpOrder, nWarps, s);
    }
    RanAll(warpOrder, nWarps);
  }

  // After the barrier warp 0 reduces the slots, padded with the unit.
  method BlockReduce<T(0, !new)>(op: (T, T) -> T, unit: T, vals: seq<T>, nWarps: nat, warpOrder: seq<nat>)
    returns (result: T)
    requires Monoid(op, unit)
    requires 1 <= nWarps <= 32 && |vals| == 32 * nWarps && Schedule(warpOrder, nWarps)
    ensures result == Fold(op, unit, vals)
  {
    var shared := WarpPartials(op, unit, vals, nWarps, warpOrder);
    ghost var partials := shared[..nWarps];
    FoldOfFolds(op, unit, Warps(vals, nWarps), partials);
    WarpsCover(vals, nWarps);
    assert vals[..32 * nWarps] == vals;

    var slots := seq(32, i requires 0 <= i < 32 reads shared => if i < nWarps then shared[i] else unit);
    assert slots[..nWarps] == partials;
    PaddingIsNeutral(op, unit, partials, slots);
    result := WarpTotal(op, unit, slots);
  }
}
