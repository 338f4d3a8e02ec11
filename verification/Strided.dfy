// Block- and grid-stride loops: thread `first` visits first, first + stride, ... below a bound.

module Strided {
  import opened Words

  // Indices below `upto` that the loop of thread `first` visits.
  ghost function Visited(first: nat, stride: nat, upto: nat): (indices: set<nat>)
    requires stride > 0
    ensures forall k :: k in indices ==> k < upto
    decreases upto
  {
    if upto == 0 then {}
    else Visited(first, stride, upto - 1) + (if (upto - 1) % stride == first then {upto - 1} else {})
  }

  lemma {:induction false} VisitedMember(first: nat, stride: nat, upto: nat, k: nat)
    requires stride > 0
    ensures k in Visited(first, stride, upto) <==> k < upto && k % stride == first
    decreases upto
  {
    if upto > 0 {
      VisitedMember(first, stride, upto - 1, k);
    }
  }

  lemma {:induction false} VisitedStart(first: nat, stride: nat, upto: nat)
    requires first < stride && upto <= first
    ensures first % stride == first
    ensures Visited(first, stride, upto) == {}
    decreases upto
  {
    SmallResidue(first, stride);
    if upto > 0 {
      SmallResidue(upto - 1, stride);
      VisitedStart(first, stride, upto - 1);
    }
  }

  lemma {:induction false} VisitedStep(first: nat, stride: nat, k: nat, upto: nat)
    requires first < stride && k % stride == first && k < upto <= k + stride
    ensures (k + stride) % stride == first
    ensures Visited(first, stride, upto) == Visited(first, stride, k) + {k}
    decreases upto
  {
    ResidueStep(k, stride);
    if k + 1 < upto {
      ResiduesApart(k, upto - 1, stride);
      VisitedStep(first, stride, k, upto - 1);
    }
  }

  // Every index is visited by exactly one thread.
  lemma VisitedByOne(stride: nat, upto: nat, k: nat, first: nat)
    requires stride > 0 && k < upto
    ensures k % stride < stride && k in Visited(k % stride, stride, upto)
    ensures first != k % stride ==> k !in Visited(first, stride, upto)
  {
    VisitedMember(k % stride, stride, upto, k);
    VisitedMember(first, stride, upto, k);
  }

  // ---- buffers written by such loops ----

  // `after` is `before` with the target's values at `indices`, and nothing else changed.
  ghost predicate Written<T>(before: seq<T>, after: seq<T>, target: seq<T>, indices: set<nat>) {
    && |before| == |after| && |target| <= |after|
    && (forall i :: i in indices ==> i < |target|)
    && forall i: nat :: i < |after| ==> after[i] == if i in indices then target[i] else before[i]
  }

  lemma WrittenStep<T>(before: seq<T>, after: seq<T>, target: seq<T>, indices: set<nat>, k: nat)
    requires Written(before, after, target, indices) && k < |target|
    ensures Written(before, after[k := target[k]], target, indices + {k})
  {
  }

  ghost predicate Stored<T>(target: seq<T>, buffer: seq<T>, indices: set<nat>) {
    && |target| <= |buffer|
    && forall i :: i in indices ==> i < |target| && buffer[i] == target[i]
  }

  // What other threads store does not disturb what is already stored.
  lemma StoredGrows<T>(target: seq<T>, before: seq<T>, after: seq<T>, more: set<nat>, indices: set<nat>)
    requires Written(before, after, target, more)
    ensures Stored(target, after, more)
    ensures Stored(target, before, indices) ==> Stored(target, after, indices)
    ensures after[|target|..] == before[|target|..]
  {
  }

  ghost predicate ThreadStored<T>(target: seq<T>, buffer: seq<T>, stride: nat, first: nat)
    requires stride > 0
  {
    Stored(target, buffer, Visited(first, stride, |target|))
  }

  lemma ThreadStores<T>(target: seq<T>, before: seq<T>, after: seq<T>, stride: nat, first: nat)
    requires stride > 0 && Written(before, after, target, Visited(first, stride, |target|))
    ensures ThreadStored(target, after, stride, first)
    ensures forall other: nat :: ThreadStored(target, before, stride, other) ==> ThreadStored(target, after, stride, other)
  {
    forall other: nat | ThreadStored(target, before, stride, other) ensures ThreadStored(target, after, stride, other) {
      StoredGrows(target, before, after, Visited(first, stride, |target|), Visited(other, stride, |target|));
    }
  }

  lemma AllThreadsStored<T>(target: seq<T>, buffer: seq<T>, stride: nat)
    requires stride > 0 && |target| <= |buffer|
    requires forall th: nat :: th < stride ==> ThreadStored(target, buffer, stride, th)
    ensures buffer[..|target|] == target
  {
    forall k: nat | k < |target| ensures buffer[k] == target[k] {
      VisitedByOne(stride, |target|, k, 0);
      assert ThreadStored(target, buffer, stride, k % stride);
    }
  }

  // buffer[base + k] = v, seen from `base` on.
  method StoreAt<T>(buffer: array<T>, base: nat, k: nat, v: T)
    requires base + k < buffer.Length
    modifies buffer
    ensures buffer[..base] == old(buffer[..base])
    ensures buffer[base..] == old(buffer[base..])[k := v]
  {
    buffer[base + k] := v;
  }
}
