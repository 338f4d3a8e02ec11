// Combining a sequence with an associative, commutative operation in whatever order a
// parallel reduction happens to use.

module Folds {
  import opened Words

  ghost predicate Commutes<T>(op: (T, T) -> T, x: T, y: T) {
    op(x, y) == op(y, x)
  }

  ghost predicate Associates<T>(op: (T, T) -> T, x: T, y: T, z: T) {
    op(op(x, y), z) == op(x, op(y, z))
  }

  ghost predicate Neutral<T>(op: (T, T) -> T, unit: T, x: T) {
    op(x, unit) == x
  }

  ghost predicate Monoid<T(!new)>(op: (T, T) -> T, unit: T) {
    && (forall x, y :: Commutes(op, x, y))
    && (forall x, y, z :: Associates(op, x, y, z))
    && (forall x :: Neutral(op, unit, x))
  }

  function Fold<T>(op: (T, T) -> T, unit: T, s: seq<T>): T {
    if s == [] then unit else op(s[0], Fold(op, unit, s[1..]))
  }

  lemma {:induction false} FoldConcat<T(!new)>(op: (T, T) -> T, unit: T, a: seq<T>, b: seq<T>)
    requires Monoid(op, unit)
    ensures Fold(op, unit, a + b) == op(Fold(op, unit, a), Fold(op, unit, b))
  {
    if a == [] {
      assert a + b == b;
      assert Neutral(op, unit, Fold(op, unit, b)) && Commutes(op, unit, Fold(op, unit, b));
    } else {
      assert (a + b)[1..] == a[1..] + b;
      FoldConcat(op, unit, a[1..], b);
      assert Associates(op, a[0], Fold(op, unit, a[1..]), Fold(op, unit, b));
    }
  }

  lemma FoldAppend<T(!new)>(op: (T, T) -> T, unit: T, a: seq<T>, x: T)
    requires Monoid(op, unit)
    ensures Fold(op, unit, a + [x]) == op(Fold(op, unit, a), x)
  {
    FoldConcat(op, unit, a, [x]);
    assert Fold(op, unit, [x][1..]) == unit;
    assert Neutral(op, unit, x);
  }

  // Replacing one accumulator by itself combined with x combines the total with x.
  lemma FoldUpdate<T(!new)>(op: (T, T) -> T, unit: T, s: seq<T>, i: nat, x: T)
    requires Monoid(op, unit) && i < |s|
    ensures Fold(op, unit, s[i := op(s[i], x)]) == op(Fold(op, unit, s), x)
  {
    var left, right := s[..i], s[i + 1..];
    assert s == left + ([s[i]] + right);
    assert s[i := op(s[i], x)] == left + ([op(s[i], x)] + right);
    FoldConcat(op, unit, left, [s[i]] + right);
    FoldConcat(op, unit, left, [op(s[i], x)] + right);
    assert ([s[i]] + right)[1..] == right && ([op(s[i], x)] + right)[1..] == right;
    var l, r := Fold(op, unit, left), Fold(op, unit, right);
    assert Associates(op, s[i], x, r) && Commutes(op, x, r) && Associates(op, s[i], r, x);
    assert Associates(op, l, op(s[i], r), x);
  }

  // ---- partial results of consecutive blocks ----

  function Flatten<T>(blocks: seq<seq<T>>): seq<T> {
    if blocks == [] then [] else Flatten(blocks[..|blocks| - 1]) + blocks[|blocks| - 1]
  }

  // Folding the blocks' folds is folding everything.
  lemma {:induction false} FoldOfFolds<T(!new)>(op: (T, T) -> T, unit: T, blocks: seq<seq<T>>, partials: seq<T>)
    requires Monoid(op, unit) && |blocks| == |partials|
    requires forall b :: 0 <= b < |blocks| ==> partials[b] == Fold(op, unit, blocks[b])
    ensures Fold(op, unit, partials) == Fold(op, unit, Flatten(blocks))
    decreases |blocks|
  {
    if blocks != [] {
      var n := |blocks| - 1;
      FoldOfFolds(op, unit, blocks[..n], partials[..n]);
      assert partials == partials[..n] + [partials[n]];
      FoldAppend(op, unit, partials[..n], partials[n]);
      FoldConcat(op, unit, Flatten(blocks[..n]), blocks[n]);
    }
  }

  lemma PaddingIsNeutral<T(!new)>(op: (T, T) -> T, unit: T, s: seq<T>, padded: seq<T>)
    requires Monoid(op, unit) && |s| <= |padded| && padded[..|s|] == s
    requires forall i :: |s| <= i < |padded| ==> padded[i] == unit
    ensures Fold(op, unit, padded) == Fold(op, unit, s)
  {
    var total := Fold(op, unit, s);
    assert padded == s + padded[|s|..];
    FoldConcat(op, unit, s, padded[|s|..]);
    FoldUnits(op, unit, padded[|s|..]);
    assert Neutral(op, unit, total);
  }

  // ---- pairwise combination of two halves ----

  function Zip<T>(op: (T, T) -> T, a: seq<T>, b: seq<T>): (c: seq<T>)
    requires |a| == |b|
    ensures |c| == |a|
  {
    seq(|a|, i requires 0 <= i < |a| => op(a[i], b[i]))
  }

  lemma {:induction false} FoldZip<T(!new)>(op: (T, T) -> T, unit: T, a: seq<T>, b: seq<T>)
    requires Monoid(op, unit) && |a| == |b|
    ensures Fold(op, unit, Zip(op, a, b)) == op(Fold(op, unit, a), Fold(op, unit, b))
  {
    if a == [] {
      assert Neutral(op, unit, unit);
    } else {
      assert Zip(op, a, b)[1..] == Zip(op, a[1..], b[1..]);
      FoldZip(op, unit, a[1..], b[1..]);
      Exchange(op, unit, a[0], b[0], Fold(op, unit, a[1..]), Fold(op, unit, b[1..]));
    }
  }

  lemma Exchange<T(!new)>(op: (T, T) -> T, unit: T, p: T, q: T, r: T, s: T)
    requires Monoid(op, unit)
    ensures op(op(p, q), op(r, s)) == op(op(p, r), op(q, s))
  {
    assert Associates(op, p, q, op(r, s)) && Associates(op, p, r, op(q, s));
    assert Associates(op, q, r, s) && Commutes(op, q, r) && Associates(op, r, q, s);
  }

  // ---- strided accumulation: thread t of `stride` folds s[t], s[t + stride], ... ----

  function StridedFold<T>(op: (T, T) -> T, unit: T, s: seq<T>, t: nat, stride: nat): T
    requires stride > 0
    decreases |s|
  {
    if s == [] then unit
    else
      var n := |s| - 1;
      var before := StridedFold(op, unit, s[..n], t, stride);
      if n % stride == t then op(before, s[n]) else before
  }

  function StridedFolds<T>(op: (T, T) -> T, unit: T, s: seq<T>, stride: nat): (accs: seq<T>)
    requires stride > 0
    ensures |accs| == stride
  {
    seq(stride, t requires 0 <= t < stride => StridedFold(op, unit, s, t, stride))
  }

  // One more element goes to the thread that owns its index.
  lemma StridedFoldsGrow<T>(op: (T, T) -> T, unit: T, s: seq<T>, stride: nat)
    requires stride > 0 && s != []
    ensures
      var n := |s| - 1;
      var before := StridedFolds(op, unit, s[..n], stride);
      && 0 <= n % stride < stride
      && StridedFolds(op, unit, s, stride) == before[n % stride := op(before[n % stride], s[n])]
  {
  }

  // The accumulators of all threads together hold the plain fold.
  lemma {:induction false} StridedFoldsTotal<T(!new)>(op: (T, T) -> T, unit: T, s: seq<T>, stride: nat)
    requires Monoid(op, unit) && stride > 0
    ensures Fold(op, unit, StridedFolds(op, unit, s, stride)) == Fold(op, unit, s)
    decreases |s|
  {
    if s == [] {
      FoldUnits(op, unit, StridedFolds(op, unit, s, stride));
    } else {
      var n := |s| - 1;
      StridedFoldsTotal(op, unit, s[..n], stride);
      StridedFoldsGrow(op, unit, s, stride);
      FoldUpdate(op, unit, StridedFolds(op, unit, s[..n], stride), n % stride, s[n]);
      assert s == s[..n] + [s[n]];
      FoldAppend(op, unit, s[..n], s[n]);
    }
  }

  lemma {:induction false} FoldUnits<T(!new)>(op: (T, T) -> T, unit: T, s: seq<T>)
    requires Monoid(op, unit)
    requires forall i :: 0 <= i < |s| ==> s[i] == unit
    ensures Fold(op, unit, s) == unit
  {
    if s != [] {
      FoldUnits(op, unit, s[1..]);
      assert Neutral(op, unit, unit);
    }
  }

  // for (i = t; i < |s|; i += stride) acc = op(acc, s[i])
  method AccumulateStrided<T>(op: (T, T) -> T, unit: T, s: seq<T>, t: nat, stride: nat) returns (acc: T)
    requires t < stride && |s| + stride <= TWO31
    ensures acc == StridedFold(op, unit, s, t, stride)
  {
    acc := unit;
    var i: int := t;
    SmallResidue(t, stride);
    StridedStart(op, unit, s, t, stride, Min(t, |s|));
    while i < |s|
      invariant 0 <= i && i % stride == t
      invariant acc == StridedFold(op, unit, s[..Min(i, |s|)], t, stride)
      decreases |s| - i
    {
      acc := op(acc, s[i]);
      StridedStep(op, unit, s, t, stride, i);
      NextIndexIsPlain(i, stride);
      i := NextIndex(i, stride);
    }
    assert s[..|s|] == s;
  }

  lemma {:induction false} StridedStart<T>(op: (T, T) -> T, unit: T, s: seq<T>, t: nat, stride: nat, hi: nat)
    requires t < stride && hi <= t && hi <= |s|
    ensures StridedFold(op, unit, s[..hi], t, stride) == unit
    decreases hi
  {
    if hi > 0 {
      assert s[..hi][..hi - 1] == s[..hi - 1];
      SmallResidue(hi - 1, stride);
      StridedStart(op, unit, s, t, stride, hi - 1);
    }
  }

  lemma StridedStep<T>(op: (T, T) -> T, unit: T, s: seq<T>, t: nat, stride: nat, i: nat)
    requires t < stride && i < |s| && i % stride == t
    ensures (i + stride) % stride == t
    ensures StridedFold(op, unit, s[..Min(i + stride, |s|)], t, stride)
         == op(StridedFold(op, unit, s[..i], t, stride), s[i])
  {
    ResidueStep(i, stride);
    assert s[..i + 1][..i] == s[..i];
    StridedSkip(op, unit, s, t, stride, i, Min(i + stride, |s|));
  }

  // Elements that belong to other threads do not change the accumulator.
  lemma {:induction false} StridedSkip<T>(op: (T, T) -> T, unit: T, s: seq<T>, t: nat, stride: nat, mine: nat, hi: nat)
    requires t < stride && mine % stride == t && mine < hi <= |s| && hi <= mine + stride
    ensures StridedFold(op, unit, s[..hi], t, stride) == StridedFold(op, unit, s[..mine + 1], t, stride)
    decreases hi
  {
    if mine + 1 < hi {
      assert s[..hi][..hi - 1] == s[..hi - 1];
      ResiduesApart(mine, hi - 1, stride);
      StridedSkip(op, unit, s, t, stride, mine, hi - 1);
    }
  }
}
