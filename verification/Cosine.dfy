// Cosine similarity in exact arithmetic: the kernels' pair score, the batched launch and the
// scalar oracle (cu/vector_similarity.cu:26-57, :137-161; src/oracle.rs:105-138).

module Cosine {
  import opened Reals
  import opened Folds

  // Any square root whose values are not negative.
  ghost predicate NonNegative(sqrt: real -> real) {
    forall x :: x >= 0.0 ==> sqrt(x) >= 0.0
  }

  // The three running sums of a pair.
  datatype Sums = Sums(dot: real, normQ: real, normK: real)

  const ZERO: Sums := Sums(0.0, 0.0, 0.0)

  function Add(a: Sums, b: Sums): Sums {
    Sums(a.dot + b.dot, a.normQ + b.normQ, a.normK + b.normK)
  }

  lemma AddIsMonoid()
    ensures Monoid(Add, ZERO)
  {
    forall x, y ensures Commutes(Add, x, y) {}
    forall x, y, z ensures Associates(Add, x, y, z) {}
    forall x ensures Neutral(Add, ZERO, x) {}
  }

  function Term(q: real, k: real): Sums {
    Sums(q * k, q * q, k * k)
  }

  function Terms(q: seq<real>, k: seq<real>): (terms: seq<Sums>)
    requires |q| == |k|
    ensures |terms| == |q|
  {
    seq(|q|, i requires 0 <= i < |q| => Term(q[i], k[i]))
  }

  // dot, |q|^2 and |k|^2
  function PairSums(q: seq<real>, k: seq<real>): Sums
    requires |q| == |k|
  {
    Fold(Add, ZERO, Terms(q, k))
  }

  function CosineScore(sqrt: real -> real, s: Sums): real
    requires s.normQ >= 0.0 && s.normK >= 0.0 && NonNegative(sqrt)
  {
    DenominatorPositive(sqrt, s);
    s.dot / (sqrt(s.normQ) * sqrt(s.normK) + SHIP_EPS)
  }

  lemma DenominatorPositive(sqrt: real -> real, s: Sums)
    requires s.normQ >= 0.0 && s.normK >= 0.0 && NonNegative(sqrt)
    ensures sqrt(s.normQ) * sqrt(s.normK) + SHIP_EPS > 0.0
  {
  }

  lemma {:induction false} NormsNonNegative(q: seq<real>, k: seq<real>)
    requires |q| == |k|
    ensures PairSums(q, k).normQ >= 0.0 && PairSums(q, k).normK >= 0.0
  {
    if q != [] {
      assert Terms(q, k)[1..] == Terms(q[1..], k[1..]);
      NormsNonNegative(q[1..], k[1..]);
      assert q[0] * q[0] >= 0.0 && k[0] * k[0] >= 0.0;
    }
  }

  function Score(sqrt: real -> real, q: seq<real>, k: seq<real>): real
    requires |q| == |k| && NonNegative(sqrt)
  {
    NormsNonNegative(q, k);
    CosineScore(sqrt, PairSums(q, k))
  }

  // ---- what the score means ----

  // The inequality of Cauchy and Schwarz for the three sums.
  lemma {:induction false} DotBound(q: seq<real>, k: seq<real>)
    requires |q| == |k|
    ensures PairSums(q, k).dot * PairSums(q, k).dot <= PairSums(q, k).normQ * PairSums(q, k).normK
  {
    if q != [] {
      assert Terms(q, k)[1..] == Terms(q[1..], k[1..]);
      DotBound(q[1..], k[1..]);
      NormsNonNegative(q[1..], k[1..]);
      var s := PairSums(q[1..], k[1..]);
      BoundStep(s.dot, s.normQ, s.normK, q[0], k[0]);
    }
  }

  lemma BoundStep(d: real, n: real, m: real, a: real, b: real)
    requires d * d <= n * m && n >= 0.0 && m >= 0.0
    ensures (a * b + d) * (a * b + d) <= (a * a + n) * (b * b + m)
  {
    var u, v, w := n * (b * b), m * (a * a), d * (a * b);
    assert (a * b + d) * (a * b + d) == a * a * (b * b) + 2.0 * w + d * d;
    assert (a * a + n) * (b * b + m) == a * a * (b * b) + v + u + n * m;
    ProductsBound(d, n, m, a, b);
    MeanBound(u, v, w);
  }

  lemma ProductsBound(d: real, n: real, m: real, a: real, b: real)
    requires d * d <= n * m && n >= 0.0 && m >= 0.0
    ensures d * (a * b) * (d * (a * b)) <= n * (b * b) * (m * (a * a))
    ensures n * (b * b) >= 0.0 && m * (a * a) >= 0.0
  {
    var p := a * b;
    assert p * p >= 0.0;
    assert d * p * (d * p) == d * d * (p * p);
    assert n * (b * b) * (m * (a * a)) == n * m * (p * p);
    ScaleBound(d * d, n * m, p * p);
  }

  lemma ScaleBound(x: real, y: real, c: real)
    requires x <= y && c >= 0.0
    ensures x * c <= y * c
  {
  }

  lemma SquareOrder(x: real, y: real)
    requires x > y >= 0.0
    ensures x * x > y * y
  {
    var e := x - y;
    assert e * x > 0.0 && e * y >= 0.0;
    assert x * x - y * y == e * x + e * y;
  }

  lemma MeanBound(u: real, v: real, w: real)
    requires u >= 0.0 && v >= 0.0 && w * w <= u * v
    ensures 2.0 * w <= u + v
  {
    var t, e := u + v, u - v;
    assert t * t == 4.0 * (u * v) + e * e && e * e >= 0.0;
    if 2.0 * w > t {
      SquareOrder(2.0 * w, t);
      assert false;
    }
  }

  // With a true square root every score lies strictly between -1 and 1.
  lemma ScoreInUnitInterval(sqrt: real -> real, q: seq<real>, k: seq<real>)
    requires |q| == |k| && NonNegative(sqrt)
    requires forall x :: x >= 0.0 ==> sqrt(x) * sqrt(x) == x
    ensures -1.0 < Score(sqrt, q, k) < 1.0
  {
    NormsNonNegative(q, k);
    DotBound(q, k);
    SumsScoreBound(sqrt, PairSums(q, k));
  }

  lemma SumsScoreBound(sqrt: real -> real, s: Sums)
    requires s.normQ >= 0.0 && s.normK >= 0.0 && s.dot * s.dot <= s.normQ * s.normK && NonNegative(sqrt)
    requires forall x :: x >= 0.0 ==> sqrt(x) * sqrt(x) == x
    ensures -1.0 < CosineScore(sqrt, s) < 1.0
  {
    var x, y := sqrt(s.normQ), sqrt(s.normK);
    var p := x * y;
    RootProduct(x, y, s.normQ, s.normK);
    RootBound(s.dot, p);
    QuotientBound(s.dot, p);
    DenominatorPositive(sqrt, s);
    assert CosineScore(sqrt, s) == s.dot / (p + SHIP_EPS);
  }

  lemma RootProduct(x: real, y: real, n: real, m: real)
    requires x >= 0.0 && y >= 0.0 && x * x == n && y * y == m
    ensures x * y >= 0.0 && x * y * (x * y) == n * m
  {
  }

  lemma RootBound(d: real, p: real)
    requires p >= 0.0 && d * d <= p * p
    ensures -p <= d <= p
  {
    if d > p {
      SquareOrder(d, p);
      assert false;
    }
    if -d > p {
      SquareOrder(-d, p);
      assert false;
    }
  }

  lemma QuotientBound(d: real, p: real)
    requires p >= 0.0 && -p <= d <= p
    ensures -1.0 < d / (p + SHIP_EPS) < 1.0
  {
    var c := p + SHIP_EPS;
    var r := d / c;
    assert r * c == d;
    assert r >= 1.0 ==> r * c >= c;
    assert r <= -1.0 ==> r * c <= -c;
  }

  // A zero vector scores zero.
  lemma {:induction false} ZeroDot(q: seq<real>, k: seq<real>)
    requires |q| == |k|
    requires (forall i :: 0 <= i < |q| ==> q[i] == 0.0) || (forall i :: 0 <= i < |k| ==> k[i] == 0.0)
    ensures PairSums(q, k).dot == 0.0
  {
    if q != [] {
      assert Terms(q, k)[1..] == Terms(q[1..], k[1..]);
      ZeroDot(q[1..], k[1..]);
      assert Terms(q, k)[0].dot == 0.0;
    }
  }

  lemma ZeroVectorScoresZero(sqrt: real -> real, q: seq<real>, k: seq<real>)
    requires |q| == |k| && NonNegative(sqrt)
    requires (forall i :: 0 <= i < |q| ==> q[i] == 0.0) || (forall i :: 0 <= i < |k| ==> k[i] == 0.0)
    ensures Score(sqrt, q, k) == 0.0
  {
    NormsNonNegative(q, k);
    ZeroDot(q, k);
    DenominatorPositive(sqrt, PairSums(q, k));
  }
}
