// Clauses in the packed literal encoding of cu/satsolver.cu:26-37 and what it means for an
// assignment of bytes to satisfy them.

module SatFormula {
  import opened Words
  import opened Launch

  datatype Literal = Literal(v: nat, negated: bool)

  // Every clause has `clauseLen` literals; a literal whose variable is not below `nVars` is
  // invalid and never satisfied.
  datatype Formula = Formula(nVars: nat, clauseLen: nat, clauses: seq<seq<Literal>>) {
    ghost predicate Valid() {
      && nVars <= INT_MAX && |clauses| <= INT_MAX && clauseLen <= INT_MAX
      && forall c :: 0 <= c < |clauses| ==> |clauses[c]| == clauseLen
    }
  }

  // 2 * var is the positive literal, 2 * var + 1 the negative one; the signed word is read
  // as unsigned.
  function Decode(packed: i32): Literal {
    Literal(WrapU32(packed) / 2, WrapU32(packed) % 2 == 1)
  }

  function FlatIndex(f: Formula, c: nat, l: nat): nat {
    c * f.clauseLen + l
  }

  // `packed` is the row-major device buffer of the formula.
  ghost predicate Encodes(packed: seq<i32>, f: Formula) {
    forall c: nat, l: nat {:trigger FlatIndex(f, c, l)} :: c < |f.clauses| && l < f.clauseLen ==>
      && FlatIndex(f, c, l) < |packed|
      && l < |f.clauses[c]|
      && Decode(packed[FlatIndex(f, c, l)]) == f.clauses[c][l]
  }

  // b ^ 1
  function Flip(b: Byte): Byte {
    if b % 2 == 0 then b + 1 else b - 1
  }

  // (asgn[var] ^ neg) != 0
  predicate LitHolds(asgn: seq<Byte>, lit: Literal) {
    lit.v < |asgn| && (if lit.negated then Flip(asgn[lit.v]) else asgn[lit.v]) != 0
  }

  predicate ClauseHolds(asgn: seq<Byte>, clause: seq<Literal>) {
    exists l :: 0 <= l < |clause| && LitHolds(asgn, clause[l])
  }

  predicate Holds(f: Formula, asgn: seq<Byte>, c: nat)
    requires c < |f.clauses|
  {
    ClauseHolds(asgn, f.clauses[c])
  }

  // Unsatisfied clauses among the first n.
  function UnsatBelow(f: Formula, asgn: seq<Byte>, n: nat): (count: nat)
    requires n <= |f.clauses|
    ensures count <= n
    ensures count == 0 <==> forall c: nat :: c < n ==> Holds(f, asgn, c)
  {
    if n == 0 then 0 else UnsatBelow(f, asgn, n - 1) + (if Holds(f, asgn, n - 1) then 0 else 1)
  }

  // A walker's score: its number of unsatisfied clauses.
  function Score(f: Formula, asgn: seq<Byte>): (count: nat)
    ensures count <= |f.clauses|
  {
    UnsatBelow(f, asgn, |f.clauses|)
  }

  ghost predicate Satisfies(f: Formula, asgn: seq<Byte>)
  {
    forall c: nat :: c < |f.clauses| ==> Holds(f, asgn, c)
  }

  lemma {:induction false} UnsatBelowMonotone(f: Formula, asgn: seq<Byte>, m: nat, n: nat)
    requires m <= n <= |f.clauses|
    ensures UnsatBelow(f, asgn, m) <= UnsatBelow(f, asgn, n)
    decreases n
  {
    if m < n {
      UnsatBelowMonotone(f, asgn, m, n - 1);
    }
  }

  // ---- selecting the rank-th unsatisfied clause ----

  function NthUnsat(f: Formula, asgn: seq<Byte>, rank: nat, n: nat): (c: nat)
    requires n <= |f.clauses| && rank < UnsatBelow(f, asgn, n)
    ensures c < n && !Holds(f, asgn, c) && UnsatBelow(f, asgn, c) == rank
  {
    if rank < UnsatBelow(f, asgn, n - 1) then NthUnsat(f, asgn, rank, n - 1) else n - 1
  }

  // The rank determines the clause, so no other selection would be correct.
  lemma NthUnsatUnique(f: Formula, asgn: seq<Byte>, c: nat, d: nat)
    requires c < |f.clauses| && d < |f.clauses|
    requires !Holds(f, asgn, c) && !Holds(f, asgn, d)
    requires UnsatBelow(f, asgn, c) == UnsatBelow(f, asgn, d)
    ensures c == d
  {
    var lo, hi := if c < d then c else d, if c < d then d else c;
    if lo < hi {
      UnsatBelowMonotone(f, asgn, lo + 1, hi);
      assert false;
    }
  }

  // ---- what one flip does to the clauses ----

  function Flipped(asgn: seq<Byte>, v: nat): seq<Byte>
    requires v < |asgn|
  {
    asgn[v := Flip(asgn[v])]
  }

  // Clauses below n that the flip takes from satisfied to unsatisfied.
  function BreaksBelow(f: Formula, asgn: seq<Byte>, v: nat, n: nat): (count: nat)
    requires n <= |f.clauses| && v < |asgn|
    ensures count <= n
  {
    if n == 0 then 0
    else BreaksBelow(f, asgn, v, n - 1)
         + (if Holds(f, asgn, n - 1) && !Holds(f, Flipped(asgn, v), n - 1) then 1 else 0)
  }

  // Clauses below n that the flip takes from unsatisfied to satisfied.
  function MakesBelow(f: Formula, asgn: seq<Byte>, v: nat, n: nat): (count: nat)
    requires n <= |f.clauses| && v < |asgn|
  {
    if n == 0 then 0
    else MakesBelow(f, asgn, v, n - 1)
         + (if !Holds(f, asgn, n - 1) && Holds(f, Flipped(asgn, v), n - 1) then 1 else 0)
  }

  function Breaks(f: Formula, asgn: seq<Byte>, v: nat): (count: nat)
    requires v < |asgn|
    ensures count <= |f.clauses|
  {
    BreaksBelow(f, asgn, v, |f.clauses|)
  }

  function Makes(f: Formula, asgn: seq<Byte>, v: nat): nat
    requires v < |asgn|
  {
    MakesBelow(f, asgn, v, |f.clauses|)
  }

  lemma {:induction false} FlipBalance(f: Formula, asgn: seq<Byte>, v: nat, n: nat)
    requires n <= |f.clauses| && v < |asgn|
    ensures UnsatBelow(f, Flipped(asgn, v), n) + MakesBelow(f, asgn, v, n)
         == UnsatBelow(f, asgn, n) + BreaksBelow(f, asgn, v, n)
    decreases n
  {
    if n > 0 {
      FlipBalance(f, asgn, v, n - 1);
    }
  }

  // Flipping any valid variable of an unsatisfied clause satisfies it, whatever the bytes.
  lemma FlipSatisfies(asgn: seq<Byte>, clause: seq<Literal>, l: nat)
    requires l < |clause| && clause[l].v < |asgn| && !ClauseHolds(asgn, clause)
    ensures ClauseHolds(Flipped(asgn, clause[l].v), clause)
  {
    assert !LitHolds(asgn, clause[l]);
    assert LitHolds(Flipped(asgn, clause[l].v), clause[l]);
  }

  lemma {:induction false} MakesAtLeastOne(f: Formula, asgn: seq<Byte>, v: nat, n: nat, c: nat)
    requires c < n <= |f.clauses| && v < |asgn|
    requires !Holds(f, asgn, c) && Holds(f, Flipped(asgn, v), c)
    ensures MakesBelow(f, asgn, v, n) >= 1
    decreases n
  {
    if c < n - 1 {
      MakesAtLeastOne(f, asgn, v, n - 1, c);
    }
  }

  ghost predicate Binary(asgn: seq<Byte>) {
    forall v :: 0 <= v < |asgn| ==> asgn[v] == 0 || asgn[v] == 1
  }
}
