// What a packed clause buffer says about a row of assignment bytes, word by word
// (cu/satsolver.cu:26-37, :48-65).

module SatWords {
  import opened Words
  import opened Launch
  import opened SatFormula

  // The literal 2 * v holds for a nonzero byte of variable v, the literal 2 * v + 1 for any byte
  // but 1; a variable outside the row never holds.
  ghost predicate WordHolds(word: i32, row: seq<Byte>) {
    var u := WrapU32(word);
    u / 2 < |row| && if u % 2 == 0 then row[u / 2] != 0 else row[u / 2] != 1
  }

  ghost predicate WordAtHolds(packed: seq<i32>, c: nat, len: nat, l: nat, row: seq<Byte>) {
    0 <= c * len + l < |packed| && WordHolds(packed[c * len + l], row)
  }

  // Clause c of the buffer: some of its `len` words holds.
  ghost predicate WordsHold(packed: seq<i32>, c: nat, len: nat, row: seq<Byte>) {
    exists l: nat :: l < len && WordAtHolds(packed, c, len, l, row)
  }

  ghost predicate SatisfiesWords(packed: seq<i32>, nClauses: nat, len: nat, row: seq<Byte>) {
    forall c: nat :: c < nClauses ==> WordsHold(packed, c, len, row)
  }

  // The clauses of the buffer that the row leaves unsatisfied.
  ghost function UnsatWords(packed: seq<i32>, nClauses: nat, len: nat, row: seq<Byte>): set<nat> {
    set c: nat | c < nClauses && !WordsHold(packed, c, len, row)
  }

  // On 0/1 rows: positive literals want 1, negative ones 0.
  lemma WordHoldsOnBinary(word: i32, row: seq<Byte>)
    requires Binary(row)
    ensures
      var u := WrapU32(word);
      WordHolds(word, row) <==> u / 2 < |row| && (row[u / 2] == 1 <==> u % 2 == 0)
  {
  }

  // asgn[var] ^= 1u changes the lowest bit only.
  lemma FlipChangesLowestBit(b: Byte)
    ensures Flip(b) / 2 == b / 2 && Flip(b) % 2 == 1 - b % 2
  {
  }

  lemma LiteralIsWord(word: i32, row: seq<Byte>)
    ensures LitHolds(row, Decode(word)) <==> WordHolds(word, row)
  {
  }

  lemma ClauseIsWords(packed: seq<i32>, f: Formula, row: seq<Byte>, c: nat)
    requires f.Valid() && Encodes(packed, f) && c < |f.clauses|
    ensures Holds(f, row, c) <==> WordsHold(packed, c, f.clauseLen, row)
  {
    var clause := f.clauses[c];
    forall l: nat | l < f.clauseLen
      ensures LitHolds(row, clause[l]) <==> WordAtHolds(packed, c, f.clauseLen, l, row)
    {
      assert FlatIndex(f, c, l) == c * f.clauseLen + l;
      LiteralIsWord(packed[c * f.clauseLen + l], row);
    }
    if Holds(f, row, c) {
      var l: nat :| l < |clause| && LitHolds(row, clause[l]);
      assert WordAtHolds(packed, c, f.clauseLen, l, row);
    }
  }

  // Every buffer that is long enough encodes a formula of the given dimensions, which says what
  // the words say.
  lemma BufferEncodesFormula(packed: seq<i32>, nVars: nat, nClauses: nat, clauseLen: nat) returns (f: Formula)
    requires nVars <= INT_MAX && nClauses <= INT_MAX && clauseLen <= INT_MAX
    requires nClauses * clauseLen <= |packed|
    ensures f.Valid() && f.nVars == nVars && |f.clauses| == nClauses && f.clauseLen == clauseLen
    ensures Encodes(packed, f)
    ensures forall row, c: nat :: c < nClauses ==> (Holds(f, row, c) <==> WordsHold(packed, c, clauseLen, row))
  {
    f := Formula(nVars, clauseLen, seq(nClauses, c requires 0 <= c < nClauses =>
      seq(clauseLen, l requires 0 <= l < clauseLen => CellInside(nClauses, clauseLen, c, l);
        Decode(packed[c * clauseLen + l]))));
    forall c: nat, l: nat {:trigger FlatIndex(f, c, l)} | c < nClauses && l < clauseLen
      ensures FlatIndex(f, c, l) < |packed| && Decode(packed[FlatIndex(f, c, l)]) == f.clauses[c][l]
    {
      CellInside(nClauses, clauseLen, c, l);
    }
    forall row, c: nat | c < nClauses ensures Holds(f, row, c) <==> WordsHold(packed, c, clauseLen, row) {
      ClauseIsWords(packed, f, row, c);
    }
  }

  lemma FormulaIsWords(packed: seq<i32>, f: Formula, row: seq<Byte>)
    requires f.Valid() && Encodes(packed, f)
    ensures Satisfies(f, row) <==> SatisfiesWords(packed, |f.clauses|, f.clauseLen, row)
    ensures Score(f, row) == |UnsatWords(packed, |f.clauses|, f.clauseLen, row)|
  {
    forall c: nat | c < |f.clauses| ensures Holds(f, row, c) <==> WordsHold(packed, c, f.clauseLen, row) {
      ClauseIsWords(packed, f, row, c);
    }
    UnsatIsCardinality(f, row, |f.clauses|);
    assert Unsatisfied(f, row, |f.clauses|) == UnsatWords(packed, |f.clauses|, f.clauseLen, row);
  }

  // ---- the counts are cardinalities ----

  ghost function Unsatisfied(f: Formula, row: seq<Byte>, n: nat): (clauses: set<nat>)
    requires n <= |f.clauses|
    ensures forall c: nat :: c in clauses <==> c < n && !Holds(f, row, c)
  {
    set c: nat | c < n && !Holds(f, row, c)
  }

  lemma {:induction false} UnsatIsCardinality(f: Formula, row: seq<Byte>, n: nat)
    requires n <= |f.clauses|
    ensures UnsatBelow(f, row, n) == |Unsatisfied(f, row, n)|
    decreases n
  {
    if n > 0 {
      UnsatIsCardinality(f, row, n - 1);
      var before := Unsatisfied(f, row, n - 1);
      if Holds(f, row, n - 1) {
        assert Unsatisfied(f, row, n) == before;
      } else {
        assert Unsatisfied(f, row, n) == before + {n - 1};
      }
    }
  }

  // Clauses that go from satisfied to unsatisfied when variable v changes.
  ghost function Broken(f: Formula, row: seq<Byte>, v: nat, n: nat): (clauses: set<nat>)
    requires n <= |f.clauses| && v < |row|
    ensures forall c: nat :: c in clauses <==> c < n && Holds(f, row, c) && !Holds(f, row[v := Flip(row[v])], c)
  {
    set c: nat | c < n && Holds(f, row, c) && !Holds(f, row[v := Flip(row[v])], c)
  }

  lemma {:induction false} BreaksIsCardinality(f: Formula, row: seq<Byte>, v: nat, n: nat)
    requires n <= |f.clauses| && v < |row|
    ensures BreaksBelow(f, row, v, n) == |Broken(f, row, v, n)|
    decreases n
  {
    if n > 0 {
      BreaksIsCardinality(f, row, v, n - 1);
      var before := Broken(f, row, v, n - 1);
      if n - 1 in Broken(f, row, v, n) {
        assert Broken(f, row, v, n) == before + {n - 1};
      } else {
        assert Broken(f, row, v, n) == before;
      }
    }
  }
}
