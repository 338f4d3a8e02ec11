// Ternary packing: sixteen 2-bit codes per 32-bit word, and the same codes four per byte
// (src/bitpacking.rs:109-163, :204-298; cu/common.cuh:99-108). Words are numbers below 2^32;
// shifting right by two bits divides by four.

module Bitpacking {
  import opened Wrappers
  import opened Words

  type i8 = x: int | -128 <= x < 128
  type Code = c: int | 0 <= c < 4

  // Values outside {-1, 0, +1} are clamped.
  function Clamp(v: i8): (t: i8)
    ensures -1 <= t <= 1
  {
    if v > 0 then 1 else if v < 0 then -1 else 0
  }

  function EncodeTrit(v: i8): Code {
    if v == 0 then 0 else if v >= 1 then 1 else 2
  }

  // The reserved code 3 decodes to zero.
  function DecodeTrit(code: Code): i8 {
    if code == 1 then 1 else if code == 2 then -1 else 0
  }

  lemma DecodeEncode(v: i8)
    ensures DecodeTrit(EncodeTrit(v)) == Clamp(v)
  {
  }

  // ---- 2-bit fields of a word ----

  // (word >> (2 * slot)) & 3
  function Field(word: nat, slot: nat): Code
    decreases slot
  {
    if slot == 0 then word % 4 else Field(word / 4, slot - 1)
  }

  // a | b
  function OrCodes(a: Code, b: Code): Code {
    if a == b || b == 0 then a else if a == 0 then b else 3
  }

  // word | (code << (2 * slot)): the bits of a 2-bit code meet only those of its slot.
  function OrField(word: nat, slot: nat, code: Code): nat
    decreases slot
  {
    if slot == 0 then word / 4 * 4 + OrCodes(word % 4, code) else OrField(word / 4, slot - 1, code) * 4 + word % 4
  }

  lemma {:induction false} FieldOfOr(word: nat, slot: nat, code: Code, i: nat)
    ensures Field(OrField(word, slot, code), i) == if i == slot then OrCodes(Field(word, i), code) else Field(word, i)
    decreases i
  {
    if slot > 0 && i > 0 {
      FieldOfOr(word / 4, slot - 1, code, i - 1);
    }
  }

  // No bit is set at or above 2 * n.
  ghost predicate Fits(word: nat, n: nat)
    decreases n
  {
    if n == 0 then word == 0 else Fits(word / 4, n - 1)
  }

  lemma {:induction false} OrFieldFits(word: nat, slot: nat, code: Code, n: nat)
    requires Fits(word, n) && slot < n
    ensures Fits(OrField(word, slot, code), n)
    decreases slot
  {
    if slot > 0 {
      OrFieldFits(word / 4, slot - 1, code, n - 1);
    }
  }

  ghost function Pow4(n: nat): (p: nat)
    ensures p > 0
  {
    if n == 0 then 1 else 4 * Pow4(n - 1)
  }

  lemma {:induction false} FitsIsBound(word: nat, n: nat)
    ensures Fits(word, n) <==> word < Pow4(n)
    decreases n
  {
    if n > 0 {
      FitsIsBound(word / 4, n - 1);
    }
  }

  lemma WordFits(word: nat)
    ensures Fits(word, 16) <==> word < TWO32
  {
    FitsIsBound(word, 16);
    assert Pow4(2) == 16;
    assert Pow4(4) == 16 * Pow4(2);
    assert Pow4(6) == 16 * Pow4(4);
    assert Pow4(8) == 16 * Pow4(6);
    assert Pow4(10) == 16 * Pow4(8);
    assert Pow4(12) == 16 * Pow4(10);
    assert Pow4(14) == 16 * Pow4(12);
    assert Pow4(16) == 16 * Pow4(14);
  }

  lemma {:induction false} FieldOfZero(i: nat)
    ensures Field(0, i) == 0
    decreases i
  {
    if i > 0 {
      FieldOfZero(i - 1);
    }
  }

  // ---- packed vectors ----

  // The code that belongs in slot i; padding slots are zero.
  function CodeAt(values: seq<i8>, i: nat): Code {
    if i < |values| then EncodeTrit(values[i]) else 0
  }

  function FieldAt(words: seq<u32>, i: nat): Code
    requires i < 16 * |words|
  {
    Field(words[i / 16], i % 16)
  }

  // `words` is the packing of `values`.
  ghost predicate Packs(values: seq<i8>, words: seq<u32>) {
    && |words| == CeilDiv(|values|, 16)
    && forall i: nat :: i < 16 * |words| ==> FieldAt(words, i) == CodeAt(values, i)
  }

  // out[i / 16] |= code << (2 * (i % 16))
  method OrInto(out: array<u32>, i: nat, code: Code)
    requires i < 16 * out.Length
    modifies out
    ensures forall j: nat :: j < 16 * out.Length ==>
      FieldAt(out[..], j) == if j == i then OrCodes(FieldAt(old(out[..]), j), code) else FieldAt(old(out[..]), j)
  {
    ghost var before := out[..];
    var w, slot := i / 16, i % 16;
    WordFits(out[w]);
    OrFieldFits(out[w], slot, code, 16);
    WordFits(OrField(out[w], slot, code));
    out[w] := OrField(out[w], slot, code);
    forall j: nat | j < 16 * out.Length
      ensures FieldAt(out[..], j) == if j == i then OrCodes(FieldAt(before, j), code) else FieldAt(before, j)
    {
      OrIntoWord(before, out[..], i, code, j);
    }
  }

  lemma OrIntoWord(before: seq<u32>, after: seq<u32>, i: nat, code: Code, j: nat)
    requires |before| == |after| && i < 16 * |before| && j < 16 * |before|
    requires after[i / 16] == OrField(before[i / 16], i % 16, code)
    requires forall w :: 0 <= w < |before| && w != i / 16 ==> after[w] == before[w]
    ensures FieldAt(after, j) == if j == i then OrCodes(FieldAt(before, j), code) else FieldAt(before, j)
  {
    if j / 16 == i / 16 {
      FieldOfOr(before[i / 16], i % 16, code, j % 16);
    }
  }

  // pack_ternary
  method PackTernary(values: seq<i8>) returns (words: seq<u32>)
    ensures Packs(values, words)
  {
    var out := new u32[CeilDiv(|values|, 16)](_ => 0);
    forall i: nat | i < 16 * out.Length ensures FieldAt(out[..], i) == 0 {
      FieldOfZero(i % 16);
    }
    for i := 0 to |values|
      invariant forall j: nat :: j < 16 * out.Length ==> FieldAt(out[..], j) == if j < i then CodeAt(values, j) else 0
    {
      OrInto(out, i, EncodeTrit(values[i]));
    }
    words := out[..];
  }

  // unpack_ternary
  method UnpackTernary(words: seq<u32>, count: Option<nat>) returns (values: seq<i8>)
    ensures |values| == if count.Some? && count.value < 16 * |words| then count.value else 16 * |words|
    ensures forall i :: 0 <= i < |values| ==> values[i] == DecodeTrit(FieldAt(words, i))
  {
    var maxValues := 16 * |words|;
    var total := match count case None => maxValues case Some(n) => if n < maxValues then n else maxValues;
    values := [];
    for i := 0 to total
      invariant |values| == i
      invariant forall j :: 0 <= j < i ==> values[j] == DecodeTrit(FieldAt(words, j))
    {
      values := values + [DecodeTrit(Field(words[i / 16], i % 16))];
    }
  }

  // Unpacking what was packed gives the clamped values, and zeros in the padding.
  lemma PackedRoundTrip(values: seq<i8>, words: seq<u32>, i: nat)
    requires Packs(values, words) && i < 16 * |words|
    ensures DecodeTrit(FieldAt(words, i)) == if i < |values| then Clamp(values[i]) else 0
  {
    if i < |values| {
      DecodeEncode(values[i]);
    }
  }

  // ---- the fields determine the word ----

  ghost predicate SameField(a: nat, b: nat, i: nat) {
    Field(a, i) == Field(b, i)
  }

  lemma {:induction false} FieldsDetermine(a: nat, b: nat, n: nat)
    requires Fits(a, n) && Fits(b, n) && forall i: nat :: i < n ==> SameField(a, b, i)
    ensures a == b
    decreases n
  {
    if n > 0 {
      assert SameField(a, b, 0);
      forall i: nat | i < n - 1 ensures SameField(a / 4, b / 4, i) {
        assert SameField(a, b, i + 1);
      }
      FieldsDetermine(a / 4, b / 4, n - 1);
    }
  }

  // A vector has exactly one packing.
  lemma PackingUnique(values: seq<i8>, a: seq<u32>, b: seq<u32>)
    requires Packs(values, a) && Packs(values, b)
    ensures a == b
  {
    forall w | 0 <= w < |a| ensures a[w] == b[w] {
      forall i: nat | i < 16 ensures SameField(a[w], b[w], i) {
        assert FieldAt(a, 16 * w + i) == FieldAt(b, 16 * w + i);
      }
      WordFits(a[w]);
      WordFits(b[w]);
      FieldsDetermine(a[w], b[w], 16);
    }
  }

  // ---- the packing bit by bit ----

  // A field is two neighbouring bits of its word.
  lemma {:induction false} FieldBits(word: nat, slot: nat)
    ensures Bit(word, 2 * slot) == Field(word, slot) % 2
    ensures Bit(word, 2 * slot + 1) == Field(word, slot) / 2
    decreases slot
  {
    if slot == 0 {
      assert Bit(word, 1) == Bit(word / 2, 0);
    } else {
      FieldBits(word / 4, slot - 1);
      TwoBits(word, 2 * slot - 2);
      TwoBits(word, 2 * slot - 1);
    }
  }

  lemma TwoBits(word: nat, b: nat)
    ensures Bit(word, b + 2) == Bit(word / 4, b)
  {
    assert Bit(word, b + 2) == Bit(word / 2, b + 1) == Bit(word / 2 / 2, b);
    assert word / 2 / 2 == word / 4;
  }

  // Value i sits in word i / 16: its low bit is set exactly when it is positive, its high bit
  // exactly when it is negative.
  lemma PackedBits(values: seq<i8>, words: seq<u32>, i: nat)
    requires Packs(values, words) && i < |values|
    ensures i / 16 < |words|
    ensures Bit(words[i / 16], 2 * (i % 16)) == 1 <==> values[i] > 0
    ensures Bit(words[i / 16], 2 * (i % 16) + 1) == 1 <==> values[i] < 0
  {
    assert FieldAt(words, i) == CodeAt(values, i);
    FieldBits(words[i / 16], i % 16);
  }

  // Unpacking reads 1 for the low bit alone, -1 for the high bit alone, and 0 otherwise.
  lemma UnpackedBits(words: seq<u32>, i: nat)
    requires i < 16 * |words|
    ensures
      var low, high := Bit(words[i / 16], 2 * (i % 16)), Bit(words[i / 16], 2 * (i % 16) + 1);
      DecodeTrit(FieldAt(words, i)) == if low == 1 && high == 0 then 1 else if low == 0 && high == 1 then -1 else 0
  {
    FieldBits(words[i / 16], i % 16);
  }
}
