// Byte interchange of packed trits: the byte payload is a prefix of the little-endian bytes of
// the packed words (src/bitpacking.rs:224-298).

module BytePacking {
  import opened Wrappers
  import opened Words
  import opened Bitpacking

  // Byte b of w.to_le_bytes(): (w >> (8 * b)) & 0xff
  function ByteOf(word: nat, b: nat): Byte
    decreases b
  {
    if b == 0 then word % 256 else ByteOf(word / 256, b - 1)
  }

  // u32::from_le_bytes
  function FromLe(b0: Byte, b1: Byte, b2: Byte, b3: Byte): u32 {
    b0 + 256 * (b1 + 256 * (b2 + 256 * b3))
  }

  function LeBytes(words: seq<u32>): (bytes: seq<Byte>)
    ensures |bytes| == 4 * |words|
  {
    seq(4 * |words|, b requires 0 <= b < 4 * |words| => ByteOf(words[b / 4], b % 4))
  }

  // Bytes past the end read as zero.
  function ByteOrZero(bytes: seq<Byte>, b: nat): Byte {
    if b < |bytes| then bytes[b] else 0
  }

  function RebuiltWord(bytes: seq<Byte>, w: nat): u32 {
    FromLe(ByteOrZero(bytes, 4 * w), ByteOrZero(bytes, 4 * w + 1),
           ByteOrZero(bytes, 4 * w + 2), ByteOrZero(bytes, 4 * w + 3))
  }

  function WordsOf(bytes: seq<Byte>): (words: seq<u32>)
    ensures |words| == CeilDiv(|bytes|, 4)
  {
    seq(CeilDiv(|bytes|, 4), w requires 0 <= w < CeilDiv(|bytes|, 4) => RebuiltWord(bytes, w))
  }

  // packed_u32_as_le_bytes
  method PackedAsLeBytes(words: seq<u32>) returns (out: seq<Byte>)
    ensures out == LeBytes(words)
  {
    out := [];
    for i := 0 to |words|
      invariant out == LeBytes(words[..i])
    {
      var w := words[i];
      out := out + [ByteOf(w, 0), ByteOf(w, 1), ByteOf(w, 2), ByteOf(w, 3)];
    }
    assert words[..|words|] == words;
  }

  // packed_u32_from_le_bytes: whole chunks of four, then a zero-padded remainder.
  method PackedFromLeBytes(bytes: seq<Byte>) returns (out: seq<u32>)
    ensures out == WordsOf(bytes)
  {
    if |bytes| == 0 {
      return [];
    }
    out := [];
    var chunks := |bytes| / 4;
    for i := 0 to chunks
      invariant |out| == i
      invariant forall w :: 0 <= w < i ==> out[w] == RebuiltWord(bytes, w)
    {
      out := out + [FromLe(bytes[4 * i], bytes[4 * i + 1], bytes[4 * i + 2], bytes[4 * i + 3])];
    }
    var rem := bytes[4 * chunks..];
    if |rem| != 0 {
      RemainderWord(bytes, chunks);
      out := out + [RebuiltWord(rem, 0)];
    }
  }

  lemma RemainderWord(bytes: seq<Byte>, w: nat)
    requires 4 * w <= |bytes|
    ensures RebuiltWord(bytes[4 * w..], 0) == RebuiltWord(bytes, w)
  {
    var rem := bytes[4 * w..];
    assert ByteOrZero(rem, 0) == ByteOrZero(bytes, 4 * w) && ByteOrZero(rem, 1) == ByteOrZero(bytes, 4 * w + 1);
    assert ByteOrZero(rem, 2) == ByteOrZero(bytes, 4 * w + 2) && ByteOrZero(rem, 3) == ByteOrZero(bytes, 4 * w + 3);
  }

  lemma BytesRebuildWord(word: u32)
    ensures FromLe(ByteOf(word, 0), ByteOf(word, 1), ByteOf(word, 2), ByteOf(word, 3)) == word
  {
    var w1 := word / 256;
    var w2 := w1 / 256;
    var w3 := w2 / 256;
    assert ByteOf(word, 1) == ByteOf(w1, 0);
    assert ByteOf(word, 2) == ByteOf(w1, 1) == ByteOf(w2, 0);
    assert ByteOf(word, 3) == ByteOf(w1, 2) == ByteOf(w2, 1) == ByteOf(w3, 0);
    assert word == w1 * 256 + word % 256 && w1 == w2 * 256 + w1 % 256 && w2 == w3 * 256 + w2 % 256;
  }

  lemma LeBytesAt(words: seq<u32>, w: nat, b: nat)
    requires w < |words| && b < 4
    ensures 4 * w + b < |LeBytes(words)| && LeBytes(words)[4 * w + b] == ByteOf(words[w], b)
  {
  }

  // Reading back the bytes of any words gives the words.
  // The four bytes of a word, lowest first.
  lemma LeBytesValue(words: seq<u32>, w: nat)
    requires w < |words|
    ensures 4 * w + 3 < |LeBytes(words)|
    ensures
      var b := LeBytes(words);
      b[4 * w] as int + 256 * (b[4 * w + 1] as int) + 65536 * (b[4 * w + 2] as int) + 16777216 * (b[4 * w + 3] as int)
        == words[w]
  {
    LeBytesAt(words, w, 0);
    LeBytesAt(words, w, 1);
    LeBytesAt(words, w, 2);
    LeBytesAt(words, w, 3);
    BytesRebuildWord(words[w]);
  }

  lemma LeBytesRoundTrip(words: seq<u32>)
    ensures WordsOf(LeBytes(words)) == words
  {
    forall w | 0 <= w < |words| ensures RebuiltWord(LeBytes(words), w) == words[w] {
      LeBytesAt(words, w, 0);
      LeBytesAt(words, w, 1);
      LeBytesAt(words, w, 2);
      LeBytesAt(words, w, 3);
      BytesRebuildWord(words[w]);
    }
  }

  // ---- fields of bytes and of words ----

  lemma FieldSkipsByte(word: nat, slot: nat)
    ensures Field(word, slot + 4) == Field(word / 256, slot)
  {
    assert Field(word, slot + 4) == Field(word / 4, slot + 3) == Field(word / 4 / 4, slot + 2);
    assert Field(word / 4 / 4, slot + 2) == Field(word / 4 / 4 / 4, slot + 1) == Field(word / 4 / 4 / 4 / 4, slot);
    assert word / 4 / 4 / 4 / 4 == word / 256;
  }

  // Bits above the slot's block of n slots do not matter.
  lemma {:induction false} FieldIgnoresAbove(low: nat, above: nat, n: nat, slot: nat)
    requires slot < n
    ensures Field(low + Pow4(n) * above, slot) == Field(low, slot)
    decreases n
  {
    var x := Pow4(n - 1) * above;
    assert Pow4(n) * above == 4 * x;
    assert (low + 4 * x) % 4 == low % 4 && (low + 4 * x) / 4 == low / 4 + x;
    if slot > 0 {
      FieldIgnoresAbove(low / 4, above, n - 1, slot - 1);
    }
  }

  lemma LowByteField(word: nat, slot: nat)
    requires slot < 4
    ensures Field(word, slot) == Field(word % 256, slot)
  {
    assert Pow4(4) == 256 by {
      assert Pow4(2) == 16;
      assert Pow4(4) == 16 * Pow4(2);
    }
    FieldIgnoresAbove(word % 256, word / 256, 4, slot);
  }

  // Slots 4b .. 4b + 3 of a word are the four slots of its byte b.
  lemma {:induction false} FieldInByte(word: nat, b: nat, slot: nat)
    requires slot < 4
    ensures Field(word, 4 * b + slot) == Field(ByteOf(word, b), slot)
    decreases b
  {
    if b == 0 {
      LowByteField(word, slot);
    } else {
      FieldSkipsByte(word, 4 * (b - 1) + slot);
      FieldInByte(word / 256, b - 1, slot);
    }
  }

  lemma ByteOfFromLe(b0: Byte, b1: Byte, b2: Byte, b3: Byte)
    ensures
      var w := FromLe(b0, b1, b2, b3);
      ByteOf(w, 0) == b0 && ByteOf(w, 1) == b1 && ByteOf(w, 2) == b2 && ByteOf(w, 3) == b3
  {
    var w2 := b2 + 256 * b3;
    var w1 := b1 + 256 * w2;
    var w := b0 + 256 * w1;
    assert w % 256 == b0 && w / 256 == w1;
    assert w1 % 256 == b1 && w1 / 256 == w2;
    assert w2 % 256 == b2 && w2 / 256 == b3;
    assert ByteOf(w, 1) == ByteOf(w1, 0);
    assert ByteOf(w, 2) == ByteOf(w1, 1) == ByteOf(w2, 0);
    assert ByteOf(w, 3) == ByteOf(w1, 2) == ByteOf(w2, 1) == ByteOf(b3, 0);
  }

  // ---- the byte payload ----

  ghost predicate PacksBytes(values: seq<i8>, bytes: seq<Byte>) {
    && |bytes| == CeilDiv(|values|, 4)
    && forall i: nat :: i < 4 * |bytes| ==> ByteFieldAt(bytes, i) == CodeAt(values, i)
  }

  function ByteFieldAt(bytes: seq<Byte>, i: nat): Code
    requires i < 4 * |bytes|
  {
    Field(bytes[i / 4], i % 4)
  }

  lemma ByteFits(b: nat)
    ensures Fits(b, 4) <==> b < 256
  {
    assert Fits(b, 4) <==> Fits(b / 4, 3);
    assert Fits(b / 4, 3) <==> Fits(b / 4 / 4, 2);
    assert Fits(b / 4 / 4, 2) <==> Fits(b / 4 / 4 / 4, 1);
  }

  // out[i / 4] |= code << (2 * (i % 4))
  method OrIntoByte(out: array<Byte>, i: nat, code: Code)
    requires i < 4 * out.Length
    modifies out
    ensures forall j: nat :: j < 4 * out.Length ==>
      ByteFieldAt(out[..], j)
        == if j == i then OrCodes(ByteFieldAt(old(out[..]), j), code) else ByteFieldAt(old(out[..]), j)
  {
    ghost var before := out[..];
    var b, slot := i / 4, i % 4;
    ByteFits(out[b]);
    OrFieldFits(out[b], slot, code, 4);
    ByteFits(OrField(out[b], slot, code));
    out[b] := OrField(out[b], slot, code);
    forall j: nat | j < 4 * out.Length
      ensures ByteFieldAt(out[..], j) == if j == i then OrCodes(ByteFieldAt(before, j), code) else ByteFieldAt(before, j)
    {
      if j / 4 == b {
        FieldOfOr(before[b], slot, code, j % 4);
      }
    }
  }

  // pack_ternary_bytes
  method PackTernaryBytes(values: seq<i8>) returns (bytes: seq<Byte>)
    ensures PacksBytes(values, bytes)
  {
    var out := new Byte[CeilDiv(|values|, 4)](_ => 0);
    forall i: nat | i < 4 * out.Length ensures ByteFieldAt(out[..], i) == 0 {
      FieldOfZero(i % 4);
    }
    for i := 0 to |values|
      invariant forall j: nat :: j < 4 * out.Length ==> ByteFieldAt(out[..], j) == if j < i then CodeAt(values, j) else 0
    {
      OrIntoByte(out, i, EncodeTrit(values[i]));
    }
    bytes := out[..];
  }

  // unpack_ternary_bytes
  method UnpackTernaryBytes(bytes: seq<Byte>, count: Option<nat>) returns (values: seq<i8>)
    ensures |values| == if count.Some? && count.value < 4 * |bytes| then count.value else 4 * |bytes|
    ensures forall i :: 0 <= i < |values| ==> values[i] == DecodeTrit(ByteFieldAt(bytes, i))
  {
    var maxValues := 4 * |bytes|;
    var total := match count case None => maxValues case Some(n) => if n < maxValues then n else maxValues;
    values := [];
    for i := 0 to total
      invariant |values| == i
      invariant forall j :: 0 <= j < i ==> values[j] == DecodeTrit(ByteFieldAt(bytes, j))
    {
      values := values + [DecodeTrit(Field(bytes[i / 4], i % 4))];
    }
  }

  lemma ByteOfRebuilt(bytes: seq<Byte>, w: nat, b: nat)
    requires b < 4
    ensures ByteOf(RebuiltWord(bytes, w), b) == ByteOrZero(bytes, 4 * w + b)
  {
    ByteOfFromLe(ByteOrZero(bytes, 4 * w), ByteOrZero(bytes, 4 * w + 1),
                 ByteOrZero(bytes, 4 * w + 2), ByteOrZero(bytes, 4 * w + 3));
  }

  // A slot of the rebuilt words is the payload's slot, and zero past its end.
  lemma FieldOfRebuilt(bytes: seq<Byte>, i: nat)
    requires i < 16 * CeilDiv(|bytes|, 4)
    ensures FieldAt(WordsOf(bytes), i) == if i / 4 < |bytes| then ByteFieldAt(bytes, i) else 0
  {
    var w, b, slot := i / 16, i % 16 / 4, i % 4;
    FieldInByte(RebuiltWord(bytes, w), b, slot);
    ByteOfRebuilt(bytes, w, b);
    FieldOfZero(slot);
    assert i % 16 == 4 * b + slot && i / 4 == 4 * w + b;
  }

  // The words rebuilt from a byte payload are the word packing of the same values.
  lemma PayloadRebuildsPacking(values: seq<i8>, bytes: seq<Byte>)
    requires PacksBytes(values, bytes)
    ensures Packs(values, WordsOf(bytes))
  {
    forall i: nat | i < 16 * |WordsOf(bytes)| ensures FieldAt(WordsOf(bytes), i) == CodeAt(values, i) {
      FieldOfRebuilt(bytes, i);
    }
  }

  // The byte payload is the first ceil(n / 4) little-endian bytes of the word packing.
  lemma PayloadIsPrefix(values: seq<i8>, words: seq<u32>, bytes: seq<Byte>)
    requires Packs(values, words) && PacksBytes(values, bytes)
    ensures |bytes| <= |LeBytes(words)| && bytes == LeBytes(words)[..|bytes|]
  {
    PayloadRebuildsPacking(values, bytes);
    PackingUnique(values, words, WordsOf(bytes));
    forall b | 0 <= b < |bytes| ensures bytes[b] == LeBytes(words)[b] {
      ByteOfRebuilt(bytes, b / 4, b % 4);
    }
  }

  // Packing to bytes and unpacking gives the clamped values, directly or through rebuilt words.
  lemma PayloadRoundTrip(values: seq<i8>, bytes: seq<Byte>, i: nat)
    requires PacksBytes(values, bytes) && i < |values|
    ensures i < 4 * |bytes| && DecodeTrit(ByteFieldAt(bytes, i)) == Clamp(values[i])
    ensures i < 16 * |WordsOf(bytes)| && DecodeTrit(FieldAt(WordsOf(bytes), i)) == Clamp(values[i])
  {
    PayloadRebuildsPacking(values, bytes);
    PackedRoundTrip(values, WordsOf(bytes), i);
    FieldOfRebuilt(bytes, i);
  }
}
