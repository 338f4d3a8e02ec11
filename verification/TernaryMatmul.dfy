// Packed ternary matrices and their matrix-vector product on the host: the reference and the
// oracle (src/bitpacking.rs:204-222, :374-412; src/oracle.rs:252-315).

module TernaryMatmul {
  import opened Words
  import opened Launch
  import opened Bitpacking
  import opened TernaryRow

  // ---- packed matrices ----

  // Row-major `m x k` trits with every row padded to whole words.
  ghost predicate PacksMatrix(values: seq<i8>, packed: seq<u32>, m: nat, k: nat) {
    && m * k <= |values| && |packed| == m * CeilDiv(k, 16)
    && forall row: nat :: row < m ==> PacksRow(values, packed, m, k, row)
  }

  ghost predicate PacksRow(values: seq<i8>, packed: seq<u32>, m: nat, k: nat, row: nat)
    requires row < m && m * k <= |values| && m * CeilDiv(k, 16) <= |packed|
  {
    RowInside(row, m, k);
    RowInside(row, m, CeilDiv(k, 16));
    Packs(Row(values, row, k), Row(packed, row, CeilDiv(k, 16)))
  }

  // out[dest..dest + row.len()].copy_from_slice(row)
  method CopyInto(out: array<u32>, dest: nat, row: seq<u32>)
    requires dest + |row| <= out.Length
    modifies out
    ensures out[dest..dest + |row|] == row
    ensures forall i :: 0 <= i < out.Length && !(dest <= i < dest + |row|) ==> out[i] == old(out[i])
  {
    for i := 0 to |row|
      invariant forall j :: 0 <= j < i ==> out[dest + j] == row[j]
      invariant forall j :: 0 <= j < out.Length && !(dest <= j < dest + |row|) ==> out[j] == old(out[j])
    {
      out[dest + i] := row[i];
    }
  }

  lemma RowCopied(values: seq<i8>, before: seq<u32>, after: seq<u32>, m: nat, k: nat, row: nat)
    requires row < m && m * k <= |values| && m * CeilDiv(k, 16) <= |before|
    requires OnlyRowChanged(before, after, row, CeilDiv(k, 16)) && PacksRow(values, after, m, k, row)
    ensures forall r: nat :: r < row && PacksRow(values, before, m, k, r) ==> PacksRow(values, after, m, k, r)
  {
    forall r: nat | r < row && PacksRow(values, before, m, k, r) ensures PacksRow(values, after, m, k, r) {
      RowInside(r, m, CeilDiv(k, 16));
      OtherRowKept(before, after, row, r, CeilDiv(k, 16));
    }
  }

  // pack_ternary_matrix
  method PackTernaryMatrix(values: seq<i8>, m: nat, k: nat) returns (packed: seq<u32>)
    requires m * k <= |values|
    ensures PacksMatrix(values, packed, m, k)
  {
    var wordsPerRow := CeilDiv(k, 16);
    RowInside(0, m + 1, wordsPerRow);
    var out := new u32[m * wordsPerRow](_ => 0);
    for row := 0 to m
      invariant forall r: nat :: r < row ==> PacksRow(values, out[..], m, k, r)
    {
      PackRowInto(values, out, m, k, row);
    }
    packed := out[..];
  }

  method PackRowInto(values: seq<i8>, out: array<u32>, m: nat, k: nat, row: nat)
    requires row < m && m * k <= |values| && out.Length == m * CeilDiv(k, 16)
    modifies out
    ensures PacksRow(values, out[..], m, k, row)
    ensures forall r: nat :: r < row && PacksRow(values, old(out[..]), m, k, r) ==> PacksRow(values, out[..], m, k, r)
  {
    RowInside(row, m, k);
    RowInside(row, m, CeilDiv(k, 16));
    var rowPacked := PackTernary(Row(values, row, k));
    CopyInto(out, row * CeilDiv(k, 16), rowPacked);
    RowCopied(values, old(out[..]), out[..], m, k, row);
  }

  // ---- what the products must be ----

  // Dimensions of a product, as every entry point validates them.
  ghost predicate WeightsFit(packed: seq<u32>, scales: seq<real>, m: nat, k: nat, groupSize: nat) {
    groupSize > 0 && m * CeilDiv(k, 16) <= |packed| && m * GroupCount(k, groupSize) <= |scales|
  }

  // The same with the scale stride of the host, k.div_ceil(group_size).
  ghost predicate HostFits(packed: seq<u32>, scales: seq<real>, m: nat, k: nat, groupSize: nat) {
    groupSize > 0 && m * CeilDiv(k, 16) <= |packed| && m * CeilDiv(k, groupSize) <= |scales|
  }

  // Host and device lay the scales out alike.
  lemma LayoutsAgree(packed: seq<u32>, scales: seq<real>, m: nat, k: nat, groupSize: nat)
    ensures HostFits(packed, scales, m, k, groupSize) <==> WeightsFit(packed, scales, m, k, groupSize)
  {
    if groupSize > 0 {
      GroupCountIsCeil(k, groupSize);
    }
  }

  function WeightWords(packed: seq<u32>, m: nat, k: nat, row: nat): (words: seq<u32>)
    requires row < m && m * CeilDiv(k, 16) <= |packed|
    ensures k <= 16 * |words|
  {
    RowInside(row, m, CeilDiv(k, 16));
    Row(packed, row, CeilDiv(k, 16))
  }

  function WeightScales(scales: seq<real>, m: nat, k: nat, groupSize: nat, row: nat): (s: seq<real>)
    requires groupSize > 0 && row < m && m * GroupCount(k, groupSize) <= |scales|
    ensures |s| == GroupCount(k, groupSize)
  {
    RowInside(row, m, GroupCount(k, groupSize));
    Row(scales, row, GroupCount(k, groupSize))
  }

  function GemvEntry(packed: seq<u32>, scales: seq<real>, x: seq<real>, m: nat, k: nat, groupSize: nat, row: nat): real
    requires groupSize > 0 && m * CeilDiv(k, 16) <= |packed| && m * GroupCount(k, groupSize) <= |scales|
    requires k <= |x| && row < m
  {
    RowProduct(WeightWords(packed, m, k, row), WeightScales(scales, m, k, groupSize, row), x, k, groupSize)
  }

  function Gemv(packed: seq<u32>, scales: seq<real>, x: seq<real>, m: nat, k: nat, groupSize: nat): (y: seq<real>)
    requires groupSize > 0 && m * CeilDiv(k, 16) <= |packed| && m * GroupCount(k, groupSize) <= |scales| && k <= |x|
    ensures |y| == m
  {
    seq(m, row requires 0 <= row < m => GemvEntry(packed, scales, x, m, k, groupSize, row))
  }

  // Entry `row` of the product of a packed matrix is the dense sum over the clamped trits.
  lemma PackedGemvIsDense(values: seq<i8>, packed: seq<u32>, scales: seq<real>, x: seq<real>,
                          m: nat, k: nat, groupSize: nat, row: nat)
    requires PacksMatrix(values, packed, m, k) && WeightsFit(packed, scales, m, k, groupSize) && k <= |x| && row < m
    ensures row * k + k <= m * k
    ensures Gemv(packed, scales, x, m, k, groupSize)[row]
         == RowSum(ClampAll(Row(values, row, k)),
                   ScaleRow(WeightScales(scales, m, k, groupSize, row), groupSize, k), x, k)
  {
    RowInside(row, m, k);
    assert PacksRow(values, packed, m, k, row);
    PackedRowIsDense(Row(values, row, k), WeightWords(packed, m, k, row),
                     WeightScales(scales, m, k, groupSize, row), x, groupSize);
  }

  // ---- GEMV ----

  // One row of the host reference, its words and scales sliced with the host's strides.
  method RefEntry(packed: seq<u32>, scales: seq<real>, x: seq<real>, m: nat, k: nat, groupSize: nat,
                  skipZeros: bool, row: nat) returns (acc: real)
    requires HostFits(packed, scales, m, k, groupSize) && k <= |x| && row < m
    ensures WeightsFit(packed, scales, m, k, groupSize)
    ensures acc == GemvEntry(packed, scales, x, m, k, groupSize, row)
  {
    LayoutsAgree(packed, scales, m, k, groupSize);
    GroupCountIsCeil(k, groupSize);
    var wpr, gpr := CeilDiv(k, 16), CeilDiv(k, groupSize);
    RowInside(row, m, wpr);
    RowInside(row, m, gpr);
    acc := HostRow(Row(packed, row, wpr), Row(scales, row, gpr), x, k, groupSize, skipZeros);
  }

  // ternary_gemv_ref
  method GemvRef(packed: seq<u32>, scales: seq<real>, x: seq<real>, m: nat, k: nat, groupSize: nat, skipZeros: bool)
    returns (y: seq<real>)
    requires HostFits(packed, scales, m, k, groupSize) && k <= |x|
    ensures WeightsFit(packed, scales, m, k, groupSize) && y == Gemv(packed, scales, x, m, k, groupSize)
  {
    LayoutsAgree(packed, scales, m, k, groupSize);
    y := [];
    for row := 0 to m
      invariant |y| == row
      invariant forall r :: 0 <= r < row ==> y[r] == GemvEntry(packed, scales, x, m, k, groupSize, r)
    {
      var acc := RefEntry(packed, scales, x, m, k, groupSize, skipZeros, row);
      y := y + [acc];
    }
  }

  // trit_at: element i of the row whose words start at `base` of the whole buffer.
  function TritAt(packed: seq<u32>, base: nat, i: nat): i8
    requires base + i / 16 < |packed|
  {
    DecodeTrit(Field(packed[base + i / 16], i % 16))
  }

  lemma TritOfRow(packed: seq<u32>, base: nat, words: nat, k: nat, i: nat)
    requires base + words <= |packed| && i < k <= 16 * words
    ensures base + i / 16 < |packed|
    ensures TritAt(packed, base, i) == Trits(packed[base..base + words], k)[i]
  {
    assert packed[base..base + words][i / 16] == packed[base + i / 16];
  }

  // The oracle's loop for one entry, addressing the buffers from the row's offsets.
  method OracleRow(packed: seq<u32>, wordBase: nat, words: nat, scales: seq<real>, scaleBase: nat, groups: nat,
                   x: seq<real>, k: nat, groupSize: nat, skipZeros: bool) returns (acc: real)
    requires wordBase + words <= |packed| && scaleBase + groups <= |scales|
    requires groupSize > 0 && k <= 16 * words && k <= |x| && GroupCount(k, groupSize) <= groups
    ensures acc == RowProduct(packed[wordBase..wordBase + words], scales[scaleBase..scaleBase + groups], x, k, groupSize)
  {
    ghost var trits := Trits(packed[wordBase..wordBase + words], k);
    ghost var s := scales[scaleBase..scaleBase + groups];
    ghost var expanded := ScaleRow(s, groupSize, k);
    acc := 0.0;
    for i := 0 to k
      invariant acc == RowSum(trits, expanded, x, i)
    {
      TritOfRow(packed, wordBase, words, k, i);
      var w := TritAt(packed, wordBase, i);
      if skipZeros && w == 0 {
        ZeroTerm(w, expanded[i], x[i]);
        continue;
      }
      ScaleAt(s, groupSize, k, i);
      acc := acc + Term(w, scales[scaleBase + i / groupSize], x[i]);
    }
  }

  method OracleEntry(packed: seq<u32>, scales: seq<real>, x: seq<real>, m: nat, k: nat, groupSize: nat,
                     skipZeros: bool, row: nat) returns (acc: real)
    requires HostFits(packed, scales, m, k, groupSize) && k <= |x| && row < m
    ensures WeightsFit(packed, scales, m, k, groupSize)
    ensures acc == GemvEntry(packed, scales, x, m, k, groupSize, row)
  {
    LayoutsAgree(packed, scales, m, k, groupSize);
    GroupCountIsCeil(k, groupSize);
    var wpr, gpr := CeilDiv(k, 16), CeilDiv(k, groupSize);
    RowInside(row, m, wpr);
    RowInside(row, m, gpr);
    acc := OracleRow(packed, row * wpr, wpr, scales, row * gpr, gpr, x, k, groupSize, skipZeros);
  }

  // ternary_gemv_oracle
  method GemvOracle(packed: seq<u32>, scales: seq<real>, x: seq<real>, m: nat, k: nat, groupSize: nat, skipZeros: bool)
    returns (y: seq<real>)
    requires HostFits(packed, scales, m, k, groupSize) && k <= |x|
    ensures WeightsFit(packed, scales, m, k, groupSize) && y == Gemv(packed, scales, x, m, k, groupSize)
  {
    LayoutsAgree(packed, scales, m, k, groupSize);
    var out := new real[m](_ => 0.0);
    if k != 0 {
      for row := 0 to m
        invariant forall r :: 0 <= r < row ==> out[r] == GemvEntry(packed, scales, x, m, k, groupSize, r)
      {
        out[row] := OracleEntry(packed, scales, x, m, k, groupSize, skipZeros, row);
      }
    }
    y := out[..];
  }
}
