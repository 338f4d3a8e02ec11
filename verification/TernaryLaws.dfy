// The ternary products spelled out on the unpacked weights and the flat buffers
// (cu/ternary_gemm.cu:58-79, :113-142; src/bitpacking.rs:374-412, :425-466).

module TernaryLaws {
  import opened Words
  import opened Launch
  import opened Bitpacking
  import opened TernaryRow
  import opened TernaryMatmul
  import opened TernaryKernels

  // Adds or subtracts scale * x by the sign of the weight.
  function Signed(v: i8, scale: real, x: real): real {
    if v > 0 then scale * x else if v < 0 then -(scale * x) else 0.0
  }

  // The first n of a row of weights v against x, weight i scaled by scale i / groupSize of the row.
  function DenseSum(v: seq<i8>, s: seq<real>, groupSize: nat, x: seq<real>, n: nat): real
    requires groupSize > 0 && n <= |v| && n <= |x| && (n > 0 ==> (n - 1) / groupSize < |s|)
    decreases n
  {
    if n == 0 then 0.0
    else
      DivMonotone(n - 2, n - 1, groupSize);
      DenseSum(v, s, groupSize, x, n - 1) + Signed(v[n - 1], s[(n - 1) / groupSize], x[n - 1])
  }

  lemma TermIsSigned(v: i8, scale: real, x: real)
    ensures Term(Clamp(v), scale, x) == Signed(v, scale, x)
  {
    assert 1.0 * scale * x == scale * x && -1.0 * scale * x == -(scale * x) && 0.0 * scale * x == 0.0;
    assert Clamp(v) as real == if v > 0 then 1.0 else if v < 0 then -1.0 else 0.0;
  }

  lemma {:induction false} RowSumIsDense(v: seq<i8>, s: seq<real>, groupSize: nat, x: seq<real>, k: nat, n: nat)
    requires groupSize > 0 && n <= k == |v| && k <= |x| && GroupCount(k, groupSize) <= |s|
    ensures n > 0 ==> (n - 1) / groupSize < |s|
    ensures RowSum(ClampAll(v), ScaleRow(s, groupSize, k), x, n) == DenseSum(v, s, groupSize, x, n)
    decreases n
  {
    if n > 0 {
      RowSumIsDense(v, s, groupSize, x, k, n - 1);
      ScaleAt(s, groupSize, k, n - 1);
      TermIsSigned(v[n - 1], s[(n - 1) / groupSize], x[n - 1]);
    }
  }

  // The slices of row `row`.
  lemma RowSlices(values: seq<i8>, scales: seq<real>, m: nat, k: nat, groupSize: nat, row: nat, first: nat, scale: nat)
    requires groupSize > 0 && m * k <= |values| && m * GroupCount(k, groupSize) <= |scales| && row < m
    requires first == row * k && scale == row * CeilDiv(k, groupSize)
    ensures first + k <= |values| && scale + CeilDiv(k, groupSize) <= |scales|
    ensures k > 0 ==> (k - 1) / groupSize < CeilDiv(k, groupSize)
    ensures Row(values, row, k) == values[first..first + k]
    ensures WeightScales(scales, m, k, groupSize, row) == scales[scale..scale + CeilDiv(k, groupSize)]
  {
    GroupCountIsCeil(k, groupSize);
    RowInside(row, m, k);
    RowInside(row, m, CeilDiv(k, groupSize));
  }

  // Row `row` of the product: its weights start at `first`, its scales at `scale`.
  lemma GemvIsDense(values: seq<i8>, packed: seq<u32>, scales: seq<real>, x: seq<real>, m: nat, k: nat, groupSize: nat,
                    row: nat, first: nat, scale: nat)
    requires PacksMatrix(values, packed, m, k) && WeightsFit(packed, scales, m, k, groupSize) && k <= |x| && row < m
    requires first == row * k && scale == row * CeilDiv(k, groupSize)
    ensures first + k <= |values| && scale + CeilDiv(k, groupSize) <= |scales|
    ensures k > 0 ==> (k - 1) / groupSize < CeilDiv(k, groupSize)
    ensures Gemv(packed, scales, x, m, k, groupSize)[row]
         == DenseSum(values[first..first + k], scales[scale..scale + CeilDiv(k, groupSize)], groupSize, x, k)
  {
    RowSlices(values, scales, m, k, groupSize, row, first, scale);
    GroupCountIsCeil(k, groupSize);
    PackedGemvIsDense(values, packed, scales, x, m, k, groupSize, row);
    RowSumIsDense(values[first..first + k], scales[scale..scale + CeilDiv(k, groupSize)], groupSize, x, k, k);
  }

  // Column `col` of B holds entries col, n + col, 2n + col, ...
  lemma ColumnEntries(b: seq<real>, k: nat, n: nat, col: nat, i: nat)
    requires col < n && k * n <= |b| && i < k
    ensures 0 <= i * n + col < |b| && Column(b, k, n, col)[i] == b[i * n + col]
  {
    CellInside(k, n, i, col);
  }

  // Cell (row, col) of the matrix product.
  lemma GemmIsDense(values: seq<i8>, packed: seq<u32>, scales: seq<real>, b: seq<real>, m: nat, k: nat, n: nat, groupSize: nat,
                    row: nat, col: nat, first: nat, scale: nat)
    requires PacksMatrix(values, packed, m, k) && WeightsFit(packed, scales, m, k, groupSize) && k * n <= |b|
    requires row < m && col < n && first == row * k && scale == row * CeilDiv(k, groupSize)
    ensures row * n + col < m * n
    ensures first + k <= |values| && scale + CeilDiv(k, groupSize) <= |scales|
    ensures k > 0 ==> (k - 1) / groupSize < CeilDiv(k, groupSize)
    ensures Gemm(packed, scales, b, m, k, n, groupSize)[row * n + col]
         == DenseSum(values[first..first + k], scales[scale..scale + CeilDiv(k, groupSize)], groupSize, Column(b, k, n, col), k)
  {
    GemmColumnIsGemv(packed, scales, b, m, k, n, groupSize, row, col);
    GemvIsDense(values, packed, scales, Column(b, k, n, col), m, k, groupSize, row, first, scale);
  }
}
