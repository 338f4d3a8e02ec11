// One output of the group-scaled ternary product: a packed weight row against a vector
// (cu/ternary_gemm.cu:60-79; src/bitpacking.rs:396-411; src/oracle.rs:252-313). Scales and
// activations are reals.

module TernaryRow {
  import opened Wrappers
  import opened Words
  import opened Bitpacking

  // k / group_size
  function Group(k: nat, groupSize: nat): nat
    requires groupSize > 0
  {
    k / groupSize
  }

  // ceil(K / group_size) as the device computes it.
  function GroupCount(k: nat, groupSize: nat): nat
    requires groupSize > 0
  {
    if k > 0 then 1 + (k - 1) / groupSize else 0
  }

  // k.div_ceil(group_size), as the host computes it.
  lemma GroupCountIsCeil(k: nat, groupSize: nat)
    requires groupSize > 0
    ensures GroupCount(k, groupSize) == CeilDiv(k, groupSize)
  {
    if k > 0 {
      ResidueStep(k - 1, groupSize);
    } else {
      SmallResidue(groupSize - 1, groupSize);
    }
  }

  lemma GroupInside(i: nat, k: nat, groupSize: nat)
    requires groupSize > 0 && i < k
    ensures Group(i, groupSize) < GroupCount(k, groupSize)
  {
    DivMonotone(i, k - 1, groupSize);
  }

  // The scale that applies at each index of a row.
  function ScaleRow(s: seq<real>, groupSize: nat, k: nat): (scales: seq<real>)
    requires groupSize > 0 && GroupCount(k, groupSize) <= |s|
    ensures |scales| == k
  {
    seq(k, i requires 0 <= i < k => GroupInside(i, k, groupSize); s[Group(i, groupSize)])
  }

  lemma ScaleAt(s: seq<real>, groupSize: nat, k: nat, i: nat)
    requires groupSize > 0 && GroupCount(k, groupSize) <= |s| && i < k
    ensures i / groupSize < |s| && ScaleRow(s, groupSize, k)[i] == s[i / groupSize]
  {
    GroupInside(i, k, groupSize);
  }

  // w * s * x
  function Term(w: i8, s: real, x: real): real {
    w as real * s * x
  }

  // acc = fmaf(s * (float)w, x, acc)
  method DeviceFma(w: i8, s: real, x: real, acc: real) returns (r: real)
    requires -1 <= w <= 1
    ensures r == acc + Term(w, s, x)
  {
    r := s * w as real * x + acc;
    assert s * w as real == w as real * s;
  }

  lemma ZeroTerm(w: i8, s: real, x: real)
    requires w == 0
    ensures Term(w, s, x) == 0.0
  {
    assert w as real == 0.0;
  }

  // Sum of the first n terms of a row.
  function RowSum(w: seq<i8>, scales: seq<real>, x: seq<real>, n: nat): real
    requires n <= |w| && n <= |x| && n <= |scales|
    decreases n
  {
    if n == 0 then 0.0 else RowSum(w, scales, x, n - 1) + Term(w[n - 1], scales[n - 1], x[n - 1])
  }

  // The trits of a packed row.
  function Trits(words: seq<u32>, k: nat): (w: seq<i8>)
    requires k <= 16 * |words|
    ensures |w| == k && forall i :: 0 <= i < k ==> -1 <= w[i] <= 1
  {
    seq(k, i requires 0 <= i < k => DecodeTrit(FieldAt(words, i)))
  }

  ghost predicate RowFits(words: seq<u32>, s: seq<real>, x: seq<real>, k: nat, groupSize: nat) {
    groupSize > 0 && k <= 16 * |words| && k <= |x| && GroupCount(k, groupSize) <= |s|
  }

  // What a row contributes to the output.
  function RowProduct(words: seq<u32>, s: seq<real>, x: seq<real>, k: nat, groupSize: nat): real
    requires groupSize > 0 && k <= 16 * |words| && k <= |x| && GroupCount(k, groupSize) <= |s|
  {
    RowSum(Trits(words, k), ScaleRow(s, groupSize, k), x, k)
  }

  // The device loop over one row.
  method DeviceRow(words: seq<u32>, s: seq<real>, x: seq<real>, k: nat, groupSize: nat, skipZeros: bool) returns (acc: real)
    requires RowFits(words, s, x, k, groupSize)
    ensures acc == RowProduct(words, s, x, k, groupSize)
  {
    ghost var trits, scales := Trits(words, k), ScaleRow(s, groupSize, k);
    acc := 0.0;
    for i := 0 to k
      invariant acc == RowSum(trits, scales, x, i)
    {
      var w := DecodeTrit(Field(words[i / 16], i % 16));
      assert w == trits[i];
      if skipZeros && w == 0 {
        ZeroTerm(w, scales[i], x[i]);
        continue;
      }
      ScaleAt(s, groupSize, k, i);
      acc := DeviceFma(w, s[i / groupSize], x[i], acc);
    }
  }

  // The host loop over unpacked trits: acc += (w as f32) * s * x[kk].
  method HostRow(words: seq<u32>, s: seq<real>, x: seq<real>, k: nat, groupSize: nat, skipZeros: bool) returns (acc: real)
    requires RowFits(words, s, x, k, groupSize)
    ensures acc == RowProduct(words, s, x, k, groupSize)
  {
    var trits := UnpackTernary(words, Some(k));
    assert trits == Trits(words, k);
    ghost var scales := ScaleRow(s, groupSize, k);
    acc := 0.0;
    for i := 0 to k
      invariant acc == RowSum(trits, scales, x, i)
    {
      var w := trits[i];
      if skipZeros && w == 0 {
        ZeroTerm(w, scales[i], x[i]);
        continue;
      }
      ScaleAt(s, groupSize, k, i);
      acc := acc + Term(w, s[i / groupSize], x[i]);
    }
  }

  function ClampAll(values: seq<i8>): (w: seq<i8>)
    ensures |w| == |values|
  {
    seq(|values|, i requires 0 <= i < |values| => Clamp(values[i]))
  }

  // A packed row contributes the dense sum over the clamped values it packs.
  lemma PackedRowIsDense(values: seq<i8>, words: seq<u32>, s: seq<real>, x: seq<real>, groupSize: nat)
    requires Packs(values, words) && RowFits(words, s, x, |values|, groupSize)
    ensures RowProduct(words, s, x, |values|, groupSize)
         == RowSum(ClampAll(values), ScaleRow(s, groupSize, |values|), x, |values|)
  {
    forall i | 0 <= i < |values| ensures Trits(words, |values|)[i] == ClampAll(values)[i] {
      PackedRoundTrip(values, words, i);
    }
    assert Trits(words, |values|) == ClampAll(values);
  }
}
