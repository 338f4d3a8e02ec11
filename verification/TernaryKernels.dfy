// The ternary_gemv and ternary_gemm launches, and GEMM against the host code
// (cu/ternary_gemm.cu:37-142; src/bitpacking.rs:425-466; src/oracle.rs:320-361).

module TernaryKernels {
  import opened Words
  import opened Launch
  import opened Strided
  import opened Bitpacking
  import opened TernaryRow
  import opened TernaryMatmul

  // ---- GEMV ----

  // One thread of ternary_gemv: rows tid, tid + threads, ...
  method GemvThread(packed: seq<u32>, scales: seq<real>, x: seq<real>, y: array<real>, m: nat, k: nat,
                    groupSize: nat, skipZeros: bool, threads: nat, tid: nat)
    requires WeightsFit(packed, scales, m, k, groupSize) && k <= |x| && m <= y.Length
    requires 0 < m && tid < threads && m + threads <= TWO31
    modifies y
    ensures Written(old(y[..]), y[..], Gemv(packed, scales, x, m, k, groupSize), Visited(tid, threads, m))
  {
    ghost var before, target := y[..], Gemv(packed, scales, x, m, k, groupSize);
    VisitedStart(tid, threads, Min(tid, m));
    ThreadIdIsPlain(tid);
    var row: int := ThreadId(tid);
    while row < m
      invariant 0 <= row && row % threads == tid
      invariant Written(before, y[..], target, Visited(tid, threads, Min(row, m)))
      decreases m - row
    {
      VisitedStep(tid, threads, row, Min(row + threads, m));
      WrittenStep(before, y[..], target, Visited(tid, threads, row), row);
      y[row] := DeviceRow(WeightWords(packed, m, k, row), WeightScales(scales, m, k, groupSize, row), x, k, groupSize, skipZeros);
      NextIndexIsPlain(row, threads);
      row := NextIndex(row, threads);
    }
  }

  // The launch: every row gets its product, from exactly one thread, and nothing else is written.
  method GemvLaunch(packed: seq<u32>, scales: seq<real>, x: seq<real>, y: array<real>, m: int, k: int,
                    groupSize: int, skipZeros: bool, threads: nat, order: seq<nat>)
    requires m > 0 && k >= 0 && groupSize > 0 ==>
      WeightsFit(packed, scales, m, k, groupSize) && k <= |x| && m <= y.Length && m + threads <= TWO31
    requires 0 < threads && Schedule(order, threads)
    modifies y
    ensures m > 0 && k >= 0 && groupSize > 0 ==>
      y[..m] == Gemv(packed, scales, x, m, k, groupSize) && y[m..] == old(y[m..])
    ensures !(m > 0 && k >= 0 && groupSize > 0) ==> y[..] == old(y[..])
  {
    if m <= 0 || k < 0 || groupSize <= 0 {
      return;
    }
    ghost var target := Gemv(packed, scales, x, m, k, groupSize);
    for s := 0 to |order|
      invariant forall t: nat :: Ran(order, s, t) ==> ThreadStored(target, y[..], threads, t)
      invariant y[m..] == old(y[m..])
    {
      var t := order[s];
      RanStep(order, threads, s);
      ghost var before := y[..];
      GemvThread(packed, scales, x, y, m, k, groupSize, skipZeros, threads, t);
      ThreadStores(target, before, y[..], threads, t);
    }
    RanAll(order, threads);
    AllThreadsStored(target, y[..], threads);
  }

  // ---- GEMM ----

  // Column n of the row-major k x n matrix.
  function Column(b: seq<real>, k: nat, n: nat, col: nat): (x: seq<real>)
    requires col < n && k * n <= |b|
    ensures |x| == k
  {
    seq(k, i requires 0 <= i < k => CellInside(k, n, i, col); b[i * n + col])
  }

  function GemmEntry(packed: seq<u32>, scales: seq<real>, b: seq<real>, m: nat, k: nat, n: nat, groupSize: nat,
                     row: nat, col: nat): real
    requires groupSize > 0 && m * CeilDiv(k, 16) <= |packed| && m * GroupCount(k, groupSize) <= |scales|
    requires k * n <= |b| && row < m && col < n
  {
    GemvEntry(packed, scales, Column(b, k, n, col), m, k, groupSize, row)
  }

  function Gemm(packed: seq<u32>, scales: seq<real>, b: seq<real>, m: nat, k: nat, n: nat, groupSize: nat): (c: seq<real>)
    requires groupSize > 0 && m * CeilDiv(k, 16) <= |packed| && m * GroupCount(k, groupSize) <= |scales|
    requires k * n <= |b|
    ensures |c| == m * n
  {
    seq(m * n, t requires 0 <= t < m * n => CellOfThread(t, m, n);
      GemmEntry(packed, scales, b, m, k, n, groupSize, t / n, t % n))
  }

  // Column `col` of the product is the GEMV of column `col`.
  lemma GemmColumnIsGemv(packed: seq<u32>, scales: seq<real>, b: seq<real>, m: nat, k: nat, n: nat, groupSize: nat,
                         row: nat, col: nat)
    requires WeightsFit(packed, scales, m, k, groupSize) && k * n <= |b| && row < m && col < n
    ensures row * n + col < m * n
    ensures Gemm(packed, scales, b, m, k, n, groupSize)[row * n + col]
         == Gemv(packed, scales, Column(b, k, n, col), m, k, groupSize)[row]
  {
    ThreadOfCell(row, col, m, n);
  }

  // The loop of one output cell on the device: B is read with stride n.
  method DeviceCell(words: seq<u32>, s: seq<real>, b: seq<real>, k: nat, n: nat, groupSize: nat, skipZeros: bool, col: nat)
    returns (acc: real)
    requires groupSize > 0 && k <= 16 * |words| && GroupCount(k, groupSize) <= |s| && k * n <= |b| && col < n
    ensures acc == RowProduct(words, s, Column(b, k, n, col), k, groupSize)
  {
    ghost var trits, scales, x := Trits(words, k), ScaleRow(s, groupSize, k), Column(b, k, n, col);
    acc := 0.0;
    for i := 0 to k
      invariant acc == RowSum(trits, scales, x, i)
    {
      var w := DecodeTrit(Field(words[i / 16], i % 16));
      assert w == trits[i];
      if skipZeros && w == 0 {
        ZeroTerm(w, scales[i], x[i]);
        continue;
      }
      ScaleAt(s, groupSize, k, i);
      CellInside(k, n, i, col);
      acc := DeviceFma(w, s[i / groupSize], b[i * n + col], acc);
    }
  }

  // The launch over flattened output cells; threads past the last cell return at once.
  method GemmLaunch(packed: seq<u32>, scales: seq<real>, b: seq<real>, c: array<real>, m: int, k: int, n: int,
                    groupSize: int, skipZeros: bool, threads: nat, order: seq<nat>)
    requires m > 0 && k >= 0 && n > 0 && groupSize > 0 ==>
      WeightsFit(packed, scales, m, k, groupSize) && k * n <= |b| && m * n <= c.Length && m * n <= threads
    requires Schedule(order, threads)
    modifies c
    ensures m > 0 && k >= 0 && n > 0 && groupSize > 0 ==>
      && 0 <= m * n <= c.Length
      && c[..m * n] == Gemm(packed, scales, b, m, k, n, groupSize) && c[m * n..] == old(c[m * n..])
    ensures !(m > 0 && k >= 0 && n > 0 && groupSize > 0) ==> c[..] == old(c[..])
  {
    if m <= 0 || k < 0 || n <= 0 || groupSize <= 0 {
      return;
    }
    GemmCells(packed, scales, b, c, m, k, n, groupSize, skipZeros, threads, order, m * n);
  }

  method GemmCells(packed: seq<u32>, scales: seq<real>, b: seq<real>, c: array<real>, m: nat, k: nat, n: nat,
                   groupSize: nat, skipZeros: bool, threads: nat, order: seq<nat>, total: nat)
    requires WeightsFit(packed, scales, m, k, groupSize) && k * n <= |b|
    requires total == m * n <= c.Length && total <= threads && Schedule(order, threads)
    modifies c
    ensures c[..total] == Gemm(packed, scales, b, m, k, n, groupSize) && c[total..] == old(c[total..])
  {
    ghost var target := Gemm(packed, scales, b, m, k, n, groupSize);
    for s := 0 to |order|
      invariant forall t: nat :: t < total && Ran(order, s, t) ==> c[t] == target[t]
      invariant c[total..] == old(c[total..])
    {
      var t := order[s];
      RanStep(order, threads, s);
      if t < total {
        CellOfThread(t, m, n);
        var row, col := t / n, t % n;
        c[t] := DeviceCell(WeightWords(packed, m, k, row), WeightScales(scales, m, k, groupSize, row), b,
                           k, n, groupSize, skipZeros, col);
      }
    }
    RanAll(order, threads);
  }

  lemma GemmAt(packed: seq<u32>, scales: seq<real>, b: seq<real>, m: nat, k: nat, n: nat, groupSize: nat, row: nat,
               col: nat, start: nat)
    requires WeightsFit(packed, scales, m, k, groupSize) && k * n <= |b| && row < m && col < n
    requires start == RowStart(row, n)
    ensures start + col < m * n
    ensures Gemm(packed, scales, b, m, k, n, groupSize)[start + col]
         == GemmEntry(packed, scales, b, m, k, n, groupSize, row, col)
  {
    RowStartIsProduct(row, n);
    ThreadOfCell(row, col, m, n);
  }

  // Cells below `end` hold the target.
  ghost predicate Filled(c: seq<real>, target: seq<real>, end: nat) {
    |c| == |target| && end <= |c| && forall t: nat :: t < end ==> c[t] == target[t]
  }

  // Row `row` of the output, whose cells start at `start`, as ternary_gemm_ref computes it.
  method RefRow(packed: seq<u32>, scales: seq<real>, b: seq<real>, c: array<real>, m: nat, k: nat, n: nat,
                groupSize: nat, skipZeros: bool, row: nat, start: nat, ghost target: seq<real>)
    requires HostFits(packed, scales, m, k, groupSize) && WeightsFit(packed, scales, m, k, groupSize)
    requires k * n <= |b| && row < m && start == RowStart(row, n)
    requires target == Gemm(packed, scales, b, m, k, n, groupSize) && Filled(c[..], target, start)
    requires start + n <= |target|
    modifies c
    ensures Filled(c[..], target, start + n)
  {
    for col := 0 to n
      invariant Filled(c[..], target, start + col)
    {
      GemmAt(packed, scales, b, m, k, n, groupSize, row, col, start);
      c[start + col] := RefEntry(packed, scales, Column(b, k, n, col), m, k, groupSize, skipZeros, row);
    }
  }

  // The same row as ternary_gemm_oracle computes it.
  method OracleRowOfCells(packed: seq<u32>, scales: seq<real>, b: seq<real>, c: array<real>, m: nat, k: nat, n: nat,
                          groupSize: nat, skipZeros: bool, row: nat, start: nat, ghost target: seq<real>)
    requires HostFits(packed, scales, m, k, groupSize) && WeightsFit(packed, scales, m, k, groupSize)
    requires k * n <= |b| && row < m && start == RowStart(row, n)
    requires target == Gemm(packed, scales, b, m, k, n, groupSize) && Filled(c[..], target, start)
    requires start + n <= |target|
    modifies c
    ensures Filled(c[..], target, start + n)
  {
    for col := 0 to n
      invariant Filled(c[..], target, start + col)
    {
      GemmAt(packed, scales, b, m, k, n, groupSize, row, col, start);
      c[start + col] := OracleEntry(packed, scales, Column(b, k, n, col), m, k, groupSize, skipZeros, row);
    }
  }

  // ternary_gemm_ref
  method GemmRef(packed: seq<u32>, scales: seq<real>, b: seq<real>, m: nat, k: nat, n: nat, groupSize: nat,
                 skipZeros: bool) returns (c: array<real>)
    requires HostFits(packed, scales, m, k, groupSize) && k * n <= |b|
    ensures WeightsFit(packed, scales, m, k, groupSize) && c[..] == Gemm(packed, scales, b, m, k, n, groupSize)
  {
    LayoutsAgree(packed, scales, m, k, groupSize);
    ghost var target := Gemm(packed, scales, b, m, k, n, groupSize);
    RowStartIsProduct(m, n);
    c := new real[m * n](_ => 0.0);
    var start: nat := 0;
    for row := 0 to m
      invariant start == RowStart(row, n) && Filled(c[..], target, start)
    {
      NextRowStart(row, m, n);
      RefRow(packed, scales, b, c, m, k, n, groupSize, skipZeros, row, start, target);
      start := start + n;
    }
  }

  // An empty product is zero.
  lemma EmptyProduct(packed: seq<u32>, scales: seq<real>, b: seq<real>, m: nat, k: nat, n: nat, groupSize: nat)
    requires WeightsFit(packed, scales, m, k, groupSize) && k * n <= |b|
    requires k == 0 || m == 0 || n == 0
    ensures forall t :: 0 <= t < m * n ==> Gemm(packed, scales, b, m, k, n, groupSize)[t] == 0.0
  {
    assert m == 0 || n == 0 ==> m * n == 0;
  }

  // ternary_gemm_oracle
  method GemmOracle(packed: seq<u32>, scales: seq<real>, b: seq<real>, m: nat, k: nat, n: nat, groupSize: nat,
                    skipZeros: bool) returns (c: array<real>)
    requires HostFits(packed, scales, m, k, groupSize) && k * n <= |b|
    ensures WeightsFit(packed, scales, m, k, groupSize) && c[..] == Gemm(packed, scales, b, m, k, n, groupSize)
  {
    LayoutsAgree(packed, scales, m, k, groupSize);
    ghost var target := Gemm(packed, scales, b, m, k, n, groupSize);
    RowStartIsProduct(m, n);
    c := new real[m * n](_ => 0.0);
    if k == 0 || m == 0 || n == 0 {
      EmptyProduct(packed, scales, b, m, k, n, groupSize);
      return;
    }
    var start: nat := 0;
    for row := 0 to m
      invariant start == RowStart(row, n) && Filled(c[..], target, start)
    {
      NextRowStart(row, m, n);
      OracleRowOfCells(packed, scales, b, c, m, k, n, groupSize, skipZeros, row, start, target);
      start := start + n;
    }
  }

  // ---- the wrapper ----

  datatype GemmOutcome = Done | InvalidDimension | BufferTooSmall | GridTooLarge

  function GemmBlocks(m: nat, n: nat): nat {
    CeilDiv(m * n, 256)
  }

  // The grid covers every cell, and it is refused exactly beyond 256 * (2^32 - 1) cells.
  lemma GemmGridCovers(m: nat, n: nat)
    ensures m * n <= 256 * GemmBlocks(m, n) < m * n + 256
    ensures GemmBlocks(m, n) < TWO32 <==> m * n <= 256 * (TWO32 - 1)
  {
  }

  // What the wrapper accepts.
  ghost predicate GemmAccepted(packed: seq<u32>, scales: seq<real>, b: seq<real>, c: nat, m: i32, k: i32, n: i32, groupSize: i32) {
    && m >= 0 && k >= 0 && n >= 0 && groupSize > 0 && m * n <= c
    && (m > 0 && n > 0 && k > 0 ==>
          HostFits(packed, scales, m, k, groupSize) && k * n <= |b| && GemmBlocks(m, n) < TWO32)
  }

  lemma AcceptedFits(packed: seq<u32>, scales: seq<real>, b: seq<real>, c: nat, m: i32, k: i32, n: i32, groupSize: i32)
    requires GemmAccepted(packed, scales, b, c, m, k, n, groupSize)
    ensures m > 0 && n > 0 ==> WeightsFit(packed, scales, m, k, groupSize) && 0 <= k * n <= |b|
  {
    LayoutsAgree(packed, scales, m, k, groupSize);
  }

  // ternary_gemm: refused calls leave the output alone, accepted ones write the whole product.
  method TernaryGemm(packed: seq<u32>, scales: seq<real>, b: seq<real>, c: array<real>, m: i32, k: i32, n: i32,
                     groupSize: i32, skipZeros: bool, order: seq<nat>) returns (outcome: GemmOutcome)
    requires m >= 0 && n >= 0 ==> Schedule(order, 256 * GemmBlocks(m, n))
    modifies c
    ensures outcome == Done <==> GemmAccepted(packed, scales, b, c.Length, m, k, n, groupSize)
    ensures outcome != Done ==> c[..] == old(c[..])
    ensures outcome == Done && m > 0 && n > 0 ==>
      && WeightsFit(packed, scales, m, k, groupSize) && 0 <= k * n <= |b| && 0 <= m * n <= c.Length
      && c[..m * n] == Gemm(packed, scales, b, m, k, n, groupSize) && c[m * n..] == old(c[m * n..])
    ensures outcome == Done && !(m > 0 && n > 0) ==> c[..] == old(c[..])
  {
    if m < 0 || k < 0 || n < 0 || groupSize <= 0 {
      return InvalidDimension;
    }
    if c.Length < m * n {
      return BufferTooSmall;
    }
    if m == 0 || n == 0 {
      return Done;
    }
    if k == 0 {
      AcceptedFits(packed, scales, b, c.Length, m, k, n, groupSize);
      EmptyProduct(packed, scales, b, m, k, n, groupSize);
      ZeroPrefix(c, m * n);
      return Done;
    }
    if |packed| < m * CeilDiv(k, 16) || |scales| < m * CeilDiv(k, groupSize) || |b| < k * n {
      return BufferTooSmall;
    }
    GemmGridCovers(m, n);
    if GemmBlocks(m, n) >= TWO32 {
      return GridTooLarge;
    }
    AcceptedFits(packed, scales, b, c.Length, m, k, n, groupSize);
    GemmLaunch(packed, scales, b, c, m, k, n, groupSize, skipZeros, 256 * GemmBlocks(m, n), order);
    outcome := Done;
  }

  // zero_output_prefix
  method ZeroPrefix(c: array<real>, count: nat)
    requires count <= c.Length
    modifies c
    ensures c[..count] == seq(count, _ => 0.0) && c[count..] == old(c[count..])
  {
    forall i | 0 <= i < count {
      c[i] := 0.0;
    }
  }
}
