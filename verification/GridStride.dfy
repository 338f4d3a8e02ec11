// The 32-bit row index of the GEMV grid-stride loop (cu/ternary_gemm.cu:58-60):
//   for (int m = (int)(blockIdx.x * blockDim.x + threadIdx.x); m < M; m += (int)(gridDim.x * blockDim.x))
// The loop stays inside the matrix exactly when M plus the number of threads is at most 2^31.
// The block-stride loops of the other kernels have the same shape and so the same limit.

module GridStride {
  import opened Words

  // Row index of thread `tid` after n increments, with `threads` threads in the grid.
  function VisitedRow(tid: u32, threads: u32, n: nat): i32
    decreases n
  {
    if n == 0 then WrapI32(tid) else NextIndex(VisitedRow(tid, threads, n - 1), threads)
  }

  // The loop body of the thread is entered an n-th time (counting from 0).
  ghost predicate Enters(tid: u32, threads: u32, m: nat, n: nat)
    decreases n
  {
    VisitedRow(tid, threads, n) < m && (n > 0 ==> Enters(tid, threads, m, n - 1))
  }

  // Every iteration of every thread works on a row of the matrix.
  ghost predicate StrideIsSafe(m: nat, threads: u32) {
    forall tid: u32, n: nat :: tid < threads && Enters(tid, threads, m, n) ==> VisitedRow(tid, threads, n) >= 0
  }

  lemma {:induction false} RowsAscend(tid: u32, threads: u32, m: nat, n: nat)
    requires m + threads <= TWO31 && tid < threads && Enters(tid, threads, m, n)
    ensures VisitedRow(tid, threads, n) >= 0
    decreases n
  {
    if n > 0 {
      RowsAscend(tid, threads, m, n - 1);
      NextIndexIsPlain(VisitedRow(tid, threads, n - 1), threads);
    }
  }

  lemma StepWraps(row: i32, threads: u32)
    requires 0 <= row < TWO31 <= row + threads && threads <= TWO31
    ensures NextIndex(row, threads) < 0
  {
  }

  // Some thread arrives at any given row.
  lemma {:induction false} SomeThreadVisits(row: nat, threads: u32, m: nat) returns (tid: u32, n: nat)
    requires row < m <= INT_MAX && 0 < threads <= TWO31
    ensures tid < threads && VisitedRow(tid, threads, n) == row && Enters(tid, threads, m, n)
    decreases row
  {
    if row < threads {
      tid, n := row, 0;
    } else {
      tid, n := SomeThreadVisits(row - threads, threads, m);
      NextIndexIsPlain(row - threads, threads);
      n := n + 1;
    }
  }

  lemma StrideUnsafe(m: nat, threads: u32)
    requires 0 < m <= INT_MAX && 0 < threads && m + threads > TWO31
    ensures !StrideIsSafe(m, threads)
  {
    if threads > TWO31 {
      var tid: u32 := TWO31;
      assert Enters(tid, threads, m, 0) && VisitedRow(tid, threads, 0) < 0;
    } else {
      var tid, n := SomeThreadVisits(m - 1, threads, m);
      StepWraps(m - 1, threads);
      assert Enters(tid, threads, m, n + 1) && VisitedRow(tid, threads, n + 1) < 0;
    }
  }

  // The exact condition, which the host wrapper does not check.
  lemma StrideSafeExactly(m: nat, threads: u32)
    requires 0 < m <= INT_MAX && 0 < threads
    ensures StrideIsSafe(m, threads) <==> m + threads <= TWO31
  {
    if m + threads <= TWO31 {
      forall tid: u32, n: nat | tid < threads && Enters(tid, threads, m, n) ensures VisitedRow(tid, threads, n) >= 0 {
        RowsAscend(tid, threads, m, n);
      }
    } else {
      StrideUnsafe(m, threads);
    }
  }

  // Threads of the wrapper's launch: blocks of 256 covering the rows
  // (src/gpu/accelerator.rs:857-858).
  function WrapperThreads(m: nat): nat {
    CeilDiv(m, 256) * 256
  }

  // The wrapper's own grid is safe exactly up to 2^30 rows.
  lemma WrapperSafeExactly(m: nat)
    requires 0 < m <= INT_MAX
    ensures m <= WrapperThreads(m) <= TWO31
    ensures StrideIsSafe(m, WrapperThreads(m)) <==> m <= 0x4000_0000
  {
    StrideSafeExactly(m, WrapperThreads(m));
  }

  // A row count the wrapper accepts but for which the loop leaves the matrix.
  lemma WrapperFailsAbove()
    ensures !StrideIsSafe(0x4000_0001, WrapperThreads(0x4000_0001))
  {
    WrapperSafeExactly(0x4000_0001);
  }
}
