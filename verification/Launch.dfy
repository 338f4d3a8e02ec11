// A kernel launch runs every thread of the grid once, in an order the program does not
// control. Launch methods therefore take an arbitrary schedule, and their contracts do
// not mention it.

module Launch {
  import opened Words

  // `order` lists each of the `n` global thread indices exactly once.
  ghost predicate Schedule(order: seq<nat>, n: nat) {
    && (forall i, j :: 0 <= i < j < |order| ==> order[i] != order[j])
    && (forall i :: 0 <= i < |order| ==> order[i] < n)
    && (forall t: nat :: t < n ==> t in order)
  }

  // Threads that ran in the first `i` steps.
  ghost predicate Ran(order: seq<nat>, i: nat, t: nat)
    requires i <= |order|
  {
    t in order[..i]
  }

  lemma RanStep(order: seq<nat>, n: nat, i: nat)
    requires Schedule(order, n) && i < |order|
    ensures !Ran(order, i, order[i])
    ensures forall t: nat :: Ran(order, i + 1, t) <==> Ran(order, i, t) || t == order[i]
  {
    assert order[..i + 1] == order[..i] + [order[i]];
  }

  lemma RanAll(order: seq<nat>, n: nat)
    requires Schedule(order, n)
    ensures forall t: nat :: t < n ==> Ran(order, |order|, t)
  {
    assert order[..|order|] == order;
  }

  // ---- thread indices ----

  // int tid = blockIdx.x * blockDim.x + threadIdx.x, for the t-th thread of the grid: the unsigned
  // sum wraps and is then read as a signed word.
  function ThreadId(t: nat): i32 {
    WrapI32(t)
  }

  // A grid of such threads that covers n items and gives every thread its own index.
  ghost predicate IntGrid(order: seq<nat>, threads: nat, n: nat) {
    n <= threads <= TWO31 && Schedule(order, threads)
  }

  lemma ThreadIdIsPlain(t: nat)
    requires t < TWO31
    ensures ThreadId(t) == t
  {
  }

  // No thread that passes the guard `tid < n` has a negative index.
  ghost predicate IdsAreSafe(threads: nat, n: nat) {
    forall t: nat :: t < threads && ThreadId(t) < n ==> ThreadId(t) >= 0
  }

  // The exact limit on such grids, which the kernels do not check.
  lemma IdsSafeExactly(threads: nat, n: nat)
    ensures IdsAreSafe(threads, n) <==> threads <= TWO31
  {
    if threads > TWO31 {
      assert ThreadId(TWO31) < 0;
    }
  }

  // The wrappers' grids, ceil(n / 256) blocks of 256, cover n and stay within the limit.
  lemma WrapperGridFits(n: nat)
    requires n <= INT_MAX
    ensures n <= 256 * CeilDiv(n, 256) <= TWO31 && IdsAreSafe(256 * CeilDiv(n, 256), n)
  {
    IdsSafeExactly(256 * CeilDiv(n, 256), n);
  }

  // ---- row-major buffers ----

  // row * width, counted up row by row.
  function RowStart(row: nat, width: nat): (start: nat)
    decreases row
  {
    if row == 0 then 0 else RowStart(row - 1, width) + width
  }

  lemma {:induction false} RowStartIsProduct(row: nat, width: nat)
    ensures RowStart(row, width) == row * width
    decreases row
  {
    if row > 0 {
      RowStartIsProduct(row - 1, width);
    }
  }

  lemma {:induction false} RowStartMonotone(row: nat, rows: nat, width: nat)
    requires row <= rows
    ensures RowStart(row, width) <= RowStart(rows, width)
    decreases rows
  {
    if row < rows {
      RowStartMonotone(row, rows - 1, width);
    }
  }

  lemma NextRowStart(row: nat, rows: nat, width: nat)
    requires row < rows
    ensures RowStart(row, width) + width == RowStart(row + 1, width) <= RowStart(rows, width)
  {
    RowStartMonotone(row + 1, rows, width);
  }

  function Row<T>(buffer: seq<T>, row: nat, width: nat): (cells: seq<T>)
    requires 0 <= row * width <= row * width + width <= |buffer|
    ensures |cells| == width
  {
    buffer[row * width..row * width + width]
  }

  lemma RowInside(row: nat, rows: nat, width: nat)
    requires row < rows
    ensures 0 <= row * width <= row * width + width <= rows * width
  {
    assert rows * width == row * width + width + (rows - row - 1) * width;
  }

  ghost predicate OnlyRowChanged<T>(before: seq<T>, after: seq<T>, row: nat, width: nat) {
    && |before| == |after|
    && forall i :: 0 <= i < |before| && !(row * width <= i < row * width + width) ==> after[i] == before[i]
  }

  // A thread that changes one row only leaves the others as they were.
  lemma OtherRowKept<T>(before: seq<T>, after: seq<T>, changed: nat, other: nat, width: nat)
    requires OnlyRowChanged(before, after, changed, width)
    requires changed != other && 0 <= other * width <= other * width + width <= |before|
    ensures Row(after, other, width) == Row(before, other, width)
  {
    if changed < other {
      RowInside(changed, other, width);
    } else {
      RowInside(other, changed, width);
    }
  }

  lemma SlicesKept<T>(before: seq<T>, after: seq<T>, row: nat, width: nat, start: nat)
    requires |before| == |after| && start == row * width && start + width <= |before|
    requires after[..start] == before[..start] && after[start + width..] == before[start + width..]
    ensures OnlyRowChanged(before, after, row, width)
  {
    forall i | 0 <= i < |before| && !(start <= i < start + width) ensures after[i] == before[i] {
      if i < start {
        assert after[i] == after[..start][i];
      } else {
        assert after[i] == after[start + width..][i - start - width];
        assert before[i] == before[start + width..][i - start - width];
      }
    }
  }

  ghost predicate KeptBeyond<T>(before: seq<T>, after: seq<T>, n: nat) {
    |before| == |after| && forall i: nat :: n <= i < |before| ==> after[i] == before[i]
  }

  // Beyond the rows nothing changes either.
  lemma BeyondKept<T>(before: seq<T>, after: seq<T>, row: nat, rows: nat, width: nat, n: nat)
    requires OnlyRowChanged(before, after, row, width) && row < rows && n == rows * width
    ensures KeptBeyond(before, after, n)
  {
    RowInside(row, rows, width);
  }

  // ---- flattened two-dimensional grids ----

  lemma CellInside(rows: nat, width: nat, row: nat, col: nat)
    requires row < rows && col < width
    ensures 0 <= row * width + col < rows * width
  {
    RowInside(row, rows, width);
  }

  // The cell of flattened thread t.
  lemma CellOfThread(t: nat, m: nat, n: nat)
    requires t < m * n
    ensures n > 0 && 0 <= t / n < m && 0 <= t % n < n && t / n * n + t % n == t
  {
    assert n == 0 ==> m * n == 0;
    var q := t / n;
    assert t == q * n + t % n;
    assert q >= m ==> q * n >= m * n;
  }

  // Thread ids and cells correspond one to one.
  lemma ThreadOfCell(row: nat, col: nat, m: nat, n: nat)
    requires row < m && col < n
    ensures row * n + col < m * n && (row * n + col) / n == row && (row * n + col) % n == col
  {
    CellInside(m, n, row, col);
    DivModUnique(row * n + col, n, row, col);
  }
}
