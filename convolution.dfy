/** Strided 2-D correlation (`Convolve` and `ConvolveOneUnit` of ImageUtils).
    Destination cell (y, x) is the weighted sum of the kernel-sized window of
    the source whose top-left cell is (y, x); the source is the destination
    grown by `kernelWidth - 1` columns and `kernelHeight - 1` rows. Only the
    destination cells on the lattice `(startX + i * strideX,
    startY + j * strideY)` are written.

    Samples reach the accumulator through `widen` (the exact conversion of the
    element type to the `double` accumulator); the accumulator is a real. */
module Convolution {
  import opened Grid
  import opened BorderTypes
  import opened Border

  /** Rows `y .. y + m` of `src` exist and reach column `x + kw`. */
  predicate Covers<T>(src: seq<seq<T>>, kw: nat, y: nat, x: nat, m: nat) {
    y + m <= |src| && forall r :: y <= r < y + m ==> x + kw <= |src[r]|
  }

  /** The first `n` products of kernel row `ky` with the source row `y + ky`,
      starting at column `x`. */
  function RowDot<T>(src: seq<seq<T>>, widen: T -> real, kernel: seq<seq<real>>, y: nat, x: nat, ky: nat, n: nat): real
    requires ky < |kernel| && n <= |kernel[ky]| && y + ky < |src| && x + n <= |src[y + ky]|
  {
    if n == 0 then 0.0
    else RowDot(src, widen, kernel, y, x, ky, n - 1) + kernel[ky][n - 1] * widen(src[y + ky][x + n - 1])
  }

  /** The first `m` kernel rows of the window at (y, x). */
  function WindowSum<T>(src: seq<seq<T>>, widen: T -> real, kernel: seq<seq<real>>, kw: nat, y: nat, x: nat, m: nat): real
    requires m <= |kernel| && (forall ky :: 0 <= ky < |kernel| ==> |kernel[ky]| == kw)
    requires Covers(src, kw, y, x, m)
  {
    if m == 0 then 0.0
    else WindowSum(src, widen, kernel, kw, y, x, m - 1) + RowDot(src, widen, kernel, y, x, m - 1, kw)
  }

  /** The correlation of `kernel` with the window of `src` at (y, x). */
  function Window<T>(src: seq<seq<T>>, widen: T -> real, kernel: seq<seq<real>>, kw: nat, kh: nat, y: nat, x: nat): real
    requires IsImage(kernel, kw, kh) && Covers(src, kw, y, x, kh)
  {
    WindowSum(src, widen, kernel, kw, y, x, kh)
  }

  // ---------------------------------------------------------------------
  // Properties of the correlation.
  // ---------------------------------------------------------------------

  /** A kernel row of zeros contributes nothing. */
  lemma {:induction false} RowDotZero<T>(src: seq<seq<T>>, widen: T -> real, kernel: seq<seq<real>>, y: nat, x: nat, ky: nat, n: nat)
    requires ky < |kernel| && n <= |kernel[ky]| && y + ky < |src| && x + n <= |src[y + ky]|
    requires forall kx :: 0 <= kx < n ==> kernel[ky][kx] == 0.0
    ensures RowDot(src, widen, kernel, y, x, ky, n) == 0.0
  {
    if n > 0 {
      RowDotZero(src, widen, kernel, y, x, ky, n - 1);
    }
  }

  /** A kernel row that is zero except for a one at column `c` picks out the
      sample at column `x + c`. */
  lemma {:induction false} RowDotPick<T>(src: seq<seq<T>>, widen: T -> real, kernel: seq<seq<real>>, y: nat, x: nat, ky: nat, n: nat, c: nat)
    requires ky < |kernel| && n <= |kernel[ky]| && y + ky < |src| && x + n <= |src[y + ky]| && c < n
    requires forall kx :: 0 <= kx < n ==> kernel[ky][kx] == if kx == c then 1.0 else 0.0
    ensures RowDot(src, widen, kernel, y, x, ky, n) == widen(src[y + ky][x + c])
  {
    if n - 1 == c {
      RowDotZero(src, widen, kernel, y, x, ky, n - 1);
    } else {
      RowDotPick(src, widen, kernel, y, x, ky, n - 1, c);
    }
  }

  /** The rows of a kernel that are all zero except row `r` contribute
      nothing. */
  lemma {:induction false} WindowSumOneRow<T>(src: seq<seq<T>>, widen: T -> real, kernel: seq<seq<real>>, kw: nat, y: nat, x: nat, m: nat, r: nat)
    requires m <= |kernel| && (forall ky :: 0 <= ky < |kernel| ==> |kernel[ky]| == kw)
    requires Covers(src, kw, y, x, m)
    requires forall ky, kx :: 0 <= ky < m && ky != r && 0 <= kx < kw ==> kernel[ky][kx] == 0.0
    ensures WindowSum(src, widen, kernel, kw, y, x, m) ==
      if r < m then RowDot(src, widen, kernel, y, x, r, kw) else 0.0
  {
    if m > 0 {
      WindowSumOneRow(src, widen, kernel, kw, y, x, m - 1, r);
      if m - 1 != r {
        RowDotZero(src, widen, kernel, y, x, m - 1, kw);
      }
    }
  }

  /** The unit impulse at (cy, cx): the kernel that copies one sample. */
  function Impulse(kw: nat, kh: nat, cx: nat, cy: nat): (k: seq<seq<real>>)
    ensures IsImage(k, kw, kh)
  {
    seq(kh, ky requires 0 <= ky < kh => seq(kw, kx requires 0 <= kx < kw => if ky == cy && kx == cx then 1.0 else 0.0))
  }

  /** Correlating with the impulse at (cy, cx) shifts the source by that
      offset: the window at (y, x) is the sample at (y + cy, x + cx). */
  lemma WindowImpulse<T>(src: seq<seq<T>>, widen: T -> real, kw: nat, kh: nat, cx: nat, cy: nat, y: nat, x: nat)
    requires cx < kw && cy < kh && Covers(src, kw, y, x, kh)
    ensures Window(src, widen, Impulse(kw, kh, cx, cy), kw, kh, y, x) == widen(src[y + cy][x + cx])
  {
    var k := Impulse(kw, kh, cx, cy);
    WindowSumOneRow(src, widen, k, kw, y, x, kh, cy);
    RowDotPick(src, widen, k, y, x, cy, kw, cx);
  }

  /** The cell-wise sum of two kernels of the same shape. */
  function KernelSum(k1: seq<seq<real>>, k2: seq<seq<real>>, kw: nat, kh: nat): (k: seq<seq<real>>)
    requires IsImage(k1, kw, kh) && IsImage(k2, kw, kh)
    ensures IsImage(k, kw, kh)
  {
    seq(kh, ky requires 0 <= ky < kh => seq(kw, kx requires 0 <= kx < kw => k1[ky][kx] + k2[ky][kx]))
  }

  lemma {:induction false} RowDotLinear<T>(src: seq<seq<T>>, widen: T -> real, k1: seq<seq<real>>, k2: seq<seq<real>>,
                                           kw: nat, kh: nat, y: nat, x: nat, ky: nat, n: nat)
    requires IsImage(k1, kw, kh) && IsImage(k2, kw, kh) && ky < kh && n <= kw
    requires y + ky < |src| && x + n <= |src[y + ky]|
    ensures RowDot(src, widen, KernelSum(k1, k2, kw, kh), y, x, ky, n) ==
      RowDot(src, widen, k1, y, x, ky, n) + RowDot(src, widen, k2, y, x, ky, n)
  {
    if n > 0 {
      RowDotLinear(src, widen, k1, k2, kw, kh, y, x, ky, n - 1);
    }
  }

  lemma {:induction false} WindowSumLinear<T>(src: seq<seq<T>>, widen: T -> real, k1: seq<seq<real>>, k2: seq<seq<real>>,
                                              kw: nat, kh: nat, y: nat, x: nat, m: nat)
    requires IsImage(k1, kw, kh) && IsImage(k2, kw, kh) && m <= kh
    requires Covers(src, kw, y, x, m)
    ensures WindowSum(src, widen, KernelSum(k1, k2, kw, kh), kw, y, x, m) ==
      WindowSum(src, widen, k1, kw, y, x, m) + WindowSum(src, widen, k2, kw, y, x, m)
  {
    if m > 0 {
      WindowSumLinear(src, widen, k1, k2, kw, kh, y, x, m - 1);
      RowDotLinear(src, widen, k1, k2, kw, kh, y, x, m - 1, kw);
    }
  }

  /** Correlation is linear in the kernel. */
  lemma WindowLinear<T>(src: seq<seq<T>>, widen: T -> real, k1: seq<seq<real>>, k2: seq<seq<real>>,
                        kw: nat, kh: nat, y: nat, x: nat)
    requires IsImage(k1, kw, kh) && IsImage(k2, kw, kh)
    requires Covers(src, kw, y, x, kh)
    ensures Window(src, widen, KernelSum(k1, k2, kw, kh), kw, kh, y, x) ==
      Window(src, widen, k1, kw, kh, y, x) + Window(src, widen, k2, kw, kh, y, x)
  {
    WindowSumLinear(src, widen, k1, k2, kw, kh, y, x, kh);
  }

  /** The sum of the first `n` weights of kernel row `ky`. */
  function RowWeight(kernel: seq<seq<real>>, ky: nat, n: nat): real
    requires ky < |kernel| && n <= |kernel[ky]|
  {
    if n == 0 then 0.0 else RowWeight(kernel, ky, n - 1) + kernel[ky][n - 1]
  }

  /** The sum of the weights of the first `m` kernel rows. */
  function TotalWeight(kernel: seq<seq<real>>, kw: nat, m: nat): real
    requires m <= |kernel| && (forall ky :: 0 <= ky < |kernel| ==> |kernel[ky]| == kw)
  {
    if m == 0 then 0.0 else TotalWeight(kernel, kw, m - 1) + RowWeight(kernel, m - 1, kw)
  }

  lemma {:induction false} RowDotFlat<T>(src: seq<seq<T>>, widen: T -> real, kernel: seq<seq<real>>, y: nat, x: nat, ky: nat, n: nat,
                                         row: seq<T>, v: real)
    requires ky < |kernel| && n <= |kernel[ky]| && y + ky < |src| && x + n <= |src[y + ky]| && row == src[y + ky]
    requires forall col :: x <= col < x + n ==> widen(row[col]) == v
    ensures RowDot(src, widen, kernel, y, x, ky, n) == v * RowWeight(kernel, ky, n)
  {
    if n > 0 {
      RowDotFlat(src, widen, kernel, y, x, ky, n - 1, row, v);
      assert widen(row[x + n - 1]) == v;
    }
  }

  lemma {:induction false} WindowSumFlat<T>(src: seq<seq<T>>, widen: T -> real, kernel: seq<seq<real>>, kw: nat, y: nat, x: nat, m: nat, v: real)
    requires m <= |kernel| && (forall ky :: 0 <= ky < |kernel| ==> |kernel[ky]| == kw)
    requires Covers(src, kw, y, x, m)
    requires forall r, col :: y <= r < y + m && x <= col < x + kw ==> widen(src[r][col]) == v
    ensures WindowSum(src, widen, kernel, kw, y, x, m) == v * TotalWeight(kernel, kw, m)
  {
    if m > 0 {
      WindowSumFlat(src, widen, kernel, kw, y, x, m - 1, v);
      RowDotFlat(src, widen, kernel, y, x, m - 1, kw, src[y + m - 1], v);
    }
  }

  /** Over a window whose samples are all `v`, the correlation is `v` times
      the kernel's total weight; a kernel whose weights sum to one leaves a
      flat region unchanged. */
  lemma WindowFlat<T>(src: seq<seq<T>>, widen: T -> real, kernel: seq<seq<real>>, kw: nat, kh: nat, y: nat, x: nat, v: real)
    requires IsImage(kernel, kw, kh) && Covers(src, kw, y, x, kh)
    requires forall r, col :: y <= r < y + kh && x <= col < x + kw ==> widen(src[r][col]) == v
    ensures Window(src, widen, kernel, kw, kh, y, x) == v * TotalWeight(kernel, kw, kh)
  {
    WindowSumFlat(src, widen, kernel, kw, y, x, kh, v);
  }

  /** The weights among the first `n` of kernel row `ky` whose column has
      parity `px`. */
  function RowPhaseWeight(kernel: seq<seq<real>>, ky: nat, n: nat, px: nat): real
    requires ky < |kernel| && n <= |kernel[ky]|
  {
    if n == 0 then 0.0
    else RowPhaseWeight(kernel, ky, n - 1, px) + (if (n - 1) % 2 == px then kernel[ky][n - 1] else 0.0)
  }

  /** One of four values, by column parity `px` and row parity `py`:
      `q.0` at (0, 0), `q.1` at (1, 0), `q.2` at (0, 1), `q.3` at (1, 1). */
  function PhaseValue(q: (real, real, real, real), px: nat, py: nat): real {
    if py == 0 then (if px == 0 then q.0 else q.1) else (if px == 0 then q.2 else q.3)
  }

  /** Kernel row `ky`, first `n` weights, over a row of period 2 with row
      parity `py`: the even-column weights fall on one phase value and the
      odd-column weights on the other. */
  function PhaseRow(q: (real, real, real, real), kernel: seq<seq<real>>, ky: nat, n: nat, py: nat): real
    requires ky < |kernel| && n <= |kernel[ky]|
  {
    PhaseValue(q, 0, py) * RowPhaseWeight(kernel, ky, n, 0) + PhaseValue(q, 1, py) * RowPhaseWeight(kernel, ky, n, 1)
  }

  lemma {:induction false} RowDotPeriodic<T>(src: seq<seq<T>>, widen: T -> real, kernel: seq<seq<real>>, y: nat, x: nat, ky: nat, n: nat,
                                             r: nat, q: (real, real, real, real), py: nat)
    requires ky < |kernel| && n <= |kernel[ky]| && r == y + ky && r < |src| && x + n <= |src[r]|
    requires forall col :: x <= col < x + n ==> widen(src[r][col]) == PhaseValue(q, (col - x) % 2, py)
    ensures RowDot(src, widen, kernel, y, x, ky, n) == PhaseRow(q, kernel, ky, n, py)
  {
    if n > 0 {
      RowDotPeriodic(src, widen, kernel, y, x, ky, n - 1, r, q, py);
      assert widen(src[r][x + n - 1]) == PhaseValue(q, (n - 1) % 2, py);
    }
  }

  /** Four phase values weighed by the first `m` kernel rows: each row puts
      its weights on even and on odd columns on the two values of its row
      parity. */
  function PhaseSum(q: (real, real, real, real), kernel: seq<seq<real>>, kw: nat, m: nat): real
    requires m <= |kernel| && (forall ky :: 0 <= ky < |kernel| ==> |kernel[ky]| == kw)
  {
    if m == 0 then 0.0
    else
      PhaseSum(q, kernel, kw, m - 1) + PhaseRow(q, kernel, m - 1, kw, (m - 1) % 2)
  }

  lemma {:induction false} WindowSumPeriodic<T>(src: seq<seq<T>>, widen: T -> real, kernel: seq<seq<real>>, kw: nat, y: nat, x: nat, m: nat,
                                                q: (real, real, real, real))
    requires m <= |kernel| && (forall ky :: 0 <= ky < |kernel| ==> |kernel[ky]| == kw)
    requires Covers(src, kw, y, x, m)
    requires forall r, col :: y <= r < y + m && x <= col < x + kw ==> widen(src[r][col]) == PhaseValue(q, (col - x) % 2, (r - y) % 2)
    ensures WindowSum(src, widen, kernel, kw, y, x, m) == PhaseSum(q, kernel, kw, m)
  {
    if m > 0 {
      WindowSumPeriodic(src, widen, kernel, kw, y, x, m - 1, q);
      RowDotPeriodic(src, widen, kernel, y, x, m - 1, kw, y + m - 1, q, (m - 1) % 2);
    }
  }

  /** Over a window whose samples repeat with period 2 both ways, the
      correlation is each of the four phase values times the kernel's weight
      on that phase. */
  lemma WindowPeriodic<T>(src: seq<seq<T>>, widen: T -> real, kernel: seq<seq<real>>, kw: nat, kh: nat, y: nat, x: nat,
                          q: (real, real, real, real))
    requires IsImage(kernel, kw, kh) && Covers(src, kw, y, x, kh)
    requires forall r, col :: y <= r < y + kh && x <= col < x + kw ==> widen(src[r][col]) == PhaseValue(q, (col - x) % 2, (r - y) % 2)
    ensures Window(src, widen, kernel, kw, kh, y, x) == PhaseSum(q, kernel, kw, kh)
  {
    WindowSumPeriodic(src, widen, kernel, kw, y, x, kh, q);
  }

  /** The phase sum of a 3 x 3 kernel, written out. */
  lemma PhaseSumOfThree(q: (real, real, real, real), kernel: seq<seq<real>>)
    requires IsImage(kernel, 3, 3)
    ensures PhaseSum(q, kernel, 3, 3) ==
      q.0 * (kernel[0][0] + kernel[0][2]) + q.1 * kernel[0][1] +
      q.2 * (kernel[1][0] + kernel[1][2]) + q.3 * kernel[1][1] +
      q.0 * (kernel[2][0] + kernel[2][2]) + q.1 * kernel[2][1]
  {
    forall ky, px | 0 <= ky < 3 && 0 <= px < 2
      ensures RowPhaseWeight(kernel, ky, 3, px) == if px == 0 then kernel[ky][0] + kernel[ky][2] else kernel[ky][1]
    {
      assert RowPhaseWeight(kernel, ky, 1, px) == if px == 0 then kernel[ky][0] else 0.0;
    }
    assert PhaseSum(q, kernel, 3, 1) == q.0 * RowPhaseWeight(kernel, 0, 3, 0) + q.1 * RowPhaseWeight(kernel, 0, 3, 1);
  }

  /** The phase sum of a 5 x 5 kernel, row by row. */
  lemma PhaseSumOfFive(q: (real, real, real, real), kernel: seq<seq<real>>)
    requires IsImage(kernel, 5, 5)
    ensures PhaseSum(q, kernel, 5, 5) ==
      q.0 * (kernel[0][0] + kernel[0][2] + kernel[0][4]) + q.1 * (kernel[0][1] + kernel[0][3]) +
      q.2 * (kernel[1][0] + kernel[1][2] + kernel[1][4]) + q.3 * (kernel[1][1] + kernel[1][3]) +
      q.0 * (kernel[2][0] + kernel[2][2] + kernel[2][4]) + q.1 * (kernel[2][1] + kernel[2][3]) +
      q.2 * (kernel[3][0] + kernel[3][2] + kernel[3][4]) + q.3 * (kernel[3][1] + kernel[3][3]) +
      q.0 * (kernel[4][0] + kernel[4][2] + kernel[4][4]) + q.1 * (kernel[4][1] + kernel[4][3])
  {
    forall ky, px | 0 <= ky < 5 && 0 <= px < 2
      ensures RowPhaseWeight(kernel, ky, 5, px) ==
        if px == 0 then kernel[ky][0] + kernel[ky][2] + kernel[ky][4] else kernel[ky][1] + kernel[ky][3]
    {
      assert RowPhaseWeight(kernel, ky, 1, px) == if px == 0 then kernel[ky][0] else 0.0;
      assert RowPhaseWeight(kernel, ky, 3, px) == if px == 0 then kernel[ky][0] + kernel[ky][2] else kernel[ky][1];
    }
    assert PhaseSum(q, kernel, 5, 1) == q.0 * RowPhaseWeight(kernel, 0, 5, 0) + q.1 * RowPhaseWeight(kernel, 0, 5, 1);
    assert PhaseSum(q, kernel, 5, 3) == PhaseSum(q, kernel, 5, 1) +
      (q.2 * RowPhaseWeight(kernel, 1, 5, 0) + q.3 * RowPhaseWeight(kernel, 1, 5, 1)) +
      (q.0 * RowPhaseWeight(kernel, 2, 5, 0) + q.1 * RowPhaseWeight(kernel, 2, 5, 1));
  }

  // ---------------------------------------------------------------------
  // The routines.
  // ---------------------------------------------------------------------

  /** `ConvolveOneUnit`: the kernel-weighted sum of the window of `source`
      whose top-left cell is (y0, x0), accumulated row by row. */
  method ConvolveOneUnit<T>(source: array2<T>, y0: nat, x0: nat, widen: T -> real,
                            kernel: seq<seq<real>>, kernelWidth: nat, kernelHeight: nat) returns (sum: real)
    requires IsImage(kernel, kernelWidth, kernelHeight)
    requires y0 + kernelHeight <= source.Length0 && x0 + kernelWidth <= source.Length1
    ensures sum == Window(Contents(source), widen, kernel, kernelWidth, kernelHeight, y0, x0)
  {
    ghost var s := Contents(source);
    sum := 0.0;
    var y := 0;
    while y < kernelHeight
      invariant y <= kernelHeight
      invariant sum == WindowSum(s, widen, kernel, kernelWidth, y0, x0, y)
    {
      var x := 0;
      while x < kernelWidth
        invariant x <= kernelWidth
        invariant sum == WindowSum(s, widen, kernel, kernelWidth, y0, x0, y) + RowDot(s, widen, kernel, y0, x0, y, x)
      {
        var val := widen(source[y0 + y, x0 + x]);
        sum := sum + kernel[y][x] * val;
        x := x + 1;
      }
      y := y + 1;
    }
  }

  /** The strided `Convolve` overload: every destination cell on the lattice
      gets the window sum at that cell; every other cell keeps its value. */
  method ConvolveInto<T>(src: array2<T>, dst: array2<real>, widen: T -> real,
                         kernel: seq<seq<real>>, kernelWidth: nat, kernelHeight: nat,
                         startX: nat, startY: nat, strideX: nat, strideY: nat)
    requires src as object != dst as object
    requires IsImage(kernel, kernelWidth, kernelHeight) && strideX > 0 && strideY > 0
    requires src.Length1 == dst.Length1 + kernelWidth - 1 && src.Length0 == dst.Length0 + kernelHeight - 1
    requires (dst.Length1 > 0 ==> kernelWidth > 0) && (dst.Length0 > 0 ==> kernelHeight > 0)
    modifies dst
    ensures forall y, x :: 0 <= y < dst.Length0 && 0 <= x < dst.Length1 ==>
      dst[y, x] ==
        if OnLattice(x, startX, strideX) && OnLattice(y, startY, strideY)
        then Window(Contents(src), widen, kernel, kernelWidth, kernelHeight, y, x)
        else old(dst[y, x])
  {
    ghost var s := Contents(src);
    var dstWidth, dstHeight := dst.Length1, dst.Length0;
    var y := startY;
    LatticeStart(startY, strideY);
    while y < dstHeight
      invariant OnLattice(y, startY, strideY)
      invariant forall Y, X :: 0 <= Y < dstHeight && 0 <= X < dstWidth ==>
        dst[Y, X] ==
          if Y < y && OnLattice(X, startX, strideX) && OnLattice(Y, startY, strideY)
          then Window(s, widen, kernel, kernelWidth, kernelHeight, Y, X)
          else old(dst[Y, X])
    {
      var x := startX;
      LatticeStart(startX, strideX);
      while x < dstWidth
        invariant OnLattice(x, startX, strideX)
        invariant forall Y, X :: 0 <= Y < dstHeight && 0 <= X < dstWidth ==>
          dst[Y, X] ==
            if (Y < y && OnLattice(X, startX, strideX) && OnLattice(Y, startY, strideY))
               || (Y == y && X < x && OnLattice(X, startX, strideX))
            then Window(s, widen, kernel, kernelWidth, kernelHeight, Y, X)
            else old(dst[Y, X])
      {
        var val := ConvolveOneUnit(src, y, x, widen, kernel, kernelWidth, kernelHeight);
        dst[y, x] := val;
        LatticeNext(x, startX, strideX);
        x := x + strideX;
      }
      LatticeNext(y, startY, strideY);
      y := y + strideY;
    }
  }

  /** The value the convenience `Convolve` overload returns: the image
      extended by `kernelSize / 2` under `kind` (Constant and Isolated use
      `zero`, the element default) and correlated at every cell. */
  function Correlate<T>(img: seq<seq<T>>, w: nat, h: nat, widen: T -> real, kernel: seq<seq<real>>, kernelSize: nat,
                        kind: BorderType, zero: T): (r: seq<seq<real>>)
    requires IsImage(img, w, h) && IsImage(kernel, kernelSize, kernelSize) && kernelSize % 2 == 1
    requires Supported(kind, w, h, kernelSize / 2)
    ensures IsImage(r, w, h)
  {
    var e := Extended(img, w, h, kernelSize / 2, kind, zero, zero);
    seq(h, y requires 0 <= y < h => seq(w, x requires 0 <= x < w => Window(e, widen, kernel, kernelSize, kernelSize, y, x)))
  }

  /** The convenience `Convolve` overload: the image is extended by
      `kernelSize / 2` under `kind` (Constant with the element default) and
      correlated at every cell into a fresh buffer of zeros. */
  method Convolve<T>(image: array2<T>, widen: T -> real, kernel: seq<seq<real>>, kernelSize: nat,
                     kind: BorderType, zero: T) returns (dst: array2<real>)
    requires IsImage(kernel, kernelSize, kernelSize) && kernelSize % 2 == 1
    requires Supported(kind, image.Length1, image.Length0, kernelSize / 2)
    ensures fresh(dst) && dst.Length0 == image.Length0 && dst.Length1 == image.Length1
    ensures Contents(dst) == Correlate(Contents(image), image.Length1, image.Length0, widen, kernel, kernelSize, kind, zero)
  {
    dst := new real[image.Length0, image.Length1]((_, _) => 0.0);
    var src := AddBorder(image, kernelSize / 2, kind, zero, zero);
    ConvolveInto(src, dst, widen, kernel, kernelSize, kernelSize, 0, 0, 1, 1);
    ghost var c := Correlate(Contents(image), image.Length1, image.Length0, widen, kernel, kernelSize, kind, zero);
    forall y | 0 <= y < dst.Length0
      ensures Contents(dst)[y] == c[y]
    {
      forall x | 0 <= x < dst.Length1
        ensures Contents(dst)[y][x] == c[y][x]
      {
        assert OnLattice(x, 0, 1) && OnLattice(y, 0, 1);
      }
    }
  }

  /** Correlating with the centred impulse returns the image itself, whatever
      the border policy. */
  lemma CorrelateImpulse<T>(img: seq<seq<T>>, w: nat, h: nat, widen: T -> real, kernelSize: nat, kind: BorderType, zero: T)
    requires IsImage(img, w, h) && kernelSize % 2 == 1 && Supported(kind, w, h, kernelSize / 2)
    ensures Correlate(img, w, h, widen, Impulse(kernelSize, kernelSize, kernelSize / 2, kernelSize / 2), kernelSize, kind, zero)
            == seq(h, y requires 0 <= y < h => seq(w, x requires 0 <= x < w => widen(img[y][x])))
  {
    var t := kernelSize / 2;
    var e := Extended(img, w, h, t, kind, zero, zero);
    var c := Correlate(img, w, h, widen, Impulse(kernelSize, kernelSize, t, t), kernelSize, kind, zero);
    var v := seq(h, y requires 0 <= y < h => seq(w, x requires 0 <= x < w => widen(img[y][x])));
    forall y | 0 <= y < h
      ensures c[y] == v[y]
    {
      forall x | 0 <= x < w
        ensures c[y][x] == v[y][x]
      {
        CorrelateImpulseAt(img, w, h, widen, kernelSize, kind, zero, y, x);
      }
    }
  }

  /** Cell (y, x) of the correlation with the centred impulse is the image
      sample there. */
  lemma CorrelateImpulseAt<T>(img: seq<seq<T>>, w: nat, h: nat, widen: T -> real, kernelSize: nat, kind: BorderType, zero: T,
                              y: nat, x: nat)
    requires IsImage(img, w, h) && kernelSize % 2 == 1 && Supported(kind, w, h, kernelSize / 2) && y < h && x < w
    ensures Correlate(img, w, h, widen, Impulse(kernelSize, kernelSize, kernelSize / 2, kernelSize / 2), kernelSize, kind, zero)[y][x]
            == widen(img[y][x])
  {
    var t := kernelSize / 2;
    var e := Extended(img, w, h, t, kind, zero, zero);
    WindowImpulse(e, widen, kernelSize, kernelSize, t, t, y, x);
  }

  /** Correlation is linear in the kernel, plane by plane. */
  lemma CorrelateLinear<T>(img: seq<seq<T>>, w: nat, h: nat, widen: T -> real, k1: seq<seq<real>>, k2: seq<seq<real>>,
                           kernelSize: nat, kind: BorderType, zero: T, y: nat, x: nat)
    requires IsImage(img, w, h) && IsImage(k1, kernelSize, kernelSize) && IsImage(k2, kernelSize, kernelSize)
    requires kernelSize % 2 == 1 && Supported(kind, w, h, kernelSize / 2) && y < h && x < w
    ensures Correlate(img, w, h, widen, KernelSum(k1, k2, kernelSize, kernelSize), kernelSize, kind, zero)[y][x] ==
      Correlate(img, w, h, widen, k1, kernelSize, kind, zero)[y][x] + Correlate(img, w, h, widen, k2, kernelSize, kind, zero)[y][x]
  {
    WindowLinear(Extended(img, w, h, kernelSize / 2, kind, zero, zero), widen, k1, k2, kernelSize, kernelSize, y, x);
  }
}
