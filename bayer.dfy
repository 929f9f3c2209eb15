/** The Bayer colour filter array: which colour each sensor cell samples, and
    the first step of every demosaic method, splitting the mosaic into one
    sparse plane per colour with `Copy2D` calls of stride 2. */
module Bayer {
  import opened Grid
  import opened BorderTypes
  import opened Border
  import opened Buffers
  import opened Convolution

  /** The four CFA layouts, named by their top-left 2 x 2 block in row order. */
  datatype BayerPattern = BGGR | GBRG | GRBG | RGGB

  datatype Color = Red | Green | Blue

  /** The demosaic algorithms, named after the tool each imitates. */
  datatype DemosaicMethod = OpenCV | Imatest | MATLAB | LabVIEW

  /** The three colour planes a demosaic method returns. */
  datatype ColorPlanes<T> = ColorPlanes(r: T, g: T, b: T)

  /** A pixel sample as the `double` the convolutions accumulate. */
  function Real(n: nat): real {
    n as real
  }

  /** The 2 x 2 phase (column parity, row parity) of the red samples. */
  function RedPhase(pattern: BayerPattern): (p: (nat, nat))
    ensures p.0 < 2 && p.1 < 2
  {
    match pattern
    case BGGR => (1, 1)
    case GBRG => (0, 1)
    case GRBG => (1, 0)
    case RGGB => (0, 0)
  }

  /** Blue sits diagonally opposite red in every 2 x 2 block. */
  function BluePhase(pattern: BayerPattern): (p: (nat, nat))
    ensures p.0 < 2 && p.1 < 2 && p != RedPhase(pattern)
  {
    (1 - RedPhase(pattern).0, 1 - RedPhase(pattern).1)
  }

  /** The colour sampled at column `x`, row `y`. */
  function ColorAt(pattern: BayerPattern, x: nat, y: nat): Color {
    var phase := (x % 2, y % 2);
    if phase == RedPhase(pattern) then Red
    else if phase == BluePhase(pattern) then Blue
    else Green
  }

  /** The name of each pattern spells its top-left block. */
  lemma PatternNames()
    ensures ColorAt(BGGR, 0, 0) == Blue && ColorAt(BGGR, 1, 0) == Green && ColorAt(BGGR, 0, 1) == Green && ColorAt(BGGR, 1, 1) == Red
    ensures ColorAt(GBRG, 0, 0) == Green && ColorAt(GBRG, 1, 0) == Blue && ColorAt(GBRG, 0, 1) == Red && ColorAt(GBRG, 1, 1) == Green
    ensures ColorAt(GRBG, 0, 0) == Green && ColorAt(GRBG, 1, 0) == Red && ColorAt(GRBG, 0, 1) == Blue && ColorAt(GRBG, 1, 1) == Green
    ensures ColorAt(RGGB, 0, 0) == Red && ColorAt(RGGB, 1, 0) == Green && ColorAt(RGGB, 0, 1) == Green && ColorAt(RGGB, 1, 1) == Blue
  {
  }

  /** Green is the checkerboard: a cell is green exactly when its phase is off
      the red-blue diagonal, and its horizontal and vertical neighbours are
      then red or blue, one of each. */
  lemma GreenCheckerboard(pattern: BayerPattern, x: nat, y: nat)
    ensures ColorAt(pattern, x, y) == Green <==> (x % 2 + y % 2 + RedPhase(pattern).0 + RedPhase(pattern).1) % 2 == 1
    ensures ColorAt(pattern, x, y) == Green <==> ColorAt(pattern, x + 1, y) != Green
    ensures ColorAt(pattern, x, y) == Green ==> ColorAt(pattern, x + 1, y) != ColorAt(pattern, x, y + 1)
  {
    assert (x + 1) % 2 == 1 - x % 2;
    assert (y + 1) % 2 == 1 - y % 2;
  }

  /** The colour of a cell depends only on its 2 x 2 phase. */
  lemma ColorPeriodic(pattern: BayerPattern, x: nat, y: nat)
    ensures ColorAt(pattern, x + 2, y) == ColorAt(pattern, x, y) == ColorAt(pattern, x, y + 2)
  {
    assert (x + 2) % 2 == x % 2 && (y + 2) % 2 == y % 2;
  }

  /** The entry of colour `c` in a triple. */
  function Pick<T>(v: ColorPlanes<T>, c: Color): T {
    match c
    case Red => v.r
    case Green => v.g
    case Blue => v.b
  }

  /** A mosaic of a flat colour: `v.r` at every red cell, `v.g` at every
      green cell and `v.b` at every blue cell. */
  predicate PhaseConstant(img: seq<seq<nat>>, w: nat, h: nat, pattern: BayerPattern, v: ColorPlanes<nat>)
    requires IsImage(img, w, h)
  {
    forall y, x :: 0 <= y < h && 0 <= x < w ==> img[y][x] == Pick(v, ColorAt(pattern, x, y))
  }

  /** The 2 x 2 block whose top-left cell is (x, y) holds red once, blue
      once and green on one diagonal: summed over the block, any per-colour
      values count green twice and red and blue once. */
  lemma BlockColors(pattern: BayerPattern, x: nat, y: nat, m: ColorPlanes<nat>)
    ensures var c, hz, vt, d := ColorAt(pattern, x, y), ColorAt(pattern, x + 1, y), ColorAt(pattern, x, y + 1), ColorAt(pattern, x + 1, y + 1);
      Pick(m, c) + Pick(m, hz) + Pick(m, vt) + Pick(m, d) == m.r + m.g + m.g + m.b &&
      (c == Green <==> d == Green) && (hz == Green <==> vt == Green) && (c == Green <==> hz != Green)
  {
    assert (x + 1) % 2 == 1 - x % 2;
    assert (y + 1) % 2 == 1 - y % 2;
  }

  /** A flat-colour mosaic extended with a `Reflect101` border is still a
      flat-colour mosaic, shifted by the thickness: the mirror keeps every
      cell's phase. */
  lemma Reflect101PhaseConstant(img: seq<seq<nat>>, w: nat, h: nat, t: nat, pattern: BayerPattern, v: ColorPlanes<nat>, zero: nat, y: nat, x: nat)
    requires IsImage(img, w, h) && t < w && t < h && PhaseConstant(img, w, h, pattern, v)
    requires y < t + h + t && x < t + w + t
    ensures Extended(img, w, h, t, Reflect101, zero, zero)[y][x] == Pick(v, ColorAt(pattern, x + t, y + t))
  {
    CopiedPixel(img, w, h, t, Reflect101, zero, zero, x, y);
    var sy, sx := SourceCoord(Reflect101, t, h, y), SourceCoord(Reflect101, t, w, x);
    Reflect101KeepsParity(t, h, y);
    Reflect101KeepsParity(t, w, x);
    ShiftParity(sx, x, t);
    ShiftParity(sy, y, t);
    SamePhase(pattern, sx - t, sy - t, x + t, y + t);
  }

  /** The same, for the cells of a window whose top-left cell is (x, y) in
      the extended image: each holds the value of the cell of its phase in
      the 2 x 2 block at (x + t, y + t). */
  lemma Reflect101Periodic(img: seq<seq<nat>>, w: nat, h: nat, t: nat, pattern: BayerPattern, v: ColorPlanes<nat>, zero: nat,
                           y: nat, x: nat, r: nat, col: nat)
    requires IsImage(img, w, h) && t < w && t < h && PhaseConstant(img, w, h, pattern, v)
    requires y <= r < t + h + t && x <= col < t + w + t
    ensures Extended(img, w, h, t, Reflect101, zero, zero)[r][col] ==
      Pick(v, ColorAt(pattern, x + t + (col - x) % 2, y + t + (r - y) % 2))
  {
    Reflect101PhaseConstant(img, w, h, t, pattern, v, zero, r, col);
    BlockParity(col, x, t);
    BlockParity(r, y, t);
    SamePhase(pattern, col + t, r + t, x + t + (col - x) % 2, y + t + (r - y) % 2);
  }

  lemma BlockParity(col: nat, x: nat, t: nat)
    requires x <= col
    ensures (col + t) % 2 == (x + t + (col - x) % 2) % 2
  {
    var k := col - x;
    DivModUnique(col + t, 2, (x + t + k % 2) / 2 + k / 2, (x + t + k % 2) % 2);
  }

  /** What a kernel sees of the 2 x 2 block at (x, y) of a flat-colour
      mosaic of values `m`: one value per phase, in `PhaseValue` order. */
  function BlockValues(m: ColorPlanes<nat>, pattern: BayerPattern, x: nat, y: nat): (real, real, real, real) {
    (Real(Pick(m, ColorAt(pattern, x, y))), Real(Pick(m, ColorAt(pattern, x + 1, y))),
     Real(Pick(m, ColorAt(pattern, x, y + 1))), Real(Pick(m, ColorAt(pattern, x + 1, y + 1))))
  }

  lemma BlockValuesPhase(m: ColorPlanes<nat>, pattern: BayerPattern, x: nat, y: nat, px: nat, py: nat)
    requires px < 2 && py < 2
    ensures Real(Pick(m, ColorAt(pattern, x + px, y + py))) == PhaseValue(BlockValues(m, pattern, x, y), px, py)
  {
  }

  /** A `size` x `size` window at (x, y) of a flat-colour mosaic extended
      with a `Reflect101` border repeats the 2 x 2 block at (x + t, y + t),
      so a kernel over it weighs four values by its phase weights
      (`WindowPeriodic`). */
  lemma ReflectedWindow(img: seq<seq<nat>>, w: nat, h: nat, t: nat, pattern: BayerPattern, m: ColorPlanes<nat>, y: nat, x: nat, size: nat)
    requires IsImage(img, w, h) && t < w && t < h && PhaseConstant(img, w, h, pattern, m)
    requires y + size <= t + h + t && x + size <= t + w + t
    ensures forall r, col :: y <= r < y + size && x <= col < x + size ==>
      Real(Extended(img, w, h, t, Reflect101, 0, 0)[r][col]) == PhaseValue(BlockValues(m, pattern, x + t, y + t), (col - x) % 2, (r - y) % 2)
  {
    var e := Extended(img, w, h, t, Reflect101, 0, 0);
    forall r, col | y <= r < y + size && x <= col < x + size
      ensures Real(e[r][col]) == PhaseValue(BlockValues(m, pattern, x + t, y + t), (col - x) % 2, (r - y) % 2)
    {
      ReflectedCell(img, w, h, t, pattern, m, y, x, r, col);
    }
  }

  /** One cell of such a window, as a `PhaseValue` of the block. */
  lemma ReflectedCell(img: seq<seq<nat>>, w: nat, h: nat, t: nat, pattern: BayerPattern, m: ColorPlanes<nat>, y: nat, x: nat, r: nat, col: nat)
    requires IsImage(img, w, h) && t < w && t < h && PhaseConstant(img, w, h, pattern, m)
    requires y <= r < t + h + t && x <= col < t + w + t
    ensures Real(Extended(img, w, h, t, Reflect101, 0, 0)[r][col]) == PhaseValue(BlockValues(m, pattern, x + t, y + t), (col - x) % 2, (r - y) % 2)
  {
    Reflect101Periodic(img, w, h, t, pattern, m, 0, y, x, r, col);
    BlockValuesPhase(m, pattern, x + t, y + t, (col - x) % 2, (r - y) % 2);
  }

  /** A kernel over a window of a flat-colour mosaic extended with a
      `Reflect101` border weighs the four values of one 2 x 2 block by its
      phase weights. */
  lemma ReflectedWindowSum(img: seq<seq<nat>>, w: nat, h: nat, t: nat, pattern: BayerPattern, m: ColorPlanes<nat>,
                           kernel: seq<seq<real>>, size: nat, y: nat, x: nat)
    requires IsImage(img, w, h) && t < w && t < h && PhaseConstant(img, w, h, pattern, m) && IsImage(kernel, size, size)
    requires y + size <= t + h + t && x + size <= t + w + t
    ensures Window(Extended(img, w, h, t, Reflect101, 0, 0), Real, kernel, size, size, y, x) ==
      PhaseSum(BlockValues(m, pattern, x + t, y + t), kernel, size, size)
  {
    ReflectedWindow(img, w, h, t, pattern, m, y, x, size);
    WindowPeriodic(Extended(img, w, h, t, Reflect101, 0, 0), Real, kernel, size, size, y, x, BlockValues(m, pattern, x + t, y + t));
  }

  /** The same for `Convolve` with a `Reflect101` border: the correlation
      with a kernel of size `t + t + 1` at (x, y) weighs the block at
      (x + t, y + t). */
  lemma ReflectedCorrelation(img: seq<seq<nat>>, w: nat, h: nat, pattern: BayerPattern, m: ColorPlanes<nat>,
                             kernel: seq<seq<real>>, size: nat, t: nat, y: nat, x: nat)
    requires IsImage(img, w, h) && IsImage(kernel, size, size) && size == t + t + 1 && t < w && t < h
    requires PhaseConstant(img, w, h, pattern, m) && y < h && x < w
    ensures Correlate(img, w, h, Real, kernel, size, Reflect101, 0)[y][x] == PhaseSum(BlockValues(m, pattern, x + t, y + t), kernel, size, size)
  {
    assert size / 2 == t;
    assert Correlate(img, w, h, Real, kernel, size, Reflect101, 0)[y][x] == Window(Extended(img, w, h, t, Reflect101, 0, 0), Real, kernel, size, size, y, x);
    ReflectedWindowSum(img, w, h, t, pattern, m, kernel, size, y, x);
  }

  /** Moving back by `t` from a coordinate of the same parity as `x` lands
      on the parity of `x + t`. */
  lemma ShiftParity(s: nat, x: nat, t: nat)
    requires t <= s && s % 2 == x % 2
    ensures (s - t) % 2 == (x + t) % 2
  {
    var a, b := s / 2, x / 2;
    assert x + t == ((s - t) / 2 + b - a + t) * 2 + (s - t) % 2;
    DivModUnique(x + t, 2, (s - t) / 2 + b - a + t, (s - t) % 2);
  }

  /** Cells of the same phase have the same colour. */
  lemma SamePhase(pattern: BayerPattern, x: nat, y: nat, x': nat, y': nat)
    requires x % 2 == x' % 2 && y % 2 == y' % 2
    ensures ColorAt(pattern, x, y) == ColorAt(pattern, x', y')
  {
  }

  /** The mask of colour `c` of a flat-colour mosaic is a flat-colour mosaic
      that is zero in the other two colours. */
  function MaskValues(v: ColorPlanes<nat>, c: Color): (m: ColorPlanes<nat>)
    ensures Pick(m, c) == Pick(v, c) && forall d :: d != c ==> Pick(m, d) == 0
  {
    ColorPlanes(if c == Red then v.r else 0, if c == Green then v.g else 0, if c == Blue then v.b else 0)
  }

  /** The sparse plane of colour `c`: the mosaic's sample where the filter is
      `c`, zero (the element default) elsewhere. */
  function Mask(img: seq<seq<nat>>, w: nat, h: nat, pattern: BayerPattern, c: Color): (r: seq<seq<nat>>)
    requires IsImage(img, w, h)
    ensures IsImage(r, w, h)
  {
    seq(h, y requires 0 <= y < h => seq(w, x requires 0 <= x < w => if ColorAt(pattern, x, y) == c then img[y][x] else 0))
  }

  lemma MaskPhaseConstant(img: seq<seq<nat>>, w: nat, h: nat, pattern: BayerPattern, v: ColorPlanes<nat>, c: Color)
    requires IsImage(img, w, h) && PhaseConstant(img, w, h, pattern, v)
    ensures PhaseConstant(Mask(img, w, h, pattern, c), w, h, pattern, MaskValues(v, c))
  {
  }

  /** Splitting loses nothing: the three planes add up to the mosaic, each
      cell coming from exactly one plane. */
  lemma MasksPartition(img: seq<seq<nat>>, w: nat, h: nat, pattern: BayerPattern, y: nat, x: nat)
    requires IsImage(img, w, h) && y < h && x < w
    ensures Mask(img, w, h, pattern, Red)[y][x] + Mask(img, w, h, pattern, Green)[y][x] + Mask(img, w, h, pattern, Blue)[y][x] == img[y][x]
    ensures forall c :: Mask(img, w, h, pattern, c)[y][x] != 0 ==> c == ColorAt(pattern, x, y)
  {
  }

  /** `Copy2D` with stride 2: only the cells of phase (sx, sy) take the
      source's value. */
  lemma PhaseLattice(x: nat, y: nat, sx: nat, sy: nat)
    requires sx < 2 && sy < 2
    ensures OnLattice(x, sx, 2) && OnLattice(y, sy, 2) <==> (x % 2, y % 2) == (sx, sy)
  {
    LatticeParity(x, sx);
    LatticeParity(y, sy);
  }

  /** A plane whose every cell is the masked mosaic's is the mask. */
  lemma MaskByCells(p: seq<seq<nat>>, img: seq<seq<nat>>, w: nat, h: nat, pattern: BayerPattern, c: Color)
    requires IsImage(img, w, h) && IsImage(p, w, h)
    requires forall y, x :: 0 <= y < h && 0 <= x < w ==> p[y][x] == if ColorAt(pattern, x, y) == c then img[y][x] else 0
    ensures p == Mask(img, w, h, pattern, c)
  {
    var m := Mask(img, w, h, pattern, c);
    forall y | 0 <= y < h
      ensures p[y] == m[y]
    {
    }
  }

  /** The pattern switch at the head of `GetChannels_OpenCV`, `_Imatest` and
      `_LabVIEW`: three zeroed planes, then four `Copy2D` calls of stride 2,
      one per 2 x 2 phase. Every case copies red, green, green, blue in that
      order; the cases differ only in the phases. */
  method Split(raw: array2<nat>, pattern: BayerPattern) returns (channelR: array2<nat>, channelG: array2<nat>, channelB: array2<nat>)
    ensures fresh(channelR) && fresh(channelG) && fresh(channelB)
    ensures channelR != channelG && channelG != channelB && channelR != channelB
    ensures channelR.Length0 == channelG.Length0 == channelB.Length0 == raw.Length0
    ensures channelR.Length1 == channelG.Length1 == channelB.Length1 == raw.Length1
    ensures Contents(channelR) == Mask(Contents(raw), raw.Length1, raw.Length0, pattern, Red)
    ensures Contents(channelG) == Mask(Contents(raw), raw.Length1, raw.Length0, pattern, Green)
    ensures Contents(channelB) == Mask(Contents(raw), raw.Length1, raw.Length0, pattern, Blue)
  {
    var width, height := raw.Length1, raw.Length0;
    channelR := new nat[height, width]((_, _) => 0);
    channelG := new nat[height, width]((_, _) => 0);
    channelB := new nat[height, width]((_, _) => 0);
    match pattern {
      case BGGR => CopyPhases(raw, channelR, channelG, channelB, pattern, (1, 1), (1, 0), (0, 1), (0, 0));
      case GBRG => CopyPhases(raw, channelR, channelG, channelB, pattern, (0, 1), (0, 0), (1, 1), (1, 0));
      case GRBG => CopyPhases(raw, channelR, channelG, channelB, pattern, (1, 0), (0, 0), (1, 1), (0, 1));
      case RGGB => CopyPhases(raw, channelR, channelG, channelB, pattern, (0, 0), (1, 0), (0, 1), (1, 1));
    }
  }

  /** The four `Copy2D` calls of one case of the switch, into zeroed planes;
      the phases are those of `pattern`. */
  method CopyPhases(raw: array2<nat>, channelR: array2<nat>, channelG: array2<nat>, channelB: array2<nat>,
                    pattern: BayerPattern, r: (nat, nat), g1: (nat, nat), g2: (nat, nat), b: (nat, nat))
    requires channelR != raw && channelG != raw && channelB != raw
    requires channelR != channelG && channelG != channelB && channelR != channelB
    requires channelR.Length0 == channelG.Length0 == channelB.Length0 == raw.Length0
    requires channelR.Length1 == channelG.Length1 == channelB.Length1 == raw.Length1
    requires r == RedPhase(pattern) && b == BluePhase(pattern)
    requires g1.0 < 2 && g1.1 < 2 && g2.0 < 2 && g2.1 < 2 && g1 != g2 && g1 != r && g1 != b && g2 != r && g2 != b
    requires forall y, x :: 0 <= y < raw.Length0 && 0 <= x < raw.Length1 ==> channelR[y, x] == 0 && channelG[y, x] == 0 && channelB[y, x] == 0
    modifies channelR, channelG, channelB
    ensures Contents(channelR) == Mask(Contents(raw), raw.Length1, raw.Length0, pattern, Red)
    ensures Contents(channelG) == Mask(Contents(raw), raw.Length1, raw.Length0, pattern, Green)
    ensures Contents(channelB) == Mask(Contents(raw), raw.Length1, raw.Length0, pattern, Blue)
  {
    CopyColor(raw, channelR, pattern, Red, r, r);
    CopyColor(raw, channelG, pattern, Green, g1, g2);
    CopyColor(raw, channelB, pattern, Blue, b, b);
  }

  /** The `Copy2D` calls of one colour: phase `p`, then phase `q` when it is
      another one (green has two phases, red and blue one). */
  method CopyColor(raw: array2<nat>, channel: array2<nat>, pattern: BayerPattern, c: Color, p: (nat, nat), q: (nat, nat))
    requires channel != raw && channel.Length0 == raw.Length0 && channel.Length1 == raw.Length1
    requires p.0 < 2 && p.1 < 2 && q.0 < 2 && q.1 < 2
    requires forall y, x :: 0 <= y < raw.Length0 && 0 <= x < raw.Length1 ==>
      (ColorAt(pattern, x, y) == c <==> (x % 2, y % 2) == p || (x % 2, y % 2) == q)
    requires forall y, x :: 0 <= y < raw.Length0 && 0 <= x < raw.Length1 ==> channel[y, x] == 0
    modifies channel
    ensures Contents(channel) == Mask(Contents(raw), raw.Length1, raw.Length0, pattern, c)
  {
    Copy2D(raw, channel, p.0, p.1, 2, 2);
    if q != p {
      Copy2D(raw, channel, q.0, q.1, 2, 2);
    }
    var width, height := raw.Length1, raw.Length0;
    forall y, x | 0 <= y < height && 0 <= x < width
      ensures channel[y, x] == if ColorAt(pattern, x, y) == c then raw[y, x] else 0
    {
      PhaseLattice(x, y, p.0, p.1);
      PhaseLattice(x, y, q.0, q.1);
    }
    MaskByCells(Contents(channel), Contents(raw), width, height, pattern, c);
  }
}
