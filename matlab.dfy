/** `GetChannels_MATLAB`: gradient-corrected linear demosaic with 5 x 5
    kernels on a mosaic extended by two cells of `Reflect101` border. Every
    plane keeps the mosaic's own samples of its colour; the other cells are
    filled by strided convolutions, each over the cells of one 2 x 2 phase,
    and the planes are truncated back to pixels. */
module MATLABDemosaic {
  import opened Options
  import opened Grid
  import opened BorderTypes
  import opened Border
  import opened Convolution
  import opened Buffers
  import opened Convert
  import opened Bayer

  /** The four kernels of the method. `KernelG` estimates green at a red or
      blue cell; `KernelRB1` estimates red or blue at a green cell whose row
      holds that colour, `KernelRB2` at a green cell whose column holds it,
      and `KernelRB3` at a cell of the opposite diagonal colour. */
  datatype Kernel = KernelG | KernelRB1 | KernelRB2 | KernelRB3

  /** The weights of each kernel, row by row. */
  function Weights(k: Kernel): (r: seq<seq<real>>)
    ensures IsImage(r, 5, 5)
  {
    match k
    case KernelG =>
      [[0.0, 0.0, -0.125, 0.0, 0.0],
       [0.0, 0.0, 0.25, 0.0, 0.0],
       [-0.125, 0.25, 0.5, 0.25, -0.125],
       [0.0, 0.0, 0.25, 0.0, 0.0],
       [0.0, 0.0, -0.125, 0.0, 0.0]]
    case KernelRB1 =>
      [[0.0, 0.0, 0.0625, 0.0, 0.0],
       [0.0, -0.125, 0.0, -0.125, 0.0],
       [-0.125, 0.5, 0.625, 0.5, -0.125],
       [0.0, -0.125, 0.0, -0.125, 0.0],
       [0.0, 0.0, 0.0625, 0.0, 0.0]]
    case KernelRB2 =>
      [[0.0, 0.0, -0.125, 0.0, 0.0],
       [0.0, -0.125, 0.5, -0.125, 0.0],
       [0.0625, 0.0, 0.625, 0.0, 0.0625],
       [0.0, -0.125, 0.5, -0.125, 0.0],
       [0.0, 0.0, -0.125, 0.0, 0.0]]
    case KernelRB3 =>
      [[0.0, 0.0, -0.1875, 0.0, 0.0],
       [0.0, 0.25, 0.0, 0.25, 0.0],
       [-0.1875, 0.0, 0.75, 0.0, -0.1875],
       [0.0, 0.25, 0.0, 0.25, 0.0],
       [0.0, 0.0, -0.1875, 0.0, 0.0]]
  }

  /** One strided `Convolve` call of the pattern switch: the plane it writes,
      the kernel, and the phase (startX, startY) it visits with stride 2. */
  datatype Step = Step(channel: Color, kernel: Kernel, startX: nat, startY: nat)

  /** The convolution calls of each case of the switch, in the order the
      case makes them: three for red, three for blue, two for green. */
  function Steps(pattern: BayerPattern): (s: seq<Step>)
    ensures forall i :: 0 <= i < |s| ==> s[i].startX < 2 && s[i].startY < 2
  {
    match pattern
    case BGGR =>
      [Step(Red, KernelRB3, 0, 0), Step(Red, KernelRB2, 1, 0), Step(Red, KernelRB1, 0, 1),
       Step(Blue, KernelRB1, 1, 0), Step(Blue, KernelRB2, 0, 1), Step(Blue, KernelRB3, 1, 1),
       Step(Green, KernelG, 0, 0), Step(Green, KernelG, 1, 1)]
    case GBRG =>
      [Step(Red, KernelRB2, 0, 0), Step(Red, KernelRB3, 1, 0), Step(Red, KernelRB1, 1, 1),
       Step(Blue, KernelRB1, 0, 0), Step(Blue, KernelRB3, 0, 1), Step(Blue, KernelRB2, 1, 1),
       Step(Green, KernelG, 1, 0), Step(Green, KernelG, 0, 1)]
    case GRBG =>
      [Step(Red, KernelRB1, 0, 0), Step(Red, KernelRB3, 0, 1), Step(Red, KernelRB2, 1, 1),
       Step(Blue, KernelRB2, 0, 0), Step(Blue, KernelRB3, 1, 0), Step(Blue, KernelRB1, 1, 1),
       Step(Green, KernelG, 1, 0), Step(Green, KernelG, 0, 1)]
    case RGGB =>
      [Step(Red, KernelRB1, 1, 0), Step(Red, KernelRB2, 0, 1), Step(Red, KernelRB3, 1, 1),
       Step(Blue, KernelRB3, 0, 0), Step(Blue, KernelRB2, 1, 0), Step(Blue, KernelRB1, 0, 1),
       Step(Green, KernelG, 0, 0), Step(Green, KernelG, 1, 1)]
  }

  /** Whether step `s` writes plane `c` at phase (px, py). */
  predicate Writes(s: Step, c: Color, px: nat, py: nat) {
    s.channel == c && s.startX == px && s.startY == py
  }

  /** The kernel of the last of the first `n` steps that writes plane `c` at
      phase (px, py); `None` when none of them writes there. */
  function LastStep(steps: seq<Step>, n: nat, c: Color, px: nat, py: nat): Option<Kernel>
    requires n <= |steps|
  {
    if n == 0 then None
    else if Writes(steps[n - 1], c, px, py) then Some(steps[n - 1].kernel)
    else LastStep(steps, n - 1, c, px, py)
  }

  /** The phase of the samples of colour `c`, for red and blue. */
  function NativePhase(pattern: BayerPattern, c: Color): (nat, nat)
    requires c != Green
  {
    if c == Red then RedPhase(pattern) else BluePhase(pattern)
  }

  /** How the method fills the cells of phase (px, py) in the plane of
      colour `c`: `None` where the mosaic samples `c` (the sample is kept),
      otherwise the kernel chosen by where the nearest samples of `c` lie. */
  function Interpolation(pattern: BayerPattern, c: Color, px: nat, py: nat): Option<Kernel> {
    if c == Green then
      if ColorAt(pattern, px, py) == Green then None else Some(KernelG)
    else
      var n := NativePhase(pattern, c);
      if (px, py) == n then None
      else if py == n.1 then Some(KernelRB1)
      else if px == n.0 then Some(KernelRB2)
      else Some(KernelRB3)
  }

  /** A cell keeps its sample exactly in the plane of its own colour. */
  lemma KeepsOwnSamples(pattern: BayerPattern, c: Color, x: nat, y: nat)
    ensures Interpolation(pattern, c, x % 2, y % 2).None? <==> ColorAt(pattern, x, y) == c
  {
    assert (x % 2) % 2 == x % 2 && (y % 2) % 2 == y % 2;
  }

  /** The hand-written switch agrees with the rule: in every case, the last
      convolution over each phase of each plane uses the kernel the rule
      names, and no convolution touches the phase whose samples a plane
      keeps. */
  lemma StepsFollowRule(pattern: BayerPattern, c: Color, px: nat, py: nat)
    requires px < 2 && py < 2
    ensures LastStep(Steps(pattern), |Steps(pattern)|, c, px, py) == Interpolation(pattern, c, px, py)
  {
    var s := Steps(pattern);
    LastOfEight(s, c, px, py);
    match pattern
    case BGGR =>
    case GBRG =>
    case GRBG =>
    case RGGB =>
  }

  /** `LastStep` over eight steps, written out. */
  lemma LastOfEight(s: seq<Step>, c: Color, px: nat, py: nat)
    requires |s| == 8
    ensures LastStep(s, 8, c, px, py) ==
      if Writes(s[7], c, px, py) then Some(s[7].kernel)
      else if Writes(s[6], c, px, py) then Some(s[6].kernel)
      else if Writes(s[5], c, px, py) then Some(s[5].kernel)
      else if Writes(s[4], c, px, py) then Some(s[4].kernel)
      else if Writes(s[3], c, px, py) then Some(s[3].kernel)
      else if Writes(s[2], c, px, py) then Some(s[2].kernel)
      else if Writes(s[1], c, px, py) then Some(s[1].kernel)
      else if Writes(s[0], c, px, py) then Some(s[0].kernel)
      else None
  {
    assert LastStep(s, 8, c, px, py) == if Writes(s[7], c, px, py) then Some(s[7].kernel) else LastStep(s, 7, c, px, py);
    assert LastStep(s, 7, c, px, py) == if Writes(s[6], c, px, py) then Some(s[6].kernel) else LastStep(s, 6, c, px, py);
    assert LastStep(s, 6, c, px, py) == if Writes(s[5], c, px, py) then Some(s[5].kernel) else LastStep(s, 5, c, px, py);
    assert LastStep(s, 5, c, px, py) == if Writes(s[4], c, px, py) then Some(s[4].kernel) else LastStep(s, 4, c, px, py);
    assert LastStep(s, 4, c, px, py) == if Writes(s[3], c, px, py) then Some(s[3].kernel) else LastStep(s, 3, c, px, py);
    assert LastStep(s, 3, c, px, py) == if Writes(s[2], c, px, py) then Some(s[2].kernel) else LastStep(s, 2, c, px, py);
    assert LastStep(s, 2, c, px, py) == if Writes(s[1], c, px, py) then Some(s[1].kernel) else LastStep(s, 1, c, px, py);
    assert LastStep(s, 1, c, px, py) == if Writes(s[0], c, px, py) then Some(s[0].kernel) else None;
  }

  /** No two calls of a case write the same phase of the same plane, so the
      order of the calls within a case does not matter. */
  lemma StepsDisjoint(pattern: BayerPattern, i: nat, j: nat)
    requires i < j < |Steps(pattern)|
    ensures Steps(pattern)[i].channel == Steps(pattern)[j].channel ==>
      (Steps(pattern)[i].startX, Steps(pattern)[i].startY) != (Steps(pattern)[j].startX, Steps(pattern)[j].startY)
  {
  }

  /** The mosaic with its two-cell `Reflect101` border. */
  function Source(img: seq<seq<nat>>, w: nat, h: nat): (e: seq<seq<nat>>)
    requires IsImage(img, w, h) && w >= 3 && h >= 3
    ensures IsImage(e, w + 4, h + 4)
  {
    Extended(img, w, h, 2, Reflect101, 0, 0)
  }

  /** The estimate of kernel `k` at cell (x, y): its window over the
      extended mosaic, centred on the cell. */
  function Estimate(e: seq<seq<nat>>, w: nat, h: nat, k: Kernel, y: nat, x: nat): real
    requires IsImage(e, w + 4, h + 4) && y < h && x < w
  {
    Window(e, Real, Weights(k), 5, 5, y, x)
  }

  /** The plane of colour `c` before truncation. */
  function Plane(img: seq<seq<nat>>, w: nat, h: nat, pattern: BayerPattern, c: Color): (r: seq<seq<real>>)
    requires IsImage(img, w, h) && w >= 3 && h >= 3
    ensures IsImage(r, w, h)
  {
    var e := Source(img, w, h);
    seq(h, y requires 0 <= y < h => seq(w, x requires 0 <= x < w =>
      match Interpolation(pattern, c, x % 2, y % 2)
      case None => Real(img[y][x])
      case Some(k) => Estimate(e, w, h, k, y, x)))
  }

  /** What `GetChannels_MATLAB` returns; `None` when a truncated sample does
      not fit the pixel type (the kernels have negative weights, so an
      estimate can fall below zero or above the maximum). */
  function Channels(img: seq<seq<nat>>, w: nat, h: nat, pattern: BayerPattern, max: nat): Option<ColorPlanes<seq<seq<nat>>>>
    requires IsImage(img, w, h) && w >= 3 && h >= 3
  {
    var r := Converted(Plane(img, w, h, pattern, Red), w, h, 0.0, max);
    var g := Converted(Plane(img, w, h, pattern, Green), w, h, 0.0, max);
    var b := Converted(Plane(img, w, h, pattern, Blue), w, h, 0.0, max);
    if r.Some? && g.Some? && b.Some? then Some(ColorPlanes(r.value, g.value, b.value)) else None
  }

  /** Every plane returns the mosaic's own samples of its colour unchanged. */
  lemma OwnSamplesSurvive(img: seq<seq<nat>>, w: nat, h: nat, pattern: BayerPattern, max: nat, y: nat, x: nat)
    requires IsImage(img, w, h) && w >= 3 && h >= 3 && y < h && x < w
    requires Channels(img, w, h, pattern, max).Some?
    ensures var planes := Channels(img, w, h, pattern, max).value;
      match ColorAt(pattern, x, y)
      case Red => planes.r[y][x] == img[y][x]
      case Green => planes.g[y][x] == img[y][x]
      case Blue => planes.b[y][x] == img[y][x]
  {
    var c := ColorAt(pattern, x, y);
    KeepsOwnSamples(pattern, c, x, y);
    var p := Plane(img, w, h, pattern, c);
    assert p[y][x] == img[y][x] as real;
    var v := Converted(p, w, h, 0.0, max).value;
    assert CreateChecked(p[y][x] + 0.0, max) == Some(v[y][x]);
  }

  /** The weights of a five-wide kernel row, added up. */
  lemma RowWeightOfFive(kernel: seq<seq<real>>, ky: nat)
    requires ky < |kernel| && |kernel[ky]| == 5
    ensures RowWeight(kernel, ky, 5) == kernel[ky][0] + kernel[ky][1] + kernel[ky][2] + kernel[ky][3] + kernel[ky][4]
  {
    assert RowWeight(kernel, ky, 1) == kernel[ky][0];
    assert RowWeight(kernel, ky, 3) == RowWeight(kernel, ky, 1) + kernel[ky][1] + kernel[ky][2];
  }

  /** Every kernel's weights sum to one. */
  lemma KernelsNormalised(k: Kernel)
    ensures TotalWeight(Weights(k), 5, 5) == 1.0
  {
    var w := Weights(k);
    RowWeightOfFive(w, 0);
    RowWeightOfFive(w, 1);
    RowWeightOfFive(w, 2);
    RowWeightOfFive(w, 3);
    RowWeightOfFive(w, 4);
    assert TotalWeight(w, 5, 1) == RowWeight(w, 0, 5);
    assert TotalWeight(w, 5, 3) == TotalWeight(w, 5, 1) + RowWeight(w, 1, 5) + RowWeight(w, 2, 5);
  }

  /** A mosaic whose samples are all `v` is all `v` in every plane, before
      truncation. */
  lemma FlatPlane(img: seq<seq<nat>>, w: nat, h: nat, pattern: BayerPattern, c: Color, v: nat, y: nat, x: nat)
    requires IsImage(img, w, h) && w >= 3 && h >= 3 && y < h && x < w
    requires forall y, x :: 0 <= y < h && 0 <= x < w ==> img[y][x] == v
    ensures Plane(img, w, h, pattern, c)[y][x] == v as real
  {
    var e := Source(img, w, h);
    match Interpolation(pattern, c, x % 2, y % 2)
    case None =>
    case Some(k) =>
      forall r, col | y <= r < y + 5 && x <= col < x + 5
        ensures Real(e[r][col]) == v as real
      {
        assert e[r][col] == ExtendedPixel(img, w, h, 2, Reflect101, 0, 0, col, r);
      }
      WindowFlat(e, Real, Weights(k), 5, 5, y, x, v as real);
      KernelsNormalised(k);
  }

  /** A uniform mosaic comes back unchanged in all three planes. */
  lemma FlatMosaic(img: seq<seq<nat>>, w: nat, h: nat, pattern: BayerPattern, v: nat, max: nat)
    requires IsImage(img, w, h) && w >= 3 && h >= 3 && v <= max
    requires forall y, x :: 0 <= y < h && 0 <= x < w ==> img[y][x] == v
    ensures Channels(img, w, h, pattern, max) == Some(ColorPlanes(img, img, img))
  {
    forall c: Color
      ensures Converted(Plane(img, w, h, pattern, c), w, h, 0.0, max) == Some(img)
    {
      var p := Plane(img, w, h, pattern, c);
      forall y, x | 0 <= y < h && 0 <= x < w
        ensures CreateChecked(p[y][x] + 0.0, max) == Some(img[y][x])
      {
        FlatPlane(img, w, h, pattern, c, v, y, x);
        CreateCheckedOfPixel(v, max);
      }
      ConvertedByCells(p, img, w, h, 0.0, max);
    }
  }

  /** What each kernel makes of a 5 x 5 window repeating the 2 x 2 block `q`
      from its corner, phases in the order (0, 0), (1, 0), (0, 1), (1, 1):
      the centre's phase is (0, 0), its horizontal neighbours' (1, 0), its
      vertical neighbours' (0, 1) and its diagonal neighbours' (1, 1). The
      phase weights of each kernel sum to one. */
  lemma KernelPhaseSums(k: Kernel, q: (real, real, real, real))
    ensures PhaseSum(q, Weights(k), 5, 5) ==
      match k
      case KernelG => 0.5 * q.1 + 0.5 * q.2
      case KernelRB1 => 0.5 * q.0 + q.1 - 0.5 * q.3
      case KernelRB2 => 0.5 * q.0 + q.2 - 0.5 * q.3
      case KernelRB3 => q.3
  {
    PhaseSumOfFive(q, Weights(k));
  }

  /** Where the rule picks a kernel, that kernel weighs the 2 x 2 block of a
      flat-colour mosaic around the cell to the missing colour's value: the
      negative weights on the cell's own colour cancel the positive ones. */
  lemma EstimateWeighs(pattern: BayerPattern, v: ColorPlanes<nat>, c: Color, k: Kernel, x: nat, y: nat)
    requires Interpolation(pattern, c, x % 2, y % 2) == Some(k)
    ensures PhaseSum(BlockValues(v, pattern, x + 2, y + 2), Weights(k), 5, 5) == Real(Pick(v, c))
  {
    SamePhase(pattern, x + 2, y + 2, x, y);
    SamePhase(pattern, x + 3, y + 2, x + 1, y);
    SamePhase(pattern, x + 2, y + 3, x, y + 1);
    SamePhase(pattern, x + 3, y + 3, x + 1, y + 1);
    var q := BlockValues(v, pattern, x, y);
    assert BlockValues(v, pattern, x + 2, y + 2) == q;
    KernelPhaseSums(k, q);
    NeighbourColors(pattern, c, k, x, y);
  }

  /** The colours of the 2 x 2 block from a cell, for the kernel the rule
      picks there: green's kernel sits where both straight neighbours are
      green; `KernelRB1` where the horizontal neighbour has the colour and
      the cell and its diagonal neighbour are green; `KernelRB2` the same
      vertically; `KernelRB3` where the diagonal neighbour has it. */
  lemma NeighbourColors(pattern: BayerPattern, c: Color, k: Kernel, x: nat, y: nat)
    requires Interpolation(pattern, c, x % 2, y % 2) == Some(k)
    ensures k == KernelG ==> c == Green && ColorAt(pattern, x + 1, y) == Green && ColorAt(pattern, x, y + 1) == Green
    ensures k == KernelRB1 ==> ColorAt(pattern, x + 1, y) == c && ColorAt(pattern, x, y) == Green && ColorAt(pattern, x + 1, y + 1) == Green
    ensures k == KernelRB2 ==> ColorAt(pattern, x, y + 1) == c && ColorAt(pattern, x, y) == Green && ColorAt(pattern, x + 1, y + 1) == Green
    ensures k == KernelRB3 ==> ColorAt(pattern, x + 1, y + 1) == c
  {
    assert (x + 1) % 2 == 1 - x % 2;
    assert (y + 1) % 2 == 1 - y % 2;
  }

  /** A flat-colour mosaic (each colour one value) has that colour's value at
      every cell of each plane, before truncation: kept samples are the
      value, and every kernel weighs the reflected neighbourhood to it. */
  lemma PhaseConstantPlane(img: seq<seq<nat>>, w: nat, h: nat, pattern: BayerPattern, v: ColorPlanes<nat>, c: Color, y: nat, x: nat)
    requires IsImage(img, w, h) && w >= 3 && h >= 3 && PhaseConstant(img, w, h, pattern, v) && y < h && x < w
    ensures Plane(img, w, h, pattern, c)[y][x] == Real(Pick(v, c))
  {
    match Interpolation(pattern, c, x % 2, y % 2)
    case None =>
      KeepsOwnSamples(pattern, c, x, y);
    case Some(k) =>
      PhaseConstantEstimate(img, w, h, pattern, v, c, k, y, x);
  }

  /** The estimate the rule picks for a cell of a flat-colour mosaic is the
      missing colour's value. */
  lemma PhaseConstantEstimate(img: seq<seq<nat>>, w: nat, h: nat, pattern: BayerPattern, v: ColorPlanes<nat>, c: Color, k: Kernel, y: nat, x: nat)
    requires IsImage(img, w, h) && w >= 3 && h >= 3 && PhaseConstant(img, w, h, pattern, v) && y < h && x < w
    requires Interpolation(pattern, c, x % 2, y % 2) == Some(k)
    ensures Estimate(Source(img, w, h), w, h, k, y, x) == Real(Pick(v, c))
  {
    calc {
      Estimate(Source(img, w, h), w, h, k, y, x);
      { ReflectedWindowSum(img, w, h, 2, pattern, v, Weights(k), 5, y, x); }
      PhaseSum(BlockValues(v, pattern, x + 2, y + 2), Weights(k), 5, 5);
      { EstimateWeighs(pattern, v, c, k, x, y); }
      Real(Pick(v, c));
    }
  }

  /** A flat-colour mosaic (each colour one value, within the pixel type)
      comes back as three flat planes of those values. */
  lemma PhaseConstantMosaic(img: seq<seq<nat>>, w: nat, h: nat, pattern: BayerPattern, v: ColorPlanes<nat>, max: nat)
    requires IsImage(img, w, h) && w >= 3 && h >= 3 && PhaseConstant(img, w, h, pattern, v)
    requires v.r <= max && v.g <= max && v.b <= max
    ensures Channels(img, w, h, pattern, max) == Some(ColorPlanes(Uniform(w, h, v.r), Uniform(w, h, v.g), Uniform(w, h, v.b)))
  {
    forall c: Color
      ensures Converted(Plane(img, w, h, pattern, c), w, h, 0.0, max) == Some(Uniform(w, h, Pick(v, c)))
    {
      forall y, x | 0 <= y < h && 0 <= x < w
        ensures Plane(img, w, h, pattern, c)[y][x] == Pick(v, c) as real
      {
        PhaseConstantPlane(img, w, h, pattern, v, c, y, x);
      }
      ConvertedUniform(Plane(img, w, h, pattern, c), w, h, 0.0, Pick(v, c), max);
    }
  }

  /** `GetChannels_MATLAB`, for an image at least three samples each way
      (the two-cell reflected border needs three). The three planes are
      independent, so each is copied, convolved and truncated in turn. */
  method GetChannels(raw: array2<nat>, pattern: BayerPattern, max: nat) returns (result: Option<ColorPlanes<array2<nat>>>)
    requires raw.Length0 >= 3 && raw.Length1 >= 3
    ensures result.Some? <==> Channels(Contents(raw), raw.Length1, raw.Length0, pattern, max).Some?
    ensures result.Some? ==>
      var planes := Channels(Contents(raw), raw.Length1, raw.Length0, pattern, max).value;
      Contents(result.value.r) == planes.r && Contents(result.value.g) == planes.g && Contents(result.value.b) == planes.b
  {
    var src := AddBorder(raw, 2, Reflect101, 0, 0);
    var r := PlaneAndFloor(raw, src, pattern, Red, max);
    var g := PlaneAndFloor(raw, src, pattern, Green, max);
    var b := PlaneAndFloor(raw, src, pattern, Blue, max);
    if r.None? || g.None? || b.None? {
      return None;
    }
    result := Some(ColorPlanes(r.value, g.value, b.value));
  }

  /** One plane's share of `GetChannels_MATLAB`: a zeroed `double` plane,
      the `Copy2D` calls of its own samples, its convolution calls, then
      `FloorAndConvert`. */
  method PlaneAndFloor(raw: array2<nat>, src: array2<nat>, pattern: BayerPattern, c: Color, max: nat)
    returns (result: Option<array2<nat>>)
    requires raw.Length0 >= 3 && raw.Length1 >= 3
    requires src.Length0 == raw.Length0 + 4 && src.Length1 == raw.Length1 + 4
    requires Contents(src) == Source(Contents(raw), raw.Length1, raw.Length0)
    ensures result.Some? <==> Converted(Plane(Contents(raw), raw.Length1, raw.Length0, pattern, c), raw.Length1, raw.Length0, 0.0, max).Some?
    ensures result.Some? ==> Contents(result.value) == Converted(Plane(Contents(raw), raw.Length1, raw.Length0, pattern, c), raw.Length1, raw.Length0, 0.0, max).value
  {
    var plane := new real[raw.Length0, raw.Length1]((_, _) => 0.0);
    CopyOwnSamples(raw, plane, pattern, c);
    RunSteps(src, plane, Steps(pattern), c);
    PlaneByCells(Contents(raw), raw.Length1, raw.Length0, pattern, c, Contents(plane));
    result := FloorAndConvert(plane, max);
  }

  /** The `Copy2D` calls into the plane of colour `c`: one phase for red and
      blue, two for green. Cells of other colours keep their value. */
  method CopyOwnSamples(raw: array2<nat>, plane: array2<real>, pattern: BayerPattern, c: Color)
    requires plane.Length0 == raw.Length0 && plane.Length1 == raw.Length1
    modifies plane
    ensures forall y, x :: 0 <= y < plane.Length0 && 0 <= x < plane.Length1 ==>
      plane[y, x] == if ColorAt(pattern, x, y) == c then Real(raw[y, x]) else old(plane[y, x])
  {
    if c == Green {
      var r, b := RedPhase(pattern), BluePhase(pattern);
      var g1, g2 := (r.0, 1 - r.1), (1 - r.0, r.1);
      Copy2DConvert(raw, plane, Real, g1.0, g1.1, 2, 2);
      Copy2DConvert(raw, plane, Real, g2.0, g2.1, 2, 2);
      forall y, x | 0 <= y < plane.Length0 && 0 <= x < plane.Length1
        ensures plane[y, x] == if ColorAt(pattern, x, y) == c then Real(raw[y, x]) else old(plane[y, x])
      {
        PhaseLattice(x, y, g1.0, g1.1);
        PhaseLattice(x, y, g2.0, g2.1);
      }
    } else {
      var n := NativePhase(pattern, c);
      Copy2DConvert(raw, plane, Real, n.0, n.1, 2, 2);
      forall y, x | 0 <= y < plane.Length0 && 0 <= x < plane.Length1
        ensures plane[y, x] == if ColorAt(pattern, x, y) == c then Real(raw[y, x]) else old(plane[y, x])
      {
        PhaseLattice(x, y, n.0, n.1);
      }
    }
  }

  /** The value a cell holds after the first `n` of `steps`: the estimate of
      the last of them that writes plane `c` at the cell's phase, or
      `before`. */
  function AfterSteps(e: seq<seq<nat>>, w: nat, h: nat, steps: seq<Step>, n: nat, c: Color, y: nat, x: nat, before: real): real
    requires IsImage(e, w + 4, h + 4) && y < h && x < w && n <= |steps|
  {
    match LastStep(steps, n, c, x % 2, y % 2)
    case None => before
    case Some(k) => Estimate(e, w, h, k, y, x)
  }

  /** The convolution calls of one case, in order; those that write plane
      `c` are carried out on `plane`. */
  method RunSteps(src: array2<nat>, plane: array2<real>, steps: seq<Step>, c: Color)
    requires src.Length0 == plane.Length0 + 4 && src.Length1 == plane.Length1 + 4
    requires forall i :: 0 <= i < |steps| ==> steps[i].startX < 2 && steps[i].startY < 2
    modifies plane
    ensures forall y, x :: 0 <= y < plane.Length0 && 0 <= x < plane.Length1 ==>
      plane[y, x] == AfterSteps(Contents(src), plane.Length1, plane.Length0, steps, |steps|, c, y, x, old(plane[y, x]))
  {
    ghost var e := Contents(src);
    ghost var start := Contents(plane);
    var i := 0;
    while i < |steps|
      invariant i <= |steps|
      invariant forall y, x :: 0 <= y < plane.Length0 && 0 <= x < plane.Length1 ==>
        plane[y, x] == AfterSteps(e, plane.Length1, plane.Length0, steps, i, c, y, x, start[y][x])
    {
      RunStep(src, plane, steps, i, c, e, start);
      i := i + 1;
    }
  }

  /** Call `i` of the switch: when it writes plane `c`, the strided
      convolution over its phase; the cells of that phase now hold its
      estimate, every other cell what it held. */
  method RunStep(src: array2<nat>, plane: array2<real>, steps: seq<Step>, i: nat, c: Color,
                 ghost e: seq<seq<nat>>, ghost start: seq<seq<real>>)
    requires src.Length0 == plane.Length0 + 4 && src.Length1 == plane.Length1 + 4
    requires e == Contents(src) && IsImage(start, plane.Length1, plane.Length0)
    requires i < |steps| && steps[i].startX < 2 && steps[i].startY < 2
    requires forall y, x :: 0 <= y < plane.Length0 && 0 <= x < plane.Length1 ==>
      plane[y, x] == AfterSteps(e, plane.Length1, plane.Length0, steps, i, c, y, x, start[y][x])
    modifies plane
    ensures forall y, x :: 0 <= y < plane.Length0 && 0 <= x < plane.Length1 ==>
      plane[y, x] == AfterSteps(e, plane.Length1, plane.Length0, steps, i + 1, c, y, x, start[y][x])
  {
    var s := steps[i];
    if s.channel == c {
      ConvolveInto(src, plane, Real, Weights(s.kernel), 5, 5, s.startX, s.startY, 2, 2);
      forall y, x | 0 <= y < plane.Length0 && 0 <= x < plane.Length1
        ensures plane[y, x] == AfterSteps(e, plane.Length1, plane.Length0, steps, i + 1, c, y, x, start[y][x])
      {
        PhaseLattice(x, y, s.startX, s.startY);
      }
    }
  }

  /** After its own samples and its convolutions, a zeroed plane is the
      specified plane. */
  lemma PlaneByCells(img: seq<seq<nat>>, w: nat, h: nat, pattern: BayerPattern, c: Color, p: seq<seq<real>>)
    requires IsImage(img, w, h) && w >= 3 && h >= 3 && IsImage(p, w, h)
    requires forall y, x :: 0 <= y < h && 0 <= x < w ==>
      p[y][x] == AfterSteps(Source(img, w, h), w, h, Steps(pattern), |Steps(pattern)|, c, y, x, if ColorAt(pattern, x, y) == c then Real(img[y][x]) else 0.0)
    ensures p == Plane(img, w, h, pattern, c)
  {
    var q := Plane(img, w, h, pattern, c);
    forall y | 0 <= y < h
      ensures p[y] == q[y]
    {
      forall x | 0 <= x < w
        ensures p[y][x] == q[y][x]
      {
        StepsFollowRule(pattern, c, x % 2, y % 2);
        KeepsOwnSamples(pattern, c, x, y);
      }
    }
  }
}
