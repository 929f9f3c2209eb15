/** `GetChannels_OpenCV`: bilinear demosaic with a reflected border, after
    which the outermost ring of each plane is overwritten from its inner
    neighbours, then each plane is rounded back to pixels. */
module OpenCVDemosaic {
  import opened Options
  import opened BorderTypes
  import opened Border
  import opened Convolution
  import opened Convert
  import opened Bayer

  /** Red and blue: the average of the two or four nearest samples of the
      colour, or the sample itself. */
  const KernelRB: seq<seq<real>> := [[0.25, 0.5, 0.25], [0.5, 1.0, 0.5], [0.25, 0.5, 0.25]]

  /** Green: the average of the four nearest samples, or the sample itself. */
  const KernelG: seq<seq<real>> := [[0.0, 0.25, 0.0], [0.25, 1.0, 0.25], [0.0, 0.25, 0.0]]

  function KernelFor(c: Color): (k: seq<seq<real>>)
    ensures IsImage(k, 3, 3)
  {
    if c == Green then KernelG else KernelRB
  }

  function Clamp(v: nat, lo: nat, hi: nat): nat
    requires lo <= hi
  {
    if v < lo then lo else if v > hi then hi else v
  }

  /** The row whose pre-fix-up value row `y` ends with. The two row copies
      move `w - 2` samples, so they do nothing on a plane two columns wide. */
  function EdgeRow(w: nat, h: nat, y: nat): nat
    requires h >= 2
  {
    if w >= 3 then Clamp(y, 1, if h >= 3 then h - 2 else 1) else y
  }

  /** The column whose pre-fix-up value column `x` ends with. */
  function EdgeColumn(w: nat, x: nat): nat
    requires w >= 2
  {
    Clamp(x, 1, if w >= 3 then w - 2 else 1)
  }

  /** What the fix-up leaves in a `w` x `h` plane. */
  function EdgeFixed(p: seq<seq<real>>, w: nat, h: nat): (r: seq<seq<real>>)
    requires IsImage(p, w, h) && w >= 2 && h >= 2
    ensures IsImage(r, w, h)
  {
    seq(h, y requires 0 <= y < h => seq(w, x requires 0 <= x < w => p[EdgeRow(w, h, y)][EdgeColumn(w, x)]))
  }

  /** The fix-up changes only the outermost ring; inside, the ring's
      columns repeat their inner neighbours, and so do its rows unless the
      plane is two columns wide. */
  lemma EdgeFixedShape(p: seq<seq<real>>, w: nat, h: nat, y: nat, x: nat)
    requires IsImage(p, w, h) && w >= 2 && h >= 2 && y < h && x < w
    ensures 1 <= x < w - 1 && 1 <= y < h - 1 ==> EdgeFixed(p, w, h)[y][x] == p[y][x]
    ensures EdgeFixed(p, w, h)[y][0] == EdgeFixed(p, w, h)[y][1]
    ensures EdgeFixed(p, w, h)[y][w - 1] == EdgeFixed(p, w, h)[y][if w >= 3 then w - 2 else 1]
    ensures w >= 3 ==> EdgeFixed(p, w, h)[0][x] == EdgeFixed(p, w, h)[1][x]
    ensures w >= 3 ==> EdgeFixed(p, w, h)[h - 1][x] == EdgeFixed(p, w, h)[if h >= 3 then h - 2 else 1][x]
    ensures w == 2 ==> EdgeFixed(p, w, h)[y][x] == p[y][1]
  {
    var e := EdgeFixed(p, w, h);
    var cl := if w >= 3 then w - 2 else 1;
    var rl := if h >= 3 then h - 2 else 1;
    assert e[y][0] == p[EdgeRow(w, h, y)][1] == e[y][1];
    assert e[y][w - 1] == p[EdgeRow(w, h, y)][cl] == e[y][cl];
    if w >= 3 {
      assert e[0][x] == p[1][EdgeColumn(w, x)] == e[1][x];
      assert e[h - 1][x] == p[rl][EdgeColumn(w, x)] == e[rl][x];
    }
  }

  /** Fixing the edges twice changes nothing more. */
  lemma EdgeFixedIdempotent(p: seq<seq<real>>, w: nat, h: nat)
    requires IsImage(p, w, h) && w >= 2 && h >= 2
    ensures EdgeFixed(EdgeFixed(p, w, h), w, h) == EdgeFixed(p, w, h)
  {
    var once := EdgeFixed(p, w, h);
    var twice := EdgeFixed(once, w, h);
    forall y | 0 <= y < h
      ensures twice[y] == once[y]
    {
    }
  }

  /** `Buffer.BlockCopy` of `count` samples of row `from`, starting at column
      `column`, onto row `to` of the same plane. */
  method CopyRowSegment(a: array2<real>, from: nat, to: nat, column: nat, count: nat)
    requires from < a.Length0 && to < a.Length0 && from != to && column + count <= a.Length1
    modifies a
    ensures forall y, x :: 0 <= y < a.Length0 && 0 <= x < a.Length1 ==>
      a[y, x] == if y == to && column <= x < column + count then old(a[from, x]) else old(a[y, x])
  {
    var i := 0;
    while i < count
      invariant i <= count
      invariant forall y, x :: 0 <= y < a.Length0 && 0 <= x < a.Length1 ==>
        a[y, x] == if y == to && column <= x < column + i then old(a[from, x]) else old(a[y, x])
    {
      a[to, column + i] := a[from, column + i];
      i := i + 1;
    }
  }

  /** The fix-up of one plane: row 1 onto row 0 and row `h - 2` onto row
      `h - 1` (columns 1 to `w - 2`), then in every row column 1 onto
      column 0 and column `w - 2` onto column `w - 1`. */
  method FixEdges(a: array2<real>)
    requires a.Length0 >= 2 && a.Length1 >= 2
    modifies a
    ensures Contents(a) == EdgeFixed(old(Contents(a)), a.Length1, a.Length0)
  {
    var width, height := a.Length1, a.Length0;
    ghost var p := Contents(a);
    CopyRowSegment(a, 1, 0, 1, width - 2);
    CopyRowSegment(a, height - 2, height - 1, 1, width - 2);
    ghost var m := Contents(a);
    CopyEdgeColumns(a);
    ghost var e := EdgeFixed(p, width, height);
    forall y | 0 <= y < height
      ensures Contents(a)[y] == e[y]
    {
      forall x | 0 <= x < width
        ensures Contents(a)[y][x] == e[y][x]
      {
        if width == 2 {
          assert m[y][1] == p[y][1];
        } else {
          assert m[y][EdgeColumn(width, x)] == p[EdgeRow(width, height, y)][EdgeColumn(width, x)];
        }
      }
    }
  }

  /** The loop of the fix-up: in every row, column 1 onto column 0, then
      column `w - 2` onto column `w - 1`. */
  method CopyEdgeColumns(a: array2<real>)
    requires a.Length1 >= 2
    modifies a
    ensures forall y, x :: 0 <= y < a.Length0 && 0 <= x < a.Length1 ==> a[y, x] == old(a[y, EdgeColumn(a.Length1, x)])
  {
    var width, height := a.Length1, a.Length0;
    var row := 0;
    while row < height
      invariant row <= height
      invariant forall y, x :: 0 <= y < height && 0 <= x < width ==>
        a[y, x] == if y < row then old(a[y, EdgeColumn(width, x)]) else old(a[y, x])
    {
      a[row, 0] := a[row, 1];
      a[row, width - 1] := a[row, width - 2];
      row := row + 1;
    }
  }

  /** The plane of colour `c` before rounding. */
  function Plane(img: seq<seq<nat>>, w: nat, h: nat, pattern: BayerPattern, c: Color): (r: seq<seq<real>>)
    requires IsImage(img, w, h) && w >= 2 && h >= 2
    ensures IsImage(r, w, h)
  {
    EdgeFixed(Correlate(Mask(img, w, h, pattern, c), w, h, Real, KernelFor(c), 3, Reflect101, 0), w, h)
  }

  /** What each kernel makes of a 3 x 3 window repeating the 2 x 2 block
      `q` from its corner: `KernelRB` adds the four phases up, `KernelG`
      takes the centre's phase, half of each of the horizontal and vertical
      neighbours' phases and nothing of the diagonal phase. */
  lemma KernelPhaseSums(q: (real, real, real, real))
    ensures PhaseSum(q, KernelRB, 3, 3) == q.0 + q.1 + q.2 + q.3
    ensures PhaseSum(q, KernelG, 3, 3) == 0.5 * q.1 + 0.5 * q.2 + q.3
  {
    PhaseSumOfThree(q, KernelRB);
    PhaseSumOfThree(q, KernelG);
  }

  /** Before the fix-up, the plane of a flat-colour mosaic holds that
      colour's value at every cell: each window covers a whole 2 x 2 block of
      the reflected mask, whose one (red, blue) or two (green) samples of the
      colour the kernel weighs to one in total. */
  lemma PhaseConstantCorrelation(img: seq<seq<nat>>, w: nat, h: nat, pattern: BayerPattern, v: ColorPlanes<nat>, c: Color, y: nat, x: nat)
    requires IsImage(img, w, h) && w >= 2 && h >= 2 && PhaseConstant(img, w, h, pattern, v) && y < h && x < w
    ensures Correlate(Mask(img, w, h, pattern, c), w, h, Real, KernelFor(c), 3, Reflect101, 0)[y][x] == Real(Pick(v, c))
  {
    MaskPhaseConstant(img, w, h, pattern, v, c);
    MaskCorrelation(Mask(img, w, h, pattern, c), w, h, pattern, v, c, y, x);
  }

  /** The same for any plane laid out like the mask of colour `c` of a
      flat-colour mosaic. */
  lemma MaskCorrelation(mask: seq<seq<nat>>, w: nat, h: nat, pattern: BayerPattern, v: ColorPlanes<nat>, c: Color, y: nat, x: nat)
    requires IsImage(mask, w, h) && w >= 2 && h >= 2 && PhaseConstant(mask, w, h, pattern, MaskValues(v, c)) && y < h && x < w
    ensures Correlate(mask, w, h, Real, KernelFor(c), 3, Reflect101, 0)[y][x] == Real(Pick(v, c))
  {
    var size, t := 3, 1;
    ReflectedCorrelation(mask, w, h, pattern, MaskValues(v, c), KernelFor(c), size, t, y, x);
    BlockWeighs(pattern, x + t, y + t, v, c);
  }

  /** Weighed by the phase weights of `KernelFor(c)`, the block of the mask
      of colour `c` comes to that colour's value. */
  lemma BlockWeighs(pattern: BayerPattern, x: nat, y: nat, v: ColorPlanes<nat>, c: Color)
    ensures PhaseSum(BlockValues(MaskValues(v, c), pattern, x, y), KernelFor(c), 3, 3) == Real(Pick(v, c))
  {
    var q := BlockValues(MaskValues(v, c), pattern, x, y);
    KernelPhaseSums(q);
    BlockColors(pattern, x, y, MaskValues(v, c));
  }

  /** A flat-colour mosaic (each colour one value, within the pixel type)
      comes back as three flat planes of those values. */
  lemma PhaseConstantMosaic(img: seq<seq<nat>>, w: nat, h: nat, pattern: BayerPattern, v: ColorPlanes<nat>, max: nat)
    requires IsImage(img, w, h) && w >= 2 && h >= 2 && PhaseConstant(img, w, h, pattern, v)
    requires v.r <= max && v.g <= max && v.b <= max
    ensures Channels(img, w, h, pattern, max) == Some(ColorPlanes(Uniform(w, h, v.r), Uniform(w, h, v.g), Uniform(w, h, v.b)))
  {
    forall c: Color
      ensures Converted(Plane(img, w, h, pattern, c), w, h, 0.5, max) == Some(Uniform(w, h, Pick(v, c)))
    {
      var corr := Correlate(Mask(img, w, h, pattern, c), w, h, Real, KernelFor(c), 3, Reflect101, 0);
      forall y, x | 0 <= y < h && 0 <= x < w
        ensures Plane(img, w, h, pattern, c)[y][x] == Pick(v, c) as real
      {
        PhaseConstantCorrelation(img, w, h, pattern, v, c, EdgeRow(w, h, y), EdgeColumn(w, x));
      }
      ConvertedUniform(Plane(img, w, h, pattern, c), w, h, 0.5, Pick(v, c), max);
    }
  }

  /** What `GetChannels_OpenCV` returns; `None` when a rounded sample does
      not fit the pixel type (the checked conversion throws). */
  function Channels(img: seq<seq<nat>>, w: nat, h: nat, pattern: BayerPattern, max: nat): Option<ColorPlanes<seq<seq<nat>>>>
    requires IsImage(img, w, h) && w >= 2 && h >= 2
  {
    var r := Converted(Plane(img, w, h, pattern, Red), w, h, 0.5, max);
    var g := Converted(Plane(img, w, h, pattern, Green), w, h, 0.5, max);
    var b := Converted(Plane(img, w, h, pattern, Blue), w, h, 0.5, max);
    if r.Some? && g.Some? && b.Some? then Some(ColorPlanes(r.value, g.value, b.value)) else None
  }

  /** `GetChannels_OpenCV`. The three planes go through the same steps, so
      each is convolved, fixed up and rounded in turn. */
  method GetChannels(raw: array2<nat>, pattern: BayerPattern, max: nat) returns (result: Option<ColorPlanes<array2<nat>>>)
    requires raw.Length0 >= 2 && raw.Length1 >= 2
    ensures result.Some? <==> Channels(Contents(raw), raw.Length1, raw.Length0, pattern, max).Some?
    ensures result.Some? ==>
      var planes := Channels(Contents(raw), raw.Length1, raw.Length0, pattern, max).value;
      Contents(result.value.r) == planes.r && Contents(result.value.g) == planes.g && Contents(result.value.b) == planes.b
  {
    var channelR, channelG, channelB := Split(raw, pattern);
    var r := ConvolveAndRound(raw, channelR, pattern, Red, max);
    var g := ConvolveAndRound(raw, channelG, pattern, Green, max);
    var b := ConvolveAndRound(raw, channelB, pattern, Blue, max);
    if r.None? || g.None? || b.None? {
      return None;
    }
    result := Some(ColorPlanes(r.value, g.value, b.value));
  }

  /** One plane's share of `GetChannels_OpenCV`: convolve with a reflected
      border, fix up the edges, round. */
  method ConvolveAndRound(raw: array2<nat>, channel: array2<nat>, pattern: BayerPattern, c: Color, max: nat)
    returns (result: Option<array2<nat>>)
    requires raw.Length0 >= 2 && raw.Length1 >= 2
    requires channel.Length0 == raw.Length0 && channel.Length1 == raw.Length1
    requires Contents(channel) == Mask(Contents(raw), raw.Length1, raw.Length0, pattern, c)
    ensures result.Some? <==> Converted(Plane(Contents(raw), raw.Length1, raw.Length0, pattern, c), raw.Length1, raw.Length0, 0.5, max).Some?
    ensures result.Some? ==> Contents(result.value) == Converted(Plane(Contents(raw), raw.Length1, raw.Length0, pattern, c), raw.Length1, raw.Length0, 0.5, max).value
  {
    var plane := Convolve(channel, Real, KernelFor(c), 3, Reflect101, 0);
    FixEdges(plane);
    result := RoundAndConvert(plane, max);
  }
}
