/** `GetChannels_Imatest`: bilinear demosaic with an isolated border (samples
    outside the image count as zero). Red and blue take two passes: the
    diagonal pass fills the cells of the other diagonal colour, then a cross
    pass over that result is added back to fill the green cells. */
module ImatestDemosaic {
  import opened Options
  import opened BorderTypes
  import opened Border
  import opened Convolution
  import opened Buffers
  import opened Convert
  import opened Bayer

  /** First pass for red and blue: the sample itself or the average of the
      four diagonal neighbours. */
  const KernelRB: seq<seq<real>> := [[0.25, 0.0, 0.25], [0.0, 1.0, 0.0], [0.25, 0.0, 0.25]]

  /** Green: the sample itself or the average of the four nearest. */
  const KernelG: seq<seq<real>> := [[0.0, 0.25, 0.0], [0.25, 1.0, 0.25], [0.0, 0.25, 0.0]]

  /** Second pass for red and blue: the average of the four nearest cells of
      the first pass, without the centre. */
  const KernelCross: seq<seq<real>> := [[0.0, 0.25, 0.0], [0.25, 0.0, 0.25], [0.0, 0.25, 0.0]]

  function Identity(v: real): real {
    v
  }

  /** The first pass over the plane of colour `c`. */
  function FirstPass(img: seq<seq<nat>>, w: nat, h: nat, pattern: BayerPattern, c: Color): (r: seq<seq<real>>)
    requires IsImage(img, w, h)
    ensures IsImage(r, w, h)
  {
    Correlate(Mask(img, w, h, pattern, c), w, h, Real, if c == Green then KernelG else KernelRB, 3, Isolated, 0)
  }

  /** Red or blue after both passes: the cross pass over the first pass,
      plus the first pass. */
  function SecondPass(first: seq<seq<real>>, w: nat, h: nat): (r: seq<seq<real>>)
    requires IsImage(first, w, h)
    ensures IsImage(r, w, h)
  {
    Sum(Correlate(first, w, h, Identity, KernelCross, 3, Isolated, 0.0), first, w, h)
  }

  /** The plane of colour `c` before rounding. */
  function Plane(img: seq<seq<nat>>, w: nat, h: nat, pattern: BayerPattern, c: Color): (r: seq<seq<real>>)
    requires IsImage(img, w, h)
    ensures IsImage(r, w, h)
  {
    var first := FirstPass(img, w, h, pattern, c);
    if c == Green then first else SecondPass(first, w, h)
  }

  /** What `GetChannels_Imatest` returns; `None` when a rounded sample does
      not fit the pixel type. */
  function Channels(img: seq<seq<nat>>, w: nat, h: nat, pattern: BayerPattern, max: nat): Option<ColorPlanes<seq<seq<nat>>>>
    requires IsImage(img, w, h)
  {
    var r := Converted(Plane(img, w, h, pattern, Red), w, h, 0.5, max);
    var g := Converted(Plane(img, w, h, pattern, Green), w, h, 0.5, max);
    var b := Converted(Plane(img, w, h, pattern, Blue), w, h, 0.5, max);
    if r.Some? && g.Some? && b.Some? then Some(ColorPlanes(r.value, g.value, b.value)) else None
  }

  /** Adding the first pass to the cross pass is one pass with the summed
      kernel: the second pass is linear in the first. */
  lemma SecondPassIsOneKernel(first: seq<seq<real>>, w: nat, h: nat, y: nat, x: nat)
    requires IsImage(first, w, h) && y < h && x < w
    ensures SecondPass(first, w, h)[y][x] ==
      Correlate(first, w, h, Identity, KernelSum(KernelCross, Impulse(3, 3, 1, 1), 3, 3), 3, Isolated, 0.0)[y][x]
  {
    var cross := Correlate(first, w, h, Identity, KernelCross, 3, Isolated, 0.0);
    CorrelateLinear(first, w, h, Identity, KernelCross, Impulse(3, 3, 1, 1), 3, Isolated, 0.0, y, x);
    CorrelateImpulseAt(first, w, h, Identity, 3, Isolated, 0.0, y, x);
    assert SecondPass(first, w, h)[y][x] == cross[y][x] + first[y][x];
  }

  /** `KernelG` at a window: the centre plus a quarter of each of its four
      nearest cells. */
  lemma GreenWindow(src: seq<seq<nat>>, y: nat, x: nat)
    requires Covers(src, 3, y, x, 3)
    ensures Window(src, Real, KernelG, 3, 3, y, x) ==
      Real(src[y + 1][x + 1]) + 0.25 * (Real(src[y][x + 1]) + Real(src[y + 1][x]) + Real(src[y + 1][x + 2]) + Real(src[y + 2][x + 1]))
  {
    forall ky | 0 <= ky < 3
      ensures RowDot(src, Real, KernelG, y, x, ky, 3) ==
        KernelG[ky][0] * Real(src[y + ky][x]) + KernelG[ky][1] * Real(src[y + ky][x + 1]) + KernelG[ky][2] * Real(src[y + ky][x + 2])
    {
      assert RowDot(src, Real, KernelG, y, x, ky, 1) == KernelG[ky][0] * Real(src[y + ky][x]);
    }
    assert WindowSum(src, Real, KernelG, 3, y, x, 1) == RowDot(src, Real, KernelG, y, x, 0, 3);
    assert WindowSum(src, Real, KernelG, 3, y, x, 3) ==
      RowDot(src, Real, KernelG, y, x, 0, 3) + RowDot(src, Real, KernelG, y, x, 1, 3) + RowDot(src, Real, KernelG, y, x, 2, 3);
  }

  /** On an RGGB flat-colour mosaic the green estimate at the red corner
      sample sees two green neighbours inside the image and two zeros of
      the isolated border. */
  lemma GreenCorner(img: seq<seq<nat>>, w: nat, h: nat, v: ColorPlanes<nat>)
    requires IsImage(img, w, h) && w >= 2 && h >= 2 && PhaseConstant(img, w, h, RGGB, v)
    ensures Plane(img, w, h, RGGB, Green)[0][0] == 0.5 * Real(v.g)
  {
    var m := Mask(img, w, h, RGGB, Green);
    var e := Extended(m, w, h, 1, Isolated, 0, 0);
    IsolatedMargin(m, w, h, 1, 0, 0, 1, 0);
    IsolatedMargin(m, w, h, 1, 0, 0, 0, 1);
    assert e[1][1] == m[0][0] == 0;
    assert e[1][2] == m[0][1] == v.g;
    assert e[2][1] == m[1][0] == v.g;
    GreenWindow(e, 0, 0);
  }

  /** The isolated border counts the samples outside the image as zero, so
      a flat-colour mosaic does not come back flat: on an RGGB mosaic the
      green estimate at the red corner sample is half the green value, and
      rounds to half of it. */
  lemma IsolatedCornerGreen(img: seq<seq<nat>>, w: nat, h: nat, v: ColorPlanes<nat>, max: nat)
    requires IsImage(img, w, h) && w >= 2 && h >= 2 && PhaseConstant(img, w, h, RGGB, v)
    ensures Channels(img, w, h, RGGB, max).Some? ==> Channels(img, w, h, RGGB, max).value.g[0][0] == (v.g + 1) / 2
    ensures v.g >= 2 ==> Channels(img, w, h, RGGB, max) != Some(ColorPlanes(Uniform(w, h, v.r), Uniform(w, h, v.g), Uniform(w, h, v.b)))
  {
    var p := Plane(img, w, h, RGGB, Green);
    GreenCorner(img, w, h, v);
    var g := Converted(p, w, h, 0.5, max);
    if g.Some? {
      assert CreateChecked(p[0][0] + 0.5, max) == Some(g.value[0][0]);
      assert (0.5 * Real(v.g) + 0.5).Floor == (v.g + 1) / 2;
    }
  }

  /** `GetChannels_Imatest`. The planes are independent, so each is taken
      through its passes and rounded in turn. */
  method GetChannels(raw: array2<nat>, pattern: BayerPattern, max: nat) returns (result: Option<ColorPlanes<array2<nat>>>)
    ensures result.Some? <==> Channels(Contents(raw), raw.Length1, raw.Length0, pattern, max).Some?
    ensures result.Some? ==>
      var planes := Channels(Contents(raw), raw.Length1, raw.Length0, pattern, max).value;
      Contents(result.value.r) == planes.r && Contents(result.value.g) == planes.g && Contents(result.value.b) == planes.b
  {
    var channelR, channelG, channelB := Split(raw, pattern);
    var r := PlaneAndRound(raw, channelR, pattern, Red, max);
    var g := PlaneAndRound(raw, channelG, pattern, Green, max);
    var b := PlaneAndRound(raw, channelB, pattern, Blue, max);
    if r.None? || g.None? || b.None? {
      return None;
    }
    result := Some(ColorPlanes(r.value, g.value, b.value));
  }

  /** One plane's share of `GetChannels_Imatest`: the first pass, for red
      and blue the second pass, then rounding. */
  method PlaneAndRound(raw: array2<nat>, channel: array2<nat>, pattern: BayerPattern, c: Color, max: nat)
    returns (result: Option<array2<nat>>)
    requires channel.Length0 == raw.Length0 && channel.Length1 == raw.Length1
    requires Contents(channel) == Mask(Contents(raw), raw.Length1, raw.Length0, pattern, c)
    ensures result.Some? <==> Converted(Plane(Contents(raw), raw.Length1, raw.Length0, pattern, c), raw.Length1, raw.Length0, 0.5, max).Some?
    ensures result.Some? ==> Contents(result.value) == Converted(Plane(Contents(raw), raw.Length1, raw.Length0, pattern, c), raw.Length1, raw.Length0, 0.5, max).value
  {
    var plane := Convolve(channel, Real, if c == Green then KernelG else KernelRB, 3, Isolated, 0);
    if c != Green {
      plane := CrossPass(plane);
    }
    result := RoundAndConvert(plane, max);
  }

  /** `Convolve(first, ..., kernel, 3, Isolated)` followed by
      `AddInPlace(second, first)`. */
  method CrossPass(first: array2<real>) returns (second: array2<real>)
    ensures fresh(second) && second.Length0 == first.Length0 && second.Length1 == first.Length1
    ensures Contents(second) == SecondPass(Contents(first), first.Length1, first.Length0)
  {
    second := Convolve(first, Identity, KernelCross, 3, Isolated, 0.0);
    second := AddInPlace(second, first);
  }
}
