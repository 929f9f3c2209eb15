/** The public demosaic entry points: `BayerToBgr32` (8-bit mosaic to a
    32-bit BGRA buffer) and `BayerToRgb48` (16-bit mosaic to a 48-bit RGB
    buffer), each choosing one of the four methods by `DemosaicMethod`.

    The planes are row-major `width * height` buffers; `Flat` is that
    layout, and `Merge` interleaves the flat planes pixel by pixel. */
module Demosaic {
  import opened Options
  import opened Grid
  import opened Border
  import opened Buffers
  import opened Convert
  import opened Bayer
  import OpenCVDemosaic
  import ImatestDemosaic
  import MATLABDemosaic
  import LabVIEWDemosaic

  /** The sizes each method handles: at least one sample each way, two for
      the methods that add a one-cell reflected border, three for the
      two-cell border of the MATLAB method. */
  predicate SizeSupported(demosaic: DemosaicMethod, w: nat, h: nat) {
    match demosaic
    case OpenCV => w >= 2 && h >= 2
    case Imatest => w >= 1 && h >= 1
    case MATLAB => w >= 3 && h >= 3
    case LabVIEW => w >= 2 && h >= 2
  }

  /** The planes the chosen method returns; `None` when its checked
      conversion back to pixels throws. */
  function Channels(img: seq<seq<nat>>, w: nat, h: nat, pattern: BayerPattern, demosaic: DemosaicMethod, max: nat)
    : (r: Option<ColorPlanes<seq<seq<nat>>>>)
    requires IsImage(img, w, h) && SizeSupported(demosaic, w, h)
    ensures r.Some? ==> IsImage(r.value.r, w, h) && IsImage(r.value.g, w, h) && IsImage(r.value.b, w, h)
  {
    match demosaic
    case OpenCV => OpenCVDemosaic.Channels(img, w, h, pattern, max)
    case Imatest => ImatestDemosaic.Channels(img, w, h, pattern, max)
    case MATLAB => MATLABDemosaic.Channels(img, w, h, pattern, max)
    case LabVIEW => LabVIEWDemosaic.Channels(img, w, h, pattern, max)
  }

  /** The `method switch` of both dispatchers. */
  method GetChannels(raw: array2<nat>, pattern: BayerPattern, demosaic: DemosaicMethod, max: nat)
    returns (result: Option<ColorPlanes<array2<nat>>>)
    requires SizeSupported(demosaic, raw.Length1, raw.Length0)
    ensures result.Some? <==> Channels(Contents(raw), raw.Length1, raw.Length0, pattern, demosaic, max).Some?
    ensures result.Some? ==>
      var planes := Channels(Contents(raw), raw.Length1, raw.Length0, pattern, demosaic, max).value;
      Contents(result.value.r) == planes.r && Contents(result.value.g) == planes.g && Contents(result.value.b) == planes.b
  {
    match demosaic
    case OpenCV => result := OpenCVDemosaic.GetChannels(raw, pattern, max);
    case Imatest => result := ImatestDemosaic.GetChannels(raw, pattern, max);
    case MATLAB => result := MATLABDemosaic.GetChannels(raw, pattern, max);
    case LabVIEW => result := LabVIEWDemosaic.GetChannels(raw, pattern, max);
  }

  // ---------------------------------------------------------------------
  // The row-major layout.
  // ---------------------------------------------------------------------

  /** The rows of an image one after another. */
  function Flat<T>(img: seq<seq<T>>, w: nat, h: nat): (r: seq<T>)
    requires IsImage(img, w, h)
    ensures |r| == w * h
  {
    if h == 0 then []
    else
      MulSucc(h - 1, w);
      Flat(img[..h - 1], w, h - 1) + img[h - 1]
  }

  /** Sample (y, x) sits at `y * w + x` of the flat buffer. */
  lemma {:induction false} FlatAt<T>(img: seq<seq<T>>, w: nat, h: nat, y: nat, x: nat)
    requires IsImage(img, w, h) && y < h && x < w
    ensures y * w + x < w * h
    ensures Flat(img, w, h)[y * w + x] == img[y][x]
  {
    MulSucc(h - 1, w);
    var prefix := img[..h - 1];
    assert |Flat(prefix, w, h - 1)| == (h - 1) * w;
    if y < h - 1 {
      FlatAt(prefix, w, h - 1, y, x);
      MulMono(y + 1, h - 1, w);
      MulSucc(y, w);
    } else {
      assert y * w + x == (h - 1) * w + x;
    }
  }

  // ---------------------------------------------------------------------
  // BayerToBgr32
  // ---------------------------------------------------------------------

  /** The BGRA buffer of three planes: blue, green, red and an opaque alpha
      sample per pixel. */
  function Bgr32(planes: ColorPlanes<seq<seq<nat>>>, w: nat, h: nat): (r: seq<nat>)
    requires IsImage(planes.r, w, h) && IsImage(planes.g, w, h) && IsImage(planes.b, w, h)
    ensures |r| == w * h * 4
  {
    Merged(WithFilling([Flat(planes.b, w, h), Flat(planes.g, w, h), Flat(planes.r, w, h)], ByteMax))
  }

  /** Pixel (y, x) of the BGRA buffer: four bytes from `4 * (y * w + x)`. */
  lemma Bgr32Layout(planes: ColorPlanes<seq<seq<nat>>>, w: nat, h: nat, y: nat, x: nat)
    requires IsImage(planes.r, w, h) && IsImage(planes.g, w, h) && IsImage(planes.b, w, h)
    requires y < h && x < w
    ensures var i := 4 * (y * w + x);
      i + 3 < |Bgr32(planes, w, h)| &&
      Bgr32(planes, w, h)[i] == planes.b[y][x] && Bgr32(planes, w, h)[i + 1] == planes.g[y][x] &&
      Bgr32(planes, w, h)[i + 2] == planes.r[y][x] && Bgr32(planes, w, h)[i + 3] == ByteMax
  {
    var channels := WithFilling([Flat(planes.b, w, h), Flat(planes.g, w, h), Flat(planes.r, w, h)], ByteMax);
    var p := y * w + x;
    FlatAt(planes.b, w, h, y, x);
    FlatAt(planes.g, w, h, y, x);
    FlatAt(planes.r, w, h, y, x);
    assert p * 4 == 4 * p;
    MergedAt(channels, p, 0);
    MergedAt(channels, p, 1);
    MergedAt(channels, p, 2);
    MergedAt(channels, p, 3);
  }

  /** `Merge(byte.MaxValue, channelB, channelG, channelR)` over the flat
      planes. */
  method MergeBgr32(planes: ColorPlanes<seq<seq<nat>>>, w: nat, h: nat) returns (result: array<nat>)
    requires IsImage(planes.r, w, h) && IsImage(planes.g, w, h) && IsImage(planes.b, w, h)
    ensures fresh(result) && result[..] == Bgr32(planes, w, h)
  {
    result := MergeWithFilling(ByteMax, [Flat(planes.b, w, h), Flat(planes.g, w, h), Flat(planes.r, w, h)]);
  }

  /** `BayerToBgr32_Dispatch`: the chosen method's planes, merged as blue,
      green, red with an alpha of 255. */
  method BayerToBgr32Dispatch(raw: array2<nat>, pattern: BayerPattern, demosaic: DemosaicMethod)
    returns (result: Option<array<nat>>)
    requires SizeSupported(demosaic, raw.Length1, raw.Length0)
    ensures result.Some? <==> Channels(Contents(raw), raw.Length1, raw.Length0, pattern, demosaic, ByteMax).Some?
    ensures result.Some? ==>
      fresh(result.value) &&
      result.value[..] == Bgr32(Channels(Contents(raw), raw.Length1, raw.Length0, pattern, demosaic, ByteMax).value, raw.Length1, raw.Length0)
  {
    var width, height := raw.Length1, raw.Length0;
    var planes := GetChannels(raw, pattern, demosaic, ByteMax);
    if planes.None? {
      return None;
    }
    var p := planes.value;
    var merged := MergeBgr32(ColorPlanes(Contents(p.r), Contents(p.g), Contents(p.b)), width, height);
    result := Some(merged);
  }

  /** `BayerToBgr32`: an 8-bit mosaic of at least one sample each way (the
      size the chosen method needs) to a BGRA buffer. */
  method BayerToBgr32(raw: array2<nat>, pattern: BayerPattern, demosaic: DemosaicMethod)
    returns (result: Option<array<nat>>)
    requires raw.Length1 > 0 && raw.Length0 > 0 && SizeSupported(demosaic, raw.Length1, raw.Length0)
    requires forall y, x :: 0 <= y < raw.Length0 && 0 <= x < raw.Length1 ==> raw[y, x] <= ByteMax
    ensures result.Some? <==> Channels(Contents(raw), raw.Length1, raw.Length0, pattern, demosaic, ByteMax).Some?
    ensures result.Some? ==>
      fresh(result.value) &&
      result.value[..] == Bgr32(Channels(Contents(raw), raw.Length1, raw.Length0, pattern, demosaic, ByteMax).value, raw.Length1, raw.Length0)
  {
    result := BayerToBgr32Dispatch(raw, pattern, demosaic);
  }

  // ---------------------------------------------------------------------
  // BayerToRgb48
  // ---------------------------------------------------------------------

  /** `buf[i] <<= 6` on a `ushort`: the sample times 64, wrapped to 16 bits. */
  function Shifted(v: nat): (r: nat)
    ensures r <= UShortMax
  {
    (v * 64) % 65536
  }

  /** The shift keeps the low ten bits of a sample and moves them to the top
      of the 16-bit range; a sample below 1024 (a 10-bit sensor) loses
      nothing, and shifting back recovers it. */
  lemma ShiftKeepsTenBits(v: nat)
    ensures Shifted(v) == (v % 1024) * 64
    ensures Shifted(v) / 64 == v % 1024 && Shifted(v) % 64 == 0
    ensures v < 1024 ==> Shifted(v) == v * 64
  {
    var q, r := v / 1024, v % 1024;
    assert v * 64 == q * 65536 + r * 64;
    DivModUnique(v * 64, 65536, q, r * 64);
    DivModUnique(r * 64, 64, r, 0);
  }

  /** The mosaic after the shift loop. */
  function ShiftedImage(img: seq<seq<nat>>, w: nat, h: nat): (r: seq<seq<nat>>)
    requires IsImage(img, w, h)
    ensures IsImage(r, w, h)
  {
    seq(h, y requires 0 <= y < h => seq(w, x requires 0 <= x < w => Shifted(img[y][x])))
  }

  /** `raw.Clone()` followed by the loop `buf[i] <<= 6`. */
  method ShiftSamples(raw: array2<nat>) returns (buf: array2<nat>)
    ensures fresh(buf) && buf.Length0 == raw.Length0 && buf.Length1 == raw.Length1
    ensures Contents(buf) == ShiftedImage(Contents(raw), raw.Length1, raw.Length0)
  {
    var width, height := raw.Length1, raw.Length0;
    buf := new nat[height, width]((y, x) requires 0 <= y < height && 0 <= x < width reads raw => raw[y, x]);
    var y := 0;
    while y < height
      invariant y <= height
      invariant forall Y, X :: 0 <= Y < height && 0 <= X < width ==>
        buf[Y, X] == if Y < y then Shifted(raw[Y, X]) else raw[Y, X]
    {
      var x := 0;
      while x < width
        invariant x <= width
        invariant forall Y, X :: 0 <= Y < height && 0 <= X < width ==>
          buf[Y, X] == if Y < y || (Y == y && X < x) then Shifted(raw[Y, X]) else raw[Y, X]
      {
        buf[y, x] := Shifted(buf[y, x]);
        x := x + 1;
      }
      y := y + 1;
    }
    ghost var s := ShiftedImage(Contents(raw), width, height);
    forall Y | 0 <= Y < height
      ensures Contents(buf)[Y] == s[Y]
    {
    }
  }

  /** The RGB buffer of three planes: red, green, blue per pixel. */
  function Rgb48(planes: ColorPlanes<seq<seq<nat>>>, w: nat, h: nat): (r: seq<nat>)
    requires IsImage(planes.r, w, h) && IsImage(planes.g, w, h) && IsImage(planes.b, w, h)
    ensures |r| == w * h * 3
  {
    Merged([Flat(planes.r, w, h), Flat(planes.g, w, h), Flat(planes.b, w, h)])
  }

  /** Pixel (y, x) of the RGB buffer: three samples from `3 * (y * w + x)`. */
  lemma Rgb48Layout(planes: ColorPlanes<seq<seq<nat>>>, w: nat, h: nat, y: nat, x: nat)
    requires IsImage(planes.r, w, h) && IsImage(planes.g, w, h) && IsImage(planes.b, w, h)
    requires y < h && x < w
    ensures var i := 3 * (y * w + x);
      i + 2 < |Rgb48(planes, w, h)| &&
      Rgb48(planes, w, h)[i] == planes.r[y][x] && Rgb48(planes, w, h)[i + 1] == planes.g[y][x] &&
      Rgb48(planes, w, h)[i + 2] == planes.b[y][x]
  {
    var channels := [Flat(planes.r, w, h), Flat(planes.g, w, h), Flat(planes.b, w, h)];
    var p := y * w + x;
    FlatAt(planes.r, w, h, y, x);
    FlatAt(planes.g, w, h, y, x);
    FlatAt(planes.b, w, h, y, x);
    assert p * 3 == 3 * p;
    MergedAt(channels, p, 0);
    MergedAt(channels, p, 1);
    MergedAt(channels, p, 2);
  }

  /** `Merge(channelR, channelG, channelB)` over the flat planes. */
  method MergeRgb48(planes: ColorPlanes<seq<seq<nat>>>, w: nat, h: nat) returns (result: array<nat>)
    requires IsImage(planes.r, w, h) && IsImage(planes.g, w, h) && IsImage(planes.b, w, h)
    ensures fresh(result) && result[..] == Rgb48(planes, w, h)
  {
    result := Merge([Flat(planes.r, w, h), Flat(planes.g, w, h), Flat(planes.b, w, h)]);
  }

  /** `BayerToRgb48_Dispatch`: the chosen method's planes, merged as red,
      green, blue. */
  method BayerToRgb48Dispatch(raw: array2<nat>, pattern: BayerPattern, demosaic: DemosaicMethod)
    returns (result: Option<array<nat>>)
    requires SizeSupported(demosaic, raw.Length1, raw.Length0)
    ensures result.Some? <==> Channels(Contents(raw), raw.Length1, raw.Length0, pattern, demosaic, UShortMax).Some?
    ensures result.Some? ==>
      fresh(result.value) &&
      result.value[..] == Rgb48(Channels(Contents(raw), raw.Length1, raw.Length0, pattern, demosaic, UShortMax).value, raw.Length1, raw.Length0)
  {
    var width, height := raw.Length1, raw.Length0;
    var planes := GetChannels(raw, pattern, demosaic, UShortMax);
    if planes.None? {
      return None;
    }
    var p := planes.value;
    var merged := MergeRgb48(ColorPlanes(Contents(p.r), Contents(p.g), Contents(p.b)), width, height);
    result := Some(merged);
  }

  /** `BayerToRgb48`: a 16-bit mosaic, shifted left by six bits, to an RGB
      buffer. */
  method BayerToRgb48(raw: array2<nat>, pattern: BayerPattern, demosaic: DemosaicMethod)
    returns (result: Option<array<nat>>)
    requires raw.Length1 > 0 && raw.Length0 > 0 && SizeSupported(demosaic, raw.Length1, raw.Length0)
    requires forall y, x :: 0 <= y < raw.Length0 && 0 <= x < raw.Length1 ==> raw[y, x] <= UShortMax
    ensures var shifted := ShiftedImage(Contents(raw), raw.Length1, raw.Length0);
      (result.Some? <==> Channels(shifted, raw.Length1, raw.Length0, pattern, demosaic, UShortMax).Some?) &&
      (result.Some? ==>
        fresh(result.value) &&
        result.value[..] == Rgb48(Channels(shifted, raw.Length1, raw.Length0, pattern, demosaic, UShortMax).value, raw.Length1, raw.Length0))
  {
    var buf := ShiftSamples(raw);
    result := BayerToRgb48Dispatch(buf, pattern, demosaic);
  }
}
