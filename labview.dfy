/** `GetChannels_LabVIEW`: the bilinear planes of the OpenCV method (same
    kernels, reflected border, no edge fix-up), converted back to pixels with
    a per-column rounding schedule: the first and last columns are truncated,
    the second column rounds red and blue only on rows where it holds a green
    sample (and never rounds green), and all other columns round. */
module LabVIEWDemosaic {
  import opened Options
  import opened BorderTypes
  import opened Border
  import opened Convolution
  import opened Convert
  import opened Bayer
  import OpenCVDemosaic

  /** The bilinear plane of colour `c` before conversion. */
  function Plane(img: seq<seq<nat>>, w: nat, h: nat, pattern: BayerPattern, c: Color): (r: seq<seq<real>>)
    requires IsImage(img, w, h) && w >= 2 && h >= 2
    ensures IsImage(r, w, h)
  {
    Correlate(Mask(img, w, h, pattern, c), w, h, Real, OpenCVDemosaic.KernelFor(c), 3, Reflect101, 0)
  }

  /** The value the `isG` flag starts with, before it is toggled for row 0. */
  function InitialIsG(pattern: BayerPattern): bool {
    pattern == GBRG || pattern == GRBG
  }

  /** The flag once toggled for row `y`: toggled `y + 1` times. */
  function IsGAfter(pattern: BayerPattern, y: nat): bool
    decreases y
  {
    if y == 0 then !InitialIsG(pattern) else !IsGAfter(pattern, y - 1)
  }

  /** The toggled flag says whether column 1 of row `y` is green. */
  lemma {:induction false} IsGreenToggle(pattern: BayerPattern, y: nat)
    ensures IsGAfter(pattern, y) <==> ColorAt(pattern, 1, y) == Green
  {
    if y > 0 {
      IsGreenToggle(pattern, y - 1);
      assert (y - 1) % 2 == 1 - y % 2;
    }
  }

  /** What is added before converting cell (x, y) of the plane of colour
      `c`. */
  function Bias(pattern: BayerPattern, c: Color, w: nat, x: nat, y: nat): real {
    if x == 1 then SecondColumnBias(pattern, c, y)
    else if x == 0 || x == w - 1 then 0.0
    else 0.5
  }

  /** Column 1 rounds red and blue on the rows where the toggled flag is
      set, which are the rows where it holds a green sample
      (`IsGreenToggle`), and never rounds green. */
  function SecondColumnBias(pattern: BayerPattern, c: Color, y: nat): real {
    RowBias(c, IsGAfter(pattern, y))
  }

  /** The bias of column 1 on a row where the flag is `isG`. */
  function RowBias(c: Color, isG: bool): real {
    if isG && c != Green then 0.5 else 0.0
  }

  /** Every conversion of the first loop succeeds: columns 0 and `w - 1`,
      truncated. */
  predicate OuterConverts(p: seq<seq<real>>, w: nat, h: nat, max: nat)
    requires IsImage(p, w, h)
  {
    forall y, x :: 0 <= y < h && 0 <= x < w && (x == 0 || x == w - 1) ==> CreateChecked(p[y][x], max).Some?
  }

  /** Every conversion of the second loop succeeds: column 1. */
  predicate SecondConverts(p: seq<seq<real>>, w: nat, h: nat, pattern: BayerPattern, c: Color, max: nat)
    requires IsImage(p, w, h) && w >= 2
  {
    forall y :: 0 <= y < h ==> CreateChecked(p[y][1] + SecondColumnBias(pattern, c, y), max).Some?
  }

  /** Every conversion of the third loop succeeds: columns 2 to `w - 2`,
      rounded. */
  predicate InnerConverts(p: seq<seq<real>>, w: nat, h: nat, max: nat)
    requires IsImage(p, w, h)
  {
    forall y, x :: 0 <= y < h && 2 <= x < w - 1 ==> CreateChecked(p[y][x] + 0.5, max).Some?
  }

  /** The conversion of one plane: `None` when any conversion made throws.
      On a plane two columns wide column 1 is also the last column, so it is
      converted twice, truncated and then by the second-column rule, and the
      second conversion is kept. */
  function Rounded(p: seq<seq<real>>, w: nat, h: nat, pattern: BayerPattern, c: Color, max: nat): (r: Option<seq<seq<nat>>>)
    requires IsImage(p, w, h) && w >= 2
    ensures r.Some? ==> IsImage(r.value, w, h)
  {
    if OuterConverts(p, w, h, max) && SecondConverts(p, w, h, pattern, c, max) && InnerConverts(p, w, h, max) then
      Some(seq(h, y requires 0 <= y < h => seq(w, x requires 0 <= x < w =>
        RoundedCell(p, w, h, pattern, c, max, y, x))))
    else
      None
  }

  /** One cell of a plane whose loops all succeed. */
  function RoundedCell(p: seq<seq<real>>, w: nat, h: nat, pattern: BayerPattern, c: Color, max: nat, y: nat, x: nat): (n: nat)
    requires IsImage(p, w, h) && w >= 2 && y < h && x < w
    requires OuterConverts(p, w, h, max) && SecondConverts(p, w, h, pattern, c, max) && InnerConverts(p, w, h, max)
    ensures CreateChecked(p[y][x] + Bias(pattern, c, w, x, y), max) == Some(n)
  {
    if x == 1 then
      CreateChecked(p[y][1] + SecondColumnBias(pattern, c, y), max).value
    else if x == 0 || x == w - 1 then
      assert p[y][x] + 0.0 == p[y][x];
      CreateChecked(p[y][x], max).value
    else
      CreateChecked(p[y][x] + 0.5, max).value
  }

  /** The schedule converts a plane exactly when every cell converts with its
      bias and every last-column cell also converts unbiased, and each cell
      is then the conversion with its bias. */
  lemma RoundedCells(p: seq<seq<real>>, w: nat, h: nat, pattern: BayerPattern, c: Color, max: nat)
    requires IsImage(p, w, h) && w >= 2
    ensures Rounded(p, w, h, pattern, c, max).Some? <==> EveryCellConverts(p, w, h, pattern, c, max)
    ensures Rounded(p, w, h, pattern, c, max).Some? ==> forall y, x :: 0 <= y < h && 0 <= x < w ==>
      CreateChecked(p[y][x] + Bias(pattern, c, w, x, y), max) == Some(Rounded(p, w, h, pattern, c, max).value[y][x])
  {
    if EveryCellConverts(p, w, h, pattern, c, max) {
      LoopsConvert(p, w, h, pattern, c, max);
    }
    if Rounded(p, w, h, pattern, c, max).Some? {
      CellsConvert(p, w, h, pattern, c, max);
    }
  }

  /** Every cell converts with its bias, and every last-column cell also
      converts unbiased. */
  predicate EveryCellConverts(p: seq<seq<real>>, w: nat, h: nat, pattern: BayerPattern, c: Color, max: nat)
    requires IsImage(p, w, h) && w >= 1
  {
    (forall y, x :: 0 <= y < h && 0 <= x < w ==> CreateChecked(p[y][x] + Bias(pattern, c, w, x, y), max).Some?) &&
    (forall y :: 0 <= y < h ==> CreateChecked(p[y][w - 1], max).Some?)
  }

  /** When every cell converts, so does every conversion of the three
      loops. */
  lemma LoopsConvert(p: seq<seq<real>>, w: nat, h: nat, pattern: BayerPattern, c: Color, max: nat)
    requires IsImage(p, w, h) && w >= 2 && EveryCellConverts(p, w, h, pattern, c, max)
    ensures OuterConverts(p, w, h, max) && SecondConverts(p, w, h, pattern, c, max) && InnerConverts(p, w, h, max)
  {
    forall y, x | 0 <= y < h && 0 <= x < w && (x == 0 || x == w - 1)
      ensures CreateChecked(p[y][x], max).Some?
    {
      if x == 0 && x != w - 1 {
        assert CreateChecked(p[y][x] + Bias(pattern, c, w, x, y), max).Some?;
        assert p[y][x] + 0.0 == p[y][x];
      }
    }
    forall y | 0 <= y < h
      ensures CreateChecked(p[y][1] + SecondColumnBias(pattern, c, y), max).Some?
    {
      assert CreateChecked(p[y][1] + Bias(pattern, c, w, 1, y), max).Some?;
    }
    forall y, x | 0 <= y < h && 2 <= x < w - 1
      ensures CreateChecked(p[y][x] + 0.5, max).Some?
    {
      assert CreateChecked(p[y][x] + Bias(pattern, c, w, x, y), max).Some?;
    }
  }

  /** A plane the schedule converts has every cell converting with its bias,
      to the cell of the result. */
  lemma CellsConvert(p: seq<seq<real>>, w: nat, h: nat, pattern: BayerPattern, c: Color, max: nat)
    requires IsImage(p, w, h) && w >= 2 && Rounded(p, w, h, pattern, c, max).Some?
    ensures EveryCellConverts(p, w, h, pattern, c, max)
    ensures forall y, x :: 0 <= y < h && 0 <= x < w ==>
      CreateChecked(p[y][x] + Bias(pattern, c, w, x, y), max) == Some(Rounded(p, w, h, pattern, c, max).value[y][x])
  {
    var r := Rounded(p, w, h, pattern, c, max).value;
    forall y, x | 0 <= y < h && 0 <= x < w
      ensures CreateChecked(p[y][x] + Bias(pattern, c, w, x, y), max) == Some(r[y][x])
    {
      assert r[y][x] == RoundedCell(p, w, h, pattern, c, max, y, x);
    }
    forall y | 0 <= y < h
      ensures CreateChecked(p[y][w - 1], max).Some?
    {
    }
  }

  /** Away from the first two and the last column the schedule is
      `RoundAndConvert`'s; on the first and last column it is
      `FloorAndConvert`'s, and so it is on column 1 of the green plane. */
  lemma RoundedColumns(p: seq<seq<real>>, w: nat, h: nat, pattern: BayerPattern, c: Color, max: nat, y: nat, x: nat)
    requires IsImage(p, w, h) && w >= 2 && y < h && x < w && Rounded(p, w, h, pattern, c, max).Some?
    ensures 2 <= x < w - 1 ==> Some(Rounded(p, w, h, pattern, c, max).value[y][x]) == CreateChecked(p[y][x] + 0.5, max)
    ensures x == 0 || (x == w - 1 && w >= 3) ==> Some(Rounded(p, w, h, pattern, c, max).value[y][x]) == CreateChecked(p[y][x], max)
    ensures x == 1 && c == Green ==> Some(Rounded(p, w, h, pattern, c, max).value[y][x]) == CreateChecked(p[y][x], max)
  {
    assert Rounded(p, w, h, pattern, c, max).value[y][x] == RoundedCell(p, w, h, pattern, c, max, y, x);
    assert p[y][x] + 0.0 == p[y][x];
  }

  /** What `GetChannels_LabVIEW` returns. */
  function Channels(img: seq<seq<nat>>, w: nat, h: nat, pattern: BayerPattern, max: nat): Option<ColorPlanes<seq<seq<nat>>>>
    requires IsImage(img, w, h) && w >= 2 && h >= 2
  {
    var r := Rounded(Plane(img, w, h, pattern, Red), w, h, pattern, Red, max);
    var g := Rounded(Plane(img, w, h, pattern, Green), w, h, pattern, Green, max);
    var b := Rounded(Plane(img, w, h, pattern, Blue), w, h, pattern, Blue, max);
    if r.Some? && g.Some? && b.Some? then Some(ColorPlanes(r.value, g.value, b.value)) else None
  }

  /** A plane holding one pixel value everywhere comes back as that value
      everywhere, whatever each column's bias. */
  lemma RoundedUniform(p: seq<seq<real>>, w: nat, h: nat, pattern: BayerPattern, c: Color, n: nat, max: nat)
    requires IsImage(p, w, h) && w >= 2 && n <= max
    requires forall y, x :: 0 <= y < h && 0 <= x < w ==> p[y][x] == n as real
    ensures Rounded(p, w, h, pattern, c, max) == Some(Uniform(w, h, n))
  {
    forall y, x | 0 <= y < h && 0 <= x < w
      ensures CreateChecked(p[y][x] + Bias(pattern, c, w, x, y), max) == Some(n)
      ensures CreateChecked(p[y][x], max) == Some(n)
    {
      assert (n as real + Bias(pattern, c, w, x, y)).Floor == n;
      CreateCheckedOfPixel(n, max);
    }
    RoundedCells(p, w, h, pattern, c, max);
    var r := Rounded(p, w, h, pattern, c, max).value;
    forall y | 0 <= y < h
      ensures r[y] == Uniform(w, h, n)[y]
    {
      forall x | 0 <= x < w
        ensures r[y][x] == n
      {
        assert CreateChecked(p[y][x] + Bias(pattern, c, w, x, y), max) == Some(r[y][x]);
      }
    }
    assert r == Uniform(w, h, n);
  }

  /** A flat-colour mosaic (each colour one value, within the pixel type)
      comes back as three flat planes of those values: the planes are the
      OpenCV method's before its fix-up, flat already. */
  lemma PhaseConstantMosaic(img: seq<seq<nat>>, w: nat, h: nat, pattern: BayerPattern, v: ColorPlanes<nat>, max: nat)
    requires IsImage(img, w, h) && w >= 2 && h >= 2 && PhaseConstant(img, w, h, pattern, v)
    requires v.r <= max && v.g <= max && v.b <= max
    ensures Channels(img, w, h, pattern, max) == Some(ColorPlanes(Uniform(w, h, v.r), Uniform(w, h, v.g), Uniform(w, h, v.b)))
  {
    forall c: Color
      ensures Rounded(Plane(img, w, h, pattern, c), w, h, pattern, c, max) == Some(Uniform(w, h, Pick(v, c)))
    {
      forall y, x | 0 <= y < h && 0 <= x < w
        ensures Plane(img, w, h, pattern, c)[y][x] == Pick(v, c) as real
      {
        OpenCVDemosaic.PhaseConstantCorrelation(img, w, h, pattern, v, c, y, x);
      }
      RoundedUniform(Plane(img, w, h, pattern, c), w, h, pattern, c, Pick(v, c), max);
    }
  }

  /** `GetChannels_LabVIEW`. The planes are independent, so each is
      convolved and taken through the three conversion loops in turn. */
  method GetChannels(raw: array2<nat>, pattern: BayerPattern, max: nat) returns (result: Option<ColorPlanes<array2<nat>>>)
    requires raw.Length0 >= 2 && raw.Length1 >= 2
    ensures result.Some? <==> Channels(Contents(raw), raw.Length1, raw.Length0, pattern, max).Some?
    ensures result.Some? ==>
      var planes := Channels(Contents(raw), raw.Length1, raw.Length0, pattern, max).value;
      Contents(result.value.r) == planes.r && Contents(result.value.g) == planes.g && Contents(result.value.b) == planes.b
  {
    var channelR, channelG, channelB := Split(raw, pattern);
    var resultR := Convolve(channelR, Real, OpenCVDemosaic.KernelFor(Red), 3, Reflect101, 0);
    var r := RoundPlane(resultR, pattern, Red, max);
    var resultG := Convolve(channelG, Real, OpenCVDemosaic.KernelFor(Green), 3, Reflect101, 0);
    var g := RoundPlane(resultG, pattern, Green, max);
    var resultB := Convolve(channelB, Real, OpenCVDemosaic.KernelFor(Blue), 3, Reflect101, 0);
    var b := RoundPlane(resultB, pattern, Blue, max);
    if r.None? || g.None? || b.None? {
      return None;
    }
    result := Some(ColorPlanes(r.value, g.value, b.value));
  }

  /** The three conversion loops on one plane. */
  method RoundPlane(plane: array2<real>, pattern: BayerPattern, c: Color, max: nat) returns (result: Option<array2<nat>>)
    requires plane.Length1 >= 2
    ensures result.Some? <==> Rounded(Contents(plane), plane.Length1, plane.Length0, pattern, c, max).Some?
    ensures result.Some? ==> Contents(result.value) == Rounded(Contents(plane), plane.Length1, plane.Length0, pattern, c, max).value
  {
    var width, height := plane.Length1, plane.Length0;
    ghost var p := Contents(plane);
    var out := new nat[height, width];
    var ok := ConvertOuterColumns(plane, out, max, p);
    if !ok {
      return None;
    }
    ok := ConvertSecondColumn(plane, out, pattern, c, max, p);
    if !ok {
      return None;
    }
    ok := ConvertInnerColumns(plane, out, max, p);
    if !ok {
      return None;
    }
    RoundedByCells(p, out, pattern, c, max);
    result := Some(out);
  }

  /** After the three loops every cell holds its scheduled conversion. */
  lemma RoundedByCells(p: seq<seq<real>>, out: array2<nat>, pattern: BayerPattern, c: Color, max: nat)
    requires IsImage(p, out.Length1, out.Length0) && out.Length1 >= 2
    requires OuterConverts(p, out.Length1, out.Length0, max)
    requires SecondConverts(p, out.Length1, out.Length0, pattern, c, max)
    requires InnerConverts(p, out.Length1, out.Length0, max)
    requires forall y, x :: 0 <= y < out.Length0 && 0 <= x < out.Length1 && (x == 0 || x == out.Length1 - 1) && x != 1 ==>
      CreateChecked(p[y][x], max) == Some(out[y, x])
    requires forall y :: 0 <= y < out.Length0 ==> CreateChecked(p[y][1] + SecondColumnBias(pattern, c, y), max) == Some(out[y, 1])
    requires forall y, x :: 0 <= y < out.Length0 && 2 <= x < out.Length1 - 1 ==> CreateChecked(p[y][x] + 0.5, max) == Some(out[y, x])
    ensures Rounded(p, out.Length1, out.Length0, pattern, c, max) == Some(Contents(out))
  {
    var w, h := out.Length1, out.Length0;
    var r := Rounded(p, w, h, pattern, c, max);
    var q := Contents(out);
    forall y | 0 <= y < h
      ensures r.value[y] == q[y]
    {
      forall x | 0 <= x < w
        ensures r.value[y][x] == q[y][x]
      {
        assert r.value[y][x] == RoundedCell(p, w, h, pattern, c, max, y, x);
        if x != 1 && (x == 0 || x == w - 1) {
          assert CreateChecked(p[y][x], max) == Some(out[y, x]);
        }
      }
    }
    assert r.value == q;
  }

  /** The first loop: columns 0 and `w - 1` of every row, truncated. */
  method ConvertOuterColumns(plane: array2<real>, out: array2<nat>, max: nat, ghost p: seq<seq<real>>) returns (ok: bool)
    requires out.Length0 == plane.Length0 && out.Length1 == plane.Length1 && plane.Length1 >= 1 && p == Contents(plane)
    modifies out
    ensures ok <==> OuterConverts(p, plane.Length1, plane.Length0, max)
    ensures ok ==> forall y, x :: 0 <= y < out.Length0 && 0 <= x < out.Length1 && (x == 0 || x == out.Length1 - 1) ==>
      CreateChecked(p[y][x], max) == Some(out[y, x])
    ensures forall y, x :: 0 <= y < out.Length0 && 0 <= x < out.Length1 && !(x == 0 || x == out.Length1 - 1) ==>
      out[y, x] == old(out[y, x])
  {
    var width, height := plane.Length1, plane.Length0;
    var row := 0;
    while row < height
      invariant row <= height
      invariant forall y, x :: 0 <= y < row && 0 <= x < width && (x == 0 || x == width - 1) ==>
        CreateChecked(p[y][x], max) == Some(out[y, x])
      invariant forall y, x :: 0 <= y < height && 0 <= x < width && !(y < row && (x == 0 || x == width - 1)) ==>
        out[y, x] == old(out[y, x])
    {
      assert p[row][0] == plane[row, 0] && p[row][width - 1] == plane[row, width - 1];
      var first := CreateChecked(plane[row, 0], max);
      if first.None? {
        return false;
      }
      out[row, 0] := first.value;
      var last := CreateChecked(plane[row, width - 1], max);
      if last.None? {
        return false;
      }
      out[row, width - 1] := last.value;
      row := row + 1;
    }
    return true;
  }

  /** The second loop: column 1 of every row. The flag `isG` is toggled
      before each row; red and blue are rounded where it is set, green never. */
  method ConvertSecondColumn(plane: array2<real>, out: array2<nat>, pattern: BayerPattern, c: Color, max: nat, ghost p: seq<seq<real>>)
    returns (ok: bool)
    requires out.Length0 == plane.Length0 && out.Length1 == plane.Length1 && plane.Length1 >= 2 && p == Contents(plane)
    modifies out
    ensures ok <==> SecondConverts(p, plane.Length1, plane.Length0, pattern, c, max)
    ensures ok ==> forall y :: 0 <= y < out.Length0 ==> CreateChecked(p[y][1] + SecondColumnBias(pattern, c, y), max) == Some(out[y, 1])
    ensures forall y, x :: 0 <= y < out.Length0 && 0 <= x < out.Length1 && x != 1 ==> out[y, x] == old(out[y, x])
  {
    var width, height := plane.Length1, plane.Length0;
    var isG := InitialIsG(pattern);
    var row := 0;
    while row < height
      invariant row <= height
      invariant isG != IsGAfter(pattern, row)
      invariant forall y :: 0 <= y < row ==> CreateChecked(p[y][1] + SecondColumnBias(pattern, c, y), max) == Some(out[y, 1])
      invariant forall y, x :: 0 <= y < height && 0 <= x < width && !(y < row && x == 1) ==> out[y, x] == old(out[y, x])
    {
      isG := !isG;
      ok := ConvertSecondColumnCell(plane, out, row, c, isG, max, p);
      if !ok {
        assert RowBias(c, isG) == SecondColumnBias(pattern, c, row);
        return;
      }
      row := row + 1;
    }
    ok := true;
    assert SecondConverts(p, width, height, pattern, c, max) by {
      forall y | 0 <= y < height
        ensures CreateChecked(p[y][1] + SecondColumnBias(pattern, c, y), max).Some?
      {
      }
    }
  }

  /** One row of the second loop: cell (1, `row`), plus 0.5 when the flag
      is set and the plane is not green. */
  method ConvertSecondColumnCell(plane: array2<real>, out: array2<nat>, row: nat, c: Color, isG: bool, max: nat, ghost p: seq<seq<real>>)
    returns (ok: bool)
    requires out.Length0 == plane.Length0 && out.Length1 == plane.Length1 && plane.Length1 >= 2 && row < plane.Length0
    requires p == Contents(plane)
    modifies out
    ensures ok <==> CreateChecked(p[row][1] + RowBias(c, isG), max).Some?
    ensures ok ==> CreateChecked(p[row][1] + RowBias(c, isG), max) == Some(out[row, 1])
    ensures forall y, x :: 0 <= y < out.Length0 && 0 <= x < out.Length1 && !(y == row && x == 1) ==> out[y, x] == old(out[y, x])
  {
    assert p[row][1] == plane[row, 1];
    var v;
    if isG && c != Green {
      v := CreateChecked(plane[row, 1] + 0.5, max);
    } else {
      v := CreateChecked(plane[row, 1], max);
      assert plane[row, 1] + 0.0 == plane[row, 1];
    }
    if v.None? {
      return false;
    }
    out[row, 1] := v.value;
    return true;
  }

  /** The third loop: columns 2 to `w - 2` of every row, rounded. */
  method ConvertInnerColumns(plane: array2<real>, out: array2<nat>, max: nat, ghost p: seq<seq<real>>) returns (ok: bool)
    requires out.Length0 == plane.Length0 && out.Length1 == plane.Length1 && p == Contents(plane)
    modifies out
    ensures ok <==> InnerConverts(p, plane.Length1, plane.Length0, max)
    ensures ok ==> forall y, x :: 0 <= y < out.Length0 && 2 <= x < out.Length1 - 1 ==> CreateChecked(p[y][x] + 0.5, max) == Some(out[y, x])
    ensures forall y, x :: 0 <= y < out.Length0 && 0 <= x < out.Length1 && !(2 <= x < out.Length1 - 1) ==> out[y, x] == old(out[y, x])
  {
    var width, height := plane.Length1, plane.Length0;
    var row := 0;
    while row < height
      invariant row <= height
      invariant forall y, x :: 0 <= y < row && 2 <= x < width - 1 ==> CreateChecked(p[y][x] + 0.5, max) == Some(out[y, x])
      invariant forall y, x :: 0 <= y < height && 0 <= x < width && !(y < row && 2 <= x < width - 1) ==> out[y, x] == old(out[y, x])
    {
      var column := 2;
      while column < width - 1
        invariant 2 <= column && (width >= 3 ==> column <= width - 1)
        invariant forall y, x :: 0 <= y < height && 2 <= x < width - 1 && (y < row || (y == row && x < column)) ==>
          CreateChecked(p[y][x] + 0.5, max) == Some(out[y, x])
        invariant forall y, x :: 0 <= y < height && 0 <= x < width && !((y < row || (y == row && x < column)) && 2 <= x < width - 1) ==>
          out[y, x] == old(out[y, x])
      {
        assert p[row][column] == plane[row, column];
        var v := CreateChecked(plane[row, column] + 0.5, max);
        if v.None? {
          return false;
        }
        out[row, column] := v.value;
        column := column + 1;
      }
      row := row + 1;
    }
    return true;
  }
}
