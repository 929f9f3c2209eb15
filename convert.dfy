/** Converting `double` planes back to pixel planes (`RoundAndConvert`,
    `FloorAndConvert`). The pixel types are unsigned integers of a given
    maximum (255 for bytes, 65535 for 16-bit samples); .NET's checked
    conversion truncates toward zero and throws when the truncated value is
    out of range, which is modelled as `None`. */
module Convert {
  import opened Options
  import opened Border

  const ByteMax: nat := 255
  const UShortMax: nat := 65535

  /** The integer part of `v`, rounding toward zero. */
  function Truncate(v: real): (r: int)
    ensures 0.0 <= v ==> r as real <= v < r as real + 1.0
    ensures v < 0.0 ==> r as real - 1.0 < v <= r as real
  {
    if v >= 0.0 then v.Floor else -((-v).Floor)
  }

  /** `T.CreateChecked(v)` for an unsigned pixel type of maximum `max`. */
  function CreateChecked(v: real, max: nat): (r: Option<nat>)
    ensures r.Some? ==> r.value <= max
  {
    var i := Truncate(v);
    if 0 <= i <= max then Some(i) else None
  }

  /** The conversion succeeds exactly on the open interval (-1, max + 1), and
      then yields the integer part. */
  lemma CreateCheckedRange(v: real, max: nat)
    ensures CreateChecked(v, max).Some? <==> -1.0 < v < max as real + 1.0
    ensures CreateChecked(v, max).Some? ==>
      (v >= 0.0 ==> CreateChecked(v, max).value as real <= v < CreateChecked(v, max).value as real + 1.0) &&
      (v < 0.0 ==> CreateChecked(v, max).value == 0)
  {
    var i := Truncate(v);
    if v >= 0.0 {
      if v < max as real + 1.0 {
        assert i as real < max as real + 1.0;
      }
    } else if -1.0 < v {
      assert i == 0;
    }
  }

  /** A pixel value widened to `double` converts back to itself. */
  lemma CreateCheckedOfPixel(n: nat, max: nat)
    requires n <= max
    ensures CreateChecked(n as real, max) == Some(n)
  {
  }

  /** Adding 0.5 before the conversion rounds to the nearest pixel value,
      halves upward: any value within half a step below or under half a step
      above `n` gives `n`. */
  lemma RoundsToNearest(n: nat, max: nat, v: real)
    requires n <= max && n as real - 0.5 <= v < n as real + 0.5
    ensures CreateChecked(v + 0.5, max) == Some(n)
  {
    assert (v + 0.5).Floor == n;
  }

  /** A plane holding the pixel value `n` everywhere converts back to it,
      truncated or rounded. */
  lemma ConvertedUniform(plane: seq<seq<real>>, w: nat, h: nat, bias: real, n: nat, max: nat)
    requires IsImage(plane, w, h) && n <= max && 0.0 <= bias <= 0.5
    requires forall y, x :: 0 <= y < h && 0 <= x < w ==> plane[y][x] == n as real
    ensures Converted(plane, w, h, bias, max) == Some(Uniform(w, h, n))
  {
    forall y, x | 0 <= y < h && 0 <= x < w
      ensures CreateChecked(plane[y][x] + bias, max) == Some(Uniform(w, h, n)[y][x])
    {
      assert (n as real + bias).Floor == n;
    }
    ConvertedByCells(plane, Uniform(w, h, n), w, h, bias, max);
  }

  /** Every cell of a plane plus `bias`, converted with a check; `None` as
      soon as one cell does not fit. */
  function Converted(plane: seq<seq<real>>, w: nat, h: nat, bias: real, max: nat): (r: Option<seq<seq<nat>>>)
    requires IsImage(plane, w, h)
    ensures r.Some? <==> forall y, x :: 0 <= y < h && 0 <= x < w ==> CreateChecked(plane[y][x] + bias, max).Some?
    ensures r.Some? ==> IsImage(r.value, w, h)
    ensures r.Some? ==> forall y, x :: 0 <= y < h && 0 <= x < w ==> CreateChecked(plane[y][x] + bias, max) == Some(r.value[y][x])
  {
    if forall y, x :: 0 <= y < h && 0 <= x < w ==> CreateChecked(plane[y][x] + bias, max).Some? then
      Some(seq(h, y requires 0 <= y < h => seq(w, x requires 0 <= x < w => CreateChecked(plane[y][x] + bias, max).value)))
    else
      None
  }

  /** A plane of widened pixel values converts back to the pixels. */
  lemma ConvertedOfPixels(img: seq<seq<nat>>, w: nat, h: nat, max: nat)
    requires IsImage(img, w, h) && forall y, x :: 0 <= y < h && 0 <= x < w ==> img[y][x] <= max
    ensures Converted(seq(h, y requires 0 <= y < h => seq(w, x requires 0 <= x < w => img[y][x] as real)), w, h, 0.0, max) == Some(img)
  {
    var plane := seq(h, y requires 0 <= y < h => seq(w, x requires 0 <= x < w => img[y][x] as real));
    forall y, x | 0 <= y < h && 0 <= x < w
      ensures CreateChecked(plane[y][x] + 0.0, max) == Some(img[y][x])
    {
      CreateCheckedOfPixel(img[y][x], max);
    }
    ConvertedByCells(plane, img, w, h, 0.0, max);
  }

  /** A plane whose every cell is the checked conversion of the input's is
      the converted plane. */
  lemma ConvertedByCells(plane: seq<seq<real>>, p: seq<seq<nat>>, w: nat, h: nat, bias: real, max: nat)
    requires IsImage(plane, w, h) && IsImage(p, w, h)
    requires forall y, x :: 0 <= y < h && 0 <= x < w ==> CreateChecked(plane[y][x] + bias, max) == Some(p[y][x])
    ensures Converted(plane, w, h, bias, max) == Some(p)
  {
    var r := Converted(plane, w, h, bias, max);
    assert r.Some?;
    forall y | 0 <= y < h
      ensures r.value[y] == p[y]
    {
      forall x | 0 <= x < w
        ensures r.value[y][x] == p[y][x]
      {
        assert CreateChecked(plane[y][x] + bias, max) == Some(r.value[y][x]);
      }
    }
    assert r.value == p;
  }

  /** Checked conversion of every cell of `input` after adding `bias`, in row
      order; the first failure abandons the result. */
  method ConvertPlane(input: array2<real>, bias: real, max: nat) returns (result: Option<array2<nat>>)
    ensures result.Some? <==> Converted(Contents(input), input.Length1, input.Length0, bias, max).Some?
    ensures result.Some? ==> fresh(result.value) && result.value.Length0 == input.Length0 && result.value.Length1 == input.Length1
    ensures result.Some? ==> Contents(result.value) == Converted(Contents(input), input.Length1, input.Length0, bias, max).value
  {
    var height, width := input.Length0, input.Length1;
    ghost var c := Contents(input);
    var plane := new nat[height, width];
    var y := 0;
    while y < height
      invariant y <= height && fresh(plane)
      invariant forall Y, X :: 0 <= Y < y && 0 <= X < width ==> CreateChecked(c[Y][X] + bias, max) == Some(plane[Y, X])
    {
      var x := 0;
      while x < width
        invariant x <= width
        invariant forall Y, X :: 0 <= Y < height && 0 <= X < width && (Y < y || (Y == y && X < x)) ==>
          CreateChecked(c[Y][X] + bias, max) == Some(plane[Y, X])
      {
        var v := CreateChecked(input[y, x] + bias, max);
        if v.None? {
          return None;
        }
        plane[y, x] := v.value;
        x := x + 1;
      }
      y := y + 1;
    }
    result := Some(plane);
    ConvertedByCells(c, Contents(plane), width, height, bias, max);
  }

  /** `RoundAndConvert`: every cell plus 0.5, converted with a check. */
  method RoundAndConvert(input: array2<real>, max: nat) returns (result: Option<array2<nat>>)
    ensures result.Some? <==> Converted(Contents(input), input.Length1, input.Length0, 0.5, max).Some?
    ensures result.Some? ==> fresh(result.value) && result.value.Length0 == input.Length0 && result.value.Length1 == input.Length1
    ensures result.Some? ==> Contents(result.value) == Converted(Contents(input), input.Length1, input.Length0, 0.5, max).value
  {
    result := ConvertPlane(input, 0.5, max);
  }

  /** `FloorAndConvert`: every cell converted with a check, truncating. */
  method FloorAndConvert(input: array2<real>, max: nat) returns (result: Option<array2<nat>>)
    ensures result.Some? <==> Converted(Contents(input), input.Length1, input.Length0, 0.0, max).Some?
    ensures result.Some? ==> fresh(result.value) && result.value.Length0 == input.Length0 && result.value.Length1 == input.Length1
    ensures result.Some? ==> Contents(result.value) == Converted(Contents(input), input.Length1, input.Length0, 0.0, max).value
  {
    result := ConvertPlane(input, 0.0, max);
  }
}
