/** Border extension (`AddBorder` and the `Border*` routines of ImageUtils):
    a `w` x `h` image is copied into the interior of a `(t + w + t)` x
    `(t + h + t)` buffer whose margin is then filled in place under one of
    the `BorderType` policies.

    Buffers are 2-D arrays indexed `[row, column]`; the row-major flat index
    `row * stride + column` of the original, and the cursors that walk it,
    become the pair of coordinates. */
module Border {
  import opened Grid
  import opened BorderTypes

  // ---------------------------------------------------------------------
  // Images as values, and what the extension is.
  // ---------------------------------------------------------------------

  /** `img` is `h` rows of `w` samples. */
  predicate IsImage<T>(img: seq<seq<T>>, w: nat, h: nat) {
    |img| == h && forall y :: 0 <= y < h ==> |img[y]| == w
  }

  /** A `w` x `h` image holding `v` everywhere. */
  function Uniform<T>(w: nat, h: nat, v: T): (r: seq<seq<T>>)
    ensures IsImage(r, w, h)
  {
    seq(h, y requires 0 <= y < h => seq(w, x requires 0 <= x < w => v))
  }

  /** The samples of a 2-D buffer, row by row. */
  function Contents<T>(a: array2<T>): (r: seq<seq<T>>)
    reads a
    ensures IsImage(r, a.Length1, a.Length0)
    ensures forall y, x :: 0 <= y < a.Length0 && 0 <= x < a.Length1 ==> r[y][x] == a[y, x]
  {
    seq(a.Length0, y requires 0 <= y < a.Length0 reads a =>
      seq(a.Length1, x requires 0 <= x < a.Length1 reads a => a[y, x]))
  }

  /** The cells of the extended buffer that hold the image itself. */
  predicate Interior(t: nat, w: nat, h: nat, x: nat, y: nat) {
    t <= x < t + w && t <= y < t + h
  }

  /** Cell (x, y) of the extended image: the interior is the image, the
      margin of a copying policy takes the image sample at both axes'
      source coordinates, Constant the fill value and Isolated the element
      default `blank` that a fresh buffer holds. */
  function ExtendedPixel<T>(img: seq<seq<T>>, w: nat, h: nat, t: nat, kind: BorderType, fill: T, blank: T,
                            x: nat, y: nat): T
    requires IsImage(img, w, h) && Supported(kind, w, h, t)
    requires x < t + w + t && y < t + h + t
  {
    if Interior(t, w, h, x, y) then img[y - t][x - t]
    else if Copies(kind) then img[SourceCoord(kind, t, h, y) - t][SourceCoord(kind, t, w, x) - t]
    else if kind.Constant? then fill
    else blank
  }

  /** What `AddBorder` returns, as rows. */
  function Extended<T>(img: seq<seq<T>>, w: nat, h: nat, t: nat, kind: BorderType, fill: T, blank: T): (r: seq<seq<T>>)
    requires IsImage(img, w, h) && Supported(kind, w, h, t)
    ensures IsImage(r, t + w + t, t + h + t)
    ensures forall y, x :: 0 <= y < h && 0 <= x < w ==> r[t + y][t + x] == img[y][x]
  {
    seq(t + h + t, y requires 0 <= y < t + h + t =>
      seq(t + w + t, x requires 0 <= x < t + w + t => ExtendedPixel(img, w, h, t, kind, fill, blank, x, y)))
  }

  /** The interior `w` x `h` block of an extended image. */
  function Crop<T>(e: seq<seq<T>>, w: nat, h: nat, t: nat): (r: seq<seq<T>>)
    requires IsImage(e, t + w + t, t + h + t)
    ensures IsImage(r, w, h)
  {
    seq(h, y requires 0 <= y < h => e[t + y][t..t + w])
  }

  /** Column `x` of an image. */
  function Column<T>(img: seq<seq<T>>, w: nat, h: nat, x: nat): (r: seq<T>)
    requires IsImage(img, w, h) && x < w
    ensures |r| == h
  {
    seq(h, y requires 0 <= y < h => img[y][x])
  }

  /** Cropping the interior back out gives the image, for every policy. */
  lemma CropIsIdentity<T>(img: seq<seq<T>>, w: nat, h: nat, t: nat, kind: BorderType, fill: T, blank: T)
    requires IsImage(img, w, h) && Supported(kind, w, h, t)
    ensures Crop(Extended(img, w, h, t, kind, fill, blank), w, h, t) == img
  {
    var e := Extended(img, w, h, t, kind, fill, blank);
    forall y | 0 <= y < h
      ensures Crop(e, w, h, t)[y] == img[y]
    {
      forall x | 0 <= x < w
        ensures e[t + y][t..t + w][x] == img[y][x]
      {
      }
    }
  }

  /** Every image row reappears in the extended image extended as one axis
      under the same policy, so the doc-comment patterns of `BorderType`
      hold row by row. */
  lemma ExtendedRowIsLine<T>(img: seq<seq<T>>, w: nat, h: nat, t: nat, kind: BorderType, fill: T, blank: T, y: nat)
    requires IsImage(img, w, h) && Supported(kind, w, h, t) && y < h
    ensures Extended(img, w, h, t, kind, fill, blank)[t + y] ==
      Line(img[y], t, kind, if kind.Isolated? then blank else fill)
  {
  }

  /** Likewise every image column, over the full extended height. */
  lemma ExtendedColumnIsLine<T>(img: seq<seq<T>>, w: nat, h: nat, t: nat, kind: BorderType, fill: T, blank: T, x: nat)
    requires IsImage(img, w, h) && Supported(kind, w, h, t) && x < w
    ensures Column(Extended(img, w, h, t, kind, fill, blank), t + w + t, t + h + t, t + x) ==
      Line(Column(img, w, h, x), t, kind, if kind.Isolated? then blank else fill)
  {
  }

  /** Constant: every margin cell holds the one fill value. */
  lemma ConstantMargin<T>(img: seq<seq<T>>, w: nat, h: nat, t: nat, fill: T, blank: T, x: nat, y: nat)
    requires IsImage(img, w, h) && x < t + w + t && y < t + h + t && !Interior(t, w, h, x, y)
    ensures Extended(img, w, h, t, Constant, fill, blank)[y][x] == fill
  {
  }

  /** Isolated: nothing is written outside the image, so the margin keeps the
      default of the fresh buffer. */
  lemma IsolatedMargin<T>(img: seq<seq<T>>, w: nat, h: nat, t: nat, fill: T, blank: T, x: nat, y: nat)
    requires IsImage(img, w, h) && x < t + w + t && y < t + h + t && !Interior(t, w, h, x, y)
    ensures Extended(img, w, h, t, Isolated, fill, blank)[y][x] == blank
  {
  }

  /** Under a copying policy every cell, interior or margin, holds the image
      sample at the source coordinates of its row and its column. */
  lemma CopiedPixel<T>(img: seq<seq<T>>, w: nat, h: nat, t: nat, kind: BorderType, fill: T, blank: T, x: nat, y: nat)
    requires IsImage(img, w, h) && Supported(kind, w, h, t) && Copies(kind) && x < t + w + t && y < t + h + t
    ensures Extended(img, w, h, t, kind, fill, blank)[y][x] ==
      img[SourceCoord(kind, t, h, y) - t][SourceCoord(kind, t, w, x) - t]
  {
    var e := Extended(img, w, h, t, kind, fill, blank);
    assert e[y][x] == ExtendedPixel(img, w, h, t, kind, fill, blank, x, y);
    if Interior(t, w, h, x, y) {
      assert SourceCoord(kind, t, h, y) == y && SourceCoord(kind, t, w, x) == x;
    }
  }

  /** Two rows with the same source row are equal. */
  lemma SameSourceRows<T>(img: seq<seq<T>>, w: nat, h: nat, t: nat, kind: BorderType, fill: T, blank: T, a: nat, b: nat)
    requires IsImage(img, w, h) && Supported(kind, w, h, t) && Copies(kind) && a < t + h + t && b < t + h + t
    requires SourceCoord(kind, t, h, a) == SourceCoord(kind, t, h, b)
    ensures Extended(img, w, h, t, kind, fill, blank)[a] == Extended(img, w, h, t, kind, fill, blank)[b]
  {
    var e := Extended(img, w, h, t, kind, fill, blank);
    forall x | 0 <= x < t + w + t
      ensures e[a][x] == e[b][x]
    {
      CopiedPixel(img, w, h, t, kind, fill, blank, x, a);
      CopiedPixel(img, w, h, t, kind, fill, blank, x, b);
    }
  }

  /** Two columns with the same source column are equal. */
  lemma SameSourceColumns<T>(img: seq<seq<T>>, w: nat, h: nat, t: nat, kind: BorderType, fill: T, blank: T, a: nat, b: nat)
    requires IsImage(img, w, h) && Supported(kind, w, h, t) && Copies(kind) && a < t + w + t && b < t + w + t
    requires SourceCoord(kind, t, w, a) == SourceCoord(kind, t, w, b)
    ensures var e := Extended(img, w, h, t, kind, fill, blank);
      Column(e, t + w + t, t + h + t, a) == Column(e, t + w + t, t + h + t, b)
  {
    var e := Extended(img, w, h, t, kind, fill, blank);
    var left, right := Column(e, t + w + t, t + h + t, a), Column(e, t + w + t, t + h + t, b);
    forall y | 0 <= y < t + h + t
      ensures left[y] == right[y]
    {
      CopiedPixel(img, w, h, t, kind, fill, blank, a, y);
      CopiedPixel(img, w, h, t, kind, fill, blank, b, y);
    }
  }

  /** Replicate: each corner block of the margin holds the nearest corner
      sample of the image. */
  lemma ReplicateCorners<T>(img: seq<seq<T>>, w: nat, h: nat, t: nat, fill: T, blank: T, x: nat, y: nat)
    requires IsImage(img, w, h) && w > 0 && h > 0 && x < t && y < t
    ensures Extended(img, w, h, t, Replicate, fill, blank)[y][x] == img[0][0]
    ensures Extended(img, w, h, t, Replicate, fill, blank)[y][t + w + x] == img[0][w - 1]
    ensures Extended(img, w, h, t, Replicate, fill, blank)[t + h + y][x] == img[h - 1][0]
    ensures Extended(img, w, h, t, Replicate, fill, blank)[t + h + y][t + w + x] == img[h - 1][w - 1]
  {
    ReplicateClamps(t, w, x);
    ReplicateClamps(t, w, t + w + x);
    ReplicateClamps(t, h, y);
    ReplicateClamps(t, h, t + h + y);
    var e := Extended(img, w, h, t, Replicate, fill, blank);
    assert e[y][x] == ExtendedPixel(img, w, h, t, Replicate, fill, blank, x, y);
    assert e[y][t + w + x] == ExtendedPixel(img, w, h, t, Replicate, fill, blank, t + w + x, y);
    assert e[t + h + y][x] == ExtendedPixel(img, w, h, t, Replicate, fill, blank, x, t + h + y);
    assert e[t + h + y][t + w + x] == ExtendedPixel(img, w, h, t, Replicate, fill, blank, t + w + x, t + h + y);
  }

  /** Reflect: margin row `t - 1 - k` is a copy of row `t + k` and margin row
      `t + h + k` of row `t + h - 1 - k`, over the full width (corners
      included). */
  lemma ReflectRows<T>(img: seq<seq<T>>, w: nat, h: nat, t: nat, fill: T, blank: T, k: nat)
    requires IsImage(img, w, h) && t <= w && t <= h && k < t
    ensures var e := Extended(img, w, h, t, Reflect, fill, blank);
      e[t - 1 - k] == e[t + k] && e[t + h + k] == e[t + h - 1 - k]
  {
    ReflectMirrors(t, h, k);
    SameSourceRows(img, w, h, t, Reflect, fill, blank, t - 1 - k, t + k);
    SameSourceRows(img, w, h, t, Reflect, fill, blank, t + h + k, t + h - 1 - k);
  }

  /** Reflect, columns: the same mirror over the full height. */
  lemma ReflectColumns<T>(img: seq<seq<T>>, w: nat, h: nat, t: nat, fill: T, blank: T, k: nat)
    requires IsImage(img, w, h) && t <= w && t <= h && k < t
    ensures var e := Extended(img, w, h, t, Reflect, fill, blank);
      Column(e, t + w + t, t + h + t, t - 1 - k) == Column(e, t + w + t, t + h + t, t + k) &&
      Column(e, t + w + t, t + h + t, t + w + k) == Column(e, t + w + t, t + h + t, t + w - 1 - k)
  {
    ReflectMirrors(t, w, k);
    SameSourceColumns(img, w, h, t, Reflect, fill, blank, t - 1 - k, t + k);
    SameSourceColumns(img, w, h, t, Reflect, fill, blank, t + w + k, t + w - 1 - k);
  }

  /** Reflect101: the mirror axis is the edge sample itself, so margin row
      `t - 1 - k` copies row `t + 1 + k` and margin row `t + h + k` copies row
      `t + h - 2 - k`. */
  lemma Reflect101Rows<T>(img: seq<seq<T>>, w: nat, h: nat, t: nat, fill: T, blank: T, k: nat)
    requires IsImage(img, w, h) && t < w && t < h && k < t
    ensures var e := Extended(img, w, h, t, Reflect101, fill, blank);
      e[t - 1 - k] == e[t + 1 + k] && e[t + h + k] == e[t + h - 2 - k]
  {
    Reflect101Mirrors(t, h, k);
    SameSourceRows(img, w, h, t, Reflect101, fill, blank, t - 1 - k, t + 1 + k);
    SameSourceRows(img, w, h, t, Reflect101, fill, blank, t + h + k, t + h - 2 - k);
  }

  /** Reflect101, columns. */
  lemma Reflect101Columns<T>(img: seq<seq<T>>, w: nat, h: nat, t: nat, fill: T, blank: T, k: nat)
    requires IsImage(img, w, h) && t < w && t < h && k < t
    ensures var e := Extended(img, w, h, t, Reflect101, fill, blank);
      Column(e, t + w + t, t + h + t, t - 1 - k) == Column(e, t + w + t, t + h + t, t + 1 + k) &&
      Column(e, t + w + t, t + h + t, t + w + k) == Column(e, t + w + t, t + h + t, t + w - 2 - k)
  {
    Reflect101Mirrors(t, w, k);
    SameSourceColumns(img, w, h, t, Reflect101, fill, blank, t - 1 - k, t + 1 + k);
    SameSourceColumns(img, w, h, t, Reflect101, fill, blank, t + w + k, t + w - 2 - k);
  }

  /** Wrap: margin row `t - 1 - k` copies image row `h - 1 - k % h` and margin
      row `t + h + k` copies image row `k % h`, however thick the margin. */
  lemma WrapRows<T>(img: seq<seq<T>>, w: nat, h: nat, t: nat, fill: T, blank: T, k: nat)
    requires IsImage(img, w, h) && w > 0 && h > 0 && k < t
    ensures var e := Extended(img, w, h, t, Wrap, fill, blank);
      e[t - 1 - k] == e[t + h - 1 - k % h] && e[t + h + k] == e[t + k % h]
  {
    assert SourceCoord(Wrap, t, h, t - 1 - k) == t + h - 1 - k % h;
    assert SourceCoord(Wrap, t, h, t + h + k) == t + k % h;
    SameSourceRows(img, w, h, t, Wrap, fill, blank, t - 1 - k, t + h - 1 - k % h);
    SameSourceRows(img, w, h, t, Wrap, fill, blank, t + h + k, t + k % h);
  }

  /** Wrap, columns. */
  lemma WrapColumns<T>(img: seq<seq<T>>, w: nat, h: nat, t: nat, fill: T, blank: T, k: nat)
    requires IsImage(img, w, h) && w > 0 && h > 0 && k < t
    ensures var e := Extended(img, w, h, t, Wrap, fill, blank);
      Column(e, t + w + t, t + h + t, t - 1 - k) == Column(e, t + w + t, t + h + t, t + w - 1 - k % w) &&
      Column(e, t + w + t, t + h + t, t + w + k) == Column(e, t + w + t, t + h + t, t + k % w)
  {
    assert SourceCoord(Wrap, t, w, t - 1 - k) == t + w - 1 - k % w;
    assert SourceCoord(Wrap, t, w, t + w + k) == t + k % w;
    SameSourceColumns(img, w, h, t, Wrap, fill, blank, t - 1 - k, t + w - 1 - k % w);
    SameSourceColumns(img, w, h, t, Wrap, fill, blank, t + w + k, t + k % w);
  }

  // ---------------------------------------------------------------------
  // The routines.
  // ---------------------------------------------------------------------

  /** `AddBorder`: a fresh `(t + w + t)` x `(t + h + t)` buffer of defaults
      (`blank`), the image copied row by row into its interior, then the
      margin filled by `Border`. */
  method AddBorder<T>(image: array2<T>, t: nat, kind: BorderType, arg: T, blank: T) returns (result: array2<T>)
    requires Supported(kind, image.Length1, image.Length0, t)
    ensures fresh(result) && result.Length0 == t + image.Length0 + t && result.Length1 == t + image.Length1 + t
    ensures Contents(result) == Extended(Contents(image), image.Length1, image.Length0, t, kind, arg, blank)
  {
    var width, height := image.Length1, image.Length0;
    result := Pad(image, t, blank);
    ghost var padded := Contents(result);
    Border(result, width, height, t, kind, arg);
    BorderedPadIsExtended(Contents(result), padded, Contents(image), width, height, t, kind, arg, blank);
  }

  /** Bordering the padded image in place yields the extension. */
  lemma BorderedPadIsExtended<T>(c: seq<seq<T>>, p: seq<seq<T>>, img: seq<seq<T>>, w: nat, h: nat, t: nat,
                                 kind: BorderType, fill: T, blank: T)
    requires IsImage(img, w, h) && Supported(kind, w, h, t)
    requires IsImage(p, t + w + t, t + h + t) && IsImage(c, t + w + t, t + h + t)
    requires forall Y, X :: 0 <= Y < t + h + t && 0 <= X < t + w + t ==>
      p[Y][X] == if Interior(t, w, h, X, Y) then img[Y - t][X - t] else blank
    requires forall Y, X :: 0 <= Y < t + h + t && 0 <= X < t + w + t ==>
      c[Y][X] ==
        if Interior(t, w, h, X, Y) || kind.Isolated? then p[Y][X]
        else if kind.Constant? then fill
        else p[SourceCoord(kind, t, h, Y)][SourceCoord(kind, t, w, X)]
    ensures c == Extended(img, w, h, t, kind, fill, blank)
  {
    var e := Extended(img, w, h, t, kind, fill, blank);
    forall Y | 0 <= Y < t + h + t
      ensures c[Y] == e[Y]
    {
    }
  }

  /** The first half of `AddBorder`: a fresh buffer of `blank` with the image
      copied into its interior, row by row. */
  method Pad<T>(image: array2<T>, t: nat, blank: T) returns (result: array2<T>)
    ensures fresh(result) && result.Length0 == t + image.Length0 + t && result.Length1 == t + image.Length1 + t
    ensures forall Y, X :: 0 <= Y < result.Length0 && 0 <= X < result.Length1 ==>
      result[Y, X] == if Interior(t, image.Length1, image.Length0, X, Y) then image[Y - t, X - t] else blank
  {
    var width, height := image.Length1, image.Length0;
    var stride := t + width + t;
    result := new T[t + height + t, stride]((_, _) => blank);
    var y := 0;
    while y < height
      invariant y <= height
      invariant forall Y, X :: 0 <= Y < result.Length0 && 0 <= X < result.Length1 ==>
        result[Y, X] == if t <= Y < t + y && t <= X < t + width then image[Y - t, X - t] else blank
    {
      CopyRow(image, y, result, t + y, t);
      y := y + 1;
    }
  }

  /** `Array.Copy` of image row `y` into row `row` of `dst`, starting at
      column `column`. */
  method CopyRow<T>(src: array2<T>, y: nat, dst: array2<T>, row: nat, column: nat)
    requires src != dst && y < src.Length0 && row < dst.Length0 && column + src.Length1 <= dst.Length1
    modifies dst
    ensures forall Y, X :: 0 <= Y < dst.Length0 && 0 <= X < dst.Length1 ==>
      dst[Y, X] == if Y == row && column <= X < column + src.Length1 then src[y, X - column] else old(dst[Y, X])
  {
    var x := 0;
    while x < src.Length1
      invariant x <= src.Length1
      invariant forall Y, X :: 0 <= Y < dst.Length0 && 0 <= X < dst.Length1 ==>
        dst[Y, X] == if Y == row && column <= X < column + x then src[y, X - column] else old(dst[Y, X])
    {
      dst[row, column + x] := src[y, x];
      x := x + 1;
    }
  }

  /** `Border`: dispatch on the policy. Interior cells never change; the
      margin ends as `ExtendedPixel` says, reading only interior cells. */
  method Border<T>(image: array2<T>, w: nat, h: nat, t: nat, kind: BorderType, arg: T)
    requires image.Length0 == t + h + t && image.Length1 == t + w + t && Supported(kind, w, h, t)
    modifies image
    ensures forall Y, X :: 0 <= Y < t + h + t && 0 <= X < t + w + t ==>
      image[Y, X] ==
        if Interior(t, w, h, X, Y) || kind.Isolated? then old(image[Y, X])
        else if kind.Constant? then arg
        else old(image[SourceCoord(kind, t, h, Y), SourceCoord(kind, t, w, X)])
  {
    match kind
    case Constant => BorderConstant(image, w, h, t, arg);
    case Replicate => BorderReplicate(image, w, h, t);
    case Reflect => BorderReflect(image, w, h, t);
    case Wrap => BorderWrap(image, w, h, t);
    case Reflect101 => BorderReflect101(image, w, h, t);
    case Isolated =>
  }

  /** Constant: the full-width top and bottom bands, then the left and right
      bands of the interior rows, all set to `filling`. */
  method BorderConstant<T>(image: array2<T>, w: nat, h: nat, t: nat, filling: T)
    requires image.Length0 == t + h + t && image.Length1 == t + w + t
    modifies image
    ensures forall Y, X :: 0 <= Y < t + h + t && 0 <= X < t + w + t ==>
      image[Y, X] == if Interior(t, w, h, X, Y) then old(image[Y, X]) else filling
  {
    var stride := t + w + t;
    // Draw top and bottom borders
    var y := 0;
    while y < t
      invariant y <= t
      invariant forall Y, X :: 0 <= Y < t + h + t && 0 <= X < stride ==>
        image[Y, X] == if Y < y || t + h <= Y < t + h + y then filling else old(image[Y, X])
    {
      var x := 0;
      while x < stride
        invariant x <= stride
        invariant forall Y, X :: 0 <= Y < t + h + t && 0 <= X < stride ==>
          image[Y, X] ==
            if Y < y || t + h <= Y < t + h + y || ((Y == y || Y == t + h + y) && X < x) then filling
            else old(image[Y, X])
      {
        image[y, x] := filling;
        image[t + h + y, x] := filling;
        x := x + 1;
      }
      y := y + 1;
    }
    // Draw left and right borders
    y := 0;
    while y < h
      invariant y <= h
      invariant forall Y, X :: 0 <= Y < t + h + t && 0 <= X < stride ==>
        image[Y, X] ==
          if Y < t || t + h <= Y || (Y < t + y && (X < t || t + w <= X)) then filling
          else old(image[Y, X])
    {
      var x := 0;
      while x < t
        invariant x <= t
        invariant forall Y, X :: 0 <= Y < t + h + t && 0 <= X < stride ==>
          image[Y, X] ==
            if Y < t || t + h <= Y || (Y < t + y && (X < t || t + w <= X))
               || (Y == t + y && (X < x || t + w <= X < t + w + x)) then filling
            else old(image[Y, X])
      {
        image[t + y, x] := filling;
        image[t + y, t + w + x] := filling;
        x := x + 1;
      }
      y := y + 1;
    }
  }

  /** Replicate: every top (bottom) band column takes the first (last)
      interior sample of its column; then every left (right) band row, over
      the full height, takes the first (last) interior sample of its row. */
  method BorderReplicate<T>(image: array2<T>, w: nat, h: nat, t: nat)
    requires image.Length0 == t + h + t && image.Length1 == t + w + t && Supported(Replicate, w, h, t)
    modifies image
    ensures forall Y, X :: 0 <= Y < t + h + t && 0 <= X < t + w + t ==>
      image[Y, X] == old(image[SourceCoord(Replicate, t, h, Y), SourceCoord(Replicate, t, w, X)])
  {
    ReplicateTopBottom(image, w, h, t);
    ReplicateLeftRight(image, w, h, t);
  }

  /** First pass of Replicate ("draw top and bottom borders"): the band
      cells of the interior columns take their column's edge sample. */
  method ReplicateTopBottom<T>(image: array2<T>, w: nat, h: nat, t: nat)
    requires image.Length0 == t + h + t && image.Length1 == t + w + t && Supported(Replicate, w, h, t)
    modifies image
    ensures forall Y, X :: 0 <= Y < t + h + t && 0 <= X < t + w + t ==>
      image[Y, X] == if t <= X < t + w then old(image[SourceCoord(Replicate, t, h, Y), X]) else old(image[Y, X])
  {
    var x := 0;
    while x < w
      invariant x <= w
      invariant forall Y, X :: 0 <= Y < t + h + t && 0 <= X < t + w + t ==>
        image[Y, X] == if t <= X < t + x then old(image[SourceCoord(Replicate, t, h, Y), X]) else old(image[Y, X])
    {
      var filling1 := image[t, t + x];
      var filling2 := image[t + h - 1, t + x];
      var y := 0;
      while y < t
        invariant y <= t
        invariant forall Y, X :: 0 <= Y < t + h + t && 0 <= X < t + w + t ==>
          image[Y, X] ==
            if t <= X < t + x || (X == t + x && (Y < y || t + h <= Y < t + h + y))
            then old(image[SourceCoord(Replicate, t, h, Y), X])
            else old(image[Y, X])
      {
        image[y, t + x] := filling1;
        image[t + h + y, t + x] := filling2;
        y := y + 1;
      }
      x := x + 1;
    }
  }

  /** Second pass of Replicate ("draw left and right borders"), over the full
      height: the side cells take their row's edge sample. */
  method ReplicateLeftRight<T>(image: array2<T>, w: nat, h: nat, t: nat)
    requires image.Length0 == t + h + t && image.Length1 == t + w + t && Supported(Replicate, w, h, t)
    modifies image
    ensures forall Y, X :: 0 <= Y < t + h + t && 0 <= X < t + w + t ==>
      image[Y, X] == old(image[Y, SourceCoord(Replicate, t, w, X)])
  {
    var y := 0;
    while y < t + h + t
      invariant y <= t + h + t
      invariant forall Y, X :: 0 <= Y < t + h + t && 0 <= X < t + w + t ==>
        image[Y, X] == if Y < y then old(image[Y, SourceCoord(Replicate, t, w, X)]) else old(image[Y, X])
    {
      var filling1 := image[y, t];
      var filling2 := image[y, t + w - 1];
      var x := 0;
      while x < t
        invariant x <= t
        invariant forall Y, X :: 0 <= Y < t + h + t && 0 <= X < t + w + t ==>
          image[Y, X] ==
            if Y < y || (Y == y && (X < x || t <= X < t + w + x)) then old(image[Y, SourceCoord(Replicate, t, w, X)])
            else old(image[Y, X])
      {
        image[y, x] := filling1;
        image[y, t + w + x] := filling2;
        x := x + 1;
      }
      y := y + 1;
    }
  }

  /** Reflect: top band row `t - 1 - y` takes row `t + y` and bottom band row
      `t + h + y` takes row `t + h - 1 - y` (interior columns); then, over
      the full height, column `t - 1 - x` takes column `t + x` and column
      `t + w + x` takes column `t + w - 1 - x`. */
  method BorderReflect<T>(image: array2<T>, w: nat, h: nat, t: nat)
    requires image.Length0 == t + h + t && image.Length1 == t + w + t && Supported(Reflect, w, h, t)
    modifies image
    ensures forall Y, X :: 0 <= Y < t + h + t && 0 <= X < t + w + t ==>
      image[Y, X] == old(image[SourceCoord(Reflect, t, h, Y), SourceCoord(Reflect, t, w, X)])
  {
    ReflectTopBottom(image, w, h, t);
    ReflectLeftRight(image, w, h, t);
  }

  method ReflectTopBottom<T>(image: array2<T>, w: nat, h: nat, t: nat)
    requires image.Length0 == t + h + t && image.Length1 == t + w + t && Supported(Reflect, w, h, t)
    modifies image
    ensures forall Y, X :: 0 <= Y < t + h + t && 0 <= X < t + w + t ==>
      image[Y, X] == if t <= X < t + w then old(image[SourceCoord(Reflect, t, h, Y), X]) else old(image[Y, X])
  {
    var y := 0;
    while y < t
      invariant y <= t
      invariant forall Y, X :: 0 <= Y < t + h + t && 0 <= X < t + w + t ==>
        image[Y, X] ==
          if t <= X < t + w && (t - y <= Y < t || t + h <= Y < t + h + y) then old(image[SourceCoord(Reflect, t, h, Y), X])
          else old(image[Y, X])
    {
      var x := 0;
      while x < w
        invariant x <= w
        invariant forall Y, X :: 0 <= Y < t + h + t && 0 <= X < t + w + t ==>
          image[Y, X] ==
            if (t <= X < t + w && (t - y <= Y < t || t + h <= Y < t + h + y))
               || (t <= X < t + x && (Y == t - 1 - y || Y == t + h + y))
            then old(image[SourceCoord(Reflect, t, h, Y), X])
            else old(image[Y, X])
      {
        image[t - 1 - y, t + x] := image[t + y, t + x];
        image[t + h + y, t + x] := image[t + h - 1 - y, t + x];
        x := x + 1;
      }
      y := y + 1;
    }
  }

  method ReflectLeftRight<T>(image: array2<T>, w: nat, h: nat, t: nat)
    requires image.Length0 == t + h + t && image.Length1 == t + w + t && Supported(Reflect, w, h, t)
    modifies image
    ensures forall Y, X :: 0 <= Y < t + h + t && 0 <= X < t + w + t ==>
      image[Y, X] == old(image[Y, SourceCoord(Reflect, t, w, X)])
  {
    var y := 0;
    while y < t + h + t
      invariant y <= t + h + t
      invariant forall Y, X :: 0 <= Y < t + h + t && 0 <= X < t + w + t ==>
        image[Y, X] == if Y < y then old(image[Y, SourceCoord(Reflect, t, w, X)]) else old(image[Y, X])
    {
      var x := 0;
      while x < t
        invariant x <= t
        invariant forall Y, X :: 0 <= Y < t + h + t && 0 <= X < t + w + t ==>
          image[Y, X] ==
            if Y < y || (Y == y && t - x <= X < t + w + x) then old(image[Y, SourceCoord(Reflect, t, w, X)])
            else old(image[Y, X])
      {
        image[y, t - 1 - x] := image[y, t + x];
        image[y, t + w + x] := image[y, t + w - 1 - x];
        x := x + 1;
      }
      y := y + 1;
    }
  }

  /** Reflect101: as Reflect, but mirrored about the edge sample: top band
      row `t - 1 - y` takes row `t + 1 + y`, bottom band row `t + h + y` takes
      row `t + h - 2 - y`, and likewise for the columns. */
  method BorderReflect101<T>(image: array2<T>, w: nat, h: nat, t: nat)
    requires image.Length0 == t + h + t && image.Length1 == t + w + t && Supported(Reflect101, w, h, t)
    modifies image
    ensures forall Y, X :: 0 <= Y < t + h + t && 0 <= X < t + w + t ==>
      image[Y, X] == old(image[SourceCoord(Reflect101, t, h, Y), SourceCoord(Reflect101, t, w, X)])
  {
    Reflect101TopBottom(image, w, h, t);
    Reflect101LeftRight(image, w, h, t);
  }

  method Reflect101TopBottom<T>(image: array2<T>, w: nat, h: nat, t: nat)
    requires image.Length0 == t + h + t && image.Length1 == t + w + t && Supported(Reflect101, w, h, t)
    modifies image
    ensures forall Y, X :: 0 <= Y < t + h + t && 0 <= X < t + w + t ==>
      image[Y, X] == if t <= X < t + w then old(image[SourceCoord(Reflect101, t, h, Y), X]) else old(image[Y, X])
  {
    var y := 0;
    while y < t
      invariant y <= t
      invariant forall Y, X :: 0 <= Y < t + h + t && 0 <= X < t + w + t ==>
        image[Y, X] ==
          if t <= X < t + w && (t - y <= Y < t || t + h <= Y < t + h + y) then old(image[SourceCoord(Reflect101, t, h, Y), X])
          else old(image[Y, X])
    {
      var x := 0;
      while x < w
        invariant x <= w
        invariant forall Y, X :: 0 <= Y < t + h + t && 0 <= X < t + w + t ==>
          image[Y, X] ==
            if (t <= X < t + w && (t - y <= Y < t || t + h <= Y < t + h + y))
               || (t <= X < t + x && (Y == t - 1 - y || Y == t + h + y))
            then old(image[SourceCoord(Reflect101, t, h, Y), X])
            else old(image[Y, X])
      {
        image[t - 1 - y, t + x] := image[t + 1 + y, t + x];
        image[t + h + y, t + x] := image[t + h - 2 - y, t + x];
        x := x + 1;
      }
      y := y + 1;
    }
  }

  method Reflect101LeftRight<T>(image: array2<T>, w: nat, h: nat, t: nat)
    requires image.Length0 == t + h + t && image.Length1 == t + w + t && Supported(Reflect101, w, h, t)
    modifies image
    ensures forall Y, X :: 0 <= Y < t + h + t && 0 <= X < t + w + t ==>
      image[Y, X] == old(image[Y, SourceCoord(Reflect101, t, w, X)])
  {
    var y := 0;
    while y < t + h + t
      invariant y <= t + h + t
      invariant forall Y, X :: 0 <= Y < t + h + t && 0 <= X < t + w + t ==>
        image[Y, X] == if Y < y then old(image[Y, SourceCoord(Reflect101, t, w, X)]) else old(image[Y, X])
    {
      var x := 0;
      while x < t
        invariant x <= t
        invariant forall Y, X :: 0 <= Y < t + h + t && 0 <= X < t + w + t ==>
          image[Y, X] ==
            if Y < y || (Y == y && t - x <= X < t + w + x) then old(image[Y, SourceCoord(Reflect101, t, w, X)])
            else old(image[Y, X])
      {
        image[y, t - 1 - x] := image[y, t + 1 + x];
        image[y, t + w + x] := image[y, t + w - 2 - x];
        x := x + 1;
      }
      y := y + 1;
    }
  }

  /** Wrap: the interior is a ring. The top band is filled upwards from the
      last interior row, the row cursor jumping back to the last row when it
      passes the first; the bottom band downwards from the first row; then in
      every row the left band leftwards from the last interior column and the
      right band rightwards from the first, with the same jumps. */
  method BorderWrap<T>(image: array2<T>, w: nat, h: nat, t: nat)
    requires image.Length0 == t + h + t && image.Length1 == t + w + t && Supported(Wrap, w, h, t)
    modifies image
    ensures forall Y, X :: 0 <= Y < t + h + t && 0 <= X < t + w + t ==>
      image[Y, X] == old(image[SourceCoord(Wrap, t, h, Y), SourceCoord(Wrap, t, w, X)])
  {
    var startIdxFilling, endIdxFilling := WrapTop(image, w, h, t);
    WrapBottom(image, w, h, t, startIdxFilling, endIdxFilling);
    WrapLeft(image, w, h, t);
    WrapRight(image, w, h, t);
  }

  /** "Draw top border": margin row `t - 1 - y` takes interior row
      `t + h - 1 - y % h`; returns the row cursor's two ends. */
  method WrapTop<T>(image: array2<T>, w: nat, h: nat, t: nat) returns (startIdxFilling: int, endIdxFilling: int)
    requires image.Length0 == t + h + t && image.Length1 == t + w + t && Supported(Wrap, w, h, t)
    modifies image
    ensures startIdxFilling == t + h - 1 && endIdxFilling == t
    ensures forall Y, X :: 0 <= Y < t + h + t && 0 <= X < t + w + t ==>
      image[Y, X] == if t <= X < t + w && Y < t then old(image[SourceCoord(Wrap, t, h, Y), X]) else old(image[Y, X])
  {
    endIdxFilling := t;
    startIdxFilling := t + h - 1;
    var scanlineFilling := startIdxFilling;
    var y := 0;
    while y < t
      invariant y <= t
      invariant y < t ==> 0 < h && scanlineFilling == t + h - 1 - y % h
      invariant forall Y, X :: 0 <= Y < t + h + t && 0 <= X < t + w + t ==>
        image[Y, X] ==
          if t <= X < t + w && t - y <= Y < t then old(image[SourceCoord(Wrap, t, h, Y), X])
          else old(image[Y, X])
    {
      var x := 0;
      while x < w
        invariant x <= w
        invariant forall Y, X :: 0 <= Y < t + h + t && 0 <= X < t + w + t ==>
          image[Y, X] ==
            if (t <= X < t + w && t - y <= Y < t) || (t <= X < t + x && Y == t - 1 - y)
            then old(image[SourceCoord(Wrap, t, h, Y), X])
            else old(image[Y, X])
      {
        image[t - 1 - y, t + x] := image[scanlineFilling, t + x];
        x := x + 1;
      }
      ModNext(y, h);
      if scanlineFilling == endIdxFilling {
        scanlineFilling := startIdxFilling;
      } else {
        scanlineFilling := scanlineFilling - 1;
      }
      y := y + 1;
    }
  }

  /** "Draw bottom border", with the top pass's cursor ends swapped: margin
      row `t + h + y` takes interior row `t + y % h`. */
  method WrapBottom<T>(image: array2<T>, w: nat, h: nat, t: nat, start: int, end: int)
    requires image.Length0 == t + h + t && image.Length1 == t + w + t && Supported(Wrap, w, h, t)
    requires start == t + h - 1 && end == t
    modifies image
    ensures forall Y, X :: 0 <= Y < t + h + t && 0 <= X < t + w + t ==>
      image[Y, X] == if t <= X < t + w && t + h <= Y then old(image[SourceCoord(Wrap, t, h, Y), X]) else old(image[Y, X])
  {
    var startIdxFilling, endIdxFilling := end, start;
    var scanlineFilling := startIdxFilling;
    var y := 0;
    while y < t
      invariant y <= t
      invariant y < t ==> 0 < h && scanlineFilling == t + y % h
      invariant forall Y, X :: 0 <= Y < t + h + t && 0 <= X < t + w + t ==>
        image[Y, X] ==
          if t <= X < t + w && t + h <= Y < t + h + y then old(image[SourceCoord(Wrap, t, h, Y), X])
          else old(image[Y, X])
    {
      var x := 0;
      while x < w
        invariant x <= w
        invariant forall Y, X :: 0 <= Y < t + h + t && 0 <= X < t + w + t ==>
          image[Y, X] ==
            if (t <= X < t + w && t + h <= Y < t + h + y) || (t <= X < t + x && Y == t + h + y)
            then old(image[SourceCoord(Wrap, t, h, Y), X])
            else old(image[Y, X])
      {
        image[t + h + y, t + x] := image[scanlineFilling, t + x];
        x := x + 1;
      }
      ModNext(y, h);
      if scanlineFilling == endIdxFilling {
        scanlineFilling := startIdxFilling;
      } else {
        scanlineFilling := scanlineFilling + 1;
      }
      y := y + 1;
    }
  }

  /** "Draw left border", every row of the full height: margin column
      `t - 1 - x` takes interior column `t + w - 1 - x % w`. */
  method WrapLeft<T>(image: array2<T>, w: nat, h: nat, t: nat)
    requires image.Length0 == t + h + t && image.Length1 == t + w + t && Supported(Wrap, w, h, t)
    modifies image
    ensures forall Y, X :: 0 <= Y < t + h + t && 0 <= X < t + w + t ==>
      image[Y, X] == if X < t then old(image[Y, SourceCoord(Wrap, t, w, X)]) else old(image[Y, X])
  {
    var y := 0;
    while y < t + h + t
      invariant y <= t + h + t
      invariant forall Y, X :: 0 <= Y < t + h + t && 0 <= X < t + w + t ==>
        image[Y, X] == if Y < y && X < t then old(image[Y, SourceCoord(Wrap, t, w, X)]) else old(image[Y, X])
    {
      var endIdxFilling, startIdxFilling := t, t + w - 1;
      var idxFilling := startIdxFilling;
      var x := 0;
      while x < t
        invariant x <= t
        invariant x < t ==> 0 < w && idxFilling == t + w - 1 - x % w
        invariant forall Y, X :: 0 <= Y < t + h + t && 0 <= X < t + w + t ==>
          image[Y, X] ==
            if (Y < y && X < t) || (Y == y && t - x <= X < t) then old(image[Y, SourceCoord(Wrap, t, w, X)])
            else old(image[Y, X])
      {
        assert SourceCoord(Wrap, t, w, t - 1 - x) == idxFilling;
        image[y, t - 1 - x] := image[y, idxFilling];
        ModNext(x, w);
        if idxFilling == endIdxFilling {
          idxFilling := startIdxFilling;
        } else {
          idxFilling := idxFilling - 1;
        }
        x := x + 1;
      }
      y := y + 1;
    }
  }

  /** "Draw right border", every row of the full height: margin column
      `t + w + x` takes interior column `t + x % w`. */
  method WrapRight<T>(image: array2<T>, w: nat, h: nat, t: nat)
    requires image.Length0 == t + h + t && image.Length1 == t + w + t && Supported(Wrap, w, h, t)
    modifies image
    ensures forall Y, X :: 0 <= Y < t + h + t && 0 <= X < t + w + t ==>
      image[Y, X] == if t + w <= X then old(image[Y, SourceCoord(Wrap, t, w, X)]) else old(image[Y, X])
  {
    var y := 0;
    while y < t + h + t
      invariant y <= t + h + t
      invariant forall Y, X :: 0 <= Y < t + h + t && 0 <= X < t + w + t ==>
        image[Y, X] == if Y < y && t + w <= X then old(image[Y, SourceCoord(Wrap, t, w, X)]) else old(image[Y, X])
    {
      var startIdxFilling, endIdxFilling := t, t + w - 1;
      var idxFilling := startIdxFilling;
      var x := 0;
      while x < t
        invariant x <= t
        invariant x < t ==> 0 < w && idxFilling == t + x % w
        invariant forall Y, X :: 0 <= Y < t + h + t && 0 <= X < t + w + t ==>
          image[Y, X] ==
            if (Y < y && t + w <= X) || (Y == y && t + w <= X < t + w + x) then old(image[Y, SourceCoord(Wrap, t, w, X)])
            else old(image[Y, X])
      {
        assert SourceCoord(Wrap, t, w, t + w + x) == idxFilling;
        image[y, t + w + x] := image[y, idxFilling];
        ModNext(x, w);
        if idxFilling == endIdxFilling {
          idxFilling := startIdxFilling;
        } else {
          idxFilling := idxFilling + 1;
        }
        x := x + 1;
      }
      y := y + 1;
    }
  }
}
