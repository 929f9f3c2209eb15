/** The buffer helpers of ImageUtils: strided copy (`Copy2D`), element-wise
    sums (`Add`, `AddInPlace`) and interleaving planes into one buffer
    (`Merge`). Planes are `array2`, indexed [row, column]. */
module Buffers {
  import opened Grid
  import opened Border

  // ---------------------------------------------------------------------
  // Copy2D
  // ---------------------------------------------------------------------

  /** `Copy2D<T>`: the cells of the lattice `(startX + i * strideX,
      startY + j * strideY)` take the source's values; every other
      destination cell is unchanged. `src` and `dst` may be the same buffer. */
  method Copy2D<T>(src: array2<T>, dst: array2<T>, startX: nat, startY: nat, strideX: nat, strideY: nat)
    requires src.Length0 == dst.Length0 && src.Length1 == dst.Length1 && strideX > 0 && strideY > 0
    modifies dst
    ensures forall y, x :: 0 <= y < dst.Length0 && 0 <= x < dst.Length1 ==>
      dst[y, x] == if OnLattice(x, startX, strideX) && OnLattice(y, startY, strideY) then old(src[y, x]) else old(dst[y, x])
  {
    var width, height := dst.Length1, dst.Length0;
    var y := startY;
    LatticeStart(startY, strideY);
    while y < height
      invariant OnLattice(y, startY, strideY)
      invariant forall Y, X :: 0 <= Y < height && 0 <= X < width ==>
        dst[Y, X] == if Y < y && OnLattice(X, startX, strideX) && OnLattice(Y, startY, strideY) then old(src[Y, X]) else old(dst[Y, X])
      invariant forall Y, X :: 0 <= Y < height && 0 <= X < width && src != dst ==> src[Y, X] == old(src[Y, X])
    {
      var x := startX;
      LatticeStart(startX, strideX);
      while x < width
        invariant OnLattice(x, startX, strideX)
        invariant forall Y, X :: 0 <= Y < height && 0 <= X < width ==>
          dst[Y, X] ==
            if (Y < y && OnLattice(X, startX, strideX) && OnLattice(Y, startY, strideY)) || (Y == y && X < x && OnLattice(X, startX, strideX))
            then old(src[Y, X]) else old(dst[Y, X])
        invariant forall Y, X :: 0 <= Y < height && 0 <= X < width && src != dst ==> src[Y, X] == old(src[Y, X])
      {
        dst[y, x] := src[y, x];
        LatticeNext(x, startX, strideX);
        x := x + strideX;
      }
      LatticeNext(y, startY, strideY);
      y := y + strideY;
    }
  }

  /** `Copy2D<TSrc, TDst>` into a `double` plane: as `Copy2D`, each copied
      sample converted by `widen` (exact for the integer pixel types). */
  method Copy2DConvert<T>(src: array2<T>, dst: array2<real>, widen: T -> real,
                          startX: nat, startY: nat, strideX: nat, strideY: nat)
    requires src as object != dst as object
    requires src.Length0 == dst.Length0 && src.Length1 == dst.Length1 && strideX > 0 && strideY > 0
    modifies dst
    ensures forall y, x :: 0 <= y < dst.Length0 && 0 <= x < dst.Length1 ==>
      dst[y, x] == if OnLattice(x, startX, strideX) && OnLattice(y, startY, strideY) then widen(src[y, x]) else old(dst[y, x])
  {
    var width, height := dst.Length1, dst.Length0;
    var y := startY;
    LatticeStart(startY, strideY);
    while y < height
      invariant OnLattice(y, startY, strideY)
      invariant forall Y, X :: 0 <= Y < height && 0 <= X < width ==>
        dst[Y, X] == if Y < y && OnLattice(X, startX, strideX) && OnLattice(Y, startY, strideY) then widen(src[Y, X]) else old(dst[Y, X])
    {
      var x := startX;
      LatticeStart(startX, strideX);
      while x < width
        invariant OnLattice(x, startX, strideX)
        invariant forall Y, X :: 0 <= Y < height && 0 <= X < width ==>
          dst[Y, X] ==
            if (Y < y && OnLattice(X, startX, strideX) && OnLattice(Y, startY, strideY)) || (Y == y && X < x && OnLattice(X, startX, strideX))
            then widen(src[Y, X]) else old(dst[Y, X])
      {
        dst[y, x] := widen(src[y, x]);
        LatticeNext(x, startX, strideX);
        x := x + strideX;
      }
      LatticeNext(y, startY, strideY);
      y := y + strideY;
    }
  }

  // ---------------------------------------------------------------------
  // Add, AddInPlace
  // ---------------------------------------------------------------------

  /** The cell-wise sum of two planes of the same shape. */
  function Sum(a: seq<seq<real>>, b: seq<seq<real>>, w: nat, h: nat): (r: seq<seq<real>>)
    requires IsImage(a, w, h) && IsImage(b, w, h)
    ensures IsImage(r, w, h)
  {
    seq(h, y requires 0 <= y < h => seq(w, x requires 0 <= x < w => a[y][x] + b[y][x]))
  }

  /** `Add`: a fresh plane holding the cell-wise sum. */
  method Add(a: array2<real>, b: array2<real>) returns (sum: array2<real>)
    requires a.Length0 == b.Length0 && a.Length1 == b.Length1
    ensures fresh(sum) && sum.Length0 == a.Length0 && sum.Length1 == a.Length1
    ensures Contents(sum) == Sum(Contents(a), Contents(b), a.Length1, a.Length0)
  {
    var width, height := a.Length1, a.Length0;
    sum := new real[height, width];
    var y := 0;
    while y < height
      invariant y <= height
      invariant forall Y, X :: 0 <= Y < y && 0 <= X < width ==> sum[Y, X] == a[Y, X] + b[Y, X]
    {
      var x := 0;
      while x < width
        invariant x <= width
        invariant forall Y, X :: 0 <= Y < height && 0 <= X < width && (Y < y || (Y == y && X < x)) ==> sum[Y, X] == a[Y, X] + b[Y, X]
      {
        sum[y, x] := a[y, x] + b[y, x];
        x := x + 1;
      }
      y := y + 1;
    }
    ghost var s := Sum(Contents(a), Contents(b), width, height);
    forall Y | 0 <= Y < height
      ensures Contents(sum)[Y] == s[Y]
    {
    }
  }

  /** `AddInPlace`: `target` becomes the cell-wise sum of its old contents
      and `source`, and is returned. `source` may be `target` itself. */
  method AddInPlace(target: array2<real>, source: array2<real>) returns (result: array2<real>)
    requires target.Length0 == source.Length0 && target.Length1 == source.Length1
    modifies target
    ensures result == target
    ensures Contents(target) == Sum(old(Contents(target)), old(Contents(source)), target.Length1, target.Length0)
  {
    var width, height := target.Length1, target.Length0;
    ghost var s := Sum(Contents(target), Contents(source), width, height);
    var y := 0;
    while y < height
      invariant y <= height
      invariant forall Y, X :: 0 <= Y < height && 0 <= X < width ==>
        target[Y, X] == if Y < y then s[Y][X] else old(target[Y, X])
      invariant forall Y, X :: 0 <= Y < height && 0 <= X < width && source != target ==> source[Y, X] == old(source[Y, X])
    {
      var x := 0;
      while x < width
        invariant x <= width
        invariant forall Y, X :: 0 <= Y < height && 0 <= X < width ==>
          target[Y, X] == if Y < y || (Y == y && X < x) then s[Y][X] else old(target[Y, X])
        invariant forall Y, X :: 0 <= Y < height && 0 <= X < width && source != target ==> source[Y, X] == old(source[Y, X])
      {
        target[y, x] := target[y, x] + source[y, x];
        x := x + 1;
      }
      y := y + 1;
    }
    forall Y | 0 <= Y < height
      ensures Contents(target)[Y] == s[Y]
    {
    }
    result := target;
  }

  // ---------------------------------------------------------------------
  // Merge
  // ---------------------------------------------------------------------

  /** Every plane holds at least as many samples as the first. */
  predicate Planes<T>(channels: seq<seq<T>>) {
    |channels| > 0 && forall c :: 0 <= c < |channels| ==> |channels[0]| <= |channels[c]|
  }

  /** Sample `i` of every plane, in plane order: one merged pixel. */
  function Pixel<T>(channels: seq<seq<T>>, i: nat): (r: seq<T>)
    requires Planes(channels) && i < |channels[0]|
    ensures |r| == |channels|
  {
    seq(|channels|, c requires 0 <= c < |channels| => channels[c][i])
  }

  /** The merged pixels from sample `i` to the end of the first plane. */
  function Interleaved<T>(channels: seq<seq<T>>, i: nat): (r: seq<T>)
    requires Planes(channels) && i <= |channels[0]|
    ensures |r| == (|channels[0]| - i) * |channels|
    decreases |channels[0]| - i
  {
    if i == |channels[0]| then []
    else Pixel(channels, i) + Interleaved(channels, i + 1)
  }

  /** The pixel-interleaved buffer `Merge` returns. */
  function Merged<T>(channels: seq<seq<T>>): (r: seq<T>)
    requires Planes(channels)
    ensures |r| == |channels[0]| * |channels|
  {
    Interleaved(channels, 0)
  }

  lemma MulMono(a: nat, b: nat, k: nat)
    requires a <= b
    ensures a * k <= b * k
  {
  }

  /** Sample `i` of plane `c` sits at `(i - from) * k + c` of the merged
      pixels from `from` on. */
  lemma {:induction false} InterleavedAt<T>(channels: seq<seq<T>>, from: nat, i: nat, c: nat)
    requires Planes(channels) && c < |channels| && from <= i < |channels[0]|
    ensures (i - from) * |channels| + c < |Interleaved(channels, from)|
    ensures Interleaved(channels, from)[(i - from) * |channels| + c] == channels[c][i]
    decreases i - from
  {
    var k, q := |channels|, i - from;
    var flat := Interleaved(channels, from);
    MulMono(q + 1, |channels[0]| - from, k);
    MulSucc(q, k);
    if q > 0 {
      InterleavedAt(channels, from + 1, i, c);
      MulSucc(q - 1, k);
      assert flat[q * k + c] == Interleaved(channels, from + 1)[(q - 1) * k + c];
    }
  }

  lemma MulSucc(q: nat, k: nat)
    ensures (q + 1) * k == q * k + k
  {
  }

  /** Sample `i` of plane `c` sits at `i * k + c` of the merged buffer. */
  lemma MergedAt<T>(channels: seq<seq<T>>, i: nat, c: nat)
    requires Planes(channels) && c < |channels| && i < |channels[0]|
    ensures i * |channels| + c < |Merged(channels)|
    ensures Merged(channels)[i * |channels| + c] == channels[c][i]
  {
    InterleavedAt(channels, 0, i, c);
  }

  /** Plane `c` of a buffer interleaving `k` planes: every `k`-th sample
      from `c` on. */
  function Plane<T>(flat: seq<T>, k: nat, c: nat): (r: seq<T>)
    requires c < k
    decreases |flat|
  {
    if |flat| < k then [] else [flat[c]] + Plane(flat[k..], k, c)
  }

  /** Splitting the merged pixels gives back every plane. */
  lemma {:induction false} PlaneOfInterleaved<T>(channels: seq<seq<T>>, from: nat, c: nat)
    requires Planes(channels) && c < |channels| && from <= |channels[0]|
    ensures Plane(Interleaved(channels, from), |channels|, c) == channels[c][from..|channels[0]|]
    decreases |channels[0]| - from
  {
    if from < |channels[0]| {
      PlaneOfInterleaved(channels, from + 1, c);
      var flat := Interleaved(channels, from);
      assert flat[|channels|..] == Interleaved(channels, from + 1);
    }
  }

  /** `Merge` loses nothing: plane `c` of its result is the first
      `|channels[0]|` samples of `channels[c]`. */
  lemma PlaneOfMerged<T>(channels: seq<seq<T>>, c: nat)
    requires Planes(channels) && c < |channels|
    ensures Plane(Merged(channels), |channels|, c) == channels[c][..|channels[0]|]
  {
    PlaneOfInterleaved(channels, 0, c);
  }

  /** `Merge`: interleave the planes (a `params` array of at least one
      plane) into one fresh buffer, pixel by pixel. */
  method Merge<T(0)>(channels: seq<seq<T>>) returns (result: array<T>)
    requires Planes(channels)
    ensures fresh(result)
    ensures result[..] == Merged(channels)
  {
    var channelCount, elementCount := |channels|, |channels[0]|;
    result := new T[elementCount * channelCount];
    ghost var target := Merged(channels);
    var idxResult, idxElement := 0, 0;
    while idxResult < result.Length
      invariant idxResult == idxElement * channelCount && idxElement <= elementCount
      invariant idxResult <= result.Length == |target|
      invariant forall j :: 0 <= j < idxResult ==> result[j] == target[j]
    {
      MulMono(idxElement + 1, elementCount, channelCount);
      MulSucc(idxElement, channelCount);
      CopyPixel(result, channels, idxResult, idxElement, channels);
      idxResult, idxElement := idxResult + channelCount, idxElement + 1;
    }
    MulMono(idxElement, elementCount, channelCount);
  }

  /** The inner loop of both `Merge` overloads: sample `idxElement` of each
      of `channels`, written from `idxResult` on. `planes` is the whole set
      being merged, of which `channels` are the first. */
  method CopyPixel<T>(result: array<T>, channels: seq<seq<T>>, idxResult: nat, idxElement: nat, ghost planes: seq<seq<T>>)
    requires Planes(planes) && |channels| <= |planes| && channels == planes[..|channels|]
    requires idxElement < |planes[0]| && idxResult == idxElement * |planes| && idxResult + |planes| <= result.Length
    modifies result
    ensures forall j :: 0 <= j < result.Length && !(idxResult <= j < idxResult + |channels|) ==> result[j] == old(result[j])
    ensures forall j :: idxResult <= j < idxResult + |channels| ==> result[j] == Merged(planes)[j]
  {
    var idxChannel := 0;
    while idxChannel < |channels|
      invariant idxChannel <= |channels|
      invariant forall j :: 0 <= j < result.Length && !(idxResult <= j < idxResult + idxChannel) ==> result[j] == old(result[j])
      invariant forall j :: idxResult <= j < idxResult + idxChannel ==> result[j] == Merged(planes)[j]
    {
      MergedAt(planes, idxElement, idxChannel);
      assert planes[idxChannel] == channels[idxChannel];
      result[idxResult + idxChannel] := channels[idxChannel][idxElement];
      idxChannel := idxChannel + 1;
    }
  }

  /** The planes followed by one more plane, every sample of which is
      `filling`. */
  function WithFilling<T>(channels: seq<seq<T>>, filling: T): (r: seq<seq<T>>)
    requires Planes(channels)
    ensures Planes(r) && |r| == |channels| + 1 && r[0] == channels[0]
  {
    channels + [seq(|channels[0]|, _ => filling)]
  }

  /** `Merge(filling, ...)`: as `Merge` with the filling plane appended (the
      alpha plane of a 32-bit BGRA buffer). */
  method MergeWithFilling<T(0)>(filling: T, channels: seq<seq<T>>) returns (result: array<T>)
    requires Planes(channels)
    ensures fresh(result)
    ensures result[..] == Merged(WithFilling(channels, filling))
  {
    var channelCount, elementCount := |channels|, |channels[0]|;
    ghost var all := WithFilling(channels, filling);
    ghost var target := Merged(all);
    result := new T[elementCount * (channelCount + 1)];
    var idxResult, idxElement := 0, 0;
    assert channels == all[..channelCount];
    while idxResult < result.Length
      invariant idxResult == idxElement * (channelCount + 1) && idxElement <= elementCount
      invariant idxResult <= result.Length == |target|
      invariant forall j :: 0 <= j < idxResult ==> result[j] == target[j]
    {
      MulMono(idxElement + 1, elementCount, channelCount + 1);
      MulSucc(idxElement, channelCount + 1);
      CopyPixel(result, channels, idxResult, idxElement, all);
      MergedAt(all, idxElement, channelCount);
      result[idxResult + channelCount] := filling;
      idxResult, idxElement := idxResult + channelCount + 1, idxElement + 1;
    }
    MulMono(idxElement, elementCount, channelCount + 1);
  }

  /** The last plane of a buffer merged with `filling` is all `filling`. */
  lemma FillingPlane<T>(channels: seq<seq<T>>, filling: T)
    requires Planes(channels)
    ensures Plane(Merged(WithFilling(channels, filling)), |channels| + 1, |channels|) == seq(|channels[0]|, _ => filling)
  {
    var all := WithFilling(channels, filling);
    PlaneOfMerged(all, |channels|);
    assert all[|channels|][..|channels[0]|] == all[|channels|];
  }
}
