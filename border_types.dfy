/** The border policies of `BorderType` (after OpenCV's border modes) and what
    each one puts in the margin of one axis: an axis of `n` samples extended by
    `t` cells on both sides, in extended coordinates `0 .. t + n + t`, whose
    samples sit at `t .. t + n`. */
module BorderTypes {
  import opened Grid

  datatype BorderType = Constant | Replicate | Reflect | Wrap | Reflect101 | Isolated

  /** The policies whose margin copies interior samples. */
  predicate Copies(kind: BorderType) {
    kind.Replicate? || kind.Reflect? || kind.Wrap? || kind.Reflect101?
  }

  /** Sizes for which the border routine of `kind` only reads interior
      samples when it fills one axis of `n` samples with thickness `t`. */
  predicate AxisSupported(kind: BorderType, n: nat, t: nat) {
    match kind
    case Constant => true
    case Isolated => true
    case Replicate => n > 0
    case Wrap => t == 0 || n > 0
    case Reflect => t <= n
    case Reflect101 => t == 0 || t < n
  }

  /** Both axes of a `w` x `h` image. */
  predicate Supported(kind: BorderType, w: nat, h: nat, t: nat) {
    AxisSupported(kind, w, t) && AxisSupported(kind, h, t)
  }

  /** The extended coordinate of the interior sample that cell `x` of the
      extended axis holds, for a policy that copies. Interior cells hold
      themselves; margin cells follow the index walk of the border routines. */
  function SourceCoord(kind: BorderType, t: nat, n: nat, x: nat): (s: nat)
    requires Copies(kind) && AxisSupported(kind, n, t) && x < t + n + t
    ensures t <= s < t + n
    ensures t <= x < t + n ==> s == x
  {
    if t <= x < t + n then x
    else match kind
      case Replicate => if x < t then t else t + n - 1
      case Reflect => if x < t then 2 * t - 1 - x else 2 * (t + n) - 1 - x
      case Reflect101 => if x < t then 2 * t - x else 2 * (t + n) - 2 - x
      case Wrap => if x < t then t + n - 1 - (t - 1 - x) % n else t + (x - t - n) % n
  }

  /** Replicate clamps to the nearest interior sample. */
  lemma ReplicateClamps(t: nat, n: nat, x: nat)
    requires n > 0 && x < t + n + t
    ensures SourceCoord(Replicate, t, n, x) == if x < t then t else if x < t + n then x else t + n - 1
  {
  }

  /** Reflect: margin cell `k` away from the edge copies interior cell `k`
      (the edge sample is repeated). */
  lemma ReflectMirrors(t: nat, n: nat, k: nat)
    requires t <= n && k < t
    ensures SourceCoord(Reflect, t, n, t - 1 - k) == t + k
    ensures SourceCoord(Reflect, t, n, t + n + k) == t + n - 1 - k
  {
  }

  /** Reflect101: margin cell `k` away from the edge copies interior cell
      `k + 1` (the edge sample is the mirror axis and is not repeated). */
  lemma Reflect101Mirrors(t: nat, n: nat, k: nat)
    requires t < n && k < t
    ensures SourceCoord(Reflect101, t, n, t - 1 - k) == t + 1 + k
    ensures SourceCoord(Reflect101, t, n, t + n + k) == t + n - 2 - k
  {
  }

  /** Reflect101 keeps the parity of the coordinate: the mirror pairs cells
      an even distance apart, so a 2 x 2 colour mosaic stays in phase. */
  lemma Reflect101KeepsParity(t: nat, n: nat, x: nat)
    requires t < n && x < t + n + t
    ensures SourceCoord(Reflect101, t, n, x) % 2 == x % 2
  {
    var s := SourceCoord(Reflect101, t, n, x);
    if x < t {
      DivModUnique(s, 2, t - x + x / 2, x % 2);
    } else if x >= t + n {
      DivModUnique(s, 2, t + n - 1 - x + x / 2, x % 2);
    }
  }

  /** Wrap treats the interior as a ring: every cell, in the margin or not and
      however many times the margin goes round, holds the interior sample
      congruent to it modulo `n`. */
  lemma WrapIsRing(t: nat, n: nat, x: nat)
    requires n > 0 && x < t + n + t
    ensures SourceCoord(Wrap, t, n, x) == t + (x - t) % n
  {
    if x < t {
      var k := t - 1 - x;
      var q, r := k / n, k % n;
      assert x - t == -(q + 1) * n + (n - 1 - r);
      DivModUnique(x - t, n, -(q + 1), n - 1 - r);
    } else if x >= t + n {
      var q, r := (x - t - n) / n, (x - t - n) % n;
      DivModUnique(x - t, n, q + 1, r);
    } else {
      DivModUnique(x - t, n, 0, x - t);
    }
  }

  /** Cell `x` of one axis (a row or a column) extended under `kind`; `fill`
      is the constant of Constant and the untouched default of Isolated. */
  function LineCell<T>(s: seq<T>, t: nat, kind: BorderType, fill: T, x: nat): T
    requires AxisSupported(kind, |s|, t) && x < t + |s| + t
  {
    if t <= x < t + |s| then s[x - t]
    else if Copies(kind) then s[SourceCoord(kind, t, |s|, x) - t]
    else fill
  }

  /** One axis extended under `kind`; the rows of a 2-D extension are these. */
  function Line<T>(s: seq<T>, t: nat, kind: BorderType, fill: T): (r: seq<T>)
    requires AxisSupported(kind, |s|, t)
    ensures |r| == t + |s| + t
    ensures r[t..t + |s|] == s
  {
    var r := seq(t + |s| + t, x requires 0 <= x < t + |s| + t => LineCell(s, t, kind, fill, x));
    assert forall i :: 0 <= i < |s| ==> r[t..t + |s|][i] == s[i];
    r
  }

  function Reversed<T>(s: seq<T>): (r: seq<T>)
    ensures |r| == |s|
  {
    seq(|s|, i requires 0 <= i < |s| => s[|s| - 1 - i])
  }

  function LeftMargin<T>(r: seq<T>, t: nat): seq<T>
    requires t <= |r|
  {
    r[..t]
  }

  function RightMargin<T>(r: seq<T>, t: nat): seq<T>
    requires t <= |r|
  {
    r[|r| - t..]
  }

  /** `iiiiii|abcdefgh|iiiiiii`: every margin cell is the fill value. */
  lemma ConstantLine<T>(s: seq<T>, t: nat, i: T)
    ensures LeftMargin(Line(s, t, Constant, i), t) == seq(t, _ => i)
    ensures RightMargin(Line(s, t, Constant, i), t) == seq(t, _ => i)
  {
  }

  /** `aaaaaa|abcdefgh|hhhhhhh`: the margins repeat the edge samples. */
  lemma ReplicateLine<T>(s: seq<T>, t: nat, fill: T)
    requires |s| > 0
    ensures LeftMargin(Line(s, t, Replicate, fill), t) == seq(t, _ => s[0])
    ensures RightMargin(Line(s, t, Replicate, fill), t) == seq(t, _ => s[|s| - 1])
  {
  }

  /** `fedcba|abcdefgh|hgfedcb`: the margins mirror the samples nearest the
      edge, edge sample included. */
  lemma ReflectLine<T>(s: seq<T>, t: nat, fill: T)
    requires t <= |s|
    ensures LeftMargin(Line(s, t, Reflect, fill), t) == Reversed(s[..t])
    ensures RightMargin(Line(s, t, Reflect, fill), t) == Reversed(s[|s| - t..])
  {
  }

  /** `cdefgh|abcdefgh|abcdefg`: the left margin is the tail of the axis in
      order and the right margin its head. */
  lemma WrapLine<T>(s: seq<T>, t: nat, fill: T)
    requires t <= |s|
    ensures LeftMargin(Line(s, t, Wrap, fill), t) == s[|s| - t..]
    ensures RightMargin(Line(s, t, Wrap, fill), t) == s[..t]
  {
    var n := |s|;
    forall k | 0 <= k < t
      ensures k % n == k
    {
      DivModUnique(k, n, 0, k);
    }
  }

  /** `gfedcb|abcdefgh|gfedcba`: the margins mirror the samples next to the
      edge, the edge sample excluded. */
  lemma Reflect101Line<T>(s: seq<T>, t: nat, fill: T)
    requires t < |s|
    ensures LeftMargin(Line(s, t, Reflect101, fill), t) == Reversed(s[1..t + 1])
    ensures RightMargin(Line(s, t, Reflect101, fill), t) == Reversed(s[|s| - 1 - t..|s| - 1])
  {
  }

  /** Isolated: nothing outside the samples is filled; the margin keeps what
      it held (a fresh buffer's default). */
  lemma IsolatedLine<T>(s: seq<T>, t: nat, blank: T)
    ensures LeftMargin(Line(s, t, Isolated, blank), t) == seq(t, _ => blank)
    ensures RightMargin(Line(s, t, Isolated, blank), t) == seq(t, _ => blank)
  {
  }

  /** The doc-comment patterns of `BorderType`, on the row `abcdefgh` with a
      six-cell left and a seven-cell right margin. */
  lemma ReplicateDocComment()
    ensures LeftMargin(Line("abcdefgh", 6, Replicate, 'i'), 6) == "aaaaaa"
    ensures RightMargin(Line("abcdefgh", 7, Replicate, 'i'), 7) == "hhhhhhh"
  {
    ReplicateLine("abcdefgh", 6, 'i');
    ReplicateLine("abcdefgh", 7, 'i');
  }

  lemma ReflectDocComment()
    ensures LeftMargin(Line("abcdefgh", 6, Reflect, 'i'), 6) == "fedcba"
    ensures RightMargin(Line("abcdefgh", 7, Reflect, 'i'), 7) == "hgfedcb"
  {
    var s := "abcdefgh";
    ReflectLine(s, 6, 'i');
    assert s[..6] == "abcdef";
    assert Reversed("abcdef") == "fedcba";
    ReflectLine(s, 7, 'i');
    assert s[1..] == "bcdefgh";
    assert Reversed("bcdefgh") == "hgfedcb";
  }

  lemma WrapDocComment()
    ensures LeftMargin(Line("abcdefgh", 6, Wrap, 'i'), 6) == "cdefgh"
    ensures RightMargin(Line("abcdefgh", 7, Wrap, 'i'), 7) == "abcdefg"
  {
    var s := "abcdefgh";
    WrapLine(s, 6, 'i');
    assert s[2..] == "cdefgh";
    WrapLine(s, 7, 'i');
    assert s[..7] == "abcdefg";
  }

  lemma Reflect101DocComment()
    ensures LeftMargin(Line("abcdefgh", 6, Reflect101, 'i'), 6) == "gfedcb"
    ensures RightMargin(Line("abcdefgh", 7, Reflect101, 'i'), 7) == "gfedcba"
  {
    var s := "abcdefgh";
    Reflect101Line(s, 6, 'i');
    assert s[1..7] == "bcdefg";
    assert Reversed("bcdefg") == "gfedcb";
    Reflect101Line(s, 7, 'i');
    assert s[0..7] == "abcdefg";
    assert Reversed("abcdefg") == "gfedcba";
  }
}
