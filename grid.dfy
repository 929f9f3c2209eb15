/** Integer facts shared by the buffer routines: Euclidean division, the
    ring step of a wrapping cursor, and the lattice `start, start + stride,
    ...` that the strided loops visit. */
module Grid {

  /** Euclidean division is unique: the quotient and remainder are determined. */
  lemma DivModUnique(a: int, d: int, q: int, r: int)
    requires d > 0 && 0 <= r < d && a == q * d + r
    ensures a / d == q && a % d == r
  {
    var q', r' := a / d, a % d;
    var k := q - q';
    assert k * d == r' - r by {
      assert k * d == q * d - q' * d;
    }
    if k > 0 {
      MulAtLeast(k, d);
    } else if k < 0 {
      MulAtLeast(-k, d);
    }
  }

  lemma {:induction false} MulAtLeast(k: int, d: int)
    requires k >= 1 && d > 0
    ensures k * d >= d
  {
    if k > 1 {
      MulAtLeast(k - 1, d);
      assert k * d == (k - 1) * d + d;
    }
  }

  /** Stepping a counter modulo `n`. */
  lemma ModNext(y: nat, n: nat)
    requires n > 0
    ensures (y + 1) % n == if y % n == n - 1 then 0 else y % n + 1
  {
    var q, r := y / n, y % n;
    if r == n - 1 {
      DivModUnique(y + 1, n, q + 1, 0);
    } else {
      DivModUnique(y + 1, n, q, r + 1);
    }
  }

  /** `x` is one of `start, start + stride, start + 2 * stride, ...`. */
  predicate OnLattice(x: int, start: nat, stride: nat)
    requires stride > 0
  {
    start <= x && (x - start) % stride == 0
  }

  lemma LatticeStart(start: nat, stride: nat)
    requires stride > 0
    ensures OnLattice(start, start, stride)
  {
  }

  /** The lattice point after `x` is `x + stride`, with none in between. */
  lemma LatticeNext(x: int, start: nat, stride: nat)
    requires stride > 0 && OnLattice(x, start, stride)
    ensures OnLattice(x + stride, start, stride)
    ensures forall z :: x < z < x + stride ==> !OnLattice(z, start, stride)
  {
    var q := (x - start) / stride;
    assert x - start == q * stride;
    DivModUnique(x + stride - start, stride, q + 1, 0);
    forall z | x < z < x + stride
      ensures !OnLattice(z, start, stride)
    {
      DivModUnique(z - start, stride, q, z - x);
    }
  }

  /** With stride 2 the lattice starting at 0 or 1 is a parity class. */
  lemma LatticeParity(x: nat, start: nat)
    requires start < 2
    ensures OnLattice(x, start, 2) <==> x % 2 == start
  {
  }
}
