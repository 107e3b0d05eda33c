/** Perlin noise at one point of a gradient lattice: the dot products of the
    four corner gradients with the offsets to the point, blended by the cubic
    smoothstep.  `f32` arithmetic is exact real arithmetic here. */
module PerlinNoise {
  import opened Bits

  /** The width of `usize`. */
  const USIZE: Width := 64

  /** A gradient vector. */
  type Point = (real, real)

  /** The four gradients `perlin` reads around a point: the lattice cells
      `[x0, y0]`, `[x1, y0]`, `[x0, y1]` and `[x1, y1]`. */
  datatype Corners = Corners(g00: Point, g10: Point, g01: Point, g11: Point)

  /** `x as usize`: truncation toward zero, saturating at both ends of the
      type (a NaN is not modelled). */
  function ToUsize(x: real): (r: nat)
    ensures InRange(USIZE, r)
    ensures x < 0.0 ==> r == 0
    ensures x >= Pow2(USIZE) as real ==> r == Pow2(USIZE) - 1
    ensures 0.0 <= x ==> r as real <= x
    ensures 0.0 <= x < Pow2(USIZE) as real ==> x < r as real + 1.0
  {
    if x < 0.0 then 0
    else if x.Floor >= Pow2(USIZE) then Pow2(USIZE) - 1
    else x.Floor
  }

  /** `dot_grid_gradient` given the gradient it reads from cell `[ix, iy]`:
      the dot product of the gradient with the offset from the corner to the
      point.  It vanishes at the corner itself and for a zero gradient. */
  function DotGridGradient(gradient: Point, ix: nat, iy: nat, x: real, y: real): (r: real)
    ensures x == ix as real && y == iy as real ==> r == 0.0
    ensures gradient == (0.0, 0.0) ==> r == 0.0
  {
    (x - ix as real) * gradient.0 + (y - iy as real) * gradient.1
  }

  /** `interpolate`: the cubic smoothstep from `a0` to `a1`.  It starts at
      `a0`, ends at `a1` and is constant when the two ends agree. */
  function Interpolate(a0: real, a1: real, w: real): (r: real)
    ensures w == 0.0 ==> r == a0
    ensures w == 1.0 ==> r == a1
    ensures a0 == a1 ==> r == a0
  {
    (a1 - a0) * (3.0 - w * 2.0) * w * w + a0
  }

  /** The weight `interpolate` gives to `a1`. */
  function Smoothstep(w: real): real {
    (3.0 - w * 2.0) * w * w
  }

  /** `perlin` once the four corner gradients have been read. */
  function PerlinOf(c: Corners, x: real, y: real): real {
    PerlinAt(c, ToUsize(x), ToUsize(y), x, y)
  }

  /** The rest of `perlin` once the cell `[x0, y0]` holding the point is known. */
  function PerlinAt(c: Corners, x0: nat, y0: nat, x: real, y: real): real {
    var x1 := x0 + 1;
    var y1 := y0 + 1;
    var sx := x - x0 as real;
    var sy := y - y0 as real;
    var ix0 := Interpolate(DotGridGradient(c.g00, x0, y0, x, y), DotGridGradient(c.g10, x1, y0, x, y), sx);
    var ix1 := Interpolate(DotGridGradient(c.g01, x0, y1, x, y), DotGridGradient(c.g11, x1, y1, x, y), sx);
    Interpolate(ix0, ix1, sy)
  }

  /** The four corners around `(x, y)` in lattice `src`. */
  function CornersAt(src: array2<Point>, x0: nat, y0: nat): Corners
    reads src
    requires x0 + 1 < src.Length0 && y0 + 1 < src.Length1
  {
    Corners(src[x0, y0], src[x0 + 1, y0], src[x0, y0 + 1], src[x0 + 1, y0 + 1])
  }

  /** `perlin(src, x, y)`: an index outside the lattice is a panic in the
      source, so the corners must lie in `src`.  The value is 0 at a lattice
      point, whatever the gradients stored there. */
  function Perlin(src: array2<Point>, x: real, y: real): (r: real)
    reads src
    requires ToUsize(x) + 1 < src.Length0 && ToUsize(y) + 1 < src.Length1
    ensures x == ToUsize(x) as real && y == ToUsize(y) as real ==> r == 0.0
  {
    var x0, y0 := ToUsize(x), ToUsize(y);
    PerlinVanishesAtLattice(CornersAt(src, x0, y0), x0, y0);
    PerlinOf(CornersAt(src, x0, y0), x, y)
  }

  /** For a weight in [0, 1] the interpolated value lies between its ends;
      it is `a0` at weight 0 and `a1` at weight 1. */
  lemma InterpolateBetween(a0: real, a1: real, w: real)
    requires 0.0 <= w <= 1.0
    ensures a0 <= a1 ==> a0 <= Interpolate(a0, a1, w) <= a1
    ensures a1 <= a0 ==> a1 <= Interpolate(a0, a1, w) <= a0
    ensures w == 0.0 ==> Interpolate(a0, a1, w) == a0
    ensures w == 1.0 ==> Interpolate(a0, a1, w) == a1
  {
    var s := Smoothstep(w);
    SmoothstepWeight(w);
    var p := a1 - a0;
    var t := p * s;
    assert Interpolate(a0, a1, w) == t + a0;
    if w == 1.0 {
      assert s == 1.0;
    }
    if a0 <= a1 {
      ScaleBetween(p, s);
    } else {
      ScaleBetween(-p, s);
      assert t == -((-p) * s);
    }
  }

  /** `(3 - 2w) w^2` lies in [0, 1] for `w` in [0, 1]: it is a product of
      non-negative factors, and so is `1 - (3 - 2w) w^2 == (1 - w)^2 (1 + 2w)`. */
  lemma SmoothstepWeight(w: real)
    requires 0.0 <= w <= 1.0
    ensures 0.0 <= Smoothstep(w) <= 1.0
  {
    var u := w * w;
    assert Smoothstep(w) == (3.0 - w * 2.0) * u;
    var v := (1.0 - w) * (1.0 - w);
    assert 1.0 - Smoothstep(w) == v * (1.0 + 2.0 * w);
    NonNegProduct(u, 3.0 - w * 2.0);
    NonNegProduct(v, 1.0 + 2.0 * w);
  }

  lemma NonNegProduct(p: real, q: real)
    requires p >= 0.0 && q >= 0.0
    ensures q * p >= 0.0 && p * q >= 0.0
  {
  }

  lemma ScaleBetween(p: real, s: real)
    requires p >= 0.0 && 0.0 <= s <= 1.0
    ensures 0.0 <= p * s <= p
  {
  }

  /** The noise vanishes at a lattice point: there the offset to the corner
      `[x0, y0]` is zero and both interpolation weights are zero. */
  lemma PerlinVanishesAtLattice(c: Corners, x0: nat, y0: nat)
    requires InRange(USIZE, x0) && InRange(USIZE, y0)
    ensures PerlinOf(c, x0 as real, y0 as real) == 0.0
  {
    assert ToUsize(x0 as real) == x0;
    assert ToUsize(y0 as real) == y0;
    var n00 := DotGridGradient(c.g00, x0, y0, x0 as real, y0 as real);
    assert n00 == 0.0;
    var ix0 := Interpolate(n00, DotGridGradient(c.g10, x0 + 1, y0, x0 as real, y0 as real), 0.0);
    assert ix0 == 0.0;
  }
}
