/** The octave loop of the heightmap generator: for each level, coarsest
    first, a lattice of random gradients sized from the image by `div_ceil`
    is filled row-major, every pixel adds the Perlin value read from the four
    lattice corners around it, scaled by the level's amplitude; the sum is
    then normalized and quantized to bytes.

    Floating-point values are exact reals here.  The random generator is the
    function `gradient`: `gradient(n)` is the gradient made from the n-th
    draw (`(draw * TAU).sin_cos()`), so the model says which draw lands in
    which lattice cell without modelling the generator or the trigonometry. */
module Octaves {
  import opened Bits
  import opened PerlinNoise
  import Divisibility
  import Unsigned

  const HEIGHT: nat := 512
  const WIDTH: nat := 512
  const OCTAVES: nat := 8
  const ATTENUATION: real := 0.75

  /** A byte of the output image. */
  type Byte = x: int | 0 <= x < 256

  // ---------------------------------------------------------------------
  // Sizes

  /** `cell_size = 1 << level` on `usize` is the power of two 2^level for
      every octave level, so it runs from 2^(OCTAVES-1) for the first,
      coarsest level down to 1. */
  lemma CellSizeIsPow2(level: nat)
    requires level < OCTAVES
    ensures Shl(USIZE, 1, level) == Pow2(level)
    ensures 1 <= Pow2(level) <= Pow2(OCTAVES - 1) && InRange(USIZE, Pow2(level))
  {
    Pow2Less(level, USIZE);
    Divisibility.DivModUnique(Pow2(level), Pow2(USIZE), 0, Pow2(level));
    Pow2LessEq(level, OCTAVES - 1);
  }

  /** The image dimensions are `usize` values, and both are 2^9. */
  lemma DimensionsInRange()
    ensures HEIGHT == WIDTH == Pow2(9)
    ensures InRange(USIZE, HEIGHT) && InRange(USIZE, WIDTH)
  {
    assert Pow2(9) == 512;
    Pow2Less(9, USIZE);
  }

  /** The lattice of `level` has `LatticeH(level) + 1` rows and
      `LatticeW(level) + 1` columns: the image measured in cells of size
      2^level (see `LatticeDims` for the source's `div_ceil`). */
  function LatticeH(level: nat): nat
    requires level < OCTAVES
  {
    Pow2(9 - level)
  }

  function LatticeW(level: nat): nat
    requires level < OCTAVES
  {
    Pow2(9 - level)
  }

  /** `HEIGHT.div_ceil(cell_size)` and `WIDTH.div_ceil(cell_size)`: the cell
      size divides the image dimensions, so the image is exactly
      `LatticeH(level)` cells high and `LatticeW(level)` cells wide. */
  lemma LatticeDims(level: nat)
    requires level < OCTAVES
    ensures InRange(USIZE, Pow2(level)) && InRange(USIZE, HEIGHT) && InRange(USIZE, WIDTH)
    ensures Unsigned.DivCeil(USIZE, HEIGHT, Pow2(level)) == LatticeH(level)
    ensures Unsigned.DivCeil(USIZE, WIDTH, Pow2(level)) == LatticeW(level)
  {
    CellSizeIsPow2(level);
    DimensionsInRange();
    Pow2Add(level, 9 - level);
    DivCeilExact(USIZE, HEIGHT, Pow2(level), LatticeH(level));
  }

  /** When b divides a exactly, `a.div_ceil(b)` is the quotient. */
  lemma DivCeilExact(w: nat, a: nat, b: nat, k: nat)
    requires InRange(w, a) && InRange(w, b) && b > 0 && a == b * k
    ensures Unsigned.DivCeil(w, a, b) == k
  {
    Divisibility.CeilUnique(a, b, Unsigned.DivCeil(w, a, b), k);
  }

  /** The number of cells of an `(h + 1) x (w + 1)` lattice. */
  function GridCells(h: nat, w: nat): nat {
    (h + 1) * (w + 1)
  }

  /** The number of cells, hence of draws, of the lattice of one level. */
  function LatticeCells(level: nat): nat
    requires level < OCTAVES
  {
    GridCells(LatticeH(level), LatticeW(level))
  }

  /** The number of draws consumed by the levels `level .. OCTAVES-1`, which
      the loop handles before the levels below `level`. */
  function DrawsFrom(level: nat): nat
    requires level <= OCTAVES
    decreases OCTAVES - level
  {
    if level == OCTAVES then 0 else DrawsFrom(level + 1) + LatticeCells(level)
  }

  /** The draw that fills cell `[a, b]` of the lattice of `level`. */
  function DrawIndex(level: nat, a: nat, b: nat): nat
    requires level < OCTAVES
  {
    RowMajor(DrawsFrom(level + 1), LatticeW(level), a, b)
  }

  /** The position of cell `[a, b]` when the cells of a lattice `w + 1`
      wide are numbered row by row from `first`. */
  function RowMajor(first: nat, w: nat, a: nat, b: nat): nat {
    first + a * (w + 1) + b
  }

  /** The gradient in cell `[a, b]` of the lattice of `level`. */
  function LatticeGradient(gradient: nat -> Point, level: nat, a: nat, b: nat): Point
    requires level < OCTAVES
  {
    gradient(DrawIndex(level, a, b))
  }

  // ---------------------------------------------------------------------
  // From pixels to lattice corners

  /** The pixel coordinate `i as f32 / cell_size as f32` (exact: the cell
      size is a power of two and `i` is small). */
  function Coord(i: nat, cs: nat): real
    requires cs > 0
  {
    i as real / cs as real
  }

  /** `x as usize` of a pixel coordinate is the integer quotient, and the
      fractional part is the remainder over the cell size. */
  lemma CoordFloor(i: nat, cs: nat)
    requires cs > 0 && InRange(USIZE, i)
    ensures ToUsize(Coord(i, cs)) == i / cs
    ensures Coord(i, cs) - (i / cs) as real == (i % cs) as real / cs as real
  {
    FloorOfQuotient(i, cs);
    Unsigned.QuotientFacts(i, cs, i / cs, i % cs);
  }

  lemma FloorOfQuotient(i: nat, cs: nat)
    requires cs > 0
    ensures (i as real / cs as real).Floor == i / cs
    ensures i as real / cs as real - (i / cs) as real == (i % cs) as real / cs as real
  {
    var q, r := i / cs, i % cs;
    assert i == q * cs + r;
    var c := cs as real;
    assert i as real == q as real * c + r as real;
    var f := r as real / c;
    assert 0.0 <= f < 1.0;
    assert i as real / c == q as real + f;
  }

  /** Every corner `perlin` reads for pixel row `i < n` lies in the lattice of
      `n.div_ceil(cs) + 1` rows, and the last row is used: the lattice is no
      larger than the image needs. */
  lemma CornerInLattice(n: nat, i: nat, cs: nat)
    requires InRange(USIZE, n) && InRange(USIZE, cs) && cs > 0
    requires i < n
    ensures i / cs + 1 <= Unsigned.DivCeil(USIZE, n, cs)
    ensures (n - 1) / cs + 1 == Unsigned.DivCeil(USIZE, n, cs)
  {
    var d := Unsigned.DivCeil(USIZE, n, cs);
    CeilBounds(n, i, cs, d);
  }

  /** The facts behind `CornerInLattice` for any `d` with `(d-1)*cs < n <= d*cs`. */
  lemma CeilBounds(n: nat, i: nat, cs: nat, d: int)
    requires cs > 0 && i < n && (d - 1) * cs < n <= d * cs
    ensures i / cs + 1 <= d
    ensures (n - 1) / cs + 1 == d
  {
    QuotientBelow(i, cs, d);
    QuotientBelow(n - 1, cs, d);
    var q' := (n - 1) / cs;
    assert n - 1 < (q' + 1) * cs by {
      Divisibility.DivModUnique(n - 1, cs, q', (n - 1) % cs);
    }
    MulCancelLess(d - 1, q' + 1, cs);
  }

  /** A value below `d * cs` has a quotient by `cs` below `d`. */
  lemma QuotientBelow(m: nat, cs: nat, d: int)
    requires cs > 0 && m < d * cs
    ensures m / cs < d
  {
    var q := m / cs;
    assert q * cs <= m;
    MulCancelLess(q, d, cs);
  }

  lemma MulCancelLess(a: int, b: int, c: nat)
    requires c > 0 && a * c < b * c
    ensures a < b
  {
    if b <= a {
      Divisibility.MulMonotone(b, a, c);
    }
  }

  /** The draws of different cells are different: within a level the
      row-major numbering is one-to-one, and each level's draws follow those
      of the coarser levels. */
  lemma DrawsDistinct(l: nat, a: nat, b: nat, l': nat, a': nat, b': nat)
    requires l < OCTAVES && a <= LatticeH(l) && b <= LatticeW(l)
    requires l' < OCTAVES && a' <= LatticeH(l') && b' <= LatticeW(l')
    requires (l, a, b) != (l', a', b')
    ensures DrawIndex(l, a, b) != DrawIndex(l', a', b')
  {
    if l < l' {
      DrawsOrderedAcrossLevels(l, a, b, l', a', b');
    } else if l' < l {
      DrawsOrderedAcrossLevels(l', a', b', l, a, b);
    } else {
      assert l == l';
      DrawsDistinctInLevel(l, a, b, a', b');
    }
  }

  /** Within one level the row-major numbering of the cells is one-to-one. */
  lemma DrawsDistinctInLevel(l: nat, a: nat, b: nat, a': nat, b': nat)
    requires l < OCTAVES && b <= LatticeW(l) && b' <= LatticeW(l)
    requires (a, b) != (a', b')
    ensures DrawIndex(l, a, b) != DrawIndex(l, a', b')
  {
    if a < a' {
      RowMajorOrder(a, b, a', b', LatticeW(l) + 1);
    } else if a' < a {
      RowMajorOrder(a', b', a, b, LatticeW(l) + 1);
    }
  }

  /** Every draw of a coarser level comes before every draw of a finer one. */
  lemma DrawsOrderedAcrossLevels(l: nat, a: nat, b: nat, l': nat, a': nat, b': nat)
    requires l < l' < OCTAVES
    requires a <= LatticeH(l) && b <= LatticeW(l) && a' <= LatticeH(l') && b' <= LatticeW(l')
    ensures DrawIndex(l', a', b') < DrawIndex(l, a, b)
  {
    DrawInLevel(l, a, b);
    DrawInLevel(l', a', b');
    DrawsFromMonotone(l + 1, l');
  }

  /** The draws of the lattice of `level` are those from `DrawsFrom(level + 1)`
      up to, not including, `DrawsFrom(level)`. */
  lemma DrawInLevel(level: nat, a: nat, b: nat)
    requires level < OCTAVES && a <= LatticeH(level) && b <= LatticeW(level)
    ensures DrawsFrom(level + 1) <= DrawIndex(level, a, b) < DrawsFrom(level)
  {
    InLevelOffset(DrawsFrom(level + 1), a, b, LatticeH(level) + 1, LatticeW(level) + 1);
  }

  /** Conversely, every draw from `DrawsFrom(level + 1)` up to, not
      including, `DrawsFrom(level)` fills a cell of the lattice of `level`. */
  lemma DrawFillsCell(level: nat, n: nat)
    requires level < OCTAVES && DrawsFrom(level + 1) <= n < DrawsFrom(level)
    ensures exists a: nat, b: nat {:trigger DrawIndex(level, a, b)} ::
              a <= LatticeH(level) && b <= LatticeW(level) && DrawIndex(level, a, b) == n
  {
    var base, h, w := DrawsFrom(level + 1), LatticeH(level), LatticeW(level);
    assert DrawsFrom(level) == base + GridCells(h, w);
    var a, b := RowMajorCover(n - base, h + 1, w + 1);
    assert RowMajor(base, w, a, b) == n;
    assert DrawIndex(level, a, b) == n;
  }

  /** Every position below `rows * cols` is the row-major number of a cell. */
  lemma RowMajorCover(k: nat, rows: nat, cols: nat) returns (a: nat, b: nat)
    requires cols > 0 && k < rows * cols
    ensures a < rows && b < cols && a * cols + b == k
  {
    a, b := k / cols, k % cols;
    if a >= rows {
      Divisibility.MulMonotone(rows, a, cols);
    }
  }

  /** Cell `[a, b]` of a `rows x cols` lattice whose draws start at `base`. */
  lemma InLevelOffset(base: nat, a: nat, b: nat, rows: nat, cols: nat)
    requires a < rows && b < cols
    ensures base <= base + a * cols + b < base + rows * cols
  {
    RowMajorInRange(a, b, rows, cols);
  }

  /** Row-major numbering of a `rows x cols` grid stays below `rows * cols`. */
  lemma RowMajorInRange(a: nat, b: nat, rows: nat, cols: nat)
    requires a < rows && b < cols
    ensures a * cols + b < rows * cols
  {
    Divisibility.MulMonotone(a + 1, rows, cols);
    assert (a + 1) * cols == a * cols + cols;
  }

  /** In row-major order an earlier row comes first. */
  lemma RowMajorOrder(a: nat, b: nat, a': nat, b': nat, cols: nat)
    requires a < a' && b < cols
    ensures a * cols + b < a' * cols + b'
  {
    Divisibility.MulMonotone(a + 1, a', cols);
    assert (a + 1) * cols == a * cols + cols;
  }

  lemma {:induction false} DrawsFromMonotone(m: nat, n: nat)
    requires m <= n <= OCTAVES
    ensures DrawsFrom(n) <= DrawsFrom(m)
    decreases n - m
  {
    if m < n {
      DrawsFromMonotone(m + 1, n);
    }
  }

  // ---------------------------------------------------------------------
  // Amplitudes

  function Power(r: real, n: nat): real {
    if n == 0 then 1.0 else r * Power(r, n - 1)
  }

  /** The amplitude `scale` of level `level`: 1 for the first, coarsest
      level, multiplied by `ATTENUATION` for each following one. */
  function Amplitude(level: nat): real
    requires level < OCTAVES
  {
    Power(ATTENUATION, OCTAVES - 1 - level)
  }

  /** `scale_sum` after the levels `level .. OCTAVES-1`. */
  function ScaleSum(level: nat): real
    requires level <= OCTAVES
    decreases OCTAVES - level
  {
    if level == OCTAVES then 0.0 else ScaleSum(level + 1) + Amplitude(level)
  }

  /** The amplitudes form a geometric series:
      `scale_sum == (1 - ATTENUATION^k) / (1 - ATTENUATION)` after k levels. */
  lemma {:induction false} ScaleSumGeometric(level: nat)
    requires level <= OCTAVES
    ensures ScaleSum(level) == 4.0 * (1.0 - Power(ATTENUATION, OCTAVES - level))
    decreases OCTAVES - level
  {
    if level < OCTAVES {
      ScaleSumGeometric(level + 1);
      assert Power(ATTENUATION, OCTAVES - level) == ATTENUATION * Power(ATTENUATION, OCTAVES - 1 - level);
    }
  }

  /** The normalization divides by a positive total. */
  lemma ScaleSumPositive()
    ensures ScaleSum(0) == 58975.0 / 16384.0
  {
    ScaleSumGeometric(0);
    assert Power(ATTENUATION, 8) == 6561.0 / 65536.0;
  }

  // ---------------------------------------------------------------------
  // The value of a pixel

  /** The corners `perlin` reads for pixel `[i, j]` at `level`. */
  function PixelCorners(gradient: nat -> Point, level: nat, i: nat, j: nat): Corners
    requires level < OCTAVES
  {
    var x0, y0 := Shr(i, level), Shr(j, level);
    Corners(LatticeGradient(gradient, level, x0, y0), LatticeGradient(gradient, level, x0 + 1, y0),
            LatticeGradient(gradient, level, x0, y0 + 1), LatticeGradient(gradient, level, x0 + 1, y0 + 1))
  }

  /** The Perlin value of pixel `[i, j]` at `level`. */
  function Noise(gradient: nat -> Point, level: nat, i: nat, j: nat): real
    requires level < OCTAVES
  {
    PerlinAt(PixelCorners(gradient, level, i, j), Shr(i, level), Shr(j, level), Coord(i, Pow2(level)), Coord(j, Pow2(level)))
  }

  /** `v * scale`: what a level whose noise at a pixel is `v` adds to it. */
  function Scaled(v: real, scale: real): real {
    v * scale
  }

  /** `res[[i, j]]` after the levels `level .. OCTAVES-1`, added in the order
      of the loop. */
  function Accumulated(gradient: nat -> Point, i: nat, j: nat, level: nat): real
    requires level <= OCTAVES
    decreases OCTAVES - level
  {
    if level == OCTAVES then 0.0
    else Accumulated(gradient, i, j, level + 1) + Scaled(Noise(gradient, level, i, j), Amplitude(level))
  }

  /** A pixel on a lattice point of some level gets nothing from that level. */
  lemma NoiseVanishesOnLattice(gradient: nat -> Point, level: nat, i: nat, j: nat)
    requires level < OCTAVES && i < HEIGHT && j < WIDTH
    requires i % Pow2(level) == 0 && j % Pow2(level) == 0
    ensures Noise(gradient, level, i, j) == 0.0
  {
    DimensionsInRange();
    ExactCoord(i, Pow2(level));
    ExactCoord(j, Pow2(level));
    ShrIsDiv(i, level);
    ShrIsDiv(j, level);
    PerlinVanishesAtLattice(PixelCorners(gradient, level, i, j), Shr(i, level), Shr(j, level));
  }

  /** At level 0 the cell size is 1, so every pixel is a lattice point and
      the finest octave adds nothing to any pixel, although its amplitude
      still counts in `scale_sum`. */
  lemma FinestLevelVanishes(gradient: nat -> Point, i: nat, j: nat)
    requires i < HEIGHT && j < WIDTH
    ensures Noise(gradient, 0, i, j) == 0.0
    ensures Accumulated(gradient, i, j, 0) == Accumulated(gradient, i, j, 1)
  {
    NoiseVanishesOnLattice(gradient, 0, i, j);
  }

  /** A multiple of the cell size has an integral coordinate. */
  lemma ExactCoord(i: nat, cs: nat)
    requires cs > 0 && i % cs == 0
    ensures Coord(i, cs) == (i / cs) as real
    ensures i / cs <= i
  {
    FloorOfQuotient(i, cs);
    Unsigned.QuotientFacts(i, cs, i / cs, 0);
  }

  // ---------------------------------------------------------------------
  // Quantization

  /** `v.clamp(lo, hi)`: the point of [lo, hi] nearest to v. */
  function Clamp(v: real, lo: real, hi: real): (r: real)
    requires lo <= hi
    ensures lo <= r <= hi
    ensures lo <= v <= hi ==> r == v
    ensures r != v ==> (v < lo && r == lo) || (hi < v && r == hi)
  {
    if v < lo then lo else if v > hi then hi else v
  }

  /** `v.round()`: to the nearest integer, halves away from zero. */
  function Round(v: real): (r: int)
    ensures v >= 0.0 ==> r as real - 0.5 <= v < r as real + 0.5
    ensures v < 0.0 ==> r as real - 0.5 < v <= r as real + 0.5
  {
    if v >= 0.0 then (v + 0.5).Floor else -((-v + 0.5).Floor)
  }

  /** `v as u8` for an integral value: saturates at both ends, so it is
      the byte nearest to v. */
  function SaturateByte(v: int): (r: Byte)
    ensures 0 <= v < 256 ==> r == v
    ensures v < 0 ==> r == 0
    ensures v > 255 ==> r == 255
  {
    if v < 0 then 0 else if v > 255 then 255 else v
  }

  /** The byte written for a normalized pixel value: -1 maps to 0, 0 to
      128 and 1 to 255, and in between the byte is within one half of
      `(v + 1) * 127.5`. */
  function Level(v: real): (r: Byte)
    ensures v <= -1.0 ==> r == 0
    ensures v >= 1.0 ==> r == 255
    ensures v == 0.0 ==> r == 128
    ensures -1.0 <= v <= 1.0 ==> r as real - 0.5 <= (v + 1.0) * 127.5 < r as real + 0.5
  {
    SaturateByte(Round(Clamp(v, -1.0, 1.0) * 127.5 + 127.5))
  }

  /** The rounded value always fits in a byte, so the final cast never
      saturates; -1 and below become 0, 1 and above become 255, 0 becomes 128,
      and the map is monotone. */
  lemma LevelFacts(v: real, v': real)
    ensures 0 <= Round(Clamp(v, -1.0, 1.0) * 127.5 + 127.5) <= 255
    ensures v <= -1.0 ==> Level(v) == 0
    ensures v >= 1.0 ==> Level(v) == 255
    ensures v == 0.0 ==> Level(v) == 128
    ensures v <= v' ==> Level(v) <= Level(v')
  {
    var t := Clamp(v, -1.0, 1.0) * 127.5 + 127.5;
    var t' := Clamp(v', -1.0, 1.0) * 127.5 + 127.5;
    assert 0.0 <= t <= 255.0;
    assert Round(t) == (t + 0.5).Floor;
    if v <= v' {
      assert t <= t';
      FloorMonotone(t + 0.5, t' + 0.5);
    }
  }

  lemma FloorMonotone(x: real, y: real)
    requires x <= y
    ensures x.Floor <= y.Floor
  {
  }

  // ---------------------------------------------------------------------
  // Per-pixel values as grids

  /** `grid` has one row per image row and one entry per image column. */
  predicate IsImage(grid: seq<seq<real>>) {
    |grid| == HEIGHT && forall i :: 0 <= i < HEIGHT ==> |grid[i]| == WIDTH
  }

  /** `grid[i][j]` is the noise of pixel `[i, j]` at `level`. */
  predicate IsNoiseGrid(gradient: nat -> Point, level: nat, grid: seq<seq<real>>)
    requires level < OCTAVES
  {
    IsImage(grid) &&
    forall i, j {:trigger Noise(gradient, level, i, j)} :: 0 <= i < HEIGHT && 0 <= j < WIDTH ==>
      grid[i][j] == Noise(gradient, level, i, j)
  }

  /** `grid[i][j]` is the value of pixel `[i, j]` after the levels `level .. OCTAVES-1`. */
  predicate IsAccumulatedGrid(gradient: nat -> Point, level: nat, grid: seq<seq<real>>)
    requires level <= OCTAVES
  {
    IsImage(grid) &&
    forall i, j {:trigger Accumulated(gradient, i, j, level)} :: 0 <= i < HEIGHT && 0 <= j < WIDTH ==>
      grid[i][j] == Accumulated(gradient, i, j, level)
  }

  lemma NoiseGrid(gradient: nat -> Point, level: nat) returns (grid: seq<seq<real>>)
    requires level < OCTAVES
    ensures IsNoiseGrid(gradient, level, grid)
  {
    grid := seq(HEIGHT, (i: int) requires 0 <= i => seq(WIDTH, (j: int) requires 0 <= j => Noise(gradient, level, i, j)));
  }

  lemma AccumulatedGrid(gradient: nat -> Point, level: nat) returns (grid: seq<seq<real>>)
    requires level <= OCTAVES
    ensures IsAccumulatedGrid(gradient, level, grid)
  {
    grid := seq(HEIGHT, (i: int) requires 0 <= i => seq(WIDTH, (j: int) requires 0 <= j => Accumulated(gradient, i, j, level)));
  }

  /** One level adds its noise, scaled by its amplitude, to every pixel. */
  lemma AccumulateLevel(gradient: nat -> Point, level: nat, scale: real, before: seq<seq<real>>, noise: seq<seq<real>>, after: seq<seq<real>>)
    requires level < OCTAVES && scale == Amplitude(level)
    requires IsAccumulatedGrid(gradient, level + 1, before)
    requires IsNoiseGrid(gradient, level, noise)
    requires IsAccumulatedGrid(gradient, level, after)
    ensures forall i, j :: 0 <= i < HEIGHT && 0 <= j < WIDTH ==> after[i][j] == before[i][j] + Scaled(noise[i][j], scale)
  {
    forall i, j | 0 <= i < HEIGHT && 0 <= j < WIDTH
      ensures after[i][j] == before[i][j] + Scaled(noise[i][j], scale)
    {
      assert before[i][j] == Accumulated(gradient, i, j, level + 1);
      assert noise[i][j] == Noise(gradient, level, i, j);
      assert after[i][j] == Accumulated(gradient, i, j, level);
    }
  }

  // ---------------------------------------------------------------------
  // The loops of `main`

  /** Fills a fresh `(h + 1) x (w + 1)` lattice row-major, one draw per cell,
      starting with draw `first`; `next` is the first draw not used. */
  method FillLattice(gradient: nat -> Point, first: nat, h: nat, w: nat) returns (vecs: array2<Point>, next: nat)
    ensures fresh(vecs)
    ensures vecs.Length0 == h + 1 && vecs.Length1 == w + 1
    ensures forall a, b :: 0 <= a <= h && 0 <= b <= w ==> vecs[a, b] == gradient(RowMajor(first, w, a, b))
    ensures next == first + GridCells(h, w)
  {
    vecs := new Point[h + 1, w + 1]((_, _) => (0.0, 0.0));
    next := first;
    for a := 0 to h + 1
      invariant next == first + a * (w + 1)
      invariant forall a', b :: 0 <= a' < a && 0 <= b <= w ==> vecs[a', b] == gradient(RowMajor(first, w, a', b))
    {
      for b := 0 to w + 1
        invariant next == first + a * (w + 1) + b
        invariant forall a', b' :: 0 <= a' < a && 0 <= b' <= w ==> vecs[a', b'] == gradient(RowMajor(first, w, a', b'))
        invariant forall b' :: 0 <= b' < b ==> vecs[a, b'] == gradient(RowMajor(first, w, a, b'))
      {
        vecs[a, b] := gradient(next);
        next := next + 1;
      }
    }
  }

  /** The pixel loop of one level: adds each pixel's Perlin value, read from
      `vecs`, times `scale`.  `noise` is the grid of the level's `Noise`
      values, which the loop computes one at a time. */
  method AddOctave(gradient: nat -> Point, level: nat, cellSize: nat, vecs: array2<Point>, scale: real,
                   res: array2<real>, ghost noise: seq<seq<real>>)
    requires level < OCTAVES && cellSize == Pow2(level)
    requires vecs.Length0 == LatticeH(level) + 1 && vecs.Length1 == LatticeW(level) + 1
    requires forall a, b :: 0 <= a <= LatticeH(level) && 0 <= b <= LatticeW(level) ==>
               vecs[a, b] == LatticeGradient(gradient, level, a, b)
    requires res.Length0 == HEIGHT && res.Length1 == WIDTH
    requires IsNoiseGrid(gradient, level, noise)
    modifies res
    ensures forall i, j :: 0 <= i < HEIGHT && 0 <= j < WIDTH ==> res[i, j] == old(res[i, j]) + Scaled(noise[i][j], scale)
  {
    for i := 0 to HEIGHT
      invariant forall i', j :: 0 <= i' < i && 0 <= j < WIDTH ==> res[i', j] == old(res[i', j]) + Scaled(noise[i'][j], scale)
      invariant forall i', j :: i <= i' < HEIGHT && 0 <= j < WIDTH ==> res[i', j] == old(res[i', j])
    {
      for j := 0 to WIDTH
        invariant forall i', j' :: 0 <= i' < i && 0 <= j' < WIDTH ==> res[i', j'] == old(res[i', j']) + Scaled(noise[i'][j'], scale)
        invariant forall j' :: 0 <= j' < j ==> res[i, j'] == old(res[i, j']) + Scaled(noise[i][j'], scale)
        invariant forall j' :: j <= j' < WIDTH ==> res[i, j'] == old(res[i, j'])
        invariant forall i', j' :: i < i' < HEIGHT && 0 <= j' < WIDTH ==> res[i', j'] == old(res[i', j'])
      {
        AddPixel(gradient, level, cellSize, vecs, scale, res, noise, i, j);
      }
    }
  }

  /** `res[[i, j]] += perlin(&vecs, x, y) * scale` for one pixel. */
  method AddPixel(gradient: nat -> Point, level: nat, cellSize: nat, vecs: array2<Point>, scale: real,
                  res: array2<real>, ghost noise: seq<seq<real>>, i: nat, j: nat)
    requires level < OCTAVES && cellSize == Pow2(level) && i < HEIGHT && j < WIDTH
    requires vecs.Length0 == LatticeH(level) + 1 && vecs.Length1 == LatticeW(level) + 1
    requires forall a, b :: 0 <= a <= LatticeH(level) && 0 <= b <= LatticeW(level) ==>
               vecs[a, b] == LatticeGradient(gradient, level, a, b)
    requires res.Length0 == HEIGHT && res.Length1 == WIDTH
    requires IsNoiseGrid(gradient, level, noise)
    modifies res
    ensures res[i, j] == old(res[i, j]) + Scaled(noise[i][j], scale)
    ensures forall i', j' :: 0 <= i' < HEIGHT && 0 <= j' < WIDTH && (i', j') != (i, j) ==> res[i', j'] == old(res[i', j'])
  {
    var x := Coord(i, cellSize);
    var y := Coord(j, cellSize);
    PerlinReadsGrid(gradient, level, vecs, noise, i, j);
    res[i, j] := res[i, j] + Scaled(Perlin(vecs, x, y), scale);
  }

  /** `PerlinReadsLattice`, stated with the grid of the level's noise. */
  lemma PerlinReadsGrid(gradient: nat -> Point, level: nat, vecs: array2<Point>, noise: seq<seq<real>>, i: nat, j: nat)
    requires level < OCTAVES && i < HEIGHT && j < WIDTH
    requires vecs.Length0 == LatticeH(level) + 1 && vecs.Length1 == LatticeW(level) + 1
    requires forall a, b :: 0 <= a <= LatticeH(level) && 0 <= b <= LatticeW(level) ==>
               vecs[a, b] == LatticeGradient(gradient, level, a, b)
    requires IsNoiseGrid(gradient, level, noise)
    ensures ToUsize(Coord(i, Pow2(level))) + 1 < vecs.Length0
    ensures ToUsize(Coord(j, Pow2(level))) + 1 < vecs.Length1
    ensures Perlin(vecs, Coord(i, Pow2(level)), Coord(j, Pow2(level))) == noise[i][j]
  {
    PerlinReadsLattice(gradient, level, vecs, i, j);
  }

  /** `perlin` on the lattice filled for `level` gives the pixel's noise. */
  lemma PerlinReadsLattice(gradient: nat -> Point, level: nat, vecs: array2<Point>, i: nat, j: nat)
    requires level < OCTAVES && i < HEIGHT && j < WIDTH
    requires vecs.Length0 == LatticeH(level) + 1 && vecs.Length1 == LatticeW(level) + 1
    requires forall a, b :: 0 <= a <= LatticeH(level) && 0 <= b <= LatticeW(level) ==>
               vecs[a, b] == LatticeGradient(gradient, level, a, b)
    ensures ToUsize(Coord(i, Pow2(level))) + 1 < vecs.Length0
    ensures ToUsize(Coord(j, Pow2(level))) + 1 < vecs.Length1
    ensures Perlin(vecs, Coord(i, Pow2(level)), Coord(j, Pow2(level))) == Noise(gradient, level, i, j)
  {
    PixelInLattice(level, i, j);
    var x0, y0 := Shr(i, level), Shr(j, level);
    assert CornersAt(vecs, x0, y0) == PixelCorners(gradient, level, i, j);
  }

  /** The corners `perlin` reads for pixel `[i, j]` lie in the lattice of
      `level`: `x as usize` of the pixel coordinate is `i >> level`, and one
      more than that is still a row of the lattice (likewise for `j`). */
  lemma PixelInLattice(level: nat, i: nat, j: nat)
    requires level < OCTAVES && i < HEIGHT && j < WIDTH
    ensures ToUsize(Coord(i, Pow2(level))) == Shr(i, level)
    ensures ToUsize(Coord(j, Pow2(level))) == Shr(j, level)
    ensures Shr(i, level) + 1 <= LatticeH(level)
    ensures Shr(j, level) + 1 <= LatticeW(level)
  {
    DimensionsInRange();
    CoordFloor(i, Pow2(level));
    CoordFloor(j, Pow2(level));
    ShrIsDiv(i, level);
    ShrIsDiv(j, level);
    CellInLattice(level, i);
    CellInLattice(level, j);
  }

  /** A coordinate below 2^9 shifted right by `level` stays below 2^(9-level). */
  lemma CellInLattice(level: nat, i: nat)
    requires level < OCTAVES && i < Pow2(9)
    ensures Shr(i, level) + 1 <= Pow2(9 - level)
  {
    var cs, d := Pow2(level), Pow2(9 - level);
    Pow2Add(level, 9 - level);
    assert i < d * cs;
    ShrIsDiv(i, level);
    QuotientBelow(i, cs, d);
  }

  /** The sizes of one level: `cell_size = 1 << level` and the lattice
      bounds `h = HEIGHT.div_ceil(cell_size)`, `w = WIDTH.div_ceil(cell_size)`. */
  method LevelSizes(level: nat) returns (cellSize: nat, h: nat, w: nat)
    requires level < OCTAVES
    ensures cellSize == Pow2(level)
    ensures h == LatticeH(level) && w == LatticeW(level)
  {
    CellSizeIsPow2(level);
    LatticeDims(level);
    cellSize := Shl(USIZE, 1, level);
    h := Unsigned.DivCeil(USIZE, HEIGHT, cellSize);
    w := Unsigned.DivCeil(USIZE, WIDTH, cellSize);
  }

  /** The octave loop: levels `OCTAVES-1` down to 0, each with a fresh
      lattice; returns the accumulated `res` and `scale_sum`. */
  method GenerateOctaves(gradient: nat -> Point) returns (res: array2<real>, scaleSum: real)
    ensures fresh(res)
    ensures res.Length0 == HEIGHT && res.Length1 == WIDTH
    ensures forall i, j :: 0 <= i < HEIGHT && 0 <= j < WIDTH ==> res[i, j] == Accumulated(gradient, i, j, 0)
    ensures scaleSum == ScaleSum(0)
  {
    var scale := 1.0;
    scaleSum := 0.0;
    res := new real[HEIGHT, WIDTH]((_, _) => 0.0);
    var drawn := 0;
    ghost var acc := AccumulatedGrid(gradient, OCTAVES);
    forall i, j | 0 <= i < HEIGHT && 0 <= j < WIDTH
      ensures res[i, j] == acc[i][j]
    {
      assert acc[i][j] == Accumulated(gradient, i, j, OCTAVES);
    }
    for level := OCTAVES downto 0
      invariant scale == Power(ATTENUATION, OCTAVES - level)
      invariant scaleSum == ScaleSum(level)
      invariant drawn == DrawsFrom(level)
      invariant res.Length0 == HEIGHT && res.Length1 == WIDTH
      invariant IsAccumulatedGrid(gradient, level, acc)
      invariant forall i, j :: 0 <= i < HEIGHT && 0 <= j < WIDTH ==> res[i, j] == acc[i][j]
    {
      drawn, acc := AddLevel(gradient, level, drawn, scale, res, acc);
      scaleSum := scaleSum + scale;
      scale := scale * ATTENUATION;
    }
  }

  /** One pass of the octave loop: fills the lattice of `level` with the
      draws that follow the `drawn` already made, and adds the level's noise,
      times `scale`, to every pixel.  `before` and `after` are the pixel
      values before and after the pass. */
  method AddLevel(gradient: nat -> Point, level: nat, drawn: nat, scale: real, res: array2<real>,
                  ghost before: seq<seq<real>>) returns (next: nat, ghost after: seq<seq<real>>)
    requires level < OCTAVES && drawn == DrawsFrom(level + 1) && scale == Amplitude(level)
    requires res.Length0 == HEIGHT && res.Length1 == WIDTH
    requires IsAccumulatedGrid(gradient, level + 1, before)
    requires forall i, j :: 0 <= i < HEIGHT && 0 <= j < WIDTH ==> res[i, j] == before[i][j]
    modifies res
    ensures next == DrawsFrom(level)
    ensures IsAccumulatedGrid(gradient, level, after)
    ensures forall i, j :: 0 <= i < HEIGHT && 0 <= j < WIDTH ==> res[i, j] == after[i][j]
  {
    var cellSize, vecs;
    cellSize, vecs, next := LevelLattice(gradient, level, drawn);
    ghost var noise := NoiseGrid(gradient, level);
    AddOctave(gradient, level, cellSize, vecs, scale, res, noise);
    after := AccumulatedGrid(gradient, level);
    AccumulateLevel(gradient, level, scale, before, noise, after);
  }

  /** The sizes of `level` and its lattice, filled with the draws that
      follow the `drawn` already made. */
  method LevelLattice(gradient: nat -> Point, level: nat, drawn: nat) returns (cellSize: nat, vecs: array2<Point>, next: nat)
    ensures fresh(vecs)
    requires level < OCTAVES && drawn == DrawsFrom(level + 1)
    ensures cellSize == Pow2(level)
    ensures vecs.Length0 == LatticeH(level) + 1 && vecs.Length1 == LatticeW(level) + 1
    ensures forall a, b :: 0 <= a <= LatticeH(level) && 0 <= b <= LatticeW(level) ==>
              vecs[a, b] == LatticeGradient(gradient, level, a, b)
    ensures next == DrawsFrom(level)
  {
    var h, w;
    cellSize, h, w := LevelSizes(level);
    vecs, next := FillLattice(gradient, drawn, h, w);
  }

  /** `res[[i, j]] /= scale_sum` for every pixel. */
  method Normalize(res: array2<real>, scaleSum: real)
    requires scaleSum > 0.0
    modifies res
    ensures forall i, j :: 0 <= i < res.Length0 && 0 <= j < res.Length1 ==> res[i, j] == old(res[i, j]) / scaleSum
  {
    for i := 0 to res.Length0
      invariant forall i', j :: 0 <= i' < i && 0 <= j < res.Length1 ==> res[i', j] == old(res[i', j]) / scaleSum
      invariant forall i', j :: i <= i' < res.Length0 && 0 <= j < res.Length1 ==> res[i', j] == old(res[i', j])
    {
      for j := 0 to res.Length1
        invariant forall i', j' :: 0 <= i' < i && 0 <= j' < res.Length1 ==> res[i', j'] == old(res[i', j']) / scaleSum
        invariant forall j' :: 0 <= j' < j ==> res[i, j'] == old(res[i, j']) / scaleSum
        invariant forall j' :: j <= j' < res.Length1 ==> res[i, j'] == old(res[i, j'])
        invariant forall i', j' :: i < i' < res.Length0 && 0 <= j' < res.Length1 ==> res[i', j'] == old(res[i', j'])
      {
        res[i, j] := res[i, j] / scaleSum;
      }
    }
  }

  /** The image buffer: byte `i * WIDTH + j` is the level of pixel `[i, j]`. */
  method Quantize(res: array2<real>) returns (buf: array<Byte>)
    requires res.Length0 == HEIGHT && res.Length1 == WIDTH
    ensures fresh(buf)
    ensures buf.Length == HEIGHT * WIDTH
    ensures forall i, j :: 0 <= i < HEIGHT && 0 <= j < WIDTH ==> buf[i * WIDTH + j] == Level(res[i, j])
  {
    buf := new Byte[HEIGHT * WIDTH](_ => 0);
    for i := 0 to HEIGHT
      invariant forall i', j :: 0 <= i' < i && 0 <= j < WIDTH ==> buf[i' * WIDTH + j] == Level(res[i', j])
    {
      for j := 0 to WIDTH
        invariant forall i', j' :: 0 <= i' < i && 0 <= j' < WIDTH ==> buf[i' * WIDTH + j'] == Level(res[i', j'])
        invariant forall j' :: 0 <= j' < j ==> buf[i * WIDTH + j'] == Level(res[i, j'])
      {
        buf[i * WIDTH + j] := Level(res[i, j]);
      }
    }
  }

  /** `main` without the file output: the bytes of the image. */
  method Heightmap(gradient: nat -> Point) returns (buf: array<Byte>)
    ensures fresh(buf)
    ensures buf.Length == HEIGHT * WIDTH
    ensures forall i, j :: 0 <= i < HEIGHT && 0 <= j < WIDTH ==>
              buf[i * WIDTH + j] == Level(Accumulated(gradient, i, j, 0) / ScaleSum(0))
  {
    var res, scaleSum := GenerateOctaves(gradient);
    ScaleSumPositive();
    Normalize(res, scaleSum);
    buf := Quantize(res);
  }
}
