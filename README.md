# heightmap-gen: integer utilities and the octave loop, verified

The program writes a 512 x 512 greyscale heightmap. It sums eight octaves
of Perlin noise and quantizes the result to bytes. This Dafny project
models two parts of `src/main.rs`:

- **`CommonNumExt`**: the small integer toolkit that the
  `impl_common_num_ext!` macro instantiates for every unsigned and signed
  width. It provides `div_ceil`, `div_floor`, the binary (Stein's) `gcd`,
  `highest_one`, `lowest_one` and `sig_bits`.
  - `Unsigned` models the unsigned impls and `Signed` the signed ones.
  - Both are written once for a width `w`, not per type.
  - A w-bit unsigned value is a natural below 2^w.
  - A signed value lies in [-2^(w-1), 2^(w-1)). Bit operations on it go
    through the two's complement pattern (`x as $ux`).
  - Rust's `/` and `%` on signed operands truncate toward zero, and the
    model writes that out (`TruncDiv`, `TruncRem`).
  - `Bits` gives the bit vocabulary: `&`, `|`, `^`, shifts, `wrapping_neg`,
    `trailing_zeros` and `leading_zeros`.
  - `Divisibility` holds divisibility and the gcd characterisation
    `IsGcd`.
- **`perlin` and the octave loop of `main`** (`PerlinNoise`, `Octaves`).
  For each level from `OCTAVES - 1` down to 0 the loop:
  1. sets `cell_size = 1 << level`;
  2. sizes a gradient lattice with `div_ceil`;
  3. fills the lattice row-major, one random draw per cell;
  4. adds to every pixel the Perlin value read from the four lattice
     corners around it, times the level's amplitude.

  The sum is then divided by `scale_sum`, clamped, rounded and stored as
  bytes.
  - `f32` values are exact reals.
  - The random generator is a function `gradient: nat -> Point`:
    `gradient(n)` is the gradient made from the n-th draw. The model
    therefore says which draw lands in which lattice cell, and which
    gradients each pixel reads.
  - The imperative parts are methods over Dafny arrays: the lattice fill,
    the pixel loops, the normalization and the quantization.
  - Each method is proved against a function of the inputs:
    `Accumulated`, `Noise`, `LatticeGradient` and `Level`.

The model proves:

- the rounding identities of both `div_ceil` and `div_floor`;
- that the binary gcd returns the greatest common divisor;
- the exact bit meaning of `lowest_one`, `highest_one` and `sig_bits`;
- that every lattice access in `perlin` is in bounds;
- that every lattice cell gets its own draw;
- that the final image is the normalized, quantized octave sum;
- that the finest octave (cell size 1) adds nothing to any pixel, because
  every pixel lies on its lattice, although its amplitude is still part of
  `scale_sum`.

## Model

| member | source | states |
|---|---|---|
| Unsigned.DivCeil | src/main.rs:21-24 | the result fits the type and is the ceiling of a / b: (r-1)*b < a <= r*b |
| Unsigned.DivFloor | src/main.rs:25 | the result fits the type and is the floor of a / b: r*b <= a < (r+1)*b |
| Unsigned.Gcd | src/main.rs:26-37 | Stein's loop returns, within the type, a common divisor of a and b that every common divisor divides (the gcd; the bitwise or of a and b when one is 0); the loop keeps both values odd with the same odd common divisors |
| Unsigned.SigBits | src/main.rs:42 | width minus leading zeros is the bit length: x < 2^r, 2^(r-1) <= x for x > 0, and r == 0 exactly for x == 0 |
| Unsigned.HighestOne | src/main.rs:38-40 | 0 for 0; otherwise the power of two 2^(sig_bits-1) with h <= x < 2h |
| Unsigned.LowestOne | src/main.rs:41 | `x & x.wrapping_neg()` is 0 for 0; otherwise 2^trailing_zeros(x), a power of two dividing x with an odd quotient |
| Unsigned.ShiftedOddGcd | src/main.rs:29-36 | shifting the gcd of the odd parts left by the common trailing zeros of a and b gives the gcd of a and b |
| Unsigned.StripKeepsCommonDivisors | src/main.rs:33-34 | removing the trailing zeros of an even difference keeps the common divisors with the other (odd) value |
| Bits.AndNegLowestBit | src/main.rs:41 | for 0 < x < 2^w, x & (2^w - x) is the lowest set bit 2^trailing_zeros(x) |
| Bits.OrTrailingZeros | src/main.rs:29 | the trailing zeros of the bitwise or of a and b are the fewer of those of a and b |
| Bits.ShrIsDiv | src/main.rs:30-31 | `x >> k` is x / 2^k |
| Signed.CastsRoundTrip | src/main.rs:55-60 | `as $ux` and `as $ix` are inverse bijections, and a value is negative exactly when its top bit is set |
| Signed.WrappingNegBits | src/main.rs:55-59 | signed `wrapping_neg` stays in range and acts on the bit pattern as unsigned `wrapping_neg` does |
| Signed.XorSignTest | src/main.rs:48-52 | `a ^ b >= 0` holds exactly when a and b have the same sign |
| Signed.TruncDivRem | src/main.rs:47-51 | Rust's truncating `/` and `%` satisfy a == b*q + r with abs(r) < abs(b), r zero or signed like a, and magnitudes abs(a) / abs(b) and abs(a) % abs(b) |
| Signed.QuotientRange | src/main.rs:47-52 | outside MIN / -1 the truncated quotient fits, and so do q + 1 and q - 1 when the division is inexact (the corrections never overflow) |
| Signed.DivCeil | src/main.rs:46-49 | the result fits the type and is the ceiling of a / b for either sign of b |
| Signed.DivFloor | src/main.rs:50-53 | the result fits the type and is the floor of a / b for either sign of b |
| Signed.RoundingAgree | src/main.rs:46-53 | for every b > 0, MIN included, div_floor is Euclidean division; and, where -a fits (a != MIN), div_ceil(a, b) == -div_floor(-a, b) |
| Signed.SigBits | src/main.rs:60 | a negative value needs the full width; a non-negative one gets its bit length, below the width |
| Signed.HighestOne | src/main.rs:58 | through the unsigned cast: 0 for 0, MIN for a negative value, otherwise the power of two h with h <= x < 2h |
| Signed.LowestOne | src/main.rs:59 | 0 for 0, MIN for MIN, otherwise exactly 2^trailing_zeros(abs(x)): the lowest set bit, a positive power of two that divides abs(x) with an odd quotient |
| Signed.LowestOneBits | src/main.rs:59 | the bit pattern of `x & x.wrapping_neg()` is 0 for 0, the top bit for MIN, and otherwise 2^trailing_zeros(abs(x)), below the top bit, dividing abs(x) with an odd quotient |
| Signed.WrappingNeg | src/main.rs:55 | `wrapping_neg` stays in the type and is congruent to -x modulo 2^w; it is -x except for MIN |
| Bits.WrappingNeg | src/main.rs:41 | unsigned `wrapping_neg` stays in the type and is the additive inverse of x modulo 2^w (2^w - x for x > 0) |
| Signed.Xor | src/main.rs:48 | `a ^ b` on signed values stays in the type and is negative exactly when the signs of a and b differ |
| Signed.TruncDiv | src/main.rs:47 | Rust's signed `/` has the magnitude abs(a) / abs(b) and is positive only for equal signs, negative only for different signs |
| Signed.TruncRem | src/main.rs:51 | Rust's signed `%` has the magnitude abs(a) % abs(b) and is zero or has the sign of a |
| Signed.AbsBits | src/main.rs:55 | `w_abs` is the true abs(x), also for MIN, and at most 2^(w-1) |
| Signed.Gcd | src/main.rs:54-57 | a non-negative result is the gcd of abs(a) and abs(b); the result is negative (MIN, standing for 2^(w-1)) exactly when both arguments are 0 or MIN and not both 0 |
| Signed.GcdTopBit | src/main.rs:56 | the unsigned gcd of two magnitudes reaches 2^(w-1) exactly in those cases |
| PerlinNoise.DotGridGradient | src/main.rs:74-81 | the dot product of a gradient with the offset to the point vanishes at the corner itself and for a zero gradient |
| PerlinNoise.Interpolate | src/main.rs:83-85 | `interpolate` gives a0 at weight 0, a1 at weight 1, and a0 when both ends agree |
| PerlinNoise.Perlin | src/main.rs:87-105 | its precondition is the in-bounds condition of the four corner reads (the source panics otherwise), and the value is 0 at every lattice point |
| PerlinNoise.ToUsize | src/main.rs:88-89 | `x as usize` fits usize and saturates: 0 below 0, 2^64 - 1 from 2^64 up, and the integer part of x in between |
| PerlinNoise.InterpolateBetween | src/main.rs:83-85 | for a weight in [0, 1] `interpolate` stays between its ends, giving a0 at 0 and a1 at 1 |
| PerlinNoise.PerlinVanishesAtLattice | src/main.rs:87-105 | `perlin` is 0 at every lattice point, whatever the gradients |
| Octaves.CellSizeIsPow2 | src/main.rs:115-116 | `1 << level` on usize is 2^level, between 1 and 2^(OCTAVES-1), for every level of the loop |
| Octaves.DimensionsInRange | src/main.rs:67-68 | HEIGHT and WIDTH are 2^9 and fit usize |
| Octaves.LatticeDims | src/main.rs:118-119 | `HEIGHT.div_ceil(cell_size)` and `WIDTH.div_ceil(cell_size)` are 2^(9-level) |
| Octaves.DivCeilExact | src/main.rs:118-119 | `a.div_ceil(b)` is the quotient when b divides a |
| Octaves.CornerInLattice | src/main.rs:88-91 | for any size n and cell size cs, the row i/cs + 1 read for a pixel i < n is at most n.div_ceil(cs), and the last pixel uses the last row |
| Octaves.PixelInLattice | src/main.rs:88-91 | `x as usize` of pixel coordinate i/cs is i >> level, and it and one more both index the lattice (likewise for j) |
| Octaves.CellInLattice | src/main.rs:118-121 | a row or column below 2^9 shifted right by level is at most 2^(9-level) - 1 |
| Octaves.FillLattice | src/main.rs:121-124 | fills an (h+1) x (w+1) array row-major: cell [a, b] holds draw first + a*(w+1) + b, and (h+1)*(w+1) draws are used |
| Octaves.DrawsDistinct | src/main.rs:115-124 | no two cells of any levels receive the same draw |
| Octaves.DrawsDistinctInLevel | src/main.rs:122-124 | within one lattice the row-major numbering is one-to-one |
| Octaves.DrawsOrderedAcrossLevels | src/main.rs:115-124 | every draw of a coarser level comes before every draw of a finer one |
| Octaves.DrawInLevel | src/main.rs:115-124 | every draw of a level's lattice lies after the coarser levels' draws and before the finer ones |
| Octaves.DrawFillsCell | src/main.rs:121-124 | conversely, every draw in that range fills some cell of the level's lattice, so the level uses exactly those draws |
| Octaves.LevelSizes | src/main.rs:116-119 | the loop's `cell_size`, `h` and `w` are 2^level and 2^(9-level) |
| Octaves.LevelLattice | src/main.rs:116-124 | the level's lattice holds in each cell the gradient of its own draw, and the draw counter moves past the level |
| Octaves.PerlinReadsLattice | src/main.rs:87-105 | `perlin` on the filled lattice reads in bounds and returns the pixel's noise for that level |
| Octaves.PerlinReadsGrid | src/main.rs:126-129 | the same, against a grid of the level's noise values |
| Octaves.AddPixel | src/main.rs:129 | `res[[i, j]] += perlin(..) * scale` changes exactly that pixel, by the scaled noise |
| Octaves.AddOctave | src/main.rs:126-130 | the pixel loop adds to every pixel its noise times `scale` |
| Octaves.AccumulateLevel | src/main.rs:126-130 | one level takes the sum over the coarser levels to the sum including this level |
| Octaves.AddLevel | src/main.rs:115-130 | one pass of the octave loop consumes exactly the level's draws and takes `res` from the coarser-levels sum to the sum including this level |
| Octaves.GenerateOctaves | src/main.rs:110-134 | after the loop every pixel holds the amplitude-weighted sum of its noise over all levels, and `scale_sum` is the sum of the amplitudes |
| Octaves.ScaleSumGeometric | src/main.rs:132-133 | the amplitudes form a geometric series: after the levels from `level` up, scale_sum == 4 * (1 - 0.75^(OCTAVES-level)) |
| Octaves.ScaleSumPositive | src/main.rs:132-137 | the final scale_sum is 58975/16384, so the normalization divides by a positive number |
| Octaves.FinestLevelVanishes | src/main.rs:115-129 | at level 0 (cell size 1) every pixel's noise is 0, so the finest octave leaves every pixel unchanged |
| Octaves.NoiseVanishesOnLattice | src/main.rs:126-129 | a pixel whose coordinates are multiples of the cell size gets nothing from that level |
| Octaves.Normalize | src/main.rs:136-138 | every pixel is divided by scale_sum |
| Octaves.Clamp | src/main.rs:142 | `clamp(lo, hi)` lies in [lo, hi], keeps a value already inside, and otherwise returns the nearer bound |
| Octaves.Round | src/main.rs:142 | `round` gives the nearest integer, with halves rounded away from zero |
| Octaves.SaturateByte | src/main.rs:142 | `as u8` keeps a byte value and saturates below 0 and above 255 |
| Octaves.Level | src/main.rs:142 | the byte of a pixel: 0 for -1 and below, 255 for 1 and above, 128 for 0, and within one half of (v + 1) * 127.5 in between |
| Octaves.LevelFacts | src/main.rs:142 | the rounded value is in 0..255, so the cast to u8 never saturates; -1 and below give 0, 1 and above give 255, 0 gives 128, and the map is monotone |
| Octaves.Quantize | src/main.rs:140-143 | byte i*WIDTH + j of the buffer is the quantized level of pixel [i, j] |
| Octaves.Heightmap | src/main.rs:107-143 | every byte of the image is the quantized, normalized octave sum of its pixel |

## Left out

- The macro instantiation over the six type pairs (`src/main.rs:65`): one
  generic width `w` stands for all of them. `usize` is 64 bits wide in the
  grid code.
- Panics (division by zero, `MIN / -1`, a left shift by the width or more,
  out-of-bounds indexing) are not modelled as behaviour. They appear as
  preconditions that callers must meet, and the callers are proved to meet
  them.
- Bits.Shr: only `<<` (`Bits.Shl`) carries the shift-width precondition.
  `Bits.Shr` takes no width. The right shifts of `gcd`
  (`src/main.rs:30-34`) shift a nonzero value by its own trailing zeros,
  which are below the width, so they cannot panic.
- `HEIGHT.div_ceil(cell_size)` on `usize` may resolve to the standard
  library's inherent `usize::div_ceil` rather than the trait method. Both
  give the ceiling, and the model uses `Unsigned.DivCeil`.
- Floating point: `f32` rounding, NaN and infinities are not modelled.
  Arithmetic is exact over reals. For the pixel coordinate `i / cell_size`
  this is exact in `f32` too, because the cell size is a power of two and
  `i < 512`.
- PerlinNoise.ToUsize: NaN (which Rust casts to 0) is not modelled.
- The random generator `Mwc256XXA64` and `rand::Rng` (`src/main.rs:108`),
  and the gradient computation `(draw * TAU).sin_cos()` (`src/main.rs:123`):
  they are abstracted as the function `gradient` from draw number to
  gradient. The model states which draw each cell receives, not its value.
- `ndarray::Array2` is modelled by Dafny `array2`.
- PNG encoding and file output (`src/main.rs:145-149`) are I/O and not
  modelled. `Octaves.Heightmap` returns the byte buffer.
- Octaves.AddOctave: its contract speaks of a ghost grid of the level's
  noise values. That grid's meaning is fixed by the `IsNoiseGrid`
  precondition.
- Octaves.Normalize: it requires a positive `scale_sum`, which the loop
  always produces (`Octaves.ScaleSumPositive`). It does not model division
  by zero in `f32`.
