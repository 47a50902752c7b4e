# DotStar persistence-of-vision precompute

A model, in Dafny, of the precompute stage of `dotstar_image_pov.py`, a script
that shows a still image on a spinning arm of 72 DotStar LEDs. Before the
endless display loop starts, the script builds three buffers in place:

1. **GAMMA**: a 256-byte table. Entry `i` is `int(pow(i/255, 2.7) * 0.25 * 255 + 0.5)`.
2. **COLUMN**: a WIDTH × HEIGHT grid of four-element cells. Cell `(x, y)` becomes
   `[GAMMA[R], GAMMA[G], GAMMA[B], 0.5]` of source pixel `(x, y)`.
3. **FINAL**: a 360 × 72 grid, one row per degree of rotation and one cell per LED.
   Cell `(a, r)` is gathered from COLUMN at
   `fx = round(128 + (128/72)·r·cos a°)`, `fy = round(128 − (128/72)·r·sin r°)`,
   with brightness 0.5. The script does not check the index before the read.

Files:

- `pynum.dfy`, module `PyNum`: Python's `int()` on a float (truncation toward
  zero) and `round()` (nearest integer, ties to even), on exact reals.
- `dotstar_pov.dfy`, module `DotstarPov`: the buffers and the loops that fill
  them. GAMMA is an `array<byte>`. COLUMN and FINAL are `array2<Cell>`. Each
  loop of the script is a method with loop invariants. The index mapping is a
  pair of functions, and lemmas state what it guarantees.

The floating-point library calls are inputs, not computed:

- `curve[i]` is the value `pow(i / 255.0, 2.7)` returns. `ValidCurve` says
  it lies in [0, 1] and is exactly 0 at 0 and exactly 1 at 255.
- `trig.cos[d]` and `trig.sin[d]` are the values `math.cos(math.radians(d))`
  and `math.sin(math.radians(d))` return for a whole degree `d`. `ValidTrig`
  says they lie in [−1, 1].

The read `COLUMN[fx][fy]` is unchecked in the script. An index past the end
raises `IndexError`, which the model returns as `Outcome.IndexError(a, r)`:
the first cell in sweep order whose source does not exist. Cells visited
earlier are written and later ones are untouched. `fx` and `fy` always lie in
[2, 254], so Python's negative-index wrap-around never happens. An image of at
least 255 × 255 pixels never fails.

The vertical coordinate uses `sin` of the radial step `r`, not of the angle.
The model keeps that formula as written. `RowIgnoresAngle` and
`RowsAboveCentre` state what follows from it: every angle at a given radius
reads the same source row, and no radius reads below row 128.

Two details of the arithmetic:

- A table entry is `int(x + 0.5)`, which rounds half up; it is not Python's `round`.
- Radius 0 maps to (128, 128) exactly.

## Model

| member | source | states |
|---|---|---|
| PyNum.Trunc | dotstar_image_pov.py:54 | `int()` of a non-negative value is the largest integer not above it; of a negative value, the smallest integer not below it |
| PyNum.Round | dotstar_image_pov.py:82-83 | `round()` returns an integer within one half of its argument, and the even one on an exact tie |
| DotstarPov.GammaEntry | dotstar_image_pov.py:52-54 | an entry is `curve value · 0.25 · 255` rounded half up, and lies in [0, 64], so the bytearray store never fails |
| DotstarPov.GammaTable | dotstar_image_pov.py:51-54 | the table has 256 byte entries; entry 0 is 0 and entry 255 is 64 |
| DotstarPov.GammaMonotone | dotstar_image_pov.py:53-54 | if the curve is non-decreasing, so is the table |
| DotstarPov.BuildGamma | dotstar_image_pov.py:51-54 | the loop turns a newly allocated, zeroed 256-byte array into exactly the gamma table |
| DotstarPov.AllocateGrid | dotstar_image_pov.py:58-60 | a fresh WIDTH × HEIGHT grid whose every cell is `[0, 0, 0, 0]` |
| DotstarPov.AllocateFinal | dotstar_image_pov.py:74-76 | a fresh grid of 360 rows of NUMPIXELS = 72 blank cells, so one row fills the strip |
| DotstarPov.ConvertImage | dotstar_image_pov.py:64-70 | afterwards every cell `(x, y)` is `(T[R], T[G], T[B], 0.5)` of pixel `(x, y)`; during the loop, visited cells are converted and the others keep their old value |
| DotstarPov.SourceX | dotstar_image_pov.py:77-82 | `fx` is the nearest integer to `128 + distance · cos a` and lies in [2, 254] |
| DotstarPov.SourceY | dotstar_image_pov.py:77-83 | `fy` is the nearest integer to `128 − distance · sin r` (sine of the radius) and lies in [2, 254] |
| DotstarPov.CentreAtRadiusZero | dotstar_image_pov.py:81-83 | at radius 0 every angle maps to (128, 128) |
| DotstarPov.RowIgnoresAngle | dotstar_image_pov.py:83 | `fy` is the same for every angle at a given radius |
| DotstarPov.RowsAboveCentre | dotstar_image_pov.py:83 | since the sine of 0 to 71 degrees is non-negative, `fy` never exceeds 128 |
| DotstarPov.LargeImageInBounds | dotstar_image_pov.py:77-84 | for an image of at least 255 × 255 pixels, every read of COLUMN is in range |
| DotstarPov.ShortImageInBounds | dotstar_image_pov.py:77-84 | given the sign of those sines, 255 columns by 129 rows already keep every read in range |
| DotstarPov.CentreMustBeInside | dotstar_image_pov.py:81-84 | if every read is in range, the image is wider and taller than 128 pixels |
| DotstarPov.WidthMustReach255 | dotstar_image_pov.py:82-84 | with `cos 0 = 1`, if every read is in range, the image is at least 255 pixels wide |
| DotstarPov.CopyCell | dotstar_image_pov.py:84-87 | one polar cell gets the source cell's colour and brightness 0.5; no other cell changes |
| DotstarPov.ResampleRow | dotstar_image_pov.py:80-87 | one angle's 72 cells: it passes exactly when every radius reads in range; otherwise it stops at the first radius that does not, with the earlier radii written and the rest untouched; other rows never change |
| DotstarPov.Resample | dotstar_image_pov.py:79-87 | passes exactly when every (angle, radius) reads in range; then each cell `(a, r)` is `COLUMN[fx][fy]` with brightness 0.5, and all 360 rows share the centre cell at radius 0; otherwise it stops at the first failing cell in sweep order, with earlier cells written and later ones untouched |
| DotstarPov.Precompute | dotstar_image_pov.py:50-87 | the whole pipeline: GAMMA, COLUMN and FINAL are new objects; GAMMA is the table and COLUMN holds the converted image. FINAL passes exactly when all reads are in range, which an image of at least 255 × 255 ensures. Each FINAL cell is the converted pixel at `(fx, fy)`, and a single-colour image gives that colour's cell everywhere |
| DotstarPov.SolidRed | dotstar_image_pov.py:64-87 | a pure red pixel (255, 0, 0) becomes the polar cell (64, 0, 0, 0.5) |

## Left out

- Image loading through PIL (`Image.open`, `convert`, `load`) is a library call: the decoded pixels are the input `pixels: array2<Rgb>`, whose two dimensions are WIDTH and HEIGHT.
- The DotStar strip, its pins and the endless display loop (`DOTS[...] = FINAL[x]`, `DOTS.show()`) are hardware I/O that never ends; the `print` diagnostics are output only.
- `pow`, `math.cos`, `math.sin` and `math.radians` are library floating-point calls: their results are inputs, bounded by `ValidCurve` and `ValidTrig`.
- All arithmetic is on exact reals. Float rounding in `ratio * y`, the products and the sums is not modelled. The bounds on `fx` and `fy` leave at least 0.25 to spare, and the gamma endpoints are exact in IEEE arithmetic.
- GammaMonotone: holds only for a non-decreasing curve, because whether `pow` on floats is monotone is a property of the math library, not of the script.
- COLUMN and FINAL are lists of lists in the script and two-dimensional arrays here. Each cell of the script is its own fresh list, so no two cells alias, and a cell is a value. The script's four per-element stores into a cell are kept as four updates.
- The brightness element of a freshly allocated cell is the integer 0 in the script and `0.0` here.
