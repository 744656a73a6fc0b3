# comforticons identicon core in Dafny

This project models the generation core of comforticons, a library that
turns a string (usually an e-mail address) into a small mirror-symmetric
"retro" identicon. The model covers:

- the **entropy accounting** between preprocessors and generators: each
  preprocessor declares the bits it provides, each generator the bits it
  requires, and the base generator's `check_entropy` compares the two;
- the **pixel generator**: its required entropy `ceil(size/2)*size + 8`,
  the parsing of the hex digest into byte values, the MSB-first bit reader,
  the half-grid fill loop that builds the `size x size` occupancy matrix
  together with its mirror image, the foreground pick from the palette with
  the optional invert swap, the image mode choice and the block rectangles
  passed to the drawing call;
- the **Identicon factory**: construction (a missing generator is refused),
  the entropy gate on the last preprocessor, and the in-order fold of the
  data through the preprocessors into the generator.

Python's exceptions are modelled as `Result` failures with the exception
class (`Errors.Error`): `ValueError` (bad hex chunk, missing generator,
insufficient entropy), `TypeError` (comparing with an unset entropy),
`IndexError` (no colour byte, too few grid bits) and `ZeroDivisionError`
(empty palette, grid size 0). The code raises ValueError both for a
missing generator and for insufficient entropy; `Errors.Reason` records
which.

Files: `wrappers.dfy` (Option, Result, Error), `arithmetic.dfy`
(multiplication and division facts), `base_generator.dfy`
(generators/base.py), `pixel_bits.dfy`, `pixel_grid.dfy`,
`pixel_colors.dfy`, `pixel_raster.dfy`, `pixel_generator.dfy`
(generators/image.py, split by concern) and `identicon.dfy` (main.py).

The fill loop (`PixelGrid.FillGrid`), the drawing loops
(`PixelRaster.DrawBlocks`) and the preprocessor loop of
`Identicons.Identicon.Generate` are methods with loops, each proved equal to
a specification function (`Grid`, `GridRects`, `GenerateOutcome`).
`PixelGenerators.Generate` has no loop of its own: it parses the data and
calls `PixelGenerators.RenderParsed`, which runs `FillGrid` and `DrawBlocks`;
the two are proved equal to `Outcome` and `RenderBytes`. The lemmas below
state the source's promises about these specification functions.

## Model

| member | source | states |
|---|---|---|
| BaseGenerators.NewBaseGenerator | comforticons/generators/base.py:12-24 | the base constructor stores `size` unchanged and leaves the entropy unset (None) |
| BaseGenerators.CheckEntropy | comforticons/generators/base.py:26-36 | the gate fails with TypeError exactly when the requirement is unset, and otherwise answers |
| BaseGenerators.GatePassesIff | comforticons/generators/base.py:36 | with a requirement set, the gate passes iff provided >= required |
| BaseGenerators.GateBoundary | comforticons/generators/base.py:36 | the boundary is inclusive: the requirement passes, one bit less fails |
| BaseGenerators.GateExamples | comforticons/generators/base.py:36 | 128 provided against 129 required fails; 128 against 128 passes |
| BaseGenerators.GateMonotone | comforticons/generators/base.py:36 | a provision that passes keeps passing when it grows |
| BaseGenerators.Generate | comforticons/generators/base.py:38-50 | the interface's generate yields no avatar for any input |
| PixelBits.HexDigitValue | comforticons/generators/image.py:221 | a character has a base-16 value, in 0..15, exactly when it is a hex digit of either case |
| PixelBits.HexChar | comforticons/preprocessors/hash.py:41-49 | the lower-case digest digit of a value below 16 parses back to that value |
| PixelBits.ParseChunk | comforticons/generators/image.py:221 | `int(chunk, 16)` of two characters: two hex digits give 16*hi+lo; results lie in -15..255; failures are ValueError; two non-digits always fail |
| PixelBits.SeparatorIsNotWhitespace | comforticons/generators/image.py:221 | a digit next to U+001C or U+001F is a ValueError (an ASCII chunk is stripped of ASCII whitespace only); next to a tab or U+00A0 it parses |
| PixelBits.DataToByteList | comforticons/generators/image.py:211-221 | succeeds iff every complete chunk parses; then exactly len//2 values, value i being the parse of characters 2i and 2i+1 (an odd last character ignored) |
| PixelBits.HexStringParses | comforticons/generators/image.py:211-221 | an all-hex string always parses, into bytes 0..255 with value i = 16*digit(2i) + digit(2i+1) |
| PixelBits.HexByte | comforticons/preprocessors/hash.py:41-49 | a byte's digest text is two hex digits |
| PixelBits.HexEncode | comforticons/preprocessors/hash.py:41-49 | a digest text has two hex digits per byte |
| PixelBits.HexRoundTrip | comforticons/generators/image.py:211-221 | parsing the hex digest of a byte list gives back exactly that byte list |
| PixelBits.GetBitResidue | comforticons/generators/image.py:223-236 | `_get_bit(n)` is set iff byte n//8 modulo 2^(8 - n%8) is at least 2^(7 - n%8), i.e. iff that place value is present in the byte |
| PixelBits.ByteBitsReassemble | comforticons/generators/image.py:223-236 | bits 8k..8k+7 read by `_get_bit` are byte k most-significant bit first: read as a binary number they reassemble the byte |
| PixelGrid.HalfColumns | comforticons/generators/image.py:203-205 | `size // 2 + size % 2` is ceil(size/2): 2h-1 <= size <= 2h |
| PixelGrid.RequiredEntropy | comforticons/generators/image.py:203-205 | the required entropy minus the colour byte covers at least half the grid and at most one extra column |
| PixelGrid.RequiredEntropyExamples | comforticons/generators/image.py:203-205 | size 5 requires 23 bits, size 4 requires 16, size 1 requires 9 |
| PixelGrid.CellColumn | comforticons/generators/image.py:310-317 | every loop cell has a column strictly left of the mirror axis or on it, inside the matrix |
| PixelGrid.SourceColumn | comforticons/generators/image.py:319-322 | the column whose bit decides column c is c or its mirror, whichever is in the filled half |
| PixelGrid.BitIndex | comforticons/generators/image.py:310-322 | cell (row, col) is decided by bit min(col, size-1-col)*size + row, which the loop visits |
| PixelGrid.Grid | comforticons/generators/image.py:304-322 | the grid is size x size and mirror-symmetric: grid[r][c] == grid[r][size-1-c] |
| PixelGrid.BitDecidesCell | comforticons/generators/image.py:314-322 | bit k of the fill decides exactly cell (k % size, k // size) and its mirror |
| PixelGrid.MarkStep | comforticons/generators/image.py:314-322 | handling one cell (marking it and its mirror when its bit is set, the centre column twice) extends the fill by that cell |
| PixelGrid.FilledIsGrid | comforticons/generators/image.py:310-322 | after all cells are handled the matrix is the grid; cells never hit stay False |
| PixelGrid.FinalCell | comforticons/generators/image.py:310-322 | of a cell's own index and its mirror's index, any one the loop reaches is the cell's bit index |
| PixelGrid.FillGrid | comforticons/generators/image.py:304-322 | the fill loop raises IndexError iff the bytes after the colour byte hold fewer bits than cells, and otherwise returns the grid |
| PixelColors.ColorIndex | comforticons/generators/image.py:286 | the palette index is in range and congruent to the first byte modulo the palette length |
| PixelColors.SelectColors | comforticons/generators/image.py:283-291 | the foreground is palette[b0 mod len] and the background the configured one, the two swapped by invert |
| PixelColors.InvertSwaps | comforticons/generators/image.py:289-291 | invert yields exactly the swapped pair of the non-inverted choice |
| PixelColors.ColorWraps | comforticons/generators/image.py:285-287 | a first byte of 0 or of the palette length selects palette[0] |
| PixelColors.ColorsFromFirstByte | comforticons/generators/image.py:283-288 | the colour pair depends on the first byte alone |
| PixelRaster.BlockSize | comforticons/generators/image.py:324 | the block size is the widest with size blocks fitting in the avatar |
| PixelRaster.CellRect | comforticons/generators/image.py:329-333 | each cell's rectangle is bs pixels wide and high |
| PixelRaster.CellRectPixels | comforticons/generators/image.py:329-336 | a pixel is in cell (row, col)'s rectangle iff its block coordinates are (row, col) |
| PixelRaster.CellRectInCanvas | comforticons/generators/image.py:324-336 | every block of an in-grid cell lies inside the avatar area and the padded canvas |
| PixelRaster.CellRectsDisjoint | comforticons/generators/image.py:324-336 | blocks of distinct cells share no pixel |
| PixelRaster.BeyondGridUncovered | comforticons/generators/image.py:324-336 | pixels at or beyond padding + size*bs (the truncation remainder) are in no block |
| PixelRaster.RowRectsCount | comforticons/generators/image.py:327-336 | the inner drawing loop's specification emits exactly one rectangle per set cell of the row |
| PixelRaster.GridRectsCount | comforticons/generators/image.py:326-336 | the drawing loops' specification emits exactly as many rectangles as the matrix has set cells |
| PixelRaster.RowRectsPixels | comforticons/generators/image.py:327-336 | one row's rectangles cover a pixel iff it falls in a set cell of that row |
| PixelRaster.GridRectsPixels | comforticons/generators/image.py:326-336 | the drawn rectangles cover a pixel iff it falls in a set cell of the matrix |
| PixelRaster.PaintedPixels | comforticons/generators/image.py:324-336 | for a square grid, a pixel is painted iff it is in the grid area and its cell is set |
| PixelRaster.DrawBlocks | comforticons/generators/image.py:326-336 | the nested drawing loops emit one rectangle per set cell, row-major, as GridRects |
| PixelGenerators.NewPixelGenerator | comforticons/generators/image.py:181-209 | the constructor keeps size and sets the entropy requirement to the formula for that size; other settings are stored as given |
| PixelGenerators.DefaultGeneratorGate | comforticons/generators/image.py:181-205 | the default size-5 generator requires 23 bits: a 128-bit digest passes, 16 bits do not |
| PixelGenerators.ImageModeIff | comforticons/generators/image.py:293-296 | for every format string, the buffer is opaque iff the format spells "jpg" or "jpeg" in some mix of cases, and has an alpha channel otherwise |
| PixelGenerators.ImageModeExamples | comforticons/generators/image.py:293-296 | "jpg", "JPEG" and "Jpeg" get an opaque buffer; "png", "PNG" and "jpe" an alpha one |
| PixelGenerators.Outcome | comforticons/generators/image.py:238-352 | generate fails only with ValueError, IndexError or ZeroDivisionError; a rendering has a square grid and canvas edge avatar_size + 2*padding |
| PixelGenerators.RenderBytes | comforticons/generators/image.py:283-336 | after parsing, failures are IndexError or ZeroDivisionError; a rendering has a square grid |
| PixelGenerators.OutcomeSucceedsIff | comforticons/generators/image.py:281-324 | generate succeeds iff the data parses, a colour byte and enough grid bits follow, and palette and size are non-empty |
| PixelGenerators.DigestMeetingGateRenders | comforticons/generators/image.py:281-322 | bounds safety: an even-length hex input with 4*len >= required entropy never indexes out of range |
| PixelGenerators.GridIgnoresColorByte | comforticons/generators/image.py:310-314 | the first byte never influences the grid or the blocks |
| PixelGenerators.RenderingPaintsGrid | comforticons/generators/image.py:297-336 | a rendering is mirror-symmetric, paints exactly the pixels of set cells in the grid area, and nothing outside the canvas |
| PixelGenerators.Generate | comforticons/generators/image.py:238-352 | the generate method equals Outcome, error order included |
| PixelGenerators.RenderParsed | comforticons/generators/image.py:283-336 | the steps of generate after parsing (colour pick, fill loop, block size, drawing loops) equal RenderBytes |
| Identicons.PipelineIsForwardFold | comforticons/main.py:59-60 | the fold used by the model equals handing the data to each preprocessor in list order, as the loop reads |
| Identicons.PipelineFirstStep | comforticons/main.py:59-60 | the first preprocessor runs first, on the raw data |
| Identicons.PipelineAppend | comforticons/main.py:59-60 | running a concatenated list runs the second part on the first part's output |
| Identicons.Gate | comforticons/main.py:51-58 | the gate fires only for a non-empty list with checking on; then it is a TypeError when the requirement is unset, and otherwise fires iff the last preprocessor's entropy is below the requirement |
| Identicons.GateReadsOnlyLast | comforticons/main.py:52-55 | lists agreeing on the last preprocessor's entropy get the same verdict, whatever comes before |
| Identicons.GateOff | comforticons/main.py:51-53 | with checking off or no preprocessors the gate never fires |
| Identicons.GenerateOutcome | comforticons/main.py:51-61 | generate returns the generator's output on the folded data; it fails only with checking on and a non-empty list; with both, an unset requirement always fails with TypeError and a failure is a TypeError only then; and otherwise with the insufficient-entropy ValueError exactly when the last entropy is below the requirement |
| Identicons.EmptyChainPassesRawData | comforticons/main.py:51-61 | with no preprocessors the raw data goes to the generator unchanged |
| Identicons.GateBeforeWork | comforticons/main.py:51-60 | a gate failure is the same for any data and any other preprocessor list ending in the same entropy, whatever its preprocessors compute |
| Identicons.GatePassedRenders | comforticons/main.py:51-61 | when the last preprocessor emits honest even-length hex digests and the gate passes, the pixel generator renders |
| Identicons.Identicon.constructor | comforticons/main.py:38-40 | a missing preprocessor list is stored as the empty list, a given one as is; generator and flag as given |
| Identicons.Identicon.Create | comforticons/main.py:22-40 | construction fails with ValueError iff the generator is missing |
| Identicons.Identicon.Generate | comforticons/main.py:42-61 | generate fails iff the gate fires, and otherwise returns the generator applied to the in-order fold of the preprocessors |

## Left out

- The image library: allocating the buffer, filling rectangles, encoding
  and streaming the image (comforticons/generators/image.py:293-301,
  336-352) are external; the model records the buffer mode, edge length,
  colours and rectangles handed to it. The ValueError raised for a format
  the library does not know depends on the library and is not modelled.
- How the image library treats a degenerate rectangle when the block size
  is 0 (avatar smaller than the grid) is not modelled; such a rectangle
  covers no pixel in the model.
- The hash preprocessors (comforticons/preprocessors/hash.py) and the
  preprocessor interface (comforticons/preprocessors/base.py) are
  represented by `Identicons.Preprocessor`, an entropy and a total string
  function; encoding errors of the digest library are not modelled.
  `Identicons.EmitsHexDigest` states the property of a hex digest that
  declares 4 bits per character.
- The contents of the default colour table `HTML_COLORS`: the palette is
  any sequence of colours.
- Python's shared mutable default arguments and exception message texts.
- PixelGenerators.NewPixelGenerator: the grid size is a natural number;
  negative sizes, which the Python constructor accepts, are not modelled.
  For a size of -2 or less the fill loop still runs (size -3 gives
  -3 * (-2 + 1) = 3 cells) over an empty matrix, so the first set bit
  raises IndexError at `matrix[row]` (comforticons/generators/image.py:321). Avatar size and padding are
  natural numbers for the same reason.
- PixelBits.ParseChunk: Python's `int()` also accepts non-ASCII decimal
  digits (for example fullwidth digits) and underscores between digits of
  longer literals; the model rejects non-ASCII digits (a two-character
  chunk cannot hold an underscore between two digits).
- PixelGenerators.ImageMode: only ASCII letters are lower-cased; Python's
  `lower()` is Unicode-aware, which makes no difference for "jpg"/"jpeg".
- Identicons.PixelAsGenerator: the pixel generator is plugged into the
  factory through its specification function `Outcome` with the default
  avatar size 120 and padding 0, since a generator's step is a function.
