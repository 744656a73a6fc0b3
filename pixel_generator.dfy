/**
 * The pixel ("retro") identicon generator: configuration, required entropy
 * and the `generate` pipeline that parses the digest, picks the colours,
 * fills the symmetric grid and lays out one block per set cell. The image
 * library's buffer, drawing and encoding are represented by the rendering
 * description the pipeline hands to it.
 */
module PixelGenerators {
  import opened Wrappers
  import opened Errors
  import opened BaseGenerators
  import opened PixelBits
  import opened PixelGrid
  import opened PixelColors
  import opened PixelRaster
  import opened Arithmetic

  /** A configured pixel generator; its configuration never changes after construction. */
  datatype PixelGenerator = PixelGenerator(
    size: nat,
    entropy: int,
    foregroundColors: seq<Color>,
    background: Color,
    format: string,
    invert: bool)
  {
    /** The generator seen through the base generator interface. */
    function Base(): BaseGenerator {
      BaseGenerator(size, Some(entropy))
    }
  }

  const DefaultSize: nat := 5
  const DefaultBackground: Color := "#00000000"  // fully transparent black
  const DefaultFormat: string := "png"

  /** The constructor: the base part keeps `size`, then the entropy requirement for that size is set. */
  function NewPixelGenerator(size: nat, foregroundColors: seq<Color>, background: Color, format: string, invert: bool)
    : (g: PixelGenerator)
    ensures g.Base() == BaseGenerator(size, Some(RequiredEntropy(size)))
    ensures g.foregroundColors == foregroundColors && g.background == background
    ensures g.format == format && g.invert == invert
  {
    PixelGenerator(size, RequiredEntropy(size), foregroundColors, background, format, invert)
  }

  /** A default generator needs 23 bits, so a 128-bit digest passes its gate and a 16-bit one does not. */
  lemma DefaultGeneratorGate(palette: seq<Color>)
    ensures var g := NewPixelGenerator(DefaultSize, palette, DefaultBackground, DefaultFormat, false);
            g.entropy == 23 &&
            CheckEntropy(g.Base(), 128) == Success(true) &&
            CheckEntropy(g.Base(), 16) == Success(false)
  {
    RequiredEntropyExamples();
  }

  /** The pixel model of the image buffer: opaque, or with an alpha channel. */
  datatype Mode = RGB | RGBA

  function LowerChar(c: char): char {
    if 'A' <= c <= 'Z' then (c as int - 'A' as int + 'a' as int) as char else c
  }

  /** Lower-casing of the ASCII letters of a string. */
  function AsciiLower(s: string): (t: string)
    ensures |t| == |s|
  {
    seq(|s|, i requires 0 <= i < |s| => LowerChar(s[i]))
  }

  /** JPEG cannot store transparency, so "jpg" and "jpeg" in any case get an opaque buffer. */
  function ImageMode(format: string): Mode {
    var lower := AsciiLower(format);
    if lower == "jpg" || lower == "jpeg" then RGB else RGBA
  }

  /** `f` spells the lower-case word `s` with any mix of upper- and lower-case letters. */
  predicate CaseOf(f: string, s: string) {
    |f| == |s| && forall i :: 0 <= i < |s| ==> f[i] == s[i] || f[i] as int == s[i] as int - 32
  }

  /** The buffer is opaque exactly for the spellings of "jpg" and "jpeg", in any case. */
  lemma ImageModeIff(f: string)
    ensures ImageMode(f) == RGB <==> CaseOf(f, "jpg") || CaseOf(f, "jpeg")
  {
    if CaseOf(f, "jpg") {
      assert AsciiLower(f) == "jpg";
    }
    if CaseOf(f, "jpeg") {
      assert AsciiLower(f) == "jpeg";
    }
    if AsciiLower(f) == "jpg" {
      assert forall i :: 0 <= i < 3 ==> LowerChar(f[i]) == "jpg"[i];
    }
    if AsciiLower(f) == "jpeg" {
      assert forall i :: 0 <= i < 4 ==> LowerChar(f[i]) == "jpeg"[i];
    }
  }

  lemma ImageModeExamples()
    ensures ImageMode("jpg") == RGB && ImageMode("JPEG") == RGB && ImageMode("Jpeg") == RGB
    ensures ImageMode("png") == RGBA && ImageMode("PNG") == RGBA && ImageMode("jpe") == RGBA
  {
    assert AsciiLower("JPEG") == "jpeg";
    assert AsciiLower("Jpeg") == "jpeg";
    assert AsciiLower("PNG") == "png";
    assert AsciiLower("jpe") == "jpe";
    assert "png"[0] != "jpg"[0] && "png"[0] != "jpeg"[0];
    assert "jpe"[2] != "jpg"[2] && |"jpe"| != |"jpeg"|;
  }

  /**
   * What `generate` hands to the image library: the buffer's pixel model and
   * edge length, the colour pair, the occupancy grid and the rectangles it
   * fills with the foreground, in drawing order.
   */
  datatype Rendering = Rendering(mode: Mode, edge: int, colors: ColorPair, grid: seq<seq<bool>>, blocks: seq<Rect>)

  /**
   * The outcome of `generate`, with Python's exceptions in the order they
   * arise: a chunk that is not hex (ValueError), no first byte (IndexError),
   * an empty palette (ZeroDivisionError in the modulo), too few bytes for the
   * grid (IndexError in the fill loop), grid size 0 (ZeroDivisionError in the
   * block size).
   */
  function Outcome(g: PixelGenerator, data: string, avatarSize: nat, padding: nat): (r: Result<Rendering, Error>)
    ensures r.Failure? ==> r.error in {ValueError(InvalidHexLiteral), IndexError, ZeroDivisionError}
    ensures r.Success? ==> IsSquare(r.value.grid, g.size) && r.value.edge == avatarSize + 2 * padding
  {
    match DataToByteList(data)
    case Failure(e) => Failure(e)
    case Success(bytes) => RenderBytes(g, bytes, avatarSize, padding)
  }

  /** The part of `Outcome` after the data has been parsed into bytes. */
  function RenderBytes(g: PixelGenerator, bytes: seq<int>, avatarSize: nat, padding: nat): (r: Result<Rendering, Error>)
    ensures r.Failure? ==> r.error in {IndexError, ZeroDivisionError}
    ensures r.Success? ==> IsSquare(r.value.grid, g.size) && r.value.edge == avatarSize + 2 * padding
  {
    if |bytes| == 0 then Failure(IndexError)
    else if |g.foregroundColors| == 0 then Failure(ZeroDivisionError)
    else if !EnoughBits(bytes[1..], g.size) then Failure(IndexError)
    else if g.size == 0 then Failure(ZeroDivisionError)
    else
      var grid := Grid(bytes[1..], g.size);
      Success(Rendering(
        ImageMode(g.format),
        avatarSize + 2 * padding,
        SelectColors(bytes, g.foregroundColors, g.background, g.invert),
        grid,
        GridRects(grid, padding, BlockSize(avatarSize, g.size))))
  }

  /** `generate` succeeds exactly when the data parses, leaves a colour byte and enough grid bits, and palette and size are non-empty. */
  lemma OutcomeSucceedsIff(g: PixelGenerator, data: string, avatarSize: nat, padding: nat)
    ensures Outcome(g, data, avatarSize, padding).Success? <==>
            DataToByteList(data).Success? &&
            |DataToByteList(data).value| > 0 &&
            EnoughBits(DataToByteList(data).value[1..], g.size) &&
            |g.foregroundColors| > 0 && g.size > 0
  {
  }

  /**
   * Bounds safety: an even-length hex digest whose entropy (4 bits per
   * character) meets the generator's requirement always leaves a colour byte
   * and a bit for every cell of the fill loop.
   */
  lemma DigestMeetingGateRenders(g: PixelGenerator, data: string, avatarSize: nat, padding: nat)
    requires g.entropy == RequiredEntropy(g.size)
    requires AllHex(data) && |data| % 2 == 0 && 4 * |data| >= g.entropy
    requires |g.foregroundColors| > 0 && g.size > 0
    ensures Outcome(g, data, avatarSize, padding).Success?
  {
    HexStringParses(data);
    var bytes := DataToByteList(data).value;
    assert |bytes| * 2 == |data|;
    assert Cells(g.size) == g.entropy - 8 by {
      assert Cells(g.size) == g.size * HalfColumns(g.size);
    }
    assert EnoughBits(bytes[1..], g.size);
    OutcomeSucceedsIff(g, data, avatarSize, padding);
  }

  /** The first byte only picks the colour: data that agree after it get the same grid and blocks. */
  lemma GridIgnoresColorByte(g: PixelGenerator, data: string, other: string, avatarSize: nat, padding: nat)
    requires Outcome(g, data, avatarSize, padding).Success?
    requires DataToByteList(other).Success? && |DataToByteList(other).value| > 0
    requires DataToByteList(other).value[1..] == DataToByteList(data).value[1..]
    ensures Outcome(g, other, avatarSize, padding).Success?
    ensures Outcome(g, other, avatarSize, padding).value.grid == Outcome(g, data, avatarSize, padding).value.grid
    ensures Outcome(g, other, avatarSize, padding).value.blocks == Outcome(g, data, avatarSize, padding).value.blocks
  {
  }

  /**
   * A successful rendering is mirror-symmetric, paints exactly the pixels of
   * set cells inside the grid area, and paints nothing outside the canvas.
   */
  lemma RenderingPaintsGrid(g: PixelGenerator, data: string, avatarSize: nat, padding: nat, x: int, y: int)
    requires Outcome(g, data, avatarSize, padding).Success?
    ensures var out := Outcome(g, data, avatarSize, padding).value;
            var bs := BlockSize(avatarSize, g.size);
            (forall r, c :: 0 <= r < g.size && 0 <= c < g.size ==> out.grid[r][c] == out.grid[r][g.size - 1 - c]) &&
            (Covered(out.blocks, x, y) <==> InGridArea(g.size, bs, padding, x, y) && CellAt(out.grid, padding, bs, x, y)) &&
            (Covered(out.blocks, x, y) ==> 0 <= x < out.edge && 0 <= y < out.edge)
  {
    var out := Outcome(g, data, avatarSize, padding).value;
    var bs := BlockSize(avatarSize, g.size);
    PaintedPixels(out.grid, g.size, avatarSize, padding, x, y);
    MulMonotone(0, g.size, bs);
  }

  /**
   * `generate`: parses the data, then renders the bytes, raising as
   * `Outcome` describes.
   */
  method Generate(g: PixelGenerator, data: string, avatarSize: nat, padding: nat) returns (r: Result<Rendering, Error>)
    ensures r == Outcome(g, data, avatarSize, padding)
  {
    var parsed := DataToByteList(data);
    if parsed.Failure? {
      return Failure(parsed.error);
    }
    r := RenderParsed(g, parsed.value, avatarSize, padding);
  }

  /**
   * The body of `generate` after parsing: picks the colours, fills the grid
   * and lays out the blocks.
   */
  method RenderParsed(g: PixelGenerator, bytes: seq<int>, avatarSize: nat, padding: nat) returns (r: Result<Rendering, Error>)
    ensures r == RenderBytes(g, bytes, avatarSize, padding)
  {
    if |bytes| == 0 {
      return Failure(IndexError);
    }
    if |g.foregroundColors| == 0 {
      return Failure(ZeroDivisionError);
    }
    var colors := SelectColors(bytes, g.foregroundColors, g.background, g.invert);
    var mode := ImageMode(g.format);
    var edge := avatarSize + padding * 2;
    var filled := FillGrid(bytes[1..], g.size);
    if filled.Failure? {
      return Failure(filled.error);
    }
    var matrix := filled.value;
    if g.size == 0 {
      return Failure(ZeroDivisionError);
    }
    var blockSize := avatarSize / g.size;
    assert blockSize == BlockSize(avatarSize, g.size);
    var blocks := DrawBlocks(matrix, padding, blockSize);
    assert EnoughBits(bytes[1..], g.size) && matrix == Grid(bytes[1..], g.size);
    return Success(Rendering(mode, edge, colors, matrix, blocks));
  }
}
