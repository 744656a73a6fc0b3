/**
 * Colour selection of the pixel generator: the first digest byte picks the
 * foreground from the palette, the configured background is kept, and the
 * invert flag swaps the two.
 */
module PixelColors {
  import opened Arithmetic

  /** A colour as the generator stores it, e.g. "#00000000". */
  type Color = string

  datatype ColorPair = ColorPair(background: Color, foreground: Color)

  /** Python's `b % n` for a positive n: the index in 0 .. n-1 congruent to b modulo n. */
  function ColorIndex(b: int, n: int): (i: int)
    requires n > 0
    ensures 0 <= i < n
    ensures (b - i) % n == 0
  {
    ModCongruent(b, n);
    b % n
  }

  /**
   * The (background, foreground) pair of `generate`: the foreground is the
   * palette entry the first byte selects, the background the configured one;
   * with `invert` the two trade places.
   */
  function SelectColors(bytes: seq<int>, palette: seq<Color>, background: Color, invert: bool): (p: ColorPair)
    requires |bytes| > 0 && |palette| > 0
    ensures !invert ==> p.background == background && p.foreground in palette
    ensures invert ==> p.foreground == background && p.background in palette
    ensures (if invert then p.background else p.foreground) == palette[ColorIndex(bytes[0], |palette|)]
  {
    var picked := palette[bytes[0] % |palette|];
    if invert then ColorPair(picked, background) else ColorPair(background, picked)
  }

  /** The invert flag swaps exactly the pair chosen without it. */
  lemma InvertSwaps(bytes: seq<int>, palette: seq<Color>, background: Color)
    requires |bytes| > 0 && |palette| > 0
    ensures var plain := SelectColors(bytes, palette, background, false);
            SelectColors(bytes, palette, background, true) == ColorPair(plain.foreground, plain.background)
  {
  }

  /** A first byte of 0, or of the palette length, selects the first palette entry. */
  lemma ColorWraps(bytes: seq<int>, palette: seq<Color>, background: Color)
    requires |bytes| > 0 && |palette| > 0
    requires bytes[0] == 0 || bytes[0] == |palette|
    ensures SelectColors(bytes, palette, background, false).foreground == palette[0]
  {
  }

  /** Only the first byte takes part in colour selection. */
  lemma ColorsFromFirstByte(bytes: seq<int>, other: seq<int>, palette: seq<Color>, background: Color, invert: bool)
    requires |bytes| > 0 && |other| > 0 && bytes[0] == other[0] && |palette| > 0
    ensures SelectColors(bytes, palette, background, invert) == SelectColors(other, palette, background, invert)
  {
  }
}
