/**
 * How the pixel generator reads its input: the incoming string (normally a
 * hexadecimal digest) is cut into two-character chunks, each chunk is parsed
 * as a base-16 integer, and single bits are read from the resulting byte list
 * most-significant bit first.
 */
module PixelBits {
  import opened Wrappers
  import opened Errors
  import opened Arithmetic

  predicate IsHexDigit(c: char) {
    '0' <= c <= '9' || 'a' <= c <= 'f' || 'A' <= c <= 'F'
  }

  /** The value of one hexadecimal digit, in either case. */
  function HexDigitValue(c: char): (v: Option<int>)
    ensures v.Some? <==> IsHexDigit(c)
    ensures v.Some? ==> 0 <= v.value < 16
  {
    if '0' <= c <= '9' then Some(c as int - '0' as int)
    else if 'a' <= c <= 'f' then Some(c as int - 'a' as int + 10)
    else if 'A' <= c <= 'F' then Some(c as int - 'A' as int + 10)
    else None
  }

  /** The lower-case digit a hex digest uses for a value below 16. */
  function HexChar(v: int): (c: char)
    requires 0 <= v < 16
    ensures IsHexDigit(c) && HexDigitValue(c) == Some(v)
  {
    if v < 10 then ('0' as int + v) as char else ('a' as int + v - 10) as char
  }

  /**
   * The characters `int()` strips next to a single hex digit: the ASCII
   * whitespace, and the non-ASCII white space (a chunk holding one of those
   * is non-ASCII, so it is normalised to a space first). The separators
   * U+001C..U+001F are not among them: a chunk pairing one with a digit is
   * pure ASCII and is stripped of ASCII whitespace only.
   */
  predicate IsPySpace(c: char) {
    var n := c as int;
    n == 0x20 || 0x09 <= n <= 0x0D || n == 0x85 || n == 0xA0
    || n == 0x1680 || 0x2000 <= n <= 0x200A || n == 0x2028 || n == 0x2029
    || n == 0x202F || n == 0x205F || n == 0x3000
  }

  /**
   * `int(a + b, 16)` for a two-character string: two digits give a byte; one
   * digit with surrounding whitespace, or after a sign, gives that digit
   * (negated after '-'); anything else raises ValueError.
   */
  function ParseChunk(a: char, b: char): (r: Result<int, Error>)
    ensures r.Success? ==> -15 <= r.value <= 255
    ensures r.Failure? ==> r.error == ValueError(InvalidHexLiteral)
    ensures IsHexDigit(a) && IsHexDigit(b) ==>
              r == Success(16 * HexDigitValue(a).value + HexDigitValue(b).value)
    ensures !IsHexDigit(a) && !IsHexDigit(b) ==> r.Failure?
  {
    match (HexDigitValue(a), HexDigitValue(b))
    case (Some(hi), Some(lo)) => Success(16 * hi + lo)
    case (None, Some(lo)) =>
      if IsPySpace(a) || a == '+' then Success(lo)
      else if a == '-' then Success(-lo)
      else Failure(ValueError(InvalidHexLiteral))
    case (Some(hi), None) =>
      if IsPySpace(b) then Success(hi) else Failure(ValueError(InvalidHexLiteral))
    case (None, None) => Failure(ValueError(InvalidHexLiteral))
  }

  /** A digit next to an ASCII information separator is not a hex literal, next to a tab it is. */
  lemma SeparatorIsNotWhitespace()
    ensures ParseChunk('\U{1C}', '5') == Failure(ValueError(InvalidHexLiteral))
    ensures ParseChunk('5', '\U{1F}') == Failure(ValueError(InvalidHexLiteral))
    ensures ParseChunk('\t', '5') == Success(5) && ParseChunk('5', '\U{A0}') == Success(5)
  {
  }

  /** The parse of chunk `i` of `data`, characters 2i and 2i+1. */
  function Chunk(data: string, i: int): Result<int, Error>
    requires 0 <= i < |data| / 2
  {
    ParseChunk(data[2 * i], data[2 * i + 1])
  }

  /**
   * `_data_to_byte_list`: one value per complete chunk, in order; an odd
   * trailing character is ignored; the first chunk that does not parse
   * raises.
   */
  function DataToByteList(data: string): (r: Result<seq<int>, Error>)
    ensures r.Success? <==> forall i :: 0 <= i < |data| / 2 ==> Chunk(data, i).Success?
    ensures r.Success? ==> |r.value| == |data| / 2
    ensures r.Success? ==> forall i :: 0 <= i < |r.value| ==> Chunk(data, i) == Success(r.value[i])
    ensures r.Failure? ==> r.error == ValueError(InvalidHexLiteral)
    decreases |data|
  {
    if |data| < 2 then Success([])
    else
      match ParseChunk(data[0], data[1])
      case Failure(e) =>
        assert !Chunk(data, 0).Success?;
        Failure(e)
      case Success(b) =>
        var rest := DataToByteList(data[2..]);
        assert forall i :: 1 <= i < |data| / 2 ==> Chunk(data, i) == Chunk(data[2..], i - 1);
        assert forall i :: 0 <= i < |data[2..]| / 2 ==> Chunk(data[2..], i) == Chunk(data, i + 1);
        match rest
        case Failure(e) => Failure(e)
        case Success(tail) => Success([b] + tail)
  }

  predicate IsByte(v: int) { 0 <= v < 256 }

  predicate AllHex(s: string) { forall i :: 0 <= i < |s| ==> IsHexDigit(s[i]) }

  /** A string of hexadecimal digits always parses, into values that are bytes. */
  lemma HexStringParses(data: string)
    requires AllHex(data)
    ensures DataToByteList(data).Success?
    ensures forall i :: 0 <= i < |DataToByteList(data).value| ==> IsByte(DataToByteList(data).value[i])
    ensures forall i :: 0 <= i < |data| / 2 ==>
              DataToByteList(data).value[i] == 16 * HexDigitValue(data[2 * i]).value + HexDigitValue(data[2 * i + 1]).value
  {
  }

  /** The two lower-case hex digits of a byte. */
  function HexByte(b: int): (s: string)
    requires IsByte(b)
    ensures |s| == 2 && AllHex(s)
  {
    [HexChar(b / 16), HexChar(b % 16)]
  }

  /** The hex digest text of a byte list (what `hexdigest()` produces). */
  function HexEncode(bytes: seq<int>): (s: string)
    requires forall i :: 0 <= i < |bytes| ==> IsByte(bytes[i])
    ensures |s| == 2 * |bytes| && AllHex(s)
  {
    if bytes == [] then [] else HexByte(bytes[0]) + HexEncode(bytes[1..])
  }

  /** Parsing a hex digest gives back exactly the bytes it encodes. */
  lemma {:induction false} HexRoundTrip(bytes: seq<int>)
    requires forall i :: 0 <= i < |bytes| ==> IsByte(bytes[i])
    ensures DataToByteList(HexEncode(bytes)) == Success(bytes)
  {
    if bytes != [] {
      var s := HexEncode(bytes);
      var b := bytes[0];
      HexRoundTrip(bytes[1..]);
      assert s[0] == HexChar(b / 16) && s[1] == HexChar(b % 16);
      assert s[2..] == HexEncode(bytes[1..]);
      assert ParseChunk(s[0], s[1]) == Success(16 * (b / 16) + b % 16) == Success(b);
      assert [b] + bytes[1..] == bytes;
    }
  }

  function Pow2(k: nat): (p: nat)
    ensures p >= 1
  {
    if k == 0 then 1 else 2 * Pow2(k - 1)
  }

  /**
   * `_get_bit(n, data)`: bit `n % 8` of byte `n // 8`, counting from the most
   * significant end. Python's `>>` on an int is division by a power of two
   * rounded down, and `& 1` is the remainder modulo 2, for negative values too.
   */
  function GetBit(n: nat, bytes: seq<int>): bool
    requires n / 8 < |bytes|
  {
    (bytes[n / 8] / Pow2(8 - (n % 8 + 1))) % 2 == 1
  }

  /**
   * Independently of shifting: bit `n` is set exactly when byte `n // 8`,
   * reduced modulo 2^(8 - n % 8), keeps at least 2^(7 - n % 8), i.e. when
   * the place value of that bit is present in the byte.
   */
  lemma GetBitResidue(n: nat, bytes: seq<int>)
    requires n / 8 < |bytes|
    ensures GetBit(n, bytes) <==> bytes[n / 8] % Pow2(8 - n % 8) >= Pow2(7 - n % 8)
  {
    assert Pow2(8 - n % 8) == 2 * Pow2(7 - n % 8);
    ResidueBit(bytes[n / 8], Pow2(7 - n % 8));
  }

  /** Bit `x / p % 2` is set iff `x` modulo `2p` keeps the place value `p`. */
  lemma ResidueBit(x: int, p: int)
    requires 0 < p
    ensures (x / p) % 2 == 1 <==> x % (2 * p) >= p
  {
    var q, r := x / p, x % p;
    var m, t := q / 2, q % 2;
    assert x == q * p + r;
    assert q * p == m * (2 * p) + t * p by {
      assert q == 2 * m + t;
    }
    assert 0 <= t * p + r < 2 * p by {
      if t == 1 { assert t * p == p; } else { assert t * p == 0; }
    }
    DivModUnique(x, 2 * p, m, t * p + r);
  }


  /** The value of a bit string read most-significant bit first. */
  function MsbValue(bits: seq<bool>): (v: nat)
    ensures v < Pow2(|bits|)
  {
    if bits == [] then 0
    else 2 * MsbValue(bits[..|bits| - 1]) + (if bits[|bits| - 1] then 1 else 0)
  }

  /** The eight bits `_get_bit` reports for byte `k`, in index order. */
  function ByteBits(bytes: seq<int>, k: nat): (bits: seq<bool>)
    requires k < |bytes|
    ensures |bits| == 8
  {
    seq(8, j requires 0 <= j < 8 => GetBit(8 * k + j, bytes))
  }

  /** Halving after dividing by p is dividing by 2p. */
  lemma DivDouble(d: nat, p: nat)
    requires p > 0
    ensures d / (2 * p) == (d / p) / 2
  {
    var q, rem := d / p, d % p;
    assert d == q * p + rem;
    assert q == (q / 2) * 2 + q % 2;
    assert d == (q / 2) * (2 * p) + (p * (q % 2) + rem);
    DivModUnique(d, 2 * p, q / 2, p * (q % 2) + rem);
  }

  /** Reading the first j bits of d's binary digits, MSB first, gives d with the other bits shifted out. */
  lemma {:induction false} MsbPrefix(bits: seq<bool>, d: nat, j: nat)
    requires j <= |bits| && d < Pow2(|bits|)
    requires forall i :: 0 <= i < |bits| ==> bits[i] == ((d / Pow2(|bits| - 1 - i)) % 2 == 1)
    ensures MsbValue(bits[..j]) == d / Pow2(|bits| - j)
    decreases j
  {
    if j == 0 {
      assert bits[..0] == [];
      DivModUnique(d, Pow2(|bits|), 0, d);
    } else {
      var p := Pow2(|bits| - j);
      var q := d / p;
      MsbPrefix(bits, d, j - 1);
      assert Pow2(|bits| - (j - 1)) == 2 * p;
      DivDouble(d, p);
      assert MsbValue(bits[..j - 1]) == q / 2;
      assert bits[..j][..j - 1] == bits[..j - 1];
      assert bits[j - 1] == (q % 2 == 1);
      assert MsbValue(bits[..j]) == 2 * (q / 2) + (if bits[j - 1] then 1 else 0);
    }
  }

  /** Bits 8k..8k+7 read MSB-first reassemble byte k: the bit order is most-significant first. */
  lemma ByteBitsReassemble(bytes: seq<int>, k: nat)
    requires k < |bytes| && IsByte(bytes[k])
    ensures MsbValue(ByteBits(bytes, k)) == bytes[k]
  {
    var d := bytes[k];
    var bits := ByteBits(bytes, k);
    forall j | 0 <= j < 8 ensures bits[j] == ((d / Pow2(7 - j)) % 2 == 1) {
      assert (8 * k + j) / 8 == k && (8 * k + j) % 8 == j;
      assert bits[j] == GetBit(8 * k + j, bytes);
    }
    assert Pow2(8) == 256;
    MsbPrefix(bits, d, 8);
    assert bits[..8] == bits;
  }
}
