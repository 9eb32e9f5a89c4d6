/** The few pieces of java.lang the modelled code relies on: `Math.max`,
    decimal rendering of integers, upper-casing of a character, and the two
    byte decodings used for font name strings. */
module JavaText {

  /** The decimal digits of `n`, most significant first, as `Long.toString` writes them. */
  function NatToString(n: nat): (s: string)
    ensures |s| > 0
    ensures forall i :: 0 <= i < |s| ==> '0' <= s[i] <= '9'
  {
    if n < 10 then [Digit(n)] else NatToString(n / 10) + [Digit(n % 10)]
  }

  function Digit(d: nat): (c: char)
    requires d < 10
    ensures '0' <= c <= '9'
  {
    ['0', '1', '2', '3', '4', '5', '6', '7', '8', '9'][d]
  }

  /** Decimal rendering of a (possibly negative) integer, as string concatenation does in Java. */
  function IntToString(n: int): (s: string)
    ensures |s| > 0
  {
    if n < 0 then "-" + NatToString(-n) else NatToString(n)
  }

  /** `Math.max` on integers. */
  function Max(a: int, b: int): (r: int)
    ensures r >= a && r >= b
    ensures r == a || r == b
  {
    if a >= b then a else b
  }

  /** `Character.toUpperCase` restricted to the ASCII letters; every other character is left alone. */
  function ToUpperAscii(c: char): (u: char)
    ensures 'a' <= c <= 'z' ==> u as int == c as int - 32
    ensures !('a' <= c <= 'z') ==> u == c
  {
    if 'a' <= c <= 'z' then (c as int - 32) as char else c
  }

  /** ISO-8859-1: every byte is the character with that code. */
  function DecodeLatin1(b: seq<int>): (s: string)
    requires forall i :: 0 <= i < |b| ==> 0 <= b[i] < 256
    ensures |s| == |b|
    ensures forall i :: 0 <= i < |s| ==> s[i] as int == b[i]
  {
    if b == [] then [] else [b[0] as char] + DecodeLatin1(b[1..])
  }

  const Replacement: char := 0xFFFD as char

  /** UTF-16BE as Java's decoder reads it with malformed input replaced:
      big-endian 16-bit code units, no byte-order mark. A high surrogate
      followed by a low surrogate is one supplementary character; a high
      surrogate followed by any other unit is one U+FFFD for both units; a
      high surrogate with fewer than two bytes after it is one U+FFFD for the
      rest of the input; a lone low surrogate, the reversed mark U+FFFE and a
      trailing odd byte are each one U+FFFD. */
  function DecodeUtf16Be(b: seq<int>): (s: string)
    requires forall i :: 0 <= i < |b| ==> 0 <= b[i] < 256
    ensures |s| <= (|b| + 1) / 2
    decreases |b|
  {
    if |b| < 2 then (if |b| == 1 then [Replacement] else [])
    else
      var u := b[0] * 256 + b[1];
      if u == 0xFFFE then
        [Replacement] + DecodeUtf16Be(b[2..])
      else if 0xD800 <= u < 0xDC00 then
        if |b| < 4 then [Replacement]
        else
          var lo := b[2] * 256 + b[3];
          if 0xDC00 <= lo < 0xE000 then
            [(0x10000 + (u - 0xD800) * 0x400 + (lo - 0xDC00)) as char] + DecodeUtf16Be(b[4..])
          else
            [Replacement] + DecodeUtf16Be(b[4..])
      else if 0xDC00 <= u < 0xE000 then
        [Replacement] + DecodeUtf16Be(b[2..])
      else
        [u as char] + DecodeUtf16Be(b[2..])
  }

  /** Examples of the decoding: a plain unit, a surrogate pair, and the
      malformed sequences that each become a single U+FFFD. */
  lemma DecodeUtf16BeExamples()
    ensures DecodeUtf16Be([0x00, 0x41]) == "A"
    ensures DecodeUtf16Be([0xD8, 0x3D, 0xDE, 0x00]) == [0x1F600 as char]
    ensures DecodeUtf16Be([0xD8, 0x00, 0x00, 0x41]) == [Replacement]
    ensures DecodeUtf16Be([0xD8, 0x00, 0x41]) == [Replacement]
    ensures DecodeUtf16Be([0xFF, 0xFE]) == [Replacement]
    ensures DecodeUtf16Be([0xDC, 0x00, 0x00, 0x41]) == [Replacement, 'A']
  {
    assert DecodeUtf16Be([0x00, 0x41][2..]) == [];
    assert DecodeUtf16Be([0xD8, 0x3D, 0xDE, 0x00][4..]) == [];
    assert DecodeUtf16Be([0xD8, 0x00, 0x00, 0x41][4..]) == [];
    assert DecodeUtf16Be([0xFF, 0xFE][2..]) == [];
    assert [0xDC, 0x00, 0x00, 0x41][2..] == [0x00, 0x41];
    assert DecodeUtf16Be([0x00, 0x41]) == "A";
  }
}
