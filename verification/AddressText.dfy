/**
 Device addresses as text: two characters a byte, the byte with the prefix first. Reading is as lenient as the C
 library: it skips white space, takes a sign, and stops at the first character that is no digit.
 */
module AddressText {
  import opened Basics
  import opened Uint32

  // Text of at least eight characters; the rest of longer text is ignored.
  type AddrText = s: string | |s| >= 8 witness "00000000"

  function HexDigit(c: char): Option<bv8> {
    match c
    case '0' => Some(0) case '1' => Some(1) case '2' => Some(2) case '3' => Some(3)
    case '4' => Some(4) case '5' => Some(5) case '6' => Some(6) case '7' => Some(7)
    case '8' => Some(8) case '9' => Some(9)
    case 'a' => Some(10) case 'b' => Some(11) case 'c' => Some(12)
    case 'd' => Some(13) case 'e' => Some(14) case 'f' => Some(15)
    case 'A' => Some(10) case 'B' => Some(11) case 'C' => Some(12)
    case 'D' => Some(13) case 'E' => Some(14) case 'F' => Some(15)
    case _ => None
  }

  predicate IsSpace(c: char) {
    c == ' ' || '\t' <= c <= '\r'
  }

  // A digit on its own, 0 for anything else.
  function OneDigit(c: char): bv8 {
    match HexDigit(c)
    case Some(d) => d
    case None => 0
  }

  // strtol(c, NULL, 16) of two characters, as an unsigned char.
  function HexByte(high: char, low: char): bv8 {
    match HexDigit(high)
    case Some(h) =>
      (match HexDigit(low)
       case Some(l) => (h << 4) | l
       case None => h)
    case None =>
      if IsSpace(high) || high == '+' then OneDigit(low)
      else if high == '-' then 0 - OneDigit(low)
      else 0
  }

  function Word(b3: bv8, b2: bv8, b1: bv8, b0: bv8): uint32 {
    ((b3 as uint32) << 24) | ((b2 as uint32) << 16) | ((b1 as uint32) << 8) | (b0 as uint32)
  }

  function AddressOf(text: AddrText): uint32 {
    Word(HexByte(text[0], text[1]), HexByte(text[2], text[3]), HexByte(text[4], text[5]), HexByte(text[6], text[7]))
  }

  function HexChar(n: bv8): char {
    match n
    case 0 => '0' case 1 => '1' case 2 => '2' case 3 => '3'
    case 4 => '4' case 5 => '5' case 6 => '6' case 7 => '7'
    case 8 => '8' case 9 => '9' case 10 => 'a' case 11 => 'b'
    case 12 => 'c' case 13 => 'd' case 14 => 'e' case _ => 'f'
  }

  function ByteText(b: bv8): string {
    [HexChar(b >> 4), HexChar(b & 0xf)]
  }

  function TextOf(w: uint32): (text: AddrText)
    ensures |text| == 8
  {
    ByteText(Byte3(w)) + ByteText(Byte2(w)) + ByteText(Byte1(w)) + ByteText(Byte0(w))
  }

  lemma DigitRoundTrip(n: bv8)
    requires n < 16
    ensures HexDigit(HexChar(n)) == Some(n)
  {
  }

  lemma Nibbles(b: bv8)
    ensures b >> 4 < 16 && b & 0xf < 16 && ((b >> 4) << 4) | (b & 0xf) == b
  {
  }

  lemma ByteRoundTrip(b: bv8)
    ensures HexByte(HexChar(b >> 4), HexChar(b & 0xf)) == b
  {
    hide HexDigit, HexChar;
    Nibbles(b);
    DigitRoundTrip(b >> 4);
    DigitRoundTrip(b & 0xf);
  }

  lemma WordOfItsBytes(w: uint32)
    ensures Word(Byte3(w), Byte2(w), Byte1(w), Byte0(w)) == w
  {
  }

  // An address that was printed is read back, as saving and loading the identities does.
  lemma PrintThenRead(w: uint32)
    ensures AddressOf(TextOf(w)) == w
  {
    hide HexByte, HexChar, Word, Byte0, Byte1, Byte2, Byte3;
    ByteRoundTrip(Byte3(w));
    ByteRoundTrip(Byte2(w));
    ByteRoundTrip(Byte1(w));
    ByteRoundTrip(Byte0(w));
    WordOfItsBytes(w);
  }

  // So different addresses have different texts.
  lemma TextIsInjective(v: uint32, w: uint32)
    ensures TextOf(v) == TextOf(w) <==> v == w
  {
    hide TextOf, AddressOf;
    PrintThenRead(v);
    PrintThenRead(w);
  }

  // The same digit in either case.
  function Upper(c: char): char {
    match c
    case 'a' => 'A' case 'b' => 'B' case 'c' => 'C'
    case 'd' => 'D' case 'e' => 'E' case 'f' => 'F'
    case _ => c
  }

  lemma DigitInEitherCase(n: bv8)
    requires n < 16
    ensures HexDigit(Upper(HexChar(n))) == Some(n)
  {
  }

  predicate SameText(text: AddrText, printed: AddrText) {
    |printed| == 8 && forall i :: 0 <= i < 8 ==> text[i] == printed[i] || text[i] == Upper(printed[i])
  }

  lemma ByteInEitherCase(b: bv8, high: char, low: char)
    requires high == HexChar(b >> 4) || high == Upper(HexChar(b >> 4))
    requires low == HexChar(b & 0xf) || low == Upper(HexChar(b & 0xf))
    ensures HexByte(high, low) == b
  {
    hide HexDigit, HexChar, Upper;
    Nibbles(b);
    DigitRoundTrip(b >> 4);
    DigitRoundTrip(b & 0xf);
    DigitInEitherCase(b >> 4);
    DigitInEitherCase(b & 0xf);
  }

  // Printed text is read back in upper, lower and mixed case, and whatever follows it.
  lemma ReadInEitherCase(w: uint32, text: AddrText)
    requires SameText(text, TextOf(w))
    ensures AddressOf(text) == w
  {
    hide HexByte, HexChar, Upper, Word, Byte0, Byte1, Byte2, Byte3;
    var t := TextOf(w);
    assert t[0] == HexChar(Byte3(w) >> 4) && t[1] == HexChar(Byte3(w) & 0xf);
    assert t[2] == HexChar(Byte2(w) >> 4) && t[3] == HexChar(Byte2(w) & 0xf);
    assert t[4] == HexChar(Byte1(w) >> 4) && t[5] == HexChar(Byte1(w) & 0xf);
    assert t[6] == HexChar(Byte0(w) >> 4) && t[7] == HexChar(Byte0(w) & 0xf);
    ByteInEitherCase(Byte3(w), text[0], text[1]);
    ByteInEitherCase(Byte2(w), text[2], text[3]);
    ByteInEitherCase(Byte1(w), text[4], text[5]);
    ByteInEitherCase(Byte0(w), text[6], text[7]);
    WordOfItsBytes(w);
  }
}
