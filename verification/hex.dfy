/**
 Lowercase Base16, as in section 8 of RFC 4648 with the lowercase alphabet
 "0123456789abcdef": every byte becomes two digits, high nibble first. This is
 what Go's `hex.EncodeToString` produces. Bytes stand for ASCII characters.
 */
module Hex {
  import opened Types

  /** True for the ASCII characters '0'..'9' and 'a'..'f'. */
  predicate IsDigit(c: byte) {
    (0x30 <= c <= 0x39) || (0x61 <= c <= 0x66)
  }

  /** The digit for a nibble. */
  function Digit(n: int): (c: byte)
    requires 0 <= n < 16
    ensures IsDigit(c)
    ensures n < 10 ==> c as int == 0x30 + n
    ensures 10 <= n ==> c as int == 0x61 + (n - 10)
  {
    if n < 10 then (0x30 + n) as byte else (0x61 + n - 10) as byte
  }

  /** The nibble a digit stands for; uppercase digits are not accepted. */
  function DigitValue(c: byte): (v: Option<int>)
    ensures v.Some? <==> IsDigit(c)
    ensures v.Some? ==> 0 <= v.value < 16 && Digit(v.value) == c
  {
    if 0x30 <= c <= 0x39 then Some(c as int - 0x30)
    else if 0x61 <= c <= 0x66 then Some(c as int - 0x61 + 10)
    else None
  }

  /** Splitting the byte made from two nibbles gives the nibbles back. */
  lemma NibblesOfByte(hi: int, lo: int)
    requires 0 <= hi < 16 && 0 <= lo < 16
    ensures ((hi * 16 + lo) as byte) as int / 16 == hi
    ensures ((hi * 16 + lo) as byte) as int % 16 == lo
  {
  }

  lemma DigitValueOfDigit(n: int)
    requires 0 <= n < 16
    ensures DigitValue(Digit(n)) == Some(n)
  {
  }

  /** Encodes bytes as lowercase hex, two digits per byte. */
  function Encode(b: seq<byte>): (s: seq<byte>)
    ensures |s| == 2 * |b|
    ensures forall i :: 0 <= i < |s| ==> IsDigit(s[i])
  {
    if |b| == 0 then []
    else [Digit(b[0] as int / 16), Digit(b[0] as int % 16)] + Encode(b[1..])
  }

  /** Decodes lowercase hex; None on an odd length or a non-digit. */
  function Decode(s: seq<byte>): (r: Option<seq<byte>>)
    ensures r.Some? ==> |s| == 2 * |r.value|
  {
    if |s| == 0 then Some([])
    else if |s| == 1 then None
    else
      match (DigitValue(s[0]), DigitValue(s[1]), Decode(s[2..]))
      case (Some(hi), Some(lo), Some(rest)) => Some([(hi * 16 + lo) as byte] + rest)
      case _ => None
  }

  /** Digits 2i and 2i+1 of the encoding are the high and low nibble of byte i. */
  lemma {:induction false} EncodeAt(b: seq<byte>, i: int)
    requires 0 <= i < |b|
    ensures Encode(b)[2 * i] == Digit(b[i] as int / 16)
    ensures Encode(b)[2 * i + 1] == Digit(b[i] as int % 16)
    decreases i
  {
    if i > 0 {
      EncodeAt(b[1..], i - 1);
      assert Encode(b)[2..] == Encode(b[1..]);
    }
  }

  /** Decoding undoes encoding. */
  lemma {:induction false} DecodeEncode(b: seq<byte>)
    ensures Decode(Encode(b)) == Some(b)
    decreases |b|
  {
    if |b| > 0 {
      var s := Encode(b);
      var hi, lo := b[0] as int / 16, b[0] as int % 16;
      assert s[2..] == Encode(b[1..]);
      DecodeEncode(b[1..]);
      DigitValueOfDigit(hi);
      DigitValueOfDigit(lo);
      assert (hi * 16 + lo) as byte == b[0];
      assert [b[0]] + b[1..] == b;
    }
  }

  /** Encoding undoes decoding: lowercase hex has exactly one reading. */
  lemma {:induction false} EncodeDecode(s: seq<byte>)
    requires Decode(s).Some?
    ensures Encode(Decode(s).value) == s
    decreases |s|
  {
    if |s| > 0 {
      var hi, lo := DigitValue(s[0]).value, DigitValue(s[1]).value;
      var rest := Decode(s[2..]).value;
      EncodeDecode(s[2..]);
      var x := (hi * 16 + lo) as byte;
      NibblesOfByte(hi, lo);
      assert ([x] + rest)[1..] == rest;
      assert s == [s[0], s[1]] + s[2..];
    }
  }
}
