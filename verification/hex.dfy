/** The per-byte lowercase hexadecimal rendering of a digest, as
    `Worker.calulateHash` builds it. */
module Hex {
  import opened Chars

  /** A Java `byte`: a signed 8-bit value. */
  type JByte = b: int | -128 <= b < 128

  /** `b & 0xff`: the unsigned reading of a signed byte. */
  function Unsigned(b: JByte): (u: int)
    ensures 0 <= u < 256
    ensures (u - b) % 256 == 0
  {
    if b < 0 then b + 256 else b
  }

  /** The byte whose unsigned reading is `u`; inverse of `Unsigned`. */
  function Signed(u: int): (b: JByte)
    requires 0 <= u < 256
    ensures Unsigned(b) == u
  {
    if u < 128 then u else u - 256
  }

  /** `Integer.toString(n, 16)` for a non-negative `n`: most significant
      digit first, lowercase, no leading zeros. */
  function ToStringRadix16(n: nat): (s: string)
    ensures 1 <= |s|
    ensures forall k :: 0 <= k < |s| ==> IsLowerHexDigit(s[k])
    decreases n
  {
    if n < 16 then [DigitChar(n)] else ToStringRadix16(n / 16) + [DigitChar(n % 16)]
  }

  /** The value of a string of lowercase hexadecimal digits, most
      significant first. */
  function HexValue(s: string): nat
    requires forall k :: 0 <= k < |s| ==> IsLowerHexDigit(s[k])
  {
    if |s| == 0 then 0 else HexValue(s[..|s| - 1]) * 16 + DigitValue(s[|s| - 1])
  }

  /** Reading back what `ToStringRadix16` wrote gives the number again. */
  lemma {:induction false} ToStringRadix16RoundTrip(n: nat)
    ensures HexValue(ToStringRadix16(n)) == n
    decreases n
  {
    var s := ToStringRadix16(n);
    if n < 16 {
      DigitValueOfDigitChar(n);
    } else {
      ToStringRadix16RoundTrip(n / 16);
      assert s[..|s| - 1] == ToStringRadix16(n / 16);
      DigitValueOfDigitChar(n % 16);
    }
  }

  /** A value in [0x100, 0x200) prints as exactly three digits, the first
      one being '1'. */
  lemma ThreeDigitRadix16(v: int)
    requires 256 <= v < 512
    ensures ToStringRadix16(v) == ['1', DigitChar((v - 256) / 16), DigitChar(v % 16)]
  {
    assert v / 16 / 16 == 1;
    assert (v / 16) % 16 == (v - 256) / 16;
    assert ToStringRadix16(v / 16) == [DigitChar(1), DigitChar((v / 16) % 16)];
  }

  /** One byte as `calulateHash` renders it:
      `Integer.toString((b & 0xff) + 0x100, 16).substring(1)`. The result is
      always two digits: the high and the low nibble of the byte. */
  function ByteToHex(b: JByte): (s: string)
    ensures |s| == 2
    ensures s[0] == DigitChar(Unsigned(b) / 16)
    ensures s[1] == DigitChar(Unsigned(b) % 16)
  {
    ThreeDigitRadix16(Unsigned(b) + 0x100);
    ToStringRadix16(Unsigned(b) + 0x100)[1..]
  }

  /** The concatenation of `ByteToHex` over all bytes, in order: the
      `StringBuffer` loop of `calulateHash`. */
  function HexEncode(bytes: seq<JByte>): (s: string)
    ensures |s| == 2 * |bytes|
    ensures forall i :: 0 <= i < |bytes| ==>
      s[2 * i] == DigitChar(Unsigned(bytes[i]) / 16) && s[2 * i + 1] == DigitChar(Unsigned(bytes[i]) % 16)
    ensures forall k :: 0 <= k < |s| ==> IsLowerHexDigit(s[k])
  {
    if |bytes| == 0 then []
    else
      var rest := HexEncode(bytes[1..]);
      var s := ByteToHex(bytes[0]) + rest;
      assert forall i :: 1 <= i < |bytes| ==> s[2 * i] == rest[2 * (i - 1)] && bytes[i] == bytes[1..][i - 1];
      s
  }

  /** Whether `s` is something `HexEncode` could have produced. */
  predicate IsHexText(s: string) {
    |s| % 2 == 0 && forall k :: 0 <= k < |s| ==> IsLowerHexDigit(s[k])
  }

  /** Reads two hexadecimal digits per byte. */
  function HexDecode(s: string): (bytes: seq<JByte>)
    requires IsHexText(s)
    ensures |bytes| * 2 == |s|
  {
    if |s| == 0 then []
    else [Signed(DigitValue(s[0]) * 16 + DigitValue(s[1]))] + HexDecode(s[2..])
  }

  /** Decoding undoes encoding. */
  lemma {:induction false} HexDecodeEncode(bytes: seq<JByte>)
    ensures IsHexText(HexEncode(bytes))
    ensures HexDecode(HexEncode(bytes)) == bytes
  {
    var s := HexEncode(bytes);
    if |bytes| > 0 {
      var b := bytes[0];
      DigitValueOfDigitChar(Unsigned(b) / 16);
      DigitValueOfDigitChar(Unsigned(b) % 16);
      assert s[2..] == HexEncode(bytes[1..]);
      HexDecodeEncode(bytes[1..]);
      assert Signed(DigitValue(s[0]) * 16 + DigitValue(s[1])) == b;
      assert bytes == [b] + bytes[1..];
    }
  }

  /** Encoding undoes decoding: every even-length lowercase hex text is the
      rendering of exactly one byte sequence. */
  lemma {:induction false} HexEncodeDecode(s: string)
    requires IsHexText(s)
    ensures HexEncode(HexDecode(s)) == s
  {
    if |s| > 0 {
      var hi := DigitValue(s[0]);
      var lo := DigitValue(s[1]);
      assert Unsigned(Signed(hi * 16 + lo)) == hi * 16 + lo;
      assert (hi * 16 + lo) / 16 == hi && (hi * 16 + lo) % 16 == lo;
      HexEncodeDecode(s[2..]);
      assert s == s[..2] + s[2..];
    }
  }

  /** Distinct digests render as distinct strings. */
  lemma HexEncodeInjective(a: seq<JByte>, b: seq<JByte>)
    requires HexEncode(a) == HexEncode(b)
    ensures a == b
  {
    HexDecodeEncode(a);
    HexDecodeEncode(b);
  }
}
