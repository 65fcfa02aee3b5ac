/** Percent-decoding of query strings, on bytes. */
module UrlDecoding {
  import opened Wrappers
  import opened LineProtocol

  const PERCENT: byte := 37
  const PLUS: byte := 43
  const SPACE: byte := 32

  function HexValue(c: byte): Option<int> {
    if 48 <= c <= 57 then Some(c as int - 48)
    else if 65 <= c <= 70 then Some(c as int - 55)
    else if 97 <= c <= 102 then Some(c as int - 87)
    else None
  }

  /** One decoded byte and how many bytes of input it takes. */
  function DecodeOne(s: seq<byte>): (r: (byte, nat))
    requires s != []
    ensures 1 <= r.1 <= |s|
  {
    if s[0] == PLUS then (SPACE, 1)
    else if s[0] == PERCENT && |s| > 2 && HexValue(s[1]).Some? && HexValue(s[2]).Some? then
      ((HexValue(s[1]).value * 16 + HexValue(s[2]).value) as byte, 3)
    else (s[0], 1)
  }

  function Decode(s: seq<byte>): seq<byte> {
    if s == [] then [] else [DecodeOne(s).0] + Decode(s[DecodeOne(s).1..])
  }

  method UrlDecode(s: seq<byte>) returns (out: seq<byte>)
    ensures out == Decode(s)
  {
    hide Decode, DecodeOne;
    NothingToDecode();
    out := [];
    var i := 0;
    while i < |s|
      invariant i <= |s| && out + Decode(s[i..]) == Decode(s)
    {
      var (b, n) := DecodeOne(s[i..]);
      DecodeStep(s[i..]);
      assert s[i..][n..] == s[i + n..];
      out := out + [b];
      i := i + n;
    }
    assert s[i..] == [] && out + [] == out;
  }

  // ----- the encoder of a browser -----

  predicate IsUnreserved(b: byte) {
    48 <= b <= 57 || 65 <= b <= 90 || 97 <= b <= 122
  }

  function HexDigit(n: int): (c: byte)
    requires 0 <= n < 16
    ensures HexValue(c) == Some(n)
  {
    if n < 10 then (n + 48) as byte else (n + 55) as byte
  }

  function EncodeOne(b: byte): seq<byte> {
    if IsUnreserved(b) then [b]
    else if b == SPACE then [PLUS]
    else [PERCENT, HexDigit(b as int / 16), HexDigit(b as int % 16)]
  }

  function Encode(bytes: seq<byte>): seq<byte> {
    if bytes == [] then [] else EncodeOne(bytes[0]) + Encode(bytes[1..])
  }

  /** Decoding undoes encoding, for all bytes. */
  lemma {:induction false} DecodeAfterEncode(bytes: seq<byte>)
    ensures Decode(Encode(bytes)) == bytes
  {
    if bytes != [] {
      var first, rest := EncodeOne(bytes[0]), Encode(bytes[1..]);
      var s := first + rest;
      DecodeAfterEncode(bytes[1..]);
      assert DecodeOne(s) == (bytes[0], |first|);
      assert s[|first|..] == rest;
    }
  }

  // ----- what decoding does with each character -----

  ghost predicate IsHex(c: byte, value: int) {
    var code := c as int;
    || (48 <= code <= 57 && value == code - 48)
    || (65 <= code <= 70 && value == code - 65 + 10)
    || (97 <= code <= 102 && value == code - 97 + 10)
  }

  lemma PlusIsSpace(rest: seq<byte>)
    ensures Decode([]) == [] && Decode([43] + rest) == [32] + Decode(rest)
  {
    assert ([43] + rest)[1..] == rest;
  }

  lemma OthersAreThemselves(c: byte, rest: seq<byte>)
    requires c as int != 43 && c as int != 37
    ensures Decode([c] + rest) == [c] + Decode(rest)
  {
    assert ([c] + rest)[1..] == rest;
  }

  /** A percent sign and two hexadecimal digits, in either case of letters, are one byte. */
  lemma EscapeIsByte(s: seq<byte>, high: int, low: int)
    requires |s| >= 3 && s[0] as int == 37 && IsHex(s[1], high) && IsHex(s[2], low)
    ensures 0 <= high * 16 + low < 256
    ensures Decode(s) == [(high * 16 + low) as byte] + Decode(s[3..])
  {
    hide Decode, HexValue, IsHex;
    HexDigits(s[1]);
    HexDigits(s[2]);
    DecodeStep(s);
    OneEscape(s, high, low);
  }

  lemma NothingToDecode()
    ensures Decode([]) == []
  {
  }

  lemma DecodeStep(s: seq<byte>)
    requires s != []
    ensures Decode(s) == [DecodeOne(s).0] + Decode(s[DecodeOne(s).1..])
  {
  }

  lemma OneEscape(s: seq<byte>, high: int, low: int)
    requires |s| >= 3 && s[0] as int == 37 && HexValue(s[1]) == Some(high) && HexValue(s[2]) == Some(low)
    ensures 0 <= high * 16 + low < 256 && DecodeOne(s) == ((high * 16 + low) as byte, 3)
  {
    HexDigits(s[1]);
    HexDigits(s[2]);
  }

  /** A percent sign without two such digits stands for itself. */
  lemma BrokenEscapeStays(s: seq<byte>)
    requires s != [] && s[0] as int == 37
    requires |s| < 3 || (forall h :: !IsHex(s[1], h)) || (forall h :: !IsHex(s[2], h))
    ensures Decode(s) == [37] + Decode(s[1..])
  {
    if |s| >= 3 {
      HexDigits(s[1]);
      HexDigits(s[2]);
    }
  }

  lemma HexDigits(c: byte)
    ensures HexValue(c).Some? ==> IsHex(c, HexValue(c).value) && 0 <= HexValue(c).value < 16
    ensures forall h :: IsHex(c, h) ==> HexValue(c) == Some(h)
  {
  }
}
