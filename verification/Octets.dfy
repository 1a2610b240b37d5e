/** Bytes and their hexadecimal text. */
module Octets {

  import opened Wrappers
  import Text

  type byte = x: int | 0 <= x < 256

  function HexDigit(n: nat): char
    requires n < 16
  {
    if n < 10 then (n + '0' as int) as char else (n - 10 + 'a' as int) as char
  }

  function EncodeHex(bytes: seq<byte>): string {
    if bytes == [] then "" else [HexDigit(bytes[0] / 16), HexDigit(bytes[0] % 16)] + EncodeHex(bytes[1..])
  }

  predicate IsHexDigit(c: char) {
    '0' <= c <= '9' || 'a' <= c <= 'f' || 'A' <= c <= 'F'
  }

  function DigitValue(c: char): (n: nat)
    requires IsHexDigit(c)
    ensures n < 16
  {
    if '0' <= c <= '9' then c as int - '0' as int
    else if 'a' <= c <= 'f' then c as int - 'a' as int + 10
    else c as int - 'A' as int + 10
  }

  /** All of the bytes, or none. */
  function DecodeHex(s: string): Option<seq<byte>> {
    if s == "" then Some([])
    else if |s| == 1 || !IsHexDigit(s[0]) || !IsHexDigit(s[1]) then None
    else
      var rest := DecodeHex(s[2..]);
      if rest.None? then None else Some([DigitValue(s[0]) * 16 + DigitValue(s[1])] + rest.value)
  }

  lemma {:induction false} HexRoundTrip(bytes: seq<byte>)
    ensures DecodeHex(EncodeHex(bytes)) == Some(bytes)
  {
    if bytes != [] {
      HexRoundTrip(bytes[1..]);
      var s := EncodeHex(bytes);
      assert s[2..] == EncodeHex(bytes[1..]);
      assert DigitValue(s[0]) * 16 + DigitValue(s[1]) == bytes[0];
      assert [bytes[0]] + bytes[1..] == bytes;
    }
  }

  lemma {:induction false} HexIsDigits(bytes: seq<byte>)
    ensures |EncodeHex(bytes)| == 2 * |bytes|
    ensures forall k :: 0 <= k < |EncodeHex(bytes)| ==> IsHexDigit(EncodeHex(bytes)[k])
  {
    if bytes != [] {
      HexIsDigits(bytes[1..]);
    }
  }

  /** A byte as two digits, the higher half first. */
  lemma HexOfByte(b: byte)
    ensures EncodeHex([b]) == ["0123456789abcdef"[b / 16], "0123456789abcdef"[b % 16]]
  {
    HexDigitIs(b / 16);
    HexDigitIs(b % 16);
    assert [b][1..] == [] && EncodeHex([]) == "";
  }

  lemma HexDigitIs(n: nat)
    requires n < 16
    ensures HexDigit(n) == "0123456789abcdef"[n]
  {}

  /** Byte after byte. */
  lemma {:induction false} EncodeAppend(a: seq<byte>, b: seq<byte>)
    ensures EncodeHex(a + b) == EncodeHex(a) + EncodeHex(b)
  {
    if a == [] {
      assert a + b == b;
    } else {
      assert (a + b)[1..] == a[1..] + b;
      EncodeAppend(a[1..], b);
    }
  }

  lemma DigitIs(c: char, n: nat)
    requires n < 16
    ensures Text.LowerChar(c) == HexDigit(n) <==> IsHexDigit(c) && DigitValue(c) == n
  {}

  /** What a text decodes to: the bytes whose hexadecimal text it is, in whatever case it is written. */
  lemma {:induction false} DecodesIff(s: string, bytes: seq<byte>)
    ensures DecodeHex(s) == Some(bytes) <==> Text.Lower(s) == EncodeHex(bytes)
    decreases |s|
  {
    HexIsDigits(bytes);
    if |s| >= 2 && bytes != [] {
      var hex, l := EncodeHex(bytes), Text.Lower(s);
      DecodesIff(s[2..], bytes[1..]);
      DigitIs(s[0], bytes[0] / 16);
      DigitIs(s[1], bytes[0] % 16);
      assert hex[2..] == EncodeHex(bytes[1..]) && Text.Lower(s[2..]) == l[2..];
      assert l == hex <==> l[0] == hex[0] && l[1] == hex[1] && l[2..] == hex[2..] by {
        assert l == [l[0], l[1]] + l[2..] && hex == [hex[0], hex[1]] + hex[2..];
      }
      assert bytes == [bytes[0]] + bytes[1..];
    }
  }
}
