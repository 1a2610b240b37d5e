/** The bytes of a string, as UTF-8 (section 3 of RFC 3629). */
module Utf8 {

  import opened Octets
  import opened Wrappers

  /** A byte that continues a character: its lowest six bits. */
  function Low(n: nat): (b: byte)
    ensures b == 0x80 + n % 0x40
  {
    0x80 + n % 0x40
  }

  function EncodeChar(c: char): seq<byte> {
    var n := c as int;
    var n1 := n / 0x40;
    var n2 := n1 / 0x40;
    var n3 := n2 / 0x40;
    if n < 0x80 then [n]
    else if n < 0x800 then [0xC0 + n1, Low(n)]
    else if n < 0x1_0000 then [0xE0 + n2, Low(n1), Low(n)]
    else [0xF0 + n3, Low(n2), Low(n1), Low(n)]
  }

  function Encode(s: string): seq<byte> {
    if s == "" then [] else EncodeChar(s[0]) + Encode(s[1..])
  }

  /** How many bytes the character has that starts with this byte. */
  function Width(first: byte): nat {
    if first < 0x80 then 1 else if first < 0xE0 then 2 else if first < 0xF0 then 3 else 4
  }

  function Value(bytes: seq<byte>): int
    requires bytes != []
  {
    if |bytes| == 1 then bytes[0]
    else if |bytes| == 2 then (bytes[0] - 0xC0) * 0x40 + Bits(bytes[1])
    else if |bytes| == 3 then ((bytes[0] - 0xE0) * 0x40 + Bits(bytes[1])) * 0x40 + Bits(bytes[2])
    else (((bytes[0] - 0xF0) * 0x40 + Bits(bytes[1])) * 0x40 + Bits(bytes[2])) * 0x40 + Bits(bytes[3])
  }

  function Bits(b: byte): int {
    b - 0x80
  }

  predicate IsScalar(n: int) {
    0 <= n < 0xD800 || 0xE000 <= n < 0x11_0000
  }

  function Decode(bytes: seq<byte>): Option<string> {
    if bytes == [] then Some("")
    else
      var w := Width(bytes[0]);
      if |bytes| < w || !IsScalar(Value(bytes[..w])) then None
      else
        var rest := Decode(bytes[w..]);
        if rest.None? then None else Some([Value(bytes[..w]) as char] + rest.value)
  }

  lemma CharRoundTrip(c: char)
    ensures var b := EncodeChar(c);
            b != [] && |b| == Width(b[0]) && IsScalar(Value(b)) && Value(b) as char == c
  {
    var n := c as int;
    var n1 := n / 0x40;
    var n2 := n1 / 0x40;
    assert n == n1 * 0x40 + n % 0x40 && n1 == n2 * 0x40 + n1 % 0x40 && n2 == n2 / 0x40 * 0x40 + n2 % 0x40;
  }

  /** The table of section 3 of RFC 3629: how many bytes a character has, what they begin with, and whose
      bits they carry. */
  lemma Table(c: char)
    ensures var n, b := c as int, EncodeChar(c);
            && (n <= 0x7F ==> b == [n])
            && (0x80 <= n <= 0x7FF ==>
                  |b| == 2 && 0xC2 <= b[0] <= 0xDF && 0x80 <= b[1] <= 0xBF && n == (b[0] as int - 0xC0) * 64 + (b[1] as int - 0x80))
            && (0x800 <= n <= 0xFFFF ==>
                  |b| == 3 && 0xE0 <= b[0] <= 0xEF && 0x80 <= b[1] <= 0xBF && 0x80 <= b[2] <= 0xBF &&
                  n == (b[0] as int - 0xE0) * 4096 + (b[1] as int - 0x80) * 64 + (b[2] as int - 0x80))
            && (0x1_0000 <= n ==>
                  |b| == 4 && 0xF0 <= b[0] <= 0xF4 && 0x80 <= b[1] <= 0xBF && 0x80 <= b[2] <= 0xBF && 0x80 <= b[3] <= 0xBF &&
                  n == (b[0] as int - 0xF0) * 262144 + (b[1] as int - 0x80) * 4096 + (b[2] as int - 0x80) * 64 + (b[3] as int - 0x80))
  {
    var n := c as int;
    var n1 := n / 0x40;
    var n2 := n1 / 0x40;
    assert n == n1 * 0x40 + n % 0x40 && n1 == n2 * 0x40 + n1 % 0x40 && n2 == n2 / 0x40 * 0x40 + n2 % 0x40;
  }

  lemma {:induction false} RoundTrip(s: string)
    ensures Decode(Encode(s)) == Some(s)
  {
    hide EncodeChar, Value, Width;
    if s != "" {
      RoundTrip(s[1..]);
      CharRoundTrip(s[0]);
      var b := EncodeChar(s[0]);
      var all := b + Encode(s[1..]);
      assert all[0] == b[0] && all[..|b|] == b && all[|b|..] == Encode(s[1..]);
      assert [s[0]] + s[1..] == s;
    }
  }
}
