/** Which Kitty image ids a pane owns: a pool of nine, placed by a hash of the pane's identity. */
module ImageId {

  import opened Octets

  const PATCH_ID_COUNT := 8
  const STRIDE := 16
  const ORIGIN := 0x2000_0000
  const SLOTS := (0x7FFF_FFFF - ORIGIN - PATCH_ID_COUNT) / STRIDE

  const WORD := 0x1_0000_0000_0000_0000
  const FNV_OFFSET: u64 := 0xcbf2_9ce4_8422_2325
  const FNV_PRIME := 0x100_0000_01b3

  /** The multiplicative inverse of the prime modulo 2^64. */
  const FNV_INVERSE := 0xce965057aff6957b

  type u64 = x: int | 0 <= x < WORD

  function Power2(n: nat): nat {
    if n == 0 then 1 else 2 * Power2(n - 1)
  }

  /** Exclusive or of the lowest `n` bits of two numbers. */
  function Xor(a: nat, b: nat, n: nat): (r: nat)
    ensures r < Power2(n)
  {
    if n == 0 then 0 else 2 * Xor(a / 2, b / 2, n - 1) + (a + b) % 2
  }

  lemma Halves(half: nat, bit: nat)
    requires bit < 2
    ensures (2 * half + bit) / 2 == half && (2 * half + bit) % 2 == bit
  {}

  lemma BitTwice(a: nat, b: nat, x: nat)
    requires x % 2 == (a + b) % 2
    ensures (x + b) % 2 == a % 2
  {}

  lemma {:induction false} XorInvolution(a: nat, b: nat, n: nat)
    requires a < Power2(n)
    ensures Xor(Xor(a, b, n), b, n) == a
  {
    if n > 0 {
      XorInvolution(a / 2, b / 2, n - 1);
      var x := Xor(a, b, n);
      Halves(Xor(a / 2, b / 2, n - 1), (a + b) % 2);
      BitTwice(a, b, x);
      assert Xor(x, b, n) == 2 * Xor(x / 2, b / 2, n - 1) + (x + b) % 2;
    }
  }

  lemma HalvesSeparate(b: nat, c: nat)
    ensures b != c ==> b / 2 != c / 2 || b % 2 != c % 2
  {}

  lemma DoublesSeparate(x: int, i: int, y: int, j: int)
    requires 0 <= i < 2 && 0 <= j < 2
    ensures 2 * x + i == 2 * y + j <==> x == y && i == j
  {}

  lemma {:induction false} XorSeparates(a: nat, b: nat, c: nat, n: nat)
    requires b < Power2(n) && c < Power2(n) && b != c
    ensures Xor(a, b, n) != Xor(a, c, n)
  {
    if n > 0 {
      HalvesSeparate(b, c);
      if b / 2 != c / 2 {
        XorSeparates(a / 2, b / 2, c / 2, n - 1);
      } else {
        assert (a + b) % 2 != (a + c) % 2;
      }
      DoublesSeparate(Xor(a / 2, b / 2, n - 1), (a + b) % 2, Xor(a / 2, c / 2, n - 1), (a + c) % 2);
    }
  }

  lemma EightBits()
    ensures Power2(8) == 256
  {
    assert Power2(4) == 16;
    assert Power2(8) == 16 * Power2(4);
  }

  /** Exclusive or with a byte: it reaches the lowest eight bits only. */
  function XorByte(value: u64, b: byte): u64 {
    EightBits();
    var low := value % 256;
    assert value - low <= WORD - 256;
    value - low + Xor(low, b, 8)
  }

  /** A multiplication that wraps around. */
  function WrappingMul(value: u64, factor: nat): u64 {
    value * factor % WORD
  }

  /** One step of FNV-1a. */
  function Step(value: u64, b: byte): u64 {
    WrappingMul(XorByte(value, b), FNV_PRIME)
  }

  function HashFrom(value: u64, text: seq<byte>): u64
    decreases |text|
  {
    if text == [] then value else HashFrom(Step(value, text[0]), text[1..])
  }

  function Hash(text: seq<byte>): u64 {
    HashFrom(FNV_OFFSET, text)
  }

  method ComputeHash(text: seq<byte>) returns (value: u64)
    ensures value == Hash(text)
  {
    hide XorByte, WrappingMul;
    value := FNV_OFFSET;
    for k := 0 to |text|
      invariant HashFrom(value, text[k..]) == Hash(text)
    {
      assert text[k..][0] == text[k] && text[k..][1..] == text[k + 1..];
      value := XorByte(value, text[k]);
      value := WrappingMul(value, FNV_PRIME);
    }
  }

  lemma XorByteInvolution(value: u64, b: byte)
    ensures XorByte(XorByte(value, b), b) == value
  {
    hide Xor, Power2;
    EightBits();
    XorInvolution(value % 256, b, 8);
  }

  lemma MulInverse(value: u64)
    ensures WrappingMul(WrappingMul(value, FNV_PRIME), FNV_INVERSE) == value
    ensures WrappingMul(WrappingMul(value, FNV_INVERSE), FNV_PRIME) == value
  {
    MulBack(value, FNV_PRIME, FNV_INVERSE);
    MulBack(value, FNV_INVERSE, FNV_PRIME);
  }

  lemma ModOf(value: u64, k: int)
    ensures (value + k * WORD) % WORD == value
  {}

  /** What is left of a product once whole words are taken out, carried through a second product. */
  lemma CarryThrough(v: int, p: int, q: int, c: int, product: int, m: int, w: int)
    requires v * p == c * w + product && p * q == 1 + m * w
    ensures product * q == v + (v * m - c * q) * w
  {
    calc {
      product * q;
      (v * p - c * w) * q;
      v * p * q - c * w * q;
      { assert v * p * q == v * (p * q) && c * w * q == c * q * w; }
      v * (1 + m * w) - c * q * w;
      { assert v * (1 + m * w) == v + v * m * w; }
      v + v * m * w - c * q * w;
      { assert v * m * w - c * q * w == (v * m - c * q) * w; }
      v + (v * m - c * q) * w;
    }
  }

  lemma MulBack(value: u64, p: nat, q: nat)
    requires (p == FNV_PRIME && q == FNV_INVERSE) || (p == FNV_INVERSE && q == FNV_PRIME)
    ensures WrappingMul(WrappingMul(value, p), q) == value
  {
    // p * q is one more than a multiple of 2^64.
    var multiple := 0xce9650590f;
    assert FNV_PRIME * FNV_INVERSE == 1 + multiple * WORD;
    Carried(value, p, q, multiple);
  }

  lemma Carried(value: u64, p: nat, q: nat, multiple: int)
    requires p * q == 1 + multiple * WORD
    ensures WrappingMul(WrappingMul(value, p), q) == value
  {
    var carry := value * p / WORD;
    CarryThrough(value, p, q, carry, WrappingMul(value, p), multiple, WORD);
    ModOf(value, value * multiple - carry * q);
  }

  /** A step can be undone when the byte is known. */
  function Unstep(value: u64, b: byte): u64 {
    XorByte(WrappingMul(value, FNV_INVERSE), b)
  }

  /** For each byte the step is a bijection on the 64-bit states. */
  lemma StepBijective(value: u64, b: byte)
    ensures Unstep(Step(value, b), b) == value
    ensures Step(Unstep(value, b), b) == value
  {
    hide XorByte, WrappingMul;
    MulInverse(XorByte(value, b));
    MulInverse(value);
    XorByteInvolution(value, b);
    XorByteInvolution(WrappingMul(value, FNV_INVERSE), b);
  }

  lemma XorByteSeparates(value: u64, a: byte, b: byte)
    requires a != b
    ensures XorByte(value, a) != XorByte(value, b)
  {
    hide Xor, Power2;
    EightBits();
    XorSeparates(value % 256, a, b, 8);
  }

  /** From one state two different bytes lead to two different states. */
  lemma StepSeparates(value: u64, a: byte, b: byte)
    requires a != b
    ensures Step(value, a) != Step(value, b)
  {
    hide XorByte, WrappingMul;
    XorByteSeparates(value, a, b);
    MulInverse(XorByte(value, a));
    MulInverse(XorByte(value, b));
  }

  /** Two states never meet while the same bytes are hashed. */
  lemma {:induction false} HashKeepsApart(v: u64, w: u64, text: seq<byte>)
    requires v != w
    ensures HashFrom(v, text) != HashFrom(w, text)
    decreases |text|
  {
    hide Step, Unstep;
    if text != [] {
      StepBijective(v, text[0]);
      StepBijective(w, text[0]);
      HashKeepsApart(Step(v, text[0]), Step(w, text[0]), text[1..]);
    }
  }

  lemma {:induction false} HashConcat(value: u64, a: seq<byte>, b: seq<byte>)
    ensures HashFrom(value, a + b) == HashFrom(HashFrom(value, a), b)
    decreases |a|
  {
    hide Step;
    if a == [] {
      assert a + b == b;
    } else {
      assert (a + b)[1..] == a[1..] + b;
      HashConcat(Step(value, a[0]), a[1..], b);
    }
  }

  /** Two texts that differ in exactly one byte never hash alike. */
  lemma OneByteSeparates(prefix: seq<byte>, a: byte, b: byte, suffix: seq<byte>)
    requires a != b
    ensures Hash(prefix + [a] + suffix) != Hash(prefix + [b] + suffix)
  {
    var v := HashFrom(FNV_OFFSET, prefix);
    forall c: byte ensures Hash(prefix + [c] + suffix) == HashFrom(Step(v, c), suffix) {
      HashConcat(FNV_OFFSET, prefix, [c]);
      HashConcat(FNV_OFFSET, prefix + [c], suffix);
      assert [c][1..] == [];
    }
    StepSeparates(v, a, b);
    HashKeepsApart(Step(v, a), Step(v, b), suffix);
  }

  const SEPARATOR: byte := 1

  /** What tells a pane apart. Outside tmux there is no server, and the caller's pid (as decimal digits)
      takes its place. */
  function Identity(server: seq<byte>, pane: seq<byte>, fallback: seq<byte>): seq<byte> {
    if server == [] then pane + [SEPARATOR] + fallback else server + [SEPARATOR] + pane
  }

  /** The slot a pane's identity hashes to. */
  function Slot(server: seq<byte>, pane: seq<byte>, fallback: seq<byte>): (slot: int)
    ensures 0 <= slot < SLOTS
  {
    Hash(Identity(server, pane, fallback)) % SLOTS
  }

  lemma {:induction false} HeadAndTail(a: seq<byte>, b: seq<byte>, c: seq<byte>, d: seq<byte>)
    requires SEPARATOR !in a && SEPARATOR !in c && a + [SEPARATOR] + b == c + [SEPARATOR] + d
    ensures a == c && b == d
  {
    var s, t := a + [SEPARATOR] + b, c + [SEPARATOR] + d;
    assert s[0] == if a == [] then SEPARATOR else a[0];
    assert t[0] == if c == [] then SEPARATOR else c[0];
    if a == [] {
      assert s[1..] == b && t[1..] == d;
    } else {
      assert s[1..] == a[1..] + [SEPARATOR] + b && t[1..] == c[1..] + [SEPARATOR] + d;
      HeadAndTail(a[1..], b, c[1..], d);
      assert a == [a[0]] + a[1..] && c == [c[0]] + c[1..];
    }
  }

  /** Identities are alike only of one pane: inside tmux of one server and one name, outside of one name
      and one pid, as long as none of the leading parts holds the separator. */
  lemma IdentityTellsPanes(s: seq<byte>, p: seq<byte>, f: seq<byte>, t: seq<byte>, q: seq<byte>, g: seq<byte>)
    requires s != [] <==> t != []
    requires if s != [] then SEPARATOR !in s && SEPARATOR !in t else SEPARATOR !in p && SEPARATOR !in q
    ensures Identity(s, p, f) == Identity(t, q, g) <==> if s != [] then s == t && p == q else p == q && f == g
  {
    if Identity(s, p, f) == Identity(t, q, g) {
      if s != [] {
        HeadAndTail(s, p, t, q);
      } else {
        HeadAndTail(p, f, q, g);
      }
    }
  }

  // Panes that are told apart.

  /** The inverse of the prime modulo the number of slots, and what it makes of a whole word. */
  const SLOT_INVERSE := 64874396
  const WORD_IN_SLOTS := 44558371

  lemma SlotConstants()
    ensures FNV_PRIME * SLOT_INVERSE == 1 + 708601410029 * SLOTS
    ensures WORD * SLOT_INVERSE == WORD_IN_SLOTS + 11888358909257705507 * SLOTS
    ensures 256 < WORD_IN_SLOTS < SLOTS
  {}

  /** Multiplied out, with the inverse taken to both sides. */
  lemma Divided(d: int, k: int, e: int, p: int, u: int, m: int, slots: int, w: int, r: int, n: int)
    requires d * p == k * slots + e * w && p * u == 1 + m * slots && w * u == r + n * slots
    ensures d - e * r == (k * u + e * n - d * m) * slots
  {
    calc {
      d + d * m * slots;
      { assert d * (1 + m * slots) == d + d * m * slots; }
      d * (p * u);
      { assert d * (p * u) == d * p * u; }
      (k * slots + e * w) * u;
      { assert (k * slots + e * w) * u == k * slots * u + e * w * u; assert e * w * u == e * (w * u); }
      k * slots * u + e * (r + n * slots);
      { assert e * (r + n * slots) == e * r + e * n * slots; assert k * slots * u == k * u * slots; }
      k * u * slots + e * r + e * n * slots;
    }
    assert (k * u + e * n - d * m) * slots == k * u * slots + e * n * slots - d * m * slots;
  }

  lemma NoMultipleBetween(x: int, k: int, slots: int)
    requires -slots < x < slots && x != 0
    ensures x != k * slots
  {
    if k >= 1 {
      assert (k - 1) * slots >= 0;
    } else if k <= -1 {
      assert (-k - 1) * slots >= 0;
    }
  }

  /** A small multiple of the prime is no whole number of slots, nor is it once it wraps around. */
  lemma SmallMultiples(d: int, k: int, e: int)
    requires 0 < d < 256 && (e == 0 || e == 1)
    ensures d * FNV_PRIME != k * SLOTS + e * WORD
  {
    SlotConstants();
    var multiple := k * SLOT_INVERSE + e * 11888358909257705507 - d * 708601410029;
    NoMultipleBetween(d - e * WORD_IN_SLOTS, multiple, SLOTS);
    if d * FNV_PRIME == k * SLOTS + e * WORD {
      Divided(d, k, e, FNV_PRIME, SLOT_INVERSE, 708601410029, SLOTS, WORD, WORD_IN_SLOTS, 11888358909257705507);
    }
  }

  /** Two states less than a byte apart are multiplied into different slots. */
  lemma NearStatesApart(x: u64, y: u64)
    requires x < y < x + 256
    ensures WrappingMul(x, FNV_PRIME) % SLOTS != WrappingMul(y, FNV_PRIME) % SLOTS
  {
    var d := y - x;
    var cx, cy := x * FNV_PRIME / WORD, y * FNV_PRIME / WORD;
    var hx, hy := WrappingMul(x, FNV_PRIME), WrappingMul(y, FNV_PRIME);
    assert hx == x * FNV_PRIME - cx * WORD && hy == y * FNV_PRIME - cy * WORD;
    assert hy - hx == d * FNV_PRIME - (cy - cx) * WORD;
    assert 0 < d * FNV_PRIME < WORD;
    Wraps(cy - cx, d * FNV_PRIME, hy - hx);
    var k := hy / SLOTS - hx / SLOTS;
    SmallMultiples(d, k, cy - cx);
    assert hy - hx == k * SLOTS + (hy % SLOTS - hx % SLOTS);
  }

  lemma Wraps(e: int, product: int, difference: int)
    requires 0 < product < WORD && -WORD < difference < WORD && difference == product - e * WORD
    ensures e == 0 || e == 1
  {}

  /** A step with two different bytes leads into different slots. */
  lemma StepsApart(value: u64, a: byte, b: byte)
    requires a != b
    ensures Step(value, a) % SLOTS != Step(value, b) % SLOTS
  {
    hide Xor, Power2;
    EightBits();
    XorByteSeparates(value, a, b);
    var x, y := XorByte(value, a), XorByte(value, b);
    assert x < y + 256 && y < x + 256;
    hide XorByte, WrappingMul;
    if x < y {
      NearStatesApart(x, y);
    } else {
      NearStatesApart(y, x);
    }
  }

  lemma LastByteApart(text: seq<byte>, a: byte, b: byte)
    requires a != b
    ensures Hash(text + [a]) % SLOTS != Hash(text + [b]) % SLOTS
  {
    hide Step;
    HashConcat(FNV_OFFSET, text, [a]);
    HashConcat(FNV_OFFSET, text, [b]);
    assert [a][1..] == [] && [b][1..] == [];
    StepsApart(HashFrom(FNV_OFFSET, text), a, b);
  }

  function Base(slot: int): int {
    ORIGIN + slot * STRIDE
  }

  function BaseFor(server: seq<byte>, pane: seq<byte>, fallback: seq<byte>): int {
    Base(Slot(server, pane, fallback))
  }

  /** The ids a pane owns, base first. */
  function OwnedIds(base: int): seq<int> {
    seq(PATCH_ID_COUNT + 1, offset => base + offset)
  }

  /** Every id of every pane's pool fits a signed 32-bit integer and is beyond any pid. */
  lemma PoolInRange(server: seq<byte>, pane: seq<byte>, fallback: seq<byte>, id: int)
    requires id in OwnedIds(BaseFor(server, pane, fallback))
    ensures ORIGIN <= id <= 0x7FFF_FFFF
  {
    hide Slot;
    OwnedRange(BaseFor(server, pane, fallback), id);
  }

  lemma OwnedRange(base: int, id: int)
    ensures id in OwnedIds(base) <==> base <= id <= base + PATCH_ID_COUNT
  {
    if base <= id <= base + PATCH_ID_COUNT {
      assert OwnedIds(base)[id - base] == id;
    }
  }

  /** The pools of two slots are the same or share no id. */
  lemma PoolsApart(i: int, j: int)
    ensures i == j <==> exists id :: id in OwnedIds(Base(i)) && id in OwnedIds(Base(j))
  {
    hide OwnedIds;
    var a, b := Base(i), Base(j);
    OwnedRange(a, a);
    if i != j {
      forall id | id in OwnedIds(a) ensures id !in OwnedIds(b) {
        OwnedRange(a, id);
        OwnedRange(b, id);
      }
    }
  }

  /** Two panes share an id exactly when their identities hash to one slot, and then they share the
      whole pool. Inside tmux a frontend that relaunches, whatever its pid, does. */
  lemma PoolsSharedIff(s: seq<byte>, p: seq<byte>, f: seq<byte>, t: seq<byte>, q: seq<byte>, g: seq<byte>)
    ensures (exists id :: id in OwnedIds(BaseFor(s, p, f)) && id in OwnedIds(BaseFor(t, q, g))) <==>
            Slot(s, p, f) == Slot(t, q, g)
    ensures Slot(s, p, f) == Slot(t, q, g) <==> OwnedIds(BaseFor(s, p, f)) == OwnedIds(BaseFor(t, q, g))
    ensures s != [] && t == s && q == p ==> OwnedIds(BaseFor(s, p, f)) == OwnedIds(BaseFor(t, q, g))
  {
    hide OwnedIds;
    var a, b := BaseFor(s, p, f), BaseFor(t, q, g);
    PoolsApart(Slot(s, p, f), Slot(t, q, g));
    OwnedRange(a, a);
  }

  /** Panes whose names are alike but for the last byte never share an id, on any server; nor do two
      processes outside tmux whose pids are. */
  lemma AlikeButLastApart(server: seq<byte>, prefix: seq<byte>, a: byte, b: byte, other: seq<byte>)
    requires a != b
    ensures server != [] ==> forall id ::
              !(id in OwnedIds(BaseFor(server, prefix + [a], other)) && id in OwnedIds(BaseFor(server, prefix + [b], other)))
    ensures forall id ::
              !(id in OwnedIds(BaseFor([], other, prefix + [a])) && id in OwnedIds(BaseFor([], other, prefix + [b])))
  {
    hide OwnedIds, Hash;
    if server != [] {
      LastByteApart(server + [SEPARATOR] + prefix, a, b);
      assert server + [SEPARATOR] + (prefix + [a]) == server + [SEPARATOR] + prefix + [a];
      assert server + [SEPARATOR] + (prefix + [b]) == server + [SEPARATOR] + prefix + [b];
      PoolsSharedIff(server, prefix + [a], other, server, prefix + [b], other);
    }
    LastByteApart(other + [SEPARATOR] + prefix, a, b);
    assert other + [SEPARATOR] + (prefix + [a]) == other + [SEPARATOR] + prefix + [a];
    assert other + [SEPARATOR] + (prefix + [b]) == other + [SEPARATOR] + prefix + [b];
    PoolsSharedIff([], other, prefix + [a], [], other, prefix + [b]);
  }
}
