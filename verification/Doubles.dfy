/** A 64-bit integer as a double, and back: the nearest multiple of the spacing doubles have there. */
module Doubles {

  const EXACT := 0x20_0000_0000_0000

  const I64_MIN := -0x8000_0000_0000_0000
  const I64_MAX := 0x7fff_ffff_ffff_ffff

  /** The distance between neighbouring doubles around a whole number: 53 digits are kept. */
  function Spacing(n: nat): (u: nat)
    ensures u > 0 && n < EXACT * u
    ensures n < EXACT ==> u == 1
  {
    if n < EXACT then 1 else 2 * Spacing(n / 2)
  }

  /** The nearest multiple, and of two the even one. */
  function Nearest(n: nat, u: nat): int
    requires u > 0
  {
    var q, r := n / u, n % u;
    if 2 * r < u || (2 * r == u && q % 2 == 0) then q * u else (q + 1) * u
  }

  /** `as f64`. */
  function ToDouble(n: int): int {
    if n >= 0 then Nearest(n, Spacing(n)) else -Nearest(-n, Spacing(-n))
  }

  /** `as i64`: towards zero, and stopping at the ends of the type. */
  function ToI64(x: real): int {
    var n := if x >= 0.0 then x.Floor else -(-x).Floor;
    if n < I64_MIN then I64_MIN else if n > I64_MAX then I64_MAX else n
  }

  /** Nothing of the number lies below what a double keeps, or it is the largest. */
  predicate KeepsDigits(n: int) {
    var m := if n >= 0 then n else -n;
    m % Spacing(m) == 0 || n == I64_MAX
  }

  lemma NearestIs(n: nat, u: nat)
    requires u > 0
    ensures Nearest(n, u) == n <==> n % u == 0
  {
    var q, r := n / u, n % u;
    assert n == q * u + r;
    assert (q + 1) * u == q * u + u;
  }

  /** No multiple is nearer, and of two as near the even one is taken. */
  lemma NearestIsNearest(n: nat, u: nat, k: nat)
    requires u > 0
    ensures Distance(n, Nearest(n, u)) <= Distance(n, k * u)
    ensures Distance(n, Nearest(n, u)) == Distance(n, k * u) && Nearest(n, u) != k * u ==> k % 2 == 1
  {
    hide Nearest, Distance;
    var q, r := NearestOf(n, u);
    MultipleFrom(q, u, k);
    NearerThan(n, q, r, u, k, q * u, k * u, Nearest(n, u));
  }

  lemma NearestOf(n: nat, u: nat) returns (q: nat, r: nat)
    requires u > 0
    ensures n == q * u + r && r < u
    ensures Nearest(n, u) == if 2 * r < u || (2 * r == u && q % 2 == 0) then q * u else q * u + u
  {
    q, r := n / u, n % u;
    assert (q + 1) * u == q * u + u;
  }

  lemma MultipleFrom(q: nat, u: nat, k: nat)
    ensures k < q ==> k * u <= q * u - u
    ensures k == q + 1 ==> k * u == q * u + u
    ensures k > q + 1 ==> k * u >= q * u + u + u
  {
    assert (q + 1) * u == q * u + u && (q + 2) * u == q * u + u + u;
    if k < q {
      Multiply(k, q - 1, u);
      assert (q - 1) * u == q * u - u;
    } else if k > q + 1 {
      Multiply(q + 2, k, u);
    }
  }

  /** Of a number between two marks the nearer, against any other mark. */
  lemma NearerThan(n: int, q: nat, r: int, u: int, k: nat, a: int, b: int, nearest: int)
    requires n == a + r && 0 <= r < u
    requires k < q ==> b <= a - u
    requires k == q ==> b == a
    requires k == q + 1 ==> b == a + u
    requires k > q + 1 ==> b >= a + u + u
    requires nearest == if 2 * r < u || (2 * r == u && q % 2 == 0) then a else a + u
    ensures Distance(n, nearest) <= Distance(n, b)
    ensures Distance(n, nearest) == Distance(n, b) && nearest != b ==> k % 2 == 1
  {}

  function Distance(a: int, b: int): nat {
    if a < b then b - a else a - b
  }

  /** The ends of the type: one is a power of two, the other is rounded up to one. */
  lemma TheEnds()
    ensures -I64_MIN % Spacing(-I64_MIN) == 0
    ensures ToDouble(I64_MAX) == -I64_MIN
  {
    assert Power2(10) == 1024 by {
      assert Power2(5) == 32;
    }
    SpacingOf(EXACT - 1, 1023, 10);
    SpacingOf(EXACT / 2, 0, 11);
  }

  lemma {:induction false} SpacingOf(m: nat, r: nat, k: nat)
    requires EXACT / 2 <= m < EXACT && r < Power2(k)
    ensures Spacing(m * Power2(k) + r) == Power2(k)
  {
    hide Spacing;
    var p := Power2(k);
    Multiply(EXACT / 2, m, p);
    if k == 0 {
      SpacingStep(m);
    } else {
      var half := m * Power2(k - 1) + r / 2;
      Twice(m, Power2(k - 1));
      assert m * p + r == 2 * half + r % 2;
      SpacingStep(m * p + r);
      SpacingOf(m, r / 2, k - 1);
    }
  }

  lemma SpacingStep(n: nat)
    ensures n < EXACT ==> Spacing(n) == 1
    ensures n >= EXACT ==> Spacing(n) == 2 * Spacing(n / 2)
  {}

  lemma Twice(m: nat, p: nat)
    ensures m * (2 * p) == 2 * (m * p)
  {}

  lemma Multiply(a: nat, b: nat, u: nat)
    requires a <= b
    ensures a * u <= b * u
  {}

  function Power2(k: nat): (p: nat)
    ensures p > 0
  {
    if k == 0 then 1 else 2 * Power2(k - 1)
  }

  /** A 64-bit integer survives the way through a double exactly if it keeps its digits. */
  lemma ThroughDoubleIff(n: int)
    requires I64_MIN <= n <= I64_MAX
    ensures ToI64(ToDouble(n) as real) == n <==> KeepsDigits(n)
  {
    hide Spacing, Nearest;
    var m := if n >= 0 then n else -n;
    TheEnds();
    NearestIs(m, Spacing(m));
    TruncatedWhole(ToDouble(n));
  }

  lemma TruncatedWhole(n: int)
    ensures ToI64(n as real) == if n < I64_MIN then I64_MIN else if n > I64_MAX then I64_MAX else n
  {}

  lemma {:induction false} SpacingIsLeast(n: nat)
    requires n >= EXACT
    ensures Spacing(n) % 2 == 0 && EXACT / 2 * Spacing(n) <= n
  {
    if n / 2 >= EXACT {
      SpacingIsLeast(n / 2);
    }
  }

  lemma Cancel(a: int, b: int, u: nat)
    requires a * u < b * u
    ensures a < b
  {}

  lemma NearestAtLeast(n: nat, u: nat)
    requires u > 0
    ensures Nearest(n, u) >= n / u * u
  {
    var q := n / u;
    assert (q + 1) * u == q * u + u;
  }

  lemma QuotientAtLeast(n: nat, u: nat, c: nat)
    requires u > 0 && c * u <= n
    ensures n / u >= c
  {
    var q := n / u;
    assert n == q * u + n % u && (q + 1) * u == q * u + u;
    Cancel(c, q + 1, u);
  }

  lemma LargeStaysLarge(m: nat)
    requires m >= EXACT
    ensures Nearest(m, Spacing(m)) >= EXACT
  {
    hide Nearest, Spacing;
    SpacingIsLeast(m);
    var u := Spacing(m);
    QuotientAtLeast(m, u, EXACT / 2);
    Multiply(EXACT / 2, m / u, u);
    NearestAtLeast(m, u);
  }

  /** What is rounded to less than 2^53 was less, and lost nothing. */
  lemma SmallKeepsDigits(n: int)
    requires -EXACT < ToDouble(n) < EXACT
    ensures KeepsDigits(n)
  {
    var m := if n >= 0 then n else -n;
    if m >= EXACT {
      LargeStaysLarge(m);
    }
  }

  /** The first whole number that does not survive. */
  lemma FirstLost()
    ensures ToDouble(EXACT + 1) == EXACT && !KeepsDigits(EXACT + 1)
  {}
}
