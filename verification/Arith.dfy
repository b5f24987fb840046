/**
  Floor and ceiling division, and the few facts on products the kernels rest on.

  Div and Mod name the operations on natural numbers so that a proof can hide
  their definitions and work from the lemmas alone.
*/
module Arith {

  function Div(a: nat, b: nat): (q: nat)
    requires b > 0
  {
    DivNonNegative(a, b);
    a / b
  }

  function Mod(a: nat, b: nat): (r: nat)
    requires b > 0
    ensures r < b
  {
    a % b
  }

  /** `div_ceil` of the wide-integer library. */
  function CeilDiv(a: nat, b: nat): nat
    requires b > 0
  {
    if Mod(a, b) == 0 then Div(a, b) else Div(a, b) + 1
  }

  function Min(a: int, b: int): int {
    if a <= b then a else b
  }

  function Max(a: int, b: int): int {
    if a >= b then a else b
  }

  function Abs(a: int): nat {
    if a < 0 then -a else a
  }

  /** `div_euclid` by a positive divisor: rounds towards minus infinity. */
  function FloorDiv(a: int, b: int): int
    requires b > 0
  {
    a / b
  }

  // -------------------------------------------------------------- products

  lemma MulMono(a: int, b: int, c: int)
    requires a <= b && 0 <= c
    ensures a * c <= b * c && c * a <= c * b
  {
    assert 0 <= (b - a) * c;
  }

  lemma MulStrict(a: int, b: int, c: int)
    requires a < b && 0 < c
    ensures a * c < b * c && c * a < c * b
  {
    assert 0 < (b - a) * c;
  }

  lemma MulMono2(a: nat, b: nat, c: nat, d: nat)
    requires a <= b && c <= d
    ensures a * c <= b * d
  {
    MulMono(a, b, c);
    MulMono(c, d, b);
  }

  lemma MulStrict2(a: nat, b: nat, c: nat, d: nat)
    requires a < b && c < d
    ensures a * c < b * d
  {
    MulMono(a, b, c);
    MulStrict(c, d, b);
  }

  lemma MulCancel(a: int, b: int, c: int)
    requires a * c < b * c && 0 < c
    ensures a < b
  {
    if b <= a {
      MulMono(b, a, c);
    }
  }

  lemma MulCancelLe(a: int, b: int, c: int)
    requires a * c <= b * c && 0 < c
    ensures a <= b
  {
    if b < a {
      MulStrict(b, a, c);
    }
  }

  lemma MulNonNegative(a: int, b: int)
    requires 0 <= a && 0 <= b
    ensures 0 <= a * b
  {
  }

  lemma SquareOfProduct(a: int, b: int)
    ensures (a * b) * (a * b) == (a * a) * (b * b) == (b * b) * (a * a)
  {
  }

  function Power(x: nat, n: nat): nat {
    if n == 0 then 1
    else
      MulNonNegative(x, Power(x, n - 1));
      x * Power(x, n - 1)
  }

  // ------------------------------------------------- quotient and remainder

  lemma DivNonNegative(a: int, b: int)
    requires a >= 0 && b > 0
    ensures a / b >= 0
  {
    if a / b <= -1 {
      MulMono(a / b, -1, b);
    }
  }

  /** Quotient and remainder are the only pair with x == d*q + r and 0 <= r < d. */
  lemma DivModUniqueInt(x: int, d: int, q: int, r: int)
    requires d > 0 && 0 <= r < d && x == d * q + r
    ensures x / d == q && x % d == r
  {
    var q' := x / d;
    if q' < q {
      MulMono(q' + 1, q, d);
    } else if q < q' {
      MulMono(q + 1, q', d);
    }
  }

  lemma DivModUnique(x: nat, d: nat, q: nat, r: nat)
    requires d > 0 && r < d && x == d * q + r
    ensures Div(x, d) == q && Mod(x, d) == r
  {
    DivModUniqueInt(x, d, q, r);
  }

  lemma DivMod(x: nat, d: nat)
    requires d > 0
    ensures d * Div(x, d) + Mod(x, d) == x
    ensures Div(x, d) <= x && Mod(x, d) <= x
    ensures x < d ==> Mod(x, d) == x && Div(x, d) == 0
  {
    MulMono(1, d, x / d);
    if x < d {
      DivModUniqueInt(x, d, 0, x);
    }
  }

  lemma DivModByOne(x: nat)
    ensures Div(x, 1) == x && Mod(x, 1) == 0 && CeilDiv(x, 1) == x
  {
    DivModUnique(x, 1, x, 0);
  }

  lemma FloorBounds(a: nat, b: nat)
    requires b > 0
    ensures Div(a, b) * b <= a < (Div(a, b) + 1) * b
  {
    assert (a / b + 1) * b == (a / b) * b + b;
  }

  lemma FloorDivBounds(a: int, b: int)
    requires b > 0
    ensures FloorDiv(a, b) * b <= a < FloorDiv(a, b) * b + b
  {
  }

  /** Any q with q*b <= a lies at or below the floor. */
  lemma FloorDivAtLeast(a: int, b: int, q: int)
    requires b > 0
    ensures q <= FloorDiv(a, b) <==> q * b <= a
  {
    FloorDivBounds(a, b);
    if q <= FloorDiv(a, b) {
      MulMono(q, FloorDiv(a, b), b);
    } else {
      MulMono(FloorDiv(a, b) + 1, q, b);
      assert (FloorDiv(a, b) + 1) * b == FloorDiv(a, b) * b + b;
    }
  }

  /** q is the floor of a / b when q*b <= a < (q+1)*b. */
  lemma FloorUnique(a: nat, b: nat, q: int)
    requires b > 0 && q * b <= a < (q + 1) * b
    ensures Div(a, b) == q
  {
    DivModUniqueInt(a, b, q, a - q * b);
  }

  lemma FloorAtLeast(a: nat, b: nat, q: int)
    requires b > 0
    ensures q <= Div(a, b) <==> q * b <= a
  {
    FloorBounds(a, b);
    if q <= Div(a, b) {
      MulMono(q, Div(a, b), b);
    } else {
      MulMono(Div(a, b) + 1, q, b);
    }
  }

  lemma FloorMono(a: nat, a': nat, b: nat)
    requires b > 0 && a <= a'
    ensures Div(a, b) <= Div(a', b)
  {
    FloorBounds(a, b);
    FloorAtLeast(a', b, Div(a, b));
  }

  /** The ceiling is the least q with a <= q*b. */
  lemma CeilAtMost(a: nat, b: nat, q: int)
    requires b > 0
    ensures CeilDiv(a, b) <= q <==> a <= q * b
  {
    var c := Div(a, b);
    DivMod(a, b);
    assert b * c == c * b && (c + 1) * b == c * b + b;
    if CeilDiv(a, b) <= q {
      MulMono(CeilDiv(a, b), q, b);
    } else {
      MulMono(q, CeilDiv(a, b) - 1, b);
      if Mod(a, b) == 0 {
        MulMono(q + 1, c, b);
        assert (q + 1) * b == q * b + b;
      }
    }
  }

  lemma CeilBounds(a: nat, b: nat)
    requires b > 0
    ensures a <= CeilDiv(a, b) * b
    ensures (CeilDiv(a, b) - 1) * b < a
    ensures Div(a, b) <= CeilDiv(a, b) <= Div(a, b) + 1
  {
    CeilAtMost(a, b, CeilDiv(a, b));
    CeilAtMost(a, b, CeilDiv(a, b) - 1);
  }

  /** Adding a multiple of the divisor does not change the remainder. */
  lemma ModShift(x: int, d: int, k: int)
    requires d > 0
    ensures (x + d * k) % d == x % d
  {
    assert x + d * k == d * (x / d + k) + x % d;
    DivModUniqueInt(x + d * k, d, x / d + k, x % d);
  }

  lemma ModMulLeft(x: int, y: int, d: int)
    requires d > 0
    ensures ((x % d) * y) % d == (x * y) % d
  {
    var q, r := x / d, x % d;
    ModMulIdentity(x, y, d, q, r);
    ModShift(r * y, d, q * y);
  }

  lemma ModMulIdentity(x: int, y: int, d: int, q: int, r: int)
    requires x == d * q + r
    ensures x * y == r * y + d * (q * y)
  {
    assert (d * q) * y == d * (q * y);
  }

  lemma ModMulRight(x: int, y: int, d: int)
    requires d > 0
    ensures (x * (y % d)) % d == (x * y) % d
  {
    ModMulLeft(y, x, d);
  }

  /** A product modulo m only depends on its factors modulo m. */
  lemma ModProduct(x: int, y: int, m: int)
    requires m > 0
    ensures (x * y) % m == ((x % m) * (y % m)) % m
  {
    ModMulLeft(x, y, m);
    ModMulRight(x % m, y, m);
  }

  lemma ModSubRight(x: int, y: int, d: int)
    requires d > 0
    ensures (x - y % d) % d == (x - y) % d
  {
    ModShift(x - y, d, y / d);
    assert x - y % d == x - y + d * (y / d);
  }

  /** (a + b*q) / b == a / b + q. */
  lemma DivShift(a: nat, b: nat, q: nat)
    requires b > 0
    ensures a + b * q >= 0 && Div(a + b * q, b) == Div(a, b) + q
  {
    MulNonNegative(b, q);
    DivMod(a, b);
    assert a + b * q == b * (Div(a, b) + q) + Mod(a, b);
    DivModUnique(a + b * q, b, Div(a, b) + q, Mod(a, b));
  }

  /** Dividing a*q by a factor s of q. */
  lemma QuotientByFactor(a: nat, s: nat, c: nat, q: nat)
    requires s > 0 && q == s * c
    ensures Div(a * q, s) == a * c && Mod(a * q, s) == 0
  {
    assert a * q == s * (a * c);
    DivModUnique(a * q, s, a * c, 0);
  }

  /** Dividing a*q by a multiple s of q. */
  lemma QuotientByMultiple(a: nat, m: nat, q: nat, s: nat)
    requires m > 0 && q > 0 && s == m * q
    ensures s > 0 && Div(a * q, s) == Div(a, m) && Mod(a * q, s) == Mod(a, m) * q
    ensures Mod(a * q, s) == 0 <==> Mod(a, m) == 0
  {
    hide *;
    var k, r := Div(a, m), Mod(a, m);
    DivMod(a, m);
    MultipleIdentity(a, m, q, s, k, r);
    MulStrict(r, m, q);
    MulStrict(0, m, q);
    if r > 0 {
      MulStrict(0, r, q);
    }
    DivModUnique(a * q, s, k, r * q);
  }

  lemma MultipleIdentity(a: int, m: int, q: int, s: int, k: int, r: int)
    requires a == m * k + r && s == m * q
    ensures a * q == s * k + r * q
  {
    assert (m * k) * q == (m * q) * k;
  }
}
