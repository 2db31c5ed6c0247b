/** Integer helpers shared by the modular-arithmetic kernel and the ECDSA recovery model:
    absolute value, powers of two, bit length, the BigInteger remainder that truncates
    toward zero, modular exponentiation and divisibility. All integers are unbounded,
    as BigInteger is. */
module Arith {
  import opened Wrappers

  function Abs(x: int): (r: nat)
    ensures r == x || r == -x
  {
    if x < 0 then -x else x
  }

  function Pow2(e: nat): (r: nat)
    ensures r >= 1
  {
    if e == 0 then 1 else 2 * Pow2(e - 1)
  }

  /** Number of significant bits of a non-negative integer (BigInteger.BitLength). */
  function BitLength(x: nat): nat
  {
    if x == 0 then 0 else 1 + BitLength(x / 2)
  }

  /** x shifted right by e bits, one halving per bit (BigInteger.ShiftRight on a
      non-negative value; ShrIsDiv shows it is x / 2^e). */
  function Shr(x: nat, e: nat): nat
  {
    if e == 0 then x else Shr(x, e - 1) / 2
  }

  /** Bit i of a non-negative integer (BigInteger.TestBit). */
  predicate TestBit(x: nat, i: nat)
  {
    Shr(x, i) % 2 == 1
  }

  /** BigInteger.Remainder: the remainder of division truncated toward zero,
      so its sign follows the dividend. */
  function Rem(x: int, m: int): (r: int)
    requires m > 0
    ensures (r - x) % m == 0
    ensures x >= 0 ==> 0 <= r < m
    ensures x < 0 ==> -m < r <= 0
  {
    RemCongruent(x, m);
    if x >= 0 then x % m else -((-x) % m)
  }

  lemma RemCongruent(x: int, m: int)
    requires m > 0
    ensures ((if x >= 0 then x % m else -((-x) % m)) - x) % m == 0
  {
    if x >= 0 {
      CongruentMod(x % m, x, m);
      ModOfMod(x, m);
    } else {
      var q := (-x) / m;
      assert -x == m * q + (-x) % m;
      assert -((-x) % m) - x == m * q;
      MultipleMod(m, q);
    }
  }

  lemma ModOfMod(x: int, m: int)
    requires m > 0
    ensures (x % m) % m == x % m
  {
    DivUnique(x % m, m, 0, x % m);
  }

  /** BigInteger.ModPow for a non-negative exponent: b^e reduced into [0, m). */
  function ModPow(b: int, e: nat, m: int): (r: int)
    requires m > 0
    ensures 0 <= r < m
  {
    if e == 0 then 1 % m else (b * ModPow(b, e - 1, m)) % m
  }

  function Pow(b: int, e: nat): int
  {
    if e == 0 then 1 else b * Pow(b, e - 1)
  }

  /** d divides x. */
  predicate Divides(d: nat, x: int)
    requires d > 0
  {
    x % d == 0
  }

  /** x and y share a divisor greater than one (gcd(x, y) > 1). */
  ghost predicate CommonFactor(x: nat, y: nat)
  {
    exists d: nat :: 2 <= d && Divides(d, x) && Divides(d, y)
  }

  // ---------------------------------------------------------------------------
  // Lemmas on remainders

  lemma MultipleMod(m: int, k: int)
    requires m > 0
    ensures (m * k) % m == 0
  {
    DivUnique(m * k, m, k, 0);
  }

  lemma {:induction false} MulAtLeast(d: int, k: int)
    requires d > 0 && k >= 1
    ensures d * k >= d
  {
    if k > 1 {
      MulAtLeast(d, k - 1);
      assert d * k == d * (k - 1) + d;
    }
  }

  lemma MulNonNeg(a: int, b: int)
    requires a >= 0 && b >= 0
    ensures a * b >= 0
  {
  }

  lemma MulAtMost(d: int, k: int)
    requires d > 0 && k <= -1
    ensures d * k <= -d
  {
    MulAtLeast(d, -k);
    assert d * (-k) == -(d * k);
  }

  lemma ShiftMod(m: int, k: int, e: int)
    requires m > 0
    ensures (m * k + e) % m == e % m
  {
    var q := e / m;
    assert e == m * q + e % m;
    assert m * k + e == m * (k + q) + e % m;
    DivUnique(m * k + e, m, k + q, e % m);
  }

  /** Two integers are congruent modulo m exactly when they leave the same remainder. */
  lemma CongruentMod(x: int, y: int, m: int)
    requires m > 0
    ensures (x - y) % m == 0 <==> x % m == y % m
  {
    var q := (x - y) / m;
    assert x - y == m * q + (x - y) % m;
    if (x - y) % m == 0 {
      assert x == m * q + y;
      ShiftMod(m, q, y);
    }
    if x % m == y % m {
      assert x == m * (x / m) + x % m;
      assert y == m * (y / m) + y % m;
      assert x - y == m * (x / m - y / m);
      MultipleMod(m, x / m - y / m);
    }
  }

  lemma MulModL(x: int, y: int, m: int)
    requires m > 0
    ensures ((x % m) * y) % m == (x * y) % m
  {
    var q := x / m;
    assert x == m * q + x % m;
    assert x * y == m * (q * y) + (x % m) * y;
    ShiftMod(m, q * y, (x % m) * y);
  }

  lemma MulMod(x: int, y: int, m: int)
    requires m > 0
    ensures ((x % m) * (y % m)) % m == (x * y) % m
  {
    MulModL(x, y % m, m);
    MulModL(y, x, m);
    assert x * (y % m) == (y % m) * x;
    assert x * y == y * x;
  }

  lemma AddMod(x: int, y: int, m: int)
    requires m > 0
    ensures ((x % m) + y) % m == (x + y) % m
  {
    var q := x / m;
    assert x == m * q + x % m;
    ShiftMod(m, q, (x % m) + y);
  }

  /** Multiplying both sides of a congruence by the same factor keeps it. */
  lemma CongruentMul(x: int, y: int, c: int, m: int)
    requires m > 0
    requires (x - y) % m == 0
    ensures (x * c - y * c) % m == 0
  {
    var q := (x - y) / m;
    assert x - y == m * q + (x - y) % m;
    assert x * c - y * c == (x - y) * c;
    assert x * c - y * c == m * (q * c);
    MultipleMod(m, q * c);
  }

  lemma CongruentTrans(x: int, y: int, w: int, m: int)
    requires m > 0
    requires (x - y) % m == 0 && (y - w) % m == 0
    ensures (x - w) % m == 0
  {
    CongruentMod(x, y, m);
    CongruentMod(y, w, m);
    CongruentMod(x, w, m);
  }

  /** x and y are congruent modulo m. */
  predicate Cong(x: int, y: int, m: int)
    requires m > 0
  {
    (x - y) % m == 0
  }

  lemma CongSym(x: int, y: int, m: int)
    requires m > 0 && Cong(x, y, m)
    ensures Cong(y, x, m)
  {
    var q := (x - y) / m;
    assert x - y == m * q;
    assert y - x == m * (-q);
    MultipleMod(m, -q);
  }

  lemma CongScale(x: int, y: int, c: int, m: int)
    requires m > 0 && Cong(x, y, m)
    ensures Cong(x * c, y * c, m) && Cong(c * x, c * y, m)
  {
    CongruentMul(x, y, c, m);
    assert c * x == x * c && c * y == y * c;
  }

  /** Products regrouped, kept out of larger proofs so the solver sees them once. */
  lemma MulAssoc(a: int, b: int, c: int)
    ensures (a * b) * c == a * (b * c)
  {
  }

  lemma MulDistrib(a: int, b: int, c: int)
    ensures (a + b) * c == a * c + b * c
  {
  }

  lemma SquareOfProduct(x: int, y: int)
    ensures (x * y) * (x * y) == (x * x) * (y * y)
  {
    MulAssoc(x * y, x, y);
    MulAssoc(x, y, x);
    assert y * x == x * y;
    MulAssoc(x, x, y);
  }

  lemma CongSquare(x: int, y: int, m: int)
    requires m > 0 && Cong(x, y, m)
    ensures Cong(x * x, y * y, m)
  {
    CongruentMul(x, y, x + y, m);
    assert x * (x + y) - y * (x + y) == x * x - y * y;
  }

  lemma CongAdd(a: int, b: int, c: int, e: int, m: int)
    requires m > 0 && Cong(a, b, m) && Cong(c, e, m)
    ensures Cong(a + c, b + e, m)
  {
    CongruentMod(a, b, m);
    CongruentMod(c, e, m);
    AddMod(a, c, m);
    AddMod(b, e, m);
    assert (a % m + c) % m == (c + a % m) % m;
    AddMod(c, a % m, m);
    AddMod(e, b % m, m);
    assert (b % m + e) % m == (e + b % m) % m;
    CongruentMod(a + c, b + e, m);
  }

  lemma CongReduce(x: int, m: int)
    requires m > 0
    ensures Cong(x % m, x, m) && Cong(x, x % m, m)
  {
    ModOfMod(x, m);
    CongruentMod(x % m, x, m);
    CongruentMod(x, x % m, m);
  }

  // ---------------------------------------------------------------------------
  // Exponentiation

  lemma {:induction false} ModPowIsPow(b: int, e: nat, m: int)
    requires m > 0
    ensures ModPow(b, e, m) == Pow(b, e) % m
  {
    if e > 0 {
      var p := Pow(b, e - 1);
      ModPowIsPow(b, e - 1, m);
      assert ModPow(b, e, m) == (b * (p % m)) % m;
      assert b * (p % m) == (p % m) * b;
      MulModL(p, b, m);
      assert p * b == Pow(b, e);
    }
  }

  lemma {:induction false} PowAdd(b: int, e1: nat, e2: nat)
    ensures Pow(b, e1 + e2) == Pow(b, e1) * Pow(b, e2)
  {
    if e1 > 0 {
      PowAdd(b, e1 - 1, e2);
      assert Pow(b, e1 + e2) == b * Pow(b, e1 - 1 + e2);
      assert b * (Pow(b, e1 - 1) * Pow(b, e2)) == (b * Pow(b, e1 - 1)) * Pow(b, e2);
    }
  }

  /** b^(e1 + e2) mod m is the product of the two partial powers, reduced. */
  lemma ModPowAdd(b: int, e1: nat, e2: nat, m: int)
    requires m > 0
    ensures ModPow(b, e1 + e2, m) == (ModPow(b, e1, m) * ModPow(b, e2, m)) % m
  {
    ModPowIsPow(b, e1 + e2, m);
    ModPowIsPow(b, e1, m);
    ModPowIsPow(b, e2, m);
    PowAdd(b, e1, e2);
    MulMod(Pow(b, e1), Pow(b, e2), m);
  }

  // ---------------------------------------------------------------------------
  // Bits

  lemma {:induction false} BitLengthBounds(x: nat)
    ensures x < Pow2(BitLength(x))
    ensures x > 0 ==> Pow2(BitLength(x) - 1) <= x
  {
    if x > 0 {
      BitLengthBounds(x / 2);
    }
  }

  /** A number below 2^e has at most e bits. */
  lemma {:induction false} BitLengthAtMost(x: nat, e: nat)
    requires x < Pow2(e)
    ensures BitLength(x) <= e
  {
    if x > 0 {
      assert e > 0;
      BitLengthAtMost(x / 2, e - 1);
    }
  }

  /** A number of at least 2^(e-1) has at least e bits. */
  lemma {:induction false} BitLengthAtLeast(x: nat, e: nat)
    requires e > 0 && Pow2(e - 1) <= x
    ensures e <= BitLength(x)
  {
    if e > 1 {
      BitLengthAtLeast(x / 2, e - 1);
    }
  }

  lemma {:induction false} Pow2Add(a: nat, b: nat)
    ensures Pow2(a + b) == Pow2(a) * Pow2(b)
  {
    if a > 0 {
      Pow2Add(a - 1, b);
    }
  }

  /** Dividing by 2^(i+1) is halving the quotient by 2^i. */
  lemma DivPow2Step(x: nat, i: nat)
    ensures x / Pow2(i + 1) == (x / Pow2(i)) / 2
  {
    var q := x / Pow2(i);
    assert x == Pow2(i) * q + x % Pow2(i);
    assert q == 2 * (q / 2) + q % 2;
    assert x == Pow2(i + 1) * (q / 2) + (Pow2(i) * (q % 2) + x % Pow2(i));
    assert 0 <= Pow2(i) * (q % 2) + x % Pow2(i) < Pow2(i + 1);
    DivUnique(x, Pow2(i + 1), q / 2, Pow2(i) * (q % 2) + x % Pow2(i));
  }

  lemma DivUnique(x: int, d: int, q: int, r: int)
    requires d > 0 && x == d * q + r && 0 <= r < d
    ensures x / d == q && x % d == r
  {
    var q' := x / d;
    assert x == d * q' + x % d;
    assert d * (q - q') == x % d - r;
    if q - q' >= 1 {
      MulAtLeast(d, q - q');
    } else if q - q' <= -1 {
      MulAtMost(d, q - q');
    }
  }

  /** Shifting right by e bits is dividing by 2^e. */
  lemma {:induction false} ShrIsDiv(x: nat, e: nat)
    ensures Shr(x, e) == x / Pow2(e)
  {
    if e > 0 {
      ShrIsDiv(x, e - 1);
      DivPow2Step(x, e - 1);
    }
  }

  /** Shifting right by e bits removes exactly e bits. */
  lemma {:induction false} ShrBitLength(z: nat, e: nat)
    requires e <= BitLength(z)
    ensures BitLength(Shr(z, e)) == BitLength(z) - e
  {
    if e > 0 {
      var y := Shr(z, e - 1);
      ShrBitLength(z, e - 1);
      assert Shr(z, e) == y / 2;
      assert BitLength(y) == 1 + BitLength(y / 2);
    }
  }

  /** Shifting right by at least the number of bits leaves nothing. */
  lemma {:induction false} ShrPastBitLength(x: nat, e: nat)
    requires BitLength(x) <= e
    ensures Shr(x, e) == 0
  {
    if e == BitLength(x) {
      ShrBitLength(x, e);
    } else {
      ShrPastBitLength(x, e - 1);
    }
  }

  lemma {:induction false} Pow2Monotone(a: nat, b: nat)
    requires a <= b
    ensures Pow2(a) <= Pow2(b)
  {
    if a < b {
      Pow2Monotone(a, b - 1);
    }
  }

  // ---------------------------------------------------------------------------
  // Greatest common divisor and modular inverse

  /** Extended Euclid: (g, u, v) with a u + b v = g, where g divides both a and b. */
  function Egcd(a: nat, b: nat): (r: (nat, int, int))
    ensures a * r.1 + b * r.2 == r.0
    ensures a > 0 || b > 0 ==> r.0 > 0 && Divides(r.0, a) && Divides(r.0, b)
    decreases b
  {
    if b == 0 then (a, 1, 0)
    else
      var t := Egcd(b, a % b);
      EgcdStep(a, b, t.0, t.1, t.2);
      (t.0, t.2, t.1 - (a / b) * t.2)
  }

  lemma EgcdStep(a: nat, b: nat, g: nat, u: int, v: int)
    requires b > 0
    requires b * u + (a % b) * v == g
    requires g > 0 ==> Divides(g, b) && Divides(g, a % b)
    ensures a * v + b * (u - (a / b) * v) == g
    ensures g > 0 ==> Divides(g, a)
  {
    var q := a / b;
    assert a == b * q + a % b;
    assert a * v == (b * q) * v + (a % b) * v;
    assert b * (u - q * v) == b * u - (b * q) * v;
    if g > 0 {
      var k1 := b / g;
      var k2 := (a % b) / g;
      assert b == g * k1 + b % g;
      assert a % b == g * k2 + (a % b) % g;
      assert a == g * (k1 * q + k2);
      MultipleMod(g, k1 * q + k2);
    }
  }

  /** Every common divisor of a and b divides a u + b v. */
  lemma DividesCombination(d: nat, a: int, b: int, u: int, v: int)
    requires d > 0 && Divides(d, a) && Divides(d, b)
    ensures Divides(d, a * u + b * v)
  {
    var ka := a / d;
    var kb := b / d;
    assert a == d * ka + a % d;
    assert b == d * kb + b % d;
    assert a * u + b * v == d * (ka * u + kb * v);
    MultipleMod(d, ka * u + kb * v);
  }

  /** BigInteger.ModInverse: the inverse of x modulo m, in [0, m), when x and m have no
      common factor; BigInteger.ModInverse throws otherwise. */
  function ModInverse(x: int, m: int): (r: Option<int>)
    requires m >= 2
    ensures r.Some? ==> 0 <= r.value < m && (x * r.value) % m == 1
    ensures r.None? <==> CommonFactor(x % m, m)
  {
    var t := Egcd(x % m, m);
    if t.0 == 1 then
      InverseFromBezout(x, m, t.1, t.2);
      Some(t.1 % m)
    else
      assert 2 <= t.0 && Divides(t.0, x % m) && Divides(t.0, m);
      None
  }

  lemma InverseFromBezout(x: int, m: int, u: int, v: int)
    requires m >= 2 && (x % m) * u + m * v == 1
    ensures (x * (u % m)) % m == 1
    ensures !CommonFactor(x % m, m)
  {
    BezoutInverse(x, m, u, v);
    if CommonFactor(x % m, m) {
      var d: nat :| 2 <= d && Divides(d, x % m) && Divides(d, m);
      DividesCombination(d, x % m, m, u, v);
      DivUnique(1, d, 0, 1);
    }
  }

  /** From x u + m v = 1 (x reduced), u mod m is an inverse of x modulo m. */
  lemma BezoutInverse(x: int, m: int, u: int, v: int)
    requires m >= 2 && (x % m) * u + m * v == 1
    ensures (x * (u % m)) % m == 1
  {
    var xm, w := x % m, u % m;
    ModOfMod(u, m);
    ModOfMod(x, m);
    MulMod(x, w, m);
    assert (x * w) % m == (xm * w) % m;
    MulMod(xm, u, m);
    assert (xm * w) % m == (xm * u) % m;
    ShiftMod(m, -v, 1);
    assert xm * u == m * (-v) + 1;
    SmallMod(1, m);
    assert (xm * u) % m == 1;
  }

  // ---------------------------------------------------------------------------
  // Primes

  ghost predicate IsPrime(p: int)
  {
    p >= 2 && forall d: nat :: 2 <= d < p ==> !Divides(d, p)
  }

  /** A number in [0, m) is its own remainder. */
  lemma SmallMod(x: int, m: int)
    requires 0 <= x < m
    ensures x % m == x
  {
    DivUnique(x, m, 0, x);
  }

  /** A divisor of a positive number is at most that number. */
  lemma DivisorAtMost(d: nat, a: int)
    requires d > 0 && a > 0 && Divides(d, a)
    ensures d <= a
  {
    assert a == d * (a / d) + a % d;
    if a / d < 1 {
      MulAtMost(d, a / d);
    } else {
      MulAtLeast(d, a / d);
    }
  }

  /** A prime shares no factor with a number it does not divide. */
  lemma PrimeNoCommonFactor(x: int, p: int)
    requires IsPrime(p) && x % p != 0
    ensures !CommonFactor(x % p, p)
  {
    if CommonFactor(x % p, p) {
      var d: nat :| 2 <= d && Divides(d, x % p) && Divides(d, p);
      DivisorAtMost(d, x % p);
    }
  }

  /** Euclid's lemma: a prime that divides neither factor does not divide the product. */
  lemma PrimeProduct(x: int, y: int, p: int)
    requires IsPrime(p) && x % p != 0 && y % p != 0
    ensures (x * y) % p != 0
  {
    PrimeNoCommonFactor(x, p);
    var w := ModInverse(x, p).value;
    if (x * y) % p == 0 {
      assert Cong(x * y, 0, p);
      CongScale(x * y, 0, w, p);
      CongruentMod(x * w, 1, p);
      CongScale(x * w, 1, y, p);
      assert (x * y) * w == (x * w) * y;
      CongSym((x * w) * y, y, p);
      CongruentTrans(y, (x * y) * w, 0, p);
    }
  }

  /** A power of a number a prime does not divide is not divisible by it. */
  lemma {:induction false} ModPowNonZero(b: int, e: nat, p: int)
    requires IsPrime(p) && b % p != 0
    ensures ModPow(b, e, p) != 0
  {
    if e > 0 {
      ModPowNonZero(b, e - 1, p);
      SmallMod(ModPow(b, e - 1, p), p);
      PrimeProduct(b, ModPow(b, e - 1, p), p);
    }
  }
}
