/** The modular-arithmetic kernel: the Jacobi symbol computed by reciprocity with the
    eight-entry table for the (2|b) factor, and the Tonelli-Shanks modular square root
    ("Ressol") of PubKeyFinder's IntegerFunctions. Each of their loops is an imperative
    method here, proved equal to a recursive specification function; what the C# code
    promises is proved about those functions. */
module IntegerFunctions {
  import opened Arith
  import opened Wrappers

  // ===========================================================================
  // Jacobi symbol

  /** The lookup table for the (2|b) factor, indexed by a value modulo 8. */
  function JacobiTable(i: nat): (r: int)
    requires i < 8
    ensures i % 2 == 1 ==> r == 1 || r == -1
    ensures i % 2 == 0 ==> r == 0
  {
    [0, 1, 0, -1, 0, -1, 0, 1][i]
  }

  /** The odd part of a positive number: all factors of two removed. */
  function OddPart(m: nat): (r: nat)
    requires m > 0
    ensures r > 0 && r % 2 == 1
  {
    if m % 2 == 0 then OddPart(m / 2) else m
  }

  /** How many factors of two a positive number has. */
  function TwoCount(m: nat): nat
    requires m > 0
  {
    if m % 2 == 0 then 1 + TwoCount(m / 2) else 0
  }

  /** The symbol (a|b) for a >= 0 and odd b > 0, one reduction rule per step: a factor two
      of a contributes (2|b) from the table, an odd a below b is swapped with b by
      reciprocity (sign -1 when both are 3 modulo 4), and otherwise b is subtracted from a. */
  function JacobiOdd(a: nat, b: nat): int
    requires b % 2 == 1
    decreases a + b, if a % 2 == 1 && a < b then 1 else 0
  {
    if a == 0 then (if b == 1 then 1 else 0)
    else if a % 2 == 0 then JacobiTable(b % 8) * JacobiOdd(a / 2, b)
    else if a < b then (if a % 4 == 3 && b % 4 == 3 then -1 else 1) * JacobiOdd(b, a)
    else JacobiOdd(a - b, b)
  }

  /** The sign `jacobi` accumulates in k before its main loop: -1 when both arguments
      are negative, times (A|2) from the table when B has an odd number of factors of two,
      negated when A < 0 and the odd part of |B| is 3 modulo 4. */
  function JacobiSign(A: int, B: int): (k: int)
    requires B != 0 && !(A % 2 == 0 && B % 2 == 0)
    ensures k == 1 || k == -1
  {
    var b := OddPart(Abs(B));
    var k0 := if B < 0 && A < 0 then -1 else 1;
    var k1 := if TwoCount(Abs(B)) % 2 == 1 then k0 * JacobiTable(A % 8) else k0;
    assert TwoCount(Abs(B)) % 2 == 1 ==> Abs(B) % 2 == 0 && A % 2 == 1;
    if A < 0 && b % 4 == 3 then -k1 else k1
  }

  /** The value of `jacobi(A, B)`, for any integers: the trivial cases, then
      the accumulated sign times the symbol of |A| over the odd part of |B|. */
  function JacobiSymbol(A: int, B: int): int
  {
    if B == 0 then (if Abs(A) == 1 then 1 else 0)
    else if A % 2 == 0 && B % 2 == 0 then 0
    else JacobiSign(A, B) * JacobiOdd(Abs(A), OddPart(Abs(B)))
  }

  /** The factor (2|b)^v `jacobi` applies after removing v factors of two. */
  function TwoFactor(v: nat, b: nat): (f: int)
    requires b % 2 == 1
    ensures f == 1 || f == -1
  {
    if v % 2 == 1 then JacobiTable(b % 8) else 1
  }

  lemma HalvingStep(J: int, k: int, v: nat, a: nat, b: nat)
    requires b % 2 == 1 && a > 0 && a % 2 == 0 && (k == 1 || k == -1)
    requires J == k * TwoFactor(v, b) * JacobiOdd(a, b)
    ensures J == k * TwoFactor(v + 1, b) * JacobiOdd(a / 2, b)
  {
    var t := JacobiTable(b % 8);
    var j := JacobiOdd(a / 2, b);
    assert JacobiOdd(a, b) == t * j;
    assert TwoFactor(v, b) == (if v % 2 == 1 then t else 1);
    assert TwoFactor(v + 1, b) == (if v % 2 == 1 then 1 else t);
    MoveFactor(J, k, t, j, v % 2 == 1);
  }

  /** Moving a sign factor t from the symbol into the accumulated sign. */
  lemma MoveFactor(J: int, k: int, t: int, j: int, odd: bool)
    requires t == 1 || t == -1
    requires J == k * (if odd then t else 1) * (t * j)
    ensures J == k * (if odd then 1 else t) * j
  {
    if t == -1 {
      if odd {
        assert J == k * -1 * (-1 * j);
      }
    }
  }

  lemma SwapStep(J: int, k: int, a: nat, b: nat)
    requires a % 2 == 1 && b % 2 == 1 && a < b && (k == 1 || k == -1)
    requires J == k * JacobiOdd(a, b)
    ensures J == (if b % 4 == 3 && a % 4 == 3 then -k else k) * JacobiOdd(b, a)
  {
  }

  /** PubKeyFinder's `jacobi`: trivial cases, sign handling, the halving
      loop on b, then the main loop that halves a, swaps and subtracts until a is zero. */
  method Jacobi(A: int, B: int) returns (r: int)
    ensures r == JacobiSymbol(A, B)
  {
    var k := 1;
    if B == 0 {
      return if Abs(A) == 1 then 1 else 0;
    }
    if A % 2 == 0 && B % 2 == 0 {
      return 0;
    }
    var a := A;
    var b := B;
    if b < 0 {
      b := -b;
      if a < 0 {
        k := -1;
      }
    }
    var v := 0;
    while b % 2 == 0
      invariant b > 0
      invariant OddPart(b) == OddPart(Abs(B)) && TwoCount(Abs(B)) == v + TwoCount(b)
      decreases b
    {
      v := v + 1;
      b := b / 2;
    }
    if v % 2 == 1 {
      k := k * JacobiTable(a % 8);
    }
    if a < 0 {
      if b % 4 == 3 {
        k := -k;
      }
      a := -a;
    }
    assert k == JacobiSign(A, B) && a == Abs(A) && b == OddPart(Abs(B));
    while a != 0
      invariant a >= 0 && b > 0 && b % 2 == 1 && (k == 1 || k == -1)
      invariant JacobiSymbol(A, B) == k * JacobiOdd(a, b)
      decreases a + b
    {
      ghost var a0 := a;
      v := 0;
      while a % 2 == 0
        invariant 0 < a <= a0
        invariant JacobiSymbol(A, B) == k * TwoFactor(v, b) * JacobiOdd(a, b)
        decreases a
      {
        HalvingStep(JacobiSymbol(A, B), k, v, a, b);
        v := v + 1;
        a := a / 2;
      }
      k := k * TwoFactor(v, b);
      if a < b {
        SwapStep(JacobiSymbol(A, B), k, a, b);
        a, b := b, a;
        if a % 4 == 3 && b % 4 == 3 {
          k := -k;
        }
      }
      a := a - b;
    }
    r := if b == 1 then k else 0;
  }

  // ---------------------------------------------------------------------------
  // Divisibility facts behind the zero case of the symbol

  lemma DividesDiff(d: nat, x: int, y: int)
    requires d > 0 && Divides(d, x) && Divides(d, y)
    ensures Divides(d, x - y) && Divides(d, x + y)
  {
    assert x == d * (x / d);
    assert y == d * (y / d);
    assert x - y == d * (x / d - y / d);
    assert x + y == d * (x / d + y / d);
    MultipleMod(d, x / d - y / d);
    MultipleMod(d, x / d + y / d);
  }

  lemma OddProduct(x: int, y: int)
    requires x % 2 == 1 && y % 2 == 1
    ensures (x * y) % 2 == 1
  {
    var i, j := x / 2, y / 2;
    assert x == 2 * i + 1 && y == 2 * j + 1;
    assert x * y == 2 * (2 * i * j + i + j) + 1;
    ShiftMod(2, 2 * i * j + i + j, 1);
  }

  /** A divisor of an odd number is odd. */
  lemma DivisorOfOdd(d: nat, b: int)
    requires d > 0 && b % 2 == 1 && Divides(d, b)
    ensures d % 2 == 1
  {
    if d % 2 == 0 {
      assert b == d * (b / d);
      assert b == 2 * ((d / 2) * (b / d));
      MultipleMod(2, (d / 2) * (b / d));
    }
  }

  /** An odd divisor of an even number divides its half. */
  lemma OddDivisorOfHalf(d: nat, a: nat)
    requires d > 0 && d % 2 == 1 && a % 2 == 0 && Divides(d, a)
    ensures Divides(d, a / 2)
  {
    var q := a / d;
    assert a == d * q;
    if q % 2 == 1 {
      OddProduct(d, q);
    }
    assert q == 2 * (q / 2);
    assert a / 2 == d * (q / 2);
    MultipleMod(d, q / 2);
  }

  lemma DividesDouble(d: nat, m: int)
    requires d > 0 && Divides(d, m)
    ensures Divides(d, 2 * m)
  {
    DividesDiff(d, m, m);
    assert m + m == 2 * m;
  }

  lemma NoDivisorOfOne(d: nat)
    requires d >= 2
    ensures !Divides(d, 1)
  {
    DivUnique(1, d, 0, 1);
  }

  lemma CommonFactorSymmetric(x: nat, y: nat)
    ensures CommonFactor(x, y) <==> CommonFactor(y, x)
  {
    if CommonFactor(x, y) {
      var d: nat :| 2 <= d && Divides(d, x) && Divides(d, y);
      assert 2 <= d && Divides(d, y) && Divides(d, x);
    }
    if CommonFactor(y, x) {
      var d: nat :| 2 <= d && Divides(d, y) && Divides(d, x);
      assert 2 <= d && Divides(d, x) && Divides(d, y);
    }
  }

  /** Against an odd number, halving an even number keeps its common factors. */
  lemma CommonFactorHalf(a: nat, b: nat)
    requires a % 2 == 0 && b % 2 == 1
    ensures CommonFactor(a, b) <==> CommonFactor(a / 2, b)
  {
    if CommonFactor(a, b) {
      var d: nat :| 2 <= d && Divides(d, a) && Divides(d, b);
      DivisorOfOdd(d, b);
      OddDivisorOfHalf(d, a);
      assert 2 <= d && Divides(d, a / 2) && Divides(d, b);
    }
    if CommonFactor(a / 2, b) {
      var d: nat :| 2 <= d && Divides(d, a / 2) && Divides(d, b);
      DividesDouble(d, a / 2);
      assert 2 * (a / 2) == a;
      assert 2 <= d && Divides(d, a) && Divides(d, b);
    }
  }

  /** Subtracting b from a keeps the common factors of a and b. */
  lemma CommonFactorSubtract(a: nat, b: nat)
    requires a >= b
    ensures CommonFactor(a, b) <==> CommonFactor(a - b, b)
  {
    if CommonFactor(a, b) {
      var d: nat :| 2 <= d && Divides(d, a) && Divides(d, b);
      DividesDiff(d, a, b);
      assert 2 <= d && Divides(d, a - b) && Divides(d, b);
    }
    if CommonFactor(a - b, b) {
      var d: nat :| 2 <= d && Divides(d, a - b) && Divides(d, b);
      DividesDiff(d, a - b, b);
      assert (a - b) + b == a;
      assert 2 <= d && Divides(d, a) && Divides(d, b);
    }
  }

  /** The only number sharing no factor with 0 is 1. */
  lemma CommonFactorWithZero(b: nat)
    ensures CommonFactor(0, b) <==> b != 1
  {
    if b == 1 {
      if CommonFactor(0, b) {
        var d: nat :| 2 <= d && Divides(d, 0) && Divides(d, b);
        NoDivisorOfOne(d);
      }
    } else if b == 0 {
      assert 2 <= 2 && Divides(2, 0) && Divides(2, b);
    } else {
      MultipleMod(b, 1);
      assert 2 <= b && Divides(b, 0) && Divides(b, b);
    }
  }

  lemma {:induction false} JacobiOddRange(a: nat, b: nat)
    requires b % 2 == 1
    ensures JacobiOdd(a, b) in {-1, 0, 1}
    decreases a + b, if a % 2 == 1 && a < b then 1 else 0
  {
    if a == 0 {
    } else if a % 2 == 0 {
      JacobiOddRange(a / 2, b);
    } else if a < b {
      JacobiOddRange(b, a);
    } else {
      JacobiOddRange(a - b, b);
    }
  }

  /** The symbol over an odd modulus vanishes exactly when the arguments share a factor. */
  lemma {:induction false} JacobiOddZero(a: nat, b: nat)
    requires b % 2 == 1
    ensures JacobiOdd(a, b) == 0 <==> CommonFactor(a, b)
    decreases a + b, if a % 2 == 1 && a < b then 1 else 0
  {
    if a == 0 {
      CommonFactorWithZero(b);
    } else if a % 2 == 0 {
      JacobiOddZero(a / 2, b);
      CommonFactorHalf(a, b);
    } else if a < b {
      JacobiOddZero(b, a);
      CommonFactorSymmetric(a, b);
    } else {
      JacobiOddZero(a - b, b);
      CommonFactorSubtract(a, b);
    }
  }

  lemma {:induction false} OddPartDivides(m: nat, d: nat)
    requires m > 0 && d > 0
    ensures Divides(d, OddPart(m)) ==> Divides(d, m)
    ensures d % 2 == 1 && Divides(d, m) ==> Divides(d, OddPart(m))
  {
    if m % 2 == 0 {
      OddPartDivides(m / 2, d);
      assert 2 * (m / 2) == m;
      if Divides(d, m / 2) {
        DividesDouble(d, m / 2);
      }
      if d % 2 == 1 && Divides(d, m) {
        OddDivisorOfHalf(d, m);
      }
    }
  }

  /** Against an odd number, stripping the factors of two of the other keeps common factors. */
  lemma CommonFactorOddPart(x: nat, m: nat)
    requires m > 0 && (x % 2 == 1 || m % 2 == 1)
    ensures CommonFactor(x, OddPart(m)) <==> CommonFactor(x, m)
  {
    if m % 2 == 1 {
      assert OddPart(m) == m;
    } else {
      if CommonFactor(x, OddPart(m)) {
        var d: nat :| 2 <= d && Divides(d, x) && Divides(d, OddPart(m));
        OddPartDivides(m, d);
        assert 2 <= d && Divides(d, x) && Divides(d, m);
      }
      if CommonFactor(x, m) {
        var d: nat :| 2 <= d && Divides(d, x) && Divides(d, m);
        DivisorOfOdd(d, x);
        OddPartDivides(m, d);
        assert 2 <= d && Divides(d, x) && Divides(d, OddPart(m));
      }
    }
  }

  /** jacobi(A, B) is always -1, 0 or 1. */
  lemma JacobiRange(A: int, B: int)
    ensures JacobiSymbol(A, B) in {-1, 0, 1}
  {
    if B != 0 && !(A % 2 == 0 && B % 2 == 0) {
      JacobiOddRange(Abs(A), OddPart(Abs(B)));
    }
  }

  /** jacobi(A, B) is 0 exactly when gcd(A, B) > 1: the property the doc comment
      of `jacobi` lists first. */
  lemma JacobiZeroIffCommonFactor(A: int, B: int)
    ensures JacobiSymbol(A, B) == 0 <==> CommonFactor(Abs(A), Abs(B))
  {
    if B == 0 {
      CommonFactorSymmetric(Abs(A), 0);
      CommonFactorWithZero(Abs(A));
    } else if A % 2 == 0 && B % 2 == 0 {
      assert 2 <= 2 && Divides(2, Abs(A)) && Divides(2, Abs(B));
    } else {
      var j := JacobiOdd(Abs(A), OddPart(Abs(B)));
      assert JacobiSymbol(A, B) == JacobiSign(A, B) * j;
      JacobiOddZero(Abs(A), OddPart(Abs(B)));
      CommonFactorOddPart(Abs(A), Abs(B));
    }
  }

  /** The trivial cases `jacobi` tests first. */
  lemma JacobiTrivialCases(A: int, B: int)
    ensures B == 0 ==> JacobiSymbol(A, B) == (if A == 1 || A == -1 then 1 else 0)
    ensures B != 0 && A % 2 == 0 && B % 2 == 0 ==> JacobiSymbol(A, B) == 0
  {
  }

  /** (p|p) is 0 for p >= 2, so a scan for a non-residue below p always stops at p. */
  lemma JacobiOfModulus(p: int)
    requires p >= 2
    ensures JacobiSymbol(p, p) == 0
  {
    MultipleMod(p, 1);
    assert 2 <= p && Divides(p, Abs(p)) && Divides(p, Abs(p));
    JacobiZeroIffCommonFactor(p, p);
  }

  /** A divisor of b divides x and -x alike. */
  lemma DividesAbs(d: nat, x: int)
    requires d > 0
    ensures Divides(d, Abs(x)) <==> Divides(d, x)
  {
    assert Divides(d, 0);
    if x < 0 {
      if Divides(d, x) {
        DividesDiff(d, 0, x);
      }
      if Divides(d, -x) {
        DividesDiff(d, 0, -x);
      }
    }
  }

  /** A divisor of b that divides a divides every c congruent to a modulo b. */
  lemma DividesCongruent(d: nat, a: int, c: int, b: int)
    requires d > 0 && b > 0 && Divides(d, b) && (a - c) % b == 0 && Divides(d, a)
    ensures Divides(d, c)
  {
    var k := (a - c) / b;
    var m := b / d;
    assert a - c == b * k;
    assert b == d * m;
    MulAssoc(d, m, k);
    MultipleMod(d, m * k);
    assert Divides(d, a - c);
    DividesDiff(d, a, a - c);
    assert a - (a - c) == c;
  }

  /** Numbers congruent modulo b share the same factors with b. */
  lemma CommonFactorCongruent(x: int, y: int, b: int)
    requires b > 0 && (x - y) % b == 0
    ensures CommonFactor(Abs(x), b) ==> CommonFactor(Abs(y), b)
  {
    if CommonFactor(Abs(x), b) {
      var d: nat :| 2 <= d && Divides(d, Abs(x)) && Divides(d, b);
      DividesAbs(d, x);
      DividesCongruent(d, x, y, b);
      DividesAbs(d, y);
      assert 2 <= d && Divides(d, Abs(y)) && Divides(d, b);
    }
  }

  /** The symbol depends on the top argument modulo an odd b up to its sign: (a|b) and
      (c|b) for a = c (mod b) are both 0 or both 1 or -1. */
  lemma JacobiPeriodicUpToSign(a: int, c: int, b: int)
    requires b > 0 && b % 2 == 1 && (a - c) % b == 0
    ensures Abs(JacobiSymbol(a, b)) == Abs(JacobiSymbol(c, b))
  {
    var k := (a - c) / b;
    assert c - a == b * -k;
    MultipleMod(b, -k);
    CommonFactorCongruent(a, c, b);
    CommonFactorCongruent(c, a, b);
    JacobiRange(a, b);
    JacobiRange(c, b);
    JacobiZeroIffCommonFactor(a, b);
    JacobiZeroIffCommonFactor(c, b);
  }

  /** (a|1) = 1 for every a >= 0. */
  lemma {:induction false} JacobiOverOne(a: nat)
    ensures JacobiOdd(a, 1) == 1
    decreases a
  {
    if a > 0 {
      if a % 2 == 0 {
        JacobiOverOne(a / 2);
      } else {
        JacobiOverOne(a - 1);
      }
    }
  }

  /** (1|b) = 1 for odd b > 0. */
  lemma JacobiOfOne(b: nat)
    requires b % 2 == 1
    ensures JacobiOdd(1, b) == 1
  {
    JacobiOverOne(b);
    if b > 1 {
      assert JacobiOdd(1, b) == JacobiOdd(b, 1);
    } else {
      assert JacobiOdd(1, b) == JacobiOdd(0, 1);
    }
  }

  /** For odd b > 0, (1|b) = 1, and (-1|b) is 1 when b = 1 (mod 4) and -1 when b = 3
      (mod 4). */
  lemma JacobiMinusOne(b: int)
    requires b > 0 && b % 2 == 1
    ensures JacobiSymbol(1, b) == 1
    ensures JacobiSymbol(-1, b) == if b % 4 == 1 then 1 else -1
  {
    assert OddPart(b) == b && TwoCount(b) == 0;
    JacobiOfOne(b);
  }

  /** For odd b > 0, (2|b) is 1 when b = 1 or 7 (mod 8) and -1 when b = 3 or 5 (mod 8). */
  lemma JacobiTwo(b: int)
    requires b > 0 && b % 2 == 1
    ensures JacobiSymbol(2, b) == if b % 8 == 1 || b % 8 == 7 then 1 else -1
  {
    assert OddPart(b) == b && TwoCount(b) == 0;
    JacobiOfOne(b);
    assert JacobiOdd(2, b) == JacobiTable(b % 8) * JacobiOdd(1, b);
  }

  // ===========================================================================
  // Tonelli-Shanks modular square root

  /** What Ressol produces: a root, the failure `Ressol` throws as "No quadratic
      residue", or the case where repeated squaring does not reach 1 within the current
      order bound (see OrderBoundExceeded in TonelliShanksLoop). */
  datatype SqrtOutcome = Root(r: int) | NoQuadraticResidue | OrderBoundExceeded

  /** `Ressol` adds p once to a negative argument. */
  function Lift(a: int, p: int): int
  {
    if a < 0 then a + p else a
  }

  /** k squared i times, reducing modulo p after each squaring. */
  function SquareIter(k: int, i: nat, p: int): int
    requires p > 0
    decreases i
  {
    if i == 0 then k else SquareIter((k * k) % p, i - 1, p)
  }

  /** The number of squarings modulo p that take k to 1, if at most bound of them do:
      the least such number. */
  function SquaringsToOne(k: int, p: int, bound: nat): (r: Option<nat>)
    requires p > 0
    ensures r.Some? ==> r.value <= bound && SquareIter(k, r.value, p) == 1
    ensures r.Some? ==> forall i :: 0 <= i < r.value ==> SquareIter(k, i, p) != 1
    ensures r.None? ==> forall i :: 0 <= i <= bound ==> SquareIter(k, i, p) != 1
    decreases bound
  {
    if k == 1 then Some(0)
    else if bound == 0 then None
    else match SquaringsToOne((k * k) % p, p, bound - 1)
      case Some(s) => Some(s + 1)
      case None => None
  }

  /** The first z from the given start whose symbol over p is not 1: the scan for a
      quadratic non-residue. It stops at p at the latest, because (p|p) = 0. */
  function FirstNonResidue(z: int, p: int): (r: int)
    requires 2 <= z <= p
    ensures z <= r <= p && JacobiSymbol(r, p) != 1
    ensures forall y :: z <= y < r ==> JacobiSymbol(y, p) == 1
    decreases p - z
  {
    JacobiOfModulus(p);
    if JacobiSymbol(z, p) != 1 then z else FirstNonResidue(z + 1, p)
  }

  /** The iteration of the general path, with the state (r, n, c, s) `Ressol` keeps:
      while n > 1, find the number of squarings i that take n to 1; fail when it equals the
      previous bound s (t = s - i = 0), otherwise multiply in c^(2^(t-1)). `Ressol` does
      not bound the squaring; when 1 is not reached within s squarings it either carries on
      with a negative t or squares forever, and this model stops with OrderBoundExceeded. */
  function TonelliShanksLoop(r: int, n: int, c: int, s: nat, p: int): SqrtOutcome
    requires p > 0
    decreases s
  {
    if n <= 1 then Root(r)
    else match SquaringsToOne(n, p, s)
      case None => OrderBoundExceeded
      case Some(i) =>
        if i == s then NoQuadraticResidue
        else
          var b := ModPow(c, Pow2(s - i - 1), p);
          var c' := Rem(b * b, p);
          TonelliShanksLoop(Rem(r * b, p), (n * c') % p, c', i, p)
  }

  /** The whole of Ressol(a, p) as a function of its inputs. */
  function TonelliShanks(a0: int, p: int): SqrtOutcome
    requires p >= 2
  {
    var a := Lift(a0, p);
    if a == 0 then Root(0)
    else if p == 2 then Root(a)
    else if p % 4 == 3 then
      (if JacobiSymbol(a, p) == 1 then Root(ModPow(a, (p + 1) / 4, p)) else NoQuadraticResidue)
    else GeneralPath(a, p)
  }

  /** The general path for p - 1 = 2^s (2k + 1): start from r = a^(k+1), n = a^(2k+1) and
      iterate with c = z^(2k+1) for the first non-residue z. */
  function GeneralPath(a: int, p: int): SqrtOutcome
    requires p >= 2
  {
    GeneralFrom(a, p, TwoCount(p - 1), (OddPart(p - 1) - 1) / 2)
  }

  /** The general path once p - 1 has been split as 2^s (2k + 1). */
  function GeneralFrom(a: int, p: int, s: nat, k: nat): SqrtOutcome
    requires p >= 2
  {
    var r0 := ModPow(a, k, p);
    var n := Rem(Rem(r0 * r0, p) * a, p);
    var r := Rem(r0 * a, p);
    if n == 1 then Root(r)
    else TonelliShanksLoop(r, n, ModPow(FirstNonResidue(2, p), 2 * k + 1, p), s, p)
  }

  /** PubKeyFinder's `Ressol`: normalise a, the trivial cases, the fast
      path for p = 3 (mod 4), then the general path: split p - 1 = 2^s (2k + 1), scan for a
      non-residue z and iterate on (r, n, c, s). */
  method Ressol(a0: int, p: int) returns (res: SqrtOutcome)
    requires p >= 2
    ensures res == TonelliShanks(a0, p)
  {
    var a := a0;
    if a < 0 {
      a := a + p;
    }
    if a == 0 {
      return Root(0);
    }
    if p == 2 {
      return Root(a);
    }
    if p % 4 == 3 {
      var j := Jacobi(a, p);
      if j == 1 {
        var v := (p + 1) / 4;
        return Root(ModPow(a, v, p));
      }
      return NoQuadraticResidue;
    }
    assert TonelliShanks(a0, p) == GeneralPath(a, p);
    res := RessolGeneral(a, p);
  }

  /** The general path of Ressol: split p - 1 = 2^s (2k + 1), then start and iterate. */
  method RessolGeneral(a: int, p: int) returns (res: SqrtOutcome)
    requires p >= 2
    ensures res == GeneralPath(a, p)
  {
    var s, k := SplitTwos(p - 1);
    res := StartAndIterate(a, p, s, k);
  }

  /** The general path for p - 1 = 2^s (2k + 1): start from r = a^(k+1) and n = a^(2k+1),
      scan for a non-residue z and iterate on (r, n, c, s). */
  method StartAndIterate(a: int, p: int, s: nat, k: nat) returns (res: SqrtOutcome)
    requires p >= 2
    ensures res == GeneralFrom(a, p, s, k)
  {
    var r0 := ModPow(a, k, p);
    var n := Rem(Rem(r0 * r0, p) * a, p);
    var r := Rem(r0 * a, p);
    if n == 1 {
      return Root(r);
    }

    var z := FindNonResidue(p);
    var v := 2 * k + 1;
    var c := ModPow(z, v, p);

    res := ShanksIterate(r, n, c, s, p);
  }

  /** Halves m while it is even: m = 2^s (2k + 1). */
  method SplitTwos(m: nat) returns (s: nat, k: nat)
    requires m > 0
    ensures s == TwoCount(m) && k == (OddPart(m) - 1) / 2
  {
    var q := m;
    s := 0;
    while q % 2 == 0
      invariant q > 0
      invariant OddPart(q) == OddPart(m) && TwoCount(m) == s + TwoCount(q)
      decreases q
    {
      s := s + 1;
      q := q / 2;
    }
    k := (q - 1) / 2;
  }

  /** The first z from 2 on whose symbol (z|p) is not 1. */
  method FindNonResidue(p: int) returns (z: int)
    requires p >= 2
    ensures z == FirstNonResidue(2, p)
  {
    z := 2;
    var j := Jacobi(z, p);
    while j == 1
      invariant 2 <= z <= p && j == JacobiSymbol(z, p)
      invariant FirstNonResidue(2, p) == FirstNonResidue(z, p)
      decreases p - z
    {
      JacobiOfModulus(p);
      z := z + 1;
      j := Jacobi(z, p);
    }
  }

  /** The iteration of the general path of Ressol on its state (r, n, c, s). */
  method ShanksIterate(r0: int, n0: int, c0: int, s0: nat, p: int) returns (res: SqrtOutcome)
    requires p > 0
    ensures res == TonelliShanksLoop(r0, n0, c0, s0, p)
  {
    var r, n, c, s := r0, n0, c0, s0;
    while n > 1
      invariant s >= 0
      invariant TonelliShanksLoop(r, n, c, s, p) == TonelliShanksLoop(r0, n0, c0, s0, p)
      decreases s
    {
      var k := n;
      var t := s;
      s := 0;
      while k != 1 && s < t
        invariant 0 <= s <= t
        invariant SquaringsToOne(n, p, t) == Shifted(SquaringsToOne(k, p, t - s), s)
        decreases t - s
      {
        k := (k * k) % p;
        s := s + 1;
      }
      if k != 1 {
        return OrderBoundExceeded;
      }
      t := t - s;
      if t == 0 {
        return NoQuadraticResidue;
      }
      var v := 1;
      var i := 0;
      while i < t - 1
        invariant 0 <= i <= t - 1 && v == Pow2(i)
      {
        v := v * 2;
        i := i + 1;
      }
      c := ModPow(c, v, p);
      r := Rem(r * c, p);
      c := Rem(c * c, p);
      n := (n * c) % p;
    }
    return Root(r);
  }

  /** An optional count moved up by d squarings. */
  function Shifted(o: Option<nat>, d: nat): Option<nat>
  {
    match o
    case Some(x) => Some(x + d)
    case None => None
  }

  // ---------------------------------------------------------------------------
  // What the root satisfies

  /** p - 1 = 2^s (2k + 1): the split of the general path. */
  lemma {:induction false} TwoAdicSplit(m: nat)
    requires m > 0
    ensures m == Pow2(TwoCount(m)) * OddPart(m)
  {
    if m % 2 == 0 {
      TwoAdicSplit(m / 2);
      assert m == 2 * (m / 2);
    }
  }

  /** One iteration keeps r^2 = a n (mod p). */
  lemma StepKeepsSquare(r: int, n: int, b: int, a: int, p: int)
    requires p > 0 && Cong(r * r, a * n, p)
    ensures var c' := Rem(b * b, p); var r' := Rem(r * b, p);
            Cong(r' * r', a * ((n * c') % p), p)
  {
    var c' := Rem(b * b, p);
    var r' := Rem(r * b, p);
    var n' := (n * c') % p;
    CongSym(r', r * b, p);
    CongSquare(r', r * b, p);
    SquareOfProduct(r, b);
    CongScale(r * r, a * n, b * b, p);
    CongruentTrans(r' * r', (r * b) * (r * b), (a * n) * (b * b), p);
    CongSym(c', b * b, p);
    CongScale(b * b, c', a * n, p);
    CongruentTrans(r' * r', (a * n) * (b * b), (a * n) * c', p);
    CongReduce(n * c', p);
    CongScale(n * c', n', a, p);
    MulAssoc(a, n, c');
    CongruentTrans(r' * r', a * (n * c'), a * n', p);
  }

  /** The loop ends in a root r with r^2 = a n for the final n in {0, 1}. */
  lemma {:induction false} LoopRootSquares(r: int, n: int, c: int, s: nat, p: int, a: int)
    requires p > 0 && n >= 0 && Cong(r * r, a * n, p)
    requires TonelliShanksLoop(r, n, c, s, p).Root?
    ensures var x := TonelliShanksLoop(r, n, c, s, p).r; Cong(x * x, a, p) || Cong(x * x, 0, p)
    decreases s
  {
    if n <= 1 {
      assert n == 0 || n == 1;
      assert a * n == 0 || a * n == a;
    } else {
      var i := SquaringsToOne(n, p, s).value;
      var b := ModPow(c, Pow2(s - i - 1), p);
      var c' := Rem(b * b, p);
      StepKeepsSquare(r, n, b, a, p);
      LoopRootSquares(Rem(r * b, p), (n * c') % p, c', i, p, a);
    }
  }

  /** Every root the loop returns lies in [0, p) when r and c start there. */
  lemma {:induction false} LoopRootRange(r: int, n: int, c: int, s: nat, p: int)
    requires p > 0 && 0 <= r < p && 0 <= c
    requires TonelliShanksLoop(r, n, c, s, p).Root?
    ensures 0 <= TonelliShanksLoop(r, n, c, s, p).r < p
    decreases s
  {
    if n > 1 {
      var i := SquaringsToOne(n, p, s).value;
      var b := ModPow(c, Pow2(s - i - 1), p);
      var c' := Rem(b * b, p);
      LoopRootRange(Rem(r * b, p), (n * c') % p, c', i, p);
    }
  }

  /** The general path starts with r^2 = a n (mod p). */
  lemma InitialSquare(r0: int, a: int, p: int)
    requires p > 0
    ensures Cong(Rem(r0 * a, p) * Rem(r0 * a, p), a * Rem(Rem(r0 * r0, p) * a, p), p)
  {
    var r := Rem(r0 * a, p);
    var u := r0 * r0;
    var m := Rem(u, p);
    var n := Rem(m * a, p);
    var ua := u * a;
    // r^2 = (r0 a)^2 = u a^2 = a (u a)
    CongSquare(r, r0 * a, p);
    SquareOfProduct(r0, a);
    MulAssoc(u, a, a);
    assert ua * a == a * ua;
    // a n = a (m a) = a (u a)
    CongSym(m, u, p);
    CongScale(m, u, a, p);
    CongruentTrans(n, m * a, ua, p);
    CongScale(n, ua, a, p);
    CongSym(a * n, a * ua, p);
    CongruentTrans(r * r, a * ua, a * n, p);
  }

  /** For a in [-p, p), a root Ressol returns lies in [0, p). */
  lemma TonelliShanksRange(a: int, p: int)
    requires p >= 2 && -p <= a < p
    requires TonelliShanks(a, p).Root?
    ensures 0 <= TonelliShanks(a, p).r < p
  {
    var x := Lift(a, p);
    if x != 0 && p != 2 && p % 4 != 3 {
      assert TonelliShanks(a, p) == GeneralFrom(x, p, TwoCount(p - 1), (OddPart(p - 1) - 1) / 2);
      GeneralFromRange(x, p, TwoCount(p - 1), (OddPart(p - 1) - 1) / 2);
    }
  }

  /** The general path's root lies in [0, p). */
  lemma GeneralFromRange(x: int, p: int, s: nat, k: nat)
    requires p >= 2 && 0 <= x < p
    requires GeneralFrom(x, p, s, k).Root?
    ensures 0 <= GeneralFrom(x, p, s, k).r < p
  {
    var r0 := ModPow(x, k, p);
    assert r0 * x >= 0 by {
      if r0 > 0 && x > 0 {
        MulAtLeast(r0, x);
      }
    }
    var n := Rem(Rem(r0 * r0, p) * x, p);
    var r := Rem(r0 * x, p);
    if n != 1 {
      LoopRootRange(r, n, ModPow(FirstNonResidue(2, p), 2 * k + 1, p), s, p);
    }
  }

  /** The general path's root r has r^2 = x or r^2 = 0 (mod p). */
  lemma GeneralFromSquares(x: int, p: int, s: nat, k: nat)
    requires p >= 2 && 0 <= x < p
    requires GeneralFrom(x, p, s, k).Root?
    ensures var r := GeneralFrom(x, p, s, k).r; Cong(r * r, x, p) || Cong(r * r, 0, p)
  {
    var r0 := ModPow(x, k, p);
    var n := Rem(Rem(r0 * r0, p) * x, p);
    var r := Rem(r0 * x, p);
    var c := ModPow(FirstNonResidue(2, p), 2 * k + 1, p);
    InitialSquare(r0, x, p);
    if n == 1 {
      assert x * n == x;
    } else {
      assert GeneralFrom(x, p, s, k) == TonelliShanksLoop(r, n, c, s, p);
      MulNonNeg(r0, r0);
      MulNonNeg(Rem(r0 * r0, p), x);
      LoopRootSquares(r, n, c, s, p, x);
    }
  }

  /** Outside the p = 3 (mod 4) path, a root r returned for a in [-p, p) squares to a
      modulo p, unless r^2 = 0 (mod p); the general path checks n = 1 on exit, and the
      loop keeps r^2 = a n. */
  lemma TonelliShanksSquares(a: int, p: int)
    requires p >= 2 && -p <= a < p && (p == 2 || p % 4 != 3)
    requires TonelliShanks(a, p).Root?
    ensures var r := TonelliShanks(a, p).r; Cong(r * r, Lift(a, p), p) || Cong(r * r, 0, p)
  {
    var x := Lift(a, p);
    if x == 0 {
    } else if p == 2 {
      assert x == 1;
    } else {
      assert TonelliShanks(a, p) == GeneralFrom(x, p, TwoCount(p - 1), (OddPart(p - 1) - 1) / 2);
      GeneralFromSquares(x, p, TwoCount(p - 1), (OddPart(p - 1) - 1) / 2);
    }
  }

  /** On the fast path, r = a^((p+1)/4) squares to a whenever a^((p-1)/2) = 1 (mod p),
      which Euler's criterion gives for a quadratic residue modulo a prime p. */
  lemma FastPathSquares(a: int, p: int)
    requires p >= 3 && p % 4 == 3
    requires ModPow(a, (p - 1) / 2, p) == 1
    ensures var r := ModPow(a, (p + 1) / 4, p); (r * r) % p == a % p
  {
    var e := (p + 1) / 4;
    var h := (p - 1) / 2;
    var q := p / 4;
    DivUnique(p, 4, q, 3);
    DivUnique(p + 1, 4, q + 1, 0);
    DivUnique(p - 1, 2, 2 * q + 1, 0);
    SquareOfHalfPower(a, e, h, p);
  }

  /** With 2 e = h + 1 and a^h = 1, (a^e)^2 = a (mod p). */
  lemma SquareOfHalfPower(a: int, e: nat, h: nat, p: int)
    requires p >= 2 && e + e == h + 1 && ModPow(a, h, p) == 1
    ensures var r := ModPow(a, e, p); (r * r) % p == a % p
  {
    var r := ModPow(a, e, p);
    var a1 := ModPow(a, 1, p);
    ModPowAdd(a, e, e, p);
    ModPowAdd(a, h, 1, p);
    assert (r * r) % p == (1 * a1) % p;
    SmallMod(a1, p);
    SmallMod(1, p);
    assert ModPow(a, 0, p) == 1;
    assert a1 == (a * 1) % p;
  }

  // ---------------------------------------------------------------------------
  // Correctness of the general path for a prime modulus

  /** Over a prime, the loop keeps n and c non-zero, so it can only stop at n = 1, where
      r^2 = a n = a. */
  lemma {:induction false} LoopRootSquaresPrime(r: int, n: int, c: int, s: nat, p: int, a: int)
    requires IsPrime(p) && 0 <= n < p && n != 0 && 0 <= c < p && c != 0 && Cong(r * r, a * n, p)
    requires TonelliShanksLoop(r, n, c, s, p).Root?
    ensures var x := TonelliShanksLoop(r, n, c, s, p).r; Cong(x * x, a, p)
    decreases s
  {
    if n <= 1 {
      assert a * n == a;
    } else {
      var i := SquaringsToOne(n, p, s).value;
      var b := ModPow(c, Pow2(s - i - 1), p);
      var c' := Rem(b * b, p);
      StepKeepsSquare(r, n, b, a, p);
      NonZeroStep(n, c, Pow2(s - i - 1), p);
      LoopRootSquaresPrime(Rem(r * b, p), (n * c') % p, c', i, p, a);
    }
  }

  /** Over a prime, a step of the loop keeps the new c and n non-zero. */
  lemma NonZeroStep(n: int, c: int, e: nat, p: int)
    requires IsPrime(p) && 0 < n < p && 0 < c < p
    ensures var b := ModPow(c, e, p); var c' := Rem(b * b, p);
            0 < c' < p && 0 < (n * c') % p < p
  {
    var b := ModPow(c, e, p);
    SmallMod(c, p);
    ModPowNonZero(c, e, p);
    SmallMod(b, p);
    PrimeProduct(b, b, p);
    var c' := Rem(b * b, p);
    assert 0 <= c' < p && Cong(c', b * b, p);
    CongruentMod(c', b * b, p);
    SmallMod(c', p);
    assert c' != 0;
    SmallMod(n, p);
    PrimeProduct(n, c', p);
  }

  /** Over a prime, the general path starts with non-zero n and c. */
  lemma NonZeroStart(x: int, k: nat, z: int, p: int)
    requires IsPrime(p) && 0 < x < p && 2 <= z < p
    ensures var r0 := ModPow(x, k, p); var n := Rem(Rem(r0 * r0, p) * x, p);
            0 < n < p && 0 < ModPow(z, 2 * k + 1, p) < p
  {
    var r0 := ModPow(x, k, p);
    SmallMod(x, p);
    ModPowNonZero(x, k, p);
    SmallMod(r0, p);
    PrimeProduct(r0, r0, p);
    var m := Rem(r0 * r0, p);
    SmallMod(m, p);
    PrimeProduct(m, x, p);
    SmallMod(z, p);
    ModPowNonZero(z, 2 * k + 1, p);
  }

  /** For a prime p outside the p = 3 (mod 4) path that has a quadratic non-residue below it
      (every odd prime has one), a root Ressol returns squares to a modulo p. */
  lemma TonelliShanksSquaresPrime(a: int, p: int)
    requires IsPrime(p) && -p <= a < p && (p == 2 || p % 4 != 3)
    requires p > 2 ==> exists z :: 2 <= z < p && JacobiSymbol(z, p) != 1
    requires TonelliShanks(a, p).Root?
    ensures var r := TonelliShanks(a, p).r; Cong(r * r, Lift(a, p), p)
  {
    var x := Lift(a, p);
    if x == 0 || p == 2 {
      TonelliShanksSquares(a, p);
      if x != 0 {
        assert x == 1;
      }
    } else {
      var z :| 2 <= z < p && JacobiSymbol(z, p) != 1;
      assert FirstNonResidue(2, p) <= z;
      assert TonelliShanks(a, p) == GeneralFrom(x, p, TwoCount(p - 1), (OddPart(p - 1) - 1) / 2);
      GeneralFromSquaresPrime(x, p, TwoCount(p - 1), (OddPart(p - 1) - 1) / 2);
    }
  }

  /** For a prime p whose first non-residue lies below p, the general path's root squares
      to x modulo p. */
  lemma GeneralFromSquaresPrime(x: int, p: int, s: nat, k: nat)
    requires IsPrime(p) && 0 < x < p && FirstNonResidue(2, p) < p
    requires GeneralFrom(x, p, s, k).Root?
    ensures var r := GeneralFrom(x, p, s, k).r; Cong(r * r, x, p)
  {
    var r0 := ModPow(x, k, p);
    var n := Rem(Rem(r0 * r0, p) * x, p);
    var r := Rem(r0 * x, p);
    InitialSquare(r0, x, p);
    if n == 1 {
      assert x * n == x;
    } else {
      var z := FirstNonResidue(2, p);
      NonZeroStart(x, k, z, p);
      LoopRootSquaresPrime(r, n, ModPow(z, 2 * k + 1, p), s, p, x);
    }
  }
}
