/** Elliptic-curve points as the recovery code handles them. The field arithmetic behind
    point addition lives in the curve library and is not part of this model: the addition of
    a curve is a parameter, and the proofs use only the laws of a commutative group with
    the point at infinity as identity. */
module Points {
  import opened Arith

  /** A normalised point: the identity, or affine coordinates. Two points are equal exactly
      when both coordinates are. */
  datatype Point = Infinity | Affine(x: int, y: int)

  /** The laws of the curve's point addition that the proofs rely on: Infinity is the
      identity, and addition is commutative and associative. */
  ghost predicate GroupLaws(add: (Point, Point) -> Point)
  {
    && (forall P :: add(Infinity, P) == P)
    && (forall P, Q {:trigger add(P, Q), add(Q, P)} :: add(P, Q) == add(Q, P))
    && (forall P, Q, R {:trigger add(add(P, Q), R), add(P, add(Q, R))} :: add(add(P, Q), R) == add(P, add(Q, R)))
  }

  /** Commutativity for one pair of points. */
  lemma Comm(add: (Point, Point) -> Point, P: Point, Q: Point)
    requires GroupLaws(add)
    ensures add(P, Q) == add(Q, P)
  {
    assert add(Q, P) == add(Q, P);
  }

  /** Associativity for one triple of points. */
  lemma Assoc(add: (Point, Point) -> Point, P: Point, Q: Point, R: Point)
    requires GroupLaws(add)
    ensures add(add(P, Q), R) == add(P, add(Q, R))
  {
    assert add(P, add(Q, R)) == add(P, add(Q, R));
  }

  /** Scalar multiple n P: P added to the identity n times. */
  function Mul(add: (Point, Point) -> Point, P: Point, n: nat): Point
  {
    if n == 0 then Infinity else add(Mul(add, P, n - 1), P)
  }

  /** (a + b) P = a P + b P. */
  lemma {:induction false} MulAdd(add: (Point, Point) -> Point, P: Point, a: nat, b: nat)
    requires GroupLaws(add)
    ensures Mul(add, P, a + b) == add(Mul(add, P, a), Mul(add, P, b))
  {
    if b == 0 {
      Comm(add, Mul(add, P, a), Infinity);
    } else {
      MulAdd(add, P, a, b - 1);
      assert Mul(add, P, a + b) == add(Mul(add, P, a + b - 1), P);
    }
  }

  /** b (a P) = (a b) P. */
  lemma {:induction false} MulMul(add: (Point, Point) -> Point, P: Point, a: nat, b: nat)
    requires GroupLaws(add)
    ensures Mul(add, Mul(add, P, a), b) == Mul(add, P, a * b)
  {
    if b > 0 {
      MulMul(add, P, a, b - 1);
      MulAdd(add, P, a * (b - 1), a);
      assert a * (b - 1) + a == a * b;
    }
  }

  /** Every multiple of the identity is the identity. */
  lemma {:induction false} MulInfinity(add: (Point, Point) -> Point, b: nat)
    requires GroupLaws(add)
    ensures Mul(add, Infinity, b) == Infinity
  {
    if b > 0 {
      MulInfinity(add, b - 1);
    }
  }

  /** When n P is the identity, scalars act on P modulo n. */
  lemma MulModOrder(add: (Point, Point) -> Point, P: Point, n: nat, k: nat)
    requires GroupLaws(add) && n > 0 && Mul(add, P, n) == Infinity
    ensures Mul(add, P, k) == Mul(add, P, k % n)
  {
    var q := k / n;
    assert k == n * q + k % n;
    MulAdd(add, P, n * q, k % n);
    MulMul(add, P, n, q);
    MulInfinity(add, q);
  }

  /** (A + B) + (C + D) = (A + C) + (B + D). */
  lemma Interchange(add: (Point, Point) -> Point, A: Point, B: Point, C: Point, D: Point)
    requires GroupLaws(add)
    ensures add(add(A, B), add(C, D)) == add(add(A, C), add(B, D))
  {
    calc {
      add(add(A, B), add(C, D));
      add(A, add(B, add(C, D)));
      { Comm(add, B, C); assert add(B, add(C, D)) == add(add(B, C), D) == add(add(C, B), D) == add(C, add(B, D)); }
      add(A, add(C, add(B, D)));
      add(add(A, C), add(B, D));
    }
  }

  /** The point Shamir's trick adds after doubling, for the current bits of both scalars. */
  function Addend(add: (Point, Point) -> Point, P: Point, Q: Point, jBit: bool, kBit: bool): Point
  {
    if jBit then (if kBit then add(P, Q) else P)
    else if kBit then Q else Infinity
  }

  function Bit(b: bool): nat
  {
    if b then 1 else 0
  }

  /** Doubling a P + b Q and adding the addend for the bits gives (2a + j) P + (2b + k) Q. */
  lemma ShamirStep(add: (Point, Point) -> Point, P: Point, Q: Point, a: nat, b: nat, jBit: bool, kBit: bool)
    requires GroupLaws(add)
    ensures var r := add(Mul(add, P, a), Mul(add, Q, b));
            add(add(r, r), Addend(add, P, Q, jBit, kBit))
              == add(Mul(add, P, 2 * a + Bit(jBit)), Mul(add, Q, 2 * b + Bit(kBit)))
  {
    var X, Y := Mul(add, P, a), Mul(add, Q, b);
    var X2, Y2 := Mul(add, P, 2 * a), Mul(add, Q, 2 * b);
    Interchange(add, X, Y, X, Y);
    MulAdd(add, P, a, a);
    MulAdd(add, Q, b, b);
    assert add(add(X, Y), add(X, Y)) == add(X2, Y2);
    assert Mul(add, P, 2 * a + 1) == add(X2, P);
    assert Mul(add, Q, 2 * b + 1) == add(Y2, Q);
    if jBit && kBit {
      Interchange(add, X2, Y2, P, Q);
    } else if jBit {
      calc {
        add(add(X2, Y2), P);
        add(X2, add(Y2, P));
        { Comm(add, Y2, P); }
        add(X2, add(P, Y2));
        add(add(X2, P), Y2);
      }
    } else if kBit {
    } else {
      Comm(add, add(X2, Y2), Infinity);
    }
  }

  /** Bit i of x splits x >> i into twice x >> (i+1) plus that bit. */
  lemma BitSplit(x: nat, i: nat)
    ensures Shr(x, i) == 2 * Shr(x, i + 1) + Bit(TestBit(x, i))
  {
    var q := Shr(x, i);
    assert Shr(x, i + 1) == q / 2;
    assert q == 2 * (q / 2) + q % 2;
  }

  /** One iteration of Shamir's trick moves the accumulator from bit i + 1 to bit i. */
  lemma ShamirLoopStep(add: (Point, Point) -> Point, P: Point, Q: Point, j: nat, k: nat, i: nat, r: Point)
    requires GroupLaws(add)
    requires r == add(Mul(add, P, Shr(j, i + 1)), Mul(add, Q, Shr(k, i + 1)))
    ensures add(add(r, r), Addend(add, P, Q, TestBit(j, i), TestBit(k, i)))
              == add(Mul(add, P, Shr(j, i)), Mul(add, Q, Shr(k, i)))
  {
    ShamirStep(add, P, Q, Shr(j, i + 1), Shr(k, i + 1), TestBit(j, i), TestBit(k, i));
    BitSplit(j, i);
    BitSplit(k, i);
  }

  /** Shamir's trick: j P + k Q by one pass over the bits of j and k from the top, doubling
      the accumulator and adding P, Q or the precomputed P + Q for each bit pair. */
  method MultiplyTwo(add: (Point, Point) -> Point, P: Point, j: nat, Q: Point, k: nat) returns (r: Point)
    requires GroupLaws(add)
    ensures r == add(Mul(add, P, j), Mul(add, Q, k))
  {
    var top := if BitLength(j) >= BitLength(k) then BitLength(j) else BitLength(k);
    var i := top - 1;
    r := Infinity;
    var both := add(P, Q);
    ShrPastBitLength(j, top);
    ShrPastBitLength(k, top);
    assert Mul(add, P, Shr(j, top)) == Infinity && Mul(add, Q, Shr(k, top)) == Infinity;
    while i >= 0
      invariant -1 <= i < top
      invariant r == add(Mul(add, P, Shr(j, i + 1)), Mul(add, Q, Shr(k, i + 1)))
      decreases i
    {
      var jBit := TestBit(j, i);
      var kBit := TestBit(k, i);
      ghost var next := add(add(r, r), Addend(add, P, Q, jBit, kBit));
      ShamirLoopStep(add, P, Q, j, k, i, r);
      r := add(r, r);
      if jBit {
        r := add(r, if kBit then both else P);
      } else if kBit {
        r := add(r, Q);
      } else {
        Comm(add, r, Infinity);
      }
      assert r == next;
      i := i - 1;
    }
    assert Shr(j, 0) == j && Shr(k, 0) == k;
  }
}
