/** Recovery of the public keys that could have produced an ECDSA signature (r, s) over a
    hash, after section 4.1.6 of SEC 1 version 2.0 (Public Key Recovery Operation), as the
    tool implements it: each recovery id 0..3 selects an x coordinate (r or r + n) and a
    parity of y, the point R with that x is reconstructed, and the candidate key is
    r^-1 (s R - z G), computed as s1 G + s2 R with Shamir's trick. */
module EcdsaFinder {
  import opened Arith
  import opened Wrappers
  import opened Bytes
  import opened IntegerFunctions
  import opened Points

  /** The curve parameters recovery uses: the field prime p, the coefficients a and b of
      y^2 = x^3 + a x + b, the base point g of order n, and the curve library's point
      addition and point validation. */
  datatype Domain = Domain(p: int, a: int, b: int, g: Point, n: int,
                           add: (Point, Point) -> Point, isValid: Point -> bool)

  /** What the named curves the tool uses satisfy: an odd field prime, coefficients that
      are field elements, and an order of at least 2. */
  predicate WellFormed(d: Domain)
  {
    d.p >= 3 && d.p % 2 == 1 && 0 <= d.a < d.p && 0 <= d.b < d.p && d.n >= 2
  }

  /** Why a recovery id yields no key. The first three are the null results of RecoverPubKey,
      the others exceptions that the candidate loop catches. */
  datatype Rejection =
    | InvalidR       // r outside [1, n - 1]
    | InvalidS       // s outside [1, n - 1]
    | NoPointForX    // no curve point with that x and parity of y
    | WrongOrder     // n R is not the identity
    | NotInvertible  // r has no inverse modulo n
    | EmptyHash      // the hash has no hex digits to parse

  datatype Candidate = Recovered(key: Point) | Rejected(why: Rejection)

  // ---------------------------------------------------------------------------
  // Point from x

  /** x^3 + a x + b reduced modulo p, the product a x taken in the field. */
  function CurveRhs(d: Domain, x: int): int
    requires WellFormed(d)
  {
    (x * x * x + (d.a * x) % d.p + d.b) % d.p
  }

  /** The y coordinate for the root beta: p - beta when the parity of beta is not the one
      requested. */
  function ChooseY(beta: int, p: int, isOdd: bool): int
  {
    if (beta % 2 == 0) != !isOdd then p - beta else beta
  }

  /** The point with x coordinate x and y of the requested parity, or None where the
      PointFromX in EcdsaFinder fails: x is not a field element, the right-hand side has no
      square root, or the flipped root is p itself. */
  function DecompressX(d: Domain, x: int, isOdd: bool): Option<Point>
    requires WellFormed(d)
  {
    if x < 0 || x >= d.p then None
    else match TonelliShanks(CurveRhs(d, x), d.p)
      case Root(beta) =>
        var y := ChooseY(beta, d.p, isOdd);
        if 0 <= y < d.p then Some(Affine(x, y)) else None
      case _ => None
  }

  method PointFromX(d: Domain, x: int, isOdd: bool) returns (res: Option<Point>)
    requires WellFormed(d)
    ensures res == DecompressX(d, x, isOdd)
  {
    var p := d.p;
    if x < 0 || x >= p {
      return None;
    }
    var alpha := (x * x * x + (d.a * x) % p + d.b) % p;
    assert alpha == CurveRhs(d, x);
    var root := Ressol(alpha, p);
    DecompressInRange(d, x, isOdd);
    if !root.Root? {
      return None;
    }
    var beta := root.r;
    if (beta % 2 == 0) != !isOdd {
      beta := p - beta;
    }
    assert beta == ChooseY(root.r, p, isOdd);
    if beta < 0 || beta >= p {
      return None;
    }
    return Some(Affine(x, beta));
  }

  /** For x in the field, the point comes from the root of x^3 + a x + b, if any. */
  lemma DecompressInRange(d: Domain, x: int, isOdd: bool)
    requires WellFormed(d) && 0 <= x < d.p
    ensures DecompressX(d, x, isOdd)
            == match TonelliShanks(CurveRhs(d, x), d.p)
               case Root(beta) => (if 0 <= ChooseY(beta, d.p, isOdd) < d.p then Some(Affine(x, ChooseY(beta, d.p, isOdd))) else None)
               case _ => None
  {
  }

  /** A reconstructed point has the given x, a y in [0, p), and y is odd exactly when an
      odd y was asked for. */
  lemma DecompressShape(d: Domain, x: int, isOdd: bool)
    requires WellFormed(d) && DecompressX(d, x, isOdd).Some?
    ensures var P := DecompressX(d, x, isOdd).value;
            P.Affine? && P.x == x && 0 <= x < d.p && 0 <= P.y < d.p && (P.y % 2 == 1 <==> isOdd)
  {
    var beta := TonelliShanks(CurveRhs(d, x), d.p).r;
    assert DecompressX(d, x, isOdd) == Some(Affine(x, ChooseY(beta, d.p, isOdd)));
    ChooseYParity(beta, d.p, isOdd);
  }

  /** The chosen y has the requested parity: p - beta flips the parity of beta for odd p. */
  lemma ChooseYParity(beta: int, p: int, isOdd: bool)
    requires p % 2 == 1
    ensures ChooseY(beta, p, isOdd) % 2 == 1 <==> isOdd
  {
    if (beta % 2 == 0) != !isOdd {
      assert (p - beta) % 2 == (if beta % 2 == 0 then 1 else 0);
    }
  }

  /** The only way a root leads to no point is beta = 0 with an odd y requested. */
  lemma DecompressFailsOnlyAtZero(d: Domain, x: int, isOdd: bool)
    requires WellFormed(d) && 0 <= x < d.p
    requires TonelliShanks(CurveRhs(d, x), d.p).Root?
    ensures DecompressX(d, x, isOdd).None? <==> TonelliShanks(CurveRhs(d, x), d.p).r == 0 && isOdd
  {
    TonelliShanksRange(CurveRhs(d, x), d.p);
  }

  /** The reconstructed point is on the curve, y^2 = x^3 + a x + b (mod p), whenever the
      modular root returned for the right-hand side squares to it (which the lemmas on
      TonelliShanks give for a prime p). */
  lemma DecompressOnCurve(d: Domain, x: int, isOdd: bool)
    requires WellFormed(d) && DecompressX(d, x, isOdd).Some?
    requires var t := TonelliShanks(CurveRhs(d, x), d.p); Cong(t.r * t.r, CurveRhs(d, x), d.p)
    ensures var P := DecompressX(d, x, isOdd).value; Cong(P.y * P.y, x * x * x + d.a * x + d.b, d.p)
  {
    var p := d.p;
    var beta := TonelliShanks(CurveRhs(d, x), p).r;
    var y := DecompressX(d, x, isOdd).value.y;
    if y != beta {
      FlipSquare(beta, p);
      CongruentTrans(y * y, beta * beta, CurveRhs(d, x), p);
    }
    RhsCongruent(d, x);
    CongruentTrans(y * y, CurveRhs(d, x), x * x * x + d.a * x + d.b, p);
  }

  /** (p - beta)^2 = beta^2 (mod p). */
  lemma FlipSquare(beta: int, p: int)
    requires p > 0
    ensures Cong((p - beta) * (p - beta), beta * beta, p)
  {
    assert (p - beta) * (p - beta) == p * (p - 2 * beta) + beta * beta;
    ShiftMod(p, p - 2 * beta, beta * beta);
    CongruentMod((p - beta) * (p - beta), beta * beta, p);
  }

  lemma RhsCongruent(d: Domain, x: int)
    requires WellFormed(d)
    ensures Cong(CurveRhs(d, x), x * x * x + d.a * x + d.b, d.p)
  {
    var p := d.p;
    var c := x * x * x + d.b;
    var u := c + (d.a * x) % p;
    assert CurveRhs(d, x) == u % p;
    CongReduce(u, p);
    CongReduce(d.a * x, p);
    CongAdd(c, c, (d.a * x) % p, d.a * x, p);
    CongruentTrans(CurveRhs(d, x), u, c + d.a * x, p);
  }

  // ---------------------------------------------------------------------------
  // The hash as an integer

  /** z cut down to the bit length of n by shifting out its low bits; the shift is measured
      from the bit length of z itself. */
  function TruncateHash(z: nat, n: nat): nat
  {
    if BitLength(z) > BitLength(n) then Shr(z, BitLength(z) - BitLength(n)) else z
  }

  /** The truncated value has min(bitlen(z), bitlen(n)) bits, and is the top bits of z. */
  lemma TruncateHashBits(z: nat, n: nat)
    ensures BitLength(TruncateHash(z, n)) <= BitLength(n)
    ensures BitLength(TruncateHash(z, n)) == if BitLength(z) > BitLength(n) then BitLength(n) else BitLength(z)
    ensures BitLength(z) <= BitLength(n) ==> TruncateHash(z, n) == z
  {
    if BitLength(z) > BitLength(n) {
      ShrBitLength(z, BitLength(z) - BitLength(n));
    }
  }

  /** The truncation of section 4.1.3 step 5 of SEC 1: the leftmost bitlen(n) bits of the
      hash, counted from its byte width. */
  function Sec1Truncate(hash: seq<byte>, n: nat): nat
  {
    if 8 * |hash| > BitLength(n) then Shr(BigEndian(hash), 8 * |hash| - BitLength(n)) else BigEndian(hash)
  }

  /** The tool's truncation agrees with that of SEC 1 whenever the hash is no wider than n
      or its first bit is set; otherwise it keeps leading zero bits that SEC 1 drops. */
  lemma TruncationAgreesWithSec1(hash: seq<byte>, n: nat)
    requires 8 * |hash| <= BitLength(n) || (|hash| > 0 && hash[0] >= 128)
    ensures TruncateHash(BigEndian(hash), n) == Sec1Truncate(hash, n)
  {
    var z, w := BigEndian(hash), 8 * |hash|;
    BigEndianBitLength(hash);
    if w > BitLength(n) {
      LeadingBitSet(hash);
    }
    TruncateByWidth(z, n, w);
  }

  /** For a value of at most w bits, and of exactly w bits when w exceeds the bit length
      of n, truncating by its own bit length is truncating by w. */
  lemma TruncateByWidth(z: nat, n: nat, w: nat)
    requires BitLength(z) <= w && (w > BitLength(n) ==> BitLength(z) == w)
    ensures TruncateHash(z, n) == if w > BitLength(n) then Shr(z, w - BitLength(n)) else z
  {
  }

  /** With its first bit set, a k-byte value has exactly 8 k bits. */
  lemma LeadingBitSet(hash: seq<byte>)
    requires |hash| > 0 && hash[0] >= 128
    ensures BitLength(BigEndian(hash)) == 8 * |hash|
  {
    var w := Pow256(|hash| - 1);
    BigEndianLeading(hash);
    MulMonotone(128, hash[0], w);
    Pow256IsPow2(|hash| - 1);
    Pow2Add(7, 8 * (|hash| - 1));
    assert Pow2(7) == 128;
    assert Pow2(8 * |hash| - 1) == 128 * w;
    BitLengthAtLeast(BigEndian(hash), 8 * |hash|);
    BigEndianBitLength(hash);
  }

  lemma {:induction false} MulMonotone(a: nat, b: nat, c: nat)
    requires a <= b
    ensures a * c <= b * c
  {
    if c > 0 {
      MulMonotone(a, b, c - 1);
      assert a * c == a * (c - 1) + a && b * c == b * (c - 1) + b;
    }
  }

  /** A big-endian value is at least its first byte times the weight of that byte. */
  lemma {:induction false} BigEndianLeading(bs: seq<byte>)
    requires |bs| > 0
    ensures BigEndian(bs) >= bs[0] * Pow256(|bs| - 1)
  {
    if |bs| > 1 {
      var init := bs[..|bs| - 1];
      BigEndianLeading(init);
      assert init[0] == bs[0];
      assert bs[0] * Pow256(|bs| - 1) == (bs[0] * Pow256(|bs| - 2)) * 256;
    }
  }

  // ---------------------------------------------------------------------------
  // The two scalars

  /** s1 = (n - z) r^-1 mod n, the coefficient of G. */
  function S1(n: int, z: int, rInv: int): nat
    requires n > 0
  {
    ((n - z) * rInv) % n
  }

  /** s2 = s r^-1 mod n, the coefficient of R. */
  function S2(n: int, s: int, rInv: int): nat
    requires n > 0
  {
    (s * rInv) % n
  }

  /** With r^-1 an inverse of r modulo n, s1 r = -z and s2 r = s modulo n, and both lie in
      [0, n). */
  lemma CoefficientsCongruent(n: int, r: int, s: int, z: int, rInv: int)
    requires n >= 2 && (r * rInv) % n == 1
    ensures S1(n, z, rInv) < n && S2(n, s, rInv) < n
    ensures Cong(S1(n, z, rInv) * r, -z, n)
    ensures Cong(S2(n, s, rInv) * r, s, n)
  {
    CongruentMod(r * rInv, 1, n);
    ScaledInverse(n, r, n - z, rInv);
    ScaledInverse(n, r, s, rInv);
    ShiftMod(n, 1, -z);
    CongruentMod(n - z, -z, n);
    CongruentTrans(S1(n, z, rInv) * r, n - z, -z, n);
  }

  /** ((c r^-1) mod n) r = c modulo n. */
  lemma ScaledInverse(n: int, r: int, c: int, rInv: int)
    requires n >= 2 && Cong(r * rInv, 1, n)
    ensures Cong(((c * rInv) % n) * r, c, n)
  {
    var t := (c * rInv) % n;
    CongReduce(c * rInv, n);
    CongScale(t, c * rInv, r, n);
    assert (c * rInv) * r == c * (r * rInv);
    CongScale(r * rInv, 1, c, n);
    CongruentTrans(t * r, c * (r * rInv), c, n);
  }

  // ---------------------------------------------------------------------------
  // One recovery id

  /** The candidate key for recovery id j: bit 0 of j asks for an odd y, bit 1 for
      x = r + n instead of r. */
  function CandidateKey(d: Domain, r: int, s: int, hash: seq<byte>, j: nat): Candidate
    requires WellFormed(d)
  {
    if r <= 0 || r >= d.n then Rejected(InvalidR)
    else if s <= 0 || s >= d.n then Rejected(InvalidS)
    else
      var x := if j / 2 > 0 then r + d.n else r;
      match DecompressX(d, x, j % 2 == 1)
      case None => Rejected(NoPointForX)
      case Some(R) => KeyFromPoint(d, r, s, hash, R)
  }

  /** The rest of a recovery id once R is known: R must have order dividing n, r must be
      invertible modulo n and the hash non-empty; then the key is s1 G + s2 R. */
  function KeyFromPoint(d: Domain, r: int, s: int, hash: seq<byte>, R: Point): Candidate
    requires WellFormed(d)
  {
    var nR := Mul(d.add, R, d.n);
    if nR != Infinity || !d.isValid(nR) then Rejected(WrongOrder)
    else match ModInverse(r, d.n)
      case None => Rejected(NotInvertible)
      case Some(rInv) =>
        if |hash| == 0 then Rejected(EmptyHash)
        else
          var z := TruncateHash(BigEndian(hash), d.n);
          Recovered(d.add(Mul(d.add, d.g, S1(d.n, z, rInv)), Mul(d.add, R, S2(d.n, s, rInv))))
  }

  /** Once r and s are in range, a candidate is decided by the point for x and parity. */
  lemma CandidateAfterRanges(d: Domain, r: int, s: int, hash: seq<byte>, j: nat)
    requires WellFormed(d) && 0 < r < d.n && 0 < s < d.n
    ensures CandidateKey(d, r, s, hash, j)
            == match DecompressX(d, if j / 2 > 0 then r + d.n else r, j % 2 == 1)
               case None => Rejected(NoPointForX)
               case Some(R) => KeyFromPoint(d, r, s, hash, R)
  {
  }

  /** One recovery id, step by step as EcdsaFinder's RecoverPubKey does it. */
  method RecoverPubKey(d: Domain, r: int, s: int, hash: seq<byte>, j: nat) returns (c: Candidate)
    requires WellFormed(d) && GroupLaws(d.add)
    ensures c == CandidateKey(d, r, s, hash, j)
  {
    var n := d.n;
    var isYOdd := j % 2 > 0;
    var isSecondKey := j / 2 > 0;
    if r <= 0 || r >= n {
      return Rejected(InvalidR);
    }
    if s <= 0 || s >= n {
      return Rejected(InvalidS);
    }
    var x := if isSecondKey then r + n else r;
    var rPoint := PointFromX(d, x, isYOdd);
    assert isYOdd == (j % 2 == 1);
    assert rPoint == DecompressX(d, if j / 2 > 0 then r + d.n else r, j % 2 == 1);
    CandidateAfterRanges(d, r, s, hash, j);
    if rPoint.None? {
      return Rejected(NoPointForX);
    }
    c := RecoverFromPoint(d, r, s, hash, rPoint.value);
  }

  /** The steps of RecoverPubKey after R has been found. */
  method RecoverFromPoint(d: Domain, r: int, s: int, hash: seq<byte>, rPoint: Point) returns (c: Candidate)
    requires WellFormed(d) && GroupLaws(d.add)
    ensures c == KeyFromPoint(d, r, s, hash, rPoint)
  {
    var n := d.n;
    var nR := Mul(d.add, rPoint, n);
    if nR != Infinity || !d.isValid(nR) {
      return Rejected(WrongOrder);
    }
    var inverse := ModInverse(r, n);
    if inverse.None? {
      return Rejected(NotInvertible);
    }
    var rInv := inverse.value;
    if |hash| == 0 {
      return Rejected(EmptyHash);
    }
    var z := BigEndian(hash);
    if BitLength(z) > BitLength(n) {
      z := Shr(z, BitLength(z) - BitLength(n));
    }
    var s1 := ((n - z) * rInv) % n;
    var s2 := (s * rInv) % n;
    var q := MultiplyTwo(d.add, d.g, s1, rPoint, s2);
    return Recovered(q);
  }

  /** No recovery id yields a key when r or s lies outside [1, n - 1]. */
  lemma RejectsOutOfRange(d: Domain, r: int, s: int, hash: seq<byte>, j: nat)
    requires WellFormed(d)
    requires !(1 <= r < d.n) || !(1 <= s < d.n)
    ensures CandidateKey(d, r, s, hash, j).Rejected?
    ensures CandidateKey(d, r, s, hash, j).why == if 1 <= r < d.n then InvalidS else InvalidR
  {
  }

  /** A key is recovered only from a valid (r, s), a non-empty hash and a point R of order
      dividing n whose x is r (ids 0, 1) or r + n (ids 2, 3) and whose y is odd exactly for
      the odd ids; and then it is s1 G + s2 R for the inverse of r modulo n. */
  lemma RecoveredFrom(d: Domain, r: int, s: int, hash: seq<byte>, j: nat)
    requires WellFormed(d) && CandidateKey(d, r, s, hash, j).Recovered?
    ensures 1 <= r < d.n && 1 <= s < d.n && |hash| > 0 && ModInverse(r, d.n).Some?
    ensures var R := DecompressX(d, if j >= 2 then r + d.n else r, j % 2 == 1);
            && R.Some? && R.value.Affine? && R.value.x == (if j >= 2 then r + d.n else r)
            && (R.value.y % 2 == 1 <==> j % 2 == 1)
            && Mul(d.add, R.value, d.n) == Infinity
            && CandidateKey(d, r, s, hash, j).key
               == d.add(Mul(d.add, d.g, S1(d.n, TruncateHash(BigEndian(hash), d.n), ModInverse(r, d.n).value)),
                        Mul(d.add, R.value, S2(d.n, s, ModInverse(r, d.n).value)))
  {
    var x := if j >= 2 then r + d.n else r;
    assert (j / 2 > 0) == (j >= 2);
    var R := DecompressX(d, x, j % 2 == 1);
    assert R.Some?;
    DecompressShape(d, x, j % 2 == 1);
    var rInv := ModInverse(r, d.n);
    assert rInv.Some?;
    var z := TruncateHash(BigEndian(hash), d.n);
    assert CandidateKey(d, r, s, hash, j)
           == Recovered(d.add(Mul(d.add, d.g, S1(d.n, z, rInv.value)), Mul(d.add, R.value, S2(d.n, s, rInv.value))));
  }

  // ---------------------------------------------------------------------------
  // The signer's key is among the candidates

  /** If R = k G for the signer's nonce k, s k = z + r priv (mod n) and r r^-1 = 1 (mod n),
      then s1 G + s2 R = priv G: recovery returns the signer's public key. */
  lemma RecoveryCorrect(add: (Point, Point) -> Point, G: Point, n: int, r: int, s: int, z: int,
                        rInv: int, k: nat, priv: nat)
    requires GroupLaws(add) && n >= 2 && Mul(add, G, n) == Infinity
    requires (r * rInv) % n == 1
    requires Cong(s * k, z + r * priv, n)
    ensures add(Mul(add, G, S1(n, z, rInv)), Mul(add, Mul(add, G, k), S2(n, s, rInv))) == Mul(add, G, priv)
  {
    var s1, s2 := S1(n, z, rInv), S2(n, s, rInv);
    MulMul(add, G, k, s2);
    MulAdd(add, G, s1, k * s2);
    ScalarsCombine(n, r, s, z, rInv, k, priv);
    MulModOrder(add, G, n, s1 + k * s2);
    MulModOrder(add, G, n, priv);
  }

  /** s1 + k s2 = priv modulo n, under the hypotheses of RecoveryCorrect. */
  lemma ScalarsCombine(n: int, r: int, s: int, z: int, rInv: int, k: nat, priv: nat)
    requires n >= 2 && (r * rInv) % n == 1
    requires Cong(s * k, z + r * priv, n)
    ensures (S1(n, z, rInv) + k * S2(n, s, rInv)) % n == priv % n
  {
    var s1, s2 := S1(n, z, rInv), S2(n, s, rInv);
    CoefficientsCongruent(n, r, s, z, rInv);
    CombinedTimesR(n, r, s, z, s1, s2, k, priv);
    CancelInverse(n, r, rInv, s1 + k * s2, priv);
  }

  /** (s1 + k s2) r = -z + k s = r priv (mod n). */
  lemma CombinedTimesR(n: int, r: int, s: int, z: int, s1: int, s2: int, k: int, priv: int)
    requires n >= 2 && Cong(s1 * r, -z, n) && Cong(s2 * r, s, n)
    requires Cong(s * k, z + r * priv, n)
    ensures Cong((s1 + k * s2) * r, r * priv, n)
  {
    var A := s1 + k * s2;
    CongScale(s2 * r, s, k, n);
    CongAdd(s1 * r, -z, k * (s2 * r), k * s, n);
    assert A * r == s1 * r + k * (s2 * r) by {
      MulDistrib(s1, k * s2, r);
      MulAssoc(k, s2, r);
    }
    assert k * s == s * k;
    CongAdd(-z, -z, s * k, z + r * priv, n);
    CongruentTrans(A * r, -z + s * k, r * priv, n);
  }

  /** A r = priv r (mod n) and r rInv = 1 (mod n) give A = priv (mod n). */
  lemma CancelInverse(n: int, r: int, rInv: int, A: int, priv: int)
    requires n >= 2 && (r * rInv) % n == 1
    requires Cong(A * r, r * priv, n)
    ensures A % n == priv % n
  {
    var u := r * rInv;
    CongScale(A * r, r * priv, rInv, n);
    CongruentMod(u, 1, n);
    CongScale(u, 1, A, n);
    CongScale(u, 1, priv, n);
    MulAssoc(A, r, rInv);
    MulAssoc(priv, r, rInv);
    assert (r * priv) * rInv == (priv * r) * rInv;
    CongSym(A * u, A, n);
    CongruentTrans(A, A * u, priv * u, n);
    CongruentTrans(A, priv * u, priv, n);
    CongruentMod(A, priv, n);
  }

  /** For the recovery id whose R is the signer's nonce point k G, the recovered key is the
      signer's public key priv G. */
  lemma RecoveredKeyIsSigners(d: Domain, r: int, s: int, hash: seq<byte>, j: nat, k: nat, priv: nat)
    requires WellFormed(d) && GroupLaws(d.add) && Mul(d.add, d.g, d.n) == Infinity
    requires CandidateKey(d, r, s, hash, j).Recovered?
    requires DecompressX(d, if j / 2 > 0 then r + d.n else r, j % 2 == 1) == Some(Mul(d.add, d.g, k))
    requires Cong(s * k, TruncateHash(BigEndian(hash), d.n) + r * priv, d.n)
    ensures CandidateKey(d, r, s, hash, j).key == Mul(d.add, d.g, priv)
  {
    RecoveredFrom(d, r, s, hash, j);
    assert (j / 2 > 0) == (j >= 2);
    var rInv := ModInverse(r, d.n).value;
    RecoveryCorrect(d.add, d.g, d.n, r, s, TruncateHash(BigEndian(hash), d.n), rInv, k, priv);
  }

  // ---------------------------------------------------------------------------
  // All four recovery ids

  /** A recovered point becomes a public key only when it is not the identity and is
      valid (ECPublicKeyParameters), and is kept only when the signature verifies under it. */
  predicate Accepts(d: Domain, verify: Point -> bool, q: Point)
  {
    q != Infinity && d.isValid(q) && verify(q)
  }

  /** What the loop keeps of one candidate: its key, when accepted. */
  function Kept(d: Domain, verify: Point -> bool, c: Candidate): seq<Point>
  {
    if c.Recovered? && Accepts(d, verify, c.key) then [c.key] else []
  }

  /** The candidates of recovery ids 0..i-1, in id order. */
  function Candidates(d: Domain, r: int, s: int, hash: seq<byte>, i: nat): seq<Candidate>
    requires WellFormed(d)
  {
    seq(i, j requires 0 <= j < i => CandidateKey(d, r, s, hash, j))
  }

  /** The keys kept from a sequence of candidates, in order. */
  function KeptAll(d: Domain, verify: Point -> bool, cs: seq<Candidate>): seq<Point>
  {
    if cs == [] then [] else KeptAll(d, verify, cs[..|cs| - 1]) + Kept(d, verify, cs[|cs| - 1])
  }

  /** The keys kept for recovery ids 0..i-1, in increasing id order. */
  function AcceptedKeys(d: Domain, r: int, s: int, hash: seq<byte>, verify: Point -> bool, i: nat): seq<Point>
    requires WellFormed(d)
  {
    KeptAll(d, verify, Candidates(d, r, s, hash, i))
  }

  /** The candidate loop: every recovery id 0..3, keeping the keys under which the signature
      verifies; any failure of one id only drops that id. */
  method RecoverPublicKey(d: Domain, r: int, s: int, hash: seq<byte>, verify: Point -> bool)
    returns (points: seq<Point>)
    requires WellFormed(d) && GroupLaws(d.add)
    ensures points == AcceptedKeys(d, r, s, hash, verify, 4)
  {
    ghost var all := Candidates(d, r, s, hash, 4);
    points := [];
    var i := 0;
    while i < 4
      invariant 0 <= i <= 4
      invariant points == KeptAll(d, verify, all[..i])
    {
      var c := RecoverPubKey(d, r, s, hash, i);
      assert all[..i + 1][..i] == all[..i];
      if c.Recovered? && c.key != Infinity && d.isValid(c.key) && verify(c.key) {
        points := points + [c.key];
      }
      i := i + 1;
    }
    assert all[..4] == all;
  }

  /** At most one key per candidate, each accepted and recovered by one of them. */
  lemma {:induction false} KeptAllSound(d: Domain, verify: Point -> bool, cs: seq<Candidate>)
    ensures |KeptAll(d, verify, cs)| <= |cs|
    ensures forall q :: q in KeptAll(d, verify, cs) ==>
              Accepts(d, verify, q) && exists j :: 0 <= j < |cs| && cs[j] == Recovered(q)
  {
    if cs != [] {
      var prev := cs[..|cs| - 1];
      KeptAllSound(d, verify, prev);
      forall q | q in KeptAll(d, verify, cs)
        ensures exists j :: 0 <= j < |cs| && cs[j] == Recovered(q)
      {
        if q in KeptAll(d, verify, prev) {
          var j :| 0 <= j < |prev| && prev[j] == Recovered(q);
          assert cs[j] == Recovered(q);
        } else {
          assert cs[|cs| - 1] == Recovered(q);
        }
      }
    }
  }

  /** Every accepted candidate contributes its key. */
  lemma {:induction false} KeptAllComplete(d: Domain, verify: Point -> bool, cs: seq<Candidate>, j: nat)
    requires j < |cs| && cs[j].Recovered? && Accepts(d, verify, cs[j].key)
    ensures cs[j].key in KeptAll(d, verify, cs)
  {
    var prev := cs[..|cs| - 1];
    if j < |cs| - 1 {
      assert prev[j] == cs[j];
      KeptAllComplete(d, verify, prev, j);
    }
  }

  /** Candidates that are all rejected keep nothing. */
  lemma {:induction false} KeptAllRejected(d: Domain, verify: Point -> bool, cs: seq<Candidate>)
    requires forall j :: 0 <= j < |cs| ==> cs[j].Rejected?
    ensures KeptAll(d, verify, cs) == []
  {
    if cs != [] {
      KeptAllRejected(d, verify, cs[..|cs| - 1]);
    }
  }

  /** At most i keys come from ids below i, each accepted and recovered by one of them. */
  lemma AcceptedKeysSound(d: Domain, r: int, s: int, hash: seq<byte>, verify: Point -> bool, i: nat)
    requires WellFormed(d)
    ensures |AcceptedKeys(d, r, s, hash, verify, i)| <= i
    ensures forall q :: q in AcceptedKeys(d, r, s, hash, verify, i) ==>
              Accepts(d, verify, q) && exists j :: 0 <= j < i && CandidateKey(d, r, s, hash, j) == Recovered(q)
  {
    var cs := Candidates(d, r, s, hash, i);
    KeptAllSound(d, verify, cs);
    forall q | q in AcceptedKeys(d, r, s, hash, verify, i)
      ensures exists j :: 0 <= j < i && CandidateKey(d, r, s, hash, j) == Recovered(q)
    {
      var j :| 0 <= j < |cs| && cs[j] == Recovered(q);
    }
  }

  /** Every id below i whose candidate is accepted contributes its key. */
  lemma AcceptedKeysComplete(d: Domain, r: int, s: int, hash: seq<byte>, verify: Point -> bool, i: nat, j: nat)
    requires WellFormed(d) && j < i
    requires CandidateKey(d, r, s, hash, j).Recovered? && Accepts(d, verify, CandidateKey(d, r, s, hash, j).key)
    ensures CandidateKey(d, r, s, hash, j).key in AcceptedKeys(d, r, s, hash, verify, i)
  {
    KeptAllComplete(d, verify, Candidates(d, r, s, hash, i), j);
  }

  /** An (r, s) outside [1, n - 1] yields no key at all. */
  lemma NoKeysForInvalidSignature(d: Domain, r: int, s: int, hash: seq<byte>, verify: Point -> bool, i: nat)
    requires WellFormed(d)
    requires !(1 <= r < d.n) || !(1 <= s < d.n)
    ensures AcceptedKeys(d, r, s, hash, verify, i) == []
  {
    var cs := Candidates(d, r, s, hash, i);
    forall j | 0 <= j < |cs|
      ensures cs[j].Rejected?
    {
      RejectsOutOfRange(d, r, s, hash, j);
    }
    KeptAllRejected(d, verify, cs);
  }
}
