/** The secp256k1 group of the `ecdsa` package, as seen by the Schnorr verifier.

    The group is cyclic of prime order `N` and generated by `G`, so every point is `G * d` for
    exactly one `d` in `[0, N)`, its discrete logarithm.  A point is represented here by that
    logarithm: point addition becomes addition modulo `N` and scalar multiplication becomes
    multiplication modulo `N`.  The byte encodings and the affine coordinates of points, which
    depend on the field arithmetic of the curve, are the fields of a `Curve` value. */
module Secp256k1 {
  import opened Wrappers
  import opened Bytes

  /** `SECP256k1.order`. */
  const N: int := 0xFFFFFFFF_FFFFFFFF_FFFFFFFF_FFFFFFFE_BAAEDCE6_AF48A03B_BFD25E8C_D0364141

  type Scalar = d: int | 0 <= d < N

  /** A point, by its discrete logarithm with respect to the generator. */
  datatype Point = Point(dlog: Scalar)

  /** `ellipticcurve.INFINITY`, the neutral element. */
  const Infinity: Point := Point(0)

  /** `SECP256k1.generator`. */
  const G: Point := Point(1)

  /** Point addition, `p + q`. */
  function Add(p: Point, q: Point): Point
  {
    Point((p.dlog + q.dlog) % N)
  }

  /** `a * e` for a natural `e`, as the `e`-fold sum `a + ... + a` (`TimesIsProduct`).  Every
      statement that also reduces modulo `N` multiplies through this function, which keeps
      those statements in linear arithmetic. */
  function Times(a: int, e: nat): (r: int)
    ensures a >= 0 ==> r >= 0
  {
    if e == 0 then 0 else Times(a, e - 1) + a
  }

  /** Scalar multiplication, `p * e`. */
  function Mul(p: Point, e: nat): Point
  {
    Point(Times(p.dlog, e) % N)
  }

  /** The curve-specific encodings, left as parameters:
      `affine(x, y)` is `Point(SECP256k1.curve, x, y)`, `None` where its on-curve assertion fails;
      `fromString(bs)` is `VerifyingKey.from_string(bs, curve=SECP256k1)`, `None` where it raises;
      `compress(p)` is `to_string("compressed")` of the verifying key whose point is `p`. */
  datatype Curve = Curve(
    affine: (int, int) -> Option<Point>,
    fromString: seq<Byte> -> Option<Point>,
    compress: Point -> seq<Byte>)

  /** What the `ecdsa` package guarantees of those encodings: a point given by affine
      coordinates is never the point at infinity, and the compressed encoding of a finite point
      is 33 bytes starting with 0x02 or 0x03 and is read back by `from_string`. */
  ghost predicate ValidCurve(c: Curve)
  {
    && (forall x, y :: c.affine(x, y) != Some(Infinity))
    && (forall p: Point :: p != Infinity ==> |c.compress(p)| == 33)
    && (forall p: Point :: p != Infinity ==> c.compress(p)[0] == 2 || c.compress(p)[0] == 3)
    && (forall p: Point :: p != Infinity ==> c.fromString(c.compress(p)) == Some(p))
  }

  // ---------------------------------------------------------------------------------------
  // Arithmetic modulo a positive number.

  lemma {:induction false} MulAtLeast(k: nat, m: nat)
    requires k >= 1
    ensures k * m >= m
  {
    if k > 1 {
      MulAtLeast(k - 1, m);
      assert k * m == (k - 1) * m + m;
    }
  }

  /** Euclidean division has a unique quotient and remainder. */
  lemma DivModUnique(x: int, q: int, r: int, m: int)
    requires m > 0 && 0 <= r < m && x == q * m + r
    ensures x % m == r && x / m == q
  {
    var d, e := x / m, x % m;
    assert x == d * m + e;
    assert (q - d) * m == e - r;
    if q > d {
      MulAtLeast(q - d, m);
    } else if q < d {
      MulAtLeast(d - q, m);
    }
  }

  lemma ModAdd(a: int, b: int, m: int)
    requires m > 0
    ensures (a % m + b % m) % m == (a + b) % m
    ensures (a % m + b) % m == (a + b) % m
  {
    var s := a % m + b % m;
    DivModUnique(a + b, a / m + b / m + s / m, s % m, m);
    var t := a % m + b;
    DivModUnique(a + b, a / m + t / m, t % m, m);
  }

  lemma ModSub(a: int, b: int, m: int)
    requires m > 0
    ensures (a % m - b % m) % m == (a - b) % m
  {
    var t := a % m - b % m;
    assert a - b == (a / m - b / m) * m + t;
    assert a - b == (a / m - b / m + t / m) * m + t % m;
    DivModUnique(a - b, a / m - b / m + t / m, t % m, m);
  }

  /** The `e`-fold sum is the product `a * e`. */
  lemma {:induction false} TimesIsProduct(a: int, e: nat)
    ensures Times(a, e) == a * e
  {
    if e > 0 {
      TimesIsProduct(a, e - 1);
      assert a * e == a * (e - 1) + a;
    }
  }

  lemma {:induction false} TimesOne(e: nat)
    ensures Times(1, e) == e
  {
    if e > 0 {
      TimesOne(e - 1);
    }
  }

  /** Reducing the summand modulo `N` first does not change the sum modulo `N`. */
  lemma {:induction false} TimesMod(a: int, e: nat)
    ensures Times(a % N, e) % N == Times(a, e) % N
  {
    if e > 0 {
      TimesMod(a, e - 1);
      ModAdd(Times(a % N, e - 1), a % N, N);
      ModAdd(Times(a, e - 1), a, N);
    }
  }

  /** `(k mod N + (x mod N) * e) mod N == (k + x * e) mod N`. */
  lemma LinearMod(k: int, x: int, e: nat)
    ensures (k % N + Times(x % N, e)) % N == (k + Times(x, e)) % N
  {
    TimesMod(x, e);
    ModAdd(k, Times(x % N, e), N);
    ModAdd(Times(x % N, e), k, N);
    ModAdd(k, Times(x, e), N);
    ModAdd(Times(x, e), k, N);
  }

  // ---------------------------------------------------------------------------------------
  // The group laws used by the verifier.

  /** `G * a` is the point whose logarithm is `a mod N`. */
  lemma MulGenerator(a: nat)
    ensures Mul(G, a).dlog == a % N
  {
    TimesOne(a);
  }

  /** For a scalar, `G * a` is the point with logarithm `a`. */
  lemma MulGeneratorScalar(a: Scalar)
    ensures Mul(G, a) == Point(a)
  {
    TimesOne(a);
  }

  /** `G * a` is the point at infinity exactly when `N` divides `a`. */
  lemma MulGeneratorInfinity(a: nat)
    ensures Mul(G, a) == Infinity <==> a % N == 0
  {
    TimesOne(a);
  }

  /** `(G * a) + (G * b) == G * (a + b)`. */
  lemma AddMulGenerator(a: nat, b: nat)
    ensures Add(Mul(G, a), Mul(G, b)) == Mul(G, a + b)
  {
    TimesOne(a);
    TimesOne(b);
    TimesOne(a + b);
    ModAdd(a, b, N);
  }

  /** `(G * a) * b == G * (a * b)`. */
  lemma MulMulGenerator(a: nat, b: nat)
    ensures Mul(Mul(G, a), b) == Mul(G, Times(a, b))
  {
    TimesOne(a);
    TimesOne(Times(a, b));
    TimesMod(a, b);
  }

  /** Every point is `G` times its logarithm. */
  lemma PointIsMultiple(p: Point)
    ensures p == Mul(G, p.dlog)
  {
    TimesOne(p.dlog);
  }

  /** `p + (q * e)` in terms of logarithms. */
  lemma AddMulLog(p: Point, q: Point, e: nat)
    ensures Add(p, Mul(q, e)) == Point((p.dlog + Times(q.dlog, e)) % N)
  {
    ModAdd(Times(q.dlog, e), p.dlog, N);
  }
}
