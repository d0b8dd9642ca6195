/** One quaternion (w, x, y, z) = w + x i + y j + z k and the per-pixel
    arithmetic of main.cpp, over exact reals. */
module Quaternions {

  datatype Quat = Quat(w: real, x: real, y: real, z: real)

  const Zero := Quat(0.0, 0.0, 0.0, 0.0)

  /** The basis units i, j, k. */
  const I := Quat(0.0, 1.0, 0.0, 0.0)
  const J := Quat(0.0, 0.0, 1.0, 0.0)
  const K := Quat(0.0, 0.0, 0.0, 1.0)

  /** A real number as a quaternion with zero vector part. */
  function Real(a: real): Quat {
    Quat(a, 0.0, 0.0, 0.0)
  }

  function Add(p: Quat, q: Quat): Quat {
    Quat(p.w + q.w, p.x + q.x, p.y + q.y, p.z + q.z)
  }

  function Sub(p: Quat, q: Quat): Quat {
    Quat(p.w - q.w, p.x - q.x, p.y - q.y, p.z - q.z)
  }

  function Neg(q: Quat): Quat {
    Quat(-q.w, -q.x, -q.y, -q.z)
  }

  /** Every component multiplied by the real k. */
  function Scale(k: real, q: Quat): Quat {
    Quat(k * q.w, k * q.x, k * q.y, k * q.z)
  }

  /** The conjugate: w kept, the vector part negated (qconj, main.cpp:26-29). */
  function Conj(q: Quat): (r: Quat)
    ensures Norm2(r) == Norm2(q)
    ensures Add(q, r) == Real(2.0 * q.w)
  {
    Quat(q.w, -q.x, -q.y, -q.z)
  }

  /** The squared norm w^2 + x^2 + y^2 + z^2. */
  function Norm2(q: Quat): (n: real)
    ensures n >= 0.0
  {
    assert q.w * q.w >= 0.0 && q.x * q.x >= 0.0 && q.y * q.y >= 0.0 && q.z * q.z >= 0.0;
    q.w * q.w + q.x * q.x + q.y * q.y + q.z * q.z
  }

  /** The Hamilton product p q, component by component as main.cpp:124-127 writes it. */
  function Mul(p: Quat, q: Quat): (r: Quat)
    ensures p.x == 0.0 && p.y == 0.0 && p.z == 0.0 ==> r == Scale(p.w, q)
    ensures q.x == 0.0 && q.y == 0.0 && q.z == 0.0 ==> r == Scale(q.w, p)
  {
    Quat(p.w * q.w - p.x * q.x - p.y * q.y - p.z * q.z,
         p.w * q.x + p.x * q.w + p.y * q.z - p.z * q.y,
         p.w * q.y - p.x * q.z + p.y * q.w + p.z * q.x,
         p.w * q.z + p.x * q.y - p.y * q.x + p.z * q.w)
  }

  /** The product written out; calling this lemma gives the solver the four
      component formulas at once. */
  lemma MulDef(p: Quat, q: Quat)
    ensures Mul(p, q) == Quat(p.w * q.w - p.x * q.x - p.y * q.y - p.z * q.z,
                              p.w * q.x + p.x * q.w + p.y * q.z - p.z * q.y,
                              p.w * q.y - p.x * q.z + p.y * q.w + p.z * q.x,
                              p.w * q.z + p.x * q.y - p.y * q.x + p.z * q.w)
  {
  }

  /** Conjugation keeps w, negates x, y, z and undoes itself. */
  lemma ConjInvolution(q: Quat)
    ensures Conj(q).w == q.w && Conj(q).x == -q.x && Conj(q).y == -q.y && Conj(q).z == -q.z
    ensures Conj(Conj(q)) == q
  {
  }

  /** q times its conjugate is the real number |q|^2: zero vector part. */
  lemma MulConj(q: Quat)
    ensures Mul(q, Conj(q)) == Real(Norm2(q))
    ensures Mul(Conj(q), q) == Real(Norm2(q))
  {
  }

  /** The Hamilton product is not commutative: i j = k but j i = -k. */
  lemma NotCommutative()
    ensures Mul(I, J) == K
    ensures Mul(J, I) == Neg(K)
  {
    assert Mul(I, J) == K;
  }

  /** The units square to -1. */
  lemma UnitsSquare()
    ensures Mul(I, I) == Real(-1.0) && Mul(J, J) == Real(-1.0) && Mul(K, K) == Real(-1.0)
  {
  }

  /** The Hamilton product is associative. The four components are polynomial
      identities of degree three, proved over plain reals one at a time. */
  lemma MulAssoc(p: Quat, q: Quat, r: Quat)
    ensures Mul(Mul(p, q), r) == Mul(p, Mul(q, r))
  {
    MulAssocW(p, q, r);
    MulAssocX(p, q, r);
    MulAssocY(p, q, r);
    MulAssocZ(p, q, r);
  }

  lemma MulAssocW(p: Quat, q: Quat, r: Quat)
    ensures Mul(Mul(p, q), r).w == Mul(p, Mul(q, r)).w
  {
    var a, b := Mul(p, q), Mul(q, r);
    MulDef(p, q);
    MulDef(q, r);
    MulDef(a, r);
    MulDef(p, b);
    AssocOverRealsW(p.w, p.x, p.y, p.z, q.w, q.x, q.y, q.z, r.w, r.x, r.y, r.z, a.w, a.x, a.y, a.z, b.w, b.x, b.y, b.z);
  }

  lemma MulAssocX(p: Quat, q: Quat, r: Quat)
    ensures Mul(Mul(p, q), r).x == Mul(p, Mul(q, r)).x
  {
    var a, b := Mul(p, q), Mul(q, r);
    MulDef(p, q);
    MulDef(q, r);
    MulDef(a, r);
    MulDef(p, b);
    AssocOverRealsX(p.w, p.x, p.y, p.z, q.w, q.x, q.y, q.z, r.w, r.x, r.y, r.z, a.w, a.x, a.y, a.z, b.w, b.x, b.y, b.z);
  }

  lemma MulAssocY(p: Quat, q: Quat, r: Quat)
    ensures Mul(Mul(p, q), r).y == Mul(p, Mul(q, r)).y
  {
    var a, b := Mul(p, q), Mul(q, r);
    MulDef(p, q);
    MulDef(q, r);
    MulDef(a, r);
    MulDef(p, b);
    AssocOverRealsY(p.w, p.x, p.y, p.z, q.w, q.x, q.y, q.z, r.w, r.x, r.y, r.z, a.w, a.x, a.y, a.z, b.w, b.x, b.y, b.z);
  }

  lemma MulAssocZ(p: Quat, q: Quat, r: Quat)
    ensures Mul(Mul(p, q), r).z == Mul(p, Mul(q, r)).z
  {
    var a, b := Mul(p, q), Mul(q, r);
    MulDef(p, q);
    MulDef(q, r);
    MulDef(a, r);
    MulDef(p, b);
    AssocOverRealsZ(p.w, p.x, p.y, p.z, q.w, q.x, q.y, q.z, r.w, r.x, r.y, r.z, a.w, a.x, a.y, a.z, b.w, b.x, b.y, b.z);
  }

  // Component k of (p q) r equals component k of p (q r), where a = p q and b = q r.
  lemma AssocOverRealsW(
      p0: real, p1: real, p2: real, p3: real, q0: real, q1: real, q2: real, q3: real,
      r0: real, r1: real, r2: real, r3: real, a0: real, a1: real, a2: real, a3: real,
      b0: real, b1: real, b2: real, b3: real)
    requires a0 == p0 * q0 - p1 * q1 - p2 * q2 - p3 * q3
    requires a1 == p0 * q1 + p1 * q0 + p2 * q3 - p3 * q2
    requires a2 == p0 * q2 - p1 * q3 + p2 * q0 + p3 * q1
    requires a3 == p0 * q3 + p1 * q2 - p2 * q1 + p3 * q0
    requires b0 == q0 * r0 - q1 * r1 - q2 * r2 - q3 * r3
    requires b1 == q0 * r1 + q1 * r0 + q2 * r3 - q3 * r2
    requires b2 == q0 * r2 - q1 * r3 + q2 * r0 + q3 * r1
    requires b3 == q0 * r3 + q1 * r2 - q2 * r1 + q3 * r0
    ensures a0 * r0 - a1 * r1 - a2 * r2 - a3 * r3 == p0 * b0 - p1 * b1 - p2 * b2 - p3 * b3
  {
  }

  lemma AssocOverRealsX(
      p0: real, p1: real, p2: real, p3: real, q0: real, q1: real, q2: real, q3: real,
      r0: real, r1: real, r2: real, r3: real, a0: real, a1: real, a2: real, a3: real,
      b0: real, b1: real, b2: real, b3: real)
    requires a0 == p0 * q0 - p1 * q1 - p2 * q2 - p3 * q3
    requires a1 == p0 * q1 + p1 * q0 + p2 * q3 - p3 * q2
    requires a2 == p0 * q2 - p1 * q3 + p2 * q0 + p3 * q1
    requires a3 == p0 * q3 + p1 * q2 - p2 * q1 + p3 * q0
    requires b0 == q0 * r0 - q1 * r1 - q2 * r2 - q3 * r3
    requires b1 == q0 * r1 + q1 * r0 + q2 * r3 - q3 * r2
    requires b2 == q0 * r2 - q1 * r3 + q2 * r0 + q3 * r1
    requires b3 == q0 * r3 + q1 * r2 - q2 * r1 + q3 * r0
    ensures a0 * r1 + a1 * r0 + a2 * r3 - a3 * r2 == p0 * b1 + p1 * b0 + p2 * b3 - p3 * b2
  {
  }

  lemma AssocOverRealsY(
      p0: real, p1: real, p2: real, p3: real, q0: real, q1: real, q2: real, q3: real,
      r0: real, r1: real, r2: real, r3: real, a0: real, a1: real, a2: real, a3: real,
      b0: real, b1: real, b2: real, b3: real)
    requires a0 == p0 * q0 - p1 * q1 - p2 * q2 - p3 * q3
    requires a1 == p0 * q1 + p1 * q0 + p2 * q3 - p3 * q2
    requires a2 == p0 * q2 - p1 * q3 + p2 * q0 + p3 * q1
    requires a3 == p0 * q3 + p1 * q2 - p2 * q1 + p3 * q0
    requires b0 == q0 * r0 - q1 * r1 - q2 * r2 - q3 * r3
    requires b1 == q0 * r1 + q1 * r0 + q2 * r3 - q3 * r2
    requires b2 == q0 * r2 - q1 * r3 + q2 * r0 + q3 * r1
    requires b3 == q0 * r3 + q1 * r2 - q2 * r1 + q3 * r0
    ensures a0 * r2 - a1 * r3 + a2 * r0 + a3 * r1 == p0 * b2 - p1 * b3 + p2 * b0 + p3 * b1
  {
  }

  lemma AssocOverRealsZ(
      p0: real, p1: real, p2: real, p3: real, q0: real, q1: real, q2: real, q3: real,
      r0: real, r1: real, r2: real, r3: real, a0: real, a1: real, a2: real, a3: real,
      b0: real, b1: real, b2: real, b3: real)
    requires a0 == p0 * q0 - p1 * q1 - p2 * q2 - p3 * q3
    requires a1 == p0 * q1 + p1 * q0 + p2 * q3 - p3 * q2
    requires a2 == p0 * q2 - p1 * q3 + p2 * q0 + p3 * q1
    requires a3 == p0 * q3 + p1 * q2 - p2 * q1 + p3 * q0
    requires b0 == q0 * r0 - q1 * r1 - q2 * r2 - q3 * r3
    requires b1 == q0 * r1 + q1 * r0 + q2 * r3 - q3 * r2
    requires b2 == q0 * r2 - q1 * r3 + q2 * r0 + q3 * r1
    requires b3 == q0 * r3 + q1 * r2 - q2 * r1 + q3 * r0
    ensures a0 * r3 + a1 * r2 - a2 * r1 + a3 * r0 == p0 * b3 + p1 * b2 - p2 * b1 + p3 * b0
  {
  }

  /** Multiplication distributes over subtraction, on either side. */
  lemma MulSub(p: Quat, q: Quat, r: Quat)
    ensures Mul(p, Sub(q, r)) == Sub(Mul(p, q), Mul(p, r))
    ensures Mul(Sub(q, r), p) == Sub(Mul(q, p), Mul(r, p))
  {
    var d := Sub(q, r);
    MulDef(p, d);
    MulDef(p, q);
    MulDef(p, r);
    MulDef(d, p);
    MulDef(q, p);
    MulDef(r, p);
    LinearOverReals(p.w, p.x, p.y, p.z, q.w, q.x, q.y, q.z, r.w, r.x, r.y, r.z, d.w, d.x, d.y, d.z);
  }

  // With d = q - r: the components of p d and of d p, distributed.
  lemma LinearOverReals(
      p0: real, p1: real, p2: real, p3: real, q0: real, q1: real, q2: real, q3: real,
      r0: real, r1: real, r2: real, r3: real, d0: real, d1: real, d2: real, d3: real)
    requires d0 == q0 - r0 && d1 == q1 - r1 && d2 == q2 - r2 && d3 == q3 - r3
    ensures p0 * d0 - p1 * d1 - p2 * d2 - p3 * d3 == (p0 * q0 - p1 * q1 - p2 * q2 - p3 * q3) - (p0 * r0 - p1 * r1 - p2 * r2 - p3 * r3)
    ensures p0 * d1 + p1 * d0 + p2 * d3 - p3 * d2 == (p0 * q1 + p1 * q0 + p2 * q3 - p3 * q2) - (p0 * r1 + p1 * r0 + p2 * r3 - p3 * r2)
    ensures p0 * d2 - p1 * d3 + p2 * d0 + p3 * d1 == (p0 * q2 - p1 * q3 + p2 * q0 + p3 * q1) - (p0 * r2 - p1 * r3 + p2 * r0 + p3 * r1)
    ensures p0 * d3 + p1 * d2 - p2 * d1 + p3 * d0 == (p0 * q3 + p1 * q2 - p2 * q1 + p3 * q0) - (p0 * r3 + p1 * r2 - p2 * r1 + p3 * r0)
    ensures d0 * p0 - d1 * p1 - d2 * p2 - d3 * p3 == (q0 * p0 - q1 * p1 - q2 * p2 - q3 * p3) - (r0 * p0 - r1 * p1 - r2 * p2 - r3 * p3)
    ensures d0 * p1 + d1 * p0 + d2 * p3 - d3 * p2 == (q0 * p1 + q1 * p0 + q2 * p3 - q3 * p2) - (r0 * p1 + r1 * p0 + r2 * p3 - r3 * p2)
    ensures d0 * p2 - d1 * p3 + d2 * p0 + d3 * p1 == (q0 * p2 - q1 * p3 + q2 * p0 + q3 * p1) - (r0 * p2 - r1 * p3 + r2 * p0 + r3 * p1)
    ensures d0 * p3 + d1 * p2 - d2 * p1 + d3 * p0 == (q0 * p3 + q1 * p2 - q2 * p1 + q3 * p0) - (r0 * p3 + r1 * p2 - r2 * p1 + r3 * p0)
  {
  }

  /** Multiplication distributes over addition on the left: p (q + r) = p q + p r. */
  lemma MulAdd(p: Quat, q: Quat, r: Quat)
    ensures Mul(p, Add(q, r)) == Add(Mul(p, q), Mul(p, r))
  {
    assert Add(q, r) == Sub(q, Neg(r));
    MulSub(p, q, Neg(r));
    MulNeg(p, r);
  }

  /** Halving a factor halves the product (the program divides by 2 in the
      decomposition of main.cpp:188). */
  lemma MulHalf(p: Quat, q: Quat)
    ensures Mul(p, Scale(0.5, q)) == Scale(0.5, Mul(p, q))
    ensures Mul(Scale(0.5, p), q) == Scale(0.5, Mul(p, q))
  {
    MulHalfRight(p, q);
    MulHalfLeft(p, q);
  }

  lemma MulHalfRight(p: Quat, q: Quat)
    ensures Mul(p, Scale(0.5, q)) == Scale(0.5, Mul(p, q))
  {
    var h, m := Scale(0.5, q), Mul(p, q);
    MulDef(p, h);
    MulDef(p, q);
    HalfOverReals(p.w, p.x, p.y, p.z, q.w, q.x, q.y, q.z, h.w, h.x, h.y, h.z, m.w, m.x, m.y, m.z);
  }

  lemma MulHalfLeft(p: Quat, q: Quat)
    ensures Mul(Scale(0.5, p), q) == Scale(0.5, Mul(p, q))
  {
    var h, m := Scale(0.5, p), Mul(p, q);
    MulDef(h, q);
    MulDef(p, q);
    HalfOverReals(q.w, q.x, q.y, q.z, p.w, p.x, p.y, p.z, h.w, h.x, h.y, h.z, m.w, m.x, m.y, m.z);
  }

  // With h = q / 2 and m = p q: each product component with h in place of q
  // is half the one of m, whichever side q is on.
  lemma HalfOverReals(
      p0: real, p1: real, p2: real, p3: real, q0: real, q1: real, q2: real, q3: real,
      h0: real, h1: real, h2: real, h3: real, m0: real, m1: real, m2: real, m3: real)
    requires h0 == 0.5 * q0 && h1 == 0.5 * q1 && h2 == 0.5 * q2 && h3 == 0.5 * q3
    ensures m0 == p0 * q0 - p1 * q1 - p2 * q2 - p3 * q3 && m1 == p0 * q1 + p1 * q0 + p2 * q3 - p3 * q2 && m2 == p0 * q2 - p1 * q3 + p2 * q0 + p3 * q1 && m3 == p0 * q3 + p1 * q2 - p2 * q1 + p3 * q0 ==>
      p0 * h0 - p1 * h1 - p2 * h2 - p3 * h3 == 0.5 * m0 && p0 * h1 + p1 * h0 + p2 * h3 - p3 * h2 == 0.5 * m1 && p0 * h2 - p1 * h3 + p2 * h0 + p3 * h1 == 0.5 * m2 && p0 * h3 + p1 * h2 - p2 * h1 + p3 * h0 == 0.5 * m3
    ensures m0 == q0 * p0 - q1 * p1 - q2 * p2 - q3 * p3 && m1 == q0 * p1 + q1 * p0 + q2 * p3 - q3 * p2 && m2 == q0 * p2 - q1 * p3 + q2 * p0 + q3 * p1 && m3 == q0 * p3 + q1 * p2 - q2 * p1 + q3 * p0 ==>
      h0 * p0 - h1 * p1 - h2 * p2 - h3 * p3 == 0.5 * m0 && h0 * p1 + h1 * p0 + h2 * p3 - h3 * p2 == 0.5 * m1 && h0 * p2 - h1 * p3 + h2 * p0 + h3 * p1 == 0.5 * m2 && h0 * p3 + h1 * p2 - h2 * p1 + h3 * p0 == 0.5 * m3
  {
  }

  /** Negating a factor negates the product: -p is (-1) p = p (-1), and the
      product is associative. */
  lemma MulNeg(p: Quat, q: Quat)
    ensures Mul(Neg(p), q) == Neg(Mul(p, q))
    ensures Mul(p, Neg(q)) == Neg(Mul(p, q))
  {
    MulMinusOne(p);
    MulMinusOne(q);
    MulMinusOne(Mul(p, q));
    MulAssoc(Real(-1.0), p, q);
    MulAssoc(p, q, Real(-1.0));
  }

  /** Multiplying by the real -1, on either side, negates. */
  lemma MulMinusOne(q: Quat)
    ensures Mul(Real(-1.0), q) == Neg(q)
    ensures Mul(q, Real(-1.0)) == Neg(q)
  {
  }

  /** Scaling by k scales the squared norm by k^2. */
  lemma Norm2Scale(k: real, q: Quat)
    ensures Norm2(Scale(k, q)) == k * k * Norm2(q)
  {
    assert (k * q.w) * (k * q.w) == k * k * (q.w * q.w);
    assert (k * q.x) * (k * q.x) == k * k * (q.x * q.x);
    assert (k * q.y) * (k * q.y) == k * k * (q.y * q.y);
    assert (k * q.z) * (k * q.z) == k * k * (q.z * q.z);
  }

  /** Scaling by u and then by k, where k u = 1, gives q back. */
  lemma ScaleInverse(k: real, u: real, q: Quat)
    requires k * u == 1.0
    ensures Scale(k, Scale(u, q)) == q
  {
    Cancel(k, u, q.w);
    Cancel(k, u, q.x);
    Cancel(k, u, q.y);
    Cancel(k, u, q.z);
  }

  // k times 1 / k is 1.
  lemma Reciprocal(k: real)
    requires k != 0.0
    ensures k * (1.0 / k) == 1.0 && (1.0 / k) * k == 1.0
  {
  }

  // Multiplying by u and then by k, where k u = 1, cancels.
  lemma Cancel(k: real, u: real, a: real)
    requires k * u == 1.0
    ensures k * (u * a) == a
  {
    assert k * (u * a) == (k * u) * a;
  }
}
