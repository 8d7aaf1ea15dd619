/** Vectors and quaternions over the reals, with the square root and the circular functions as far as they are
    used: a unit quaternion stays one under multiplication, and rotating by one keeps lengths. */
module Rotations {

  datatype Vec = Vec(x: real, y: real, z: real)

  datatype Quat = Quat(w: real, v: Vec)

  datatype Maths = Maths(sqrt: real -> real, sin: real -> real, cos: real -> real)

  ghost predicate Lawful(m: Maths) {
    && (forall x: real :: x >= 0.0 ==> m.sqrt(x) >= 0.0 && m.sqrt(x) * m.sqrt(x) == x)
    && (forall x: real :: m.sin(x) * m.sin(x) + m.cos(x) * m.cos(x) == 1.0)
  }

  const ZERO: Vec := Vec(0.0, 0.0, 0.0)
  const IDENTITY: Quat := Quat(1.0, ZERO)

  function Add(a: Vec, b: Vec): Vec { Vec(a.x + b.x, a.y + b.y, a.z + b.z) }

  function Subtract(a: Vec, b: Vec): Vec { Vec(a.x - b.x, a.y - b.y, a.z - b.z) }

  function Scale(a: Vec, k: real): Vec { Vec(a.x * k, a.y * k, a.z * k) }

  function Cross(a: Vec, b: Vec): Vec { Vec(a.y * b.z - a.z * b.y, a.z * b.x - a.x * b.z, a.x * b.y - a.y * b.x) }

  function Dot(a: Vec, b: Vec): real { a.x * b.x + a.y * b.y + a.z * b.z }

  function NormSquared(q: Quat): real { q.w * q.w + Dot(q.v, q.v) }

  predicate Unit(q: Quat) { NormSquared(q) == 1.0 }

  function Multiply(a: Quat, b: Quat): Quat {
    Quat(a.w * b.w - Dot(a.v, b.v), Add(Add(Scale(b.v, a.w), Scale(a.v, b.w)), Cross(a.v, b.v)))
  }

  function Rotate(q: Quat, a: Vec): Vec {
    var twice := Scale(Cross(q.v, a), 2.0);
    Add(a, Add(Scale(twice, q.w), Cross(q.v, twice)))
  }

  // ---- identities ---------------------------------------------------------------------------------

  lemma DotAdd(a: Vec, b: Vec)
    ensures Dot(Add(a, b), Add(a, b)) == Dot(a, a) + 2.0 * Dot(a, b) + Dot(b, b)
  {
  }

  lemma DotSum(a: Vec, b: Vec, c: Vec)
    ensures Dot(a, Add(b, c)) == Dot(a, b) + Dot(a, c) && Dot(Add(b, c), a) == Dot(b, a) + Dot(c, a)
  {
  }

  lemma DotScale(a: Vec, b: Vec, k: real)
    ensures Dot(Scale(a, k), b) == k * Dot(a, b) && Dot(a, Scale(b, k)) == k * Dot(a, b)
  {
  }

  lemma CrossOrthogonal(a: Vec, b: Vec)
    ensures Dot(a, Cross(a, b)) == 0.0 && Dot(b, Cross(a, b)) == 0.0
  {
  }

  lemma TripleProduct(a: Vec, b: Vec, c: Vec)
    ensures Dot(a, Cross(b, c)) == -Dot(c, Cross(b, a))
  {
  }

  lemma Lagrange(a: Vec, b: Vec)
    ensures Dot(Cross(a, b), Cross(a, b)) == Dot(a, a) * Dot(b, b) - Dot(a, b) * Dot(a, b)
  {
  }

  /** The norm of a product is the product of the norms. */
  lemma NormOfProduct(a: Quat, b: Quat)
    ensures NormSquared(Multiply(a, b)) == NormSquared(a) * NormSquared(b)
  {
    var u, v := a.v, b.v;
    var p, r, c := Scale(v, a.w), Scale(u, b.w), Cross(u, v);
    SquareOfThree(p, r, c);
    ScaledProducts(u, v, a.w, b.w);
    CrossOrthogonal(u, v);
    Lagrange(u, v);
    var product := Multiply(a, b);
    FourSquares(a.w, b.w, Dot(u, v), Dot(u, u), Dot(v, v), product.w, Dot(p, p), Dot(r, r), Dot(c, c), Dot(p, r),
                Dot(product.v, product.v), NormSquared(a), NormSquared(b));
  }

  lemma SquareOfThree(a: Vec, b: Vec, c: Vec)
    ensures var s := Add(Add(a, b), c);
            Dot(s, s) == Dot(a, a) + Dot(b, b) + Dot(c, c) + 2.0 * Dot(a, b) + 2.0 * Dot(a, c) + 2.0 * Dot(b, c)
  {
  }

  lemma ScaledProducts(u: Vec, v: Vec, aw: real, bw: real)
    ensures Dot(Scale(v, aw), Scale(v, aw)) == aw * aw * Dot(v, v)
    ensures Dot(Scale(u, bw), Scale(u, bw)) == bw * bw * Dot(u, u)
    ensures Dot(Scale(v, aw), Scale(u, bw)) == aw * bw * Dot(u, v)
    ensures Dot(Scale(v, aw), Cross(u, v)) == aw * Dot(v, Cross(u, v))
    ensures Dot(Scale(u, bw), Cross(u, v)) == bw * Dot(u, Cross(u, v))
  {
    ScaleBoth(v, v, aw, aw);
    ScaleBoth(u, u, bw, bw);
    ScaleBoth(v, u, aw, bw);
    DotScale(v, Cross(u, v), aw);
    DotScale(u, Cross(u, v), bw);
  }

  lemma ScaleBoth(a: Vec, b: Vec, k: real, l: real)
    ensures Dot(Scale(a, k), Scale(b, l)) == k * l * Dot(b, a)
  {
    Regroup(a.x, k, b.x, l);
    Regroup(a.y, k, b.y, l);
    Regroup(a.z, k, b.z, l);
    Distribute(k * l, b.x * a.x, b.y * a.y, b.z * a.z);
  }

  lemma Regroup(x: real, k: real, y: real, l: real)
    ensures (x * k) * (y * l) == (k * l) * (y * x)
  {
  }

  lemma Distribute(k: real, x: real, y: real, z: real)
    ensures k * (x + y + z) == k * x + k * y + k * z
  {
  }

  lemma FourSquares(
      aw: real, bw: real, uv: real, uu: real, vv: real, w: real, pp: real, rr: real, cc: real, pr: real, ss: real,
      na: real, nb: real)
    requires w == aw * bw - uv && pp == aw * aw * vv && rr == bw * bw * uu && pr == aw * bw * uv
    requires cc == uu * vv - uv * uv && ss == pp + rr + cc + 2.0 * pr && na == aw * aw + uu && nb == bw * bw + vv
    ensures w * w + ss == na * nb
  {
  }

  /** Rotating by a unit quaternion keeps the length. */
  lemma RotateKeepsLength(q: Quat, a: Vec)
    requires Unit(q)
    ensures Dot(Rotate(q, a), Rotate(q, a)) == Dot(a, a)
  {
    var u, c := q.v, Cross(q.v, a);
    var t := Scale(c, 2.0);
    var p, r := Scale(t, q.w), Cross(u, t);
    DotAdd(a, Add(p, r));
    DotSum(a, p, r);
    DotAdd(p, r);
    CrossOrthogonal(u, a);
    CrossOrthogonal(u, t);
    DotScale(c, a, 2.0);
    DotScale(c, u, 2.0);
    DotScale(c, t, 2.0);
    DotScale(t, a, q.w);
    DotScale(t, r, q.w);
    ScaledSquare(t, q.w);
    TripleProduct(a, u, t);
    Lagrange(u, t);
    LengthKept(q.w, Dot(u, u), Dot(a, a), Dot(t, t), Dot(a, r), Dot(p, p), Dot(r, r));
  }

  lemma ScaledSquare(t: Vec, w: real)
    ensures Dot(Scale(t, w), Scale(t, w)) == w * (w * Dot(t, t))
  {
    ScaleBoth(t, t, w, w);
    Associate(w, Dot(t, t));
  }

  lemma Associate(w: real, x: real)
    ensures w * w * x == w * (w * x)
  {
  }

  lemma LengthKept(w: real, uu: real, aa: real, tt: real, ar: real, pp: real, rr: real)
    requires w * w + uu == 1.0 && 2.0 * ar == -tt && pp == w * (w * tt) && rr == uu * tt
    ensures aa + 2.0 * ar + (pp + rr) == aa
  {
    assert w * (w * tt) + uu * tt == (w * w + uu) * tt;
  }

  // ---- unit quaternions ---------------------------------------------------------------------------

  const TINY: real := 0.000000000001

  function Normalize(m: Maths, q: Quat): Quat {
    if NormSquared(q) < TINY || m.sqrt(NormSquared(q)) == 0.0 then q
    else
      var inverse := 1.0 / m.sqrt(NormSquared(q));
      Quat(q.w * inverse, Scale(q.v, inverse))
  }

  /** The rotation a constant rate makes in the given time, exactly or, for a tiny angle, to first order. */
  function RotationDelta(m: Maths, omega: Vec, seconds: real): Quat {
    var half := Scale(omega, 0.5 * seconds);
    var angle := m.sqrt(Dot(half, half));
    if angle < 0.000001 then Normalize(m, Quat(1.0, half))
    else Quat(m.cos(angle), Scale(half, m.sin(angle) / angle))
  }

  lemma DotSelf(a: Vec)
    ensures Dot(a, a) >= 0.0
  {
    Squares(a.x, a.y, a.z);
  }

  lemma Squares(x: real, y: real, z: real)
    ensures x * x >= 0.0 && y * y >= 0.0 && z * z >= 0.0
  {
  }

  lemma SquareMonotone(x: real, y: real)
    requires 0.0 <= x <= y
    ensures x * x <= y * y
  {
  }

  lemma Inverse(root: real, n: real)
    requires root > 0.0 && root * root == n
    ensures n * (1.0 / root * (1.0 / root)) == 1.0
  {
    var i := 1.0 / root;
    assert i * root == 1.0;
    assert n * (i * i) == (i * root) * (i * root);
  }

  lemma NormalizeMakesUnit(m: Maths, q: Quat)
    requires Lawful(m) && NormSquared(q) >= TINY
    ensures Unit(Normalize(m, q))
    ensures Unit(q) ==> Normalize(m, q) == q
  {
    var n := NormSquared(q);
    var root := m.sqrt(n);
    assert root > 0.0;
    Inverse(root, n);
    var i := 1.0 / root;
    DotScale(q.v, q.v, i);
    DotScale(q.v, Scale(q.v, i), i);
    assert NormSquared(Normalize(m, q)) == n * (i * i);
    if n == 1.0 {
      RootOfOne(root);
    }
  }

  lemma Times(x: real, y: real)
    requires x > 0.0 && y > 0.0
    ensures x * y > 0.0
  {
  }

  lemma RootOfOne(root: real)
    requires root > 0.0 && root * root == 1.0
    ensures root == 1.0
  {
    if root < 1.0 {
      Times(root, 1.0 - root);
    } else if root > 1.0 {
      Times(root, root - 1.0);
    }
  }

  lemma DeltaIsUnit(m: Maths, omega: Vec, seconds: real)
    requires Lawful(m)
    ensures Unit(RotationDelta(m, omega, seconds))
  {
    var half := Scale(omega, 0.5 * seconds);
    DotSelf(half);
    var n := Dot(half, half);
    var angle := m.sqrt(n);
    if angle < 0.000001 {
      NormalizeMakesUnit(m, Quat(1.0, half));
    } else {
      var s, c := m.sin(angle), m.cos(angle);
      var k := s / angle;
      DotScale(half, half, k);
      DotScale(half, Scale(half, k), k);
      assert Dot(Scale(half, k), Scale(half, k)) == k * (k * n);
      SineSquared(s, angle, n, k);
    }
  }

  lemma SineSquared(s: real, angle: real, n: real, k: real)
    requires angle > 0.0 && angle * angle == n && k == s / angle
    ensures k * (k * n) == s * s
  {
    assert k * angle == s;
    assert k * (k * n) == (k * angle) * (k * angle);
  }

  // ---- lengths ------------------------------------------------------------------------------------

  /** No longer than `r`. */
  predicate Within(a: Vec, r: real) { r >= 0.0 && Dot(a, a) <= r * r }

  lemma RotateWithin(q: Quat, a: Vec, r: real)
    requires Unit(q) && Within(a, r)
    ensures Within(Rotate(q, a), r)
  {
    RotateKeepsLength(q, a);
  }

  /** The triangle inequality. */
  lemma AddWithin(a: Vec, b: Vec, r: real, s: real)
    requires Within(a, r) && Within(b, s)
    ensures Within(Add(a, b), r + s)
  {
    Lagrange(a, b);
    DotSelf(Cross(a, b));
    DotSelf(a);
    DotSelf(b);
    DotAdd(a, b);
    ProductBound(Dot(a, a), Dot(b, b), r * r, s * s);
    CauchySchwarz(Dot(a, b), Dot(a, a) * Dot(b, b), r, s);
    SumBound(Dot(a, a), Dot(a, b), Dot(b, b), r, s);
  }

  lemma ProductBound(x: real, y: real, a: real, b: real)
    requires 0.0 <= x <= a && 0.0 <= y <= b
    ensures x * y <= a * b
  {
    assert x * y <= a * y;
    assert a * y <= a * b;
  }

  lemma CauchySchwarz(d: real, product: real, r: real, s: real)
    requires r >= 0.0 && s >= 0.0 && d * d <= product <= (r * r) * (s * s)
    ensures d <= r * s
  {
    var rs := r * s;
    assert (r * r) * (s * s) == rs * rs;
    assert rs >= 0.0;
    if d > rs {
      Times(d - rs, d + rs);
    }
  }

  lemma SumBound(aa: real, ab: real, bb: real, r: real, s: real)
    requires aa <= r * r && bb <= s * s && ab <= r * s
    ensures aa + 2.0 * ab + bb <= (r + s) * (r + s)
  {
  }

  lemma SubtractWithin(a: Vec, b: Vec, r: real, s: real)
    requires Within(a, r) && Within(b, s)
    ensures Within(Subtract(a, b), r + s)
  {
    var negative := Scale(b, -1.0);
    DotScale(b, b, -1.0);
    DotScale(b, negative, -1.0);
    AddWithin(a, negative, r, s);
    assert Add(a, negative) == Subtract(a, b);
  }

  lemma ScaleWithin(a: Vec, r: real, k: real)
    requires Within(a, r) && k >= 0.0
    ensures Within(Scale(a, k), r * k)
  {
    DotScale(a, a, k);
    DotScale(a, Scale(a, k), k);
    ScaledBound(Dot(a, a), Dot(a, Scale(a, k)), Dot(Scale(a, k), Scale(a, k)), r, k);
  }

  lemma ScaledBound(aa: real, once: real, twice: real, r: real, k: real)
    requires aa <= r * r && r >= 0.0 && k >= 0.0 && once == k * aa && twice == k * once
    ensures r * k >= 0.0 && twice <= (r * k) * (r * k)
  {
    var kk := k * k;
    assert kk >= 0.0;
    assert kk * aa <= kk * (r * r);
  }

  /** A vector whose measured norm is at most `limit`. */
  lemma NormWithin(m: Maths, a: Vec, limit: real)
    requires Lawful(m) && m.sqrt(Dot(a, a)) <= limit
    ensures Within(a, limit)
  {
    DotSelf(a);
    SquareMonotone(m.sqrt(Dot(a, a)), limit);
  }
}
