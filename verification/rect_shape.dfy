/** Recovering a tilted bar's edges from its upright bounds and area, over the reals: which filled rectangles
    come back exactly, and which do not. */
module RectShape {
  import opened Bytes

  /** The square root as far as it is used. */
  ghost predicate IsRoot(sqrt: real -> real) {
    forall x: real :: x >= 0.0 ==> sqrt(x) >= 0.0 && sqrt(x) * sqrt(x) == x
  }

  const EPSILON: real := 0.000001

  // Above every 32-bit area.
  const LARGEST_AREA: real := 500000000000.0

  /** Edges, and 1 + sin of twice the tilt. */
  datatype Shape = Shape(length: real, thickness: real, z: real)

  function Clamp(x: real, lo: real, hi: real): real {
    if x < lo then lo else if x > hi then hi else x
  }

  /** The square of the edges' difference, from their sum and product. */
  function DifferenceSquared(edges: real, area: real): real { edges * edges - 4.0 * area }

  /** The edges' sum, from the sum of the bounds. */
  function EdgeSum(sqrt: real -> real, sum: real, z: real): real
    requires sqrt(z) != 0.0
  {
    sum / sqrt(z)
  }

  /** Edges with this sum and difference, if they make sense. */
  function Edges(sum: real, difference: real, z: real): Option<Shape> {
    var long, short := 0.5 * (sum + difference), 0.5 * (sum - difference);
    if long >= short && short > 0.0 then Some(Shape(long, short, z)) else None
  }

  function Split(sqrt: real -> real, sum: real, squared: real, z: real): Option<Shape> {
    if squared < 0.0 then None else Edges(sum, sqrt(squared), z)
  }

  /** What an admissible z in [1, 2] proposes. */
  function AtZ(sqrt: real -> real, sum: real, area: real, z: real): Option<Shape> {
    if sqrt(z) == 0.0 then None
    else
      var edges := EdgeSum(sqrt, sum, z);
      Split(sqrt, edges, DifferenceSquared(edges, area), z)
  }

  /** What one root of the quadratic proposes. */
  function Candidate(sqrt: real -> real, sum: real, area: real, z0: real): Option<Shape> {
    if z0 < 1.0 - EPSILON || z0 > 2.0 + EPSILON then None
    else AtZ(sqrt, sum, area, Clamp(z0, 1.0, 2.0))
  }

  function Coefficient(w: real, h: real, area: real): real {
    2.0 * (w * h) - 4.0 * area - (w + h) * (w + h)
  }

  function Discriminant(w: real, h: real, area: real): real {
    Coefficient(w, h, area) * Coefficient(w, h, area) - 8.0 * area * (w + h) * (w + h)
  }

  /** The first acceptable candidate, the larger root first. */
  function Recovered(sqrt: real -> real, w: real, h: real, area: real): Option<Shape> {
    if w == 0.0 || h == 0.0 || area == 0.0 || Discriminant(w, h, area) < 0.0 then None
    else
      var b, root := Coefficient(w, h, area), sqrt(Discriminant(w, h, area));
      var first := Candidate(sqrt, w + h, area, (-b + root) / (4.0 * area));
      if first.Some? then first else Candidate(sqrt, w + h, area, (-b - root) / (4.0 * area))
  }

  method RecoverRectShape(sqrt: real -> real, w: real, h: real, area: real) returns (r: Option<Shape>)
    ensures r == Recovered(sqrt, w, h, area)
  {
    var discriminant := Discriminant(w, h, area);
    if w == 0.0 || h == 0.0 || area == 0.0 || discriminant < 0.0 {
      return None;
    }
    var coefficient, root := Coefficient(w, h, area), sqrt(discriminant);
    var roots := [(-coefficient + root) / (4.0 * area), (-coefficient - root) / (4.0 * area)];
    r := None;
    var i := 0;
    while i < 2 && r.None?
      invariant 0 <= i <= 2
      invariant r == if i == 0 then None
                     else if Candidate(sqrt, w + h, area, roots[0]).Some? || i == 1 then
                       Candidate(sqrt, w + h, area, roots[0])
                     else Candidate(sqrt, w + h, area, roots[1])
      invariant i == 2 ==> Candidate(sqrt, w + h, area, roots[0]).None?
    {
      r := Candidate(sqrt, w + h, area, roots[i]);
      i := i + 1;
    }
  }

  // ---- a filled rectangle -------------------------------------------------------------------------

  function Half(e: real, z: real): real { e * z / 2.0 }

  function Square(x: real): real { x * x }

  function Tolerance(a: real): real { 2.0 * EPSILON * a }

  /** A rectangle with edges `l` and `t`, tilted by an angle with this cosine and sine. */
  datatype Bar = Bar(l: real, t: real, c: real, s: real) {
    predicate Proper() { l >= t > 0.0 && c >= 0.0 && s >= 0.0 && c * c + s * s == 1.0 }

    function Width(): real { l * c + t * s }

    function Height(): real { l * s + t * c }

    function Area(): real { l * t }

    /** 1 + sin of twice the tilt. */
    function Z(): real { 1.0 + 2.0 * (c * s) }

    /** The square of the edges' sum. */
    function EdgeSquare(): real { (l + t) * (l + t) }

    function TiltedArea(): real { Z() * (2.0 * Area()) }

    /** The square that the other root, taken for 2, proposes for that sum. */
    function HalfSquare(): real { Half(EdgeSquare(), Z()) }

    /** The other root of the quadratic. */
    function OtherRoot(): real
      requires Area() != 0.0
    {
      EdgeSquare() / (2.0 * Area())
    }
  }

  lemma SquareNonNegative(x: real)
    ensures x * x >= 0.0
  {
  }

  lemma ProductPositive(x: real, y: real)
    requires x > 0.0 && y > 0.0
    ensures x * y > 0.0
  {
  }

  lemma ZBounds(b: Bar)
    requires b.Proper()
    ensures 1.0 <= b.Z() <= 2.0 && (b.c + b.s) * (b.c + b.s) == b.Z() && b.c + b.s > 0.0
  {
    SquareNonNegative(b.c - b.s);
    assert (b.c - b.s) * (b.c - b.s) == b.c * b.c - 2.0 * (b.c * b.s) + b.s * b.s;
    assert (b.c + b.s) * (b.c + b.s) == b.c * b.c + 2.0 * (b.c * b.s) + b.s * b.s;
  }

  /** The quadratic's coefficient in terms of the rectangle. */
  lemma CoefficientOf(b: Bar)
    requires b.Proper()
    ensures Coefficient(b.Width(), b.Height(), b.Area()) == -((b.l + b.t) * (b.l + b.t)) - b.Z() * (2.0 * b.Area())
    ensures (b.Width() + b.Height()) * (b.Width() + b.Height()) == (b.l + b.t) * (b.l + b.t) * b.Z()
  {
    ZBounds(b);
    var m := b.c * b.s;
    WidthTimesHeight(b.l, b.t, b.c, b.s);
    SumSquared(b.l, b.t, b.c, b.s, b.Z());
    assert b.Width() * b.Height() == b.l * b.t + (b.l * b.l + b.t * b.t) * m;
  }

  lemma WidthTimesHeight(l: real, t: real, c: real, s: real)
    requires c * c + s * s == 1.0
    ensures (l * c + t * s) * (l * s + t * c) == l * t + (l * l + t * t) * (c * s)
  {
    var lt, cs := l * t, c * s;
    assert (l * c) * (l * s) == (l * l) * cs;
    assert (l * c) * (t * c) == lt * (c * c);
    assert (t * s) * (l * s) == lt * (s * s);
    assert (t * s) * (t * c) == (t * t) * cs;
    assert lt * (c * c) + lt * (s * s) == lt * (c * c + s * s);
  }

  lemma SumSquared(l: real, t: real, c: real, s: real, z: real)
    requires (c + s) * (c + s) == z
    ensures (l * c + t * s + (l * s + t * c)) * (l * c + t * s + (l * s + t * c)) == (l + t) * (l + t) * z
  {
    var e, f := l + t, c + s;
    assert l * c + t * s + (l * s + t * c) == e * f;
    assert (e * f) * (e * f) == (e * e) * (f * f);
  }

  lemma SameSquare(r: real, x: real)
    requires r >= 0.0 && x >= 0.0 && r * r == x * x
    ensures r == x
  {
    if r > x {
      ProductPositive(r - x, r + x);
    } else if x > r {
      ProductPositive(x - r, x + r);
    }
  }

  lemma RootIs(sqrt: real -> real, y: real, x: real)
    requires IsRoot(sqrt) && x >= 0.0 && y == x * x
    ensures y >= 0.0 && sqrt(y) == x
  {
    SquareNonNegative(x);
    SameSquare(sqrt(y), x);
  }

  lemma Divide(a: real, d: real, q: real)
    requires d > 0.0 && a == q * d
    ensures a / d == q
  {
    var r := a / d;
    assert (r - q) * d == 0.0;
    if r > q {
      ProductPositive(r - q, d);
    } else if r < q {
      ProductPositive(q - r, d);
    }
  }

  /** The two roots: one depends on the tilt alone, the other on the edges alone. */
  lemma Roots(sqrt: real -> real, b: Bar)
    requires IsRoot(sqrt) && b.Proper()
    ensures b.Width() > 0.0 && b.Height() > 0.0 && b.Area() > 0.0
    ensures Discriminant(b.Width(), b.Height(), b.Area()) >= 0.0
    ensures var q := Coefficient(b.Width(), b.Height(), b.Area());
            var root := sqrt(Discriminant(b.Width(), b.Height(), b.Area()));
            (-q + root) / (4.0 * b.Area()) == b.OtherRoot() >= 2.0 && (-q - root) / (4.0 * b.Area()) == b.Z()
  {
    Positive(b);
    Terms(b);
    RootsOfBounds(sqrt, b.Width(), b.Height(), b.Area(), b.EdgeSquare(), b.TiltedArea(), b.Z());
  }

  lemma RootsOfBounds(sqrt: real -> real, w: real, h: real, a: real, e: real, p: real, z: real)
    requires IsRoot(sqrt) && a > 0.0 && e >= 4.0 * a >= p == z * (2.0 * a)
    requires Coefficient(w, h, a) == -e - p && (w + h) * (w + h) == e * z
    ensures Discriminant(w, h, a) >= 0.0
    ensures var q, root := Coefficient(w, h, a), sqrt(Discriminant(w, h, a));
            (-q + root) / (4.0 * a) == e / (2.0 * a) >= 2.0 && (-q - root) / (4.0 * a) == z
  {
    DiscriminantOf(w, h, a, e, p, z);
    RootsOf(sqrt, Coefficient(w, h, a), Discriminant(w, h, a), e, a, p, z);
  }

  lemma RootsOf(sqrt: real -> real, q: real, d: real, e: real, a: real, p: real, z: real)
    requires IsRoot(sqrt) && a > 0.0 && e >= 4.0 * a >= p == z * (2.0 * a) && q == -e - p && d == (e - p) * (e - p)
    ensures d >= 0.0
    ensures (-q + sqrt(d)) / (4.0 * a) == e / (2.0 * a) >= 2.0 && (-q - sqrt(d)) / (4.0 * a) == z
  {
    RootIs(sqrt, d, e - p);
    Quotients(q, sqrt(d), e, a, p, z);
  }

  /** The quadratic's coefficient, in terms of the squared edge sum and the tilted area. */
  lemma Terms(b: Bar)
    requires b.Proper() && b.Area() > 0.0
    ensures b.EdgeSquare() >= 4.0 * b.Area() >= b.TiltedArea() == b.Z() * (2.0 * b.Area())
    ensures Coefficient(b.Width(), b.Height(), b.Area()) == -b.EdgeSquare() - b.TiltedArea()
    ensures (b.Width() + b.Height()) * (b.Width() + b.Height()) == b.EdgeSquare() * b.Z()
  {
    ZBounds(b);
    CoefficientOf(b);
    EdgesDominate(b.l, b.t, b.Z(), b.EdgeSquare(), b.Area(), b.TiltedArea());
  }

  lemma DiscriminantOf(w: real, h: real, a: real, e: real, p: real, z: real)
    requires Coefficient(w, h, a) == -e - p && (w + h) * (w + h) == e * z && p == z * (2.0 * a)
    ensures Discriminant(w, h, a) == (e - p) * (e - p)
  {
    var sum := w + h;
    assert 8.0 * a * sum * sum == 8.0 * a * (sum * sum);
    assert 8.0 * a * (e * z) == 4.0 * (e * p);
    assert (e + p) * (e + p) - (e - p) * (e - p) == 4.0 * (e * p);
  }

  lemma Positive(b: Bar)
    requires b.Proper()
    ensures b.Width() > 0.0 && b.Height() > 0.0 && b.Area() > 0.0
  {
    ProductPositive(b.l, b.t);
    if b.c > 0.0 {
      ProductPositive(b.l, b.c);
      ProductPositive(b.t, b.c);
    }
    if b.s > 0.0 {
      ProductPositive(b.l, b.s);
      ProductPositive(b.t, b.s);
    }
  }

  lemma EdgesDominate(l: real, t: real, z: real, e: real, a: real, p: real)
    requires e == (l + t) * (l + t) && a == l * t > 0.0 && p == z * (2.0 * a) && z <= 2.0
    ensures e >= 4.0 * a >= p
  {
    SquareNonNegative(l - t);
    assert (l - t) * (l - t) == l * l - 2.0 * a + t * t;
    assert e == l * l + 2.0 * a + t * t;
    assert (2.0 - z) * (2.0 * a) >= 0.0;
  }

  lemma Quotients(q: real, root: real, e: real, a: real, p: real, z: real)
    requires a > 0.0 && e >= 4.0 * a && p == z * (2.0 * a) && q == -e - p && root == e - p
    ensures (-q + root) / (4.0 * a) == e / (2.0 * a) >= 2.0
    ensures (-q - root) / (4.0 * a) == z
  {
    var r := e / (2.0 * a);
    assert r * (2.0 * a) == e;
    Divide(-q + root, 4.0 * a, r);
    Divide(-q - root, 4.0 * a, z);
    if r < 2.0 {
      ProductPositive(2.0 - r, 2.0 * a);
    }
  }

  lemma AtZIs(sqrt: real -> real, sum: real, area: real, z: real, f: real, edges: real, d: real)
    requires sqrt(z) == f > 0.0 && sum / f == edges && 0.0 <= d < edges
    requires DifferenceSquared(edges, area) >= 0.0 && sqrt(DifferenceSquared(edges, area)) == d
    ensures AtZ(sqrt, sum, area, z) == Some(Shape(0.5 * (edges + d), 0.5 * (edges - d), z))
  {
  }

  lemma BoundsSum(l: real, t: real, c: real, s: real)
    ensures l * c + t * s + (l * s + t * c) == (l + t) * (c + s)
    ensures DifferenceSquared(l + t, l * t) == (l - t) * (l - t)
  {
  }

  /** The true z always gives the rectangle back. */
  lemma TrueRootRecovers(sqrt: real -> real, b: Bar)
    requires IsRoot(sqrt) && b.Proper()
    ensures Candidate(sqrt, b.Width() + b.Height(), b.Area(), b.Z()) == Some(Shape(b.l, b.t, b.Z()))
  {
    ZBounds(b);
    BoundsSum(b.l, b.t, b.c, b.s);
    var f, edges, d := b.c + b.s, b.l + b.t, b.l - b.t;
    RootIs(sqrt, b.Z(), f);
    Divide(b.Width() + b.Height(), f, edges);
    RootIs(sqrt, DifferenceSquared(edges, b.Area()), d);
    AtZIs(sqrt, b.Width() + b.Height(), b.Area(), b.Z(), f, edges, d);
  }

  /** What the other root proposes when the tolerance admits it: it is taken for z = 2. */
  lemma OtherRootProposes(sqrt: real -> real, b: Bar)
    requires IsRoot(sqrt) && b.Proper()
    ensures b.Area() > 0.0
    ensures var r := AtZ(sqrt, b.Width() + b.Height(), b.Area(), 2.0);
            && (r.None? <==> b.HalfSquare() < 4.0 * b.Area())
            && (r.Some? ==> Square(r.value.length + r.value.thickness) == b.HalfSquare())
  {
    Positive(b);
    SumOfBounds(b);
    ProposedAtTwo(sqrt, b.Width() + b.Height(), b.Area(), b.HalfSquare());
  }

  lemma SumOfBounds(b: Bar)
    requires b.Proper()
    ensures (b.Width() + b.Height()) * (b.Width() + b.Height()) == 2.0 * b.HalfSquare()
  {
    ZBounds(b);
    SumSquared(b.l, b.t, b.c, b.s, b.Z());
  }

  lemma ProposedAtTwo(sqrt: real -> real, sum: real, area: real, half: real)
    requires IsRoot(sqrt) && sum > 0.0 && area > 0.0 && sum * sum == 2.0 * half
    ensures var r := AtZ(sqrt, sum, area, 2.0);
            && (r.None? <==> half < 4.0 * area)
            && (r.Some? ==> Square(r.value.length + r.value.thickness) == half)
  {
    var two := sqrt(2.0);
    RootOfTwo(sqrt);
    var edges := EdgeSum(sqrt, sum, 2.0);
    SquareOfQuotient(sum, two, edges, half);
    var squared := DifferenceSquared(edges, area);
    if squared >= 0.0 {
      RootBelow(edges, sqrt(squared), area);
    }
  }

  lemma RootOfTwo(sqrt: real -> real)
    requires IsRoot(sqrt)
    ensures sqrt(2.0) > 0.0 && sqrt(2.0) * sqrt(2.0) == 2.0
  {
  }

  lemma SquareOfQuotient(sum: real, root: real, edges: real, half: real)
    requires root > 0.0 && sum > 0.0 && edges == sum / root && sum * sum == half * (root * root)
    ensures edges > 0.0 && edges * edges == half
  {
    var n := root * root;
    ProductPositive(root, root);
    assert edges * root == sum;
    assert (edges * edges) * n == sum * sum;
    Divide((edges * edges) * n, n, half);
    Divide((edges * edges) * n, n, edges * edges);
    if edges < 0.0 {
      ProductPositive(-edges, root);
    }
  }

  lemma SquareMonotone(x: real, y: real)
    requires 0.0 <= x <= y
    ensures x * x <= y * y
  {
  }

  /** With a positive area the difference of the edges is below their sum. */
  lemma RootBelow(edges: real, difference: real, area: real)
    requires edges > 0.0 && area > 0.0 && difference >= 0.0
    requires difference * difference == DifferenceSquared(edges, area)
    ensures difference < edges
  {
    if difference >= edges {
      SquareMonotone(edges, difference);
    }
  }

  /** For every filled rectangle a shape is recovered. Its edges are the rectangle's exactly when the other root
      lies beyond the tolerance, or the tilt is 45 degrees, or taking the other root for 2 leads nowhere. */
  lemma RecoversRectangle(sqrt: real -> real, b: Bar)
    requires IsRoot(sqrt) && b.Proper()
    ensures b.Area() > 0.0
    ensures var r := Recovered(sqrt, b.Width(), b.Height(), b.Area());
            && r.Some?
            && (r.value.length == b.l && r.value.thickness == b.t <==>
                  || b.OtherRoot() > 2.0 + EPSILON
                  || b.Z() == 2.0
                  || b.HalfSquare() < 4.0 * b.Area())
  {
    Roots(sqrt, b);
    TrueRootRecovers(sqrt, b);
    OtherRootProposes(sqrt, b);
    ZBounds(b);
    var sum := b.Width() + b.Height();
    var first := AtZ(sqrt, sum, b.Area(), 2.0);
    if b.OtherRoot() <= 2.0 + EPSILON && first.Some? {
      assert Recovered(sqrt, b.Width(), b.Height(), b.Area()) == first;
      if first.value.length == b.l && first.value.thickness == b.t {
        ProductPositive(b.l + b.t, b.l + b.t);
        assert Square(first.value.length + first.value.thickness) == b.EdgeSquare();
        HalfOfWhole(b.EdgeSquare(), b.Z());
      }
    }
  }

  lemma HalfOfWhole(e: real, z: real)
    requires e > 0.0 && z <= 2.0 && Half(e, z) >= e
    ensures z == 2.0
  {
    if z < 2.0 {
      ProductPositive(e, 2.0 - z);
    }
  }

  /** In particular every rectangle that is not nearly square comes back, at any tilt, and so does every square. */
  lemma ElongatedRecovers(sqrt: real -> real, b: Bar)
    requires IsRoot(sqrt) && b.Proper()
    requires b.l == b.t || Square(b.l - b.t) > Tolerance(b.Area())
    ensures Recovered(sqrt, b.Width(), b.Height(), b.Area()).Some?
    ensures var r := Recovered(sqrt, b.Width(), b.Height(), b.Area()).value; r.length == b.l && r.thickness == b.t
  {
    RecoversRectangle(sqrt, b);
    ZBounds(b);
    GapOfEdges(b);
    if b.l != b.t {
      BeyondTolerance(b.EdgeSquare(), b.Area(), Square(b.l - b.t), b.OtherRoot());
    } else if b.HalfSquare() >= b.EdgeSquare() {
      HalfOfWhole(b.EdgeSquare(), b.Z());
    }
  }

  lemma GapOfEdges(b: Bar)
    requires b.Area() > 0.0
    ensures b.EdgeSquare() - 4.0 * b.Area() == Square(b.l - b.t)
    ensures b.l > 0.0 && b.t > 0.0 ==> b.EdgeSquare() > 0.0
    ensures b.OtherRoot() * (2.0 * b.Area()) == b.EdgeSquare()
  {
  }

  lemma BeyondTolerance(e: real, a: real, gap: real, q: real)
    requires a > 0.0 && e - 4.0 * a == gap > Tolerance(a) && q * (2.0 * a) == e
    ensures q > 2.0 + EPSILON
  {
    if q <= 2.0 + EPSILON {
      Scale(q, 2.0 + EPSILON, 2.0 * a);
    }
  }

  lemma Scale(x: real, y: real, d: real)
    requires x <= y && d >= 0.0
    ensures x * d <= y * d
  {
  }

  /** The boxes and areas the detector measures are whole numbers, and for those the true edges come back, at any
      tilt, square or not: wherever the other root could win, width and height would differ by less than a pixel, so
      they are equal, and the rectangle is a square or stands at 45 degrees. Any 32-bit area is below the bound. */
  lemma IntegralBoxRecovers(sqrt: real -> real, b: Bar, w: int, h: int)
    requires IsRoot(sqrt) && b.Proper() && b.Width() == w as real && b.Height() == h as real
    requires b.Area() < LARGEST_AREA
    ensures Recovered(sqrt, b.Width(), b.Height(), b.Area()).Some?
    ensures var r := Recovered(sqrt, b.Width(), b.Height(), b.Area()).value; r.length == b.l && r.thickness == b.t
  {
    RecoversRectangle(sqrt, b);
    if b.OtherRoot() <= 2.0 + EPSILON && b.HalfSquare() >= 4.0 * b.Area() {
      SquareOrDiagonal(b, w, h);
      if b.l == b.t {
        ElongatedRecovers(sqrt, b);
      }
    }
  }

  lemma SquareOrDiagonal(b: Bar, w: int, h: int)
    requires b.Proper() && b.Width() == w as real && b.Height() == h as real && 0.0 < b.Area() < LARGEST_AREA
    requires b.OtherRoot() <= 2.0 + EPSILON && b.HalfSquare() >= 4.0 * b.Area()
    ensures b.l == b.t || b.Z() == 2.0
  {
    SmallSkew(b);
    BoxDifference(b.l, b.t, b.c, b.s);
    SquareOfSkew(b.c, b.s);
    GapOrSkew(w, h, b.l - b.t, b.c - b.s);
  }

  lemma GapOrSkew(w: int, h: int, gap: real, skew: real)
    requires w as real - h as real == gap * skew && Square(gap * skew) < 1.0
    ensures gap == 0.0 || skew == 0.0
  {
    assert (w - h) as real == gap * skew;
    BelowOnePixel(w - h);
    if gap != 0.0 {
      NoZeroDivisors(gap, skew);
    }
  }

  lemma SmallSkew(b: Bar)
    requires b.Proper() && 0.0 < b.Area() < LARGEST_AREA
    requires b.OtherRoot() <= 2.0 + EPSILON && b.HalfSquare() >= 4.0 * b.Area()
    ensures Square((b.l - b.t) * (b.c - b.s)) < 1.0
  {
    GapBelowTolerance(b);
    SquareOfSkew(b.c, b.s);
    ZBounds(b);
    SmallProduct(b.EdgeSquare(), b.Area(), b.l - b.t, b.c - b.s, b.Z());
  }

  lemma SmallProduct(e: real, a: real, gap: real, skew: real, z: real)
    requires 0.0 < a < LARGEST_AREA && e - 4.0 * a == Square(gap) <= Tolerance(a)
    requires z <= 2.0 && Half(e, z) >= 4.0 * a && Square(skew) == 2.0 - z
    ensures Square(gap * skew) < 1.0
  {
    SquareNonNegative(gap);
    SmallDifference(e, a, Square(gap), z);
    SquareOfProduct(gap, skew);
  }

  lemma GapBelowTolerance(b: Bar)
    requires b.Area() > 0.0 && b.OtherRoot() <= 2.0 + EPSILON
    ensures b.EdgeSquare() - 4.0 * b.Area() == Square(b.l - b.t) <= Tolerance(b.Area())
  {
    GapOfEdges(b);
    Scale(b.OtherRoot(), 2.0 + EPSILON, 2.0 * b.Area());
  }

  lemma SquareOfSkew(c: real, s: real)
    requires c * c + s * s == 1.0
    ensures Square(c - s) == 2.0 - (1.0 + 2.0 * (c * s))
  {
  }

  lemma BoxDifference(l: real, t: real, c: real, s: real)
    ensures l * c + t * s - (l * s + t * c) == (l - t) * (c - s)
  {
  }

  lemma SquareOfProduct(x: real, y: real)
    ensures Square(x * y) == Square(x) * Square(y)
  {
  }

  lemma NoZeroDivisors(x: real, y: real)
    requires x * y == 0.0 && x != 0.0
    ensures y == 0.0
  {
    if y > 0.0 && x > 0.0 {
      ProductPositive(x, y);
    } else if y > 0.0 {
      ProductPositive(-x, y);
    } else if y < 0.0 && x > 0.0 {
      ProductPositive(x, -y);
    } else if y < 0.0 {
      ProductPositive(-x, -y);
    }
  }

  lemma BelowOnePixel(n: int)
    requires Square(n as real) < 1.0
    ensures n == 0
  {
    if n >= 1 {
      SquareMonotone(1.0, n as real);
    } else if n <= -1 {
      SquareMonotone(1.0, -(n as real));
    }
  }

  /** How far apart width and height are where the other root lies within the tolerance and proposes something. */
  lemma SmallDifference(e: real, a: real, gap: real, z: real)
    requires 0.0 < a < LARGEST_AREA && e - 4.0 * a == gap && 0.0 <= gap <= Tolerance(a) && z <= 2.0
    requires Half(e, z) >= 4.0 * a
    ensures gap * (2.0 - z) < 1.0
  {
    var k, tolerance := 2.0 - z, Tolerance(a);
    var d := gap * k;
    TimesGap(gap, k, e, d);
    SquareMonotone(gap, tolerance);
    Grow(0.0, k, gap);
    Grow(4.0 * a, e, d);
    TooLarge(a, tolerance, d);
  }

  lemma TimesGap(gap: real, k: real, e: real, d: real)
    requires gap >= 0.0 && k * e <= 2.0 * gap && d == gap * k
    ensures d * e <= 2.0 * (gap * gap)
  {
    Grow(k * e, 2.0 * gap, gap);
    assert d * e == gap * (k * e);
    assert gap * (2.0 * gap) == 2.0 * (gap * gap);
  }

  lemma Grow(x: real, y: real, d: real)
    requires x <= y && d >= 0.0
    ensures d * x <= d * y
  {
  }

  lemma TimesItself(x: real, k: real, a: real)
    requires x == k * a
    ensures x * x == k * k * (a * a)
  {
  }

  lemma TooLarge(a: real, tolerance: real, d: real)
    requires 0.0 < a < LARGEST_AREA && tolerance == Tolerance(a) && d * (4.0 * a) <= 2.0 * (tolerance * tolerance)
    ensures d < 1.0
  {
    TimesItself(tolerance, 0.000002, a);
    SquareOfArea(a);
    AreaTimesArea(a, a * a, tolerance * tolerance);
    if d >= 1.0 {
      Scale(1.0, d, 4.0 * a);
    }
  }

  lemma SquareOfArea(a: real)
    requires 0.0 < a < 500000000000.0
    ensures a * a < 500000000000.0 * a
  {
    var rest := 500000000000.0 - a;
    ProductPositive(a, rest);
    assert a * rest == 500000000000.0 * a - a * a;
  }

  lemma AreaTimesArea(a: real, square: real, tolerance: real)
    requires square < 500000000000.0 * a && tolerance == 0.000000000004 * square
    ensures 2.0 * tolerance < 4.0 * a
  {
  }

  /** Over real boxes, which no measurement gives, this fails: a nearly square bar a hair off 45 degrees, in a box
      that is not a whole number of pixels wide, comes back with other edges. */
  lemma NearlySquareFails(sqrt: real -> real)
    requires IsRoot(sqrt)
    ensures var b := Bar(2001.0, 1999.0, 4060.0 / 5741.0, 4059.0 / 5741.0);
            && b.Proper()
            && var r := Recovered(sqrt, b.Width(), b.Height(), b.Area());
            r.Some? && !(r.value.length == b.l && r.value.thickness == b.t)
  {
    RecoversRectangle(sqrt, Bar(2001.0, 1999.0, 4060.0 / 5741.0, 4059.0 / 5741.0));
  }
}
