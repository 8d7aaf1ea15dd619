/** Moments of a set of lattice points: the brute-force sums, the closed forms the extractor adds per run,
    and the bound that keeps every accumulator inside 64 bits. */
module BlobMoments {
  import opened Products
  import opened RunForest
  import opened SamplingLattice

  datatype Moments = Moments(area: int, sx: int, sy: int, sxx: int, syy: int, sxy: int, luma: int) {
    function Plus(m: Moments): Moments {
      Moments(area + m.area, sx + m.sx, sy + m.sy, sxx + m.sxx, syy + m.syy, sxy + m.sxy, luma + m.luma)
    }

    predicate AllBelow(bound: int) {
      && 0 <= area < bound && 0 <= sx < bound && 0 <= sy < bound && 0 <= sxx < bound
      && 0 <= syy < bound && 0 <= sxy < bound && 0 <= luma < bound
    }
  }

  lemma PlusSwap(a: Moments, b: Moments, c: Moments)
    ensures a.Plus(b.Plus(c)) == b.Plus(a.Plus(c))
  {
  }

  const ZERO := Moments(0, 0, 0, 0, 0, 0, 0)

  /** What one point contributes. */
  ghost function Weight(luma: Pixel -> int): Pixel -> Moments {
    (p: Pixel) => Moments(1, p.x, p.y, p.x * p.x, p.y * p.y, p.x * p.y, luma(p))
  }

  /** The brute-force sum over a set of points, in any order. */
  ghost function Total(w: Pixel -> Moments, s: set<Pixel>): Moments {
    if s == {} then ZERO
    else
      var p :| p in s;
      w(p).Plus(Total(w, s - {p}))
  }

  lemma {:induction false} TotalPick(w: Pixel -> Moments, s: set<Pixel>, p: Pixel)
    requires p in s
    ensures Total(w, s) == w(p).Plus(Total(w, s - {p}))
    decreases s
  {
    var q :| q in s && Total(w, s) == w(q).Plus(Total(w, s - {q}));
    if q != p {
      var rest := s - {q} - {p};
      assert s - {p} - {q} == rest;
      TotalPick(w, s - {q}, p);
      TotalPick(w, s - {p}, q);
      assert Total(w, s) == w(q).Plus(w(p).Plus(Total(w, rest)));
      assert Total(w, s - {p}) == w(q).Plus(Total(w, rest));
    }
  }

  lemma TotalAdd(w: Pixel -> Moments, s: set<Pixel>, p: Pixel)
    requires p !in s
    ensures Total(w, s + {p}) == w(p).Plus(Total(w, s))
  {
    TotalPick(w, s + {p}, p);
    assert s + {p} - {p} == s;
  }

  lemma {:induction false} TotalUnion(w: Pixel -> Moments, s: set<Pixel>, t: set<Pixel>)
    requires s * t == {}
    ensures Total(w, s + t) == Total(w, s).Plus(Total(w, t))
    decreases |t|
  {
    if t == {} {
      assert s + t == s;
    } else {
      var p :| p in t;
      var rest := t - {p};
      TakeOut(s, t, p);
      TotalUnion(w, s, rest);
      TotalAdd(w, s + rest, p);
      TotalAdd(w, rest, p);
      PlusSwap(w(p), Total(w, s), Total(w, rest));
    }
  }

  lemma TakeOut(s: set<Pixel>, t: set<Pixel>, p: Pixel)
    requires s * t == {} && p in t
    ensures s * (t - {p}) == {} && p !in s + (t - {p})
    ensures s + (t - {p}) + {p} == s + t && t - {p} + {p} == t
  {
    assert p !in s by {
      assert p !in s * t;
    }
  }

  lemma {:induction false} AreaIsSize(w: Pixel -> Moments, s: set<Pixel>)
    requires forall p :: w(p).area == 1
    ensures Total(w, s).area == |s|
  {
    if s != {} {
      var p :| p in s;
      TotalPick(w, s, p);
      AreaIsSize(w, s - {p});
    }
  }

  // ---- closed forms per run -----------------------------------------------------------------------

  function SumSquares(n: nat): nat {
    n * (n + 1) * (2 * n + 1) / 6
  }

  lemma {:induction false} SixDivides(n: nat)
    ensures 6 * SumSquares(n) == n * (n + 1) * (2 * n + 1)
  {
    if n > 0 {
      SixDivides(n - 1);
      Cubes(n);
      SixthOf(n * (n + 1) * (2 * n + 1), SumSquares(n - 1) + n * n);
    }
  }

  lemma SixthOf(a: int, q: int)
    requires a == 6 * q
    ensures 6 * (a / 6) == a
  {
  }

  lemma Cubes(n: int)
    ensures n * (n + 1) * (2 * n + 1) == (n - 1) * (n - 1 + 1) * (2 * (n - 1) + 1) + 6 * (n * n)
  {
    assert n * (n + 1) * (2 * n + 1) == (n * n + n) * (2 * n + 1) == 2 * (n * n * n) + 3 * (n * n) + n;
    assert (n - 1) * n * (2 * n - 1) == (n * n - n) * (2 * n - 1) == 2 * (n * n * n) - 3 * (n * n) + n;
  }

  /** The points of one run. */
  ghost function RunPixels(s: Span): (r: set<Pixel>)
    ensures forall p :: p in r <==> InSpan(s, p)
  {
    var r := set x | s.x0 <= x <= s.x1 :: Pixel(x, s.y);
    assert forall p :: InSpan(s, p) ==> p in r by {
      forall p | InSpan(s, p) ensures p in r {
        assert p == Pixel(p.x, s.y);
      }
    }
    r
  }

  /** Luma added up from left to right over columns x0 .. x1 - 1 of row y. */
  ghost function LumaSum(luma: Pixel -> int, x0: int, x1: int, y: int): int
    decreases x1 - x0
  {
    if x0 >= x1 then 0 else LumaSum(luma, x0, x1 - 1, y) + luma(Pixel(x1 - 1, y))
  }

  /** The triangular and square-sum formulas the extractor uses for one run. */
  function RunMoments(s: Span, luma: int): Moments
    requires s.x0 <= s.x1
  {
    var length := s.x1 - s.x0 + 1;
    var sx := (s.x0 + s.x1) * length / 2;
    Moments(
      length, sx, length * s.y,
      SumSquares(s.x1) - (if s.x0 > 0 then SumSquares(s.x0 - 1) else 0),
      length * s.y * s.y, sx * s.y, luma)
  }

  lemma TriangleStep(x0: int, x1: int)
    ensures (x0 + x1) * (x1 - x0 + 1) == (x0 + (x1 - 1)) * (x1 - 1 - x0 + 1) + 2 * x1
  {
    assert (x0 + x1) * (x1 - x0 + 1) == (x0 + x1 - 1) * (x1 - x0) + (x0 + x1) + (x1 - x0);
  }

  /** `sx` halves an even product. */
  lemma {:induction false} SumOfColumns(x0: nat, x1: nat)
    requires x0 <= x1
    ensures 2 * ((x0 + x1) * (x1 - x0 + 1) / 2) == (x0 + x1) * (x1 - x0 + 1)
    decreases x1
  {
    if x0 == x1 {
      assert (x0 + x1) * 1 == 2 * x0;
    } else {
      SumOfColumns(x0, x1 - 1);
      TriangleStep(x0, x1);
    }
  }

  lemma SquaresStep(n: nat)
    requires n > 0
    ensures SumSquares(n) == SumSquares(n - 1) + n * n
  {
    SixDivides(n);
    SixDivides(n - 1);
    Cubes(n);
  }

  lemma OneColumn(x: nat, y: nat, gray: int)
    ensures RunMoments(Span(x, x, y), gray) == Moments(1, x, y, x * x, y * y, x * y, gray)
  {
    if x > 0 {
      SquaresStep(x);
    }
    assert (x + x) * 1 / 2 == x;
    assert 1 * y * y == y * y;
  }

  lemma OneColumnMore(s: Span, luma: int, gray: int)
    requires s.x0 < s.x1
    ensures RunMoments(s, luma + gray)
         == Moments(1, s.x1, s.y, s.x1 * s.x1, s.y * s.y, s.x1 * s.y, gray)
            .Plus(RunMoments(Span(s.x0, s.x1 - 1, s.y), luma))
  {
    SumOfColumns(s.x0, s.x1);
    SumOfColumns(s.x0, s.x1 - 1);
    TriangleStep(s.x0, s.x1);
    SquaresStep(s.x1);
    OneLonger(s.x1 - s.x0, s.y, (s.x0 + (s.x1 - 1)) * (s.x1 - 1 - s.x0 + 1) / 2, s.x1);
  }

  lemma OneLonger(length: int, y: int, sx: int, x: int)
    ensures (length + 1) * y == length * y + y
    ensures (length + 1) * y * y == length * y * y + y * y
    ensures (sx + x) * y == sx * y + x * y
  {
  }

  lemma WithoutLast(s: Span)
    requires s.x0 <= s.x1
    ensures Pixel(s.x1, s.y) in RunPixels(s)
    ensures s.x0 == s.x1 ==> RunPixels(s) - {Pixel(s.x1, s.y)} == {}
    ensures s.x0 < s.x1 ==> RunPixels(s) - {Pixel(s.x1, s.y)} == RunPixels(Span(s.x0, s.x1 - 1, s.y))
  {
  }

  /** The closed forms are the brute-force sums over the run's points. */
  lemma {:induction false} RunTotal(luma: Pixel -> int, s: Span)
    requires s.x0 <= s.x1
    ensures Total(Weight(luma), RunPixels(s)) == RunMoments(s, LumaSum(luma, s.x0, s.x1 + 1, s.y))
    decreases s.x1
  {
    var last := Pixel(s.x1, s.y);
    WithoutLast(s);
    TotalPick(Weight(luma), RunPixels(s), last);
    if s.x0 == s.x1 {
      OneColumn(s.x1, s.y, luma(last));
      assert LumaSum(luma, s.x0, s.x0, s.y) == 0;
    } else {
      RunTotal(luma, Span(s.x0, s.x1 - 1, s.y));
      OneColumnMore(s, LumaSum(luma, s.x0, s.x1, s.y), luma(last));
    }
  }

  // ---- 64-bit bound -------------------------------------------------------------------------------

  const TWO_64: int := 0x1_0000_0000_0000_0000
  const LARGEST_SQUARE: int := 4294705156 // 65534 squared

  ghost predicate InGrid(s: set<Pixel>, width: nat, height: nat) {
    forall p :: p in s ==> 0 <= p.x < width && 0 <= p.y < height
  }

  lemma {:induction false} RowAtMost(s: set<Pixel>, width: nat, y: int)
    requires forall p :: p in s ==> p.y == y && 0 <= p.x < width
    ensures |s| <= width
  {
    if width == 0 {
      assert s == {};
    } else {
      var last := Pixel(width - 1, y);
      RowAtMost(s - {last}, width - 1, y);
      if last !in s {
        assert s - {last} == s;
      }
    }
  }

  lemma {:induction false} GridAtMost(s: set<Pixel>, width: nat, height: nat)
    requires InGrid(s, width, height)
    ensures |s| <= height * width
  {
    if height == 0 {
      assert s == {};
    } else {
      var row := set p | p in s && p.y == height - 1;
      RowAtMost(row, width, height - 1);
      GridAtMost(s - row, width, height - 1);
      assert s == (s - row) + row;
      OneMoreStep(height - 1, width);
    }
  }

  lemma {:induction false} TotalBound(luma: Pixel -> int, s: set<Pixel>)
    requires forall p :: p in s ==> 0 <= p.x <= 65534 && 0 <= p.y <= 65534 && 0 <= luma(p) <= 255
    ensures Total(Weight(luma), s).AllBelow(|s| * LARGEST_SQUARE + 1)
    decreases |s|
  {
    if s != {} {
      var p :| p in s;
      TotalPick(Weight(luma), s, p);
      TotalBound(luma, s - {p});
      OneMoreStep(|s| - 1, LARGEST_SQUARE);
      assert 65534 * 65534 == LARGEST_SQUARE;
      ProductBelow(p.x, p.x, 65534);
      ProductBelow(p.y, p.y, 65534);
      ProductBelow(p.x, p.y, 65534);
    }
  }

  /** Every accumulator, at any moment of the pass, is a sum over some foreground points of a window of at
      most 65535 by 65535 pixels, and such a sum fits 64 bits. */
  lemma AccumulatorsFit(l: Lattice, s: set<Pixel>)
    requires l.WellFormed() && s <= l.Foreground()
    ensures Total(Weight(l.Gray()), s).AllBelow(TWO_64)
  {
    forall p | p in s
      ensures 0 <= p.x <= 65534 && 0 <= p.y <= 65534
    {
      PointsInsideWindow(l, p);
    }
    TotalBound(l.Gray(), s);
    GridAtMost(s, 65535, 65535);
    ScaleMonotone(|s|, 65535 * 65535, LARGEST_SQUARE);
  }

  lemma PointsInsideWindow(l: Lattice, p: Pixel)
    requires l.WellFormed() && l.On(p)
    ensures 0 <= p.x <= 65534 && 0 <= p.y <= 65534
  {
    StepAtLeastOne(p.x, l.step);
    StepAtLeastOne(p.y, l.step);
  }

  /** The largest intermediate products of the closed forms of a run. */
  predicate ProductsBelow(s: Span, bound: int)
    requires s.x0 <= s.x1
  {
    && (s.x0 + s.x1) * (s.x1 - s.x0 + 1) < bound
    && s.x1 * (s.x1 + 1) * (2 * s.x1 + 1) < bound
    && (s.x1 - s.x0 + 1) * s.y * s.y < bound
  }

  /** They fit as well. */
  lemma ClosedFormsFit(s: Span)
    requires s.x0 <= s.x1 <= 65534 && s.y <= 65534
    ensures ProductsBelow(s, TWO_64)
  {
    ProductBelow(s.x0 + s.x1, s.x1 - s.x0 + 1, 131072);
    ProductBelow(s.x1, s.x1 + 1, 65536);
    assert s.x1 * (s.x1 + 1) * (2 * s.x1 + 1) <= 65536 * 65536 * (2 * s.x1 + 1);
    ProductBelow(s.x1 - s.x0 + 1, s.y, 65536);
    assert (s.x1 - s.x0 + 1) * s.y * s.y <= 65536 * 65536 * s.y;
  }

  // ---- components ---------------------------------------------------------------------------------

  datatype Component = Component(sums: Moments, x0: int, x1: int, y0: int, y1: int)

  const EMPTY := Component(ZERO, 0, 0, 0, 0)

  /** Adds one run to a component. The first run fixes the top row: runs arrive in row order. */
  function Absorb(c: Component, s: Span, m: Moments): Component
    requires s.x0 <= s.x1
  {
    var sums := c.sums.Plus(m);
    if c.sums.area == 0 then Component(sums, s.x0, s.x1, s.y, s.y)
    else Component(sums, if s.x0 < c.x0 then s.x0 else c.x0, if s.x1 > c.x1 then s.x1 else c.x1,
                   c.y0, if s.y > c.y1 then s.y else c.y1)
  }

  lemma AbsorbSums(c: Component, w: Pixel -> Moments, s: set<Pixel>, run: Span)
    requires c.sums == Total(w, s) && run.x0 <= run.x1
    requires forall p :: w(p).area == 1
    requires forall p :: p in s ==> !InSpan(run, p)
    ensures Absorb(c, run, Total(w, RunPixels(run))).sums == Total(w, s + RunPixels(run))
    ensures c.sums.area == |s|
  {
    assert s * RunPixels(run) == {};
    TotalUnion(w, s, RunPixels(run));
    AreaIsSize(w, s);
  }

  /** `c`'s box is the tight bounding box of `s`. */
  ghost predicate Boxes(c: Component, s: set<Pixel>) {
    && (forall p :: p in s ==> c.x0 <= p.x <= c.x1 && c.y0 <= p.y <= c.y1)
    && (s != {} ==> (exists p :: p in s && p.x == c.x0) && (exists p :: p in s && p.x == c.x1)
                    && (exists p :: p in s && p.y == c.y0) && (exists p :: p in s && p.y == c.y1))
  }

  /** The component holds the brute-force sums over `s`, and its box is the tight bounding box of `s`. */
  ghost predicate Describes(c: Component, luma: Pixel -> int, s: set<Pixel>) {
    c.sums == Total(Weight(luma), s) && Boxes(c, s)
  }

  lemma AbsorbBox(c: Component, s: set<Pixel>, run: Span, m: Moments)
    requires Boxes(c, s) && c.sums.area == |s| && run.x0 <= run.x1
    requires forall p :: p in s ==> p.y <= run.y
    ensures Boxes(Absorb(c, run, m), s + RunPixels(run))
  {
    var d, more := Absorb(c, run, m), s + RunPixels(run);
    assert Pixel(run.x0, run.y) in more && Pixel(run.x1, run.y) in more;
    if s != {} {
      var a :| a in s && a.x == c.x0;
      var b :| b in s && b.x == c.x1;
      var e :| e in s && e.y == c.y0;
      var f :| f in s && f.y == c.y1;
      assert a in more && b in more && e in more && f in more;
      assert d.x0 == a.x || d.x0 == run.x0;
      assert d.x1 == b.x || d.x1 == run.x1;
    }
  }

  lemma AbsorbDescribes(c: Component, luma: Pixel -> int, s: set<Pixel>, run: Span)
    requires Describes(c, luma, s) && run.x0 <= run.x1
    requires forall p :: p in s ==> p.y <= run.y && !InSpan(run, p)
    ensures Describes(Absorb(c, run, Total(Weight(luma), RunPixels(run))), luma, s + RunPixels(run))
  {
    AbsorbSums(c, Weight(luma), s, run);
    AbsorbBox(c, s, run, Total(Weight(luma), RunPixels(run)));
  }

  /** The points of the runs before `n` whose representative is `r`. */
  ghost function Members(spans: seq<Span>, rep: seq<nat>, r: nat, n: nat): (s: set<Pixel>)
    requires n <= |spans| == |rep|
    ensures forall p :: p in s <==> exists k :: 0 <= k < n && rep[k] == r && InSpan(spans[k], p)
  {
    if n == 0 then {}
    else if rep[n - 1] == r then Members(spans, rep, r, n - 1) + RunPixels(spans[n - 1])
    else Members(spans, rep, r, n - 1)
  }
}
