/** The thresholded sampling lattice of a scan window, its 8-connectivity, and its maximal horizontal runs.
    This is the plain description the run-length extractor is measured against. */
module SamplingLattice {
  import Bytes
  import opened FiniteSets
  import opened Geometry
  import opened Products
  import opened Reachability
  import opened RunForest

  /** An 8-bit gray frame: row `y` starts at byte `y * stride`. */
  datatype Frame = Frame(width: nat, height: nat, stride: nat, luma: seq<Bytes.Byte>)

  /** A lattice point: column and row counted in sampling steps from the window's corner. */
  datatype Pixel = Pixel(x: int, y: int)

  predicate FrameOk(f: Frame) {
    && 0 < f.width <= 65535 && 0 < f.height <= 65535 && f.width <= f.stride
    && (f.height - 1) * f.stride + f.width <= |f.luma|
  }

  /** The frame is no larger than a workspace was made for, and its buffer holds it. */
  predicate FitsIn(f: Frame, maxWidth: nat, maxHeight: nat) {
    && f.width > 0 && f.height > 0 && f.width <= maxWidth && f.height <= maxHeight
    && f.stride >= f.width && (f.height - 1) * f.stride + f.width <= |f.luma|
  }

  predicate WindowOk(f: Frame, w: Rect) {
    && w.width > 0 && w.height > 0 && w.x < f.width && w.y < f.height
    && w.width <= f.width - w.x && w.height <= f.height - w.y
  }

  datatype Lattice = Lattice(frame: Frame, window: Rect, threshold: Bytes.Byte, step: nat) {

    predicate WellFormed() {
      FrameOk(frame) && WindowOk(frame, window) && 1 <= step <= 8
    }

    predicate InRange(p: Pixel)
      requires WellFormed()
    {
      0 <= p.x && 0 <= p.y && p.x * step < window.width && p.y * step < window.height
    }

    function Luma(p: Pixel): Bytes.Byte
      requires WellFormed() && InRange(p)
    {
      ByteInFrame(this, p.x * step, p.y * step);
      frame.luma[(window.y + p.y * step) * frame.stride + window.x + p.x * step]
    }

    predicate On(p: Pixel)
      requires WellFormed()
    {
      InRange(p) && Luma(p) >= threshold
    }

    /** The gray value of a foreground point. */
    ghost function Gray(): Pixel -> int {
      (p: Pixel) => if WellFormed() && On(p) then Luma(p) else 0
    }

    /** The foreground: every sampled point at least as bright as the threshold. */
    ghost function Foreground(): (s: set<Pixel>)
      requires WellFormed()
      ensures forall p :: p in s <==> On(p)
    {
      var s := set x, y | 0 <= x < window.width && 0 <= y < window.height && On(Pixel(x, y)) :: Pixel(x, y);
      assert forall p :: On(p) ==> p in s by {
        forall p | On(p) ensures p in s {
          StepAtLeastOne(p.x, step);
          StepAtLeastOne(p.y, step);
          assert p == Pixel(p.x, p.y);
        }
      }
      s
    }
  }

  lemma ByteInFrame(l: Lattice, px: int, py: int)
    requires l.WellFormed() && 0 <= px < l.window.width && 0 <= py < l.window.height
    ensures 0 <= (l.window.y + py) * l.frame.stride + l.window.x + px < |l.frame.luma|
  {
    var row := l.window.y + py;
    assert row <= l.frame.height - 1;
    ScaleMonotone(row, l.frame.height - 1, l.frame.stride);
    ScaleMonotone(0, row, l.frame.stride);
  }

  // ---- connectivity of a foreground ---------------------------------------------------------------

  /** Two foreground points at king-move distance. */
  ghost function Adjacent(fg: set<Pixel>): (Pixel, Pixel) -> bool {
    (p: Pixel, q: Pixel) => p in fg && q in fg && -1 <= p.x - q.x <= 1 && -1 <= p.y - q.y <= 1
  }

  /** The connected component of `p`, straight from the definition. */
  ghost function ComponentOf(fg: set<Pixel>, p: Pixel): set<Pixel> {
    set q | q in fg && Reach(Adjacent(fg), p, q)
  }

  /** The left ends of the maximal runs: foreground with no foreground to its left. */
  ghost function RunStarts(fg: set<Pixel>): set<Pixel> {
    set p | p in fg && Pixel(p.x - 1, p.y) !in fg
  }

  // ---- runs ---------------------------------------------------------------------------------------

  predicate InSpan(s: Span, p: Pixel) { s.y == p.y && s.x0 <= p.x <= s.x1 }

  ghost predicate Maximal(fg: set<Pixel>, s: Span)
  {
    && s.x0 <= s.x1
    && (forall p :: InSpan(s, p) ==> p in fg)
    && Pixel(s.x0 - 1, s.y) !in fg && Pixel(s.x1 + 1, s.y) !in fg
  }

  predicate Precedes(a: Span, b: Span) { a.y < b.y || (a.y == b.y && a.x1 + 1 < b.x0) }

  /** Neighbouring rows, columns overlapping or diagonal. */
  predicate Touch(below: Span, above: Span) {
    above.y + 1 == below.y && below.x0 <= above.x1 + 1 && above.x0 <= below.x1 + 1
  }

  /** Scan order: everything strictly before column `x` of row `y`. */
  predicate Before(p: Pixel, x: int, y: int) { p.y < y || (p.y == y && p.x < x) }

  ghost predicate Covered(spans: seq<Span>, p: Pixel) {
    exists k :: 0 <= k < |spans| && InSpan(spans[k], p)
  }

  /** `spans` are the maximal runs met before (x, y), in scan order. */
  ghost predicate RunsUpTo(fg: set<Pixel>, spans: seq<Span>, x: int, y: int)
  {
    && (forall k :: 0 <= k < |spans| ==> Maximal(fg, spans[k]) && Before(Pixel(spans[k].x1, spans[k].y), x, y))
    && (forall k, m :: 0 <= k < m < |spans| ==> Precedes(spans[k], spans[m]))
    && (forall p :: p in fg && Before(p, x, y) ==> Covered(spans, p))
  }

  /** `spans` are all maximal runs of the lattice, in scan order. */
  ghost predicate AllRuns(fg: set<Pixel>, spans: seq<Span>)
  {
    && (forall k :: 0 <= k < |spans| ==> Maximal(fg, spans[k]))
    && (forall k, m :: 0 <= k < m < |spans| ==> Precedes(spans[k], spans[m]))
    && (forall p :: p in fg ==> Covered(spans, p))
  }

  ghost function StartOf(s: Span): Pixel { Pixel(s.x0, s.y) }

  ghost function StartsOf(spans: seq<Span>): seq<Pixel> {
    seq(|spans|, k requires 0 <= k < |spans| => StartOf(spans[k]))
  }

  /** Distinct maximal runs never outnumber the run starts, and all of them together are exactly as many. */
  lemma RunsCountStarts(fg: set<Pixel>, spans: seq<Span>)
    requires forall k :: 0 <= k < |spans| ==> Maximal(fg, spans[k])
    requires forall k, m :: 0 <= k < m < |spans| ==> Precedes(spans[k], spans[m])
    ensures |spans| <= |RunStarts(fg)|
    ensures (forall p :: p in fg ==> Covered(spans, p)) ==> |spans| == |RunStarts(fg)|
  {
    var starts := StartsOf(spans);
    DistinctSize(starts);
    StartsAreRunStarts(fg, spans);
    SubsetSize(Elements(starts), RunStarts(fg));
    if forall p :: p in fg ==> Covered(spans, p) {
      RunStartsAreStarts(fg, spans);
      assert Elements(starts) == RunStarts(fg);
    }
  }

  lemma StartsAreRunStarts(fg: set<Pixel>, spans: seq<Span>)
    requires forall k :: 0 <= k < |spans| ==> Maximal(fg, spans[k])
    ensures Elements(StartsOf(spans)) <= RunStarts(fg)
  {
    forall p | p in StartsOf(spans)
      ensures p in RunStarts(fg)
    {
      var k :| 0 <= k < |spans| && StartsOf(spans)[k] == p;
      assert InSpan(spans[k], p);
    }
  }

  lemma RunStartsAreStarts(fg: set<Pixel>, spans: seq<Span>)
    requires forall k :: 0 <= k < |spans| ==> Maximal(fg, spans[k])
    requires forall p :: p in fg ==> Covered(spans, p)
    ensures RunStarts(fg) <= Elements(StartsOf(spans))
  {
    forall p | p in RunStarts(fg)
      ensures p in StartsOf(spans)
    {
      var k :| 0 <= k < |spans| && InSpan(spans[k], p);
      if p.x != spans[k].x0 {
        assert InSpan(spans[k], Pixel(p.x - 1, p.y));
      }
      assert StartsOf(spans)[k] == p;
    }
  }

  // ---- connectivity -------------------------------------------------------------------------------

  /** The links are exactly the touching pairs of runs. */
  ghost predicate LinksAreTouches(spans: seq<Span>, links: set<(int, int)>) {
    forall i, k :: (i, k) in links <==> 0 <= k < i < |spans| && Touch(spans[i], spans[k])
  }

  lemma WithinRun(fg: set<Pixel>, s: Span, p: Pixel, q: Pixel)
    requires Maximal(fg, s) && InSpan(s, p) && InSpan(s, q)
    ensures Reach(Adjacent(fg), p, q)
    decreases if p.x <= q.x then q.x - p.x else p.x - q.x
  {
    if p == q {
      ReachRefl(Adjacent(fg), p);
    } else {
      var r := Pixel(if p.x < q.x then p.x + 1 else p.x - 1, p.y);
      assert InSpan(s, r);
      ReachStep(Adjacent(fg), p, r);
      WithinRun(fg, s, r, q);
      ReachTrans(Adjacent(fg), p, r, q);
    }
  }

  lemma TouchingRunsReach(fg: set<Pixel>, a: Span, b: Span)
    requires Maximal(fg, a) && Maximal(fg, b) && Touch(a, b)
    ensures Reach(Adjacent(fg), StartOf(a), StartOf(b))
    ensures Reach(Adjacent(fg), StartOf(b), StartOf(a))
  {
    // A column of `a` and a column of `b` at distance at most one.
    var xa := if a.x0 >= b.x0 then a.x0 else if b.x0 <= a.x1 then b.x0 else a.x1;
    var xb := if xa < b.x0 then b.x0 else if xa > b.x1 then b.x1 else xa;
    var p, q := Pixel(xa, a.y), Pixel(xb, b.y);
    assert InSpan(a, p) && InSpan(b, q);
    WithinRun(fg, a, StartOf(a), p);
    ReachStep(Adjacent(fg), p, q);
    WithinRun(fg, b, q, StartOf(b));
    ReachTrans(Adjacent(fg), StartOf(a), p, q);
    ReachTrans(Adjacent(fg), StartOf(a), q, StartOf(b));
    ReachSym(Adjacent(fg), StartOf(a), StartOf(b));
  }

  /** Neighbouring foreground points lie in one run or in touching runs. */
  lemma NeighboursTouch(fg: set<Pixel>, spans: seq<Span>, p: Pixel, q: Pixel, i: nat, j: nat)
    requires AllRuns(fg, spans)
    requires Adjacent(fg)(p, q)
    requires i < |spans| && j < |spans| && InSpan(spans[i], p) && InSpan(spans[j], q)
    ensures i == j || Touch(spans[i], spans[j]) || Touch(spans[j], spans[i])
  {
    assert i < j ==> Precedes(spans[i], spans[j]);
    assert j < i ==> Precedes(spans[j], spans[i]);
  }

  /** Runs that share a representative are exactly the runs whose points an 8-connected foreground path
      joins. `rep` is what the forest computes and `links` is what the sweep united. */
  lemma SameClassIffConnected(
      fg: set<Pixel>, spans: seq<Span>, rep: seq<nat>, links: set<(int, int)>,
      i: nat, j: nat, p: Pixel, q: Pixel)
    requires AllRuns(fg, spans) && |rep| == |spans|
    requires PartitionOk(rep, links) && LinksAreTouches(spans, links)
    requires i < |spans| && j < |spans| && InSpan(spans[i], p) && InSpan(spans[j], q)
    ensures rep[i] == rep[j] <==> Reach(Adjacent(fg), p, q)
  {
    if rep[i] == rep[j] {
      ClassReaches(fg, spans, rep, links, i, j);
      WithinRun(fg, spans[i], p, StartOf(spans[i]));
      WithinRun(fg, spans[j], StartOf(spans[j]), q);
      ReachTrans(Adjacent(fg), p, StartOf(spans[i]), StartOf(spans[j]));
      ReachTrans(Adjacent(fg), p, StartOf(spans[j]), q);
    }
    if Reach(Adjacent(fg), p, q) {
      ConnectedShareClass(fg, spans, rep, links, i, j, p, q);
    }
  }

  lemma ConnectedShareClass(
      fg: set<Pixel>, spans: seq<Span>, rep: seq<nat>, links: set<(int, int)>,
      i: nat, j: nat, p: Pixel, q: Pixel)
    requires AllRuns(fg, spans) && |rep| == |spans|
    requires PartitionOk(rep, links) && LinksAreTouches(spans, links)
    requires i < |spans| && j < |spans| && InSpan(spans[i], p) && InSpan(spans[j], q) && Reach(Adjacent(fg), p, q)
    ensures rep[i] == rep[j]
  {
    var tag := ClassTag(spans, rep);
    forall x, y | Adjacent(fg)(x, y)
      ensures tag(x) == tag(y)
    {
      NeighboursShareClass(fg, spans, rep, links, x, y);
    }
    ReachKeepsLabel(Adjacent(fg), tag, p, q);
    assert Covered(spans, p) && Covered(spans, q);
    NoOverlap(fg, spans, p, i, RunAt(spans, p));
    NoOverlap(fg, spans, q, j, RunAt(spans, q));
  }

  lemma NeighboursShareClass(
      fg: set<Pixel>, spans: seq<Span>, rep: seq<nat>, links: set<(int, int)>, x: Pixel, y: Pixel)
    requires AllRuns(fg, spans) && |rep| == |spans|
    requires PartitionOk(rep, links) && LinksAreTouches(spans, links) && Adjacent(fg)(x, y)
    ensures ClassTag(spans, rep)(x) == ClassTag(spans, rep)(y)
  {
    assert Covered(spans, x) && Covered(spans, y);
    var i, j := RunAt(spans, x), RunAt(spans, y);
    NeighboursTouch(fg, spans, x, y, i, j);
    assert i == j || (i, j) in links || (j, i) in links;
  }

  ghost function RunAt(spans: seq<Span>, p: Pixel): (k: nat)
    requires Covered(spans, p)
    ensures k < |spans| && InSpan(spans[k], p)
  {
    var k :| 0 <= k < |spans| && InSpan(spans[k], p);
    k
  }

  ghost function ClassTag(spans: seq<Span>, rep: seq<nat>): Pixel -> int
    requires |rep| == |spans|
  {
    (p: Pixel) => if |rep| == |spans| && Covered(spans, p) then 1 + rep[RunAt(spans, p)] else 0
  }

  lemma NoOverlap(fg: set<Pixel>, spans: seq<Span>, p: Pixel, i: nat, j: nat)
    requires AllRuns(fg, spans)
    requires i < |spans| && j < |spans| && InSpan(spans[i], p) && InSpan(spans[j], p)
    ensures i == j
  {
    assert i < j ==> Precedes(spans[i], spans[j]);
    assert j < i ==> Precedes(spans[j], spans[i]);
  }

  ghost function RunStart(spans: seq<Span>): int -> Pixel {
    (k: int) => if 0 <= k < |spans| then StartOf(spans[k]) else Pixel(-1, -1)
  }

  lemma LinkReaches(fg: set<Pixel>, spans: seq<Span>, links: set<(int, int)>, a: int, b: int)
    requires forall k :: 0 <= k < |spans| ==> Maximal(fg, spans[k])
    requires LinksAreTouches(spans, links) && Linked(links)(a, b)
    ensures Reach(Adjacent(fg), RunStart(spans)(a), RunStart(spans)(b))
  {
    if (a, b) in links {
      TouchingRunsReach(fg, spans[a], spans[b]);
    } else {
      TouchingRunsReach(fg, spans[b], spans[a]);
    }
  }

  lemma ClassReaches(fg: set<Pixel>, spans: seq<Span>, rep: seq<nat>, links: set<(int, int)>, i: nat, j: nat)
    requires AllRuns(fg, spans) && |rep| == |spans|
    requires PartitionOk(rep, links) && LinksAreTouches(spans, links)
    requires i < |spans| && j < |spans| && rep[i] == rep[j]
    ensures Reach(Adjacent(fg), StartOf(spans[i]), StartOf(spans[j]))
  {
    forall a, b | Linked(links)(a, b)
      ensures Reach(Adjacent(fg), RunStart(spans)(a), RunStart(spans)(b))
    {
      LinkReaches(fg, spans, links, a, b);
    }
    assert rep[i] == rep[j] ==> Reach<int>(Linked(links), i, j);
    ReachMap<int, Pixel>(Linked(links), Adjacent(fg), RunStart(spans), i, j);
  }
}
