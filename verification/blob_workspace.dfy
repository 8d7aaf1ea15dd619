/** The run-length connected-component extractor: one pass over the sampled rows builds maximal runs in a
    fixed array, a two-pointer sweep unites each with the runs it touches in the row above, and a second
    pass over the runs accumulates each component's moments. */
module BlobWorkspaces {
  import opened BlobMoments
  import Bytes
  import opened FiniteSets
  import opened Geometry
  import opened Products
  import opened Reachability
  import opened RunForest
  import opened SamplingLattice

  class BlobWorkspace {
    const maxWidth: nat
    const maxHeight: nat
    const maxRuns: nat
    const maxCandidates: nat
    const runs: array<Run>
    const components: array<Component>
    var runCount: nat

    // What the arrays stand for: the shape of each run, its representative, and the united pairs.
    ghost var spans: seq<Span>
    ghost var rep: seq<nat>
    ghost var links: set<(int, int)>

    ghost predicate Prepared()
      reads this
    {
      && maxWidth <= 65535 && maxHeight <= 65535 && 0 < maxRuns <= 65535
      && runs.Length == components.Length == maxRuns && runCount <= maxRuns
    }

    ghost predicate Valid()
      reads this, runs
    {
      Prepared() && Stands(runs[..runCount], spans, rep, links)
    }

    constructor (width: nat, height: nat, capacity: nat, candidates: nat)
      requires 0 < width <= 65535 && 0 < height <= 65535 && 0 < candidates <= capacity <= 65535
      ensures Valid() && maxWidth == width && maxHeight == height && maxRuns == capacity && maxCandidates == candidates
      ensures fresh(runs) && fresh(components)
    {
      maxWidth, maxHeight, maxRuns, maxCandidates := width, height, capacity, candidates;
      runs := new Run[capacity](_ => Run(0, 0, 0, 0, 0));
      components := new Component[capacity](_ => EMPTY);
      runCount := 0;
      spans, rep, links := [], [], {};
    }

    /** The root of `id`, halving the path on the way: the partition and every shape stay as they were. */
    method Root(start: nat) returns (id: nat)
      requires Valid() && start < runCount
      modifies runs
      ensures Valid()
      ensures id < runCount && id == rep[start] == rep[id] && runs[id].parent == id
    {
      id := start;
      assert NodeOk(runs[..runCount], rep, id);
      while runs[id].parent != id
        invariant Valid() && id < runCount && rep[id] == rep[start]
        decreases 65535 - runs[id].rank
      {
        ghost var before := runs[..runCount];
        assert NodeOk(before, rep, id);
        assert NodeOk(before, rep, before[id].parent);
        HalveKeeps(before, rep, id);
        runs[id] := runs[id].(parent := runs[runs[id].parent].parent);
        assert runs[..runCount] == Halve(before, id);
        id := runs[id].parent;
        RankBound(runs[..runCount], rep, id);
      }
      assert NodeOk(runs[..runCount], rep, id);
    }

    /** Joins the classes of two runs: afterwards the partition is the one generated by the old links and
        the new one. */
    method Unite(x: nat, y: nat)
      requires Valid() && x < runCount && y < runCount
      modifies runs, this`rep, this`links
      ensures Valid()
      ensures links == old(links) + {(x as int, y as int)}
    {
      var a := Root(x);
      var b := Root(y);
      if a == b {
        LinkKeepsPartition(rep, links, x, y);
        links := links + {(x, y)};
        return;
      }
      if runs[a].rank < runs[b].rank {
        a, b := b, a;
      }
      Attach(a, b, x, y);
    }

    /** Hangs root `b` under root `a`, raising the rank of `a` when the two were equal. */
    method Attach(a: nat, b: nat, ghost x: nat, ghost y: nat)
      requires Valid() && a < runCount && b < runCount && a != b && x < runCount && y < runCount
      requires rep[a] == a && rep[b] == b && runs[a].rank >= runs[b].rank
      requires (rep[x] == a && rep[y] == b) || (rep[x] == b && rep[y] == a)
      modifies runs, this`rep, this`links
      ensures Valid()
      ensures rep == Merge(old(rep), a, b) && links == old(links) + {(x as int, y as int)}
    {
      ghost var before := runs[..runCount];
      AttachKeeps(before, spans, rep, links, a, b, x, y);
      runs[b] := runs[b].(parent := a);
      if runs[a].rank == runs[b].rank {
        runs[a] := runs[a].(rank := runs[a].rank + 1);
      }
      assert runs[..runCount] == Hang(before, a, b);
      rep, links := Merge(rep, a, b), links + {(x, y)};
    }

    /** Appends a run as a class of its own. */
    method Append(s: Span) returns (id: nat)
      requires Valid() && runCount < maxRuns
      modifies runs, this`runCount, this`spans, this`rep
      ensures Valid()
      ensures id == old(runCount) && runCount == id + 1 && spans == old(spans) + [s]
      ensures links == old(links)
    {
      ghost var before := runs[..runCount];
      id := runCount;
      runs[id] := Run(s.x0, s.x1, s.y, id, 0);
      AppendKeeps(before, rep, links, runs[id]);
      runCount := runCount + 1;
      spans, rep := spans + [s], rep + [id];
      assert runs[..runCount] == before + [runs[id]];
    }

    function ShapeAt(k: nat): (s: Span)
      requires Valid() && k < runCount
      reads this, runs
      ensures s == spans[k]
    {
      assert runs[k] == runs[..runCount][k];
      runs[k].Shape()
    }

    /** The sweep for run `id`: `previous` skips the runs above that end too far left and never moves back;
        from there on, every run above that starts early enough is united with `id`. */
    method JoinAbove(id: nat, from: nat, end: nat) returns (previous: nat)
      requires Valid() && id < runCount && Above(spans, id, from, end)
      modifies runs, this`rep, this`links
      ensures Valid()
      ensures from <= previous <= end
      ensures forall k :: from <= k < previous ==> spans[k].x1 + 1 < spans[id].x0
      ensures links == old(links) + TouchedBy(spans, id, from, end)
    {
      previous := from;
      while previous < end && ShapeAt(previous).x1 + 1 < ShapeAt(id).x0
        invariant from <= previous <= end
        invariant forall k :: from <= k < previous ==> spans[k].x1 + 1 < spans[id].x0
      {
        previous := previous + 1;
      }
      UniteWhileStarting(id, previous, end, from);
    }

    method UniteWhileStarting(id: nat, first: nat, end: nat, ghost from: nat)
      requires Valid() && id < runCount && Above(spans, id, from, end) && from <= first <= end
      requires forall k :: from <= k < first ==> spans[k].x1 + 1 < spans[id].x0
      requires first < end ==> spans[id].x0 <= spans[first].x1 + 1
      modifies runs, this`rep, this`links
      ensures Valid()
      ensures links == old(links) + TouchedBy(spans, id, from, end)
    {
      var k := first;
      while k < end && ShapeAt(k).x0 <= ShapeAt(id).x1 + 1
        invariant Valid() && first <= k <= end
        invariant first < k ==> spans[k - 1].x0 <= spans[id].x1 + 1
        invariant links == WithRow(old(links), id, first, k)
      {
        Unite(id, k);
        WithRowGrows(old(links), id, first, k);
        k := k + 1;
      }
      RowTouches(old(links), spans, id, from, first, k, end);
    }

    /** What the scan knows when it stands at column `x` of sampled row `y`. */
    ghost predicate Scanned(fg: set<Pixel>, x: int, y: int)
      reads this, runs
    {
      && Valid()
      && RunsUpTo(fg, spans, x, y)
      && LinksAreTouches(spans, links)
    }

    /** Scans one sampled row: every maximal run of the row is appended and united with exactly the runs it
        touches above. Fails only when one more maximal run exists than the array can hold. */
    method ScanRow(l: Lattice, y: nat, sy: nat, previousBegin: nat, previousEnd: nat) returns (ok: bool)
      requires l.WellFormed() && y == sy * l.step && y < l.window.height
      requires Scanned(l.Foreground(), 0, sy)
      requires previousEnd == runCount && InRows(spans, previousBegin, previousEnd, sy)
      modifies runs, this`runCount, this`spans, this`rep, this`links
      ensures Prepared()
      ensures ok ==> Scanned(l.Foreground(), 0, sy + 1)
      ensures ok ==> InRows(spans, previousBegin, previousEnd, sy)
      ensures !ok ==> |RunStarts(l.Foreground())| > maxRuns
    {
      ghost var fg := l.Foreground();
      var previous := previousBegin;
      var x := 0;
      ghost var sx: nat := 0;
      while x < l.window.width
        invariant x == sx * l.step
        invariant Scanned(fg, sx, sy)
        invariant Pixel(sx - 1, sy) !in fg || Pixel(sx, sy) !in fg
        invariant InRows(spans, previousBegin, previousEnd, sy)
        invariant Passed(spans, previousBegin, previous, previousEnd, sx)
        decreases l.window.width - x
      {
        var bright := Bright(l, x, y, sx, sy);
        if !bright {
          DarkPassed(fg, spans, sx, sy);
          OneMoreStep(sx, l.step);
          assert x + l.step == (sx + 1) * l.step;
          x, sx := x + l.step, sx + 1;
          continue;
        }
        ok, x, sx, previous := TakeRun(l, x, y, sx, sy, previous, previousEnd, previousBegin);
        if !ok {
          return;
        }
      }
      RowClosed(l, spans, sx, sy);
      ok := true;
    }

    /** A bright sample with a dark or missing one to its left starts a run: follow it to its end, give up if
        the array is full, otherwise add it. */
    method TakeRun(
        l: Lattice, start: nat, y: nat, ghost first: nat, sampledY: nat, from: nat, end: nat, ghost begin: nat)
      returns (ok: bool, x: nat, ghost sx: nat, previous: nat)
      requires l.WellFormed() && start < l.window.width && y < l.window.height
      requires start == first * l.step && y == sampledY * l.step
      requires Scanned(l.Foreground(), first, sampledY)
      requires Pixel(first, sampledY) in l.Foreground() && Pixel(first - 1, sampledY) !in l.Foreground()
      requires InRows(spans, begin, end, sampledY) && Passed(spans, begin, from, end, first)
      modifies runs, this`runCount, this`spans, this`rep, this`links
      ensures Prepared()
      ensures !ok ==> |RunStarts(l.Foreground())| > maxRuns
      ensures ok ==> Scanned(l.Foreground(), sx, sampledY)
      ensures ok ==> start < x && x == sx * l.step && Pixel(sx, sampledY) !in l.Foreground()
      ensures ok ==> InRows(spans, begin, end, sampledY) && Passed(spans, begin, previous, end, sx)
    {
      ghost var fg := l.Foreground();
      x, sx := EndOfRun(l, start, y, first, sampledY);
      DivideExactly(first, l.step);
      DivideExactly(sx - 1, l.step);
      assert x - l.step == (sx - 1) * l.step;
      var span := Span(start / l.step, (x - l.step) / l.step, sampledY);
      MaximalFromScan(fg, span);
      previous := from;
      if runCount == maxRuns {
        RunClosed(fg, spans, span, sx, sampledY);
        RunsCountStarts(fg, spans + [span]);
        ok := false;
      } else {
        previous := AddRun(span, from, end, fg, sx, begin);
        ok := true;
      }
    }

    /** A closed run joins the forest and is united with exactly the runs it touches. */
    method AddRun(span: Span, from: nat, end: nat, ghost fg: set<Pixel>, ghost sx: nat, ghost begin: nat)
      returns (previous: nat)
      requires Maximal(fg, span) && sx == span.x1 + 1
      requires Scanned(fg, span.x0, span.y) && runCount < maxRuns
      requires InRows(spans, begin, end, span.y) && Passed(spans, begin, from, end, span.x0)
      modifies runs, this`runCount, this`spans, this`rep, this`links
      ensures Scanned(fg, sx, span.y)
      ensures spans == old(spans) + [span]
      ensures InRows(spans, begin, end, span.y) && Passed(spans, begin, previous, end, sx)
    {
      RunsAreAbove(fg, spans, span, from, end, begin);
      var id := Append(span);
      previous := JoinAbove(id, from, end);
      RunAdded(fg, old(spans), span, old(links), from, end, begin);
    }

    /** First pass: every row in turn. Succeeds exactly when the lattice has no more maximal runs than the
        array holds. */
    method Label(l: Lattice) returns (ok: bool)
      requires Prepared() && l.WellFormed()
      modifies runs, this`runCount, this`spans, this`rep, this`links
      ensures Prepared()
      ensures ok <==> |RunStarts(l.Foreground())| <= maxRuns
      ensures ok ==> Valid() && AllRuns(l.Foreground(), spans) && LinksAreTouches(spans, links)
    {
      ghost var fg := l.Foreground();
      runCount, spans, rep, links := 0, [], [], {};
      assert runs[..runCount] == [];
      var previousBegin, previousEnd, y, sampledY := 0, 0, 0, 0;
      while y < l.window.height
        invariant y == sampledY * l.step
        invariant Scanned(fg, 0, sampledY)
        invariant previousEnd == runCount && InRows(spans, previousBegin, previousEnd, sampledY)
        decreases l.window.height - y
      {
        var currentBegin := runCount;
        ok := ScanRow(l, y, sampledY, previousBegin, previousEnd);
        if !ok {
          return;
        }
        NextRow(fg, spans, previousBegin, previousEnd, sampledY);
        OneMoreStep(sampledY, l.step);
        previousBegin, previousEnd, y, sampledY := currentBegin, runCount, y + l.step, sampledY + 1;
      }
      LastRow(l, spans, sampledY);
      RunsCountStarts(fg, spans);
      ok := true;
    }

    /** The second pass after `n` runs. */
    ghost predicate Accumulating(l: Lattice, n: nat)
      requires l.WellFormed()
      reads this, runs, components
    {
      && Valid() && AllRuns(l.Foreground(), spans) && n <= runCount
      && Accumulated(components[..runCount], l.Gray(), spans, rep, n)
    }

    /** Second pass: every run is added to the component of its root. */
    method Accumulate(l: Lattice)
      requires Valid() && l.WellFormed() && AllRuns(l.Foreground(), spans)
      modifies runs, components
      ensures Accumulating(l, runCount) && AllFit(components[..runCount])
    {
      AccumulateRuns(l);
      SumsFit(l, runCount);
    }

    method AccumulateRuns(l: Lattice)
      requires Valid() && l.WellFormed() && AllRuns(l.Foreground(), spans)
      modifies runs, components
      ensures Accumulating(l, runCount)
    {
      ClearComponents(l);
      var i := 0;
      while i < runCount
        invariant Accumulating(l, i)
      {
        AccumulateRun(l, i);
        i := i + 1;
      }
    }

    /** After any number of runs every accumulator fits its 64 bits. */
    lemma SumsFit(l: Lattice, n: nat)
      requires l.WellFormed() && Accumulating(l, n)
      ensures AllFit(components[..runCount])
    {
      AccumulatedFit(components[..runCount], l, spans, rep, n);
    }

    method ClearComponents(l: Lattice)
      requires Valid() && l.WellFormed() && AllRuns(l.Foreground(), spans)
      modifies components
      ensures Accumulating(l, 0)
    {
      forall i | 0 <= i < runCount {
        components[i] := EMPTY;
      }
      NothingAccumulated(components[..runCount], l.Gray(), spans, rep);
    }

    method AccumulateRun(l: Lattice, i: nat)
      requires l.WellFormed() && i < runCount && Accumulating(l, i)
      modifies runs, components
      ensures Accumulating(l, i + 1)
    {
      ghost var before := components[..runCount];
      assert Maximal(l.Foreground(), spans[i]);
      var span := ShapeAt(i);
      var moments := Measure(l, span);
      var root := Root(i);
      AccumulateStep(before, l.Gray(), l.Foreground(), spans, rep, i);
      components[root] := Absorb(components[root], span, moments);
      assert components[..runCount] == before[root := components[root]];
    }

    /** Labels and measures the lattice. It fails exactly when the lattice has more maximal runs than
        `maxRuns`; otherwise two foreground points lie in runs of the same root exactly when an 8-connected
        foreground path joins them, and each root's component holds the brute-force moments and the tight
        box of the whole connected component. */
    method Extract(l: Lattice) returns (ok: bool)
      requires Prepared() && l.WellFormed()
      modifies runs, components, this`runCount, this`spans, this`rep, this`links
      ensures Prepared()
      ensures ok <==> |RunStarts(l.Foreground())| <= maxRuns
      ensures ok ==> Valid() && AllRuns(l.Foreground(), spans)
      ensures ok ==> SameRootIffConnected(l.Foreground(), spans, rep)
      ensures ok ==> Measured(components[..runCount], l.Gray(), l.Foreground(), spans, rep)
      ensures ok ==> AllFit(components[..runCount])
    {
      ok := Label(l);
      if ok {
        Accumulate(l);
        RootsAreComponents(l.Foreground(), spans, rep, links);
        AllMeasured(components[..runCount], l.Gray(), l.Foreground(), runs[..runCount], spans, rep, links);
      }
    }

    /** Validates, extracts, and lists every component of at least `minArea` pixels that passes the contrast and noise
        gate, with its rectangle and its area in pixels. `gate` is what those gates say, which depends on the frame
        and on the component's sums and box. `owners` names one point of each listed component. */
    method Scan(
        frame: Frame, window: Rect, threshold: Bytes.Byte, minArea: nat, sampleStep: nat, gate: Component -> bool)
      returns (r: ScanResult, ghost owners: seq<Pixel>)
      requires Prepared()
      modifies runs, components, this`runCount, this`spans, this`rep, this`links
      ensures Prepared()
      ensures r.InvalidFrame? <==> !FitsIn(frame, maxWidth, maxHeight)
      ensures r.InvalidWindow? <==> FitsIn(frame, maxWidth, maxHeight) && !WindowOk(frame, window)
      ensures FitsIn(frame, maxWidth, maxHeight) && WindowOk(frame, window) ==>
                var l := Lattice(frame, window, threshold, Clamp(sampleStep, 1, 8));
                && l.WellFormed()
                && (r.WorkspaceExhausted? <==>
                      || |RunStarts(l.Foreground())| > maxRuns
                      || exists apart ::
                           Apart(BigAt(l, minArea, gate), l.Foreground(), apart) && |apart| > maxCandidates)
                && (r.Found? ==>
                      ListsComponents(BlobFor(l), BigAt(l, minArea, gate), l.Foreground(), r.blobs, owners))
    {
      owners := [];
      if !FitsIn(frame, maxWidth, maxHeight) {
        return InvalidFrame, [];
      }
      if !WindowOk(frame, window) {
        return InvalidWindow, [];
      }
      var l := Lattice(frame, window, threshold, Clamp(sampleStep, 1, 8));
      var ok := Extract(l);
      if !ok {
        return WorkspaceExhausted, [];
      }
      var blobs: seq<Candidate>;
      ok, blobs, owners := ListBlobs(l, minArea, gate);
      if !ok {
        return WorkspaceExhausted, owners;
      }
      NoMoreApart(BlobFor(l), BigAt(l, minArea, gate), l.Foreground(), blobs, owners);
      r := Found(blobs);
    }

    /** Is entry `i` a component that is listed, and what is it reported as? */
    method CandidateAt(l: Lattice, minArea: nat, gate: Component -> bool, i: nat)
      returns (listed: bool, blob: Candidate)
      requires Valid() && i < runCount && l.WellFormed() && AllRuns(l.Foreground(), spans)
      requires Measured(components[..runCount], l.Gray(), l.Foreground(), spans, rep)
      ensures listed <==> rep[i] == i && BigAt(l, minArea, gate)(StartOf(spans[i]))
      ensures listed ==> BlobFor(l)(blob, StartOf(spans[i]))
    {
      EntryMeansComponent(components[..runCount], l, spans, rep, i);
      blob := Candidate(Rect(0, 0, 0, 0), 0);
      var c := components[i];
      if c.sums.area == 0 {
        listed := false;
      } else {
        GateOfComponent(c, l, gate, ComponentOf(l.Foreground(), StartOf(spans[i])));
        listed := c.sums.area * l.step * l.step >= minArea && gate(c);
        if listed {
          blob := BlobOf(l.window, l.step, c);
        }
      }
    }

    /** Fails exactly when one more candidate would not fit; `owners` then names too many. */
    method ListBlobs(l: Lattice, minArea: nat, gate: Component -> bool)
      returns (ok: bool, blobs: seq<Candidate>, ghost owners: seq<Pixel>)
      requires Valid() && l.WellFormed() && AllRuns(l.Foreground(), spans)
      requires SameRootIffConnected(l.Foreground(), spans, rep)
      requires Measured(components[..runCount], l.Gray(), l.Foreground(), spans, rep)
      ensures ok ==> |blobs| <= maxCandidates
      ensures ok ==> ListsComponents(BlobFor(l), BigAt(l, minArea, gate), l.Foreground(), blobs, owners)
      ensures !ok ==> Apart(BigAt(l, minArea, gate), l.Foreground(), owners) && |owners| > maxCandidates
    {
      ghost var roots: seq<int> := [];
      blobs, owners, ok := [], [], true;
      for i := 0 to runCount
        invariant RootsListed(BlobFor(l), BigAt(l, minArea, gate), spans, rep, blobs, owners, roots, i)
        invariant |blobs| <= maxCandidates
      {
        ok, blobs, owners, roots := Consider(l, minArea, gate, i, blobs, owners, roots);
        if !ok {
          return;
        }
      }
      AllListed(l, minArea, gate, components[..runCount], spans, rep, blobs, owners, roots);
    }

    /** Lists entry `i` if it is a candidate and there is room. */
    method Consider(
        l: Lattice, minArea: nat, gate: Component -> bool, i: nat, blobs: seq<Candidate>, ghost owners: seq<Pixel>,
        ghost roots: seq<int>)
      returns (ok: bool, more: seq<Candidate>, ghost moreOwners: seq<Pixel>, ghost moreRoots: seq<int>)
      requires Valid() && i < runCount && l.WellFormed() && AllRuns(l.Foreground(), spans)
      requires SameRootIffConnected(l.Foreground(), spans, rep) && |blobs| <= maxCandidates
      requires Measured(components[..runCount], l.Gray(), l.Foreground(), spans, rep)
      requires RootsListed(BlobFor(l), BigAt(l, minArea, gate), spans, rep, blobs, owners, roots, i)
      ensures ok ==>
                && |more| <= maxCandidates
                && RootsListed(BlobFor(l), BigAt(l, minArea, gate), spans, rep, more, moreOwners, moreRoots, i + 1)
      ensures !ok ==> Apart(BigAt(l, minArea, gate), l.Foreground(), moreOwners) && |moreOwners| > maxCandidates
    {
      var listed, blob := CandidateAt(l, minArea, gate, i);
      RootsStep(l, minArea, gate, spans, rep, blobs, owners, roots, i, listed, blob);
      if !listed {
        return true, blobs, owners, roots;
      }
      moreOwners, moreRoots := owners + [StartOf(spans[i])], roots + [i];
      more := blobs + [blob];
      ok := |blobs| < maxCandidates;
      if !ok {
        RootsApart(BlobFor(l), BigAt(l, minArea, gate), l.Foreground(), spans, rep, more, moreOwners, moreRoots, i + 1);
      }
    }
  }

  /** What the entries of a workspace stand for. */
  ghost predicate Stands(f: seq<Run>, spans: seq<Span>, rep: seq<nat>, links: set<(int, int)>) {
    && |spans| == |f| && (forall i :: 0 <= i < |f| ==> f[i].Shape() == spans[i])
    && ForestOk(f, rep) && PartitionOk(rep, links)
  }

  lemma AttachKeeps(
      f: seq<Run>, spans: seq<Span>, rep: seq<nat>, links: set<(int, int)>, a: nat, b: nat, x: nat, y: nat)
    requires Stands(f, spans, rep, links) && a < |f| && b < |f| && a != b && x < |f| && y < |f|
    requires rep[a] == a && rep[b] == b && f[a].rank >= f[b].rank
    requires (rep[x] == a && rep[y] == b) || (rep[x] == b && rep[y] == a)
    ensures Stands(Hang(f, a, b), spans, Merge(rep, a, b), links + {(x as int, y as int)})
  {
    assert NodeOk(f, rep, a) && NodeOk(f, rep, b);
    HangKeeps(f, rep, a, b);
    MergeKeepsPartition(rep, links, x, y, a, b);
  }

  /** What a listed blob says about its component `s`: the area in pixels, and the tight union of the cells
      of its points, clipped to the window. */
  ghost predicate IsBlobOf(l: Lattice, b: Candidate, s: set<Pixel>) {
    && b.area == Min(|s| * l.step * l.step, 0xffff_ffff)
    && !b.bounds.Empty() && l.window.Contains(b.bounds)
    && (forall p :: p in s ==>
          && b.bounds.x <= l.window.x + p.x * l.step < b.bounds.x + b.bounds.width
          && b.bounds.y <= l.window.y + p.y * l.step < b.bounds.y + b.bounds.height)
    && (exists p :: p in s && l.window.x + p.x * l.step == b.bounds.x)
    && (exists p :: p in s && l.window.y + p.y * l.step == b.bounds.y)
    && (exists p :: p in s && b.bounds.x + b.bounds.width <= l.window.x + (p.x + 1) * l.step)
    && (exists p :: p in s && b.bounds.y + b.bounds.height <= l.window.y + (p.y + 1) * l.step)
  }

  /** Does the component that describes these points pass? */
  ghost predicate Passes(l: Lattice, gate: Component -> bool, s: set<Pixel>) {
    exists c :: Describes(c, l.Gray(), s) && gate(c)
  }

  /** Only one component describes a nonempty set, so the gate's answer is a property of the points. */
  lemma GateOfComponent(c: Component, l: Lattice, gate: Component -> bool, s: set<Pixel>)
    requires Describes(c, l.Gray(), s) && s != {}
    ensures Passes(l, gate, s) <==> gate(c)
  {
    forall d | Describes(d, l.Gray(), s)
      ensures d == c
    {
      SameBox(c, d, s);
    }
  }

  lemma SameBox(c: Component, d: Component, s: set<Pixel>)
    requires Boxes(c, s) && Boxes(d, s) && s != {}
    ensures c.x0 == d.x0 && c.x1 == d.x1 && c.y0 == d.y0 && c.y1 == d.y1
  {
  }

  ghost predicate Big(l: Lattice, minArea: nat, gate: Component -> bool, s: set<Pixel>) {
    |s| * l.step * l.step >= minArea && Passes(l, gate, s)
  }

  /** Wanted foreground points, no two of which are connected. */
  ghost predicate Apart(big: Pixel -> bool, fg: set<Pixel>, owners: seq<Pixel>) {
    && (forall k :: 0 <= k < |owners| ==> owners[k] in fg && big(owners[k]))
    && (forall k, m :: 0 <= k < m < |owners| ==> !Reach(Adjacent(fg), owners[k], owners[m]))
  }

  /** A complete list is as long as any collection of wanted points that lie apart. */
  lemma NoMoreApart(
      fits: (Candidate, Pixel) -> bool, big: Pixel -> bool, fg: set<Pixel>, blobs: seq<Candidate>, owners: seq<Pixel>)
    requires ListsComponents(fits, big, fg, blobs, owners)
    ensures forall apart :: Apart(big, fg, apart) ==> |apart| <= |blobs|
  {
    forall apart | Apart(big, fg, apart)
      ensures |apart| <= |blobs|
    {
      Pigeons(big, fg, owners, apart);
    }
  }

  lemma Pigeons(big: Pixel -> bool, fg: set<Pixel>, owners: seq<Pixel>, apart: seq<Pixel>)
    requires Apart(big, fg, apart)
    requires forall p :: p in fg && big(p) ==> exists k :: 0 <= k < |owners| && Reach(Adjacent(fg), owners[k], p)
    ensures |apart| <= |owners|
  {
    var home := seq(|apart|, m requires 0 <= m < |apart| => OwnerOf(fg, owners, apart[m]));
    forall m, n | 0 <= m < n < |home|
      ensures home[m] != home[n]
    {
      if home[m] == home[n] {
        ReachSym(Adjacent(fg), owners[home[m]], apart[m]);
        ReachTrans(Adjacent(fg), apart[m], owners[home[m]], apart[n]);
      }
    }
    DistinctBelow(home, |owners|);
  }

  ghost function OwnerOf(fg: set<Pixel>, owners: seq<Pixel>, p: Pixel): (k: nat)
    requires exists k :: 0 <= k < |owners| && Reach(Adjacent(fg), owners[k], p)
    ensures k < |owners| && Reach(Adjacent(fg), owners[k], p)
  {
    var k :| 0 <= k < |owners| && Reach(Adjacent(fg), owners[k], p);
    k
  }

  ghost function BlobFor(l: Lattice): (Candidate, Pixel) -> bool
    requires l.WellFormed()
  {
    (b: Candidate, p: Pixel) => l.WellFormed() && IsBlobOf(l, b, ComponentOf(l.Foreground(), p))
  }

  ghost function BigAt(l: Lattice, minArea: nat, gate: Component -> bool): Pixel -> bool
    requires l.WellFormed()
  {
    (p: Pixel) => l.WellFormed() && Big(l, minArea, gate, ComponentOf(l.Foreground(), p))
  }

  /** Every component with a big point is listed, once, by a blob that fits it, and nothing else is. */
  ghost predicate ListsComponents(
      fits: (Candidate, Pixel) -> bool, big: Pixel -> bool, fg: set<Pixel>, blobs: seq<Candidate>,
      owners: seq<Pixel>)
  {
    && |blobs| == |owners|
    && (forall k :: 0 <= k < |blobs| ==> owners[k] in fg && big(owners[k]) && fits(blobs[k], owners[k]))
    && (forall p :: p in fg && big(p) ==> exists k :: 0 <= k < |owners| && Reach(Adjacent(fg), owners[k], p))
    && (forall k, m :: 0 <= k < m < |owners| ==> !Reach(Adjacent(fg), owners[k], owners[m]))
  }

  datatype Candidate = Candidate(bounds: Rect, area: nat)

  datatype ScanResult = InvalidFrame | InvalidWindow | WorkspaceExhausted | Found(blobs: seq<Candidate>)

  function Clamp(v: nat, lo: nat, hi: nat): nat
    requires lo <= hi
  {
    if v < lo then lo else if v > hi then hi else v
  }

  function At(lo: nat, step: nat): nat { lo * step }

  /** How far the cells from `lo` to `hi` reach, cut at the window's end. */
  function Extent(size: nat, lo: nat, hi: nat, step: nat): nat
    requires lo <= hi
  {
    Min(size - Min(size, At(lo, step)), At(hi - lo + 1, step))
  }

  /** The pixel rectangle and area a component is reported with, clipped to the window and to 32 bits. */
  function BlobOf(window: Rect, step: nat, c: Component): Candidate
    requires 0 <= c.x0 <= c.x1 && 0 <= c.y0 <= c.y1 && 0 <= c.sums.area
  {
    Candidate(
      Rect(window.x + At(c.x0, step), window.y + At(c.y0, step),
           Extent(window.width, c.x0, c.x1, step), Extent(window.height, c.y0, c.y1, step)),
      Min(At(At(c.sums.area, step), step), 0xffff_ffff))
  }

  /** After `n` runs: the listed blobs are those of the big roots met so far, in order. */
  ghost predicate RootsListed(
      fits: (Candidate, Pixel) -> bool, big: Pixel -> bool, spans: seq<Span>, rep: seq<nat>,
      blobs: seq<Candidate>, owners: seq<Pixel>, roots: seq<int>, n: nat)
    requires |rep| == |spans| && n <= |spans|
  {
    && |blobs| == |owners| == |roots|
    && (forall k :: 0 <= k < |roots| ==>
          && 0 <= roots[k] < n && rep[roots[k]] == roots[k] && owners[k] == StartOf(spans[roots[k]])
          && big(owners[k]) && fits(blobs[k], owners[k]))
    && (forall k, m :: 0 <= k < m < |roots| ==> roots[k] < roots[m])
    && (forall j :: 0 <= j < n && rep[j] == j && big(StartOf(spans[j])) ==> j in roots)
  }

  lemma RootAdded(
      fits: (Candidate, Pixel) -> bool, big: Pixel -> bool, spans: seq<Span>, rep: seq<nat>,
      blobs: seq<Candidate>, owners: seq<Pixel>, roots: seq<int>, i: nat, blob: Candidate)
    requires |rep| == |spans| && i < |spans|
    requires RootsListed(fits, big, spans, rep, blobs, owners, roots, i)
    requires rep[i] == i && big(StartOf(spans[i])) && fits(blob, StartOf(spans[i]))
    ensures RootsListed(fits, big, spans, rep, blobs + [blob], owners + [StartOf(spans[i])], roots + [i], i + 1)
  {
    var more := roots + [i];
    assert more[|roots|] == i;
    forall j | 0 <= j < i && j in roots
      ensures j in more
    {
      var k :| 0 <= k < |roots| && roots[k] == j;
      assert more[k] == j;
    }
  }

  /** A nonempty entry of the component array belongs to a root and is that root's whole component. */
  lemma EntryMeansComponent(comps: seq<Component>, l: Lattice, spans: seq<Span>, rep: seq<nat>, i: nat)
    requires l.WellFormed() && AllRuns(l.Foreground(), spans)
    requires Measured(comps, l.Gray(), l.Foreground(), spans, rep) && i < |comps|
    ensures comps[i].sums.area != 0 <==> rep[i] == i
    ensures comps[i].sums.area != 0 ==>
              var s := ComponentOf(l.Foreground(), StartOf(spans[i]));
              && comps[i].sums.area == |s|
              && 0 <= comps[i].x0 <= comps[i].x1 && 0 <= comps[i].y0 <= comps[i].y1
              && IsBlobOf(l, BlobOf(l.window, l.step, comps[i]), s)
              && Describes(comps[i], l.Gray(), s) && s != {}
  {
    var fg := l.Foreground();
    var start := StartOf(spans[i]);
    if rep[i] == i {
      assert Maximal(fg, spans[i]);
      assert InSpan(spans[i], start);
      ReachRefl(Adjacent(fg), start);
      var s := ComponentOf(fg, start);
      assert start in s;
      AreaIsSize(Weight(l.Gray()), s);
      BlobIsTight(l, comps[i], s);
    }
  }

  /** `BlobOf` keeps its promise on any nonempty set of foreground points. */
  lemma BlobIsTight(l: Lattice, c: Component, s: set<Pixel>)
    requires l.WellFormed() && s <= l.Foreground() && s != {}
    requires Boxes(c, s) && c.sums.area == |s|
    ensures 0 <= c.x0 <= c.x1 && 0 <= c.y0 <= c.y1
    ensures IsBlobOf(l, BlobOf(l.window, l.step, c), s)
  {
    EndsInWindow(l, c, s);
    CellExtent(c.x0, c.x1, l.step, l.window.width);
    CellExtent(c.y0, c.y1, l.step, l.window.height);
    forall p | p in s
      ensures InCells(l, c, p)
    {
      CellCovers(c.x0, c.x1, p.x, l.step, l.window.width);
      CellCovers(c.y0, c.y1, p.y, l.step, l.window.height);
    }
    BlobFromExtents(l, c, s);
  }

  lemma EndsInWindow(l: Lattice, c: Component, s: set<Pixel>)
    requires l.WellFormed() && s <= l.Foreground() && s != {} && Boxes(c, s)
    ensures 0 <= c.x0 <= c.x1 && c.x1 * l.step < l.window.width
    ensures 0 <= c.y0 <= c.y1 && c.y1 * l.step < l.window.height
    ensures forall p :: p in s ==> p.x * l.step < l.window.width && p.y * l.step < l.window.height
  {
    assert forall p :: p in s ==> l.On(p);
  }

  /** The point lies in the box of cells, which ends at the window's end at the latest. */
  predicate InCells(l: Lattice, c: Component, p: Pixel) {
    && c.x0 * l.step <= p.x * l.step < Min(l.window.width, (c.x1 + 1) * l.step)
    && c.y0 * l.step <= p.y * l.step < Min(l.window.height, (c.y1 + 1) * l.step)
  }

  lemma BlobFromExtents(l: Lattice, c: Component, s: set<Pixel>)
    requires l.WellFormed() && c.sums.area == |s| && Boxes(c, s) && s != {}
    requires 0 <= c.x0 <= c.x1 && 0 <= c.y0 <= c.y1
    requires var length := Extent(l.window.width, c.x0, c.x1, l.step);
             length > 0 && At(c.x0, l.step) + length == Min(l.window.width, (c.x1 + 1) * l.step)
    requires var length := Extent(l.window.height, c.y0, c.y1, l.step);
             length > 0 && At(c.y0, l.step) + length == Min(l.window.height, (c.y1 + 1) * l.step)
    requires forall p :: p in s ==> InCells(l, c, p)
    ensures IsBlobOf(l, BlobOf(l.window, l.step, c), s)
  {
  }

  lemma CellCovers(lo: int, hi: int, v: int, step: nat, size: int)
    requires lo <= v <= hi && step >= 1 && v * step < size
    ensures lo * step <= v * step < Min(size, (hi + 1) * step)
  {
    ScaleMonotone(lo, v, step);
    ScaleMonotone(v + 1, hi + 1, step);
    OneMoreStep(v, step);
  }

  /** Along one axis: the cells from `lo` to `hi`, cut at the window's end. */
  lemma CellExtent(lo: nat, hi: nat, step: nat, size: nat)
    requires lo <= hi && step >= 1 && hi * step < size
    ensures Extent(size, lo, hi, step) > 0
    ensures At(lo, step) + Extent(size, lo, hi, step) == Min(size, (hi + 1) * step)
  {
    ScaleMonotone(lo, hi, step);
    ScaleMonotone(1, hi - lo + 1, step);
    assert (hi - lo + 1) * step == (hi + 1) * step - lo * step;
  }

  lemma RootsApart(
      fits: (Candidate, Pixel) -> bool, big: Pixel -> bool, fg: set<Pixel>, spans: seq<Span>, rep: seq<nat>,
      blobs: seq<Candidate>, owners: seq<Pixel>, roots: seq<int>, n: nat)
    requires AllRuns(fg, spans) && SameRootIffConnected(fg, spans, rep) && n <= |spans|
    requires RootsListed(fits, big, spans, rep, blobs, owners, roots, n)
    ensures Apart(big, fg, owners)
  {
    forall k | 0 <= k < |roots|
      ensures owners[k] in fg && InSpan(spans[roots[k]], owners[k])
    {
      assert Maximal(fg, spans[roots[k]]);
    }
    forall k, m | 0 <= k < m < |owners|
      ensures !Reach(Adjacent(fg), owners[k], owners[m])
    {
      assert rep[roots[k]] != rep[roots[m]];
    }
  }

  lemma RootsAreAll(
      fits: (Candidate, Pixel) -> bool, big: Pixel -> bool, fg: set<Pixel>, spans: seq<Span>, rep: seq<nat>,
      blobs: seq<Candidate>, owners: seq<Pixel>, roots: seq<int>)
    requires AllRuns(fg, spans) && SameRootIffConnected(fg, spans, rep)
    requires forall i :: 0 <= i < |rep| ==> rep[i] < |rep| && rep[rep[i]] == rep[i]
    requires RootsListed(fits, big, spans, rep, blobs, owners, roots, |spans|)
    requires forall p, q :: Reach(Adjacent(fg), p, q) ==> big(p) == big(q)
    ensures ListsComponents(fits, big, fg, blobs, owners)
  {
    RootsApart(fits, big, fg, spans, rep, blobs, owners, roots, |spans|);
    AllOwned(fits, big, fg, spans, rep, blobs, owners, roots);
  }

  lemma AllOwned(
      fits: (Candidate, Pixel) -> bool, big: Pixel -> bool, fg: set<Pixel>, spans: seq<Span>, rep: seq<nat>,
      blobs: seq<Candidate>, owners: seq<Pixel>, roots: seq<int>)
    requires AllRuns(fg, spans) && SameRootIffConnected(fg, spans, rep)
    requires forall i :: 0 <= i < |rep| ==> rep[i] < |rep| && rep[rep[i]] == rep[i]
    requires RootsListed(fits, big, spans, rep, blobs, owners, roots, |spans|)
    requires forall p, q :: Reach(Adjacent(fg), p, q) ==> big(p) == big(q)
    ensures forall p :: p in fg && big(p) ==> exists k :: 0 <= k < |owners| && Reach(Adjacent(fg), owners[k], p)
  {
    forall p | p in fg && big(p)
      ensures exists k :: 0 <= k < |owners| && Reach(Adjacent(fg), owners[k], p)
    {
      var k := OwnerListed(fits, big, fg, spans, rep, blobs, owners, roots, p);
    }
  }

  lemma OwnerListed(
      fits: (Candidate, Pixel) -> bool, big: Pixel -> bool, fg: set<Pixel>, spans: seq<Span>, rep: seq<nat>,
      blobs: seq<Candidate>, owners: seq<Pixel>, roots: seq<int>, p: Pixel)
    returns (k: nat)
    requires AllRuns(fg, spans) && SameRootIffConnected(fg, spans, rep)
    requires forall i :: 0 <= i < |rep| ==> rep[i] < |rep| && rep[rep[i]] == rep[i]
    requires RootsListed(fits, big, spans, rep, blobs, owners, roots, |spans|)
    requires forall q :: Reach(Adjacent(fg), q, p) ==> big(q)
    requires p in fg
    ensures k < |owners| && Reach(Adjacent(fg), owners[k], p)
  {
    var r := rep[RunAt(spans, p)];
    assert Maximal(fg, spans[r]);
    assert InSpan(spans[r], StartOf(spans[r]));
    assert Reach(Adjacent(fg), StartOf(spans[r]), p);
    k :| 0 <= k < |roots| && roots[k] == r;
  }

  lemma RootsStep(
      l: Lattice, minArea: nat, gate: Component -> bool, spans: seq<Span>, rep: seq<nat>, blobs: seq<Candidate>,
      owners: seq<Pixel>,
      roots: seq<int>, i: nat, listed: bool, blob: Candidate)
    requires l.WellFormed() && |rep| == |spans| && i < |spans|
    requires RootsListed(BlobFor(l), BigAt(l, minArea, gate), spans, rep, blobs, owners, roots, i)
    requires listed <==> rep[i] == i && BigAt(l, minArea, gate)(StartOf(spans[i]))
    requires listed ==> BlobFor(l)(blob, StartOf(spans[i]))
    ensures listed ==>
              RootsListed(BlobFor(l), BigAt(l, minArea, gate), spans, rep, blobs + [blob], owners + [StartOf(spans[i])],
                          roots + [i], i + 1)
    ensures !listed ==> RootsListed(BlobFor(l), BigAt(l, minArea, gate), spans, rep, blobs, owners, roots, i + 1)
  {
    if listed {
      RootAdded(BlobFor(l), BigAt(l, minArea, gate), spans, rep, blobs, owners, roots, i, blob);
    }
  }

  lemma AllListed(
      l: Lattice, minArea: nat, gate: Component -> bool, comps: seq<Component>, spans: seq<Span>, rep: seq<nat>,
      blobs: seq<Candidate>,
      owners: seq<Pixel>, roots: seq<int>)
    requires l.WellFormed() && AllRuns(l.Foreground(), spans)
    requires SameRootIffConnected(l.Foreground(), spans, rep)
    requires Measured(comps, l.Gray(), l.Foreground(), spans, rep)
    requires RootsListed(BlobFor(l), BigAt(l, minArea, gate), spans, rep, blobs, owners, roots, |spans|)
    ensures ListsComponents(BlobFor(l), BigAt(l, minArea, gate), l.Foreground(), blobs, owners)
  {
    ClassesShareBigness(l, minArea, gate);
    RootsAreAll(BlobFor(l), BigAt(l, minArea, gate), l.Foreground(), spans, rep, blobs, owners, roots);
  }

  lemma ClassesShareBigness(l: Lattice, minArea: nat, gate: Component -> bool)
    requires l.WellFormed()
    ensures forall p, q ::
              Reach(Adjacent(l.Foreground()), p, q) ==> BigAt(l, minArea, gate)(p) == BigAt(l, minArea, gate)(q)
  {
    forall p, q | Reach(Adjacent(l.Foreground()), p, q)
      ensures BigAt(l, minArea, gate)(p) == BigAt(l, minArea, gate)(q)
    {
      SameComponent(l.Foreground(), p, q);
    }
  }

  lemma SameComponent(fg: set<Pixel>, p: Pixel, q: Pixel)
    requires Reach(Adjacent(fg), p, q)
    ensures ComponentOf(fg, p) == ComponentOf(fg, q)
  {
    ReachSym(Adjacent(fg), p, q);
    forall r
      ensures r in ComponentOf(fg, p) <==> r in ComponentOf(fg, q)
    {
      if Reach(Adjacent(fg), p, r) {
        ReachTrans(Adjacent(fg), q, p, r);
      }
      if Reach(Adjacent(fg), q, r) {
        ReachTrans(Adjacent(fg), p, q, r);
      }
    }
  }

  /** Two points lie in runs with the same representative exactly when a foreground path joins them. */
  ghost predicate SameRootIffConnected(fg: set<Pixel>, spans: seq<Span>, rep: seq<nat>) {
    && |rep| == |spans|
    && forall i, j, p, q ::
         0 <= i < |spans| && 0 <= j < |spans| && InSpan(spans[i], p) && InSpan(spans[j], q)
         ==> (rep[i] == rep[j] <==> Reach(Adjacent(fg), p, q))
  }

  /** Each root's component describes its connected component, and every other entry stays empty. */
  ghost predicate Measured(
      comps: seq<Component>, gray: Pixel -> int, fg: set<Pixel>, spans: seq<Span>, rep: seq<nat>)
  {
    && |comps| == |rep| == |spans|
    && (forall i :: 0 <= i < |rep| ==> rep[i] < |rep| && rep[rep[i]] == rep[i])
    && (forall i :: 0 <= i < |rep| ==> Describes(comps[rep[i]], gray, ComponentOf(fg, StartOf(spans[i]))))
    && (forall r :: 0 <= r < |rep| && rep[r] != r ==> comps[r].sums == ZERO)
  }

  /** After `n` runs, each entry describes the points of those runs that belong to it. */
  ghost predicate Accumulated(comps: seq<Component>, gray: Pixel -> int, spans: seq<Span>, rep: seq<nat>, n: nat) {
    && |comps| == |rep| == |spans| && n <= |spans|
    && forall r :: 0 <= r < |comps| ==> Describes(comps[r], gray, Members(spans, rep, r, n))
  }

  lemma AccumulateStep(
      comps: seq<Component>, gray: Pixel -> int, fg: set<Pixel>, spans: seq<Span>, rep: seq<nat>, i: nat)
    requires Accumulated(comps, gray, spans, rep, i) && i < |spans| && rep[i] < |rep|
    requires AllRuns(fg, spans)
    ensures Maximal(fg, spans[i])
    ensures var m := Total(Weight(gray), RunPixels(spans[i]));
            Accumulated(comps[rep[i] := Absorb(comps[rep[i]], spans[i], m)], gray, spans, rep, i + 1)
  {
    var r := rep[i];
    assert Maximal(fg, spans[i]);
    var grown := Absorb(comps[r], spans[i], Total(Weight(gray), RunPixels(spans[i])));
    RunJoins(comps[r], gray, fg, spans, rep, i);
    OthersUnchanged(comps, grown, gray, spans, rep, i);
  }

  lemma RunJoins(c: Component, gray: Pixel -> int, fg: set<Pixel>, spans: seq<Span>, rep: seq<nat>, i: nat)
    requires AllRuns(fg, spans) && |rep| == |spans| && i < |spans| && Maximal(fg, spans[i])
    requires Describes(c, gray, Members(spans, rep, rep[i], i))
    ensures var m := Total(Weight(gray), RunPixels(spans[i]));
            Describes(Absorb(c, spans[i], m), gray, Members(spans, rep, rep[i], i + 1))
  {
    MembersBefore(fg, spans, rep, rep[i], i);
    AbsorbDescribes(c, gray, Members(spans, rep, rep[i], i), spans[i]);
    assert Members(spans, rep, rep[i], i + 1) == Members(spans, rep, rep[i], i) + RunPixels(spans[i]);
  }

  lemma OthersUnchanged(
      comps: seq<Component>, grown: Component, gray: Pixel -> int, spans: seq<Span>, rep: seq<nat>, i: nat)
    requires Accumulated(comps, gray, spans, rep, i) && i < |spans| && rep[i] < |rep|
    requires Describes(grown, gray, Members(spans, rep, rep[i], i + 1))
    ensures Accumulated(comps[rep[i] := grown], gray, spans, rep, i + 1)
  {
    var after := comps[rep[i] := grown];
    forall q | 0 <= q < |after|
      ensures Describes(after[q], gray, Members(spans, rep, q, i + 1))
    {
      if q != rep[i] {
        assert Members(spans, rep, q, i + 1) == Members(spans, rep, q, i);
        assert after[q] == comps[q];
      }
    }
  }

  /** Every sum fits 64 bits. */
  predicate AllFit(comps: seq<Component>) {
    forall r :: 0 <= r < |comps| ==> comps[r].sums.AllBelow(TWO_64)
  }

  /** So it is at every moment of the second pass: what has been added up belongs to foreground points. */
  lemma AccumulatedFit(comps: seq<Component>, l: Lattice, spans: seq<Span>, rep: seq<nat>, n: nat)
    requires l.WellFormed() && AllRuns(l.Foreground(), spans) && Accumulated(comps, l.Gray(), spans, rep, n)
    ensures AllFit(comps)
  {
    forall r | 0 <= r < |comps|
      ensures comps[r].sums.AllBelow(TWO_64)
    {
      assert Describes(comps[r], l.Gray(), Members(spans, rep, r, n));
      forall p | p in Members(spans, rep, r, n)
        ensures p in l.Foreground()
      {
        var k :| 0 <= k < n && rep[k] == r && InSpan(spans[k], p);
        assert Maximal(l.Foreground(), spans[k]);
      }
      AccumulatorsFit(l, Members(spans, rep, r, n));
    }
  }

  lemma NothingAccumulated(comps: seq<Component>, gray: Pixel -> int, spans: seq<Span>, rep: seq<nat>)
    requires |comps| == |rep| == |spans|
    requires forall r :: 0 <= r < |comps| ==> comps[r] == EMPTY
    ensures Accumulated(comps, gray, spans, rep, 0)
  {
    forall r | 0 <= r < |comps|
      ensures Describes(comps[r], gray, Members(spans, rep, r, 0))
    {
      assert Members(spans, rep, r, 0) == {};
    }
  }

  lemma RootsAreComponents(fg: set<Pixel>, spans: seq<Span>, rep: seq<nat>, links: set<(int, int)>)
    requires AllRuns(fg, spans) && |rep| == |spans|
    requires PartitionOk(rep, links) && LinksAreTouches(spans, links)
    ensures SameRootIffConnected(fg, spans, rep)
  {
    forall i, j, p, q | 0 <= i < |spans| && 0 <= j < |spans| && InSpan(spans[i], p) && InSpan(spans[j], q)
      ensures rep[i] == rep[j] <==> Reach(Adjacent(fg), p, q)
    {
      SameClassIffConnected(fg, spans, rep, links, i, j, p, q);
    }
  }

  lemma AllMeasured(
      comps: seq<Component>, gray: Pixel -> int, fg: set<Pixel>, f: seq<Run>, spans: seq<Span>, rep: seq<nat>,
      links: set<(int, int)>)
    requires AllRuns(fg, spans) && |rep| == |spans| && ForestOk(f, rep)
    requires PartitionOk(rep, links) && LinksAreTouches(spans, links)
    requires Accumulated(comps, gray, spans, rep, |spans|)
    ensures Measured(comps, gray, fg, spans, rep)
  {
    forall i | 0 <= i < |rep|
      ensures rep[i] < |rep| && rep[rep[i]] == rep[i]
      ensures Describes(comps[rep[i]], gray, ComponentOf(fg, StartOf(spans[i])))
    {
      assert NodeOk(f, rep, i);
      MembersAreComponent(fg, spans, rep, links, i);
    }
    forall r | 0 <= r < |rep| && rep[r] != r
      ensures comps[r].sums == ZERO
    {
      NoMembers(f, spans, rep, r);
    }
  }

  /** One run's contribution by the closed forms, with the gray values added up along the row. */
  method Measure(l: Lattice, s: Span) returns (m: Moments)
    requires l.WellFormed() && Maximal(l.Foreground(), s)
    ensures m == Total(Weight(l.Gray()), RunPixels(s))
    ensures ProductsBelow(s, TWO_64)
  {
    assert l.On(Pixel(s.x1, s.y)) by {
      assert InSpan(s, Pixel(s.x1, s.y));
    }
    PointsInsideWindow(l, Pixel(s.x1, s.y));
    ClosedFormsFit(s);
    var luma := 0;
    var x := s.x0;
    while x <= s.x1
      invariant s.x0 <= x <= s.x1 + 1
      invariant luma == LumaSum(l.Gray(), s.x0, x, s.y)
    {
      assert InSpan(s, Pixel(x, s.y)) && l.On(Pixel(x, s.y));
      luma := luma + l.Luma(Pixel(x, s.y));
      x := x + 1;
    }
    RunTotal(l.Gray(), s);
    m := RunMoments(s, luma);
  }

  lemma NextRow(fg: set<Pixel>, spans: seq<Span>, begin: nat, end: nat, y: int)
    requires InRows(spans, begin, end, y) && RunsUpTo(fg, spans, 0, y + 1)
    ensures InRows(spans, end, |spans|, y + 1)
  {
    forall k | 0 <= k < |spans|
      ensures spans[k].y < y + 1
    {
      assert Before(Pixel(spans[k].x1, spans[k].y), 0, y + 1);
    }
  }

  lemma LastRow(l: Lattice, spans: seq<Span>, y: nat)
    requires l.WellFormed() && y * l.step >= l.window.height
    requires RunsUpTo(l.Foreground(), spans, 0, y)
    ensures AllRuns(l.Foreground(), spans)
  {
    forall p | p in l.Foreground()
      ensures Before(p, 0, y)
    {
      assert l.On(p);
      if p.y >= y {
        ScaleMonotone(y, p.y, l.step);
      }
    }
  }

  /** The runs added so far are above or to the left of run `i`, and share no point with it. */
  lemma MembersBefore(fg: set<Pixel>, spans: seq<Span>, rep: seq<nat>, r: nat, i: nat)
    requires AllRuns(fg, spans) && |rep| == |spans| && i < |spans|
    ensures forall p :: p in Members(spans, rep, r, i) ==> p.y <= spans[i].y && !InSpan(spans[i], p)
  {
    forall p | p in Members(spans, rep, r, i)
      ensures p.y <= spans[i].y && !InSpan(spans[i], p)
    {
      var k :| 0 <= k < i && rep[k] == r && InSpan(spans[k], p);
      assert Precedes(spans[k], spans[i]);
    }
  }

  lemma MembersAreComponent(fg: set<Pixel>, spans: seq<Span>, rep: seq<nat>, links: set<(int, int)>, i: nat)
    requires AllRuns(fg, spans) && |rep| == |spans| && i < |spans|
    requires PartitionOk(rep, links) && LinksAreTouches(spans, links)
    ensures Members(spans, rep, rep[i], |spans|) == ComponentOf(fg, StartOf(spans[i]))
  {
    var p := StartOf(spans[i]);
    assert Maximal(fg, spans[i]);
    forall q
      ensures q in Members(spans, rep, rep[i], |spans|) <==> q in ComponentOf(fg, p)
    {
      if q in fg {
        var j := RunAt(spans, q);
        SameClassIffConnected(fg, spans, rep, links, i, j, p, q);
      }
      if q in Members(spans, rep, rep[i], |spans|) {
        var k :| 0 <= k < |spans| && rep[k] == rep[i] && InSpan(spans[k], q);
        assert Maximal(fg, spans[k]);
        NoOverlap(fg, spans, q, k, RunAt(spans, q));
      }
    }
  }

  lemma NoMembers(f: seq<Run>, spans: seq<Span>, rep: seq<nat>, r: nat)
    requires ForestOk(f, rep) && |rep| == |spans| && r < |spans| && rep[r] != r
    ensures Members(spans, rep, r, |spans|) == {}
  {
    forall k | 0 <= k < |spans|
      ensures rep[k] != r
    {
      assert NodeOk(f, rep, k);
    }
    assert forall p :: p !in Members(spans, rep, r, |spans|);
  }

  /** Runs `begin..end` are those of the row above row `y`, and the runs from `end` on are those of row `y`. */
  ghost predicate InRows(spans: seq<Span>, begin: nat, end: nat, y: int) {
    && begin <= end <= |spans|
    && (forall k :: 0 <= k < |spans| ==> (spans[k].y == y <==> end <= k))
    && (forall k :: 0 <= k < end ==> (spans[k].y + 1 == y <==> begin <= k))
  }

  /** The sweep pointer: every run above that it has passed ends too far left to touch anything from `x` on. */
  ghost predicate Passed(spans: seq<Span>, begin: nat, pointer: nat, end: nat, x: int) {
    && begin <= pointer <= end <= |spans|
    && (forall k :: begin <= k < pointer ==> spans[k].x1 + 1 < x)
  }

  /** The runs from `from` to `end` lie in the row above run `id`, from left to right. */
  ghost predicate Above(spans: seq<Span>, id: nat, from: nat, end: nat) {
    && from <= end <= id < |spans|
    && (forall k, m :: from <= k < m < end ==> Precedes(spans[k], spans[m]))
    && (forall k :: from <= k < end ==> spans[k].y + 1 == spans[id].y && spans[k].x0 <= spans[k].x1)
  }

  ghost function TouchedBy(spans: seq<Span>, id: nat, from: nat, end: nat): (s: set<(int, int)>)
    requires from <= end <= id < |spans|
  {
    set k: int | from <= k < end && Touch(spans[id], spans[k]) :: (id as int, k)
  }

  lemma TouchedByIs(spans: seq<Span>, id: nat, from: nat, end: nat)
    requires from <= end <= id < |spans|
    ensures forall i, k ::
              (i, k) in TouchedBy(spans, id, from, end) <==> i == id && from <= k < end && Touch(spans[id], spans[k])
  {
    forall i, k | i == id && from <= k < end && Touch(spans[id], spans[k])
      ensures (i, k) in TouchedBy(spans, id, from, end)
    {
      assert Touch(spans[id], spans[k]);
    }
  }

  /** The links after run `id` was united with the runs from `from` to `end`. */
  ghost function WithRow(links: set<(int, int)>, id: nat, from: nat, end: nat): set<(int, int)> {
    if end <= from then links else WithRow(links, id, from, end - 1) + {(id as int, end - 1)}
  }

  lemma WithRowGrows(links: set<(int, int)>, id: nat, from: nat, k: nat)
    requires from <= k
    ensures WithRow(links, id, from, k + 1) == WithRow(links, id, from, k) + {(id as int, k as int)}
  {
  }

  lemma {:induction false} WithRowIs(links: set<(int, int)>, id: nat, from: nat, end: nat)
    ensures forall i, k :: (i, k) in WithRow(links, id, from, end) <==> (i, k) in links || (i == id && from <= k < end)
  {
    if from < end {
      WithRowIs(links, id, from, end - 1);
    }
  }

  /** The runs between the two stopping points are those that touch. */
  lemma RowTouches(links: set<(int, int)>, spans: seq<Span>, id: nat, from: nat, first: nat, k: nat, end: nat)
    requires Above(spans, id, from, end) && from <= first <= k <= end
    requires forall m :: from <= m < first ==> spans[m].x1 + 1 < spans[id].x0
    requires first < end ==> spans[id].x0 <= spans[first].x1 + 1
    requires first < k ==> spans[k - 1].x0 <= spans[id].x1 + 1
    requires k < end ==> spans[k].x0 > spans[id].x1 + 1
    ensures WithRow(links, id, first, k) == links + TouchedBy(spans, id, from, end)
  {
    WithRowIs(links, id, first, k);
    TouchedByIs(spans, id, from, end);
    forall i, m
      ensures (i, m) in WithRow(links, id, first, k) <==> (i, m) in links + TouchedBy(spans, id, from, end)
    {
      if from <= m < end {
        TouchesBetween(spans, id, from, first, k, end, m);
      }
    }
    SamePairs(WithRow(links, id, first, k), links + TouchedBy(spans, id, from, end));
  }

  lemma TouchesBetween(spans: seq<Span>, id: nat, from: nat, first: nat, k: nat, end: nat, m: nat)
    requires Above(spans, id, from, end) && from <= first <= k <= end && from <= m < end
    requires forall n :: from <= n < first ==> spans[n].x1 + 1 < spans[id].x0
    requires first < end ==> spans[id].x0 <= spans[first].x1 + 1
    requires first < k ==> spans[k - 1].x0 <= spans[id].x1 + 1
    requires k < end ==> spans[k].x0 > spans[id].x1 + 1
    ensures first <= m < k <==> Touch(spans[id], spans[m])
  {
    assert first < m ==> Precedes(spans[first], spans[m]);
    assert m < k - 1 ==> Precedes(spans[m], spans[k - 1]);
    assert k < m ==> Precedes(spans[k], spans[m]);
  }

  lemma SamePairs(a: set<(int, int)>, b: set<(int, int)>)
    requires forall i, k :: (i, k) in a <==> (i, k) in b
    ensures a == b
  {
    forall link
      ensures link in a <==> link in b
    {
      var (i, k) := link;
      assert (i, k) in a <==> (i, k) in b;
    }
  }

  lemma RunsAreAbove(fg: set<Pixel>, spans: seq<Span>, span: Span, from: nat, end: nat, begin: nat)
    requires RunsUpTo(fg, spans, span.x0, span.y)
    requires InRows(spans, begin, end, span.y) && Passed(spans, begin, from, end, span.x0)
    ensures Above(spans + [span], |spans|, from, end)
  {
    forall k | from <= k < end
      ensures spans[k].y + 1 == span.y && spans[k].x0 <= spans[k].x1
    {
      assert Maximal(fg, spans[k]);
    }
  }

  lemma RunAdded(
      fg: set<Pixel>, spans: seq<Span>, span: Span, links: set<(int, int)>, from: nat, end: nat, begin: nat)
    requires RunsUpTo(fg, spans, span.x0, span.y) && LinksAreTouches(spans, links) && Maximal(fg, span)
    requires InRows(spans, begin, end, span.y) && Passed(spans, begin, from, end, span.x0)
    ensures RunsUpTo(fg, spans + [span], span.x1 + 1, span.y) && InRows(spans + [span], begin, end, span.y)
    ensures LinksAreTouches(spans + [span], links + TouchedBy(spans + [span], |spans|, from, end))
  {
    RunClosed(fg, spans, span, span.x1 + 1, span.y);
    TouchesExtended(spans, span, links, from, end, begin);
  }

  /** The sweep's links for the newest run are its touching pairs, no more and no fewer. */
  lemma TouchesExtended(
      spans: seq<Span>, span: Span, links: set<(int, int)>, from: nat, end: nat, begin: nat)
    requires LinksAreTouches(spans, links)
    requires InRows(spans, begin, end, span.y) && Passed(spans, begin, from, end, span.x0)
    ensures LinksAreTouches(spans + [span], links + TouchedBy(spans + [span], |spans|, from, end))
  {
    var longer := spans + [span];
    forall i, k
      ensures (i, k) in links + TouchedBy(longer, |spans|, from, end)
         <==> 0 <= k < i < |longer| && Touch(longer[i], longer[k])
    {
      if 0 <= k < i < |spans| {
        assert longer[i] == spans[i] && longer[k] == spans[k];
      }
    }
  }

  /** Reads one sample of the row: is it foreground? */
  method Bright(l: Lattice, x: nat, y: nat, ghost sx: nat, ghost sy: nat) returns (b: bool)
    requires l.WellFormed() && x < l.window.width && y < l.window.height
    requires x == sx * l.step && y == sy * l.step
    ensures b <==> Pixel(sx, sy) in l.Foreground()
  {
    ByteInFrame(l, x, y);
    b := l.frame.luma[(l.window.y + y) * l.frame.stride + l.window.x + x] >= l.threshold;
    assert l.InRange(Pixel(sx, sy));
  }

  /** Walks to the first sample after `start` that is dark or outside the window. */
  method EndOfRun(l: Lattice, start: nat, y: nat, ghost first: nat, ghost sy: nat)
    returns (x: nat, ghost sx: nat)
    requires l.WellFormed() && start < l.window.width && y < l.window.height
    requires start == first * l.step && y == sy * l.step
    requires Pixel(first, sy) in l.Foreground()
    ensures first < sx && x == sx * l.step && start < x
    ensures forall i :: first <= i < sx ==> Pixel(i, sy) in l.Foreground()
    ensures Pixel(sx, sy) !in l.Foreground()
  {
    ghost var fg := l.Foreground();
    OneMoreStep(first, l.step);
    x, sx := start + l.step, first + 1;
    while x < l.window.width
      invariant first < sx && x == sx * l.step && start < x
      invariant forall i :: first <= i < sx ==> Pixel(i, sy) in fg
      decreases l.window.width - x
    {
      var bright := Bright(l, x, y, sx, sy);
      if !bright {
        return;
      }
      OneMoreStep(sx, l.step);
      x, sx := x + l.step, sx + 1;
    }
    BeyondIsDark(l, sx, sy);
  }

  lemma BeyondIsDark(l: Lattice, sx: nat, sy: nat)
    requires l.WellFormed() && sx * l.step >= l.window.width
    ensures Pixel(sx, sy) !in l.Foreground()
  {
    assert !l.InRange(Pixel(sx, sy));
  }

  lemma DarkPassed(fg: set<Pixel>, spans: seq<Span>, x: int, y: int)
    requires RunsUpTo(fg, spans, x, y) && Pixel(x, y) !in fg
    ensures RunsUpTo(fg, spans, x + 1, y)
  {
    forall p | p in fg && Before(p, x + 1, y)
      ensures Covered(spans, p)
    {
      assert p != Pixel(x, y);
    }
  }

  lemma MaximalFromScan(fg: set<Pixel>, s: Span)
    requires s.x0 <= s.x1
    requires forall i :: s.x0 <= i <= s.x1 ==> Pixel(i, s.y) in fg
    requires Pixel(s.x0 - 1, s.y) !in fg && Pixel(s.x1 + 1, s.y) !in fg
    ensures Maximal(fg, s)
  {
    forall p | InSpan(s, p)
      ensures p in fg
    {
      assert p == Pixel(p.x, s.y);
    }
  }

  lemma RunClosed(fg: set<Pixel>, spans: seq<Span>, s: Span, x: int, y: int)
    requires RunsUpTo(fg, spans, s.x0, y) && Maximal(fg, s) && s.y == y && x == s.x1 + 1
    ensures RunsUpTo(fg, spans + [s], x, y)
  {
    var longer := spans + [s];
    forall k | 0 <= k < |spans|
      ensures Precedes(spans[k], s)
    {
      assert Maximal(fg, spans[k]);
      assert InSpan(s, StartOf(s));
    }
    forall p | p in fg && Before(p, x, y)
      ensures Covered(longer, p)
    {
      if Before(p, s.x0, y) {
        var k :| 0 <= k < |spans| && InSpan(spans[k], p);
        assert InSpan(longer[k], p);
      } else {
        assert InSpan(longer[|spans|], p);
      }
    }
  }

  lemma RowClosed(l: Lattice, spans: seq<Span>, x: nat, y: nat)
    requires l.WellFormed() && x * l.step >= l.window.width
    requires RunsUpTo(l.Foreground(), spans, x, y)
    ensures RunsUpTo(l.Foreground(), spans, 0, y + 1)
  {
    forall p | p in l.Foreground() && Before(p, 0, y + 1)
      ensures Before(p, x, y)
    {
      assert l.On(p);
      if p.y == y && p.x >= x {
        ScaleMonotone(x, p.x, l.step);
      }
    }
  }
}
