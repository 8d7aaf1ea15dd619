/** The union-find forest over runs, read as a value: a parent and a rank per run, and the representative
    every node is supposed to lead to. Path halving and union by rank are functions on that value; the
    lemmas say what each keeps. */
module RunForest {
  import opened FiniteSets
  import opened Reachability

  /** A maximal horizontal stretch of sampled foreground, in lattice coordinates. */
  datatype Span = Span(x0: nat, x1: nat, y: nat)

  datatype Run = Run(x0: nat, x1: nat, y: nat, parent: nat, rank: nat) {
    function Shape(): Span { Span(x0, x1, y) }
  }

  function Pow2(n: nat): (p: nat)
    ensures p > 0
  {
    if n == 0 then 1 else 2 * Pow2(n - 1)
  }

  lemma {:induction false} Pow2Monotone(m: nat, n: nat)
    requires m < n
    ensures 2 * Pow2(m) <= Pow2(n)
    decreases n
  {
    if m < n - 1 {
      Pow2Monotone(m, n - 1);
    }
  }

  ghost function Class(rep: seq<nat>, r: nat): set<nat> {
    set i | 0 <= i < |rep| && rep[i] == r
  }

  /** Parents lead to the representative, representatives are exactly the roots, ranks strictly increase
      along parents, and a tree whose node has rank k holds at least 2^k runs. */
  ghost predicate NodeOk(f: seq<Run>, rep: seq<nat>, i: nat)
    requires |f| == |rep| && i < |f|
  {
    && f[i].parent < |f| && rep[i] < |f|
    && rep[f[i].parent] == rep[i]
    && rep[rep[i]] == rep[i]
    && (f[i].parent == i <==> rep[i] == i)
    && (f[i].parent != i ==> f[i].rank < f[f[i].parent].rank)
    && Pow2(f[i].rank) <= |Class(rep, rep[i])|
  }

  ghost predicate ForestOk(f: seq<Run>, rep: seq<nat>) {
    |f| == |rep| && forall i :: 0 <= i < |f| ==> NodeOk(f, rep, i)
  }

  /** Two runs are linked when some `Unite` call named both. */
  ghost function Linked(links: set<(int, int)>): (int, int) -> bool {
    (a: int, b: int) => (a, b) in links || (b, a) in links
  }

  /** The partition is the equivalence generated by the links: every link is inside one class, and two runs
      of one class are joined by a chain of links. */
  ghost predicate PartitionOk(rep: seq<nat>, links: set<(int, int)>) {
    && (forall a, b :: (a, b) in links ==> 0 <= a < |rep| && 0 <= b < |rep| && rep[a] == rep[b])
    && (forall i, j :: 0 <= i < |rep| && 0 <= j < |rep| && rep[i] == rep[j] ==> Reach(Linked(links), i, j))
  }

  lemma ClassBound(rep: seq<nat>, r: nat)
    ensures |Class(rep, r)| <= |rep|
  {
    SubsetSize(Class(rep, r), Below(|rep|));
  }

  /** Union by rank keeps trees shallow: with at most 65535 runs no rank exceeds 15, so a root is at most
      15 parents away and a 32-bit rank cannot wrap. */
  lemma RankBound(f: seq<Run>, rep: seq<nat>, i: nat)
    requires ForestOk(f, rep) && |f| <= 65535 && i < |f|
    ensures f[i].rank <= 15
  {
    assert NodeOk(f, rep, i);
    ClassBound(rep, rep[i]);
    assert Pow2(15) == 32768 by {
      assert Pow2(3) == 8;
      assert Pow2(6) == 64;
      assert Pow2(9) == 512;
      assert Pow2(12) == 4096;
    }
    if f[i].rank > 15 {
      Pow2Monotone(15, f[i].rank);
    }
  }

  // ---- path halving -------------------------------------------------------------------------------

  function Halve(f: seq<Run>, id: nat): (g: seq<Run>)
    requires id < |f| && f[id].parent < |f|
  {
    f[id := f[id].(parent := f[f[id].parent].parent)]
  }

  /** One halving step keeps every node's representative, every rank and every shape. */
  lemma HalveKeeps(f: seq<Run>, rep: seq<nat>, id: nat)
    requires ForestOk(f, rep) && id < |f| && f[id].parent != id
    ensures NodeOk(f, rep, id)
    ensures ForestOk(Halve(f, id), rep)
    ensures var p := Halve(f, id)[id].parent; p < |f| && f[id].rank < f[p].rank && rep[p] == rep[id]
  {
    var p := f[id].parent;
    assert NodeOk(f, rep, id) && NodeOk(f, rep, p);
    var g := Halve(f, id);
    var q := g[id].parent;
    assert NodeOk(f, rep, q);
    assert q != id;
    forall i | 0 <= i < |g|
      ensures NodeOk(g, rep, i)
    {
      assert NodeOk(f, rep, i);
    }
  }

  // ---- union by rank ------------------------------------------------------------------------------

  function Merge(rep: seq<nat>, a: nat, b: nat): (merged: seq<nat>)
    ensures |merged| == |rep|
  {
    seq(|rep|, i requires 0 <= i < |rep| => if rep[i] == b then a else rep[i])
  }

  /** Hang root `b` under root `a`, whose rank is not smaller. */
  function Hang(f: seq<Run>, a: nat, b: nat): (g: seq<Run>)
    requires a < |f| && b < |f|
  {
    var g := f[b := f[b].(parent := a)];
    if g[a].rank == g[b].rank then g[a := g[a].(rank := g[a].rank + 1)] else g
  }

  lemma ClassMerge(rep: seq<nat>, a: nat, b: nat)
    requires a != b
    ensures Class(Merge(rep, a, b), a) == Class(rep, a) + Class(rep, b)
    ensures |Class(Merge(rep, a, b), a)| == |Class(rep, a)| + |Class(rep, b)|
  {
    assert Class(rep, a) !! Class(rep, b);
    assert Class(Merge(rep, a, b), a) == Class(rep, a) + Class(rep, b);
  }

  lemma HangKeeps(f: seq<Run>, rep: seq<nat>, a: nat, b: nat)
    requires ForestOk(f, rep)
    requires a < |f| && b < |f| && a != b
    requires f[a].parent == a && f[b].parent == b && f[a].rank >= f[b].rank
    ensures ForestOk(Hang(f, a, b), Merge(rep, a, b))
  {
    var g, merged := Hang(f, a, b), Merge(rep, a, b);
    assert NodeOk(f, rep, a) && NodeOk(f, rep, b);
    ClassMerge(rep, a, b);
    forall i | 0 <= i < |g|
      ensures NodeOk(g, merged, i)
    {
      assert NodeOk(f, rep, i);
      if rep[i] != a && rep[i] != b {
        assert Class(merged, rep[i]) == Class(rep, rep[i]);
      }
    }
  }

  /** After a union by rank the classes of `a` and `b` are one and every other class is untouched. */
  lemma MergeKeepsPartition(rep: seq<nat>, links: set<(int, int)>, x: nat, y: nat, a: nat, b: nat)
    requires PartitionOk(rep, links)
    requires x < |rep| && y < |rep|
    requires (rep[x] == a && rep[y] == b) || (rep[x] == b && rep[y] == a)
    ensures PartitionOk(Merge(rep, a, b), links + {(x, y)})
  {
    var merged, more := Merge(rep, a, b), links + {(x, y)};
    forall i, j | 0 <= i < |rep| && 0 <= j < |rep| && merged[i] == merged[j]
      ensures Reach(Linked(more), i, j)
    {
      if rep[i] == rep[j] {
        ReachMono(Linked(links), Linked(more), i, j);
      } else {
        var s, t := if rep[i] == rep[x] then x else y, if rep[i] == rep[x] then y else x;
        ReachMono(Linked(links), Linked(more), i, s);
        ReachStep(Linked(more), s, t);
        ReachMono(Linked(links), Linked(more), t, j);
        ReachTrans(Linked(more), i, s, t);
        ReachTrans(Linked(more), i, t, j);
      }
    }
  }

  /** A link inside one class changes nothing. */
  lemma LinkKeepsPartition(rep: seq<nat>, links: set<(int, int)>, x: nat, y: nat)
    requires PartitionOk(rep, links)
    requires x < |rep| && y < |rep| && rep[x] == rep[y]
    ensures PartitionOk(rep, links + {(x, y)})
  {
    var more := links + {(x, y)};
    forall i, j | 0 <= i < |rep| && 0 <= j < |rep| && rep[i] == rep[j]
      ensures Reach(Linked(more), i, j)
    {
      ReachMono(Linked(links), Linked(more), i, j);
    }
  }

  // ---- a new singleton ----------------------------------------------------------------------------

  lemma AppendKeeps(f: seq<Run>, rep: seq<nat>, links: set<(int, int)>, run: Run)
    requires ForestOk(f, rep) && PartitionOk(rep, links)
    requires run.parent == |f| && run.rank == 0
    ensures ForestOk(f + [run], rep + [|f|])
    ensures PartitionOk(rep + [|f|], links)
  {
    var g, longer := f + [run], rep + [|f|];
    forall i | 0 <= i < |g|
      ensures NodeOk(g, longer, i)
    {
      if i < |f| {
        assert NodeOk(f, rep, i);
        assert NodeOk(f, rep, f[i].parent);
        assert Class(longer, rep[i]) == Class(rep, rep[i]);
      } else {
        assert |f| in Class(longer, |f|);
      }
    }
    forall i, j | 0 <= i < |longer| && 0 <= j < |longer| && longer[i] == longer[j]
      ensures Reach(Linked(links), i, j)
    {
      if i < |f| {
        assert NodeOk(f, rep, i);
      }
      if j < |f| {
        assert NodeOk(f, rep, j);
      }
      if i == j {
        ReachRefl(Linked(links), i);
      }
    }
  }
}
