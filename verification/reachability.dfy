/** Paths of a relation and the equivalence it generates. Both the lattice of sampled pixels and the links
    recorded by the run forest are read through this one notion of "connected". */
module Reachability {

  ghost predicate Path<T(!new)>(rel: (T, T) -> bool, p: seq<T>) {
    p != [] && forall k :: 0 <= k < |p| - 1 ==> rel(p[k], p[k + 1])
  }

  ghost predicate Reach<T(!new)>(rel: (T, T) -> bool, a: T, b: T) {
    exists p :: Path(rel, p) && p[0] == a && p[|p| - 1] == b
  }

  ghost predicate Symmetric<T(!new)>(rel: (T, T) -> bool) {
    forall x, y :: rel(x, y) ==> rel(y, x)
  }

  lemma ReachRefl<T(!new)>(rel: (T, T) -> bool, a: T)
    ensures Reach(rel, a, a)
  {
    assert Path(rel, [a]);
  }

  lemma ReachStep<T(!new)>(rel: (T, T) -> bool, a: T, b: T)
    requires rel(a, b)
    ensures Reach(rel, a, b)
  {
    var p := [a, b];
    assert Path(rel, p) && p[0] == a && p[|p| - 1] == b;
  }

  lemma ReachTrans<T(!new)>(rel: (T, T) -> bool, a: T, b: T, c: T)
    requires Reach(rel, a, b) && Reach(rel, b, c)
    ensures Reach(rel, a, c)
  {
    var p :| Path(rel, p) && p[0] == a && p[|p| - 1] == b;
    var q :| Path(rel, q) && q[0] == b && q[|q| - 1] == c;
    var r := p + q[1..];
    assert r[|r| - 1] == c;
    forall k | 0 <= k < |r| - 1
      ensures rel(r[k], r[k + 1])
    {
      if k < |p| - 1 {
        assert r[k] == p[k] && r[k + 1] == p[k + 1];
      } else {
        assert r[k] == q[k - |p| + 1] && r[k + 1] == q[k - |p| + 2];
      }
    }
    assert Path(rel, r);
  }

  lemma ReachSym<T(!new)>(rel: (T, T) -> bool, a: T, b: T)
    requires Symmetric(rel)
    requires Reach(rel, a, b)
    ensures Reach(rel, b, a)
  {
    var p :| Path(rel, p) && p[0] == a && p[|p| - 1] == b;
    var r := seq(|p|, i requires 0 <= i < |p| => p[|p| - 1 - i]);
    forall k | 0 <= k < |r| - 1
      ensures rel(r[k], r[k + 1])
    {
      var j := |p| - 2 - k;
      assert rel(p[j], p[j + 1]);
    }
    assert Path(rel, r) && r[0] == b && r[|r| - 1] == a;
  }

  lemma ReachMono<T(!new)>(rel: (T, T) -> bool, wider: (T, T) -> bool, a: T, b: T)
    requires forall x, y :: rel(x, y) ==> wider(x, y)
    requires Reach(rel, a, b)
    ensures Reach(wider, a, b)
  {
    var p :| Path(rel, p) && p[0] == a && p[|p| - 1] == b;
    assert Path(wider, p);
  }

  /** A label that no single step changes is the same at both ends of every path. */
  lemma ReachKeepsLabel<T(!new), L>(rel: (T, T) -> bool, tag: T -> L, a: T, b: T)
    requires forall x, y :: rel(x, y) ==> tag(x) == tag(y)
    requires Reach(rel, a, b)
    ensures tag(a) == tag(b)
  {
    var p :| Path(rel, p) && p[0] == a && p[|p| - 1] == b;
    PathKeepsLabel(rel, tag, p);
  }

  lemma {:induction false} PathKeepsLabel<T(!new), L>(rel: (T, T) -> bool, tag: T -> L, p: seq<T>)
    requires forall x, y :: rel(x, y) ==> tag(x) == tag(y)
    requires Path(rel, p)
    ensures tag(p[0]) == tag(p[|p| - 1])
  {
    if |p| > 1 {
      var q := p[..|p| - 1];
      assert forall k :: 0 <= k < |q| - 1 ==> rel(q[k], q[k + 1]) by {
        forall k | 0 <= k < |q| - 1 ensures rel(q[k], q[k + 1]) {
          assert rel(p[k], p[k + 1]);
        }
      }
      PathKeepsLabel(rel, tag, q);
      assert rel(p[|p| - 2], p[|p| - 1]);
    }
  }

  /** When each step maps to a path of another relation, so does each path. */
  lemma ReachMap<T(!new), U(!new)>(rel: (T, T) -> bool, image: (U, U) -> bool, f: T -> U, a: T, b: T)
    requires forall x, y :: rel(x, y) ==> Reach(image, f(x), f(y))
    requires Reach(rel, a, b)
    ensures Reach(image, f(a), f(b))
  {
    var p :| Path(rel, p) && p[0] == a && p[|p| - 1] == b;
    PathMap(rel, image, f, p);
  }

  lemma {:induction false} PathMap<T(!new), U(!new)>(rel: (T, T) -> bool, image: (U, U) -> bool, f: T -> U, p: seq<T>)
    requires forall x, y :: rel(x, y) ==> Reach(image, f(x), f(y))
    requires Path(rel, p)
    ensures Reach(image, f(p[0]), f(p[|p| - 1]))
  {
    if |p| == 1 {
      ReachRefl(image, f(p[0]));
    } else {
      var q := p[..|p| - 1];
      assert forall k :: 0 <= k < |q| - 1 ==> rel(q[k], q[k + 1]) by {
        forall k | 0 <= k < |q| - 1 ensures rel(q[k], q[k + 1]) {
          assert rel(p[k], p[k + 1]);
        }
      }
      PathMap(rel, image, f, q);
      assert rel(p[|p| - 2], p[|p| - 1]);
      ReachTrans(image, f(p[0]), f(p[|p| - 2]), f(p[|p| - 1]));
    }
  }
}
