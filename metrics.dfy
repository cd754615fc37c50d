/** `path_average_weight`: the mean edge weight of a path. */
module PathMetrics {
  import opened Digraphs

  /** A prefix of a walk is a walk. */
  lemma WalkPrefix(g: Digraph, p: Path, n: nat)
    requires IsWalk(g, p) && n <= |p|
    ensures IsWalk(g, p[..n])
  {
    forall i | 0 <= i < n - 1 ensures (p[..n][i], p[..n][i + 1]) in g.weight {
      assert p[..n][i] == p[i] && p[..n][i + 1] == p[i + 1];
    }
  }

  /** The sum of the weights of the edges between consecutive nodes of p. */
  function PathWeight(g: Digraph, p: Path): int
    requires IsWalk(g, p)
    decreases |p|
  {
    if |p| < 2 then 0
    else
      WalkPrefix(g, p, |p| - 1);
      PathWeight(g, p[..|p| - 1]) + g.weight[(p[|p| - 2], p[|p| - 1])]
  }

  /** The mean weight of the |p| - 1 edges of a path of two or more nodes. */
  function MeanWeight(g: Digraph, p: Path): real
    requires |p| >= 2 && IsWalk(g, p)
  {
    PathWeight(g, p) as real / (|p| - 1) as real
  }

  /**
   * `path_average_weight(tree, path)`: adds up the weights of the edges
   * path[i] -> path[i+1] and divides by the number of edges. A path of one
   * node would divide by zero and a missing edge would raise, so both are
   * excluded by the precondition.
   */
  method PathAverageWeight(g: Graph, path: Path) returns (avg: real)
    requires |path| >= 2 && IsWalk(g.Value(), path)
    ensures avg == MeanWeight(g.Value(), path)
  {
    var weight := 0;
    for i := 0 to |path| - 1
      invariant IsWalk(g.Value(), path[..i + 1])
      invariant weight == PathWeight(g.Value(), path[..i + 1])
    {
      WalkPrefix(g.Value(), path, i + 2);
      assert path[..i + 2][..i + 1] == path[..i + 1];
      weight := weight + g.weight[(path[i], path[i + 1])];
    }
    assert path[..|path|] == path;
    avg := weight as real / (|path| - 1) as real;
  }

  /** Every edge of p weighs between lo and hi. */
  ghost predicate EdgeWeightsWithin(g: Digraph, p: Path, lo: int, hi: int)
    requires IsWalk(g, p)
  {
    forall i :: 0 <= i < |p| - 1 ==> lo <= g.weight[(p[i], p[i + 1])] <= hi
  }

  lemma {:induction false} PathWeightWithin(g: Digraph, p: Path, lo: int, hi: int)
    requires IsWalk(g, p) && EdgeWeightsWithin(g, p, lo, hi) && |p| >= 1
    ensures lo * (|p| - 1) <= PathWeight(g, p) <= hi * (|p| - 1)
    decreases |p|
  {
    if |p| >= 2 {
      var q := p[..|p| - 1];
      WalkPrefix(g, p, |p| - 1);
      assert EdgeWeightsWithin(g, q, lo, hi) by {
        forall i | 0 <= i < |q| - 1 ensures lo <= g.weight[(q[i], q[i + 1])] <= hi {
          assert q[i] == p[i] && q[i + 1] == p[i + 1];
        }
      }
      PathWeightWithin(g, q, lo, hi);
      var n := |q| - 1;
      var e := g.weight[(p[|p| - 2], p[|p| - 1])];
      assert lo <= e <= hi;
      assert PathWeight(g, p) == PathWeight(g, q) + e;
      assert lo * (n + 1) == lo * n + lo && hi * (n + 1) == hi * n + hi;
    }
  }

  /** The mean weight lies between the lightest and the heaviest edge weight. */
  lemma MeanWeightWithin(g: Digraph, p: Path, lo: int, hi: int)
    requires |p| >= 2 && IsWalk(g, p) && EdgeWeightsWithin(g, p, lo, hi)
    ensures lo as real <= MeanWeight(g, p) <= hi as real
  {
    PathWeightWithin(g, p, lo, hi);
    var n := (|p| - 1) as real;
    var s := PathWeight(g, p) as real;
    assert lo as real * n <= s <= hi as real * n;
    assert s / n * n == s;
  }
}
