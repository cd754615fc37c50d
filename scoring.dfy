/**
 * The scoring loop shared by `solve_bubble`, `solve_entry_tips` and
 * `solve_out_tips`: each path found is appended to the path list, with its
 * node count to the length list and its average weight to the weight list.
 */
module Scoring {
  import opened Digraphs
  import opened PathMetrics
  import opened Selection

  /** Each listed path has two or more nodes joined by edges of g. */
  ghost predicate AllWalks(g: Digraph, ps: seq<Path>)
  {
    forall p :: p in ps ==> |p| >= 2 && IsWalk(g, p)
  }

  /** The rows the scoring loop appends for the paths ps, in order. */
  function Scored(g: Digraph, ps: seq<Path>): seq<Candidate>
    requires AllWalks(g, ps)
    decreases |ps|
  {
    if ps == [] then []
    else
      var p := ps[|ps| - 1];
      assert forall q :: q in ps[..|ps| - 1] ==> q in ps;
      Scored(g, ps[..|ps| - 1]) + [Candidate(p, |p|, MeanWeight(g, p))]
  }

  /** One row per path, and each row holds the path's node count and mean weight. */
  lemma {:induction false} ScoredRows(g: Digraph, ps: seq<Path>)
    requires AllWalks(g, ps)
    ensures |Scored(g, ps)| == |ps|
    ensures forall i :: 0 <= i < |ps| ==>
      (Scored(g, ps)[i].path == ps[i] && Scored(g, ps)[i].length == |ps[i]|
       && Scored(g, ps)[i].weight == MeanWeight(g, ps[i]))
    decreases |ps|
  {
    if ps != [] {
      var init := ps[..|ps| - 1];
      assert forall q :: q in init ==> q in ps;
      ScoredRows(g, init);
      var p := ps[|ps| - 1];
      var r := Scored(g, ps);
      assert r == Scored(g, init) + [Candidate(p, |p|, MeanWeight(g, p))];
      forall i | 0 <= i < |ps|
        ensures r[i].path == ps[i] && r[i].length == |ps[i]| && r[i].weight == MeanWeight(g, ps[i])
      {
        if i < |init| {
          assert r[i] == Scored(g, init)[i] && init[i] == ps[i];
        }
      }
    }
  }

  /** The path column of the rows is the list of paths scored. */
  lemma ScoredPaths(g: Digraph, ps: seq<Path>)
    requires AllWalks(g, ps)
    ensures PathsOf(Scored(g, ps)) == ps
  {
    ScoredRows(g, ps);
  }

  /**
   * Selecting among scored paths keeps one of them, whose mean weight is at
   * least every listed path's, and which is at least as long as every listed
   * path of the same mean weight.
   */
  lemma ScoredWinner(g: Digraph, ps: seq<Path>, choose: seq<Path> -> nat, j: nat)
    requires AllWalks(g, ps) && j < |ps|
    ensures |Kept(Scored(g, ps), choose)| == 1
    ensures var w := Kept(Scored(g, ps), choose)[0];
      && w in ps
      && MeanWeight(g, ps[j]) <= MeanWeight(g, w)
      && (MeanWeight(g, ps[j]) == MeanWeight(g, w) ==> |ps[j]| <= |w|)
  {
    var cs := Scored(g, ps);
    ScoredRows(g, ps);
    var i := WinnerIsBest(cs, choose);
    var w := Kept(cs, choose)[0];
    assert w == ps[i] && ps[i] in ps;
    assert cs[i].weight == MeanWeight(g, w) && cs[i].length == |w|;
    assert cs[j].weight == MeanWeight(g, ps[j]) && cs[j].length == |ps[j]|;
    assert cs[j].weight <= cs[i].weight;
  }

  /** Appending one row to each of the three lists appends one row to their zip. */
  lemma ZipSnoc(paths: seq<Path>, lengths: seq<int>, weights: seq<real>, p: Path, n: int, w: real)
    requires |lengths| == |paths| && |weights| == |paths|
    ensures Zip(paths + [p], lengths + [n], weights + [w]) == Zip(paths, lengths, weights) + [Candidate(p, n, w)]
  {
    var a := Zip(paths + [p], lengths + [n], weights + [w]);
    var b := Zip(paths, lengths, weights) + [Candidate(p, n, w)];
    assert |a| == |b|;
    forall i | 0 <= i < |a| ensures a[i] == b[i] {
      if i < |paths| {
        assert (paths + [p])[i] == paths[i];
        assert (lengths + [n])[i] == lengths[i];
        assert (weights + [w])[i] == weights[i];
      }
    }
  }

  /**
   * The loop `for l in all_simple_paths(...)`: appends each found path, its
   * length and `path_average_weight(tree, l)` to the three lists.
   */
  method AppendScored(g: Graph, found: seq<Path>, paths: seq<Path>, lengths: seq<int>, weights: seq<real>)
    returns (paths': seq<Path>, lengths': seq<int>, weights': seq<real>)
    requires AllWalks(g.Value(), found)
    requires |lengths| == |paths| && |weights| == |paths|
    ensures |lengths'| == |paths'| && |weights'| == |paths'|
    ensures Zip(paths', lengths', weights') == Zip(paths, lengths, weights) + Scored(g.Value(), found)
  {
    paths', lengths', weights' := paths, lengths, weights;
    for i := 0 to |found|
      invariant |lengths'| == |paths'| && |weights'| == |paths'|
      invariant AllWalks(g.Value(), found[..i])
      invariant Zip(paths', lengths', weights') == Zip(paths, lengths, weights) + Scored(g.Value(), found[..i])
    {
      var p := found[i];
      assert p in found;
      var w := PathAverageWeight(g, p);
      ZipSnoc(paths', lengths', weights', p, |p|, w);
      assert found[..i + 1][..i] == found[..i];
      assert forall q :: q in found[..i + 1] ==> q in found;
      paths', lengths', weights' := paths' + [p], lengths' + [|p|], weights' + [w];
    }
    assert found[..|found|] == found;
  }
}
