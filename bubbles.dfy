/** `solve_bubble` and `simplify_bubbles`: collapsing bubbles to their best path. */
module Bubbles {
  import opened SeqUtil
  import opened Digraphs
  import opened Selection
  import opened Traversal
  import opened Scoring
  import opened PathMetrics

  /**
   * `solve_bubble(tree, a, d)`: every simple path from a to d is scored and
   * `select_best_path` keeps one, deleting only interiors. A missing a makes
   * `all_simple_paths` raise before anything changes.
   */
  function BubbleStep(g: Digraph, a: Node, d: Node, find: PathFinder, choose: seq<Path> -> nat): Outcome
    requires PathsSound(find)
  {
    if a !in g.nodes then Outcome(g, false)
    else Select(g, BubblePaths(g, a, d, find), false, false, choose)
  }

  /** The scored rows of every path `all_simple_paths(tree, a, d)` lists. */
  function BubblePaths(g: Digraph, a: Node, d: Node, find: PathFinder): seq<Candidate>
    requires PathsSound(find)
  {
    var found := find(g, a, d);
    assert AllWalks(g, found) by {
      forall p | p in found ensures |p| >= 2 && IsWalk(g, p) {}
    }
    Scored(g, found)
  }

  /**
   * Solving a bubble from a node of the graph never raises, and deletes
   * exactly the interior nodes of the paths it rejects.
   */
  lemma BubbleStepDeletesInteriors(g: Digraph, a: Node, d: Node, find: PathFinder, choose: seq<Path> -> nat)
    requires WellFormed(g) && PathsSound(find) && a in g.nodes
    ensures var cs := BubblePaths(g, a, d, find);
      && BubbleStep(g, a, d, find, choose).ok
      && BubbleStep(g, a, d, find, choose).g == Without(g, Doomed(Rejected(cs, choose), false, false))
  {
    RemoveAllFrame(g, Rejected(BubblePaths(g, a, d, find), choose), false, false);
  }

  /** A bubble step prunes the graph, whether or not it raises. */
  lemma BubbleStepPrunes(g: Digraph, a: Node, d: Node, find: PathFinder, choose: seq<Path> -> nat)
    requires WellFormed(g) && PathsSound(find)
    ensures WellFormed(BubbleStep(g, a, d, find, choose).g)
    ensures Pruned(g, BubbleStep(g, a, d, find, choose).g)
  {
    if a in g.nodes {
      RemoveAllFrame(g, Rejected(BubblePaths(g, a, d, find), choose), false, false);
    } else {
      WithoutNothing(g);
      WithoutPruned(g, {});
    }
  }

  /** Interiors of simple paths from a to d hold neither a nor d. */
  lemma EndsNotDoomed(R: seq<Path>, a: Node, d: Node)
    requires forall p :: p in R ==> |p| >= 2 && p[0] == a && p[|p| - 1] == d && Distinct(p)
    ensures a !in Doomed(R, false, false) && d !in Doomed(R, false, false)
  {
    forall x | x in {a, d} ensures x !in Doomed(R, false, false) {
      if x in Doomed(R, false, false) {
        DoomedInteriors(R, x);
      }
    }
  }

  /** A path found from a to a node d is a simple path from a to d. */
  lemma FoundIsSimple(g: Digraph, a: Node, d: Node, find: PathFinder, p: Path)
    requires PathsSound(find) && d in g.nodes && p in find(g, a, d)
    ensures |p| >= 2 && p[0] == a && p[|p| - 1] == d && Distinct(p)
  {
  }

  /** The paths a bubble step rejects are among the paths found from a to d. */
  lemma RejectedFound(g: Digraph, a: Node, d: Node, find: PathFinder, choose: seq<Path> -> nat)
    requires PathsSound(find)
    ensures forall p :: p in Rejected(BubblePaths(g, a, d, find), choose) ==> p in find(g, a, d)
  {
    var found := find(g, a, d);
    assert AllWalks(g, found) by {
      forall p | p in found ensures |p| >= 2 && IsWalk(g, p) {}
    }
    var cs := BubblePaths(g, a, d, find);
    ScoredPaths(g, found);
    RejectedListed(cs, choose);
  }

  /**
   * The two ends of a bubble survive it with every edge between them: in
   * particular a direct edge a -> d stays even when the path [a, d] loses,
   * since only interiors are deleted.
   */
  lemma BubbleEndsSurvive(g: Digraph, a: Node, d: Node, find: PathFinder, choose: seq<Path> -> nat)
    requires WellFormed(g) && PathsSound(find) && a in g.nodes && d in g.nodes
    ensures var o := BubbleStep(g, a, d, find, choose);
      && o.ok && a in o.g.nodes && d in o.g.nodes
      && (forall e :: e in g.weight && e.0 in {a, d} && e.1 in {a, d} ==> e in o.g.weight)
  {
    var R := Rejected(BubblePaths(g, a, d, find), choose);
    RejectedFound(g, a, d, find, choose);
    forall p | p in R ensures |p| >= 2 && p[0] == a && p[|p| - 1] == d && Distinct(p) {
      FoundIsSimple(g, a, d, find, p);
    }
    EndsNotDoomed(R, a, d);
    BubbleStepDeletesInteriors(g, a, d, find, choose);
  }

  /**
   * When `all_simple_paths` lists every simple path, the path a bubble keeps
   * is one of them and its mean weight is at least that of every simple path
   * from a to d; among those as heavy, none is longer.
   */
  lemma BubbleKeepsHeaviest(g: Digraph, a: Node, d: Node, find: PathFinder, choose: seq<Path> -> nat, p: Path)
    requires WellFormed(g) && PathsSound(find) && PathsComplete(find)
    requires a in g.nodes && d in g.nodes && IsSimplePath(g, p, a, d)
    ensures |Kept(BubblePaths(g, a, d, find), choose)| == 1
    ensures var w := Kept(BubblePaths(g, a, d, find), choose)[0];
      && IsSimplePath(g, w, a, d)
      && MeanWeight(g, p) <= MeanWeight(g, w)
      && (MeanWeight(g, p) == MeanWeight(g, w) ==> |p| <= |w|)
  {
    var found := find(g, a, d);
    assert AllWalks(g, found) by {
      forall q | q in found ensures |q| >= 2 && IsWalk(g, q) {}
    }
    assert p in found;
    var j :| 0 <= j < |found| && found[j] == p;
    ScoredWinner(g, found, choose, j);
    FoundIsSimple(g, a, d, find, Kept(BubblePaths(g, a, d, find), choose)[0]);
  }

  /** `solve_bubble` on the graph object. */
  method SolveBubble(g: Graph, a: Node, d: Node, find: PathFinder, choose: seq<Path> -> nat) returns (ok: bool)
    requires g.Valid() && PathsSound(find)
    modifies g
    ensures g.Valid()
    ensures Outcome(g.Value(), ok) == BubbleStep(old(g.Value()), a, d, find, choose)
  {
    if a !in g.nodes {
      return false;
    }
    var found := find(g.Value(), a, d);
    assert AllWalks(g.Value(), found) by {
      forall p | p in found ensures |p| >= 2 && IsWalk(g.Value(), p) {}
    }
    var liste, lengths, weights := AppendScored(g, found, [], [], []);
    assert Zip(liste, lengths, weights) == BubblePaths(g.Value(), a, d, find) by {
      assert Zip([], [], []) == [];
    }
    ok := SelectBestPath(g, liste, lengths, weights, false, false, choose);
  }

  /**
   * The (ancestor, node) pairs collected by the scan of `simplify_bubbles`
   * over the nodes ns: one per node with more than one predecessor, the
   * ancestor being the common ancestor of its first two predecessors.
   */
  function Spans(g: Digraph, ns: seq<Node>, lca: CommonAncestor): seq<(Option<Node>, Node)>
    decreases |ns|
  {
    if ns == [] then []
    else
      var rest := Spans(g, ns[..|ns| - 1], lca);
      var n := ns[|ns| - 1];
      var preds := Preds(g, n);
      if |preds| > 1 then rest + [(lca(g, preds[0], preds[1]), n)] else rest
  }

  /**
   * A span fits the nodes ns when it ends at one of them that has two or
   * more predecessors and starts, when an ancestor was found, at a node
   * that reaches it.
   */
  ghost predicate SpanFits(g: Digraph, ns: seq<Node>, sp: (Option<Node>, Node))
  {
    sp.1 in ns && |Preds(g, sp.1)| > 1 && (sp.0.Some? ==> Reaches(g, sp.0.value, sp.1))
  }

  /** The common ancestor of two predecessors of n reaches n. */
  lemma AncestorReaches(g: Digraph, n: Node, lca: CommonAncestor)
    requires WellFormed(g) && CommonAncestorSound(lca) && |Preds(g, n)| > 1
    ensures var a := lca(g, Preds(g, n)[0], Preds(g, n)[1]); a.Some? ==> Reaches(g, a.value, n)
  {
    var preds := Preds(g, n);
    var a := lca(g, preds[0], preds[1]);
    if a.Some? {
      assert preds[0] in preds;
      assert (preds[0], n) in g.weight;
      ReachesThenEdge(g, a.value, preds[0], n);
    }
  }

  /** Every span fits the scanned nodes. */
  lemma {:induction false} SpansSound(g: Digraph, ns: seq<Node>, lca: CommonAncestor)
    requires WellFormed(g) && CommonAncestorSound(lca)
    ensures forall sp :: sp in Spans(g, ns, lca) ==> SpanFits(g, ns, sp)
    decreases |ns|
  {
    if ns != [] {
      var init := ns[..|ns| - 1];
      var n := ns[|ns| - 1];
      SpansSound(g, init, lca);
      forall sp | SpanFits(g, init, sp) ensures SpanFits(g, ns, sp) {
        assert sp.1 in init;
      }
      var preds := Preds(g, n);
      if |preds| > 1 {
        AncestorReaches(g, n, lca);
        var sp := (lca(g, preds[0], preds[1]), n);
        assert SpanFits(g, ns, sp);
        assert Spans(g, ns, lca) == Spans(g, init, lca) + [sp];
      }
    }
  }

  /** Every listed node with two or more predecessors has a span. */
  lemma {:induction false} SpansComplete(g: Digraph, ns: seq<Node>, lca: CommonAncestor)
    ensures forall n :: n in ns && |Preds(g, n)| > 1 ==> exists sp :: sp in Spans(g, ns, lca) && sp.1 == n
    decreases |ns|
  {
    if ns != [] {
      var init := ns[..|ns| - 1];
      var n := ns[|ns| - 1];
      SpansComplete(g, init, lca);
      assert forall m :: m in ns ==> m in init || m == n;
      var preds := Preds(g, n);
      if |preds| > 1 {
        var sp := (lca(g, preds[0], preds[1]), n);
        assert Spans(g, ns, lca) == Spans(g, init, lca) + [sp];
        assert sp in Spans(g, ns, lca);
      }
    }
  }

  /**
   * The loop over the collected spans: each is solved in turn on the graph
   * as the earlier ones left it; a missing ancestor (`None`) makes
   * `all_simple_paths` raise.
   */
  function SolveSpans(g: Digraph, spans: seq<(Option<Node>, Node)>, find: PathFinder, choose: seq<Path> -> nat): Outcome
    requires PathsSound(find)
    decreases |spans|
  {
    if spans == [] then Outcome(g, true)
    else
      var o := SolveSpans(g, spans[..|spans| - 1], find, choose);
      var sp := spans[|spans| - 1];
      if !o.ok then o
      else if sp.0 == None then Outcome(o.g, false)
      else BubbleStep(o.g, sp.0.value, sp.1, find, choose)
  }

  /** Solving the spans prunes the graph, whether or not a step raises. */
  lemma {:induction false} SolveSpansPrunes(g: Digraph, spans: seq<(Option<Node>, Node)>, find: PathFinder, choose: seq<Path> -> nat)
    requires WellFormed(g) && PathsSound(find)
    ensures WellFormed(SolveSpans(g, spans, find, choose).g)
    ensures Pruned(g, SolveSpans(g, spans, find, choose).g)
    decreases |spans|
  {
    if spans == [] {
      WithoutNothing(g);
      WithoutPruned(g, {});
    } else {
      var init := spans[..|spans| - 1];
      var sp := spans[|spans| - 1];
      SolveSpansPrunes(g, init, find, choose);
      var o := SolveSpans(g, init, find, choose);
      if o.ok && sp.0 != None {
        BubbleStepPrunes(o.g, sp.0.value, sp.1, find, choose);
        PrunedTransitive(g, o.g, BubbleStep(o.g, sp.0.value, sp.1, find, choose).g);
      }
    }
  }

  /** Once a step has raised, the later spans are never reached. */
  lemma {:induction false} SolveSpansStops(g: Digraph, spans: seq<(Option<Node>, Node)>, i: nat, find: PathFinder, choose: seq<Path> -> nat)
    requires PathsSound(find)
    requires i <= |spans| && !SolveSpans(g, spans[..i], find, choose).ok
    ensures SolveSpans(g, spans, find, choose) == SolveSpans(g, spans[..i], find, choose)
    decreases |spans| - i
  {
    if i < |spans| {
      assert spans[..i + 1][..i] == spans[..i];
      SolveSpansStops(g, spans, i + 1, find, choose);
    } else {
      assert spans[..i] == spans;
    }
  }

  /** The scan of `simplify_bubbles`, which reads the graph and changes nothing. */
  method CollectSpans(g: Graph, lca: CommonAncestor) returns (spans: seq<(Option<Node>, Node)>)
    ensures spans == Spans(g.Value(), g.nodes, lca)
  {
    spans := [];
    for i := 0 to |g.nodes|
      invariant spans == Spans(g.Value(), g.nodes[..i], lca)
    {
      assert g.nodes[..i + 1][..i] == g.nodes[..i];
      var predList := Preds(g.Value(), g.nodes[i]);
      if |predList| > 1 {
        var a := lca(g.Value(), predList[0], predList[1]);
        spans := spans + [(a, g.nodes[i])];
      }
    }
    assert g.nodes[..|g.nodes|] == g.nodes;
  }

  /**
   * `simplify_bubbles`: every span is collected from the graph as it stands
   * before any bubble is solved; then the spans are solved in order. The
   * common-ancestor search is defined on acyclic graphs only.
   */
  method SimplifyBubbles(g: Graph, lca: CommonAncestor, find: PathFinder, choose: seq<Path> -> nat) returns (ok: bool)
    requires g.Valid() && Acyclic(g.Value()) && PathsSound(find)
    modifies g
    ensures g.Valid()
    ensures Outcome(g.Value(), ok) == SolveSpans(old(g.Value()), Spans(old(g.Value()), old(g.nodes), lca), find, choose)
  {
    var spans := CollectSpans(g, lca);
    ghost var g0 := g.Value();
    ok := true;
    for i := 0 to |spans|
      invariant g.Valid()
      invariant SolveSpans(g0, spans[..i], find, choose) == Outcome(g.Value(), true)
    {
      assert spans[..i + 1][..i] == spans[..i];
      var sp := spans[i];
      if sp.0 == None {
        ok := false;
      } else {
        ok := SolveBubble(g, sp.0.value, sp.1, find, choose);
      }
      if !ok {
        SolveSpansStops(g0, spans, i + 1, find, choose);
        return;
      }
    }
    assert spans[..|spans|] == spans;
  }
}
