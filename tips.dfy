/**
 * `solve_entry_tips` and `solve_out_tips`: pruning dead-end branches that
 * hang off the graph's entries or sinks.
 */
module Tips {
  import opened SeqUtil
  import opened Digraphs
  import opened Selection
  import opened Traversal
  import opened Scoring

  /** `len(tree.pred[j])` on the entry side, `len(tree.succ[j])` on the sink side. */
  function Degree(g: Digraph, side: Side, n: Node): nat
  {
    if side == Entry then |Preds(g, n)| else |Succs(g, n)|
  }

  /**
   * The inner loop of the first phase: each listed node of degree two or
   * more that is not collected yet is appended.
   */
  function Collect(g: Digraph, side: Side, acc: seq<Node>, xs: seq<Node>): seq<Node>
    decreases |xs|
  {
    if xs == [] then acc
    else
      var r := Collect(g, side, acc, xs[..|xs| - 1]);
      var x := xs[|xs| - 1];
      if Degree(g, side, x) >= 2 && x !in r then r + [x] else r
  }

  /**
   * The first phase: the junctions beyond the tips, in order of discovery.
   * `descendants` / `ancestors` of a tip that is not a node raises.
   */
  function Junctions(g: Digraph, side: Side, tips: seq<Node>, reach: Neighbourhood): Option<seq<Node>>
    decreases |tips|
  {
    if tips == [] then Some([])
    else
      match Junctions(g, side, tips[..|tips| - 1], reach)
      case None => None
      case Some(acc) =>
        var t := tips[|tips| - 1];
        if t !in g.nodes then None else Some(Collect(g, side, acc, reach(g, t)))
  }

  /** Collecting keeps the list free of repeats and adds exactly the listed nodes of degree two or more. */
  lemma {:induction false} CollectFacts(g: Digraph, side: Side, acc: seq<Node>, xs: seq<Node>)
    requires Distinct(acc)
    ensures Distinct(Collect(g, side, acc, xs))
    ensures forall x :: x in Collect(g, side, acc, xs) <==> x in acc || (x in xs && Degree(g, side, x) >= 2)
    decreases |xs|
  {
    if xs != [] {
      var init := xs[..|xs| - 1];
      CollectFacts(g, side, acc, init);
      assert forall x :: x in xs <==> x in init || x == xs[|xs| - 1];
    }
  }

  /**
   * When every tip is a node, the first phase succeeds and lists, once each,
   * exactly the nodes of degree two or more lying beyond some tip.
   */
  lemma {:induction false} JunctionsFacts(g: Digraph, side: Side, tips: seq<Node>, reach: Neighbourhood)
    requires WellFormed(g) && ListsBeyond(side, reach)
    requires forall t :: t in tips ==> t in g.nodes
    ensures Junctions(g, side, tips, reach).Some?
    ensures Distinct(Junctions(g, side, tips, reach).value)
    ensures forall x :: x in Junctions(g, side, tips, reach).value <==>
      Degree(g, side, x) >= 2 && exists t :: t in tips && x != t && Beyond(side, g, t, x)
    decreases |tips|
  {
    if tips != [] {
      var init := tips[..|tips| - 1];
      var t := tips[|tips| - 1];
      assert forall u :: u in tips <==> u in init || u == t;
      JunctionsFacts(g, side, init, reach);
      var acc := Junctions(g, side, init, reach).value;
      CollectFacts(g, side, acc, reach(g, t));
      forall x ensures x in reach(g, t) <==> x != t && Beyond(side, g, t, x) {}
    }
  }

  /** Once a tip is missing, the later tips are never reached. */
  lemma {:induction false} JunctionsStop(g: Digraph, side: Side, tips: seq<Node>, i: nat, reach: Neighbourhood)
    requires i <= |tips| && Junctions(g, side, tips[..i], reach) == None
    ensures Junctions(g, side, tips, reach) == None
    decreases |tips| - i
  {
    if i < |tips| {
      assert tips[..i + 1][..i] == tips[..i];
      JunctionsStop(g, side, tips, i + 1, reach);
    } else {
      assert tips[..i] == tips;
    }
  }

  /** The first phase on the graph object; it reads the graph and changes nothing. */
  method FindJunctions(g: Graph, side: Side, tips: seq<Node>, reach: Neighbourhood) returns (ok: bool, js: seq<Node>)
    ensures Junctions(g.Value(), side, tips, reach) == if ok then Some(js) else None
  {
    js := [];
    for i := 0 to |tips|
      invariant Junctions(g.Value(), side, tips[..i], reach) == Some(js)
    {
      assert tips[..i + 1][..i] == tips[..i];
      if tips[i] !in g.nodes {
        JunctionsStop(g.Value(), side, tips, i + 1, reach);
        return false, js;
      }
      var xs := reach(g.Value(), tips[i]);
      ghost var acc := js;
      for k := 0 to |xs|
        invariant js == Collect(g.Value(), side, acc, xs[..k])
      {
        assert xs[..k + 1][..k] == xs[..k];
        var x := xs[k];
        if Degree(g.Value(), side, x) >= 2 && x !in js {
          js := js + [x];
        }
      }
      assert xs[..|xs|] == xs;
    }
    assert tips[..|tips|] == tips;
    ok := true;
  }

  /** The node `all_simple_paths` starts from: the tip for entries, the junction for sinks. */
  function SourceOf(side: Side, tip: Node, j: Node): Node
  {
    if side == Entry then tip else j
  }

  /** `all_simple_paths(tree, i, j)` for entries, `all_simple_paths(tree, j, i)` for sinks. */
  function Between(g: Digraph, side: Side, tip: Node, j: Node, find: PathFinder): (r: seq<Path>)
    requires PathsSound(find)
    ensures AllWalks(g, r)
  {
    var r := if side == Entry then find(g, tip, j) else find(g, j, tip);
    assert forall p :: p in r ==> |p| >= 2 && IsWalk(g, p);
    r
  }

  /**
   * The middle loop of the second phase, for one tip: the paths to or from
   * each junction are scored and appended to the running list `cands`; a
   * missing source makes `all_simple_paths` raise.
   */
  function Gather(g: Digraph, side: Side, tip: Node, js: seq<Node>, cands: seq<Candidate>, find: PathFinder): Option<seq<Candidate>>
    requires PathsSound(find)
    decreases |js|
  {
    if js == [] then Some(cands)
    else
      match Gather(g, side, tip, js[..|js| - 1], cands, find)
      case None => None
      case Some(cs) =>
        var j := js[|js| - 1];
        if SourceOf(side, tip, j) !in g.nodes then None
        else Some(cs + Scored(g, Between(g, side, tip, j, find)))
  }

  lemma {:induction false} GatherStops(g: Digraph, side: Side, tip: Node, js: seq<Node>, i: nat, cands: seq<Candidate>, find: PathFinder)
    requires PathsSound(find)
    requires i <= |js| && Gather(g, side, tip, js[..i], cands, find) == None
    ensures Gather(g, side, tip, js, cands, find) == None
    decreases |js| - i
  {
    if i < |js| {
      assert js[..i + 1][..i] == js[..i];
      GatherStops(g, side, tip, js, i + 1, cands, find);
    } else {
      assert js[..i] == js;
    }
  }

  /**
   * The outer loop of the second phase: for each tip in turn the running
   * list grows and `select_best_path` runs on the whole list so far, on the
   * graph as the earlier rounds left it. The entry is deleted with each
   * losing path for entries, the sink for sinks.
   */
  function Rounds(g: Digraph, side: Side, tips: seq<Node>, js: seq<Node>, find: PathFinder, choose: seq<Path> -> nat): (Outcome, seq<Candidate>)
    requires PathsSound(find)
    decreases |tips|
  {
    if tips == [] then (Outcome(g, true), [])
    else
      var (o, cands) := Rounds(g, side, tips[..|tips| - 1], js, find, choose);
      if !o.ok then (o, cands)
      else
        match Gather(o.g, side, tips[|tips| - 1], js, cands, find)
        case None => (Outcome(o.g, false), cands)
        case Some(cs) => (Select(o.g, cs, side == Entry, side == Out, choose), cs)
  }

  lemma {:induction false} RoundsStop(g: Digraph, side: Side, tips: seq<Node>, i: nat, js: seq<Node>, find: PathFinder, choose: seq<Path> -> nat)
    requires PathsSound(find)
    requires i <= |tips| && !Rounds(g, side, tips[..i], js, find, choose).0.ok
    ensures Rounds(g, side, tips, js, find, choose).0 == Rounds(g, side, tips[..i], js, find, choose).0
    decreases |tips| - i
  {
    if i < |tips| {
      assert tips[..i + 1][..i] == tips[..i];
      RoundsStop(g, side, tips, i + 1, js, find, choose);
    } else {
      assert tips[..i] == tips;
    }
  }

  /** `solve_entry_tips` (side Entry) or `solve_out_tips` (side Out). */
  function SolveTipsSpec(g: Digraph, side: Side, tips: seq<Node>, reach: Neighbourhood, find: PathFinder, choose: seq<Path> -> nat): Outcome
    requires PathsSound(find)
  {
    match Junctions(g, side, tips, reach)
    case None => Outcome(g, false)
    case Some(js) => Rounds(g, side, tips, js, find, choose).0
  }

  /** The running list only grows: every round appends to what earlier rounds gathered. */
  lemma {:induction false} RoundsAccumulate(g: Digraph, side: Side, tips: seq<Node>, js: seq<Node>, find: PathFinder, choose: seq<Path> -> nat)
    requires PathsSound(find) && tips != []
    ensures var (o, cands) := Rounds(g, side, tips, js, find, choose);
      var (o', cands') := Rounds(g, side, tips[..|tips| - 1], js, find, choose);
      o.ok ==> o'.ok && cands'<= cands
  {
    var init := tips[..|tips| - 1];
    var (o', cands') := Rounds(g, side, init, js, find, choose);
    if o'.ok {
      GatherGrows(o'.g, side, tips[|tips| - 1], js, cands', find);
    }
  }

  /** Gathering only appends to the running list. */
  lemma {:induction false} GatherGrows(g: Digraph, side: Side, tip: Node, js: seq<Node>, cands: seq<Candidate>, find: PathFinder)
    requires PathsSound(find)
    ensures Gather(g, side, tip, js, cands, find).Some? ==> cands <= Gather(g, side, tip, js, cands, find).value
    decreases |js|
  {
    if js != [] {
      GatherGrows(g, side, tip, js[..|js| - 1], cands, find);
    }
  }

  /** The rounds prune the graph, whether or not one raises. */
  lemma {:induction false} RoundsPrune(g: Digraph, side: Side, tips: seq<Node>, js: seq<Node>, find: PathFinder, choose: seq<Path> -> nat)
    requires WellFormed(g) && PathsSound(find)
    ensures WellFormed(Rounds(g, side, tips, js, find, choose).0.g)
    ensures Pruned(g, Rounds(g, side, tips, js, find, choose).0.g)
    decreases |tips|
  {
    if tips == [] {
      WithoutNothing(g);
      WithoutPruned(g, {});
    } else {
      var init := tips[..|tips| - 1];
      RoundsPrune(g, side, init, js, find, choose);
      var (o, cands) := Rounds(g, side, init, js, find, choose);
      if o.ok {
        match Gather(o.g, side, tips[|tips| - 1], js, cands, find)
        case None =>
        case Some(cs) =>
          RemoveAllFrame(o.g, Rejected(cs, choose), side == Entry, side == Out);
          PrunedTransitive(g, o.g, Select(o.g, cs, side == Entry, side == Out, choose).g);
      }
    }
  }

  /** Tip removal prunes the graph: it deletes nodes with their edges and nothing else. */
  lemma TipsPrune(g: Digraph, side: Side, tips: seq<Node>, reach: Neighbourhood, find: PathFinder, choose: seq<Path> -> nat)
    requires WellFormed(g) && PathsSound(find)
    ensures WellFormed(SolveTipsSpec(g, side, tips, reach, find, choose).g)
    ensures Pruned(g, SolveTipsSpec(g, side, tips, reach, find, choose).g)
  {
    match Junctions(g, side, tips, reach)
    case None =>
      WithoutNothing(g);
      WithoutPruned(g, {});
    case Some(js) =>
      RoundsPrune(g, side, tips, js, find, choose);
  }

  /** A round that goes through selects, on the graph the earlier rounds left, among a longer running list. */
  lemma NextRound(g: Digraph, side: Side, tips: seq<Node>, j: nat, js: seq<Node>, find: PathFinder, choose: seq<Path> -> nat)
    requires PathsSound(find) && j < |tips|
    ensures var (o, cands) := Rounds(g, side, tips[..j], js, find, choose);
      var (o', cands') := Rounds(g, side, tips[..j + 1], js, find, choose);
      o'.ok ==> o.ok && cands <= cands' && o' == Select(o.g, cands', side == Entry, side == Out, choose)
  {
    var (o, cands) := Rounds(g, side, tips[..j], js, find, choose);
    assert tips[..j + 1][..j] == tips[..j];
    if o.ok {
      GatherGrows(o.g, side, tips[j], js, cands, find);
    }
  }

  /**
   * The running list is never reset between rounds: a path rejected in one
   * round, its tip deleted, is listed again in the next round, which then
   * raises unless that same path wins it.
   */
  lemma RejectedTipRaisesNextRound(g: Digraph, side: Side, tips: seq<Node>, i: nat, js: seq<Node>, p: Path,
                                   find: PathFinder, choose: seq<Path> -> nat)
    requires WellFormed(g) && PathsSound(find) && i + 1 < |tips|
    requires Rounds(g, side, tips[..i + 1], js, find, choose).0.ok
    requires p in Rejected(Rounds(g, side, tips[..i + 1], js, find, choose).1, choose)
    ensures var (o, cands) := Rounds(g, side, tips[..i + 2], js, find, choose);
      !o.ok || p in Kept(cands, choose)
  {
    var prev := Rounds(g, side, tips[..i], js, find, choose).0;
    var (o, cands) := Rounds(g, side, tips[..i + 1], js, find, choose);
    var (o', cs') := Rounds(g, side, tips[..i + 2], js, find, choose);
    NextRound(g, side, tips, i, js, find, choose);
    NextRound(g, side, tips, i + 1, js, find, choose);
    RoundsPrune(g, side, tips[..i], js, find, choose);
    if o'.ok && p !in Kept(cs', choose) {
      StillRejected(cands, cs', p, choose);
      RejectedAgainRaises(prev.g, cands, cs', p, side == Entry, side == Out, choose);
    }
  }

  /**
   * The middle loop of the second phase on the graph object, for one tip;
   * it reads the graph and changes nothing.
   */
  method GatherPaths(g: Graph, side: Side, tip: Node, js: seq<Node>, find: PathFinder,
                     paths: seq<Path>, lengths: seq<int>, weights: seq<real>)
    returns (ok: bool, paths': seq<Path>, lengths': seq<int>, weights': seq<real>)
    requires PathsSound(find) && |lengths| == |paths| && |weights| == |paths|
    ensures |lengths'| == |paths'| && |weights'| == |paths'|
    ensures Gather(g.Value(), side, tip, js, Zip(paths, lengths, weights), find)
      == if ok then Some(Zip(paths', lengths', weights')) else None
  {
    paths', lengths', weights' := paths, lengths, weights;
    for k := 0 to |js|
      invariant |lengths'| == |paths'| && |weights'| == |paths'|
      invariant Gather(g.Value(), side, tip, js[..k], Zip(paths, lengths, weights), find)
        == Some(Zip(paths', lengths', weights'))
    {
      assert js[..k + 1][..k] == js[..k];
      if SourceOf(side, tip, js[k]) !in g.nodes {
        GatherStops(g.Value(), side, tip, js, k + 1, Zip(paths, lengths, weights), find);
        return false, paths', lengths', weights';
      }
      var found := Between(g.Value(), side, tip, js[k], find);
      paths', lengths', weights' := AppendScored(g, found, paths', lengths', weights');
    }
    assert js[..|js|] == js;
    ok := true;
  }

  lemma RoundsSnoc(g: Digraph, side: Side, tips: seq<Node>, i: nat, js: seq<Node>, find: PathFinder, choose: seq<Path> -> nat)
    requires PathsSound(find) && i < |tips| && Rounds(g, side, tips[..i], js, find, choose).0.ok
    ensures var (o, cands) := Rounds(g, side, tips[..i], js, find, choose);
      Rounds(g, side, tips[..i + 1], js, find, choose) ==
        match Gather(o.g, side, tips[i], js, cands, find)
        case None => (Outcome(o.g, false), cands)
        case Some(cs) => (Select(o.g, cs, side == Entry, side == Out, choose), cs)
  {
    assert tips[..i + 1][..i] == tips[..i];
  }

  /** The second phase on the graph object. */
  method RunRounds(g: Graph, side: Side, tips: seq<Node>, js: seq<Node>, find: PathFinder, choose: seq<Path> -> nat) returns (ok: bool)
    requires g.Valid() && PathsSound(find)
    modifies g
    ensures g.Valid()
    ensures Outcome(g.Value(), ok) == Rounds(old(g.Value()), side, tips, js, find, choose).0
  {
    ghost var g0 := g.Value();
    var paths: seq<Path>, lengths: seq<int>, weights: seq<real> := [], [], [];
    ok := true;
    assert Zip(paths, lengths, weights) == [] && tips[..0] == [];
    for i := 0 to |tips|
      invariant g.Valid()
      invariant |lengths| == |paths| && |weights| == |paths|
      invariant Rounds(g0, side, tips[..i], js, find, choose) == (Outcome(g.Value(), true), Zip(paths, lengths, weights))
    {
      RoundsSnoc(g0, side, tips, i, js, find, choose);
      ok, paths, lengths, weights := GatherPaths(g, side, tips[i], js, find, paths, lengths, weights);
      if !ok {
        RoundsStop(g0, side, tips, i + 1, js, find, choose);
        return;
      }
      ok := SelectBestPath(g, paths, lengths, weights, side == Entry, side == Out, choose);
      if !ok {
        RoundsStop(g0, side, tips, i + 1, js, find, choose);
        return;
      }
    }
    assert tips[..|tips|] == tips;
  }

  /** Both phases on the graph object. */
  method SolveTips(g: Graph, side: Side, tips: seq<Node>, reach: Neighbourhood, find: PathFinder, choose: seq<Path> -> nat) returns (ok: bool)
    requires g.Valid() && PathsSound(find)
    modifies g
    ensures g.Valid()
    ensures Outcome(g.Value(), ok) == SolveTipsSpec(old(g.Value()), side, tips, reach, find, choose)
  {
    var js;
    ok, js := FindJunctions(g, side, tips, reach);
    if ok {
      ok := RunRounds(g, side, tips, js, find, choose);
    }
  }

  /** `solve_entry_tips(tree, entry)` with `descendants` for reach. */
  method SolveEntryTips(g: Graph, entries: seq<Node>, descendants: Neighbourhood, find: PathFinder, choose: seq<Path> -> nat) returns (ok: bool)
    requires g.Valid() && PathsSound(find)
    modifies g
    ensures g.Valid()
    ensures Outcome(g.Value(), ok) == SolveTipsSpec(old(g.Value()), Entry, entries, descendants, find, choose)
  {
    ok := SolveTips(g, Entry, entries, descendants, find, choose);
  }

  /** `solve_out_tips(tree, entry)` (its list holds sinks) with `ancestors` for reach. */
  method SolveOutTips(g: Graph, sinks: seq<Node>, ancestors: Neighbourhood, find: PathFinder, choose: seq<Path> -> nat) returns (ok: bool)
    requires g.Valid() && PathsSound(find)
    modifies g
    ensures g.Valid()
    ensures Outcome(g.Value(), ok) == SolveTipsSpec(old(g.Value()), Out, sinks, ancestors, find, choose)
  {
    ok := SolveTips(g, Out, sinks, ancestors, find, choose);
  }
}
