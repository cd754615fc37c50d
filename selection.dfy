/**
 * `remove_paths` and `select_best_path`: deleting the nodes of losing paths,
 * and choosing the one path that survives among competing candidates.
 */
module Selection {
  import opened SeqUtil
  import opened Digraphs

  /**
   * The result of a step that mutates the graph: the graph as it stands
   * afterwards, and `ok` false when the step raised part-way (the graph then
   * keeps the deletions made before the raise).
   */
  datatype Outcome = Outcome(g: Digraph, ok: bool)

  /** `path[1:-1]`: every node but the first and the last. */
  function Interior(p: Path): (r: seq<Node>)
    ensures forall n :: n in r <==> exists i :: 0 < i < |p| - 1 && p[i] == n
  {
    if |p| >= 2 then
      var r := p[1..|p| - 1];
      assert forall i :: 0 <= i < |r| ==> r[i] == p[i + 1];
      r
    else []
  }

  /** The nodes listed in a sequence, as a set. */
  function Elems(ns: seq<Node>): set<Node>
  {
    set n | n in ns
  }

  /**
   * One iteration of `remove_paths`: `remove_nodes_from(path[1:-1])`, which
   * skips missing nodes, then `remove_node(path[0])` if the entry is to go and
   * `remove_node(path[-1])` if the sink is to go; either raises on a node that
   * is not (or no longer) in the graph, and indexing an empty path raises too.
   */
  function RemoveOne(g: Digraph, p: Path, de: bool, ds: bool): Outcome
  {
    var g1 := Without(g, Elems(Interior(p)));
    if de && (p == [] || p[0] !in g1.nodes) then Outcome(g1, false)
    else
      var g2 := if de then Without(g1, {p[0]}) else g1;
      if ds && (p == [] || p[|p| - 1] !in g2.nodes) then Outcome(g2, false)
      else Outcome(if ds then Without(g2, {p[|p| - 1]}) else g2, true)
  }

  /** `remove_paths`: the paths are handled in order; a raise ends the loop. */
  function RemoveAll(g: Digraph, ps: seq<Path>, de: bool, ds: bool): Outcome
    decreases |ps|
  {
    if ps == [] then Outcome(g, true)
    else
      var o := RemoveAll(g, ps[..|ps| - 1], de, ds);
      if !o.ok then o else RemoveOne(o.g, ps[|ps| - 1], de, ds)
  }

  /** The nodes `remove_paths` is asked to delete. */
  function Doomed(ps: seq<Path>, de: bool, ds: bool): set<Node>
    decreases |ps|
  {
    if ps == [] then {}
    else
      var p := ps[|ps| - 1];
      Doomed(ps[..|ps| - 1], de, ds) + Elems(Interior(p))
        + (if de && p != [] then {p[0]} else {})
        + (if ds && p != [] then {p[|p| - 1]} else {})
  }

  /** The nodes one path removal is asked to delete. */
  lemma DoomedOne(p: Path, de: bool, ds: bool)
    ensures Doomed([p], de, ds) == Elems(Interior(p))
      + (if de && p != [] then {p[0]} else {}) + (if ds && p != [] then {p[|p| - 1]} else {})
  {
    assert [p][..0] == [] && [p][|[p]| - 1] == p;
    assert Doomed([], de, ds) == {};
  }

  /**
   * Whether or not it raises, one path removal leaves g without some of the
   * nodes it was asked to delete, and without all of them when it goes through.
   */
  lemma RemoveOneIsWithout(g: Digraph, p: Path, de: bool, ds: bool) returns (X: set<Node>)
    ensures X <= Doomed([p], de, ds)
    ensures RemoveOne(g, p, de, ds).g == Without(g, X)
    ensures RemoveOne(g, p, de, ds).ok ==> X == Doomed([p], de, ds)
    ensures !de && !ds ==> RemoveOne(g, p, de, ds).ok
  {
    DoomedOne(p, de, ds);
    var I := Elems(Interior(p));
    var g1 := Without(g, I);
    X := I;
    if de && (p == [] || p[0] !in g1.nodes) {
      return;
    }
    var g2 := if de then Without(g1, {p[0]}) else g1;
    if de {
      WithoutWithout(g, I, {p[0]});
      X := I + {p[0]};
    }
    if ds && (p == [] || p[|p| - 1] !in g2.nodes) {
      return;
    }
    if ds {
      WithoutWithout(g, X, {p[|p| - 1]});
      X := X + {p[|p| - 1]};
    }
  }

  /** Deleting some of the doomed nodes keeps g well formed, prunes it and spares the others. */
  lemma WithoutSome(g: Digraph, X: set<Node>, D: set<Node>)
    requires WellFormed(g) && X <= D
    ensures WellFormed(Without(g, X)) && Pruned(g, Without(g, X))
    ensures forall n :: n in g.nodes && n !in D ==> n in Without(g, X).nodes
  {
    WithoutWellFormed(g, X);
    WithoutPruned(g, X);
  }

  /**
   * One path removal deletes the interior, and the requested endpoints when
   * it does not raise; it never adds, re-weights or resurrects anything.
   */
  lemma RemoveOneFrame(g: Digraph, p: Path, de: bool, ds: bool)
    requires WellFormed(g)
    ensures var o := RemoveOne(g, p, de, ds);
      && WellFormed(o.g)
      && Pruned(g, o.g)
      && (forall n :: n in g.nodes && n !in Doomed([p], de, ds) ==> n in o.g.nodes)
      && (o.ok ==> o.g == Without(g, Doomed([p], de, ds)))
      && (!de && !ds ==> o.ok)
  {
    var X := RemoveOneIsWithout(g, p, de, ds);
    WithoutSome(g, X, Doomed([p], de, ds));
  }

  lemma DoomedSnoc(ps: seq<Path>, i: nat, de: bool, ds: bool)
    requires i < |ps|
    ensures Doomed(ps[..i + 1], de, ds) == Doomed(ps[..i], de, ds) + Doomed([ps[i]], de, ds)
  {
    assert ps[..i + 1][..i] == ps[..i];
    assert [ps[i]][..0] == [];
  }

  /**
   * `remove_paths` deletes only the interiors of the paths and the endpoints
   * it was told to delete, with their edges; everything else keeps its place
   * and weight. When no call raised, exactly those nodes are gone. Without
   * endpoint deletion nothing can raise.
   */
  lemma {:induction false} RemoveAllFrame(g: Digraph, ps: seq<Path>, de: bool, ds: bool)
    requires WellFormed(g)
    ensures var o := RemoveAll(g, ps, de, ds);
      && WellFormed(o.g)
      && Pruned(g, o.g)
      && (forall n :: n in g.nodes && n !in Doomed(ps, de, ds) ==> n in o.g.nodes)
      && (o.ok ==> o.g == Without(g, Doomed(ps, de, ds)))
      && (!de && !ds ==> o.ok)
    decreases |ps|
  {
    if ps == [] {
      WithoutNothing(g);
      WithoutPruned(g, {});
    } else {
      var n := |ps| - 1;
      var init := ps[..n];
      RemoveAllFrame(g, init, de, ds);
      var o := RemoveAll(g, init, de, ds);
      DoomedSnoc(ps, n, de, ds);
      assert ps[..n + 1] == ps;
      if o.ok {
        RemoveOneFrame(o.g, ps[n], de, ds);
        var o' := RemoveOne(o.g, ps[n], de, ds);
        PrunedTransitive(g, o.g, o'.g);
        if o'.ok {
          WithoutWithout(g, Doomed(init, de, ds), Doomed([ps[n]], de, ds));
        }
      }
    }
  }

  /** Without endpoint deletion, the doomed nodes are interior nodes of the listed paths. */
  lemma {:induction false} DoomedInteriors(ps: seq<Path>, n: Node)
    requires n in Doomed(ps, false, false)
    ensures exists p :: p in ps && n in Interior(p)
    decreases |ps|
  {
    var init := ps[..|ps| - 1];
    assert ps == init + [ps[|ps| - 1]];
    if n in Doomed(init, false, false) {
      DoomedInteriors(init, n);
    } else {
      assert n in Interior(ps[|ps| - 1]);
    }
  }

  /** p is [] or an endpoint `remove_paths` is told to delete for p is not a node of g. */
  ghost predicate EndGone(g: Digraph, p: Path, de: bool, ds: bool)
  {
    (de || ds) && (p == [] || (de && p[0] !in g.nodes) || (ds && p[|p| - 1] !in g.nodes))
  }

  /** A listed path whose endpoint to delete is already gone makes `remove_paths` raise. */
  lemma {:induction false} EndGoneRaises(g: Digraph, ps: seq<Path>, p: Path, de: bool, ds: bool)
    requires WellFormed(g) && p in ps && EndGone(g, p, de, ds)
    ensures !RemoveAll(g, ps, de, ds).ok
    decreases |ps|
  {
    var init := ps[..|ps| - 1];
    assert ps == init + [ps[|ps| - 1]];
    if p in init {
      EndGoneRaises(g, init, p, de, ds);
    } else {
      assert p == ps[|ps| - 1];
      RemoveAllFrame(g, init, de, ds);
    }
  }

  /** Every path handed to `remove_paths` has its requested endpoints among the doomed nodes. */
  lemma {:induction false} DoomedHasEnds(ps: seq<Path>, p: Path, de: bool, ds: bool)
    requires p in ps && p != []
    ensures de ==> p[0] in Doomed(ps, de, ds)
    ensures ds ==> p[|p| - 1] in Doomed(ps, de, ds)
    decreases |ps|
  {
    var init := ps[..|ps| - 1];
    assert ps == init + [ps[|ps| - 1]];
    if p in init {
      DoomedHasEnds(init, p, de, ds);
    }
  }

  /** A rejected path stays listed when rows are appended, and is rejected again unless it is kept. */
  lemma StillRejected(cs: seq<Candidate>, cs': seq<Candidate>, p: Path, choose: seq<Path> -> nat)
    requires cs <= cs' && p in Rejected(cs, choose) && p !in Kept(cs', choose)
    ensures p in Rejected(cs', choose)
  {
    RejectedListed(cs, choose);
    var k :| 0 <= k < |cs| && PathsOf(cs)[k] == p;
    assert PathsOf(cs')[k] == cs'[k].path == cs[k].path;
  }

  /**
   * When endpoints are deleted, a path rejected by a selection that went
   * through cannot be rejected again on the graph it left: the second
   * selection raises.
   */
  lemma RejectedAgainRaises(g: Digraph, cs: seq<Candidate>, cs': seq<Candidate>, p: Path, de: bool, ds: bool, choose: seq<Path> -> nat)
    requires WellFormed(g) && (de || ds)
    requires Select(g, cs, de, ds, choose).ok
    requires p in Rejected(cs, choose) && p in Rejected(cs', choose)
    ensures !Select(Select(g, cs, de, ds, choose).g, cs', de, ds, choose).ok
  {
    var o := Select(g, cs, de, ds, choose);
    RemoveAllFrame(g, Rejected(cs, choose), de, ds);
    if p != [] {
      DoomedHasEnds(Rejected(cs, choose), p, de, ds);
    }
    EndGoneRaises(o.g, Rejected(cs', choose), p, de, ds);
  }

  /**
   * One row of the three parallel lists `select_best_path` receives: a path,
   * the length given for it and its average weight.
   */
  datatype Candidate = Candidate(path: Path, length: int, weight: real)

  /** The rows of the parallel lists, position by position. */
  function Zip(paths: seq<Path>, lengths: seq<int>, weights: seq<real>): seq<Candidate>
    requires |lengths| == |paths| && |weights| == |paths|
  {
    seq(|paths|, i requires 0 <= i < |paths| => Candidate(paths[i], lengths[i], weights[i]))
  }

  /** The path column of the rows is the path list. */
  lemma PathsOfZip(paths: seq<Path>, lengths: seq<int>, weights: seq<real>)
    requires |lengths| == |paths| && |weights| == |paths|
    ensures PathsOf(Zip(paths, lengths, weights)) == paths
  {
    var r := PathsOf(Zip(paths, lengths, weights));
    assert |r| == |paths|;
    forall i | 0 <= i < |paths| ensures r[i] == paths[i] {
      assert Zip(paths, lengths, weights)[i].path == paths[i];
    }
  }

  /** The paths of the candidates, in order. */
  function PathsOf(cs: seq<Candidate>): (r: seq<Path>)
    ensures |r| == |cs| && forall i :: 0 <= i < |cs| ==> r[i] == cs[i].path
  {
    seq(|cs|, i requires 0 <= i < |cs| => cs[i].path)
  }

  /** Python `max(path_weight)` (0.0 stands in for the raise on an empty list, which is never reached). */
  function MaxWeight(cs: seq<Candidate>): (m: real)
    ensures forall c :: c in cs ==> c.weight <= m
    ensures cs != [] ==> exists c :: c in cs && c.weight == m
    decreases |cs|
  {
    if cs == [] then 0.0
    else if |cs| == 1 then cs[0].weight
    else
      var m := MaxWeight(cs[..|cs| - 1]);
      assert forall c :: c in cs ==> c in cs[..|cs| - 1] || c == cs[|cs| - 1];
      if cs[|cs| - 1].weight > m then cs[|cs| - 1].weight else m
  }

  /** Python `max(length_wmax)`, likewise. */
  function MaxLength(cs: seq<Candidate>): (m: int)
    ensures forall c :: c in cs ==> c.length <= m
    ensures cs != [] ==> exists c :: c in cs && c.length == m
    decreases |cs|
  {
    if cs == [] then 0
    else if |cs| == 1 then cs[0].length
    else
      var m := MaxLength(cs[..|cs| - 1]);
      assert forall c :: c in cs ==> c in cs[..|cs| - 1] || c == cs[|cs| - 1];
      if cs[|cs| - 1].length > m then cs[|cs| - 1].length else m
  }

  /** The rows of weight m, in order. */
  function WithWeight(cs: seq<Candidate>, m: real): (r: seq<Candidate>)
    ensures forall c :: c in r <==> c in cs && c.weight == m
    decreases |cs|
  {
    if cs == [] then []
    else
      var c := cs[|cs| - 1];
      assert forall x :: x in cs <==> x in cs[..|cs| - 1] || x == c;
      WithWeight(cs[..|cs| - 1], m) + (if c.weight == m then [c] else [])
  }

  /** The rows of length m, in order. */
  function WithLength(cs: seq<Candidate>, m: int): (r: seq<Candidate>)
    ensures forall c :: c in r <==> c in cs && c.length == m
    decreases |cs|
  {
    if cs == [] then []
    else
      var c := cs[|cs| - 1];
      assert forall x :: x in cs <==> x in cs[..|cs| - 1] || x == c;
      WithLength(cs[..|cs| - 1], m) + (if c.length == m then [c] else [])
  }

  /** The first filter of `select_best_path`: the candidates of maximum weight, in order. */
  function Heaviest(cs: seq<Candidate>): seq<Candidate>
  {
    WithWeight(cs, MaxWeight(cs))
  }

  /** The second filter: the candidates of maximum length, in order. */
  function Longest(cs: seq<Candidate>): seq<Candidate>
  {
    WithLength(cs, MaxLength(cs))
  }

  /**
   * The tie-break loop, with `pop` at the index `choose(list) % len(list)`:
   * an arbitrary position, standing for the random one the code means to draw.
   */
  function PopUntilOne(ps: seq<Path>, choose: seq<Path> -> nat): (r: seq<Path>)
    ensures ps != [] ==> |r| == 1 && r[0] in ps
    ensures ps == [] ==> r == []
    decreases |ps|
  {
    if |ps| <= 1 then ps
    else
      var i := choose(ps) % |ps|;
      var rest := ps[..i] + ps[i + 1..];
      assert forall p :: p in rest ==> p in ps;
      PopUntilOne(rest, choose)
  }

  /** The paths of ps not in keep, in order. */
  function Others(ps: seq<Path>, keep: seq<Path>): (r: seq<Path>)
    ensures forall p :: p in r <==> p in ps && p !in keep
    decreases |ps|
  {
    if ps == [] then []
    else
      var p := ps[|ps| - 1];
      assert forall x :: x in ps <==> x in ps[..|ps| - 1] || x == p;
      Others(ps[..|ps| - 1], keep) + (if p !in keep then [p] else [])
  }

  /** `path_list_lmax` once the tie-break loop ends. */
  function Kept(cs: seq<Candidate>, choose: seq<Path> -> nat): seq<Path>
  {
    PopUntilOne(PathsOf(Longest(Heaviest(cs))), choose)
  }

  /** `wrong_paths`: every listed path not kept, in list order. */
  function Rejected(cs: seq<Candidate>, choose: seq<Path> -> nat): seq<Path>
  {
    var kept := Kept(cs, choose);
    Others(PathsOf(cs), kept)
  }

  /** `select_best_path` with the tie broken by `choose`. */
  function Select(g: Digraph, cs: seq<Candidate>, de: bool, ds: bool, choose: seq<Path> -> nat): Outcome
  {
    RemoveAll(g, Rejected(cs, choose), de, ds)
  }

  /** A non-empty list keeps exactly one path. */
  lemma KeptIsOne(cs: seq<Candidate>, choose: seq<Path> -> nat)
    requires cs != []
    ensures |Kept(cs, choose)| == 1
  {
    var H := Heaviest(cs);
    var c0 :| c0 in cs && c0.weight == MaxWeight(cs);
    assert c0 in H;
    var c1 :| c1 in H && c1.length == MaxLength(H);
    assert c1 in Longest(H);
    assert PathsOf(Longest(H)) != [] by { assert |PathsOf(Longest(H))| == |Longest(H)|; }
  }

  /**
   * A non-empty list keeps exactly one path, and it is the path of a
   * candidate of maximum weight that is no shorter than any other candidate
   * of that weight.
   */
  lemma WinnerIsBest(cs: seq<Candidate>, choose: seq<Path> -> nat) returns (i: nat)
    requires cs != []
    ensures |Kept(cs, choose)| == 1
    ensures i < |cs| && cs[i].path == Kept(cs, choose)[0]
    ensures forall j :: 0 <= j < |cs| ==> cs[j].weight <= cs[i].weight
    ensures forall j :: 0 <= j < |cs| && cs[j].weight == cs[i].weight ==> cs[j].length <= cs[i].length
  {
    var H := Heaviest(cs);
    var L := Longest(H);
    var mw := MaxWeight(cs);
    var c0 :| c0 in cs && c0.weight == mw;
    assert c0 in H;
    var ml := MaxLength(H);
    var c1 :| c1 in H && c1.length == ml;
    assert c1 in L;
    assert PathsOf(L) != [] by { assert |PathsOf(L)| == |L|; }
    var w := Kept(cs, choose)[0];
    assert w in PathsOf(L);
    var k :| 0 <= k < |L| && PathsOf(L)[k] == w;
    var c := L[k];
    assert c in L && c in H && c in cs;
    i :| 0 <= i < |cs| && cs[i] == c;
    forall j | 0 <= j < |cs| && cs[j].weight == cs[i].weight
      ensures cs[j].length <= cs[i].length
    {
      assert cs[j] in cs;
      assert cs[j] in H;
    }
    forall j | 0 <= j < |cs| ensures cs[j].weight <= cs[i].weight {
      assert cs[j] in cs;
    }
  }

  /** Only listed paths are rejected. */
  lemma RejectedListed(cs: seq<Candidate>, choose: seq<Path> -> nat)
    ensures forall p :: p in Rejected(cs, choose) ==> p in PathsOf(cs)
  {
  }

  /** The rejected paths are exactly the listed paths other than the kept one. */
  lemma RejectedAreTheOthers(cs: seq<Candidate>, choose: seq<Path> -> nat)
    ensures cs == [] ==> Rejected(cs, choose) == []
    ensures cs != [] ==> forall p :: p in Rejected(cs, choose) <==>
      (exists i :: 0 <= i < |cs| && cs[i].path == p) && p != Kept(cs, choose)[0]
  {
    if cs != [] {
      KeptIsOne(cs, choose);
      var kept := Kept(cs, choose);
      assert kept == [kept[0]];
      forall p ensures p in Rejected(cs, choose) <==>
        (exists i :: 0 <= i < |cs| && cs[i].path == p) && p != kept[0]
      {
        if exists i :: 0 <= i < |cs| && cs[i].path == p {
          var i :| 0 <= i < |cs| && cs[i].path == p;
          assert PathsOf(cs)[i] == p;
        }
      }
    }
  }

  /** An empty candidate list leaves the graph as it was. */
  lemma EmptySelectionKeepsGraph(g: Digraph, de: bool, ds: bool, choose: seq<Path> -> nat)
    ensures Select(g, [], de, ds, choose) == Outcome(g, true)
  {
    RejectedAreTheOthers([], choose);
  }

  /**
   * The kept path survives, nodes and edges, when no node of it is among
   * the nodes the rejected paths doom (a shared interior node is deleted
   * regardless of the winner).
   */
  lemma WinnerSurvives(g: Digraph, cs: seq<Candidate>, de: bool, ds: bool, choose: seq<Path> -> nat)
    requires WellFormed(g) && cs != []
    requires Select(g, cs, de, ds, choose).ok
    requires IsWalk(g, Kept(cs, choose)[0])
    requires forall n :: n in Kept(cs, choose)[0] ==> n in g.nodes && n !in Doomed(Rejected(cs, choose), de, ds)
    ensures var h := Select(g, cs, de, ds, choose).g;
      IsWalk(h, Kept(cs, choose)[0]) && forall n :: n in Kept(cs, choose)[0] ==> n in h.nodes
  {
    var _ := WinnerIsBest(cs, choose);
    var w := Kept(cs, choose)[0];
    var D := Doomed(Rejected(cs, choose), de, ds);
    RemoveAllFrame(g, Rejected(cs, choose), de, ds);
    var h := Select(g, cs, de, ds, choose).g;
    assert h == Without(g, D);
    forall i | 0 <= i < |w| - 1 ensures (w[i], w[i + 1]) in h.weight {
      assert w[i] in w && w[i + 1] in w;
    }
  }

  /**
   * The pop loop as written: `statistics.randint` does not exist, so the
   * first pop of a tie of two or more paths raises before anything is
   * removed; without a tie the loop does not run.
   */
  function SelectAsWritten(g: Digraph, cs: seq<Candidate>, de: bool, ds: bool): Outcome
  {
    if |Longest(Heaviest(cs))| > 1 then Outcome(g, false)
    else RemoveAll(g, Others(PathsOf(cs), PathsOf(Longest(Heaviest(cs)))), de, ds)
  }

  /** With two different paths tied at the top, the second filter keeps more than one row. */
  lemma TieSurvivesFilters(cs: seq<Candidate>, i: nat, j: nat)
    requires i < |cs| && j < |cs| && cs[i].path != cs[j].path
    requires cs[i].weight == cs[j].weight && cs[i].length == cs[j].length
    requires forall k :: 0 <= k < |cs| ==> cs[k].weight <= cs[i].weight
    requires forall k :: 0 <= k < |cs| && cs[k].weight == cs[i].weight ==> cs[k].length <= cs[i].length
    ensures |Longest(Heaviest(cs))| > 1
  {
    var H := Heaviest(cs);
    assert cs[i] in cs && cs[j] in cs;
    assert MaxWeight(cs) == cs[i].weight by {
      var c :| c in cs && c.weight == MaxWeight(cs);
    }
    assert cs[i] in H && cs[j] in H;
    assert MaxLength(H) == cs[i].length by {
      var c :| c in H && c.length == MaxLength(H);
      assert c in cs && c.weight == cs[i].weight;
      var k :| 0 <= k < |cs| && cs[k] == c;
    }
    var L := Longest(H);
    assert cs[i] in L && cs[j] in L;
    TwoMembers(L, cs[i], cs[j]);
  }

  lemma TwoMembers(s: seq<Candidate>, a: Candidate, b: Candidate)
    requires a in s && b in s && a != b
    ensures |s| > 1
  {
  }

  /**
   * Two different paths that tie on weight and length make the code as
   * written raise with the graph untouched, while the intended selection
   * keeps one of them and (without endpoint deletion) always succeeds.
   */
  lemma TieRaisesAsWritten(g: Digraph, cs: seq<Candidate>, i: nat, j: nat, choose: seq<Path> -> nat)
    requires WellFormed(g)
    requires i < |cs| && j < |cs| && cs[i].path != cs[j].path
    requires cs[i].weight == cs[j].weight && cs[i].length == cs[j].length
    requires forall k :: 0 <= k < |cs| ==> cs[k].weight <= cs[i].weight
    requires forall k :: 0 <= k < |cs| && cs[k].weight == cs[i].weight ==> cs[k].length <= cs[i].length
    ensures SelectAsWritten(g, cs, false, false) == Outcome(g, false)
    ensures Select(g, cs, false, false, choose).ok && |Kept(cs, choose)| == 1
  {
    TieSurvivesFilters(cs, i, j);
    var _ := WinnerIsBest(cs, choose);
    RemoveAllFrame(g, Rejected(cs, choose), false, false);
  }

  /** One iteration of the loop of `remove_paths` on the graph object. */
  method RemovePath(g: Graph, p: Path, de: bool, ds: bool) returns (ok: bool)
    requires g.Valid()
    modifies g
    ensures g.Valid()
    ensures Outcome(g.Value(), ok) == RemoveOne(old(g.Value()), p, de, ds)
  {
    g.RemoveNodesFrom(Interior(p));
    ok := true;
    if de {
      if p == [] {
        return false;
      }
      ok := g.RemoveNode(p[0]);
      if !ok {
        return;
      }
    }
    if ds {
      if p == [] {
        return false;
      }
      ok := g.RemoveNode(p[|p| - 1]);
    }
  }

  lemma RemoveAllSnoc(g: Digraph, ps: seq<Path>, i: nat, de: bool, ds: bool)
    requires i < |ps| && RemoveAll(g, ps[..i], de, ds).ok
    ensures RemoveAll(g, ps[..i + 1], de, ds) == RemoveOne(RemoveAll(g, ps[..i], de, ds).g, ps[i], de, ds)
  {
    assert ps[..i + 1][..i] == ps[..i];
  }

  /** Once a removal has raised, the later paths are never reached. */
  lemma {:induction false} RemoveAllStops(g: Digraph, ps: seq<Path>, i: nat, de: bool, ds: bool)
    requires i <= |ps| && !RemoveAll(g, ps[..i], de, ds).ok
    ensures RemoveAll(g, ps, de, ds) == RemoveAll(g, ps[..i], de, ds)
    decreases |ps| - i
  {
    if i < |ps| {
      assert ps[..i + 1][..i] == ps[..i];
      RemoveAllStops(g, ps, i + 1, de, ds);
    } else {
      assert ps[..i] == ps;
    }
  }

  /** `remove_paths(tree, path_list, delete_entry_node, delete_sink_node)` on the graph object. */
  method RemovePaths(g: Graph, ps: seq<Path>, de: bool, ds: bool) returns (ok: bool)
    requires g.Valid()
    modifies g
    ensures g.Valid()
    ensures Outcome(g.Value(), ok) == RemoveAll(old(g.Value()), ps, de, ds)
  {
    ok := true;
    for i := 0 to |ps|
      invariant g.Valid()
      invariant RemoveAll(old(g.Value()), ps[..i], de, ds) == Outcome(g.Value(), true)
    {
      RemoveAllSnoc(old(g.Value()), ps, i, de, ds);
      ok := RemovePath(g, ps[i], de, ds);
      if !ok {
        RemoveAllStops(old(g.Value()), ps, i + 1, de, ds);
        return;
      }
    }
    assert ps[..|ps|] == ps;
  }

  /** The first loop of `select_best_path`: the rows whose weight is `max(path_weight)`. */
  method KeepHeaviest(cs: seq<Candidate>) returns (wmax: seq<Candidate>)
    ensures wmax == Heaviest(cs)
  {
    wmax := [];
    var top := MaxWeight(cs);
    for i := 0 to |cs|
      invariant wmax == WithWeight(cs[..i], top)
    {
      assert cs[..i + 1][..i] == cs[..i];
      if cs[i].weight == top {
        wmax := wmax + [cs[i]];
      }
    }
    assert cs[..|cs|] == cs;
  }

  /** The second loop: the rows whose length is `max(length_wmax)`. */
  method KeepLongest(cs: seq<Candidate>) returns (lmax: seq<Candidate>)
    ensures lmax == Longest(cs)
  {
    lmax := [];
    var longest := MaxLength(cs);
    for i := 0 to |cs|
      invariant lmax == WithLength(cs[..i], longest)
    {
      assert cs[..i + 1][..i] == cs[..i];
      if cs[i].length == longest {
        lmax := lmax + [cs[i]];
      }
    }
    assert cs[..|cs|] == cs;
  }

  /** The `while len(path_list_lmax) > 1: pop(...)` loop, popping at `choose`. */
  method BreakTie(tied: seq<Path>, choose: seq<Path> -> nat) returns (keep: seq<Path>)
    ensures keep == PopUntilOne(tied, choose)
  {
    keep := tied;
    while |keep| > 1
      invariant PopUntilOne(keep, choose) == PopUntilOne(tied, choose)
      decreases |keep|
    {
      var i := choose(keep) % |keep|;
      keep := keep[..i] + keep[i + 1..];
    }
  }

  /** The `wrong_paths` loop: the listed paths not in `keep`, in order. */
  method WrongPaths(paths: seq<Path>, keep: seq<Path>) returns (wrong: seq<Path>)
    ensures wrong == Others(paths, keep)
  {
    wrong := [];
    for i := 0 to |paths|
      invariant wrong == Others(paths[..i], keep)
    {
      assert paths[..i + 1][..i] == paths[..i];
      if paths[i] !in keep {
        wrong := wrong + [paths[i]];
      }
    }
    assert paths[..|paths|] == paths;
  }

  /**
   * `select_best_path`: keep the rows of maximum weight, then of those the
   * rows of maximum length, pop tied paths until one is left, and hand every
   * other listed path to `remove_paths`.
   */
  method SelectBestPath(g: Graph, paths: seq<Path>, lengths: seq<int>, weights: seq<real>,
                        de: bool, ds: bool, choose: seq<Path> -> nat) returns (ok: bool)
    requires g.Valid() && |lengths| == |paths| && |weights| == |paths|
    modifies g
    ensures g.Valid()
    ensures Outcome(g.Value(), ok) == Select(old(g.Value()), Zip(paths, lengths, weights), de, ds, choose)
  {
    var cs := Zip(paths, lengths, weights);
    var wmax := KeepHeaviest(cs);
    var lmax := KeepLongest(wmax);
    var keep := BreakTie(PathsOf(lmax), choose);
    var wrong := WrongPaths(paths, keep);
    PathsOfZip(paths, lengths, weights);
    ok := RemovePaths(g, wrong, de, ds);
  }
}
