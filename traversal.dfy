/**
 * The networkx graph algorithms the assembler calls, given as functions
 * passed in by the caller and specified here, not implemented.
 */
module Traversal {
  import opened SeqUtil
  import opened Digraphs

  /** `all_simple_paths(G, source, target)`, listed in some order. */
  type PathFinder = (Digraph, Node, Node) -> seq<Path>

  /** `descendants(G, n)` or `ancestors(G, n)`, listed in some order. */
  type Neighbourhood = (Digraph, Node) -> seq<Node>

  /** `lowest_common_ancestor(G, a, b)`: `None` when a and b share no ancestor. */
  type CommonAncestor = (Digraph, Node, Node) -> Option<Node>

  /**
   * Every listed path is simple, is a walk of the graph, starts at the
   * source and, when the target is a node, ends at it.
   */
  ghost predicate PathsSound(find: PathFinder)
  {
    forall g, s, t, p :: p in find(g, s, t) ==>
      |p| >= 2 && p[0] == s && Distinct(p) && IsWalk(g, p) && (t in g.nodes ==> p[|p| - 1] == t)
  }

  /** Every simple path between two nodes is listed, once. */
  ghost predicate PathsComplete(find: PathFinder)
  {
    && (forall g, s, t, p :: WellFormed(g) && s in g.nodes && t in g.nodes && IsSimplePath(g, p, s, t)
          ==> p in find(g, s, t))
    && (forall g, s, t :: Distinct(find(g, s, t)))
  }

  /** Which way `descendants` (from the entries) or `ancestors` (from the sinks) looks. */
  datatype Side = Entry | Out

  /** x lies past n on the given side: n reaches x for entries, x reaches n for sinks. */
  ghost predicate Beyond(side: Side, g: Digraph, n: Node, x: Node)
  {
    if side == Entry then Reaches(g, n, x) else Reaches(g, x, n)
  }

  /**
   * `descendants` (side Entry) or `ancestors` (side Out) of a node of a
   * well-formed graph: the other nodes reachable from it, or reaching it.
   */
  ghost predicate ListsBeyond(side: Side, reach: Neighbourhood)
  {
    forall g, n, x :: WellFormed(g) && n in g.nodes ==>
      (x in reach(g, n) <==> x != n && Beyond(side, g, n, x))
  }

  /** The answer, when there is one, is an ancestor-or-self of both nodes. */
  ghost predicate CommonAncestorSound(lca: CommonAncestor)
  {
    forall g, a, b, c :: lca(g, a, b) == Some(c) ==>
      (c == a || Reaches(g, c, a)) && (c == b || Reaches(g, c, b))
  }

  /** A walk to b followed by an edge b -> c is a walk to c. */
  lemma ReachesThenEdge(g: Digraph, a: Node, b: Node, c: Node)
    requires a == b || Reaches(g, a, b)
    requires (b, c) in g.weight
    ensures Reaches(g, a, c)
  {
    if a == b {
      var p := [a, c];
      assert |p| >= 2 && p[0] == a && p[|p| - 1] == c && IsWalk(g, p);
    } else {
      var p: Path :| |p| >= 2 && p[0] == a && p[|p| - 1] == b && IsWalk(g, p);
      var q := p + [c];
      assert forall i :: 0 <= i < |q| - 1 ==> (q[i], q[i + 1]) in g.weight by {
        forall i | 0 <= i < |q| - 1 ensures (q[i], q[i + 1]) in g.weight {
          if i < |p| - 1 {
            assert q[i] == p[i] && q[i + 1] == p[i + 1];
          }
        }
      }
      assert |q| >= 2 && q[0] == a && q[|q| - 1] == c && IsWalk(g, q);
    }
  }
}
