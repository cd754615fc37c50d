/**
 * The directed, edge-weighted graph the assembler mutates in place (a
 * networkx DiGraph restricted to what the assembler uses): nodes in insertion
 * order, edges in first-insertion order, and a weight per edge.
 */
module Digraphs {
  import opened SeqUtil

  type Node = string
  type Edge = (Node, Node)
  type Path = seq<Node>

  /** The value of a graph at one moment. */
  datatype Digraph = Digraph(nodes: seq<Node>, edges: seq<Edge>, weight: map<Edge, int>)

  /** Nodes and edges are listed once each, and every edge joins two nodes. */
  ghost predicate WellFormed(g: Digraph)
  {
    && Distinct(g.nodes)
    && Distinct(g.edges)
    && (forall e :: e in g.edges <==> e in g.weight)
    && (forall e :: e in g.weight ==> e.0 in g.nodes && e.1 in g.nodes)
  }

  /**
   * networkx `add_edge(u, v, weight=w)`: a missing u is appended, then a
   * missing v; a new edge is appended, an existing one keeps its place; the
   * weight is (re)set.
   */
  function WithEdge(g: Digraph, u: Node, v: Node, w: int): (r: Digraph)
    ensures forall n :: n in r.nodes <==> n in g.nodes || n == u || n == v
    ensures forall e :: e in r.edges <==> e in g.edges || e == (u, v)
    ensures |r.edges| == if (u, v) in g.edges then |g.edges| else |g.edges| + 1
    ensures (u, v) in r.weight && r.weight[(u, v)] == w
    ensures forall e :: e != (u, v) ==> (e in r.weight <==> e in g.weight)
    ensures forall e :: e != (u, v) && e in g.weight ==> r.weight[e] == g.weight[e]
  {
    var nodes1 := if u in g.nodes then g.nodes else g.nodes + [u];
    var nodes2 := if v in nodes1 then nodes1 else nodes1 + [v];
    var edges := if (u, v) in g.edges then g.edges else g.edges + [(u, v)];
    Digraph(nodes2, edges, g.weight[(u, v) := w])
  }

  /** Adding an edge keeps a graph well formed. */
  lemma WithEdgeWellFormed(g: Digraph, u: Node, v: Node, w: int)
    requires WellFormed(g)
    ensures WellFormed(WithEdge(g, u, v, w))
  {
  }

  /** The graph with the nodes of D and every edge touching them removed. */
  function Without(g: Digraph, D: set<Node>): (r: Digraph)
    ensures forall n :: n in r.nodes <==> n in g.nodes && n !in D
    ensures forall e :: e in r.edges <==> e in g.edges && e.0 !in D && e.1 !in D
    ensures forall e :: e in r.weight <==> e in g.weight && e.0 !in D && e.1 !in D
    ensures forall e :: e in r.weight ==> r.weight[e] == g.weight[e]
  {
    Digraph(Filter(g.nodes, n => n !in D),
            Filter(g.edges, (e: Edge) => e.0 !in D && e.1 !in D),
            map e | e in g.weight && e.0 !in D && e.1 !in D :: g.weight[e])
  }

  /** Removing nodes keeps a graph well formed. */
  lemma WithoutWellFormed(g: Digraph, D: set<Node>)
    requires WellFormed(g)
    ensures WellFormed(Without(g, D))
  {
    FilterDistinct(g.nodes, n => n !in D);
    FilterDistinct(g.edges, (e: Edge) => e.0 !in D && e.1 !in D);
  }

  /** Removing A, then B, is removing A + B at once. */
  lemma WithoutWithout(g: Digraph, A: set<Node>, B: set<Node>)
    ensures Without(Without(g, A), B) == Without(g, A + B)
  {
    FilterFilter(g.nodes, n => n !in A, n => n !in B, n => n !in A + B);
    FilterFilter(g.edges, (e: Edge) => e.0 !in A && e.1 !in A,
                 (e: Edge) => e.0 !in B && e.1 !in B,
                 (e: Edge) => e.0 !in A + B && e.1 !in A + B);
  }

  /** Removing nothing changes nothing. */
  lemma WithoutNothing(g: Digraph)
    ensures Without(g, {}) == g
  {
    var none: set<Node> := {};
    FilterAll(g.nodes, n => n !in none);
    FilterAll(g.edges, (e: Edge) => e.0 !in none && e.1 !in none);
    assert Without(g, {}).weight == g.weight;
  }

  /**
   * h is g with some nodes deleted together with every edge touching them:
   * no node, edge or weight is added or changed.
   */
  ghost predicate Pruned(g: Digraph, h: Digraph)
  {
    && (forall n :: n in h.nodes ==> n in g.nodes)
    && (forall e :: e in h.weight <==> e in g.weight && e.0 in h.nodes && e.1 in h.nodes)
    && (forall e :: e in h.weight ==> h.weight[e] == g.weight[e])
  }

  /** Deleting nodes prunes a well-formed graph. */
  lemma WithoutPruned(g: Digraph, D: set<Node>)
    requires WellFormed(g)
    ensures Pruned(g, Without(g, D))
  {
  }

  /** Pruning twice is pruning. */
  lemma PrunedTransitive(g: Digraph, h: Digraph, k: Digraph)
    requires Pruned(g, h) && Pruned(h, k)
    ensures Pruned(g, k)
  {
  }

  /** The first endpoints of a list of edges. */
  function Starts(es: seq<Edge>): (r: seq<Node>)
    ensures |r| == |es| && forall i :: 0 <= i < |es| ==> r[i] == es[i].0
  {
    seq(|es|, i requires 0 <= i < |es| => es[i].0)
  }

  /** The second endpoints of a list of edges. */
  function Ends(es: seq<Edge>): (r: seq<Node>)
    ensures |r| == |es| && forall i :: 0 <= i < |es| ==> r[i] == es[i].1
  {
    seq(|es|, i requires 0 <= i < |es| => es[i].1)
  }

  /** networkx `predecessors(v)`: the u with an edge u -> v, in edge order. */
  function Preds(g: Digraph, v: Node): (r: seq<Node>)
    ensures forall u :: u in r <==> (u, v) in g.edges
  {
    var into := Filter(g.edges, (e: Edge) => e.1 == v);
    var r := Starts(into);
    assert forall u :: u in r <==> (u, v) in into by {
      forall u ensures u in r <==> (u, v) in into {
        if u in r {
          var i :| 0 <= i < |r| && r[i] == u;
          var e := into[i];
          assert e in into && e.1 == v;
          assert e == (e.0, e.1);
        }
        if (u, v) in into {
          var i :| 0 <= i < |into| && into[i] == (u, v);
          assert r[i] == u;
        }
      }
    }
    r
  }

  /** networkx `successors(u)`: the v with an edge u -> v, in edge order. */
  function Succs(g: Digraph, u: Node): (r: seq<Node>)
    ensures forall v :: v in r <==> (u, v) in g.edges
  {
    var out := Filter(g.edges, (e: Edge) => e.0 == u);
    var r := Ends(out);
    assert forall v :: v in r <==> (u, v) in out by {
      forall v ensures v in r <==> (u, v) in out {
        if v in r {
          var i :| 0 <= i < |r| && r[i] == v;
          var e := out[i];
          assert e in out && e.0 == u;
          assert e == (e.0, e.1);
        }
        if (u, v) in out {
          var i :| 0 <= i < |out| && out[i] == (u, v);
          assert r[i] == v;
        }
      }
    }
    r
  }

  /** Consecutive nodes of p are joined by edges of g. */
  ghost predicate IsWalk(g: Digraph, p: Path)
  {
    forall i :: 0 <= i < |p| - 1 ==> (p[i], p[i + 1]) in g.weight
  }

  /** A path of networkx `all_simple_paths(g, s, t)`: s to t, no node twice. */
  ghost predicate IsSimplePath(g: Digraph, p: Path, s: Node, t: Node)
  {
    |p| >= 2 && p[0] == s && p[|p| - 1] == t && Distinct(p) && IsWalk(g, p)
  }

  /** b can be reached from a by following at least one edge. */
  ghost predicate Reaches(g: Digraph, a: Node, b: Node)
  {
    exists p: Path :: |p| >= 2 && p[0] == a && p[|p| - 1] == b && IsWalk(g, p)
  }

  /** No node reaches itself. */
  ghost predicate Acyclic(g: Digraph)
  {
    forall a :: !Reaches(g, a, a)
  }

  /**
   * A graph object whose methods update it in place, as networkx's do; its
   * value is `Value()`.
   */
  class Graph {
    var nodes: seq<Node>
    var edges: seq<Edge>
    var weight: map<Edge, int>

    function Value(): Digraph
      reads this
    {
      Digraph(nodes, edges, weight)
    }

    ghost predicate Valid()
      reads this
    {
      WellFormed(Value())
    }

    /** networkx `DiGraph()`: no nodes, no edges. */
    constructor ()
      ensures Valid() && Value() == Digraph([], [], map[])
    {
      nodes, edges, weight := [], [], map[];
    }

    /** networkx `add_edge(u, v, weight=w)`. */
    method AddEdge(u: Node, v: Node, w: int)
      requires Valid()
      modifies this
      ensures Valid() && Value() == WithEdge(old(Value()), u, v, w)
    {
      WithEdgeWellFormed(Value(), u, v, w);
      var g := WithEdge(Value(), u, v, w);
      nodes, edges, weight := g.nodes, g.edges, g.weight;
    }

    /**
     * networkx `remove_node(n)`: removes n and its edges; raises (here:
     * `ok` is false and nothing changes) when n is not a node.
     */
    method RemoveNode(n: Node) returns (ok: bool)
      requires Valid()
      modifies this
      ensures Valid()
      ensures ok == (n in old(nodes))
      ensures Value() == if ok then Without(old(Value()), {n}) else old(Value())
    {
      ok := n in nodes;
      if ok {
        WithoutWellFormed(Value(), {n});
        var g := Without(Value(), {n});
        nodes, edges, weight := g.nodes, g.edges, g.weight;
      }
    }

    /** networkx `remove_nodes_from(ns)`: removes those of ns that are nodes. */
    method RemoveNodesFrom(ns: seq<Node>)
      requires Valid()
      modifies this
      ensures Valid()
      ensures Value() == Without(old(Value()), set n | n in ns)
    {
      WithoutWellFormed(Value(), set n | n in ns);
      var g := Without(Value(), set n | n in ns);
      nodes, edges, weight := g.nodes, g.edges, g.weight;
    }
  }
}
