/** `get_starting_nodes` and `get_sink_nodes`. */
module Topology {
  import opened SeqUtil
  import opened Digraphs

  /** The members of ns, in order, that have no predecessor in g. */
  function NoPredAmong(g: Digraph, ns: seq<Node>): seq<Node>
  {
    Filter(ns, n => Preds(g, n) == [])
  }

  /** The members of ns, in order, that have no successor in g. */
  function NoSuccAmong(g: Digraph, ns: seq<Node>): seq<Node>
  {
    Filter(ns, n => Succs(g, n) == [])
  }

  lemma NoPredAmongDistinct(g: Digraph, ns: seq<Node>)
    requires Distinct(ns)
    ensures Distinct(NoPredAmong(g, ns))
  {
    FilterDistinct(ns, n => Preds(g, n) == []);
  }

  lemma NoSuccAmongDistinct(g: Digraph, ns: seq<Node>)
    requires Distinct(ns)
    ensures Distinct(NoSuccAmong(g, ns))
  {
    FilterDistinct(ns, n => Succs(g, n) == []);
  }

  /**
   * `get_starting_nodes`: exactly the nodes with no predecessor, each once,
   * in node order. Reads the graph and changes nothing.
   */
  method GetStartingNodes(g: Graph) returns (starts: seq<Node>)
    requires g.Valid()
    ensures starts == NoPredAmong(g.Value(), g.nodes)
    ensures forall n :: n in starts <==> n in g.nodes && forall u :: (u, n) !in g.edges
    ensures Distinct(starts)
  {
    starts := [];
    for i := 0 to |g.nodes|
      invariant starts == NoPredAmong(g.Value(), g.nodes[..i])
    {
      assert g.nodes[..i + 1][..i] == g.nodes[..i];
      if |Preds(g.Value(), g.nodes[i])| == 0 {
        starts := starts + [g.nodes[i]];
      }
    }
    assert g.nodes[..|g.nodes|] == g.nodes;
    NoPredAmongDistinct(g.Value(), g.nodes);
    forall n ensures n in starts <==> n in g.nodes && forall u :: (u, n) !in g.edges {
      if n in g.nodes && Preds(g.Value(), n) != [] {
        assert Preds(g.Value(), n)[0] in Preds(g.Value(), n);
      }
    }
  }

  /**
   * `get_sink_nodes`: exactly the nodes with no successor, each once, in
   * node order. Reads the graph and changes nothing.
   */
  method GetSinkNodes(g: Graph) returns (sinks: seq<Node>)
    requires g.Valid()
    ensures sinks == NoSuccAmong(g.Value(), g.nodes)
    ensures forall n :: n in sinks <==> n in g.nodes && forall v :: (n, v) !in g.edges
    ensures Distinct(sinks)
  {
    sinks := [];
    for i := 0 to |g.nodes|
      invariant sinks == NoSuccAmong(g.Value(), g.nodes[..i])
    {
      assert g.nodes[..i + 1][..i] == g.nodes[..i];
      if |Succs(g.Value(), g.nodes[i])| == 0 {
        sinks := sinks + [g.nodes[i]];
      }
    }
    assert g.nodes[..|g.nodes|] == g.nodes;
    NoSuccAmongDistinct(g.Value(), g.nodes);
    forall n ensures n in sinks <==> n in g.nodes && forall v :: (n, v) !in g.edges {
      if n in g.nodes && Succs(g.Value(), n) != [] {
        assert Succs(g.Value(), n)[0] in Succs(g.Value(), n);
      }
    }
  }
}
