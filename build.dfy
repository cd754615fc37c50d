/** `build_graph`: one edge per k-mer, from its prefix to its suffix. */
module GraphBuild {
  import opened SeqUtil
  import opened Kmers
  import opened Digraphs

  /** `K[:-1]`: all but the last symbol (empty for an empty k-mer). */
  function Prefix(K: Kmer): Node
  {
    if |K| == 0 then [] else K[..|K| - 1]
  }

  /** `K[1:]`: all but the first symbol (empty for an empty k-mer). */
  function Suffix(K: Kmer): Node
  {
    if |K| == 0 then [] else K[1..]
  }

  /** A k-mer of length at least 2 is its prefix followed by the last symbol of its suffix. */
  lemma PrefixSuffixDetermine(K1: Kmer, K2: Kmer)
    requires |K1| >= 2 && |K2| >= 2
    requires Prefix(K1) == Prefix(K2) && Suffix(K1) == Suffix(K2)
    ensures K1 == K2
  {
    assert K1 == Prefix(K1) + [Suffix(K1)[|Suffix(K1)| - 1]];
    assert K2 == Prefix(K2) + [Suffix(K2)[|Suffix(K2)| - 1]];
  }

  /** The graph after adding, in dictionary order, the edge of each k-mer of `order`. */
  function Built(order: seq<Kmer>, count: map<Kmer, nat>): (g: Digraph)
    requires forall K :: K in order ==> K in count
    decreases |order|
  {
    if order == [] then Digraph([], [], map[])
    else
      var K := order[|order| - 1];
      WithEdge(Built(order[..|order| - 1], count), Prefix(K), Suffix(K), count[K])
  }

  /**
   * `build_graph(dic)`: for each k-mer K of the dictionary, in its order, adds
   * the edge K[:-1] -> K[1:] with K's count as weight.
   */
  method BuildGraph(dic: KmerCounts) returns (g: Graph)
    requires dic.Valid()
    ensures fresh(g) && g.Valid()
    ensures g.Value() == Built(dic.order, dic.count)
  {
    g := new Graph();
    for i := 0 to |dic.order|
      invariant g.Valid()
      invariant g.Value() == Built(dic.order[..i], dic.count)
    {
      var K := dic.order[i];
      BuiltSnoc(dic.order, dic.count, i);
      g.AddEdge(Prefix(K), Suffix(K), dic.count[K]);
    }
    assert dic.order[..|dic.order|] == dic.order;
  }

  /** Distinct k-mers of length 2 or more give distinct edges. */
  lemma EdgesOfDistinctKmers(order: seq<Kmer>)
    requires Distinct(order)
    requires forall K :: K in order ==> |K| >= 2
    ensures forall i, j :: 0 <= i < j < |order| ==>
              (Prefix(order[i]), Suffix(order[i])) != (Prefix(order[j]), Suffix(order[j]))
  {
    forall i, j | 0 <= i < j < |order|
      ensures (Prefix(order[i]), Suffix(order[i])) != (Prefix(order[j]), Suffix(order[j]))
    {
      if (Prefix(order[i]), Suffix(order[i])) == (Prefix(order[j]), Suffix(order[j])) {
        PrefixSuffixDetermine(order[i], order[j]);
      }
    }
  }

  /** Adding the edges of one more k-mer is one more `add_edge`. */
  lemma BuiltSnoc(order: seq<Kmer>, count: map<Kmer, nat>, i: nat)
    requires i < |order| && forall K :: K in order ==> K in count
    ensures forall K :: K in order[..i] ==> K in count
    ensures Built(order[..i + 1], count) == WithEdge(Built(order[..i], count), Prefix(order[i]), Suffix(order[i]), count[order[i]])
  {
    assert order[..i + 1][..i] == order[..i];
    assert forall K :: K in order[..i] ==> K in order;
  }

  /**
   * Each k-mer K of the dictionary gives the edge K[:-1] -> K[1:] weighted by
   * K's count (k-mers of length 2 or more, so that no two share an edge).
   */
  lemma {:induction false} BuiltEdgeWeights(order: seq<Kmer>, count: map<Kmer, nat>)
    requires forall K :: K in order ==> K in count && |K| >= 2
    ensures forall K :: K in order ==>
              (Prefix(K), Suffix(K)) in Built(order, count).weight &&
              Built(order, count).weight[(Prefix(K), Suffix(K))] == count[K]
    decreases |order|
  {
    if order != [] {
      var init := order[..|order| - 1];
      var K := order[|order| - 1];
      assert order == init + [K];
      BuiltEdgeWeights(init, count);
      var g0 := Built(init, count);
      assert Built(order, count) == WithEdge(g0, Prefix(K), Suffix(K), count[K]);
      forall K' | K' in order
        ensures (Prefix(K'), Suffix(K')) in Built(order, count).weight
        ensures Built(order, count).weight[(Prefix(K'), Suffix(K'))] == count[K']
      {
        if K' != K {
          assert K' in init;
          if EdgeOf(K') == EdgeOf(K) {
            PrefixSuffixDetermine(K', K);
            assert false;
          }
        }
      }
    }
  }

  /** n is the prefix or the suffix of some k-mer of `order`. */
  ghost predicate IsAffix(order: seq<Kmer>, n: Node)
  {
    exists K :: K in order && (n == Prefix(K) || n == Suffix(K))
  }

  /** k-mer K's edge. */
  function EdgeOf(K: Kmer): Edge
  {
    (Prefix(K), Suffix(K))
  }

  /** e is the edge of some k-mer of `order`. */
  ghost predicate IsKmerEdge(order: seq<Kmer>, e: Edge)
  {
    exists K :: K in order && e == EdgeOf(K)
  }

  /** The built graph is well formed. */
  lemma {:induction false} BuiltWellFormed(order: seq<Kmer>, count: map<Kmer, nat>)
    requires forall K :: K in order ==> K in count
    ensures WellFormed(Built(order, count))
    decreases |order|
  {
    if order != [] {
      var K := order[|order| - 1];
      BuiltWellFormed(order[..|order| - 1], count);
      WithEdgeWellFormed(Built(order[..|order| - 1], count), Prefix(K), Suffix(K), count[K]);
    }
  }

  /** Every edge of the built graph is the edge of some k-mer of the dictionary. */
  lemma {:induction false} BuiltEdgesComeFromKmers(order: seq<Kmer>, count: map<Kmer, nat>)
    requires forall K :: K in order ==> K in count
    ensures forall e :: e in Built(order, count).edges ==> IsKmerEdge(order, e)
    decreases |order|
  {
    if order != [] {
      var init := order[..|order| - 1];
      var K := order[|order| - 1];
      BuiltEdgesComeFromKmers(init, count);
      var g0 := Built(init, count);
      assert Built(order, count) == WithEdge(g0, Prefix(K), Suffix(K), count[K]);
      forall e | e in Built(order, count).edges
        ensures IsKmerEdge(order, e)
      {
        if e != EdgeOf(K) {
          assert e in g0.edges;
          var K' :| K' in init && e == EdgeOf(K');
          assert K' in order;
        } else {
          assert K in order;
        }
      }
    }
  }

  /** The nodes of the built graph are exactly the prefixes and suffixes of the k-mers. */
  lemma {:induction false} BuiltNodes(order: seq<Kmer>, count: map<Kmer, nat>)
    requires forall K :: K in order ==> K in count
    ensures forall n :: n in Built(order, count).nodes <==> IsAffix(order, n)
    decreases |order|
  {
    if order != [] {
      var init := order[..|order| - 1];
      var K := order[|order| - 1];
      BuiltNodes(init, count);
      var g0 := Built(init, count);
      var g := Built(order, count);
      assert g == WithEdge(g0, Prefix(K), Suffix(K), count[K]);
      forall n ensures n in g.nodes <==> IsAffix(order, n)
      {
        if n in g.nodes {
          if n == Prefix(K) || n == Suffix(K) {
            assert K in order;
          } else {
            assert IsAffix(init, n);
            var K' :| K' in init && (n == Prefix(K') || n == Suffix(K'));
            assert K' in order;
          }
        }
        if IsAffix(order, n) {
          var K' :| K' in order && (n == Prefix(K') || n == Suffix(K'));
          if K' != K {
            assert K' in init;
            assert IsAffix(init, n);
          }
        }
      }
    }
  }

  /** Distinct k-mers of length 2 or more give as many edges as there are k-mers. */
  lemma {:induction false} BuiltEdgeCount(order: seq<Kmer>, count: map<Kmer, nat>)
    requires Distinct(order)
    requires forall K :: K in order ==> K in count && |K| >= 2
    ensures |Built(order, count).edges| == |order|
    decreases |order|
  {
    if order != [] {
      var init := order[..|order| - 1];
      var K := order[|order| - 1];
      assert Distinct(init);
      BuiltEdgeCount(init, count);
      BuiltEdgesComeFromKmers(init, count);
      var g0 := Built(init, count);
      if EdgeOf(K) in g0.edges {
        var K' :| K' in init && EdgeOf(K) == EdgeOf(K');
        PrefixSuffixDetermine(K, K');
        assert false;
      }
    }
  }

  /** When every k-mer has length k >= 1, every node has length k - 1. */
  lemma {:induction false} BuiltNodeLength(order: seq<Kmer>, count: map<Kmer, nat>, k: nat)
    requires k >= 1
    requires forall K :: K in order ==> K in count && |K| == k
    ensures forall n :: n in Built(order, count).nodes ==> |n| == k - 1
    decreases |order|
  {
    if order != [] {
      BuiltNodeLength(order[..|order| - 1], count, k);
    }
  }
}
