/**
 * K-mer slicing and counting: `cut_kmer` and the counting loop of
 * `build_kmer_dict`, over reads held in memory.
 */
module Kmers {
  import opened SeqUtil

  type Kmer = string

  /** How many k-windows a read of length n has: max(0, n - k + 1). */
  function WindowCount(n: nat, k: nat): nat
  {
    if n >= k then n - k + 1 else 0
  }

  /**
   * `cut_kmer`: the windows of length k of `s`, left to right, one per start
   * position 0 .. |s| - k. A read shorter than k has none; k = 0 gives |s| + 1
   * empty windows, as the slicing does.
   */
  function CutKmer(s: string, k: nat): (r: seq<Kmer>)
    ensures |r| == WindowCount(|s|, k)
  {
    seq(WindowCount(|s|, k), i requires 0 <= i < WindowCount(|s|, k) => s[i..i + k])
  }

  /** Every k-mer cut from a read has length k. */
  lemma KmersHaveLengthK(s: string, k: nat)
    ensures forall w :: w in CutKmer(s, k) ==> |w| == k
  {
    var r := CutKmer(s, k);
    forall w | w in r ensures |w| == k {
      var i :| 0 <= i < |r| && r[i] == w;
    }
  }

  /** All k-mer occurrences of the sequences: read by read, window by window. */
  function AllKmers(sequences: seq<string>, k: nat): seq<Kmer>
    decreases |sequences|
  {
    if sequences == [] then []
    else AllKmers(sequences[..|sequences| - 1], k) + CutKmer(sequences[|sequences| - 1], k)
  }

  /** The occurrences of the first i + 1 reads extend those of the first i. */
  lemma AllKmersSnoc(sequences: seq<string>, i: nat, k: nat)
    requires i < |sequences|
    ensures AllKmers(sequences[..i + 1], k) == AllKmers(sequences[..i], k) + CutKmer(sequences[i], k)
  {
    assert sequences[..i + 1][..i] == sequences[..i];
  }

  /** Every occurrence has length k. */
  lemma {:induction false} AllKmersHaveLengthK(sequences: seq<string>, k: nat)
    ensures forall w :: w in AllKmers(sequences, k) ==> |w| == k
    decreases |sequences|
  {
    if sequences != [] {
      AllKmersHaveLengthK(sequences[..|sequences| - 1], k);
      KmersHaveLengthK(sequences[|sequences| - 1], k);
    }
  }

  /** Sum over the sequences of max(0, |read| - k + 1). */
  function TotalWindows(sequences: seq<string>, k: nat): nat
    decreases |sequences|
  {
    if sequences == [] then 0
    else TotalWindows(sequences[..|sequences| - 1], k) + WindowCount(|sequences[|sequences| - 1]|, k)
  }

  /** There is one occurrence per (read, start position) pair. */
  lemma {:induction false} AllKmersLength(sequences: seq<string>, k: nat)
    ensures |AllKmers(sequences, k)| == TotalWindows(sequences, k)
    decreases |sequences|
  {
    if sequences != [] {
      AllKmersLength(sequences[..|sequences| - 1], k);
    }
  }

  /** Distinct occurrences in order of first appearance (a dict's key order). */
  function FirstOccurrences(s: seq<Kmer>): (r: seq<Kmer>)
    ensures forall w :: w in r <==> w in s
    decreases |s|
  {
    if s == [] then []
    else
      var init := FirstOccurrences(s[..|s| - 1]);
      assert forall w :: w in s <==> w in s[..|s| - 1] || w == s[|s| - 1];
      if s[|s| - 1] in init then init else init + [s[|s| - 1]]
  }

  /** Each key appears once in the insertion order. */
  lemma {:induction false} FirstOccurrencesDistinct(s: seq<Kmer>)
    ensures Distinct(FirstOccurrences(s))
    decreases |s|
  {
    if s != [] {
      FirstOccurrencesDistinct(s[..|s| - 1]);
    }
  }

  /**
   * The dictionary built by `build_kmer_dict`: its keys in insertion order
   * and the count of each key.
   */
  datatype KmerCounts = KmerCounts(order: seq<Kmer>, count: map<Kmer, nat>)
  {
    ghost predicate Valid()
    {
      Distinct(order) && forall w :: w in order <==> w in count
    }
  }

  /** Sum of the counts of a table. */
  ghost function SumCounts(m: map<Kmer, nat>): nat
    decreases |m|
  {
    if m == map[] then 0
    else
      var w :| w in m;
      m[w] + SumCounts(m - {w})
  }

  /** The sum does not depend on which key is taken out first. */
  lemma {:induction false} SumCountsRemove(m: map<Kmer, nat>, x: Kmer)
    requires x in m
    ensures SumCounts(m) == m[x] + SumCounts(m - {x})
    decreases |m|
  {
    var w :| w in m && SumCounts(m) == m[w] + SumCounts(m - {w});
    if w != x {
      assert |m - {w}| < |m| by { assert w in m; }
      SumCountsRemove(m - {w}, x);
      SumCountsRemove(m - {x}, w);
      assert (m - {w}) - {x} == (m - {x}) - {w};
    }
  }

  /** Counting one more occurrence adds one to the sum. */
  lemma SumCountsBump(m: map<Kmer, nat>, x: Kmer)
    ensures SumCounts(m[x := if x in m then m[x] + 1 else 1]) == SumCounts(m) + 1
  {
    var m' := m[x := if x in m then m[x] + 1 else 1];
    SumCountsRemove(m', x);
    assert m' - {x} == m - {x};
    if x in m {
      SumCountsRemove(m, x);
    } else {
      assert m - {x} == m;
    }
  }

  /**
   * `order` and `count` are the dictionary after counting the occurrences
   * `done`: keys in first-sighting order, each with its number of occurrences.
   */
  ghost predicate Tallies(order: seq<Kmer>, count: map<Kmer, nat>, done: seq<Kmer>)
  {
    && order == FirstOccurrences(done)
    && (forall w :: w in count <==> w in multiset(done))
    && (forall w :: w in count ==> count[w] == multiset(done)[w])
    && SumCounts(count) == |done|
  }

  /** One step of the counting loop keeps the table exact. */
  lemma TallyStep(order: seq<Kmer>, count: map<Kmer, nat>, done: seq<Kmer>, w: Kmer)
    requires Tallies(order, count, done)
    ensures Tallies(if w in count then order else order + [w],
                    count[w := if w in count then count[w] + 1 else 1], done + [w])
  {
    var done' := done + [w];
    var count' := count[w := if w in count then count[w] + 1 else 1];
    var order' := if w in count then order else order + [w];
    SumCountsBump(count, w);
    assert SumCounts(count') == |done'|;
    assert done'[..|done|] == done;
    assert order' == FirstOccurrences(done');
    assert multiset(done') == multiset(done) + multiset{w};
    forall x ensures x in count' <==> x in multiset(done') {}
    forall x | x in count' ensures count'[x] == multiset(done')[x] {}
  }

  /** The occurrences `done` followed by the first j windows of a read. */
  ghost function CountedSoFar(done: seq<Kmer>, windows: seq<Kmer>, j: nat): seq<Kmer>
    requires j <= |windows|
    decreases j
  {
    if j == 0 then done else CountedSoFar(done, windows, j - 1) + [windows[j - 1]]
  }

  lemma {:induction false} CountedSoFarAll(done: seq<Kmer>, windows: seq<Kmer>, j: nat)
    requires j <= |windows|
    ensures CountedSoFar(done, windows, j) == done + windows[..j]
    decreases j
  {
    if j > 0 {
      CountedSoFarAll(done, windows, j - 1);
      assert windows[..j] == windows[..j - 1] + [windows[j - 1]];
    }
  }

  /**
   * `build_kmer_dict` over in-memory reads: every k-mer of every read is
   * counted, a first sighting inserts the key with count 1, a later one adds 1.
   */
  method BuildKmerDict(sequences: seq<string>, k: nat) returns (dico: KmerCounts)
    ensures dico.Valid()
    ensures dico.order == FirstOccurrences(AllKmers(sequences, k))
    ensures forall w :: w in dico.count <==> w in multiset(AllKmers(sequences, k))
    ensures forall w :: w in dico.count ==> dico.count[w] == multiset(AllKmers(sequences, k))[w]
    ensures SumCounts(dico.count) == TotalWindows(sequences, k)
    ensures forall w :: w in dico.count ==> |w| == k
  {
    var order: seq<Kmer> := [];
    var count: map<Kmer, nat> := map[];
    for i := 0 to |sequences|
      invariant Tallies(order, count, AllKmers(sequences[..i], k))
    {
      var windows := CutKmer(sequences[i], k);
      ghost var done := AllKmers(sequences[..i], k);
      for j := 0 to |windows|
        invariant Tallies(order, count, CountedSoFar(done, windows, j))
      {
        var w := windows[j];
        TallyStep(order, count, CountedSoFar(done, windows, j), w);
        if w in count {
          count := count[w := count[w] + 1];
        } else {
          count := count[w := 1];
          order := order + [w];
        }
      }
      CountedSoFarAll(done, windows, |windows|);
      assert windows[..|windows|] == windows;
      AllKmersSnoc(sequences, i, k);
    }
    assert sequences[..|sequences|] == sequences;
    AllKmersLength(sequences, k);
    FirstOccurrencesDistinct(AllKmers(sequences, k));
    AllKmersHaveLengthK(sequences, k);
    dico := KmerCounts(order, count);
  }
}
