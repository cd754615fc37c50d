/** `get_contigs`: spelling every path from an entry to a sink as a contig. */
module Contigs {
  import opened SeqUtil
  import opened Digraphs
  import opened Kmers
  import opened Traversal

  /** A contig and its length, the tuple `(c, len(c))`. */
  type Contig = (string, int)

  /**
   * The string the loop `for kmer in l` builds: the first non-empty text is
   * taken whole (`c += kmer` while c is empty), every later node adds its
   * last character (`c += kmer[-1]`), and an empty later node raises.
   */
  function Spell(p: Path): Option<string>
    decreases |p|
  {
    if p == [] then Some("")
    else
      match Spell(p[..|p| - 1])
      case None => None
      case Some(c) =>
        var kmer := p[|p| - 1];
        if c == "" then Some(kmer)
        else if kmer == "" then None
        else Some(c + [kmer[|kmer| - 1]])
  }

  /**
   * A path of non-empty nodes spells its first node followed by the last
   * character of each later node, so the contig has |p[0]| + |p| - 1
   * characters.
   */
  lemma {:induction false} SpellShape(p: Path)
    requires p != [] && forall i :: 0 <= i < |p| ==> |p[i]| > 0
    ensures Spell(p).Some?
    ensures |Spell(p).value| == |p[0]| + |p| - 1
    ensures Spell(p).value[..|p[0]|] == p[0]
    ensures forall i :: 1 <= i < |p| ==> Spell(p).value[|p[0]| + i - 1] == p[i][|p[i]| - 1]
    decreases |p|
  {
    if |p| == 1 {
      assert p[..0] == [];
    } else {
      var init := p[..|p| - 1];
      assert forall i :: 0 <= i < |init| ==> init[i] == p[i];
      SpellShape(init);
      var c := Spell(init).value;
      assert c != "";
      var kmer := p[|p| - 1];
      var r := c + [kmer[|kmer| - 1]];
      assert Spell(p) == Some(r);
      assert r[..|p[0]|] == c[..|p[0]|];
      forall i | 1 <= i < |p| ensures r[|p[0]| + i - 1] == p[i][|p[i]| - 1] {
        if i < |p| - 1 {
          assert init[i] == p[i];
        }
      }
    }
  }

  /** Dropping the last character drops the last window. */
  lemma CutKmerInit(s: string, m: nat)
    requires 1 <= m < |s|
    ensures CutKmer(s, m) == CutKmer(s[..|s| - 1], m) + [s[|s| - m..]]
  {
    var w := CutKmer(s, m);
    var w' := CutKmer(s[..|s| - 1], m);
    var v := w' + [s[|s| - m..]];
    assert |w| == |v|;
    forall i | 0 <= i < |w| ensures w[i] == v[i] {
      if i < |w'| {
        assert v[i] == w'[i] == s[..|s| - 1][i..i + m];
      } else {
        assert v[i] == s[|s| - m..];
      }
    }
  }

  /** A later non-empty node adds its last character to a non-empty spelling. */
  lemma SpellSnoc(p: Path, c: string)
    requires p != [] && Spell(p[..|p| - 1]) == Some(c) && c != "" && p[|p| - 1] != ""
    ensures Spell(p) == Some(c + [p[|p| - 1][|p[|p| - 1]| - 1]])
  {
  }

  /** The overlapping windows of length m >= 1 of a string spell that string back. */
  lemma {:induction false} SpellWindows(s: string, m: nat)
    requires 1 <= m <= |s|
    ensures Spell(CutKmer(s, m)) == Some(s)
    decreases |s|
  {
    if |s| == m {
      assert CutKmer(s, m) == [s] by {
        assert CutKmer(s, m)[0] == s[0..m];
        assert s[0..m] == s;
      }
      assert [s][..0] == [];
    } else {
      var s' := s[..|s| - 1];
      var last := s[|s| - m..];
      assert |last| == m && last[|last| - 1] == s[|s| - 1];
      CutKmerInit(s, m);
      var w := CutKmer(s, m);
      var w' := CutKmer(s', m);
      assert w[..|w| - 1] == w' && w[|w| - 1] == last;
      SpellWindows(s', m);
      SpellSnoc(w, s');
      assert s' + [s[|s| - 1]] == s;
    }
  }

  /**
   * The innermost loop for a list of paths: each spelled path is appended,
   * with its length, to the contig list built so far.
   */
  function SpellAll(ps: seq<Path>, acc: seq<Contig>): Option<seq<Contig>>
    decreases |ps|
  {
    if ps == [] then Some(acc)
    else
      match SpellAll(ps[..|ps| - 1], acc)
      case None => None
      case Some(r) =>
        match Spell(ps[|ps| - 1])
        case None => None
        case Some(c) => Some(r + [(c, |c|)])
  }

  /** Spelling continues from an earlier result, or stays failed. */
  function Then(o: Option<seq<Contig>>, ps: seq<Path>): Option<seq<Contig>>
  {
    match o
    case None => None
    case Some(r) => SpellAll(ps, r)
  }

  /** Spelling two lists in a row is spelling their concatenation. */
  lemma {:induction false} SpellAllAppend(ps: seq<Path>, qs: seq<Path>, acc: seq<Contig>)
    ensures SpellAll(ps + qs, acc) == Then(SpellAll(ps, acc), qs)
    decreases |qs|
  {
    if qs == [] {
      assert ps + qs == ps;
    } else {
      var qs' := qs[..|qs| - 1];
      var q := qs[|qs| - 1];
      SpellAllAppend(ps, qs', acc);
      assert (ps + qs)[..|ps + qs| - 1] == ps + qs';
      assert (ps + qs)[|ps + qs| - 1] == q;
    }
  }

  /** Spelling a list fails exactly when some path of it fails to spell. */
  lemma {:induction false} SpellAllSucceeds(ps: seq<Path>, acc: seq<Contig>)
    ensures SpellAll(ps, acc).Some? <==> forall p :: p in ps ==> Spell(p).Some?
    decreases |ps|
  {
    if ps != [] {
      var init := ps[..|ps| - 1];
      SpellAllSucceeds(init, acc);
      assert forall p :: p in ps <==> p in init || p == ps[|ps| - 1];
      var last := ps[|ps| - 1];
      assert last in ps;
      if SpellAll(init, acc).None? {
        var p :| p in init && Spell(p).None?;
        assert p in ps;
      } else if Spell(last).None? {
        assert SpellAll(ps, acc).None?;
      } else {
        assert SpellAll(ps, acc).Some?;
      }
    }
  }

  /**
   * One contig per path, in order, after the earlier ones: each is the
   * spelling of its path paired with its own length.
   */
  lemma {:induction false} SpellAllRows(ps: seq<Path>, acc: seq<Contig>)
    requires SpellAll(ps, acc).Some?
    ensures var r := SpellAll(ps, acc).value;
      && |r| == |acc| + |ps| && acc <= r
      && forall i :: 0 <= i < |ps| ==> Spell(ps[i]) == Some(r[|acc| + i].0) && r[|acc| + i].1 == |r[|acc| + i].0|
    decreases |ps|
  {
    if ps != [] {
      var init := ps[..|ps| - 1];
      SpellAllRows(init, acc);
      var r := SpellAll(ps, acc).value;
      var r' := SpellAll(init, acc).value;
      assert r[..|r'|] == r';
      forall i | 0 <= i < |ps| ensures Spell(ps[i]) == Some(r[|acc| + i].0) && r[|acc| + i].1 == |r[|acc| + i].0| {
        if i < |init| {
          assert init[i] == ps[i];
          assert r[|acc| + i] == r'[|acc| + i];
        }
      }
    }
  }

  /**
   * The paths the loop `for j in sink` visits for one entry i, in order;
   * `all_simple_paths` raises when i is not a node.
   */
  function PathsFrom(g: Digraph, i: Node, sinks: seq<Node>, find: PathFinder): Option<seq<Path>>
    decreases |sinks|
  {
    if sinks == [] then Some([])
    else
      match PathsFrom(g, i, sinks[..|sinks| - 1], find)
      case None => None
      case Some(ps) => if i !in g.nodes then None else Some(ps + find(g, i, sinks[|sinks| - 1]))
  }

  /** The paths the whole loop nest visits, in order. */
  function FoundPaths(g: Digraph, starts: seq<Node>, sinks: seq<Node>, find: PathFinder): Option<seq<Path>>
    decreases |starts|
  {
    if starts == [] then Some([])
    else
      match FoundPaths(g, starts[..|starts| - 1], sinks, find)
      case None => None
      case Some(ps) =>
        match PathsFrom(g, starts[|starts| - 1], sinks, find)
        case None => None
        case Some(qs) => Some(ps + qs)
  }

  /** The contig list after the loop over the sinks, for one entry. */
  function ContigsFrom(g: Digraph, i: Node, sinks: seq<Node>, find: PathFinder, acc: seq<Contig>): Option<seq<Contig>>
    decreases |sinks|
  {
    if sinks == [] then Some(acc)
    else
      match ContigsFrom(g, i, sinks[..|sinks| - 1], find, acc)
      case None => None
      case Some(r) => if i !in g.nodes then None else SpellAll(find(g, i, sinks[|sinks| - 1]), r)
  }

  /** `get_contigs(tree, start, sink)`: None when it raises. */
  function ContigsOf(g: Digraph, starts: seq<Node>, sinks: seq<Node>, find: PathFinder): Option<seq<Contig>>
    decreases |starts|
  {
    if starts == [] then Some([])
    else
      match ContigsOf(g, starts[..|starts| - 1], sinks, find)
      case None => None
      case Some(r) => ContigsFrom(g, starts[|starts| - 1], sinks, find, r)
  }

  lemma {:induction false} ContigsFromSpells(g: Digraph, i: Node, sinks: seq<Node>, find: PathFinder, acc: seq<Contig>)
    ensures ContigsFrom(g, i, sinks, find, acc) ==
      match PathsFrom(g, i, sinks, find) case None => None case Some(ps) => SpellAll(ps, acc)
    decreases |sinks|
  {
    if sinks != [] {
      var init := sinks[..|sinks| - 1];
      ContigsFromSpells(g, i, init, find, acc);
      match PathsFrom(g, i, init, find)
      case None =>
      case Some(ps) =>
        if i in g.nodes {
          SpellAllAppend(ps, find(g, i, sinks[|sinks| - 1]), acc);
        }
    }
  }

  /**
   * The contigs are the spellings of the paths found between each entry and
   * each sink, in the order the loops visit them.
   */
  lemma {:induction false} ContigsAreSpellings(g: Digraph, starts: seq<Node>, sinks: seq<Node>, find: PathFinder)
    ensures ContigsOf(g, starts, sinks, find) ==
      match FoundPaths(g, starts, sinks, find) case None => None case Some(ps) => SpellAll(ps, [])
    decreases |starts|
  {
    if starts != [] {
      var init := starts[..|starts| - 1];
      var i := starts[|starts| - 1];
      ContigsAreSpellings(g, init, sinks, find);
      var found := FoundPaths(g, init, sinks, find);
      var from := PathsFrom(g, i, sinks, find);
      if found.Some? {
        var ps := found.value;
        if from.Some? {
          SpellAllAppend(ps, from.value, []);
        }
        if SpellAll(ps, []).Some? {
          ContigsFromSpells(g, i, sinks, find, SpellAll(ps, []).value);
        }
      }
    }
  }

  /**
   * When every entry is a node, the paths found are exactly those listed
   * between some entry and some sink.
   */
  lemma {:induction false} FoundPathsFacts(g: Digraph, starts: seq<Node>, sinks: seq<Node>, find: PathFinder)
    requires forall i :: i in starts ==> i in g.nodes
    ensures FoundPaths(g, starts, sinks, find).Some?
    ensures forall p :: p in FoundPaths(g, starts, sinks, find).value <==>
      exists i, j :: i in starts && j in sinks && p in find(g, i, j)
    decreases |starts|
  {
    if starts != [] {
      var init := starts[..|starts| - 1];
      var i := starts[|starts| - 1];
      assert forall u :: u in starts <==> u in init || u == i;
      FoundPathsFacts(g, init, sinks, find);
      PathsFromFacts(g, i, sinks, find);
    }
  }

  lemma {:induction false} PathsFromFacts(g: Digraph, i: Node, sinks: seq<Node>, find: PathFinder)
    requires i in g.nodes
    ensures PathsFrom(g, i, sinks, find).Some?
    ensures forall p :: p in PathsFrom(g, i, sinks, find).value <==> exists j :: j in sinks && p in find(g, i, j)
    decreases |sinks|
  {
    if sinks != [] {
      var init := sinks[..|sinks| - 1];
      assert forall u :: u in sinks <==> u in init || u == sinks[|sinks| - 1];
      PathsFromFacts(g, i, init, find);
    }
  }

  /** A listed path of a well-formed graph has two or more nodes, none of them empty. */
  lemma FoundPathNodes(g: Digraph, starts: seq<Node>, sinks: seq<Node>, find: PathFinder, p: Path)
    requires WellFormed(g) && PathsSound(find)
    requires forall n :: n in g.nodes ==> n != ""
    requires exists i, j :: i in starts && j in sinks && p in find(g, i, j)
    ensures |p| >= 2 && forall k :: 0 <= k < |p| ==> |p[k]| > 0
  {
    var i, j :| i in starts && j in sinks && p in find(g, i, j);
    forall k | 0 <= k < |p| ensures |p[k]| > 0 {
      if k < |p| - 1 {
        assert (p[k], p[k + 1]) in g.weight;
      } else {
        assert (p[k - 1], p[k]) in g.weight;
      }
    }
  }

  /**
   * On a well-formed graph with no empty node, with every entry a node,
   * `get_contigs` does not raise and yields one contig per found path: the
   * spelling of the path paired with its length, which is the length of
   * the first node plus one per further node.
   */
  lemma ContigsSucceed(g: Digraph, starts: seq<Node>, sinks: seq<Node>, find: PathFinder)
    requires WellFormed(g) && PathsSound(find)
    requires forall n :: n in g.nodes ==> n != ""
    requires forall i :: i in starts ==> i in g.nodes
    ensures FoundPaths(g, starts, sinks, find).Some? && ContigsOf(g, starts, sinks, find).Some?
    ensures var ps := FoundPaths(g, starts, sinks, find).value;
      var cs := ContigsOf(g, starts, sinks, find).value;
      |cs| == |ps| && forall k :: 0 <= k < |ps| ==>
        |ps[k]| >= 2 && Spell(ps[k]) == Some(cs[k].0) && cs[k].1 == |cs[k].0| == |ps[k][0]| + |ps[k]| - 1
  {
    ContigsAreSpellings(g, starts, sinks, find);
    FoundPathsFacts(g, starts, sinks, find);
    var ps := FoundPaths(g, starts, sinks, find).value;
    forall p | p in ps ensures Spell(p).Some? {
      FoundPathNodes(g, starts, sinks, find, p);
      SpellShape(p);
    }
    SpellAllSucceeds(ps, []);
    SpellAllRows(ps, []);
    forall k | 0 <= k < |ps| ensures |ps[k]| >= 2 && |Spell(ps[k]).value| == |ps[k][0]| + |ps[k]| - 1 {
      assert ps[k] in ps;
      FoundPathNodes(g, starts, sinks, find, ps[k]);
      SpellShape(ps[k]);
    }
  }

  /** The loop `for kmer in l` on one path. */
  method SpellPath(p: Path) returns (ok: bool, c: string)
    ensures Spell(p) == if ok then Some(c) else None
  {
    c := "";
    for k := 0 to |p|
      invariant Spell(p[..k]) == Some(c)
    {
      assert p[..k + 1][..k] == p[..k];
      var kmer := p[k];
      if c == "" {
        assert c + kmer == kmer;
        c := c + kmer;
      } else {
        if kmer == "" {
          SpellStops(p, k + 1);
          return false, c;
        }
        c := c + [kmer[|kmer| - 1]];
      }
    }
    assert p[..|p|] == p;
    ok := true;
  }

  lemma {:induction false} SpellStops(p: Path, k: nat)
    requires k <= |p| && Spell(p[..k]) == None
    ensures Spell(p) == None
    decreases |p| - k
  {
    if k < |p| {
      assert p[..k + 1][..k] == p[..k];
      SpellStops(p, k + 1);
    } else {
      assert p[..k] == p;
    }
  }

  lemma {:induction false} SpellAllStops(ps: seq<Path>, k: nat, acc: seq<Contig>)
    requires k <= |ps| && SpellAll(ps[..k], acc) == None
    ensures SpellAll(ps, acc) == None
    decreases |ps| - k
  {
    if k < |ps| {
      assert ps[..k + 1][..k] == ps[..k];
      SpellAllStops(ps, k + 1, acc);
    } else {
      assert ps[..k] == ps;
    }
  }

  lemma {:induction false} ContigsFromStops(g: Digraph, i: Node, sinks: seq<Node>, k: nat, find: PathFinder, acc: seq<Contig>)
    requires k <= |sinks| && ContigsFrom(g, i, sinks[..k], find, acc) == None
    ensures ContigsFrom(g, i, sinks, find, acc) == None
    decreases |sinks| - k
  {
    if k < |sinks| {
      assert sinks[..k + 1][..k] == sinks[..k];
      ContigsFromStops(g, i, sinks, k + 1, find, acc);
    } else {
      assert sinks[..k] == sinks;
    }
  }

  lemma {:induction false} ContigsOfStops(g: Digraph, starts: seq<Node>, k: nat, sinks: seq<Node>, find: PathFinder)
    requires k <= |starts| && ContigsOf(g, starts[..k], sinks, find) == None
    ensures ContigsOf(g, starts, sinks, find) == None
    decreases |starts| - k
  {
    if k < |starts| {
      assert starts[..k + 1][..k] == starts[..k];
      ContigsOfStops(g, starts, k + 1, sinks, find);
    } else {
      assert starts[..k] == starts;
    }
  }

  /** The loop over the paths between one entry and one sink. */
  method SpellPaths(ps: seq<Path>, acc: seq<Contig>) returns (ok: bool, contigs: seq<Contig>)
    ensures SpellAll(ps, acc) == if ok then Some(contigs) else None
  {
    contigs := acc;
    for k := 0 to |ps|
      invariant SpellAll(ps[..k], acc) == Some(contigs)
    {
      assert ps[..k + 1][..k] == ps[..k];
      var spelled, c := SpellPath(ps[k]);
      if !spelled {
        SpellAllStops(ps, k + 1, acc);
        return false, contigs;
      }
      contigs := contigs + [(c, |c|)];
    }
    assert ps[..|ps|] == ps;
    ok := true;
  }

  /** The loop over the sinks for one entry. */
  method ContigsFromEntry(g: Graph, i: Node, sinks: seq<Node>, find: PathFinder, acc: seq<Contig>)
    returns (ok: bool, contigs: seq<Contig>)
    ensures ContigsFrom(g.Value(), i, sinks, find, acc) == if ok then Some(contigs) else None
  {
    contigs := acc;
    for k := 0 to |sinks|
      invariant ContigsFrom(g.Value(), i, sinks[..k], find, acc) == Some(contigs)
    {
      assert sinks[..k + 1][..k] == sinks[..k];
      if i !in g.nodes {
        ContigsFromStops(g.Value(), i, sinks, k + 1, find, acc);
        return false, contigs;
      }
      ok, contigs := SpellPaths(find(g.Value(), i, sinks[k]), contigs);
      if !ok {
        ContigsFromStops(g.Value(), i, sinks, k + 1, find, acc);
        return;
      }
    }
    assert sinks[..|sinks|] == sinks;
    ok := true;
  }

  /** `get_contigs(tree, start, sink)`; it reads the graph and changes nothing. */
  method GetContigs(g: Graph, starts: seq<Node>, sinks: seq<Node>, find: PathFinder) returns (ok: bool, contigs: seq<Contig>)
    ensures ContigsOf(g.Value(), starts, sinks, find) == if ok then Some(contigs) else None
  {
    contigs := [];
    for k := 0 to |starts|
      invariant ContigsOf(g.Value(), starts[..k], sinks, find) == Some(contigs)
    {
      assert starts[..k + 1][..k] == starts[..k];
      ok, contigs := ContigsFromEntry(g, starts[k], sinks, find, contigs);
      if !ok {
        ContigsOfStops(g.Value(), starts, k + 1, sinks, find);
        return;
      }
    }
    assert starts[..|starts|] == starts;
    ok := true;
  }
}
