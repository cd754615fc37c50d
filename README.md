# A verified model of the de Bruijn assembly engine

This project models the assembly engine of `debruijn/debruijn.py` in Dafny
and proves properties of that model. The engine is a small de Bruijn graph
assembler. It works in five steps:

1. It cuts reads into k-mers and counts them (`cut_kmer`, `build_kmer_dict`).
2. It builds a directed graph with one edge per k-mer, from the k-mer's
   (k-1)-prefix to its (k-1)-suffix, weighted by the k-mer's count
   (`build_graph`).
3. It finds the entry nodes and the sink nodes (`get_starting_nodes`,
   `get_sink_nodes`).
4. It simplifies the graph in place:
   - it scores competing paths by mean edge weight (`path_average_weight`);
   - it keeps one path and deletes the others (`select_best_path`,
     `remove_paths`);
   - it does this for bubbles (`solve_bubble`, `simplify_bubbles`) and for tips
     at the entries and sinks (`solve_entry_tips`, `solve_out_tips`).
5. It spells every path from an entry to a sink as a contig (`get_contigs`).

The modules follow those steps:

- `SeqUtil` (sequtil.dfy): `Option` and sequence filtering.
- `Kmers` (kmers.dfy): the k-mer windows of a read and the counting loop over
  reads held in memory.
- `Digraphs` (digraph.dfy):
  - the graph as a value (`Digraph`: nodes in insertion order, edges in
    first-insertion order, a weight per edge);
  - the class `Graph`, whose methods update it in place as networkx's
    `add_edge`, `remove_node` and `remove_nodes_from` do;
  - `Pruned`, the frame condition "some nodes and their edges were deleted,
    nothing else changed".
- `GraphBuild` (build.dfy): `build_graph`, and the one-to-one correspondence
  between k-mers and edges.
- `Topology` (topology.dfy): entries and sinks.
- `PathMetrics` (metrics.dfy): the weight loop of `path_average_weight`.
- `Selection` (selection.dfy):
  - `remove_paths`;
  - the filters and tie-break of `select_best_path`;
  - the code as written, in which every tie raises.
- `Traversal` (traversal.dfy): the networkx queries the engine calls, as
  function parameters with the properties the engine relies on.
- `Scoring` (scoring.dfy): the loop that lists paths with their lengths and
  mean weights.
- `Bubbles` (bubbles.dfy): `solve_bubble` and `simplify_bubbles`. The scan
  collects every (ancestor, node) span before the graph changes.
- `Tips` (tips.dfy): `solve_entry_tips` and `solve_out_tips`, as one procedure
  parameterised by the side.
- `Contigs` (contigs.dfy): `get_contigs`.

The loops that build lists or change the graph (the counting loop, the
`add_edge` loop, the topology scans, the weight loop, the loops of
`remove_paths`, `select_best_path`, the scoring loops, the scans of
`simplify_bubbles` and the tip solvers, and the loop nest of `get_contigs`)
are Dafny methods with loop invariants. Each is proved equal to a
specification function: a fold over the prefix its loop has consumed. The
properties are proved about those functions. The window generator of
`cut_kmer` is a sequence comprehension, and the `max(...)` scans are
functions.

Raising is modelled as a result:

- A step that mutates the graph returns an `Outcome`: the graph as the step
  leaves it, and a flag that is false when the step raised.
- When a step raises part-way, the deletions made before the raise are kept.
- A query that raises returns `None`.
- Raises that are modelled:
  - `remove_node` on a node that is already gone;
  - `all_simple_paths`, `descendants` and `ancestors` from a node that is not
    in the graph;
  - `solve_bubble` called with no ancestor, when `lowest_common_ancestor`
    found none;
  - `get_contigs` meeting an empty node once the contig is non-empty.

Two behaviours of the source follow from the model:

- The tip solvers never reset their running path list. A path rejected in one
  round has already lost its tip, and it is listed again in the next round.
  Unless it wins that round, deleting its tip a second time raises
  (`Tips.RejectedTipRaisesNextRound`).
- `remove_paths` deletes every interior node of a losing path, even one the
  winner shares. So the winner is only proved to survive when no node of it is
  doomed (`Selection.WinnerSurvives`). A direct edge a -> d that loses a bubble
  has no interior, so it stays (`Bubbles.BubbleEndsSurvive`).

The model follows `debruijn.py` as written:

- Entries and sinks are lists in node order.
- The losing paths' interiors are deleted even when they are shared with the
  winner.
- One exception is the tie-break at `debruijn/debruijn.py:255`, which raises on
  every tie (see "## Findings"). `SelectAsWritten` models that line as written.
  `select_best_path` and every caller of it (`solve_bubble`, the tip solvers)
  use the intended tie-break `Select`, which keeps one tied path. So the facts
  proved about those callers, for instance that a bubble step from a node of
  the graph never raises, hold for the corrected selection.

## Model

| member | source | states |
|---|---|---|
| `Kmers.CutKmer` | debruijn/debruijn.py:75-80 | a read of length n gives max(0, n - k + 1) windows, none when it is shorter than k |
| `Kmers.KmersHaveLengthK` | debruijn/debruijn.py:79-80 | every window cut from a read has length k |
| `Kmers.AllKmersLength` | debruijn/debruijn.py:92-93 | there is one occurrence per (read, start position) pair, so the sum over the reads of max(0, n - k + 1) |
| `Kmers.FirstOccurrencesDistinct` | debruijn/debruijn.py:94-97 | the dictionary lists each k-mer once, in order of first sighting |
| `Kmers.TallyStep` | debruijn/debruijn.py:94-97 | one counting step keeps the counts equal to the occurrence multiplicities and their sum equal to the number of occurrences |
| `Kmers.BuildKmerDict` | debruijn/debruijn.py:83-99 | every key has length k; each key's count is its number of (read, position) occurrences; keys are in first-sighting order; the counts sum to the total number of windows |
| `Digraphs.WithEdge` | debruijn/debruijn.py:110 | `add_edge` adds the missing endpoints and the edge if new, and (re)sets its weight, leaving every other edge and weight alone |
| `Digraphs.Without` | debruijn/debruijn.py:215-219 | deleting nodes deletes exactly those nodes and the edges touching them; other weights are unchanged |
| `Digraphs.WithoutWithout` | debruijn/debruijn.py:214-219 | deleting node sets one after the other equals deleting their union at once |
| `Digraphs.WithoutPruned` | debruijn/debruijn.py:215-219 | node deletion on a well-formed graph only prunes it |
| `Digraphs.Preds` | debruijn/debruijn.py:121 | `predecessors(v)` lists exactly the u with an edge u -> v |
| `Digraphs.Succs` | debruijn/debruijn.py:134 | `successors(u)` lists exactly the v with an edge u -> v |
| `Digraphs.Graph.constructor` | debruijn/debruijn.py:107 | a new graph has no nodes and no edges |
| `Digraphs.Graph.AddEdge` | debruijn/debruijn.py:110 | the graph object becomes `WithEdge` of its old value and stays well formed |
| `Digraphs.Graph.RemoveNode` | debruijn/debruijn.py:217 | a present node is deleted with its edges; a missing one raises and nothing changes |
| `Digraphs.Graph.RemoveNodesFrom` | debruijn/debruijn.py:215 | the listed nodes that are present are deleted, and missing ones are skipped |
| `GraphBuild.BuildGraph` | debruijn/debruijn.py:102-112 | the graph is the result of one `add_edge(K[:-1], K[1:], count)` per k-mer, in dictionary order |
| `GraphBuild.PrefixSuffixDetermine` | debruijn/debruijn.py:110 | a k-mer of length 2 or more is determined by its prefix and suffix |
| `GraphBuild.EdgesOfDistinctKmers` | debruijn/debruijn.py:109-110 | distinct k-mers of length 2 or more give distinct edges |
| `GraphBuild.BuiltEdgeWeights` | debruijn/debruijn.py:109-110 | each k-mer K of length 2 or more gives the edge K[:-1] -> K[1:], weighted by K's count |
| `GraphBuild.BuiltEdgesComeFromKmers` | debruijn/debruijn.py:109-110 | every edge of the graph is the edge of some k-mer |
| `GraphBuild.BuiltNodes` | debruijn/debruijn.py:109-110 | the nodes are exactly the prefixes and suffixes of the k-mers |
| `GraphBuild.BuiltEdgeCount` | debruijn/debruijn.py:109-110 | distinct k-mers of length 2 or more give exactly as many edges as k-mers |
| `GraphBuild.BuiltNodeLength` | debruijn/debruijn.py:110 | with k-mers of length k >= 1, every node has length k - 1 |
| `GraphBuild.BuiltWellFormed` | debruijn/debruijn.py:107-110 | the built graph lists nodes and edges once each, and every edge joins two nodes |
| `Topology.GetStartingNodes` | debruijn/debruijn.py:115-124 | returns, in node order and once each, exactly the nodes with no incoming edge; the graph is unchanged |
| `Topology.GetSinkNodes` | debruijn/debruijn.py:127-137 | returns, in node order and once each, exactly the nodes with no outgoing edge; the graph is unchanged |
| `PathMetrics.PathAverageWeight` | debruijn/debruijn.py:191-202 | the result is the sum of the consecutive edge weights divided by the number of edges |
| `PathMetrics.PathWeightWithin` | debruijn/debruijn.py:197-200 | with every edge weight in [lo, hi], the summed weight lies between lo and hi times the edge count |
| `PathMetrics.MeanWeightWithin` | debruijn/debruijn.py:197-202 | with every edge weight in [lo, hi], the mean weight lies in [lo, hi] |
| `Selection.Interior` | debruijn/debruijn.py:215 | `path[1:-1]` holds exactly the nodes at positions strictly between the ends |
| `Selection.RemoveOneFrame` | debruijn/debruijn.py:215-219 | one path removal keeps the graph well formed and only prunes it; it spares every node it was not asked to delete; when it goes through, exactly the requested nodes are gone; without endpoint deletion it cannot raise |
| `Selection.RemoveAllFrame` | debruijn/debruijn.py:214-221 | `remove_paths` only prunes; nodes that are not doomed survive; when nothing raises, exactly the doomed nodes are gone; without endpoint deletion nothing raises |
| `Selection.EndGoneRaises` | debruijn/debruijn.py:214-219 | a listed path whose entry (or sink) to delete is already missing makes `remove_paths` raise |
| `Selection.DoomedHasEnds` | debruijn/debruijn.py:216-219 | the requested endpoints of every listed non-empty path are among the doomed nodes |
| `Selection.DoomedInteriors` | debruijn/debruijn.py:215 | without endpoint deletion, every doomed node is an interior node of a listed path |
| `Selection.RemovePath` | debruijn/debruijn.py:215-219 | one iteration of the removal loop on the graph object, equal to the specification `RemoveOne` |
| `Selection.RemovePaths` | debruijn/debruijn.py:205-221 | the removal loop on the graph object: the outcome equals `RemoveAll` of the old graph, including where it raises |
| `Selection.MaxWeight` | debruijn/debruijn.py:239 | `max(path_weight)` bounds every weight and is attained by some row |
| `Selection.MaxLength` | debruijn/debruijn.py:249 | `max(length_wmax)` bounds every length and is attained by some row |
| `Selection.WithWeight` | debruijn/debruijn.py:238-242 | the kept rows are exactly the rows of the given weight |
| `Selection.WithLength` | debruijn/debruijn.py:248-252 | the kept rows are exactly the rows of the given length |
| `Selection.PopUntilOne` | debruijn/debruijn.py:254-255 | popping ends with one path that was in the list, when the list was not empty |
| `Selection.Others` | debruijn/debruijn.py:259-261 | `wrong_paths` holds exactly the listed paths that are not kept |
| `Selection.KeepHeaviest` | debruijn/debruijn.py:238-242 | the first loop keeps the rows of maximum weight, in order |
| `Selection.KeepLongest` | debruijn/debruijn.py:248-252 | the second loop keeps the rows of maximum length, in order |
| `Selection.BreakTie` | debruijn/debruijn.py:254-255 | the pop loop ends with the list the tie-break specification gives |
| `Selection.WrongPaths` | debruijn/debruijn.py:257-261 | the last loop collects every listed path that was not kept |
| `Selection.SelectBestPath` | debruijn/debruijn.py:224-265 | the graph object ends as `Select` leaves it: every rejected path is handed to `remove_paths` |
| `Selection.KeptIsOne` | debruijn/debruijn.py:238-255 | a non-empty candidate list keeps exactly one path |
| `Selection.WinnerIsBest` | debruijn/debruijn.py:238-255 | a non-empty list keeps exactly one path, the path of a row (whose index it returns) of maximum weight and of maximum length among the rows of that weight |
| `Selection.RejectedAreTheOthers` | debruijn/debruijn.py:257-261 | the rejected paths are exactly the listed paths other than the kept one |
| `Selection.RejectedListed` | debruijn/debruijn.py:259-261 | only listed paths are rejected |
| `Selection.StillRejected` | debruijn/debruijn.py:257-261 | after rows are appended, a rejected path is rejected again unless it is now the kept one |
| `Selection.RejectedAgainRaises` | debruijn/debruijn.py:257-263 | with endpoint deletion, a path rejected again on the graph its first rejection left makes the second selection raise |
| `Selection.EmptySelectionKeepsGraph` | debruijn/debruijn.py:238-263 | an empty candidate list leaves the graph unchanged and does not raise |
| `Selection.WinnerSurvives` | debruijn/debruijn.py:257-263 | if no node of the kept path is doomed, the kept path survives with all its nodes and edges |
| `Selection.TieRaisesAsWritten` | debruijn/debruijn.py:254-255 | two different paths tied on maximum weight and length make the code as written raise with the graph untouched, while the corrected selection keeps one and goes through |
| `Selection.TieSurvivesFilters` | debruijn/debruijn.py:238-252 | two rows tied at the top both pass the weight and length filters |
| `Scoring.AppendScored` | debruijn/debruijn.py:279-282 | each path found is appended with its node count and its mean weight, in order |
| `Scoring.ScoredRows` | debruijn/debruijn.py:279-282 | there is one row per path, holding the path, its node count and its mean weight |
| `Scoring.ScoredWinner` | debruijn/debruijn.py:279-284 | selecting among scored paths keeps a listed path whose mean weight is at least every listed path's, and which is no shorter than any listed path of equal mean weight |
| `Bubbles.SolveBubble` | debruijn/debruijn.py:268-286 | the graph object ends as `BubbleStep` leaves it: selection without endpoint deletion among all simple paths from a to d, scored in order; a missing a raises |
| `Bubbles.BubbleKeepsHeaviest` | debruijn/debruijn.py:279-284 | when every simple path is listed, the path a bubble keeps is a simple path from a to d whose mean weight is at least every simple a -> d path's, and no shorter than any of equal mean weight |
| `Bubbles.BubbleStepDeletesInteriors` | debruijn/debruijn.py:279-284 | from a node of the graph a bubble step never raises, and deletes exactly the interiors of the rejected paths |
| `Bubbles.BubbleStepPrunes` | debruijn/debruijn.py:268-286 | a bubble step only prunes the graph |
| `Bubbles.BubbleEndsSurvive` | debruijn/debruijn.py:279-284 | the two ends of a bubble survive with every edge between them, including a losing direct edge |
| `Bubbles.RejectedFound` | debruijn/debruijn.py:279-284 | the paths a bubble step rejects are among the paths found from a to d |
| `Bubbles.AncestorReaches` | debruijn/debruijn.py:299-301 | the common ancestor of a node's first two predecessors reaches that node |
| `Bubbles.SpansSound` | debruijn/debruijn.py:296-302 | every collected span ends at a scanned node with two or more predecessors, and its ancestor, when found, reaches that node |
| `Bubbles.SpansComplete` | debruijn/debruijn.py:298-302 | every scanned node with two or more predecessors gets a span |
| `Bubbles.CollectSpans` | debruijn/debruijn.py:296-302 | the scan collects the spans before any deletion |
| `Bubbles.SolveSpansPrunes` | debruijn/debruijn.py:304-305 | solving the collected spans in order only prunes the graph |
| `Bubbles.SimplifyBubbles` | debruijn/debruijn.py:289-307 | the graph object ends as solving, in order, the spans collected from the graph as it was at the start; a span without an ancestor raises |
| `Tips.CollectFacts` | debruijn/debruijn.py:319-321 | the junction list stays free of repeats and gains exactly the listed nodes of degree two or more |
| `Tips.JunctionsFacts` | debruijn/debruijn.py:318-321 | with every tip a node, the first phase lists once each exactly the nodes of in-degree (entries) or out-degree (sinks) two or more that lie beyond some tip |
| `Tips.FindJunctions` | debruijn/debruijn.py:316-321 | the first loop equals `Junctions`, which raises when a tip is not a node |
| `Tips.Between` | debruijn/debruijn.py:329 | the paths listed from tip to junction (entries) or junction to tip (sinks) are walks of two or more nodes |
| `Tips.GatherPaths` | debruijn/debruijn.py:327-331 | one tip's paths to or from every junction are appended to the running lists; it raises when a source is missing |
| `Tips.RoundsAccumulate` | debruijn/debruijn.py:323-334 | the running list only grows from round to round |
| `Tips.GatherGrows` | debruijn/debruijn.py:327-331 | gathering only appends to the running list |
| `Tips.RoundsPrune` | debruijn/debruijn.py:327-334 | the rounds only prune the graph, whether or not one raises |
| `Tips.TipsPrune` | debruijn/debruijn.py:310-336 | a tip solver only prunes the graph |
| `Tips.NextRound` | debruijn/debruijn.py:327-334 | a round that goes through selects, on the graph the earlier rounds left, among a longer running list |
| `Tips.RejectedTipRaisesNextRound` | debruijn/debruijn.py:327-334 | a path rejected in one round is either the next round's winner or makes the next round raise |
| `Tips.RunRounds` | debruijn/debruijn.py:323-334 | the second phase on the graph object equals `Rounds`, with one selection per tip on the cumulative list |
| `Tips.SolveTips` | debruijn/debruijn.py:310-336 | both phases on the graph object equal `SolveTipsSpec` |
| `Tips.SolveEntryTips` | debruijn/debruijn.py:310-336 | `solve_entry_tips` uses `descendants`, in-degree and entry deletion |
| `Tips.SolveOutTips` | debruijn/debruijn.py:339-365 | `solve_out_tips` uses `ancestors`, out-degree and sink deletion |
| `Contigs.SpellShape` | debruijn/debruijn.py:151-157 | a path of non-empty nodes spells its first node followed by the last character of each later node, so |p[0]| + |p| - 1 characters |
| `Contigs.SpellWindows` | debruijn/debruijn.py:151-157 | the overlapping windows of length m >= 1 of a string spell the string back |
| `Contigs.SpellAllSucceeds` | debruijn/debruijn.py:150-158 | spelling a path list fails exactly when one of its paths fails |
| `Contigs.SpellAllRows` | debruijn/debruijn.py:150-158 | one contig per path, in order, each paired with its own length |
| `Contigs.ContigsAreSpellings` | debruijn/debruijn.py:148-158 | the contigs are the spellings of the paths found, entry by entry and sink by sink |
| `Contigs.FoundPathsFacts` | debruijn/debruijn.py:148-150 | with every entry a node, the paths visited are exactly those listed between some entry and some sink |
| `Contigs.FoundPathNodes` | debruijn/debruijn.py:150 | a listed path has two or more nodes, none of them empty |
| `Contigs.ContigsSucceed` | debruijn/debruijn.py:148-158 | on a well-formed graph without empty nodes, `get_contigs` does not raise; it yields one contig per found path, whose length field equals its string's length, \|first node\| + \|path\| - 1 |
| `Contigs.SpellPath` | debruijn/debruijn.py:151-157 | the spelling loop equals `Spell`: the first non-empty node, then the last character of each later node; an empty node after that raises |
| `Contigs.SpellPaths` | debruijn/debruijn.py:150-158 | the loop over one path list equals `SpellAll` |
| `Contigs.ContigsFromEntry` | debruijn/debruijn.py:149-158 | the loop over the sinks for one entry equals `ContigsFrom` |
| `Contigs.GetContigs` | debruijn/debruijn.py:140-160 | the whole loop nest equals `ContigsOf` |

## Left out

- Reading FASTQ files (`read_fastq`), writing contigs (`save_contigs`, `fill`), argument parsing (`get_arguments`, `isfile`) and `main`: these are I/O and orchestration. `build_kmer_dict` takes its reads as a sequence of strings.
- `std`: floating-point standard deviation, never called.
- Every `print`, `random.seed` and the plotting import.
- `debruijn/TEST.py` is not part of this model.
- networkx's `all_simple_paths`, `descendants`, `ancestors` and `lowest_common_ancestor` are function parameters, not implementations.
  - Their properties are stated as predicates: found paths are simple walks from the source that end at the target when the target is a node; reach lists exactly the nodes beyond; the ancestor equals or reaches each of the two nodes.
  - The order they list results in is left open.
  - What `all_simple_paths` yields for a target that is not a node is left open beyond that soundness.
- Mean weights are exact rationals (`real`), not floating point, so two weights tie exactly when their exact values are equal.
- The random tie-break is an injected function `choose`: the popped index is `choose(list) % len(list)`.
- `GraphBuild.BuildGraph`: takes the weights from its argument, not from the module-level dictionary that `build_kmer_dict` also fills; `main` passes that same dictionary, so the two agree.
- `Kmers.BuildKmerDict`: returns the dictionary as a value and does not model the module-level global it also sets.
- `Selection.SelectBestPath`: requires the three parallel lists to have the same length. A shorter length or weight list would raise an IndexError in the source, and that raise is not modelled.
- `Selection.SelectBestPath`: the lists `weight_wmax`, `weight_lmax` and `length_lmax` are built and never read, so they are not modelled.
- `PathMetrics.PathAverageWeight`: requires two or more nodes joined by edges. The ZeroDivisionError of a one-node path and the KeyError of a missing edge are not modelled, since every caller passes paths found in the graph.
- `Selection.SelectBestPath`, `Bubbles.SolveBubble`, `Tips.SolveTips`: break ties with the intended pick `Select`. The AttributeError that `debruijn/debruijn.py:255` raises on every tie is modelled only in `Selection.SelectAsWritten` (see "## Findings").
- `Traversal.PathsSound` assumes that `all_simple_paths` lists only paths of two or more nodes, so `all_simple_paths(G, s, s)` lists none. That is what networkx releases that yield no path from a node to itself do; a release that yields `[s]` would add, for each node that is both an entry and a sink, a contig equal to that node, and the model does not cover it.
- `Bubbles.SimplifyBubbles`: requires an acyclic graph. It does not model the raise networkx's `lowest_common_ancestor` gives on a cyclic graph.
- `Topology.GetStartingNodes`, `Topology.GetSinkNodes` and the other methods on the graph object require `Valid()`, the well-formedness every graph built by the model keeps.

## Findings

| source | as written | input that shows it | evidently intended | confidence | as-written member | corrected member |
|---|---|---|---|---|---|---|
| debruijn/debruijn.py:255 | the tie-break looks up `randint` in the `statistics` module, which has no such function, so the attribute lookup raises before any pop | two different candidate paths with equal maximum mean weight and equal length, e.g. in a bubble of two parallel paths of three nodes whose edges all weigh 1 | pop one tied path at a random index until one is left, then remove the others | not executed; high | `Selection.SelectAsWritten`, `Selection.TieRaisesAsWritten` | `Selection.Select`, `Selection.WinnerIsBest` |
