# Attack simulation and BOSAM ordering, modelled in Dafny

This project models two parts of a network-robustness study.

The first is the percolation engine `AttackSimulator` in `attack_simulator.py`.
It copies a graph and records the node count and the giant (largest weakly
connected) component size. For a strategy, it ranks every node once, on the
unmodified copy. It then removes nodes batch by batch in that order. After each
batch it records three readings:

- the fraction of nodes removed;
- the giant component relative to the initial one;
- the number of weakly connected components.

The Erdős–Rényi edge probability used for the random baseline is modelled
alongside it.

The second is the node order of a BOSAM plot in `bosam_visualizer.py`. The
lines of an edge-list file are filtered into an undirected graph on string
ids. Each node is keyed by `(k, w, e)`:

- `k`: its degree;
- `w`: the largest degree among its neighbours;
- `e`: its largest neighbour id.

The nodes are then sorted stably by that key, ascending.

Modules, in dependency order:

- `Wrappers`: `Option`, `Result`, `Min`, `Max`.
- `Seqs`: distinctness, element sets, permutations (as multisets), filters.
- `Graphs`: a graph is a directed flag, the node order the library keeps (insertion order), and a set of edges. An undirected edge is stored in both orientations. The module defines degree, in-degree, `remove_nodes_from` and `add_edge`.
- `Components`: weakly connected components as least closed sets. It defines the giant size and the component count, and one scan that computes both.
- `Sorting`: a stable insertion sort for any strict weak order, proved to be a sorted, stable permutation.
- `Text`: Python's `str.isspace`, `strip()`, `split()`, `in` and the code-point order of strings.
- `Ranking`: strategy names, CPython's `random.shuffle`, the descending stable sorts, and the ranking of a strategy.
- `Attack`: the simulator, the batch loop (`Run`) with its invariants, `Simulate` with its error cases, and `SimulateDefaultSteps`, the call the driver makes with the default number of steps. `Expected` is the declarative description of the series the loop produces.
- `Progress`: what the returned series promise. `x` climbs strictly from 0 and stays at most 1. `gc` stays in [0, 1] and reaches 0 exactly with the last node. The run ends early only when nothing is left.
- `Baseline`: the edge probability, and its correction for directed graphs.
- `Bosam`: the line filter, graph building, node keys and the draw order.

Behaviour of the code worth noting:

- **Series lengths.** `frag` starts empty and gets the initial count appended before the loop (`attack_simulator.py:67-73`). So `x`, `gc` and `frag` always have the same length.
- **In-degree.** `indegree` on an undirected graph fails with `AttributeError`, because undirected graphs have no `in_degree`. The key is only evaluated when there is a node to sort, so an empty undirected graph is ranked without error.
- **`steps == 0`.** This fails with `ZeroDivisionError` at line 65, after the ranking has been computed. A negative `steps` gives a batch size of 1 and no rounds.
- **Batch size.** `int(N / steps)` truncates toward zero (`Attack.TruncDiv`), whereas `N // steps` rounds down. The two quotients differ for a negative `steps`, but both are then at most 0, so the batch size is `max(1, N // steps)` for every non-zero `steps` (`Attack.BatchSizeFloor`).
- **Defaults.** `simulate` attacks at random in 50 steps unless told otherwise. The driver passes only the strategy (lines 196 and 228), so it always runs 50 steps.
- **Error order.** An unknown strategy is reported first, then a missing in-degree, then a zero step count.
- **Stopping.** The check `gc_sz == 0` at line 102 succeeds exactly when every node has gone. So it never ends the loop before the `removed_count >= N` check would.
- **Baseline for directed graphs.** The edge probability formula at line 215 is also applied to directed graphs. See Findings.
- **BOSAM on a file without edges.** A graph without nodes gives an empty frame with no columns, and `sort_values(by=['k', 'w', 'e'])` raises `KeyError` (`bosam_visualizer.py:46-47`). `Bosam.BosamOrder` and `Bosam.DrawOrder` return `None` in exactly that case.

## Model

| member | source | states |
|---|---|---|
| Attack.NewSimulator | attack_simulator.py:19-22 | the simulator holds the graph with its node count and giant size; the giant size is 0 exactly for an empty graph and never exceeds the node count |
| Components.GiantSizeIsLargest | attack_simulator.py:24-38 | the giant size is 0 exactly when there is no node; otherwise it is between 1 and the node count, it is the size of some node's weak component, and no component is larger |
| Components.GiantSize | attack_simulator.py:24-38 | the giant size is 0 exactly for a graph without nodes, and no node's weak component is larger |
| Components.Metrics | attack_simulator.py:24-38 | one scan over the node order returns the largest weak component size and the number of weak components |
| Components.Scan | attack_simulator.py:30-36 | visiting nodes in order and opening a new block at each unseen node yields the largest block size and the number of distinct blocks |
| Components.ComponentsPartition | attack_simulator.py:29-32 | weak components (edges taken in either direction) partition the nodes |
| Components.ComponentIsLeastClosed | attack_simulator.py:29-32 | a node's weak component contains it, no edge leaves it, and it lies inside every such set |
| Components.SameComponent | attack_simulator.py:29-32 | every member of a component has that same component |
| Components.GiantSizeShrinks | attack_simulator.py:82-87 | deleting nodes or edges never enlarges the giant component |
| Components.ComponentShrinks | attack_simulator.py:82-87 | deleting nodes or edges never enlarges a surviving node's component |
| Components.ComponentCount | attack_simulator.py:90-92 | the number of weak components is 0 exactly for a graph without nodes |
| Components.ComponentCountBounds | attack_simulator.py:70-73 | there are no components exactly when there are no nodes, and never more components than nodes |
| Graphs.DegreeCounts | attack_simulator.py:50-52 | the degree is 0 exactly for a node no edge touches; it is out- plus in-degree in a directed graph, and counts each neighbour once and a self-loop twice in an undirected one; the in-degree never exceeds the node count |
| Ranking.ParseStrategy | attack_simulator.py:46-62 | three exact names select random, degree and in-degree; failing those, any name containing "betweenness" selects betweenness, approximated exactly when it contains "approx"; every other name is unknown |
| Ranking.DriverNames | attack_simulator.py:46-55 | the four names the analysis passes select the four strategies, "betweenness_approx" with sampling |
| Ranking.Shuffle | attack_simulator.py:47-48 | the shuffled node list is a permutation of the node list |
| Ranking.ShufflePermutes | attack_simulator.py:47-48 | every prefix shuffle of the Fisher–Yates loop is a permutation |
| Ranking.ShuffleStill | attack_simulator.py:47-48 | draws that always select the current position leave the order unchanged, so the draw function decides the order |
| Ranking.SortDescending | attack_simulator.py:50-60 | `sorted(..., key, reverse=True)` is a permutation with non-increasing keys that keeps equal keys in their original order |
| Ranking.SampleSize | attack_simulator.py:55-56 | the sample size is given exactly for approximated betweenness, is `min(1000, N)`: all nodes when there are at most 1000, and exactly 1000 otherwise |
| Ranking.Rank | attack_simulator.py:46-60 | every strategy ranks each node exactly once; degree, in-degree and betweenness rankings are non-increasing in their key and stable on ties; the in-degree ranking fails exactly on a non-empty undirected graph |
| Attack.TruncDiv | attack_simulator.py:65 | `int(a / b)` rounds toward zero: the floor quotient for non-negative operands, never positive when the signs differ |
| Attack.BatchSize | attack_simulator.py:65 | the batch size is at least 1; for `0 < steps <= N` it is the floor of `N / steps`; it is 1 when `steps` exceeds `N` or is negative |
| Attack.BatchSizeFloor | attack_simulator.py:65 | for every non-zero `steps` the batch size equals `max(1, N // steps)` with Python's rounding-down division, although truncation and rounding down differ for negative `steps` |
| Attack.Simulate | attack_simulator.py:40-104 | an unknown strategy fails before ranking; a missing in-degree fails next; `steps == 0` fails after ranking; otherwise the result is the series of the ranking with batch size `max(1, int(N / steps))` |
| Attack.Run | attack_simulator.py:67-104 | the batch loop returns exactly the initial reading followed by one reading per round, each taken after the next batch is removed |
| Attack.Start | attack_simulator.py:67-73 | before any removal the series hold `x = [0.0]`, `gc = [1.0]` and the initial component count |
| Attack.Batch | attack_simulator.py:78-102 | one round removes the next `chunk` nodes of the ranking (or what is left) and appends their reading; the giant size read is 0 exactly when every node has gone |
| Attack.RemoveBatch | attack_simulator.py:81-83 | removing the slice `nodes[removed:removed+chunk]` from the attacked graph leaves the graph without the longer prefix, and advances the count by the slice length |
| Attack.NextBatch | attack_simulator.py:81-82 | removing the next slice after a prefix is removing the longer prefix |
| Attack.AttackedSize | attack_simulator.py:81-83 | after removing `k` ranked nodes, exactly `N - k` nodes remain |
| Attack.RemainingStep | attack_simulator.py:77-100 | the readings still to come begin with the next round's reading |
| Attack.Reading | attack_simulator.py:87-100 | a reading's `x` lies in (0, 1] and is 1 exactly when every node has gone; `gc` is never negative; `gc` and the component count are 0 exactly when no node is left |
| Attack.SimulateDefaultSteps | attack_simulator.py:40 | with the default 50 steps `simulate` never fails for division by zero; the default random strategy always succeeds; the series hold between 1 and 51 readings and are those of the ranking with batch size `max(1, int(N / 50))` |
| Attack.Expected | attack_simulator.py:67-104 | the three series run in step, hold between 1 and `steps + 1` readings, and start at 0.0, 1.0 and the initial component count |
| Attack.Cuts | attack_simulator.py:77-83 | at most one removal count per allowed round, and none when no round is allowed or nothing is left |
| Attack.CutsRange | attack_simulator.py:78-83 | every removal count removes something beyond the start and never exceeds `N` |
| Graphs.RemoveNodes | attack_simulator.py:82 | `remove_nodes_from` removes the listed nodes and every edge touching them, ignores absent ones, and keeps every other edge |
| Graphs.RemoveNodesTwice | attack_simulator.py:81-82 | removing one batch after another is removing both at once |
| Progress.ExpectedShape | attack_simulator.py:67-77 | the three series have equal length, one more than the rounds run and at most `steps + 1`; they start at 0.0, 1.0 and the initial count; and they hold one reading exactly when `steps <= 0` or the graph is empty |
| Progress.CutsSchedule | attack_simulator.py:81-83 | round `i` ends with `min((i + 1) * chunk, N)` nodes removed |
| Progress.ScheduleCounts | attack_simulator.py:81-83 | after round `j`, `min(j * chunk, N)` nodes have gone |
| Progress.CutsIncreasing | attack_simulator.py:78-83 | the removal count strictly increases from round to round |
| Progress.ExpectedAt | attack_simulator.py:98 | reading `j` of `x` is the `j`-th removal count out of `N` |
| Progress.ExpectedReadings | attack_simulator.py:87-100 | readings `j` of `gc` and `frag` are those of the graph left after the `j`-th removal count |
| Progress.ReadingFacts | attack_simulator.py:87-99 | a reading's `gc` lies in [0, 1] and is 0 exactly when every node has gone, as is its component count, which never exceeds the nodes left |
| Progress.ExpectedProgress | attack_simulator.py:77-98 | `x` lies in [0, 1] and strictly increases |
| Progress.FractionsClimb | attack_simulator.py:83-98 | fractions of strictly rising removal counts in (0, N], after the leading 0.0, rise strictly and stay within [0, 1] |
| Progress.ExpectedGiant | attack_simulator.py:87-102 | every `gc` lies in [0, 1] and is 0 exactly where `x` reaches 1; after the initial reading the component count is 0 at exactly the same point |
| Progress.ExpectedEnds | attack_simulator.py:77-102 | the run stops before `steps` rounds only once every node has gone, and every reading before the last has `x < 1` |
| Attack.FractionRange | attack_simulator.py:98-99 | a count out of a positive total lies in [0, 1], is 0 only for none and 1 only for all |
| Baseline.EdgeProbability | attack_simulator.py:213-215 | `p` is 0 for at most one node; otherwise `p` times the unordered pairs is `E`, so an undirected G(n, p) has `E` edges on average when `E` does not exceed the pairs, and is complete when it does |
| Baseline.UndirectedProbability | attack_simulator.py:213-215 | for a simple undirected graph `p` lies in [0, 1] |
| Baseline.PairsProduct | attack_simulator.py:215 | `N (N - 1)` is twice the number of unordered node pairs, positive for two nodes or more |
| Baseline.ClampedExpectation | attack_simulator.py:218 | when `p` times the candidate edges is `e`, G(n, p) has `e` edges on average if there are at least `e` candidates, and otherwise is the complete graph |
| Baseline.DirectedDoubles | attack_simulator.py:215-218 | a directed baseline built with this `p` has `2E` edges on average while `2E` does not exceed the `N (N - 1)` ordered pairs, and is the complete directed graph beyond that |
| Baseline.DirectedOverflow | attack_simulator.py:215-218 | two nodes joined both ways give `p = 2`, which is not a probability; three nodes with two edges give a directed baseline with 4 edges on average |
| Baseline.DirectedEdgeProbability | attack_simulator.py:215-218 | `p` times the candidate pairs counted by direction is `E`; for any simple graph `p` lies in [0, 1] and the baseline has `E` edges on average |
| Baseline.CorrectedAgrees | attack_simulator.py:215 | for undirected graphs the corrected probability equals the original one |
| Text.AsciiSpace | bosam_visualizer.py:11 | on ASCII, `isspace` holds exactly for Python's `string.whitespace` (space, tab, newline, carriage return, vertical tab, form feed) and the separators U+001C to U+001F |
| Text.Strip | bosam_visualizer.py:11 | `strip()` yields a slice of the line without whitespace at either end, and is empty only for an all-whitespace line |
| Text.StripPadded | bosam_visualizer.py:11 | stripping whitespace padding from a string with non-whitespace ends gives that string back |
| Text.StripSplit | bosam_visualizer.py:11 | every line is its stripped text with whitespace before and after it |
| Text.StripLineEnd | bosam_visualizer.py:10-11 | whitespace after a line, such as the `\n` or `\r\n` a line read from a file ends with, does not change what `strip()` returns |
| Text.Split | bosam_visualizer.py:16 | `split()` yields only non-empty fields without whitespace, and yields none exactly for an all-whitespace string |
| Text.SplitJoin | bosam_visualizer.py:16 | splitting fields joined by any non-empty runs of whitespace, with any whitespace before and after them, gives the fields back |
| Text.SplitDecompose | bosam_visualizer.py:16 | every string is the fields `split()` returns, joined by non-empty runs of whitespace, with whitespace before and after them |
| Text.ContainsAt | attack_simulator.py:53-55 | `sub in s` holds exactly when `sub` occurs at some position of `s` |
| Text.StrLessTotal | bosam_visualizer.py:34 | any two different strings are ordered one way or the other by code-point order |
| Text.StrLessTransitive | bosam_visualizer.py:34 | code-point order on strings is transitive |
| Bosam.EdgeOf | bosam_visualizer.py:11-19 | a line names an edge only when it is not skipped, and its endpoints are fields |
| Bosam.EdgeOfFields | bosam_visualizer.py:11-19 | a line of fields separated by any non-empty runs of whitespace and padded with whitespace names the edge between its first two fields when it has at least two, and no edge otherwise; further fields are ignored |
| Bosam.IgnoredFirst | bosam_visualizer.py:11-14 | a line is skipped exactly when it is all whitespace or its first non-whitespace character is `%` or `#` |
| Bosam.CommentLine | bosam_visualizer.py:13-14 | a line whose first non-whitespace character is `%` or `#` names no edge |
| Bosam.BlankLine | bosam_visualizer.py:13-14 | a blank line names no edge |
| Bosam.Load | bosam_visualizer.py:9-20 | adding the named edges keeps the graph undirected and valid, and only extends its node order |
| Bosam.BuildGraph | bosam_visualizer.py:7-20 | the graph built from the lines is a valid undirected graph |
| Bosam.LoadEdges | bosam_visualizer.py:10-20 | loading adds every named edge in both orientations, and no other edge |
| Bosam.LoadNodes | bosam_visualizer.py:10-20 | loading adds the endpoints of the named edges, and no other node |
| Bosam.BuildGraphEdges | bosam_visualizer.py:7-20 | two ids are adjacent exactly when some kept line names them, in either order; the nodes are exactly the endpoints of named edges |
| Bosam.EveryNodeLinked | bosam_visualizer.py:7-20 | every node of the built graph has a neighbour |
| Graphs.AddEdge | bosam_visualizer.py:20 | `add_edge` keeps the graph valid, appends missing endpoints to the node order, and adds the edge in both orientations for an undirected graph |
| Graphs.AddEdgeAppends | bosam_visualizer.py:20 | `add_edge` appends exactly the endpoints not yet in the graph, `u` first |
| Graphs.Neighbours | bosam_visualizer.py:27 | the neighbour list holds each neighbour once and nothing else |
| Bosam.MaxDegree | bosam_visualizer.py:32 | the result is the degree of some node of the list, and no node of the list has a larger degree |
| Bosam.MaxId | bosam_visualizer.py:34 | the result is a member of the list, and no member is larger in code-point order |
| Bosam.NodeKey | bosam_visualizer.py:24-37 | `k` is the degree; `w` is the largest neighbour degree and `e` the largest neighbour id; both are missing (-1) exactly when the node has no neighbour |
| Bosam.KeyLessTotalOrder | bosam_visualizer.py:47 | lexicographic ascending order on `(k, w, e)` is irreflexive, transitive and total |
| Bosam.ByKeyIsStrictWeak | bosam_visualizer.py:46-47 | comparing nodes by their keys is a strict weak order |
| Bosam.BosamOrder | bosam_visualizer.py:22-49 | sorting fails (the `KeyError` of a frame without columns) exactly when the graph has no node; otherwise the sorted node list is a permutation of the node order that lists every node once, in non-decreasing key order, and keeps nodes with equal keys in node order |
| Bosam.BuiltKeys | bosam_visualizer.py:31-37 | every node of a built graph has `w >= 1` and an `e`, so the -1 branch is never taken |
| Bosam.DrawOrder | bosam_visualizer.py:9-49 | the plot order fails exactly when no line names an edge; otherwise it lists every endpoint of a named edge exactly once, in non-decreasing key order |
| Bosam.DrawOrderLinked | bosam_visualizer.py:31-37 | when there is a plot order, every node of it has `w >= 1` and an `e` |
| Sorting.SortCorrect | bosam_visualizer.py:47 | the sort is a permutation, sorted, and stable: tied elements keep their relative order |
| Sorting.SortTies | bosam_visualizer.py:47 | the elements tying with any given element appear in the same order before and after sorting |

## Left out

- Plotting and image export are left out (matplotlib and scipy, `attack_simulator.py` after line 105, `bosam_visualizer.py:51-62`). So are the command-line driver, its prints and hard-coded paths, and the top-level calls, and the progress prints inside `simulate` (`attack_simulator.py:41` and `58`). None of these affect the computed series or order.
- Reading files is left out: the edge list reaches the model as a sequence of lines. `loader.py` is not part of this model.
- Betweenness centrality is not computed. Its scores are the parameter `bc`, indexed by the sample size. The dictionary it returns is taken to iterate in node order, as the library builds it.
- `random.shuffle` is modelled as CPython's Fisher–Yates loop. The random source is the parameter `draw`, with one draw per position. The generator itself is not modelled.
- `nx.erdos_renyi_graph` is covered only through its expected edge count (Baseline.ExpectedEdges). That count follows the library in building the empty graph for `p <= 0` and the complete graph for `p >= 1`. The random generator and its seed are not modelled. The edge count `E` is a parameter.
- Attack.TruncDiv: the floating-point division in `int(N / steps)` is modelled as exact division rounded toward zero. For `N` beyond 2^53 the float quotient could round differently.
- Attack.Reading: fractions are exact reals, not IEEE doubles. The ratios are therefore the mathematical quotients.
- The order in which the library lists neighbours is not modelled. Only their maxima are used, and maxima do not depend on order.
- Components.Metrics: the source makes two passes over the components, one for the giant size and one for the count. The model makes one pass that computes both. The results are the same.
- Bosam.NodeKey: the source writes `-1` into the `e` column for a node without neighbours. The model uses the absent id. The branch is never taken for a graph built from lines (Bosam.BuiltKeys), so the mixed integer/string column never arises.
- The simulator is an immutable value. `simulate` working on its own copy, and leaving `self.graph` unchanged, therefore holds by construction and is not stated separately.

## Findings

| source | as written | input that shows it | evidently intended | confidence | as-written member | corrected member |
|---|---|---|---|---|---|---|
| attack_simulator.py:215-218 | `p = 2E / (N (N - 1))` is used for the baseline even when it is built as a directed graph (`directed=G.is_directed()`) | N = 2, E = 2 (two nodes joined both ways) gives p = 2.0, which is no probability; N = 3, E = 2 gives p = 2/3, and a directed G(3, 2/3) has 4 = 2E edges on average. In general the directed baseline has 2E edges on average while 2E ≤ N(N − 1), and is the complete directed graph beyond that | `p = E / (N (N - 1))` for directed graphs, so the baseline has E edges on average and p lies in [0, 1] | not executed | Baseline.DirectedOverflow | Baseline.DirectedEdgeProbability |
