# Storm Bayesian network: construction model

This project models `create_bayes_network` (bayes.py), which turns an input
graph of locations into a small discrete Bayesian network stored in a
directed graph. Nodes are string keys with two attributes: `states` and a
`probabilities` dictionary. The function works in three stages:

1. It adds the weather node `"W"` with states mild, stormy and extreme, and
   copies the caller's weather prior into its table key by key.
2. For every vertex `v`, in graph order, it adds the breakage node `"B(v)"`
   with states true and false. It looks up the base rate `x` of `v` and sets
   the rows `true = {mild: x, stormy: 2x, extreme: 3x}` and
   `false = {mild: 1-x, stormy: 1-2x, extreme: 1-3x}`. Then it adds the edge
   `W -> B(v)`.
3. For every vertex `v`, it adds the evacuee node `"Ev(v)"` with states true
   and false. It sets only the `false` row, `{true: p2, false: 1-p2}`, which
   is indexed by the state of `B(v)`.

The Dafny model has four modules:

- `Names` (names.dfy): node names. It has a structured `NodeKind`, the
  string-building `NodeName` and its inverse `ParseNodeName`. The round trip
  proves that different nodes never share a name.
- `Tables` (tables.dfy): node attributes (`NodeInfo`, `Entry`) and the
  tables of the three node kinds, with lemmas on row sums and ranges.
  Probabilities are exact `real`s.
- `DiGraphs` (digraph.dfy): the part of the networkx `DiGraph` that is used.
  It is a class with three fields: `nodes` (a map from name to attributes),
  `order` (insertion order) and `edges` (a set of pairs). Its methods
  `AddNode`, `AddEdge` and `SetProbability` update these fields in place.
- `Bayes` (bayes.dfy): `CreateBayesNetwork`, whose three loops mirror the
  source. Each loop is a stage method whose invariant is a predicate on the
  graph (`BreakageStage`, `EvacueeStage`), and each iteration of the
  breakage and evacuee loops is a per-vertex method. `IsBayesNetwork` states exactly
  which network results, and lemmas about it give the size, the edge
  structure, the topological order and uniqueness.

Three points about how the model reads the code:

- `add_node` never creates the `probabilities` attribute, so as written the
  first write into it (bayes.py:37) would raise. `AddNode` models the
  evident intent: an empty dictionary is created with each new node.
- The function has no `return` statement, although it is annotated to
  return the `DiGraph`. The model returns the built graph.
- The docstring (bayes.py:24-29) connects `Ev(v)` to `B(v)` and to the
  breakage nodes of its neighbours, with a row for a single active
  neighbour. The code adds no edge into `Ev(v)`, fills only its `false` row
  indexed by `B(v)`, and stores `1 - p2` under `B(v) = false`. The model
  follows the code.

## Model

| member | source | states |
|---|---|---|
| `Names.ParseNodeName` | bayes.py:42 | A name that parses is exactly the name its parsed node builds, so parsing inverts the `"B("+v+")"` / `"Ev("+v+")"` naming |
| `Names.ParseNodeNameRoundTrip` | bayes.py:52 | Parsing the name built for any node (W, B(v), Ev(v), for any string v) gives back that node |
| `Names.NodeNameInjective` | bayes.py:34-52 | Two nodes have the same name iff they are the same node: `B(a)=B(b)` implies a=b, likewise `Ev(`, and no B name equals an Ev name or "W" |
| `Tables.WeatherNode` | bayes.py:34-37 | The weather node has states [mild, stormy, extreme] and its table has exactly the prior's keys with the prior's values: no filtering, no renormalisation |
| `Tables.BrokenRow` | bayes.py:45 | P(B(v) = true) is defined for mild, stormy and extreme only; it is the base rate x when mild, twice the mild value when stormy and three times it when extreme |
| `Tables.IntactRow` | bayes.py:46 | P(B(v) = false) has the same weather keys as the true row and, for each of them, is its complement: the two add up to exactly 1 |
| `Tables.BreakageRowsSumToOne` | bayes.py:45-46 | B(v) has states [true, false]; its true row is x, 2x, 3x for mild, stormy, extreme; for each weather state the true and false entries sum to exactly 1 |
| `Tables.BreakageEntriesValidIff` | bayes.py:44-46 | Every entry of the breakage table lies in [0,1] if and only if 0 <= x <= 1/3; nothing checks the rate |
| `Tables.EvacueeRowValidIff` | bayes.py:52-54 | Ev(v) has states [true, false] and only a "false" row `{true: p2, false: 1-p2}`; the row sums to 1, and its entries are in [0,1] iff p2 is |
| `DiGraphs.DiGraph.constructor` | bayes.py:32 | A new graph has no nodes, no insertion order and no edges |
| `DiGraphs.DiGraph.AddNode` | bayes.py:34 | A new node is appended to the insertion order with its states and an empty table; an existing node only gets its states replaced; edges unchanged; the graph invariant is kept |
| `DiGraphs.DiGraph.AddEdge` | bayes.py:48 | Adds exactly the edge (u, v); a missing endpoint is appended to the insertion order (u before v, once if u = v) with no states and an empty table; existing nodes keep their attributes and position |
| `DiGraphs.DiGraph.SetProbability` | bayes.py:37 | Writes one key of one node's table and changes nothing else |
| `Bayes.AddWeatherNode` | bayes.py:34-37 | After the weather loop the graph holds only W, whose table equals the prior, and no edges |
| `Bayes.AddBreakageNode` | bayes.py:42-48 | One breakage iteration adds B(v) with the breakage table of v's rate and the edge W -> B(v), and fails exactly when v has no rate |
| `Bayes.BreakageStageStep` | bayes.py:42-48 | One breakage iteration on distinct vertices keeps the loop invariant `BreakageStage`: order W, B(v) for the vertices done; W's table; each done B(v) with its table; edges exactly W -> B(v) for those vertices |
| `Bayes.AddBreakageNodes` | bayes.py:41-48 | Fails exactly when some vertex lacks a rate, naming the first such vertex in graph order; otherwise ends in `BreakageStage` for all vertices: order W then B(v) per vertex, each B(v) with its table, edges exactly W -> B(v) |
| `Bayes.AddEvacueeNode` | bayes.py:52-54 | One evacuee iteration adds Ev(v) with the evacuee table and changes no other node and no edge |
| `Bayes.EvacueeStageStep` | bayes.py:52-54 | One evacuee iteration on distinct vertices adds a name not yet used and keeps the loop invariant `EvacueeStage`: W and every B(v) unchanged, each done Ev(v) with the evacuee table, edges unchanged |
| `Bayes.AddEvacueeNodes` | bayes.py:51-54 | From the state after the breakage loop, ends in `EvacueeStage` for all vertices: Ev(v) appended for every vertex in graph order with the evacuee table, W, the B(v) nodes and the edges unchanged |
| `Bayes.CreateBayesNetwork` | bayes.py:3-54 | Succeeds iff every vertex has a rate, and then returns a fresh graph that is exactly `IsBayesNetwork` for the inputs; otherwise fails with the first vertex lacking a rate |
| `Bayes.InsertionOrderDistinct` | bayes.py:41-52 | With distinct vertices, the insertion order W, B(v)..., Ev(v)... has no repeated name, so no iteration overwrites another node |
| `Bayes.WeatherEdgesCount` | bayes.py:48 | Distinct vertices give exactly one W -> B(v) edge each |
| `Bayes.NetworkSize` | bayes.py:32-54 | For n distinct vertices the built network has 1 + 2n nodes and n edges |
| `Bayes.EdgesFollowInsertionOrder` | bayes.py:41-48 | Every edge runs from W to some B(v), and from an earlier to a later node of the insertion order, which is therefore topological |
| `Bayes.EvacueeNodesHaveNoEdges` | bayes.py:51-54 | No edge enters or leaves any Ev(u) |
| `Bayes.BayesNetworkUnique` | bayes.py:13-14 | The network is determined by vertices, prior, rates and p2 alone, so p1 and the edge weights do not affect the result |

## Left out

- The interactive prompts for p1 and p2 (bayes.py:13-14) are I/O; p1 and p2 are parameters of `CreateBayesNetwork`. A non-numeric answer to `float(...)` is not modelled.
- networkx itself is not modelled beyond the `DiGraph` class: attribute dictionaries other than `states` and `probabilities`, edge attributes and the order of edges. Edges are a set.
- IEEE floating-point rounding of `2*xi`, `1-3*xi` and `1-p2`: all arithmetic is exact over the reals.
- Vertices are strings. A vertex of another type would make `"B("+node+")"` raise a TypeError; that failure is not modelled.
- `CreateBayesNetwork` requires distinct vertices, as a graph's node set always is.
- `DiGraphs.DiGraph.AddNode` creates an empty `probabilities` dictionary with each new node. networkx's `add_node` creates no such attribute, so as written the first write at bayes.py:37 raises a KeyError; the model follows the evident intent instead of that failure.
- `DiGraphs.DiGraph.AddEdge` gives an endpoint it adds the attributes `states = []` and an empty table. networkx gives such a node an empty attribute dictionary, with no `states` key at all. `create_bayes_network` only joins nodes that already exist, so this case never arises there.
- `Bayes.CreateBayesNetwork` returns the built graph. The source has no `return` statement, so the Python function returns `None` and the graph is discarded; the model follows the annotated return type.
- `DiGraphs.DiGraph.SetProbability` requires the node to exist; `create_bayes_network` only writes into nodes it has just added.
- When a rate is missing, the source raises after adding W and some breakage nodes, and the partial graph is lost with the exception. `CreateBayesNetwork` returns only the error and says nothing of the discarded graph.
- No inference engine, evacuee noisy-OR tables over neighbours, use of p1 or of edge weights, or range validation: the code has none of these; its docstring (bayes.py:24-29) describes some of them.
