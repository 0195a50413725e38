/**
 create_bayes_network: builds the storm network over the vertices of an
 input graph. It adds the weather node "W" with the caller's prior; then,
 for each vertex v in graph order, the breakage node "B(v)" with a table
 conditioned on weather and the edge W -> B(v); then, for each vertex, the
 evacuee node "Ev(v)" with its "false" row.
 */
module Bayes {
  import opened Names
  import opened Tables
  import opened DiGraphs

  /** The input graph: its vertices in iteration order and its edge weights. */
  datatype Graph = Graph(vertices: seq<string>, weights: map<(string, string), real>)

  /** Looking up a vertex that has no base breakage rate fails (a KeyError). */
  datatype BuildError = MissingRate(vertex: string)

  datatype Result<T, E> = Success(value: T) | Failure(error: E)

  /** "B(v)" for every vertex, in vertex order. */
  function BreakageNames(vs: seq<string>): seq<string>
  {
    seq(|vs|, i requires 0 <= i < |vs| => NodeName(Breakage(vs[i])))
  }

  /** "Ev(v)" for every vertex, in vertex order. */
  function EvacueeNames(vs: seq<string>): seq<string>
  {
    seq(|vs|, i requires 0 <= i < |vs| => NodeName(Evacuee(vs[i])))
  }

  /** The order in which create_bayes_network adds its nodes. */
  function InsertionOrder(vs: seq<string>): seq<string>
  {
    [WeatherName] + BreakageNames(vs) + EvacueeNames(vs)
  }

  /** The edges W -> B(v), one per vertex. */
  function WeatherEdges(vs: seq<string>): set<(string, string)>
  {
    set v | v in vs :: (WeatherName, NodeName(Breakage(v)))
  }

  /** The node at position i of the insertion order. */
  function KindAt(vs: seq<string>, i: nat): NodeKind
    requires i < 1 + 2 * |vs|
  {
    if i == 0 then Weather
    else if i <= |vs| then Breakage(vs[i - 1])
    else Evacuee(vs[i - 1 - |vs|])
  }

  /** vs[i] is the first vertex, in graph order, that has no base rate. */
  predicate FirstMissingRate(vs: seq<string>, rates: map<string, real>, i: int)
  {
    && 0 <= i < |vs|
    && vs[i] !in rates
    && forall j | 0 <= j < i :: vs[j] in rates
  }

  /**
   The network create_bayes_network builds from vertices vs, weather prior
   prior, base rates rates and parameter p2: exactly the nodes W, B(v) and
   Ev(v) in that insertion order, with their tables, and exactly the edges
   W -> B(v). Neither p1 nor the edge weights take part.
   */
  ghost predicate IsBayesNetwork(nodes: map<string, NodeInfo>, order: seq<string>, edges: set<(string, string)>,
                                 vs: seq<string>, prior: map<string, real>, rates: map<string, real>, p2: real)
  {
    && order == InsertionOrder(vs)
    && nodes.Keys == Elements(order)
    && WeatherName in nodes && nodes[WeatherName] == WeatherNode(prior)
    && (forall i | 0 <= i < |vs| ::
          vs[i] in rates && NodeName(Breakage(vs[i])) in nodes && nodes[NodeName(Breakage(vs[i]))] == BreakageNode(rates[vs[i]]))
    && (forall i | 0 <= i < |vs| ::
          NodeName(Evacuee(vs[i])) in nodes && nodes[NodeName(Evacuee(vs[i]))] == EvacueeNode(p2))
    && edges == WeatherEdges(vs)
  }

  /** Extending the processed prefix by one vertex extends names and edges by that vertex's. */
  lemma PrefixStep(vs: seq<string>, i: nat)
    requires i < |vs|
    ensures BreakageNames(vs[..i + 1]) == BreakageNames(vs[..i]) + [NodeName(Breakage(vs[i]))]
    ensures EvacueeNames(vs[..i + 1]) == EvacueeNames(vs[..i]) + [NodeName(Evacuee(vs[i]))]
    ensures WeatherEdges(vs[..i + 1]) == WeatherEdges(vs[..i]) + {(WeatherName, NodeName(Breakage(vs[i])))}
  {
    assert vs[..i + 1] == vs[..i] + [vs[i]];
  }

  /** Adds the weather node "W" to an empty graph and copies the prior into its table, key by key. */
  method AddWeatherNode(net: DiGraph, weather: map<string, real>)
    requires net.Valid() && net.nodes == map[] && net.order == [] && net.edges == {}
    modifies net
    ensures net.Valid()
    ensures net.order == [WeatherName] && net.edges == {}
    ensures net.nodes == map[WeatherName := WeatherNode(weather)]
  {
    net.AddNode(WeatherName, WeatherStates);
    var pending := weather.Keys;
    ghost var done: set<string> := {};
    while pending != {}
      invariant net.Valid()
      invariant done == weather.Keys - pending
      invariant net.order == [WeatherName] && net.edges == {}
      invariant net.nodes == map[WeatherName := NodeInfo(WeatherStates, map s | s in done :: Scalar(weather[s]))]
      decreases pending
    {
      var s :| s in pending;
      ghost var table := map t | t in done :: Scalar(weather[t]);
      net.SetProbability(WeatherName, s, Scalar(weather[s]));
      pending := pending - {s};
      done := done + {s};
      assert table[s := Scalar(weather[s])] == map t | t in done :: Scalar(weather[t]);
    }
    assert done == weather.Keys;
  }

  /**
   The graph after the breakage loop has handled the first i vertices: W and
   the breakage nodes of vs[..i], with their tables, and the edges W -> B(v)
   for those vertices.
   */
  ghost predicate BreakageStage(nodes: map<string, NodeInfo>, order: seq<string>, edges: set<(string, string)>,
                                vs: seq<string>, weather: map<string, real>, rates: map<string, real>, i: nat)
  {
    && i <= |vs|
    && order == [WeatherName] + BreakageNames(vs[..i])
    && WeatherName in nodes && nodes[WeatherName] == WeatherNode(weather)
    && (forall j | 0 <= j < i ::
          vs[j] in rates && NodeName(Breakage(vs[j])) in nodes && nodes[NodeName(Breakage(vs[j]))] == BreakageNode(rates[vs[j]]))
    && edges == WeatherEdges(vs[..i])
  }

  /** Adding B(vs[i]) with its table and the edge W -> B(vs[i]) takes the breakage loop from stage i to stage i + 1. */
  lemma BreakageStageStep(nodes: map<string, NodeInfo>, order: seq<string>, edges: set<(string, string)>,
                          vs: seq<string>, weather: map<string, real>, rates: map<string, real>, i: nat)
    requires Distinct(vs) && i < |vs| && vs[i] in rates
    requires BreakageStage(nodes, order, edges, vs, weather, rates, i)
    ensures BreakageStage(nodes[NodeName(Breakage(vs[i])) := BreakageNode(rates[vs[i]])],
                          order + [NodeName(Breakage(vs[i]))],
                          edges + {(WeatherName, NodeName(Breakage(vs[i])))},
                          vs, weather, rates, i + 1)
  {
    BreakageNameIsNew(vs, i);
    PrefixStep(vs, i);
    var nodes' := nodes[NodeName(Breakage(vs[i])) := BreakageNode(rates[vs[i]])];
    assert WeatherName in nodes' && nodes'[WeatherName] == WeatherNode(weather);
    assert forall j | 0 <= j < i + 1 ::
      vs[j] in rates && NodeName(Breakage(vs[j])) in nodes' && nodes'[NodeName(Breakage(vs[j]))] == BreakageNode(rates[vs[j]]);
  }

  /**
   Adds, for each vertex v in order, the breakage node "B(v)" with its table
   and the edge W -> B(v). Stops with MissingRate(v) at the first vertex v
   that has no base rate, after adding B(v) itself.
   */
  method AddBreakageNodes(net: DiGraph, vs: seq<string>, weather: map<string, real>, rates: map<string, real>)
    returns (err: Option<BuildError>)
    requires Distinct(vs)
    requires net.Valid()
    requires BreakageStage(net.nodes, net.order, net.edges, vs, weather, rates, 0)
    modifies net
    ensures net.Valid()
    ensures err.None? <==> forall j | 0 <= j < |vs| :: vs[j] in rates
    ensures err.Some? ==> exists i :: FirstMissingRate(vs, rates, i) && err.value == MissingRate(vs[i])
    ensures err.None? ==> BreakageStage(net.nodes, net.order, net.edges, vs, weather, rates, |vs|)
  {
    var i := 0;
    while i < |vs|
      invariant i <= |vs|
      invariant net.Valid()
      invariant BreakageStage(net.nodes, net.order, net.edges, vs, weather, rates, i)
    {
      var v := vs[i];
      BreakageNameIsNew(vs, i);
      ghost var nodes, order, edges := net.nodes, net.order, net.edges;
      var ok := AddBreakageNode(net, v, rates);
      if !ok {
        assert FirstMissingRate(vs, rates, i);
        return Some(MissingRate(v));
      }
      BreakageStageStep(nodes, order, edges, vs, weather, rates, i);
      i := i + 1;
    }
    return None;
  }

  /**
   One iteration of the breakage loop: adds "B(v)", looks up the base rate x
   of v (failing when there is none), fills the rows true = {x, 2x, 3x} and
   false = {1-x, 1-2x, 1-3x} over mild, stormy, extreme, and adds W -> B(v).
   */
  method AddBreakageNode(net: DiGraph, v: string, rates: map<string, real>) returns (ok: bool)
    requires net.Valid()
    requires WeatherName in net.nodes && NodeName(Breakage(v)) !in net.nodes
    modifies net
    ensures net.Valid()
    ensures ok <==> v in rates
    ensures ok ==> net.nodes == old(net.nodes)[NodeName(Breakage(v)) := BreakageNode(rates[v])]
    ensures ok ==> net.order == old(net.order) + [NodeName(Breakage(v))]
    ensures ok ==> net.edges == old(net.edges) + {(WeatherName, NodeName(Breakage(v)))}
  {
    var name := NodeName(Breakage(v));
    net.AddNode(name, BoolStates);
    if v !in rates {
      return false;
    }
    var x := rates[v];
    net.SetProbability(name, "true", Row(BrokenRow(x)));
    net.SetProbability(name, "false", Row(IntactRow(x)));
    net.AddEdge(WeatherName, name);
    return true;
  }

  /** "B(vs[i])" is neither "W" nor the breakage name of an earlier vertex. */
  lemma BreakageNameIsNew(vs: seq<string>, i: nat)
    requires Distinct(vs) && i < |vs|
    ensures NodeName(Breakage(vs[i])) !in Elements([WeatherName] + BreakageNames(vs[..i]))
    ensures NodeName(Breakage(vs[i])) != WeatherName
    ensures forall j | 0 <= j < i :: NodeName(Breakage(vs[j])) != NodeName(Breakage(vs[i]))
  {
    NodeNameInjective(Weather, Breakage(vs[i]));
    forall j | 0 <= j < i
      ensures BreakageNames(vs[..i])[j] != NodeName(Breakage(vs[i]))
      ensures NodeName(Breakage(vs[j])) != NodeName(Breakage(vs[i]))
    {
      NodeNameInjective(Breakage(vs[j]), Breakage(vs[i]));
    }
  }

  /** "Ev(vs[i])" is neither "W", nor a breakage name, nor the evacuee name of an earlier vertex. */
  lemma EvacueeNameIsNew(vs: seq<string>, i: nat)
    requires Distinct(vs) && i < |vs|
    ensures NodeName(Evacuee(vs[i])) !in Elements([WeatherName] + BreakageNames(vs) + EvacueeNames(vs[..i]))
    ensures NodeName(Evacuee(vs[i])) != WeatherName
    ensures forall j | 0 <= j < |vs| :: NodeName(Breakage(vs[j])) != NodeName(Evacuee(vs[i]))
    ensures forall j | 0 <= j < i :: NodeName(Evacuee(vs[j])) != NodeName(Evacuee(vs[i]))
  {
    NodeNameInjective(Weather, Evacuee(vs[i]));
    forall j | 0 <= j < |vs|
      ensures BreakageNames(vs)[j] != NodeName(Evacuee(vs[i]))
      ensures NodeName(Breakage(vs[j])) != NodeName(Evacuee(vs[i]))
    {
      NodeNameInjective(Breakage(vs[j]), Evacuee(vs[i]));
    }
    forall j | 0 <= j < i
      ensures EvacueeNames(vs[..i])[j] != NodeName(Evacuee(vs[i]))
      ensures NodeName(Evacuee(vs[j])) != NodeName(Evacuee(vs[i]))
    {
      NodeNameInjective(Evacuee(vs[j]), Evacuee(vs[i]));
    }
  }

  /**
   The graph after the evacuee loop has handled the first i vertices: W, all
   breakage nodes and the evacuee nodes of vs[..i], with their tables, and
   the edges W -> B(v).
   */
  ghost predicate EvacueeStage(nodes: map<string, NodeInfo>, order: seq<string>, edges: set<(string, string)>,
                               vs: seq<string>, weather: map<string, real>, rates: map<string, real>, p2: real, i: nat)
  {
    && i <= |vs|
    && order == [WeatherName] + BreakageNames(vs) + EvacueeNames(vs[..i])
    && WeatherName in nodes && nodes[WeatherName] == WeatherNode(weather)
    && (forall j | 0 <= j < |vs| ::
          vs[j] in rates && NodeName(Breakage(vs[j])) in nodes && nodes[NodeName(Breakage(vs[j]))] == BreakageNode(rates[vs[j]]))
    && (forall j | 0 <= j < i ::
          NodeName(Evacuee(vs[j])) in nodes && nodes[NodeName(Evacuee(vs[j]))] == EvacueeNode(p2))
    && edges == WeatherEdges(vs)
  }

  /** Adding Ev(vs[i]) with its table takes the evacuee loop from stage i to stage i + 1. */
  lemma EvacueeStageStep(nodes: map<string, NodeInfo>, order: seq<string>, edges: set<(string, string)>,
                         vs: seq<string>, weather: map<string, real>, rates: map<string, real>, p2: real, i: nat)
    requires Distinct(vs) && i < |vs|
    requires EvacueeStage(nodes, order, edges, vs, weather, rates, p2, i)
    requires nodes.Keys == Elements(order)
    ensures NodeName(Evacuee(vs[i])) !in nodes
    ensures EvacueeStage(nodes[NodeName(Evacuee(vs[i])) := EvacueeNode(p2)], order + [NodeName(Evacuee(vs[i]))], edges,
                         vs, weather, rates, p2, i + 1)
  {
    EvacueeNameIsNew(vs, i);
    PrefixStep(vs, i);
    var nodes' := nodes[NodeName(Evacuee(vs[i])) := EvacueeNode(p2)];
    EvacueeStepKeepsOthers(nodes, vs, i, EvacueeNode(p2));
    assert WeatherName in nodes' && nodes'[WeatherName] == WeatherNode(weather);
    assert forall j | 0 <= j < |vs| :: vs[j] in rates && NodeName(Breakage(vs[j])) in nodes' && nodes'[NodeName(Breakage(vs[j]))] == BreakageNode(rates[vs[j]]);
    assert forall j | 0 <= j < i + 1 :: NodeName(Evacuee(vs[j])) in nodes' && nodes'[NodeName(Evacuee(vs[j]))] == EvacueeNode(p2);
  }

  /** Storing under "Ev(vs[i])" leaves the weather node and every breakage node as they were. */
  lemma EvacueeStepKeepsOthers(nodes: map<string, NodeInfo>, vs: seq<string>, i: nat, info: NodeInfo)
    requires i < |vs|
    requires WeatherName in nodes
    requires forall j | 0 <= j < |vs| :: NodeName(Breakage(vs[j])) in nodes
    ensures nodes[NodeName(Evacuee(vs[i])) := info][WeatherName] == nodes[WeatherName]
    ensures forall j | 0 <= j < |vs| :: nodes[NodeName(Evacuee(vs[i])) := info][NodeName(Breakage(vs[j]))] == nodes[NodeName(Breakage(vs[j]))]
  {
    NodeNameInjective(Weather, Evacuee(vs[i]));
    forall j | 0 <= j < |vs|
      ensures NodeName(Breakage(vs[j])) != NodeName(Evacuee(vs[i]))
    {
      NodeNameInjective(Breakage(vs[j]), Evacuee(vs[i]));
    }
  }

  /** Adds, for each vertex v in order, the evacuee node "Ev(v)" with the "false" row of its table. */
  method AddEvacueeNodes(net: DiGraph, vs: seq<string>, weather: map<string, real>, rates: map<string, real>, p2: real)
    requires Distinct(vs)
    requires net.Valid()
    requires EvacueeStage(net.nodes, net.order, net.edges, vs, weather, rates, p2, 0)
    modifies net
    ensures net.Valid()
    ensures EvacueeStage(net.nodes, net.order, net.edges, vs, weather, rates, p2, |vs|)
  {
    var i := 0;
    while i < |vs|
      invariant i <= |vs|
      invariant net.Valid()
      invariant EvacueeStage(net.nodes, net.order, net.edges, vs, weather, rates, p2, i)
    {
      EvacueeStageStep(net.nodes, net.order, net.edges, vs, weather, rates, p2, i);
      AddEvacueeNode(net, vs[i], p2);
      i := i + 1;
    }
  }

  /**
   One iteration of the evacuee loop: adds "Ev(v)" and sets the "false" row
   of its table to {true: p2, false: 1 - p2}, indexed by the state of B(v).
   */
  method AddEvacueeNode(net: DiGraph, v: string, p2: real)
    requires net.Valid()
    requires NodeName(Evacuee(v)) !in net.nodes
    modifies net
    ensures net.Valid()
    ensures net.nodes == old(net.nodes)[NodeName(Evacuee(v)) := EvacueeNode(p2)]
    ensures net.order == old(net.order) + [NodeName(Evacuee(v))]
    ensures net.edges == old(net.edges)
  {
    var name := NodeName(Evacuee(v));
    net.AddNode(name, BoolStates);
    net.SetProbability(name, "false", Row(map["true" := p2, "false" := 1.0 - p2]));
  }

  /**
   Builds the network. Fails with MissingRate(v) for the first vertex v, in
   graph order, that has no base breakage rate; p1 and the edge weights are
   accepted and not used.
   */
  method CreateBayesNetwork(graph: Graph, weather: map<string, real>, brokenGivenWeather: map<string, real>,
                            p1: real, p2: real)
    returns (r: Result<DiGraph, BuildError>)
    requires Distinct(graph.vertices)
    ensures r.Success? <==> forall j | 0 <= j < |graph.vertices| :: graph.vertices[j] in brokenGivenWeather
    ensures r.Success? ==> fresh(r.value) && r.value.Valid()
    ensures r.Success? ==>
      IsBayesNetwork(r.value.nodes, r.value.order, r.value.edges, graph.vertices, weather, brokenGivenWeather, p2)
    ensures r.Failure? ==>
      exists i :: FirstMissingRate(graph.vertices, brokenGivenWeather, i) && r.error == MissingRate(graph.vertices[i])
  {
    var net := new DiGraph();
    AddWeatherNode(net, weather);
    assert graph.vertices[..0] == [];
    var err := AddBreakageNodes(net, graph.vertices, weather, brokenGivenWeather);
    if err.Some? {
      return Failure(err.value);
    }
    assert graph.vertices[..|graph.vertices|] == graph.vertices;
    AddEvacueeNodes(net, graph.vertices, weather, brokenGivenWeather, p2);
    r := Success(net);
  }

  /** Position i of the insertion order holds the name of KindAt(vs, i). */
  lemma InsertionOrderAt(vs: seq<string>, i: nat)
    requires i < 1 + 2 * |vs|
    ensures |InsertionOrder(vs)| == 1 + 2 * |vs|
    ensures InsertionOrder(vs)[i] == NodeName(KindAt(vs, i))
  {
  }

  /**
   With distinct vertices, the insertion order W, B(v)..., Ev(v)... never
   names a node twice: the per-vertex loops never overwrite a node.
   */
  lemma {:induction false} InsertionOrderDistinct(vs: seq<string>)
    requires Distinct(vs)
    ensures Distinct(InsertionOrder(vs))
  {
    var order := InsertionOrder(vs);
    forall i, j | 0 <= i < j < |order|
      ensures order[i] != order[j]
    {
      InsertionOrderAt(vs, i);
      InsertionOrderAt(vs, j);
      NodeNameInjective(KindAt(vs, i), KindAt(vs, j));
    }
  }

  /** Distinct vertices give distinct edges W -> B(v): one edge per vertex. */
  lemma {:induction false} WeatherEdgesCount(vs: seq<string>)
    requires Distinct(vs)
    ensures |WeatherEdges(vs)| == |vs|
  {
    if vs != [] {
      var n := |vs| - 1;
      var init := vs[..n];
      assert Distinct(init);
      WeatherEdgesCount(init);
      assert vs[..n + 1] == vs;
      PrefixStep(vs, n);
      forall j | 0 <= j < n
        ensures NodeName(Breakage(init[j])) != NodeName(Breakage(vs[n]))
      {
        NodeNameInjective(Breakage(init[j]), Breakage(vs[n]));
      }
      assert (WeatherName, NodeName(Breakage(vs[n]))) !in WeatherEdges(init);
    }
  }

  /** The network has 1 + 2 |vertices| nodes and |vertices| edges. */
  lemma NetworkSize(nodes: map<string, NodeInfo>, order: seq<string>, edges: set<(string, string)>,
                    vs: seq<string>, prior: map<string, real>, rates: map<string, real>, p2: real)
    requires Distinct(vs)
    requires IsBayesNetwork(nodes, order, edges, vs, prior, rates, p2)
    ensures |nodes| == 1 + 2 * |vs|
    ensures |edges| == |vs|
  {
    InsertionOrderDistinct(vs);
    DistinctCardinality(order);
    assert |nodes| == |nodes.Keys|;
    WeatherEdgesCount(vs);
  }

  /**
   Every edge goes from W to a breakage node, and from an earlier node to a
   later one in the insertion order, so that order is a topological order.
   */
  lemma EdgesFollowInsertionOrder(nodes: map<string, NodeInfo>, order: seq<string>, edges: set<(string, string)>,
                                  vs: seq<string>, prior: map<string, real>, rates: map<string, real>, p2: real)
    requires IsBayesNetwork(nodes, order, edges, vs, prior, rates, p2)
    ensures forall e | e in edges :: e.0 == WeatherName && exists k :: 0 <= k < |vs| && e.1 == NodeName(Breakage(vs[k]))
    ensures forall e | e in edges :: exists i, j :: 0 <= i < j < |order| && order[i] == e.0 && order[j] == e.1
  {
    forall e | e in edges
      ensures e.0 == WeatherName && exists k :: 0 <= k < |vs| && e.1 == NodeName(Breakage(vs[k]))
      ensures exists i, j :: 0 <= i < j < |order| && order[i] == e.0 && order[j] == e.1
    {
      var v :| v in vs && e == (WeatherName, NodeName(Breakage(v)));
      var k :| 0 <= k < |vs| && vs[k] == v;
      InsertionOrderAt(vs, 0);
      InsertionOrderAt(vs, k + 1);
      assert order[0] == e.0 && order[k + 1] == e.1;
    }
  }

  /** No edge enters or leaves an evacuee node. */
  lemma EvacueeNodesHaveNoEdges(nodes: map<string, NodeInfo>, order: seq<string>, edges: set<(string, string)>,
                                vs: seq<string>, prior: map<string, real>, rates: map<string, real>, p2: real, u: string)
    requires IsBayesNetwork(nodes, order, edges, vs, prior, rates, p2)
    ensures forall e | e in edges :: e.0 != NodeName(Evacuee(u)) && e.1 != NodeName(Evacuee(u))
  {
    NodeNameInjective(Weather, Evacuee(u));
    forall e | e in edges
      ensures e.0 != NodeName(Evacuee(u)) && e.1 != NodeName(Evacuee(u))
    {
      var v :| v in vs && e == (WeatherName, NodeName(Breakage(v)));
      NodeNameInjective(Breakage(v), Evacuee(u));
    }
  }

  /**
   The network is determined by the vertices, the weather prior, the base
   rates and p2 alone: two networks built from the same values are equal, so
   p1 and the edge weights cannot influence the result.
   */
  lemma {:induction false} BayesNetworkUnique(
    nodes1: map<string, NodeInfo>, order1: seq<string>, edges1: set<(string, string)>,
    nodes2: map<string, NodeInfo>, order2: seq<string>, edges2: set<(string, string)>,
    vs: seq<string>, prior: map<string, real>, rates: map<string, real>, p2: real)
    requires IsBayesNetwork(nodes1, order1, edges1, vs, prior, rates, p2)
    requires IsBayesNetwork(nodes2, order2, edges2, vs, prior, rates, p2)
    ensures nodes1 == nodes2 && order1 == order2 && edges1 == edges2
  {
    forall n | n in nodes1
      ensures n in nodes2 && nodes1[n] == nodes2[n]
    {
      var i :| 0 <= i < |order1| && order1[i] == n;
      InsertionOrderAt(vs, i);
      if 1 <= i <= |vs| {
        assert n == NodeName(Breakage(vs[i - 1]));
      } else if i > |vs| {
        assert n == NodeName(Evacuee(vs[i - 1 - |vs|]));
      }
    }
  }
}
