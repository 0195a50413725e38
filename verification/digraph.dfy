/**
 The directed graph that holds the network: the part of a networkx DiGraph
 that create_bayes_network uses. A node is a string key with an attribute
 record; nodes remember the order in which they were first added; edges are
 ordered pairs of node keys.
 */
module DiGraphs {
  import opened Tables

  predicate Distinct<T(==)>(s: seq<T>)
  {
    forall i, j | 0 <= i < j < |s| :: s[i] != s[j]
  }

  function Elements<T>(s: seq<T>): set<T>
  {
    set x | x in s
  }

  /** A sequence without repetitions has as many distinct elements as entries. */
  lemma {:induction false} DistinctCardinality<T>(s: seq<T>)
    requires Distinct(s)
    ensures |Elements(s)| == |s|
  {
    if s != [] {
      var last := s[|s| - 1];
      var init := s[..|s| - 1];
      assert Distinct(init);
      DistinctCardinality(init);
      assert Elements(s) == Elements(init) + {last};
      assert last !in Elements(init);
    }
  }

  class DiGraph {
    var nodes: map<string, NodeInfo>
    var order: seq<string>
    var edges: set<(string, string)>

    /** Each node is listed once in insertion order, and edges join existing nodes. */
    ghost predicate Valid()
      reads this
    {
      && Distinct(order)
      && nodes.Keys == Elements(order)
      && (forall e | e in edges :: e.0 in nodes && e.1 in nodes)
    }

    /** An empty graph. */
    constructor ()
      ensures Valid()
      ensures nodes == map[] && order == [] && edges == {}
    {
      nodes, order, edges := map[], [], {};
    }

    /**
     Adds a node with the given states. A new node is appended to the
     insertion order and starts with an empty "probabilities" dictionary;
     for a node that exists already only the states are replaced.

     networkx's add_node creates no "probabilities" attribute at all, so the
     first write into it would fail; the model takes the evident intent, an
     empty dictionary created together with the node.
     */
    method AddNode(name: string, states: seq<string>)
      requires Valid()
      modifies this
      ensures Valid()
      ensures name !in old(nodes) ==> order == old(order) + [name]
      ensures name !in old(nodes) ==> nodes == old(nodes)[name := NodeInfo(states, map[])]
      ensures name in old(nodes) ==> order == old(order)
      ensures name in old(nodes) ==> nodes == old(nodes)[name := old(nodes)[name].(states := states)]
      ensures edges == old(edges)
    {
      if name in nodes {
        nodes := nodes[name := nodes[name].(states := states)];
      } else {
        assert forall i | 0 <= i < |order| :: order[i] in nodes;
        nodes := nodes[name := NodeInfo(states, map[])];
        order := order + [name];
      }
    }

    /**
     Adds the edge u -> v. As in networkx, an endpoint that is not yet a
     node is added first (u before v), with no states and an empty table.
     */
    method AddEdge(u: string, v: string)
      requires Valid()
      modifies this
      ensures Valid()
      ensures edges == old(edges) + {(u, v)}
      ensures nodes.Keys == old(nodes.Keys) + {u, v}
      ensures order == old(order) + (if u in old(nodes) then [] else [u])
                                  + (if v in old(nodes) || v == u then [] else [v])
      ensures forall n | n in old(nodes) :: nodes[n] == old(nodes)[n]
      ensures forall n | n in nodes && n !in old(nodes) :: nodes[n] == NodeInfo([], map[])
      ensures u in old(nodes) && v in old(nodes) ==> nodes == old(nodes)
    {
      if u !in nodes {
        AddNode(u, []);
      }
      if v !in nodes {
        AddNode(v, []);
      }
      edges := edges + {(u, v)};
    }

    /** Stores value under key in the "probabilities" dictionary of node name. */
    method SetProbability(name: string, key: string, value: Entry)
      requires Valid()
      requires name in nodes
      modifies this
      ensures Valid()
      ensures nodes == old(nodes)[name := old(nodes)[name].(probabilities := old(nodes)[name].probabilities[key := value])]
      ensures order == old(order) && edges == old(edges)
    {
      nodes := nodes[name := nodes[name].(probabilities := nodes[name].probabilities[key := value])];
    }
  }
}
