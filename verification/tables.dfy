/**
 Node attributes and probability tables of the Bayesian network.

 Every node carries a list of states and a "probabilities" dictionary. The
 weather node maps each weather state straight to a number; a breakage node
 maps "true"/"false" to a row indexed by weather state; an evacuee node maps
 "false" to a row indexed by the state of its breakage node. Probabilities
 are exact reals: the floating-point rounding of 2*x, 1-3*x and 1-p2 is not
 modelled.
 */
module Tables {

  /** A value stored under one key of a node's "probabilities" dictionary. */
  datatype Entry =
    | Scalar(p: real)               // a plain number (weather node)
    | Row(dist: map<string, real>)  // a nested dictionary (breakage, evacuee nodes)

  /** The attributes of one node: its states and its probability dictionary. */
  datatype NodeInfo = NodeInfo(states: seq<string>, probabilities: map<string, Entry>)

  const WeatherStates: seq<string> := ["mild", "stormy", "extreme"]
  const BoolStates: seq<string> := ["true", "false"]

  predicate IsProbability(p: real)
  {
    0.0 <= p <= 1.0
  }

  /** Every number stored in the node's table, nested or not, lies in [0, 1]. */
  ghost predicate EntriesAreProbabilities(n: NodeInfo)
  {
    && (forall k | k in n.probabilities && n.probabilities[k].Scalar? :: IsProbability(n.probabilities[k].p))
    && (forall k, s | k in n.probabilities && n.probabilities[k].Row? && s in n.probabilities[k].dist ::
          IsProbability(n.probabilities[k].dist[s]))
  }

  /**
   The weather node. Its table holds exactly the caller's keys with the
   caller's values: nothing is filtered out, added or renormalised.
   */
  function WeatherNode(prior: map<string, real>): (n: NodeInfo)
    ensures n.states == WeatherStates
    ensures n.probabilities.Keys == prior.Keys
    ensures forall s | s in prior :: n.probabilities[s] == Scalar(prior[s])
  {
    NodeInfo(WeatherStates, map s | s in prior :: Scalar(prior[s]))
  }

  /**
   P(B(v) = true | W) for each weather state, given the base rate x of v: the
   base rate under mild weather, doubled when stormy, tripled when extreme.
   */
  function BrokenRow(x: real): (r: map<string, real>)
    ensures r.Keys == {"mild", "stormy", "extreme"}
    ensures r["mild"] == x
    ensures r["stormy"] == 2.0 * r["mild"] && r["extreme"] == 3.0 * r["mild"]
  {
    map["mild" := x, "stormy" := 2.0 * x, "extreme" := 3.0 * x]
  }

  /** P(B(v) = false | W) for each weather state: the complement of BrokenRow. */
  function IntactRow(x: real): (r: map<string, real>)
    ensures r.Keys == BrokenRow(x).Keys
    ensures forall w | w in r :: r[w] + BrokenRow(x)[w] == 1.0
  {
    map["mild" := 1.0 - x, "stormy" := 1.0 - 2.0 * x, "extreme" := 1.0 - 3.0 * x]
  }

  /** The breakage node of a vertex with base rate x. */
  function BreakageNode(x: real): NodeInfo
  {
    NodeInfo(BoolStates, map["true" := Row(BrokenRow(x)), "false" := Row(IntactRow(x))])
  }

  /** The evacuee node of a vertex: only its "false" row is filled in. */
  function EvacueeNode(p2: real): NodeInfo
  {
    NodeInfo(BoolStates, map["false" := Row(map["true" := p2, "false" := 1.0 - p2])])
  }

  /**
   The breakage table conditioned on weather: P(true) is x, 2x and 3x for
   mild, stormy and extreme, and for every weather state the true and false
   entries add up to exactly 1.
   */
  lemma BreakageRowsSumToOne(x: real)
    ensures BreakageNode(x).states == BoolStates
    ensures BreakageNode(x).probabilities.Keys == {"true", "false"}
    ensures BreakageNode(x).probabilities["true"].Row? && BreakageNode(x).probabilities["false"].Row?
    ensures BreakageNode(x).probabilities["true"].dist.Keys == {"mild", "stormy", "extreme"}
    ensures BreakageNode(x).probabilities["false"].dist.Keys == {"mild", "stormy", "extreme"}
    ensures BreakageNode(x).probabilities["true"].dist["mild"] == x
    ensures BreakageNode(x).probabilities["true"].dist["stormy"] == 2.0 * x
    ensures BreakageNode(x).probabilities["true"].dist["extreme"] == 3.0 * x
    ensures forall w | w in WeatherStates ::
      BreakageNode(x).probabilities["true"].dist[w] + BreakageNode(x).probabilities["false"].dist[w] == 1.0
  {
  }

  /**
   The breakage table holds valid probabilities exactly when 0 <= x <= 1/3;
   nothing checks or clamps x, so for a larger rate the stormy or extreme
   entries leave [0, 1].
   */
  lemma {:induction false} BreakageEntriesValidIff(x: real)
    ensures EntriesAreProbabilities(BreakageNode(x)) <==> 0.0 <= x <= 1.0 / 3.0
  {
    var n := BreakageNode(x);
    if EntriesAreProbabilities(n) {
      assert IsProbability(n.probabilities["true"].dist["mild"]);
      assert IsProbability(n.probabilities["false"].dist["extreme"]);
    }
  }

  /**
   The evacuee table's "false" row, indexed by the state of B(v), holds p2
   under "true" and 1 - p2 under "false": the two add up to 1, and they are
   valid probabilities exactly when p2 is.
   */
  lemma {:induction false} EvacueeRowValidIff(p2: real)
    ensures EvacueeNode(p2).states == BoolStates
    ensures EvacueeNode(p2).probabilities.Keys == {"false"}
    ensures EvacueeNode(p2).probabilities["false"] == Row(map["true" := p2, "false" := 1.0 - p2])
    ensures EvacueeNode(p2).probabilities["false"].dist["true"] + EvacueeNode(p2).probabilities["false"].dist["false"] == 1.0
    ensures EntriesAreProbabilities(EvacueeNode(p2)) <==> IsProbability(p2)
  {
    var n := EvacueeNode(p2);
    if EntriesAreProbabilities(n) {
      assert IsProbability(n.probabilities["false"].dist["true"]);
    }
  }
}
