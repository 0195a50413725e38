/**
 Node names of the Bayesian network.

 create_bayes_network names its nodes by string concatenation: the weather
 node is "W", the breakage node of vertex v is "B(" + v + ")" and the
 evacuee node of v is "Ev(" + v + ")". This module gives those names a
 structured counterpart (NodeKind), a parser that inverts the naming, and
 the consequence the construction relies on: two different nodes never get
 the same name, so no loop iteration overwrites another node.
 */
module Names {

  datatype Option<T> = None | Some(value: T)

  /** What a node of the network stands for. */
  datatype NodeKind =
    | Weather             // "W"
    | Breakage(v: string) // "B(v)": the road/vertex v is broken
    | Evacuee(v: string)  // "Ev(v)": there are evacuees at vertex v

  const WeatherName: string := "W"

  /** The string key the network uses for a node. */
  function NodeName(k: NodeKind): string
  {
    match k
    case Weather => WeatherName
    case Breakage(v) => "B(" + v + ")"
    case Evacuee(v) => "Ev(" + v + ")"
  }

  /** Recovers the node a name was built from; None for a name no node has. */
  function ParseNodeName(s: string): (r: Option<NodeKind>)
    ensures r.Some? ==> NodeName(r.value) == s
  {
    if s == WeatherName then Some(Weather)
    else if |s| >= 3 && s[..2] == "B(" && s[|s| - 1] == ')' then
      assert s == "B(" + s[2..|s| - 1] + ")";
      Some(Breakage(s[2..|s| - 1]))
    else if |s| >= 4 && s[..3] == "Ev(" && s[|s| - 1] == ')' then
      assert s == "Ev(" + s[3..|s| - 1] + ")";
      Some(Evacuee(s[3..|s| - 1]))
    else None
  }

  /** Parsing a built name gives back the node it was built from. */
  lemma ParseNodeNameRoundTrip(k: NodeKind)
    ensures ParseNodeName(NodeName(k)) == Some(k)
  {
    var s := NodeName(k);
    match k
    case Weather =>
    case Breakage(v) =>
      assert s[..2] == "B(" && s[2..|s| - 1] == v;
    case Evacuee(v) =>
      assert s != WeatherName;
      assert s[0] == 'E' && "B("[0] == 'B';
      assert s[..3] == "Ev(" && s[3..|s| - 1] == v;
  }

  /**
   Different nodes have different names: "B(a)" == "B(b)" only when a == b,
   likewise for "Ev(", and no breakage name equals an evacuee name or "W".
   */
  lemma NodeNameInjective(a: NodeKind, b: NodeKind)
    ensures NodeName(a) == NodeName(b) <==> a == b
  {
    ParseNodeNameRoundTrip(a);
    ParseNodeNameRoundTrip(b);
  }
}
