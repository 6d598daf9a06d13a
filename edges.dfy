// src/edge.py: an edge value with source, target, weight, a directed flag and
// user data; `reverse` swaps the endpoints and keeps everything else.
module Edges {
  import opened Common
  import Text

  datatype Edge = Edge(source: Id, target: Id, weight: Weight, directed: bool, data: Data)
  {
    /** `reverse()`: a new edge running the other way. */
    function Reverse(): (r: Edge)
      ensures r.source == target && r.target == source
      ensures r.weight == weight && r.directed == directed && r.data == data
    {
      Edge(target, source, weight, directed, data)
    }

    /** `__repr__`: `Edge(s → t, weight=w)` when directed, `↔` otherwise.
        A weight stands for a float (the default is `1.0`), and `str` of a
        whole float ends in `.0`; a weight passed as a Python int would print
        without it. */
    function Repr(): string
    {
      "Edge(" + Text.IntToString(source) + " " + [Arrow(directed)] + " "
        + Text.IntToString(target) + ", weight=" + Text.IntToString(weight) + ".0)"
    }
  }

  /** The direction mark of `__repr__`: one of two distinct arrows, chosen by the flag. */
  function Arrow(directed: bool): (c: char)
    ensures c == '→' || c == '↔'
    ensures (c == '→') == directed
  {
    if directed then '→' else '↔'
  }

  /** The constructor `Edge(source, target, weight=1.0, directed=False, data=None)`. */
  function NewEdge(source: Id, target: Id, weight: Weight := 1, directed: bool := false,
                   data: Option<Data> := None): (e: Edge)
    ensures e.source == source && e.target == target
    ensures e.weight == weight && e.directed == directed
    ensures e.data == DataOrEmpty(data)
  {
    Edge(source, target, weight, directed, DataOrEmpty(data))
  }

  /** Left-out arguments give weight 1.0, an undirected edge and empty data. */
  lemma Defaults(source: Id, target: Id)
    ensures NewEdge(source, target) == Edge(source, target, 1, false, map[])
  {
  }

  /** Reversing twice gives back the same edge, field for field. */
  lemma ReverseInvolution(e: Edge)
    ensures e.Reverse().Reverse() == e
    ensures e.Reverse() != e <==> e.source != e.target
  {
  }

  /** The printed form shows the arrow that matches the directed flag, and only
      that one: the numbers never contain an arrow. */
  lemma ReprShowsDirection(e: Edge)
    ensures ('→' in e.Repr()) == e.directed
    ensures ('↔' in e.Repr()) == !e.directed
  {
    var s, t, w := Text.IntToString(e.source), Text.IntToString(e.target), Text.IntToString(e.weight);
    assert '→' !in s && '↔' !in s;
    assert '→' !in t && '↔' !in t;
    assert '→' !in w && '↔' !in w;
    assert e.Repr() == "Edge(" + s + " " + [Arrow(e.directed)] + " " + t + ", weight=" + w + ".0)";
  }
}
