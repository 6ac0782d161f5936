/**
 * src/nodes/BasicNode.js, with the plain edge record of src/edges/Edge.js that
 * BasicNode's incidence list holds (the two refer to each other, so they share
 * a module).
 */
module Nodes {
  import opened Results
  import opened TypeMaps

  /** `NodeType.BASIC`; the enum file is not part of this model, so the string is a stand-in. */
  const BasicNodeType: string := "basic"

  /** `RADIUS`: the radius of every node's circle. */
  const Radius: real := 20.0

  /** The constructor's default color. */
  const DefaultColor: string := "rgb(255, 252, 56)"

  /** The color a node gets: the given one, or the default when none is given. */
  function ColorOrDefault(color: Option<string>): string
  {
    if color.Some? then color.value else DefaultColor
  }

  /**
   * The object the edge factory builds (src/edges/Edge.js): fields only, never
   * updated. `start` and `end` are the nodes themselves.
   */
  datatype Edge = Edge(id: int, start: BasicNode, end: BasicNode, length: real)

  /** A plain node record, as loaded from a dump or produced by getDump. */
  datatype PlainNode = PlainNode(id: int, typeTag: Tag, x: real, y: real, color: Option<string>)

  /** The node family's only class, for the registry. */
  datatype NodeClass = BasicNodeClass

  /** `BasicNode.type`. */
  function NodeClassType(c: NodeClass): Tag
  {
    Some(BasicNodeType)
  }

  /** src/nodes/NodeTypeMap.js. */
  const NodeTypeMap: map<string, NodeClass> := MapToType([BasicNodeClass], NodeClassType)

  /** `NodeTypeMap` has exactly one key, the basic type, mapped to BasicNode. */
  lemma NodeTypeMapContents()
    ensures NodeTypeMap == map[BasicNodeType := BasicNodeClass]
  {
    assert NodeTypeMap.Keys == {BasicNodeType};
  }

  /**
   * `edges.findIndex(edge => edge.id === id)`: the index of the first edge with
   * that id, or -1.
   */
  function FindEdgeIndex(es: seq<Edge>, id: int): (r: int)
    ensures -1 <= r < |es|
    ensures r >= 0 ==> es[r].id == id && forall k :: 0 <= k < r ==> es[k].id != id
    ensures r == -1 ==> forall k :: 0 <= k < |es| ==> es[k].id != id
    decreases |es|
  {
    if es == [] then -1
    else if es[0].id == id then 0
    else
      var r := FindEdgeIndex(es[1..], id);
      if r == -1 then -1 else r + 1
  }

  /** The list `removeEdge` leaves, as written: only an index above 0 is spliced out. */
  function RemoveEdgeAsWritten(es: seq<Edge>, id: int): seq<Edge>
  {
    var index := FindEdgeIndex(es, id);
    if index > 0 then es[..index] + es[index + 1..] else es
  }

  /** The list `removeEdge` evidently means to leave ("if found"): any found index is spliced out. */
  function RemoveEdgeIntended(es: seq<Edge>, id: int): seq<Edge>
  {
    var index := FindEdgeIndex(es, id);
    if index >= 0 then es[..index] + es[index + 1..] else es
  }

  /**
   * As written, `removeEdge` leaves the list unchanged exactly when no edge has
   * the id or the first such edge sits at index 0; otherwise it drops one edge.
   */
  lemma RemoveEdgeAsWrittenCases(es: seq<Edge>, id: int)
    ensures RemoveEdgeAsWritten(es, id) == es <==>
      FindEdgeIndex(es, id) == -1 || FindEdgeIndex(es, id) == 0
    ensures RemoveEdgeAsWritten(es, id) != es ==>
      |RemoveEdgeAsWritten(es, id)| == |es| - 1 &&
      multiset(RemoveEdgeAsWritten(es, id)) + multiset{es[FindEdgeIndex(es, id)]} == multiset(es)
  {
    var i := FindEdgeIndex(es, id);
    if i > 0 {
      SpliceCounts(es, i);
      assert |RemoveEdgeAsWritten(es, id)| == |es| - 1;
    }
  }

  /** Splicing out index `i` drops exactly one occurrence of `es[i]`. */
  lemma SpliceCounts(es: seq<Edge>, i: int)
    requires 0 <= i < |es|
    ensures multiset(es[..i] + es[i + 1..]) + multiset{es[i]} == multiset(es)
  {
    assert es == es[..i] + [es[i]] + es[i + 1..];
  }

  /** The discrepancy: the only edge of a one-edge list is never removed. */
  lemma RemoveOnlyEdge(e: Edge)
    ensures RemoveEdgeAsWritten([e], e.id) == [e]
    ensures RemoveEdgeIntended([e], e.id) == []
  {
  }

  /**
   * As intended, removal takes out exactly the first edge with the id and keeps
   * the others in order; the list is unchanged exactly when no edge has the id.
   */
  lemma {:induction false} RemoveEdgeIntendedRemovesFirstMatch(es: seq<Edge>, id: int)
    ensures RemoveEdgeIntended(es, id) == es <==> forall k :: 0 <= k < |es| ==> es[k].id != id
    ensures (exists k :: 0 <= k < |es| && es[k].id == id) ==>
      |RemoveEdgeIntended(es, id)| == |es| - 1 &&
      es[FindEdgeIndex(es, id)].id == id &&
      multiset(RemoveEdgeIntended(es, id)) + multiset{es[FindEdgeIndex(es, id)]} == multiset(es) &&
      forall k :: 0 <= k < FindEdgeIndex(es, id) ==> RemoveEdgeIntended(es, id)[k] == es[k] && es[k].id != id
  {
    var i := FindEdgeIndex(es, id);
    if i >= 0 {
      SpliceCounts(es, i);
      assert |RemoveEdgeIntended(es, id)| == |es| - 1;
    }
  }

  /** A node: identity, position and color never change; the incidence list does. */
  class BasicNode {
    const id: int
    const x: real
    const y: real
    /** The color handed to the node's circle, read back by getDump as `shape.fill.color`. */
    const color: string
    var edges: seq<Edge>

    constructor (id: int, x: real, y: real, color: Option<string>)
      ensures this.id == id && this.x == x && this.y == y
      ensures this.color == ColorOrDefault(color)
      ensures edges == []
    {
      this.id := id;
      this.x := x;
      this.y := y;
      this.color := ColorOrDefault(color);
      edges := [];
    }

    /** `BasicNode.create(dump)`: a node from exactly the id, x, y and color of the dump. */
    static method Create(dump: PlainNode) returns (n: BasicNode)
      ensures fresh(n)
      ensures n.id == dump.id && n.x == dump.x && n.y == dump.y
      ensures n.color == ColorOrDefault(dump.color) && n.edges == []
    {
      n := new BasicNode(dump.id, dump.x, dump.y, dump.color);
    }

    /** `getDump()`: the plain record `{id, type, x, y, color}`. */
    function GetDump(): (d: PlainNode)
      ensures d.id == id && d.x == x && d.y == y && d.color == Some(color)
      ensures d.typeTag == Some(BasicNodeType)
      ensures TypeMaps.PropertyKey(d.typeTag) in NodeTypeMap
    {
      PlainNode(id, Some(BasicNodeType), x, y, Some(color))
    }

    /** `addEdge(edge)`: appends, with no duplicate check. */
    method AddEdge(edge: Edge)
      modifies this
      ensures edges == old(edges) + [edge]
    {
      edges := edges + [edge];
    }

    /** `removeEdge(id)`, as written (`index > 0`). */
    method RemoveEdge(edgeToRemoveId: int)
      modifies this
      ensures edges == RemoveEdgeAsWritten(old(edges), edgeToRemoveId)
    {
      var index := FindEdgeIndex(edges, edgeToRemoveId);
      if index > 0 {
        edges := edges[..index] + edges[index + 1..];
      }
    }

    /** `removeEdge(id)` with the evidently intended test `index >= 0`. */
    method RemoveEdgeCorrected(edgeToRemoveId: int)
      modifies this
      ensures edges == RemoveEdgeIntended(old(edges), edgeToRemoveId)
    {
      var index := FindEdgeIndex(edges, edgeToRemoveId);
      if index >= 0 {
        edges := edges[..index] + edges[index + 1..];
      }
    }
  }

  /** Round trip: `create(n.getDump())` has the id, position and color of `n`. */
  method CreateFromOwnDump(n: BasicNode) returns (m: BasicNode)
    ensures m.id == n.id && m.x == n.x && m.y == n.y && m.color == n.color
    ensures m.edges == []
  {
    m := BasicNode.Create(n.GetDump());
  }
}
