/**
 * src/edges/BasicEdge.js: the edge factory `create(dump, resolver)`, the plain
 * record `dump()`, and the edge registry of src/edges/EdgeTypeMap.js.
 */
module BasicEdges {
  import opened Results
  import opened TypeMaps
  import opened Nodes

  /** `EdgeType.BASIC`; the enum file is not part of this model, so the string is a stand-in. */
  const BasicEdgeType: string := "basic"

  /** The constructor's default length. */
  const DefaultLength: real := 1.0

  /**
   * A plain edge record. An editor passes the node objects `start`/`end`; a
   * loaded dump passes `startId`/`endId` instead. Absent fields are `None`.
   */
  datatype PlainEdge = PlainEdge(
    id: int, typeTag: Tag,
    start: Option<BasicNode>, end: Option<BasicNode>,
    startId: Option<int>, endId: Option<int>,
    length: Option<real>)

  /** The edge family's only class, for the registry. */
  datatype EdgeClass = BasicEdgeClass

  /** `BasicEdge.type`. */
  function EdgeClassType(c: EdgeClass): Tag
  {
    Some(BasicEdgeType)
  }

  /** src/edges/EdgeTypeMap.js. */
  const EdgeTypeMap: map<string, EdgeClass> := MapToType([BasicEdgeClass], EdgeClassType)

  /** `EdgeTypeMap` has exactly one key, the basic type, mapped to BasicEdge. */
  lemma EdgeTypeMapContents()
    ensures EdgeTypeMap == map[BasicEdgeType := BasicEdgeClass]
  {
    assert EdgeTypeMap.Keys == {BasicEdgeType};
  }

  /**
   * One endpoint: `dump.start || resolver.getNodeById(dump.startId)`. A node
   * object is always truthy, so a given node wins and the resolver is asked
   * only otherwise; an absent id matches no node.
   */
  function ResolveEndpoint(given: Option<BasicNode>, nodeId: Option<int>,
                           getNodeById: int -> Option<BasicNode>): Option<BasicNode>
  {
    if given.Some? then given
    else if nodeId.Some? then getNodeById(nodeId.value)
    else None
  }

  /**
   * `BasicEdge.create(dump, resolver)`: `None` (JavaScript `null`) when either
   * endpoint stays unresolved, otherwise the plain `Edge` record.
   */
  function CreateEdge(dump: PlainEdge, getNodeById: int -> Option<BasicNode>): (r: Option<Edge>)
    ensures r.None? <==>
      ResolveEndpoint(dump.start, dump.startId, getNodeById).None? ||
      ResolveEndpoint(dump.end, dump.endId, getNodeById).None?
    ensures r.Some? ==>
      r.value.id == dump.id &&
      Some(r.value.start) == ResolveEndpoint(dump.start, dump.startId, getNodeById) &&
      Some(r.value.end) == ResolveEndpoint(dump.end, dump.endId, getNodeById) &&
      r.value.length == (if dump.length.Some? then dump.length.value else DefaultLength)
  {
    var start := ResolveEndpoint(dump.start, dump.startId, getNodeById);
    var end := ResolveEndpoint(dump.end, dump.endId, getNodeById);
    if start.None? || end.None? then None
    else Some(Edge(dump.id, start.value, end.value,
                   if dump.length.Some? then dump.length.value else DefaultLength))
  }

  /** `dump()`: `{id, startId, endId, length}`, with neither a type nor node objects. */
  function DumpEdge(e: Edge): (d: PlainEdge)
    ensures d.typeTag.None? && d.start.None? && d.end.None?
    ensures d.id == e.id && d.startId == Some(e.start.id) && d.endId == Some(e.end.id)
    ensures d.length == Some(e.length)
  {
    PlainEdge(e.id, None, None, None, Some(e.start.id), Some(e.end.id), Some(e.length))
  }

  /** Given node objects are used as they are: the resolver plays no part. */
  lemma GivenNodesIgnoreResolver(dump: PlainEdge, r1: int -> Option<BasicNode>, r2: int -> Option<BasicNode>)
    requires dump.start.Some? && dump.end.Some?
    ensures CreateEdge(dump, r1) == CreateEdge(dump, r2)
    ensures CreateEdge(dump, r1).Some?
    ensures CreateEdge(dump, r1).value.start == dump.start.value
    ensures CreateEdge(dump, r1).value.end == dump.end.value
  {
  }

  /**
   * Round trip: re-creating an edge from its dump, through a resolver that maps
   * the endpoint ids back to the endpoints, gives the same edge.
   */
  lemma DumpThenCreate(e: Edge, getNodeById: int -> Option<BasicNode>)
    requires getNodeById(e.start.id) == Some(e.start)
    requires getNodeById(e.end.id) == Some(e.end)
    ensures CreateEdge(DumpEdge(e), getNodeById) == Some(e)
  {
  }

  /** A dump that names its endpoints only by id fails exactly when the resolver misses one. */
  lemma UnresolvedIdFails(dump: PlainEdge, getNodeById: int -> Option<BasicNode>)
    requires dump.start.None? && dump.end.None?
    requires dump.startId.Some? && dump.endId.Some?
    ensures CreateEdge(dump, getNodeById).None? <==>
      getNodeById(dump.startId.value).None? || getNodeById(dump.endId.value).None?
  {
  }
}
