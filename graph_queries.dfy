/**
 * The value-level parts of src/Graph.js: the `find` lookups by id, the node
 * map the constructor resolves edge endpoints through, which dumps can be
 * loaded, and the two hit tests of `getNodeByCoord`.
 */
module GraphQueries {
  import opened Results
  import opened TypeMaps
  import opened Nodes
  import opened BasicEdges
  import opened JsNumbers
  import PathTravelers

  /** A plain agent record; no agent class can be built from one. */
  datatype PlainAgent = PlainAgent(id: int, typeTag: Tag)

  /** `{nodes, edges, agents}`: what `Graph.create` reads and `getDump` writes. */
  datatype PlainGraph = PlainGraph(nodes: seq<PlainNode>, edges: seq<PlainEdge>, agents: seq<PlainAgent>)

  // ---------------------------------------------------------------------------
  // Lookups by id
  // ---------------------------------------------------------------------------

  /** Where `nodes.find(node => node.id === id)` stops: the first match, or the length. */
  function NodeIndex(nodes: seq<BasicNode>, id: int): (k: nat)
    ensures k <= |nodes|
    ensures forall i :: 0 <= i < k ==> nodes[i].id != id
    ensures k < |nodes| ==> nodes[k].id == id
  {
    if nodes == [] then 0
    else if nodes[0].id == id then 0
    else 1 + NodeIndex(nodes[1..], id)
  }

  /** `getNodeById`: the first node with the id, `None` for `undefined`. */
  function FindNode(nodes: seq<BasicNode>, id: int): (r: Option<BasicNode>)
    ensures r.Some? ==> r.value in nodes && r.value.id == id
    ensures r.None? <==> forall i :: 0 <= i < |nodes| ==> nodes[i].id != id
  {
    var k := NodeIndex(nodes, id);
    if k < |nodes| then Some(nodes[k]) else None
  }

  /**
   * Where `edges.find(edge => edge.id === id)` stops: at the first edge with
   * the id, at the first `null` (reading `null.id` throws), or at the end.
   */
  function EdgeStop(edges: seq<Option<Edge>>, id: int): (k: nat)
    ensures k <= |edges|
    ensures forall i :: 0 <= i < k ==> edges[i].Some? && edges[i].value.id != id
    ensures k < |edges| ==> edges[k].None? || edges[k].value.id == id
  {
    if edges == [] then 0
    else if edges[0].None? || edges[0].value.id == id then 0
    else 1 + EdgeStop(edges[1..], id)
  }

  /** `getEdgeById`: fails on reaching a `null` before a match. */
  function FindEdge(edges: seq<Option<Edge>>, id: int): (r: Result<Option<Edge>>)
    ensures r.Success? && r.value.Some? ==> r.value.value.id == id && r.value in edges
    ensures r == Success(None) <==> forall i :: 0 <= i < |edges| ==> edges[i].Some? && edges[i].value.id != id
  {
    var k := EdgeStop(edges, id);
    if k == |edges| then Success(None)
    else if edges[k].None? then Failure
    else Success(edges[k])
  }

  /** The numbering the node pool produces: the node at position `i` has id `i + 1`. */
  predicate NodesNumbered(nodes: seq<BasicNode>)
  {
    forall i :: 0 <= i < |nodes| ==> nodes[i].id == i + 1
  }

  /** The same for edges; a `null` left by a failed `addEdge` still used up its id. */
  predicate EdgesNumbered(edges: seq<Option<Edge>>)
  {
    forall i :: 0 <= i < |edges| ==> edges[i].Some? ==> edges[i].value.id == i + 1
  }

  /** With pool numbering, a node lookup is a position lookup. */
  lemma NodeIdIsPosition(nodes: seq<BasicNode>, id: int)
    requires NodesNumbered(nodes)
    ensures FindNode(nodes, id) == if 1 <= id <= |nodes| then Some(nodes[id - 1]) else None
  {
    var k := NodeIndex(nodes, id);
    if 1 <= id <= |nodes| {
      assert nodes[id - 1].id == id;
      assert k == id - 1;
    }
  }

  /**
   * With pool numbering, an edge lookup fails exactly when a `null` sits
   * before the edge's position (or anywhere, for an id no edge has), and
   * otherwise finds the edge at position `id - 1`.
   */
  lemma EdgeIdIsPosition(edges: seq<Option<Edge>>, id: int)
    requires EdgesNumbered(edges)
    ensures var bound := if 1 <= id <= |edges| then id else |edges|;
      FindEdge(edges, id) ==
        if exists i :: 0 <= i < bound && edges[i].None? then Failure
        else if bound < |edges| || 1 <= id <= |edges| then Success(edges[id - 1])
        else Success(None)
  {
    var bound := if 1 <= id <= |edges| then id else |edges|;
    var k := EdgeStop(edges, id);
    if exists i :: 0 <= i < bound && edges[i].None? {
      var i :| 0 <= i < bound && edges[i].None?;
      assert k <= i;
      assert k < |edges|;
      assert edges[k].None? by {
        if edges[k].Some? { assert edges[k].value.id == k + 1 && k + 1 < id; }
      }
    } else if 1 <= id <= |edges| {
      assert k == id - 1;
    } else {
      assert k == |edges|;
    }
  }

  // ---------------------------------------------------------------------------
  // Loading a dump
  // ---------------------------------------------------------------------------

  /** The ids the dump's nodes carry. */
  function DumpIds(dumps: seq<PlainNode>): set<int>
  {
    set d | d in dumps :: d.id
  }

  /**
   * `nodeMap[node.id] = this.addNode(node)`, in list order: the map from each
   * dump id to the node built for it, a later dump overwriting an earlier
   * one with the same id.
   */
  function NodeMap(dumps: seq<PlainNode>, created: seq<BasicNode>): (m: map<int, BasicNode>)
    requires |dumps| == |created|
    ensures m.Keys == DumpIds(dumps)
    ensures forall id :: id in m ==> m[id] in created
    decreases |dumps|
  {
    if dumps == [] then map[]
    else
      var n := |dumps| - 1;
      assert dumps == dumps[..n] + [dumps[n]];
      NodeMap(dumps[..n], created[..n])[dumps[n].id := created[n]]
  }

  /** One more dump: the map of the longer prefix is the old map with one more entry. */
  lemma NodeMapExtend(dumps: seq<PlainNode>, created: seq<BasicNode>, i: nat)
    requires i < |dumps| && |created| == i + 1
    ensures NodeMap(dumps[..i + 1], created) == NodeMap(dumps[..i], created[..i])[dumps[i].id := created[i]]
  {
    var ds := dumps[..i + 1];
    assert ds[..i] == dumps[..i] && ds[i] == dumps[i];
    assert NodeMap(ds, created) == NodeMap(ds[..i], created[..i])[ds[i].id := created[i]];
  }

  /** The graph's own `_resolver`: `getNodeById` over the current node list. */
  function ListResolver(nodes: seq<BasicNode>): int -> Option<BasicNode>
  {
    (id: int) => FindNode(nodes, id)
  }

  /**
   * The resolver `_create` uses: the constructor's node map when one is
   * passed, or else the graph's own. No other resolver is passed anywhere.
   */
  function ResolverFor(resolver: Option<map<int, BasicNode>>, nodes: seq<BasicNode>): int -> Option<BasicNode>
  {
    if resolver.Some? then MapResolver(resolver.value) else ListResolver(nodes)
  }

  /** The nodes a resolver can hand back: the map's values, or the graph's nodes. */
  function Resolvable(resolver: Option<map<int, BasicNode>>, nodes: seq<BasicNode>): set<BasicNode>
  {
    if resolver.Some? then resolver.value.Values else set n | n in nodes
  }

  /** An edge's endpoints are nodes the dump gives, or nodes the resolver can hand back. */
  lemma EndsComeFrom(d: PlainEdge, resolver: Option<map<int, BasicNode>>, nodes: seq<BasicNode>)
    ensures CreateEdge(d, ResolverFor(resolver, nodes)).Some? ==>
      var e := CreateEdge(d, ResolverFor(resolver, nodes)).value;
      (e.start in GivenEnds(d) || e.start in Resolvable(resolver, nodes)) &&
      (e.end in GivenEnds(d) || e.end in Resolvable(resolver, nodes))
  {
    var r := ResolverFor(resolver, nodes);
    if resolver.Some? {
      MapResolverBuildsEdge(d, resolver.value);
    } else {
      if d.startId.Some? {
        assert r(d.startId.value) == FindNode(nodes, d.startId.value);
      }
      if d.endId.Some? {
        assert r(d.endId.value) == FindNode(nodes, d.endId.value);
      }
    }
  }

  /** The constructor's `hashedNodeResolver`. */
  function MapResolver(m: map<int, BasicNode>): int -> Option<BasicNode>
  {
    (id: int) => if id in m then Some(m[id]) else None
  }

  /**
   * Endpoints are resolved by the dump's own ids: the node built for the
   * last dump that carries an id is the one that id resolves to.
   */
  lemma {:induction false} NodeMapResolvesDumpIds(dumps: seq<PlainNode>, created: seq<BasicNode>, i: nat)
    requires |dumps| == |created| && i < |dumps|
    requires forall j :: i < j < |dumps| ==> dumps[j].id != dumps[i].id
    ensures MapResolver(NodeMap(dumps, created))(dumps[i].id) == Some(created[i])
    decreases |dumps|
  {
    var n := |dumps| - 1;
    assert NodeMap(dumps, created) == NodeMap(dumps[..n], created[..n])[dumps[n].id := created[n]];
    if i < n {
      var ds, cs := dumps[..n], created[..n];
      assert ds[i] == dumps[i] && cs[i] == created[i];
      forall j | i < j < |ds|
        ensures ds[j].id != ds[i].id
      {
        assert ds[j] == dumps[j];
      }
      NodeMapResolvesDumpIds(ds, cs, i);
    }
  }

  /**
   * `NodeTypeMap[dump.type]` exists, stated through the registry's contents:
   * its only key is the basic node type (see `KnownNodeIsRegistered`).
   */
  predicate KnownNode(d: PlainNode)
  {
    PropertyKey(d.typeTag) == BasicNodeType
  }

  /** `EdgeTypeMap[dump.type]` exists; its only key is the basic edge type. */
  predicate KnownEdge(d: PlainEdge)
  {
    PropertyKey(d.typeTag) == BasicEdgeType
  }

  /**
   * `AgentTypeMap[dump.type]` exists; its keys are `"undefined"` (Traveler
   * declares no type) and the path-traveler type.
   */
  predicate KnownAgent(d: PlainAgent)
  {
    PropertyKey(d.typeTag) == "undefined" || PropertyKey(d.typeTag) == PathTravelers.PathTravelerType
  }

  lemma KnownNodeIsRegistered(d: PlainNode)
    ensures KnownNode(d) <==> PropertyKey(d.typeTag) in NodeTypeMap
  {
    NodeTypeMapContents();
  }

  lemma KnownEdgeIsRegistered(d: PlainEdge)
    ensures KnownEdge(d) <==> PropertyKey(d.typeTag) in EdgeTypeMap
  {
    EdgeTypeMapContents();
  }

  lemma KnownAgentIsRegistered(d: PlainAgent)
    ensures KnownAgent(d) <==> PropertyKey(d.typeTag) in PathTravelers.AgentTypeMap
  {
    PathTravelers.AgentTypeMapContents();
  }

  /** An endpoint can be resolved: a node object, or an id some node dump carries. */
  predicate EndResolves(given: Option<BasicNode>, nodeId: Option<int>, ids: set<int>)
  {
    given.Some? || (nodeId.Some? && nodeId.value in ids)
  }

  /** An edge dump that loads: its type is known and both endpoints resolve. */
  predicate EdgeLoads(d: PlainEdge, ids: set<int>)
  {
    KnownEdge(d) && EndResolves(d.start, d.startId, ids) && EndResolves(d.end, d.endId, ids)
  }

  /**
   * A dump the constructor gets through: every node and edge type is known,
   * every edge resolves, and there are no agents (no agent class has the
   * static `create` the registry calls).
   */
  predicate Loadable(g: PlainGraph)
  {
    (forall i :: 0 <= i < |g.nodes| ==> KnownNode(g.nodes[i])) &&
    (forall j :: 0 <= j < |g.edges| ==> EdgeLoads(g.edges[j], DumpIds(g.nodes))) &&
    g.agents == []
  }

  /** Through the node map, an edge is built exactly when both endpoints resolve by dump id. */
  lemma MapResolverBuildsEdge(d: PlainEdge, m: map<int, BasicNode>)
    ensures CreateEdge(d, MapResolver(m)).Some? <==>
      EndResolves(d.start, d.startId, m.Keys) && EndResolves(d.end, d.endId, m.Keys)
    ensures CreateEdge(d, MapResolver(m)).Some? ==>
      var e := CreateEdge(d, MapResolver(m)).value;
      (e.start in GivenEnds(d) || e.start in m.Values) && (e.end in GivenEnds(d) || e.end in m.Values)
  {
    var r := MapResolver(m);
    if d.startId.Some? {
      assert r(d.startId.value) == if d.startId.value in m then Some(m[d.startId.value]) else None;
    }
    if d.endId.Some? {
      assert r(d.endId.value) == if d.endId.value in m then Some(m[d.endId.value]) else None;
    }
  }

  /**
   * Whatever id the pool assigns, an edge dump loads through the node map
   * exactly when its type is known and the edge gets built.
   */
  lemma EdgeLoadsThroughMap(d: PlainEdge, m: map<int, BasicNode>, id: int)
    ensures EdgeLoads(d, m.Keys) <==> KnownEdge(d) && CreateEdge(d.(id := id), MapResolver(m)).Some?
  {
    MapResolverBuildsEdge(d, m);
    MapResolverBuildsEdge(d.(id := id), m);
  }

  /** The node objects an edge dump hands over directly. */
  function GivenEnds(d: PlainEdge): set<BasicNode>
  {
    (if d.start.Some? then {d.start.value} else {}) + (if d.end.Some? then {d.end.value} else {})
  }

  /** Every node object the edge dumps of a graph hand over. */
  function GivenNodes(es: seq<PlainEdge>): set<BasicNode>
  {
    set j, n | 0 <= j < |es| && n in GivenEnds(es[j]) :: n
  }

  /** The nodes an `addEdge` touches: the two endpoints of the edge built, if one is. */
  function Ends(e: Option<Edge>): set<BasicNode>
  {
    if e.Some? then {e.value.start, e.value.end} else {}
  }

  /** A graph's own dump loads again whenever it succeeds: node types are known and there is nothing else. */
  lemma OwnDumpLoads(nodes: seq<BasicNode>)
    ensures Loadable(PlainGraph(seq(|nodes|, i requires 0 <= i < |nodes| => nodes[i].GetDump()), [], []))
  {
  }

  // ---------------------------------------------------------------------------
  // Hit tests of getNodeByCoord
  // ---------------------------------------------------------------------------

  function Abs(r: real): real
  {
    if r < 0.0 then -r else r
  }

  function MaxOf(a: real, b: real): real
  {
    if a <= b then b else a
  }

  /** The rough test: `Math.max(Math.abs(dx), Math.abs(dy)) > radius`. */
  predicate OutsideSquare(dx: real, dy: real)
  {
    MaxOf(Abs(dx), Abs(dy)) > Radius
  }

  /**
   * The operand of `Math.sqrt(dx^2 + dy^2)` as written. `+` binds tighter than
   * `^`, so this is `(dx ^ (2 + dy)) ^ 2`: two 32-bit XORs, not squares.
   */
  function PreciseOperand(dx: real, dy: real): int
  {
    Xor(Xor(dx, 2.0 + dy) as real, 2.0)
  }

  /**
   * The precise test as written: `Math.sqrt(v) > radius`. For a negative `v`
   * the square root is NaN and the comparison is false; otherwise it holds
   * exactly when `v > radius * radius`.
   */
  predicate OutsideCircleAsWritten(dx: real, dy: real)
  {
    PreciseOperand(dx, dy) as real > Radius * Radius
  }

  /** The precise test as intended: the point is farther than the radius from the center. */
  predicate OutsideCircle(dx: real, dy: real)
  {
    dx * dx + dy * dy > Radius * Radius
  }

  /** A node passes both tests as written, for the point (x, y); `node.shape` is anchored at the node. */
  predicate HitAsWritten(n: BasicNode, x: real, y: real)
  {
    !OutsideSquare(n.x - x, n.y - y) && !OutsideCircleAsWritten(n.x - x, n.y - y)
  }

  /** A node passes both tests as intended. */
  predicate Hit(n: BasicNode, x: real, y: real)
  {
    !OutsideSquare(n.x - x, n.y - y) && !OutsideCircle(n.x - x, n.y - y)
  }

  /** The position of the first node hit as written, or the length. */
  function FirstHitAsWritten(nodes: seq<BasicNode>, x: real, y: real): (k: nat)
    ensures k <= |nodes|
    ensures forall i :: 0 <= i < k ==> !HitAsWritten(nodes[i], x, y)
    ensures k < |nodes| ==> HitAsWritten(nodes[k], x, y)
  {
    if nodes == [] then 0
    else if HitAsWritten(nodes[0], x, y) then 0
    else 1 + FirstHitAsWritten(nodes[1..], x, y)
  }

  /** The position of the first node hit as intended, or the length. */
  function FirstHit(nodes: seq<BasicNode>, x: real, y: real): (k: nat)
    ensures k <= |nodes|
    ensures forall i :: 0 <= i < k ==> !Hit(nodes[i], x, y)
    ensures k < |nodes| ==> Hit(nodes[k], x, y)
  {
    if nodes == [] then 0
    else if Hit(nodes[0], x, y) then 0
    else 1 + FirstHit(nodes[1..], x, y)
  }

  /** The node at a position, `None` for `null` past the end. */
  function NodeAt(nodes: seq<BasicNode>, k: nat): Option<BasicNode>
  {
    if k < |nodes| then Some(nodes[k]) else None
  }

  /**
   * Inside the square, the precise test as written never rejects: both
   * operands of each XOR lie between -64 and 64, so the result does too,
   * far below radius squared.
   */
  lemma PreciseTestNeverRejects(dx: real, dy: real)
    requires !OutsideSquare(dx, dy)
    ensures !OutsideCircleAsWritten(dx, dy)
  {
    XorOfSmall(dx, 2.0 + dy);
    XorOfSmall(Xor(dx, 2.0 + dy) as real, 2.0);
  }

  /** The query as written returns the first node whose bounding square holds the point. */
  lemma AsWrittenPicksFirstInSquare(nodes: seq<BasicNode>, x: real, y: real)
    ensures var k := FirstHitAsWritten(nodes, x, y);
      (forall i :: 0 <= i < k ==> OutsideSquare(nodes[i].x - x, nodes[i].y - y)) &&
      (k < |nodes| ==> !OutsideSquare(nodes[k].x - x, nodes[k].y - y))
  {
    var k := FirstHitAsWritten(nodes, x, y);
    forall i | 0 <= i < k
      ensures OutsideSquare(nodes[i].x - x, nodes[i].y - y)
    {
      if !OutsideSquare(nodes[i].x - x, nodes[i].y - y) {
        PreciseTestNeverRejects(nodes[i].x - x, nodes[i].y - y);
      }
    }
  }

  /**
   * The point (0, 0) against a node at (19, 19): inside the square, 26.9 away
   * from the center and so outside the circle, yet `(19 ^ 21) ^ 2` is 4 and
   * the test as written lets it through.
   */
  lemma CornerPointAcceptedAsWritten()
    ensures !OutsideSquare(19.0, 19.0)
    ensures OutsideCircle(19.0, 19.0)
    ensures !OutsideCircleAsWritten(19.0, 19.0)
  {
    XorNineteen();
    XorSix();
  }

  /** `19 ^ 21` is 6. */
  lemma XorNineteen()
    ensures Xor(19.0, 21.0) == 6
  {
    assert Trunc(19.0) == 19 && Trunc(21.0) == 21;
    XorBitsEnds(27);
    assert XorBits(1, 1, 28) == 0;
    assert XorBits(2, 2, 29) == 0;
    assert XorBits(4, 5, 30) == 1;
    assert XorBits(9, 10, 31) == 3;
  }

  /** `6 ^ 2` is 4. */
  lemma XorSix()
    ensures Xor(6.0, 2.0) == 4
  {
    assert Trunc(6.0) == 6 && Trunc(2.0) == 2;
    XorBitsEnds(29);
    assert XorBits(1, 0, 30) == 1;
    assert XorBits(3, 1, 31) == 2;
  }

  /** A point inside the circle is inside its bounding square, so the rough test never loses a hit. */
  lemma CircleInsideSquare(dx: real, dy: real)
    requires !OutsideCircle(dx, dy)
    ensures !OutsideSquare(dx, dy)
  {
    if Abs(dx) > Radius {
      NonNegSquare(dy);
      SquareGrows(Abs(dx));
    }
    if Abs(dy) > Radius {
      NonNegSquare(dx);
      SquareGrows(Abs(dy));
    }
  }

  lemma SquareGrows(a: real)
    requires a > Radius
    ensures a * a > Radius * Radius
  {
    assert a * a > Radius * a;
  }

  lemma NonNegSquare(a: real)
    ensures a * a >= 0.0
  {
    if a < 0.0 {
      assert a * a == (-a) * (-a);
    }
  }

  /** As intended, the query returns the first node whose circle holds the point. */
  lemma IntendedPicksFirstInCircle(nodes: seq<BasicNode>, x: real, y: real)
    ensures var k := FirstHit(nodes, x, y);
      (forall i :: 0 <= i < k ==> OutsideCircle(nodes[i].x - x, nodes[i].y - y)) &&
      (k < |nodes| ==> !OutsideCircle(nodes[k].x - x, nodes[k].y - y))
  {
    var k := FirstHit(nodes, x, y);
    forall i | 0 <= i < k
      ensures OutsideCircle(nodes[i].x - x, nodes[i].y - y)
    {
      if !OutsideCircle(nodes[i].x - x, nodes[i].y - y) {
        CircleInsideSquare(nodes[i].x - x, nodes[i].y - y);
      }
    }
  }
}
