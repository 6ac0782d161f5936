/**
 * src/Graph.js: the object that owns the node, edge and agent lists, one id
 * pool per family, and builds every entity through the family's registry.
 */
module Graphs {
  import opened Results
  import opened TypeMaps
  import opened IdPools
  import opened Nodes
  import opened BasicEdges
  import opened GraphQueries
  import PathTravelers

  /** A node the graph built from a dump: the dump's position and color, the pool's id. */
  predicate BuiltFrom(n: BasicNode, d: PlainNode, id: int)
  {
    n.id == id && n.x == d.x && n.y == d.y && n.color == ColorOrDefault(d.color)
  }

  /** Two nodes agree on everything a dump records. */
  predicate SameNode(m: BasicNode, n: BasicNode)
  {
    m.id == n.id && m.x == n.x && m.y == n.y && m.color == n.color
  }

  /** The first `i` node dumps have known types and the first `i` nodes are built from them. */
  predicate NodesBuiltUpTo(nodes: seq<BasicNode>, dumps: seq<PlainNode>, i: nat)
  {
    i <= |nodes| && i <= |dumps| &&
    forall k :: 0 <= k < i ==> KnownNode(dumps[k]) && BuiltFrom(nodes[k], dumps[k], k + 1)
  }

  /** One more node built from the next dump extends the prefix. */
  lemma NodesBuiltStep(before: seq<BasicNode>, n: BasicNode, dumps: seq<PlainNode>, i: nat)
    requires |before| == i < |dumps| && NodesBuiltUpTo(before, dumps, i)
    requires KnownNode(dumps[i]) && BuiltFrom(n, dumps[i], i + 1)
    ensures NodesBuiltUpTo(before + [n], dumps, i + 1)
  {
  }

  /**
   * The first `j` edge dumps all load, and the first `j` edges are the ones
   * built from them, numbered from 1, through the node map `m`.
   */
  predicate EdgesLoadedUpTo(edges: seq<Option<Edge>>, dumps: seq<PlainEdge>, m: map<int, BasicNode>,
                            ids: set<int>, j: nat)
  {
    j <= |edges| && j <= |dumps| &&
    forall k :: 0 <= k < j ==>
      EdgeLoads(dumps[k], ids) && edges[k].Some? && edges[k] == CreateEdge(dumps[k].(id := k + 1), MapResolver(m))
  }

  /** One more edge that loads extends the prefix. */
  lemma EdgesLoadedStep(before: seq<Option<Edge>>, e: Option<Edge>, dumps: seq<PlainEdge>,
                        m: map<int, BasicNode>, ids: set<int>, j: nat)
    requires |before| == j < |dumps| && EdgesLoadedUpTo(before, dumps, m, ids, j)
    requires EdgeLoads(dumps[j], ids) && e.Some? && e == CreateEdge(dumps[j].(id := j + 1), MapResolver(m))
    ensures EdgesLoadedUpTo(before + [e], dumps, m, ids, j + 1)
  {
  }

  /**
   * What a successful load leaves: one node per node dump, in order, numbered
   * 1..n; one edge per edge dump, numbered 1..m, with endpoints resolved by
   * the dump's own node ids.
   */
  predicate LoadedFrom(nodes: seq<BasicNode>, edges: seq<Option<Edge>>, plain: PlainGraph)
  {
    |nodes| == |plain.nodes| &&
    (forall i :: 0 <= i < |nodes| ==> BuiltFrom(nodes[i], plain.nodes[i], i + 1)) &&
    |edges| == |plain.edges| &&
    forall j :: 0 <= j < |edges| ==>
      edges[j].Some? &&
      edges[j] == CreateEdge(plain.edges[j].(id := j + 1), MapResolver(NodeMap(plain.nodes, nodes)))
  }

  class Graph {
    /** `_idManagers.node`, `.edge` and `.agent`. */
    const nodePool: IdPool
    const edgePool: IdPool
    const agentPool: IdPool
    /** `_nodes`, `_edges`, `_agents`; a failed `addEdge` leaves a `null` in `_edges`. */
    var nodes: seq<BasicNode>
    var edges: seq<Option<Edge>>
    var agents: seq<object>

    /**
     * The graph invariant: no id is ever released, so each pool's mark counts
     * the entities drawn from it and every entity's id is its position plus
     * one; no agent is ever added.
     */
    predicate Valid()
      reads this, nodePool, edgePool, agentPool
    {
      nodePool != edgePool && nodePool != agentPool && edgePool != agentPool &&
      nodePool.State() == PoolState([], |nodes|) &&
      edgePool.State() == PoolState([], |edges|) &&
      agentPool.vacantIds == [] &&
      NodesNumbered(nodes) && EdgesNumbered(edges) && agents == []
    }

    /** Lines 12-19 of the constructor: three fresh pools and three empty lists. */
    constructor Empty()
      ensures Valid() && nodes == [] && edges == [] && agents == []
      ensures fresh(nodePool) && fresh(edgePool) && fresh(agentPool)
      ensures agentPool.State() == EmptyPool
    {
      nodePool := new IdPool();
      edgePool := new IdPool();
      agentPool := new IdPool();
      nodes := [];
      edges := [];
      agents := [];
    }

    /**
     * `new Graph(nodes, edges, agents)` and `Graph.create(plainGraph)`: add every
     * node, recording `nodeMap[dump.id]`; add every edge through that map; add
     * every agent. The first exception ends the load.
     */
    static method Create(plain: PlainGraph) returns (r: Result<Graph>)
      modifies GivenNodes(plain.edges)
      ensures r.Success? <==> Loadable(plain)
      ensures r.Success? ==> fresh(r.value) && r.value.Valid()
      ensures r.Success? ==> LoadedFrom(r.value.nodes, r.value.edges, plain)
      ensures r.Success? ==> forall n | n in r.value.nodes :: fresh(n)
    {
      var g := new Graph.Empty();
      var nodeMap := g.AddNodes(plain.nodes);
      if nodeMap.Failure? {
        return Failure;
      }
      var edgesOk := g.AddEdges(plain.edges, nodeMap.value, plain.nodes);
      if !edgesOk {
        return Failure;
      }
      if |plain.agents| > 0 {
        var agent := g.AddAgent(plain.agents[0]);
        return Failure;
      }
      return Success(g);
    }

    /**
     * The constructor's node loop, on an empty graph: `nodeMap[node.id] =
     * this.addNode(node)` for each dump in turn.
     */
    method AddNodes(dumps: seq<PlainNode>) returns (r: Result<map<int, BasicNode>>)
      requires Valid() && nodes == [] && edges == []
      modifies this, nodePool
      ensures Valid() && edges == [] && agents == old(agents)
      ensures r.Success? <==> forall i :: 0 <= i < |dumps| ==> KnownNode(dumps[i])
      ensures r.Success? ==>
        |nodes| == |dumps| && r.value == NodeMap(dumps, nodes) &&
        (forall i :: 0 <= i < |dumps| ==> BuiltFrom(nodes[i], dumps[i], i + 1)) &&
        forall n | n in nodes :: fresh(n)
    {
      var nodeMap: map<int, BasicNode> := map[];
      for i := 0 to |dumps|
        invariant Valid() && edges == [] && agents == old(agents) && |nodes| == i
        invariant NodesBuiltUpTo(nodes, dumps, i)
        invariant forall n | n in nodes :: fresh(n)
        invariant nodeMap == NodeMap(dumps[..i], nodes)
      {
        ghost var before := nodes;
        var node := AddNode(dumps[i]);
        if node.Failure? {
          return Failure;
        }
        NodesBuiltStep(before, node.value, dumps, i);
        assert nodes[..i] == before;
        NodeMapExtend(dumps, nodes, i);
        nodeMap := nodeMap[dumps[i].id := node.value];
      }
      assert dumps[..|dumps|] == dumps;
      return Success(nodeMap);
    }

    /**
     * The constructor's edge loop: `this.addEdge(edge, hashedNodeResolver)`
     * for each dump in turn, the resolver being the node map of `nodeDumps`.
     */
    method AddEdges(dumps: seq<PlainEdge>, nodeMap: map<int, BasicNode>, ghost nodeDumps: seq<PlainNode>)
      returns (ok: bool)
      requires Valid() && edges == [] && |nodeDumps| == |nodes|
      requires nodeMap == NodeMap(nodeDumps, nodes)
      modifies this, edgePool, GivenNodes(dumps), set n | n in nodes
      ensures Valid() && nodes == old(nodes) && agents == old(agents)
      ensures ok <==> forall j :: 0 <= j < |dumps| ==> EdgeLoads(dumps[j], DumpIds(nodeDumps))
      ensures ok ==> |edges| == |dumps|
      ensures ok ==> forall j :: 0 <= j < |dumps| ==>
        edges[j].Some? && edges[j] == CreateEdge(dumps[j].(id := j + 1), MapResolver(nodeMap))
    {
      ghost var ids := DumpIds(nodeDumps);
      for j := 0 to |dumps|
        invariant Valid() && nodes == old(nodes) && agents == old(agents) && |edges| == j
        invariant EdgesLoadedUpTo(edges, dumps, nodeMap, ids, j)
      {
        EdgeLoadsThroughMap(dumps[j], nodeMap, j + 1);
        MapResolverBuildsEdge(dumps[j], nodeMap);
        assert forall n | n in GivenEnds(dumps[j]) :: n in GivenNodes(dumps);
        ghost var before := edges;
        var edge := AddEdge(dumps[j], Some(nodeMap));
        if edge.Failure? {
          return false;
        }
        EdgesLoadedStep(before, edges[j], dumps, nodeMap, ids, j);
      }
      return true;
    }

    /**
     * `addNode(plainNode)` through `_create('node', …)`: an unknown type fails
     * before an id is drawn; otherwise the node gets the pool's next id (the
     * dump's own id is ignored) and goes at the end of the list.
     */
    method AddNode(plain: PlainNode) returns (r: Result<BasicNode>)
      requires Valid()
      modifies this, nodePool
      ensures Valid()
      ensures r.Success? <==> KnownNode(plain)
      ensures r.Success? ==>
        fresh(r.value) && r.value.edges == [] &&
        BuiltFrom(r.value, plain, |old(nodes)| + 1) && nodes == old(nodes) + [r.value]
      ensures r.Failure? ==> nodes == old(nodes) && nodePool.State() == old(nodePool.State())
      ensures edges == old(edges) && agents == old(agents)
    {
      KnownNodeIsRegistered(plain);
      if PropertyKey(plain.typeTag) !in NodeTypeMap {
        return Failure;
      }
      var id := nodePool.GetId();
      var node := BasicNode.Create(plain.(id := id));
      nodes := nodes + [node];
      return Success(node);
    }

    /**
     * `addEdge(plainEdge, resolver)`: an unknown type fails before an id is
     * drawn; otherwise the edge built (or `null`) is pushed, and a `null` then
     * fails on `edge.start`. A built edge is appended to the start's and then
     * the end's incidence list, so a loop appears twice in its node's list.
     */
    method AddEdge(plain: PlainEdge, resolver: Option<map<int, BasicNode>>) returns (r: Result<Edge>)
      requires Valid()
      modifies this, edgePool, Ends(CreateEdge(plain, ResolverFor(resolver, nodes)))
      ensures Valid()
      ensures nodes == old(nodes) && agents == old(agents)
      ensures !KnownEdge(plain) ==>
        r.Failure? && edges == old(edges) && edgePool.State() == old(edgePool.State()) &&
        forall n | n in Ends(CreateEdge(plain, ResolverFor(resolver, nodes))) :: n.edges == old(n.edges)
      ensures KnownEdge(plain) ==>
        var e := CreateEdge(plain.(id := |old(edges)| + 1), ResolverFor(resolver, nodes));
        edges == old(edges) + [e] && (r.Success? <==> e.Some?) &&
        (r.Success? ==> r.value == e.value)
      ensures r.Success? ==>
        var e := r.value;
        if e.start == e.end then e.start.edges == old(e.start.edges) + [e, e]
        else e.start.edges == old(e.start.edges) + [e] && e.end.edges == old(e.end.edges) + [e]
    {
      var res := ResolverFor(resolver, nodes);
      KnownEdgeIsRegistered(plain);
      if PropertyKey(plain.typeTag) !in EdgeTypeMap {
        return Failure;
      }
      var id := edgePool.GetId();
      var edge := CreateEdge(plain.(id := id), res);
      edges := edges + [edge];
      if edge.None? {
        return Failure;
      }
      var e := edge.value;
      EndsComeFrom(plain.(id := id), resolver, nodes);
      e.start.AddEdge(e);
      e.end.AddEdge(e);
      return Success(e);
    }

    /**
     * `addAgent(plainAgent)`: an unknown type fails before an id is drawn; a
     * known one draws an id and then fails, because neither agent class has
     * the static `create` that `_create` calls.
     */
    method AddAgent(plain: PlainAgent) returns (r: Result<object>)
      requires Valid()
      modifies agentPool
      ensures Valid() && r.Failure?
      ensures agentPool.State() ==
        if KnownAgent(plain) then GetIdStep(old(agentPool.State())).0 else old(agentPool.State())
    {
      KnownAgentIsRegistered(plain);
      if PropertyKey(plain.typeTag) !in PathTravelers.AgentTypeMap {
        return Failure;
      }
      var id := agentPool.GetId();
      return Failure;
    }

    /** `getNodeById(id)`; in a valid graph the node with id `k` sits at position `k - 1`. */
    function GetNodeById(id: int): (r: Option<BasicNode>)
      reads this, nodePool, edgePool, agentPool
      ensures Valid() ==> r == if 1 <= id <= |nodes| then Some(nodes[id - 1]) else None
    {
      if Valid() then NodeIdIsPosition(nodes, id); FindNode(nodes, id)
      else FindNode(nodes, id)
    }

    /** `getEdgeById(id)`; fails when the scan meets a `null` first. */
    function GetEdgeById(id: int): (r: Result<Option<Edge>>)
      reads this, nodePool, edgePool, agentPool
      ensures Valid() && (forall i :: 0 <= i < |edges| ==> edges[i].Some?) ==>
        r == Success(if 1 <= id <= |edges| then edges[id - 1] else None)
    {
      if Valid() then EdgeIdIsPosition(edges, id); FindEdge(edges, id)
      else FindEdge(edges, id)
    }

    /**
     * `getNodeByCoord(x, y)` as written: the first node, in list order, that
     * passes the square test and the XOR-based precise test. Because the
     * precise test never rejects inside the square, this is the first node
     * whose bounding square holds the point.
     */
    method GetNodeByCoord(x: real, y: real) returns (r: Option<BasicNode>)
      ensures r == NodeAt(nodes, FirstHitAsWritten(nodes, x, y))
      ensures r.Some? ==> !OutsideSquare(r.value.x - x, r.value.y - y)
      ensures r.None? <==> forall k :: 0 <= k < |nodes| ==> OutsideSquare(nodes[k].x - x, nodes[k].y - y)
    {
      AsWrittenPicksFirstInSquare(nodes, x, y);
      for i := 0 to |nodes|
        invariant forall k :: 0 <= k < i ==> !HitAsWritten(nodes[k], x, y)
      {
        var node := nodes[i];
        var dx := node.x - x;
        var dy := node.y - y;
        if OutsideSquare(dx, dy) {
          continue;
        }
        if OutsideCircleAsWritten(dx, dy) {
          continue;
        }
        return Some(node);
      }
      return None;
    }

    /** `getNodeByCoord(x, y)` with the precise test squaring: the first node whose circle holds the point. */
    method GetNodeByCoordCorrected(x: real, y: real) returns (r: Option<BasicNode>)
      ensures r == NodeAt(nodes, FirstHit(nodes, x, y))
      ensures r.Some? ==> !OutsideCircle(r.value.x - x, r.value.y - y)
      ensures r.None? <==> forall k :: 0 <= k < |nodes| ==> OutsideCircle(nodes[k].x - x, nodes[k].y - y)
    {
      IntendedPicksFirstInCircle(nodes, x, y);
      for i := 0 to |nodes|
        invariant forall k :: 0 <= k < i ==> !Hit(nodes[k], x, y)
      {
        var node := nodes[i];
        var dx := node.x - x;
        var dy := node.y - y;
        if OutsideSquare(dx, dy) {
          continue;
        }
        if OutsideCircle(dx, dy) {
          continue;
        }
        return Some(node);
      }
      return None;
    }

    /**
     * `getDump()`: the node dumps in list order; any edge (an `Edge` has no
     * `getDump`, a `null` none either) or agent makes it throw.
     */
    method GetDump() returns (r: Result<PlainGraph>)
      ensures r.Success? <==> edges == [] && agents == []
      ensures r.Success? ==>
        r.value.edges == [] && r.value.agents == [] && |r.value.nodes| == |nodes| &&
        forall i :: 0 <= i < |nodes| ==> r.value.nodes[i] == nodes[i].GetDump()
    {
      var dumpNodes: seq<PlainNode> := [];
      for i := 0 to |nodes|
        invariant |dumpNodes| == i
        invariant forall k :: 0 <= k < i ==> dumpNodes[k] == nodes[k].GetDump()
      {
        dumpNodes := dumpNodes + [nodes[i].GetDump()];
      }
      if |edges| > 0 {
        return Failure;
      }
      if |agents| > 0 {
        return Failure;
      }
      return Success(PlainGraph(dumpNodes, [], []));
    }
  }

  /**
   * `Graph.create(graph.getDump())`: a graph without edges comes back with the
   * same nodes, in the same order, with the same ids; one with edges cannot
   * be dumped at all.
   */
  method Reload(g: Graph) returns (r: Result<Graph>)
    requires g.Valid()
    ensures g.edges == [] ==>
      r.Success? && |r.value.nodes| == |g.nodes| &&
      forall i :: 0 <= i < |g.nodes| ==> SameNode(r.value.nodes[i], g.nodes[i])
    ensures g.edges != [] ==> r.Failure?
  {
    var dump := g.GetDump();
    if dump.Failure? {
      return Failure;
    }
    var ns := g.nodes;
    OwnDumpLoads(ns);
    assert dump.value == PlainGraph(seq(|ns|, i requires 0 <= i < |ns| => ns[i].GetDump()), [], []);
    assert GivenNodes(dump.value.edges) == {};
    r := Graph.Create(dump.value);
  }
}
