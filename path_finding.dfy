/**
 * src/path_finding/breathFirstSearch.js: unit-cost breadth-first search over the
 * nodes' incidence lists, and the backtracking of the predecessor chain.
 */
module PathFinding {
  import opened Results
  import opened Nodes

  /** `nodeId` is the id of one of the edge's endpoints. */
  predicate IsEndpoint(e: Edge, nodeId: int)
  {
    e.start.id == nodeId || e.end.id == nodeId
  }

  /**
   * `edge.getOtherNode(id)`, which the search calls but no file of the program
   * defines: the endpoint opposite the one with the given id (a self-loop leads
   * back to its node).
   */
  function GetOtherNode(e: Edge, nodeId: int): (n: BasicNode)
    requires IsEndpoint(e, nodeId)
    ensures n == e.start || n == e.end
    ensures e.start.id != e.end.id ==> n.id != nodeId
  {
    if e.start.id == nodeId then e.end else e.start
  }


  /**
   * The incidence lists the search may read, as a snapshot keyed by node id:
   * every listed edge is incident to its node, by id, and both of its
   * endpoints have a list.
   */
  ghost predicate Closed(adj: map<int, seq<Edge>>)
  {
    forall id, e {:trigger e in adj[id]} :: id in adj && e in adj[id] ==>
      IsEndpoint(e, id) && e.start.id in adj && e.end.id in adj
  }

  /**
   * The snapshot is what the `edges` fields of `nodes` hold now, and every
   * listed edge joins two of `nodes`.
   */
  ghost predicate Mirrors(adj: map<int, seq<Edge>>, nodes: set<BasicNode>)
    reads nodes
  {
    (forall n :: n in nodes ==> n.id in adj && n.edges == adj[n.id]) &&
    (forall id, e {:trigger e in adj[id]} :: id in adj && e in adj[id] ==> e.start in nodes && e.end in nodes)
  }

  /**
   * The id of the node that following `p` from the node with id `from` leads
   * to, each edge taken from the list of the node reached so far; `None` if
   * `p` is not such a walk.
   */
  ghost function Walk(adj: map<int, seq<Edge>>, from: int, p: seq<Edge>): Option<int>
    decreases |p|
  {
    if p == [] then Some(from)
    else
      var w := Walk(adj, from, p[..|p| - 1]);
      var e := p[|p| - 1];
      if w.Some? && w.value in adj && e in adj[w.value] && IsEndpoint(e, w.value)
      then Some(GetOtherNode(e, w.value).id)
      else None
  }

  /** `p` is a walk from the node with id `from` to a node with id `endId`. */
  ghost predicate Reaches(adj: map<int, seq<Edge>>, from: int, p: seq<Edge>, endId: int)
  {
    Walk(adj, from, p) == Some(endId)
  }

  /**
   * One entry of `toVisit`: `{node, fromEdge, prevStep}`. The predecessor is
   * referred to by its position in the queue; the root has no `fromEdge`.
   */
  datatype Step = Step(node: BasicNode, fromEdge: Option<Edge>, prevStep: nat)

  /** Every step that came over an edge points to an earlier step. */
  predicate Linked(q: seq<Step>)
  {
    forall k :: 0 <= k < |q| && q[k].fromEdge.Some? ==> q[k].prevStep < k
  }

  /** The edges from the root to step `k`, in travel order. */
  function Chain(q: seq<Step>, k: nat): seq<Edge>
    requires Linked(q) && k < |q|
    decreases k
  {
    if q[k].fromEdge.None? then [] else Chain(q, q[k].prevStep) + [q[k].fromEdge.value]
  }

  /** `reversePath.reverse()`. */
  function Reverse(s: seq<Edge>): (r: seq<Edge>)
    ensures |r| == |s|
    ensures forall k :: 0 <= k < |s| ==> r[k] == s[|s| - 1 - k]
    decreases |s|
  {
    if s == [] then [] else [s[|s| - 1]] + Reverse(s[..|s| - 1])
  }

  /** `backtrackPath(step)`: the edges of the predecessor chain, root first. */
  method BacktrackPath(q: seq<Step>, k: nat) returns (path: seq<Edge>)
    requires Linked(q) && k < |q|
    ensures path == Chain(q, k)
  {
    var reversePath: seq<Edge> := [];
    var cur: nat := k;
    while q[cur].fromEdge.Some?
      invariant cur < |q|
      invariant Chain(q, k) == Chain(q, cur) + Reverse(reversePath)
      decreases cur
    {
      var e := q[cur].fromEdge.value;
      assert Reverse(reversePath + [e]) == [e] + Reverse(reversePath);
      reversePath := reversePath + [e];
      cur := q[cur].prevStep;
    }
    path := Reverse(reversePath);
  }


  /**
   * The inner loop, from the `j`-th edge of the node at step `i` on: each
   * endpoint not seen yet is marked seen and queued behind, with the step at
   * `i` as its predecessor.
   */
  ghost function VisitEdges(adj: map<int, seq<Edge>>, q: seq<Step>, seen: set<int>, i: nat, j: nat): (r: (seq<Step>, set<int>))
    requires Closed(adj) && i < |q| && q[i].node.id in adj && j <= |adj[q[i].node.id]|
    ensures q <= r.0 && seen <= r.1 && r.1 - seen <= adj.Keys
    ensures |r.1| == |seen| + |r.0| - |q|
    ensures Linked(q) ==> Linked(r.0)
    ensures (forall k :: 0 <= k < |q| ==> q[k].node.id in seen) ==> forall k :: 0 <= k < |r.0| ==> r.0[k].node.id in r.1
    decreases |adj[q[i].node.id]| - j
  {
    var edges := adj[q[i].node.id];
    if j == |edges| then (q, seen)
    else
      var node := Neighbour(adj, q, i, j);
      if node.id in seen then VisitEdges(adj, q, seen, i, j + 1)
      else VisitEdges(adj, q + [Step(node, Some(edges[j]), i)], seen + {node.id}, i, j + 1)
  }

  /** The other endpoint of the `j`-th edge of the node at step `i`. */
  ghost function Neighbour(adj: map<int, seq<Edge>>, q: seq<Step>, i: nat, j: nat): (n: BasicNode)
    requires Closed(adj) && i < |q| && q[i].node.id in adj && j < |adj[q[i].node.id]|
    ensures n.id in adj
  {
    assert adj[q[i].node.id][j] in adj[q[i].node.id];
    GetOtherNode(adj[q[i].node.id][j], q[i].node.id)
  }

  /** What the outer loop needs to go on: the queue's links and its ids recorded as seen. */
  ghost predicate Shape(adj: map<int, seq<Edge>>, q: seq<Step>, seen: set<int>, i: nat)
  {
    Closed(adj) && i <= |q| && Linked(q) && seen <= adj.Keys &&
    forall k :: 0 <= k < |q| ==> q[k].node.id in seen
  }

  lemma SubsetCard<T>(a: set<T>, b: set<T>)
    requires a <= b
    ensures |a| <= |b|
  {
    if a != {} {
      var x :| x in a;
      SubsetCard(a - {x}, b - {x});
    }
  }

  /** The outer loop from step `i` on: what the search returns. */
  ghost function SearchLoop(adj: map<int, seq<Edge>>, q: seq<Step>, seen: set<int>, i: nat, endId: int): seq<Edge>
    requires Shape(adj, q, seen, i)
    decreases |adj| - |seen|, |q| - i
  {
    if i == |q| then []
    else if q[i].node.id == endId then Chain(q, i)
    else
      var r := VisitEdges(adj, q, seen, i, 0);
      SubsetCard(seen, adj.Keys);
      SubsetCard(r.1, adj.Keys);
      SearchLoop(adj, r.0, r.1, i + 1, endId)
  }

  /** What `breathFirstSearch(start, endId)` returns over the snapshot `adj`. */
  ghost function Search(adj: map<int, seq<Edge>>, start: BasicNode, endId: int): seq<Edge>
    requires Closed(adj) && start.id in adj
  {
    SearchLoop(adj, [Step(start, None, 0)], {start.id}, 0, endId)
  }

  /**
   * The inner loop of `breathFirstSearch`: every endpoint, across the edges
   * of the node at step `i`, whose id is not seen yet is marked seen and
   * queued with step `i` as its predecessor.
   */
  method VisitNeighbours(toVisit0: seq<Step>, seenNodeIds0: set<int>, i: nat,
                         ghost adj: map<int, seq<Edge>>, ghost nodes: set<BasicNode>)
    returns (toVisit: seq<Step>, seenNodeIds: set<int>)
    requires Closed(adj) && Mirrors(adj, nodes) && i < |toVisit0|
    requires forall k :: 0 <= k < |toVisit0| ==> toVisit0[k].node in nodes
    ensures (toVisit, seenNodeIds) == VisitEdges(adj, toVisit0, seenNodeIds0, i, 0)
    ensures forall k :: 0 <= k < |toVisit| ==> toVisit[k].node in nodes
  {
    toVisit, seenNodeIds := toVisit0, seenNodeIds0;
    var step := toVisit[i];
    var edges := step.node.edges;
    assert edges == adj[step.node.id];
    var j := 0;
    while j < |edges|
      invariant j <= |edges| && i < |toVisit| && toVisit[i] == step
      invariant VisitEdges(adj, toVisit, seenNodeIds, i, j) == VisitEdges(adj, toVisit0, seenNodeIds0, i, 0)
      invariant forall k :: 0 <= k < |toVisit| ==> toVisit[k].node in nodes
    {
      var edge := edges[j];
      assert edge in adj[step.node.id];
      var node := GetOtherNode(edge, step.node.id);
      assert node == Neighbour(adj, toVisit, i, j);
      if node.id !in seenNodeIds {
        seenNodeIds := seenNodeIds + {node.id};
        toVisit := toVisit + [Step(node, Some(edge), i)];
      }
      j := j + 1;
    }
  }

  /**
   * `breathFirstSearch(start, endId)`. `adj` and `nodes` describe the
   * incidence lists as they are during the search; what the result means is
   * proved about `Search` below.
   */
  method BreadthFirstSearch(start: BasicNode, endId: int, ghost adj: map<int, seq<Edge>>, ghost nodes: set<BasicNode>)
    returns (path: seq<Edge>)
    requires start in nodes && Closed(adj) && Mirrors(adj, nodes)
    ensures path == Search(adj, start, endId)
    ensures path != [] ==> Reaches(adj, start.id, path, endId)
    ensures forall p :: Reaches(adj, start.id, p, endId) ==> Reaches(adj, start.id, path, endId) && |path| <= |p|
  {
    var toVisit := [Step(start, None, 0)];
    var seenNodeIds := {start.id};
    var i := 0;
    while i < |toVisit|
      invariant Shape(adj, toVisit, seenNodeIds, i)
      invariant forall k :: 0 <= k < |toVisit| ==> toVisit[k].node in nodes
      invariant SearchLoop(adj, toVisit, seenNodeIds, i, endId) == Search(adj, start, endId)
      decreases |adj| - |seenNodeIds|, |toVisit| - i
    {
      var step := toVisit[i];
      if step.node.id == endId {
        path := BacktrackPath(toVisit, i);
        SearchIsShortestWalk(adj, start, endId);
        return;
      }
      ghost var q0, seen0 := toVisit, seenNodeIds;
      toVisit, seenNodeIds := VisitNeighbours(toVisit, seenNodeIds, i, adj, nodes);
      SubsetCard(seen0, adj.Keys);
      SubsetCard(seenNodeIds, adj.Keys);
      i := i + 1;
    }
    path := [];
    SearchIsShortestWalk(adj, start, endId);
  }


  // The shortest-path argument. The ghost `dist` gives each queued step its
  // number of hops from the root and `pos` each queued id its position.

  /**
   * The queue's shape: the root first, and every later step reached over an
   * edge of its predecessor's list, one hop further away.
   */
  ghost predicate Links(adj: map<int, seq<Edge>>, start: BasicNode, q: seq<Step>, dist: seq<nat>)
  {
    |q| == |dist| && |q| >= 1 && q[0] == Step(start, None, 0) && dist[0] == 0 &&
    (forall k :: 0 <= k < |q| ==> q[k].node.id in adj) &&
    (forall k {:trigger q[k].fromEdge} :: 0 < k < |q| ==>
      q[k].fromEdge.Some? && q[k].prevStep < k &&
      q[k].fromEdge.value in adj[q[q[k].prevStep].node.id] &&
      IsEndpoint(q[k].fromEdge.value, q[q[k].prevStep].node.id) &&
      GetOtherNode(q[k].fromEdge.value, q[q[k].prevStep].node.id) == q[k].node &&
      dist[k] == dist[q[k].prevStep] + 1)
  }

  /**
   * `pos` maps every queued id to its position in the queue, so each id is
   * queued at most once; its keys are the ids seen.
   */
  ghost predicate Indexed(adj: map<int, seq<Edge>>, q: seq<Step>, pos: map<int, nat>)
  {
    (forall k :: 0 <= k < |q| ==> q[k].node.id in pos && pos[q[k].node.id] == k) &&
    (forall id :: id in pos ==> pos[id] < |q| && q[pos[id]].node.id == id) &&
    |pos.Keys| == |q| && pos.Keys <= adj.Keys
  }

  ghost predicate SearchState(adj: map<int, seq<Edge>>, start: BasicNode, q: seq<Step>, dist: seq<nat>, pos: map<int, nat>)
  {
    Links(adj, start, q, dist) && Indexed(adj, q, pos)
  }

  /**
   * The distances in the queue come in layers: the expanded prefix is at most
   * `d` away, the queue from `i` up to `s` exactly `d` and the rest `d + 1`.
   */
  ghost predicate Layers(dist: seq<nat>, i: nat, s: nat, d: nat)
  {
    i <= s <= |dist| &&
    (forall k :: 0 <= k < i ==> dist[k] <= d) &&
    (forall k :: i <= k < s ==> dist[k] == d) &&
    (forall k :: s <= k < |dist| ==> dist[k] == d + 1)
  }

  /** The other endpoint of `e`, seen from step `k`, is queued at most one hop further away. */
  ghost predicate Settled(q: seq<Step>, dist: seq<nat>, pos: map<int, nat>, k: nat, e: Edge)
  {
    k < |q| && k < |dist| && IsEndpoint(e, q[k].node.id) &&
    GetOtherNode(e, q[k].node.id).id in pos && pos[GetOtherNode(e, q[k].node.id).id] < |dist| &&
    dist[pos[GetOtherNode(e, q[k].node.id).id]] <= dist[k] + 1
  }

  /** Every neighbour of the node queued at `k` is settled. */
  ghost predicate NeighboursQueued(adj: map<int, seq<Edge>>, q: seq<Step>, dist: seq<nat>, pos: map<int, nat>, k: nat)
  {
    k < |q| && q[k].node.id in adj &&
    forall e {:trigger e in adj[q[k].node.id]} :: e in adj[q[k].node.id] ==> Settled(q, dist, pos, k, e)
  }

  /** The first `i` queued nodes have been expanded. */
  ghost predicate ExpandedUpTo(adj: map<int, seq<Edge>>, q: seq<Step>, dist: seq<nat>, pos: map<int, nat>, i: nat)
    decreases i
  {
    i == 0 || (ExpandedUpTo(adj, q, dist, pos, i - 1) && NeighboursQueued(adj, q, dist, pos, i - 1))
  }

  lemma {:induction false} ExpandedAt(adj: map<int, seq<Edge>>, q: seq<Step>, dist: seq<nat>, pos: map<int, nat>,
                                      i: nat, k: nat)
    requires ExpandedUpTo(adj, q, dist, pos, i) && k < i
    ensures NeighboursQueued(adj, q, dist, pos, k)
    decreases i
  {
    if k < i - 1 {
      ExpandedAt(adj, q, dist, pos, i - 1, k);
    }
  }

  /**
   * A walk from `start` is never shorter than the recorded distance of its
   * end node, and a walk to a node not queued yet is longer than the distance
   * of the node being expanded.
   */
  lemma {:induction false} Frontier(adj: map<int, seq<Edge>>, start: BasicNode, q: seq<Step>, dist: seq<nat>,
                                    pos: map<int, nat>, i: nat, s: nat, d: nat, p: seq<Edge>)
    requires Closed(adj) && SearchState(adj, start, q, dist, pos) && ExpandedUpTo(adj, q, dist, pos, i)
    requires Layers(dist, i, s, d) && (i < |q| ==> i < s)
    requires Walk(adj, start.id, p).Some?
    ensures Walk(adj, start.id, p).value in adj
    ensures Walk(adj, start.id, p).value in pos ==> dist[pos[Walk(adj, start.id, p).value]] <= |p|
    ensures Walk(adj, start.id, p).value in pos || (i < |q| && dist[i] < |p|)
    decreases |p|
  {
    var v := Walk(adj, start.id, p).value;
    if p == [] {
      assert q[0].node == start;
    } else {
      var p' := p[..|p| - 1];
      var e := p[|p| - 1];
      Frontier(adj, start, q, dist, pos, i, s, d, p');
      var u := Walk(adj, start.id, p').value;
      assert u in adj && e in adj[u] && IsEndpoint(e, u) && v == GetOtherNode(e, u).id;
      if u in pos {
        var mu := pos[u];
        assert q[mu].node.id == u;
        if mu < i {
          ExpandedAt(adj, q, dist, pos, i, mu);
          assert Settled(q, dist, pos, mu, e);
        } else {
          assert dist[i] <= dist[mu];
          if v in pos {
            assert dist[pos[v]] <= d + 1;
          }
        }
      } else if v in pos {
        assert dist[pos[v]] <= d + 1;
      }
    }
  }

  /** The chain of every queued step is a walk to its node, as long as its distance. */
  lemma {:induction false} ChainWalks(adj: map<int, seq<Edge>>, start: BasicNode, q: seq<Step>, dist: seq<nat>, k: nat)
    requires Links(adj, start, q, dist) && k < |q|
    ensures Linked(q)
    ensures Walk(adj, start.id, Chain(q, k)) == Some(q[k].node.id)
    ensures |Chain(q, k)| == dist[k]
    decreases k
  {
    if k > 0 {
      var prev := q[k].prevStep;
      ChainWalks(adj, start, q, dist, prev);
      var c := Chain(q, k);
      assert c[..|c| - 1] == Chain(q, prev);
    }
  }

  /** `q'`, `d'` and `pos'` extend `q`, `dist` and `pos`. */
  ghost predicate Extends(q: seq<Step>, dist: seq<nat>, pos: map<int, nat>, q': seq<Step>, d': seq<nat>, pos': map<int, nat>)
  {
    q <= q' && dist <= d' && |q| == |dist| &&
    forall id :: id in pos ==> id in pos' && pos'[id] == pos[id]
  }

  lemma SettledGrows(q: seq<Step>, dist: seq<nat>, pos: map<int, nat>, q': seq<Step>, d': seq<nat>, pos': map<int, nat>,
                     k: nat, e: Edge)
    requires Extends(q, dist, pos, q', d', pos') && Settled(q, dist, pos, k, e)
    ensures Settled(q', d', pos', k, e)
  {
    var v := GetOtherNode(e, q[k].node.id).id;
    assert q'[k] == q[k] && d'[k] == dist[k] && pos'[v] == pos[v] && d'[pos[v]] == dist[pos[v]];
  }

  /** Growing the queue at its end keeps every expanded node's neighbours settled. */
  lemma {:induction false} ExpansionGrows(adj: map<int, seq<Edge>>, q: seq<Step>, dist: seq<nat>, pos: map<int, nat>,
                                          q': seq<Step>, d': seq<nat>, pos': map<int, nat>, i: nat)
    requires Extends(q, dist, pos, q', d', pos') && i <= |q|
    requires ExpandedUpTo(adj, q, dist, pos, i)
    ensures ExpandedUpTo(adj, q', d', pos', i)
    decreases i
  {
    if i > 0 {
      ExpansionGrows(adj, q, dist, pos, q', d', pos', i - 1);
      var id := q[i - 1].node.id;
      assert q'[i - 1] == q[i - 1];
      forall e {:trigger e in adj[id]} | e in adj[id]
        ensures Settled(q', d', pos', i - 1, e)
      {
        SettledGrows(q, dist, pos, q', d', pos', i - 1, e);
      }
    }
  }

  lemma LinksAppend(adj: map<int, seq<Edge>>, start: BasicNode, q: seq<Step>, dist: seq<nat>, i: nat,
                    edge: Edge, node: BasicNode)
    requires Closed(adj) && Links(adj, start, q, dist) && i < |q|
    requires edge in adj[q[i].node.id] && node == GetOtherNode(edge, q[i].node.id)
    ensures Links(adj, start, q + [Step(node, Some(edge), i)], dist + [dist[i] + 1])
  {
    var q', d' := q + [Step(node, Some(edge), i)], dist + [dist[i] + 1];
    forall k {:trigger q'[k].fromEdge} | 0 < k < |q'|
      ensures q'[k].fromEdge.Some? && q'[k].prevStep < k &&
        q'[k].fromEdge.value in adj[q'[q'[k].prevStep].node.id] &&
        IsEndpoint(q'[k].fromEdge.value, q'[q'[k].prevStep].node.id) &&
        GetOtherNode(q'[k].fromEdge.value, q'[q'[k].prevStep].node.id) == q'[k].node &&
        d'[k] == d'[q'[k].prevStep] + 1
    {
      if k < |q| {
        assert q'[k] == q[k] && d'[k] == dist[k] && q[k].fromEdge.Some?;
        assert q'[q[k].prevStep] == q[q[k].prevStep] && d'[q[k].prevStep] == dist[q[k].prevStep];
      } else {
        assert q'[i] == q[i] && d'[i] == dist[i];
      }
    }
    assert forall k :: 0 <= k < |q'| ==> q'[k].node.id in adj by {
      assert node.id in adj;
    }
  }

  lemma IndexedAppend(adj: map<int, seq<Edge>>, q: seq<Step>, pos: map<int, nat>, step: Step)
    requires Indexed(adj, q, pos) && step.node.id in adj && step.node.id !in pos
    ensures Indexed(adj, q + [step], pos[step.node.id := |q|])
    ensures pos[step.node.id := |q|].Keys == pos.Keys + {step.node.id}
  {
    var pos' := pos[step.node.id := |q|];
    assert pos'.Keys == pos.Keys + {step.node.id};
  }

  lemma LayersAppend(dist: seq<nat>, i: nat, s: nat, d: nat)
    requires Layers(dist, i, s, d) && i < s
    ensures Layers(dist + [dist[i] + 1], i, s, d)
  {
    var d' := dist + [dist[i] + 1];
    forall k | s <= k < |d'|
      ensures d'[k] == d + 1
    {
      if k < |dist| {
        assert d'[k] == dist[k];
      }
    }
  }

  /** Queuing a node not seen before, reached from the step at `i`, keeps the search state. */
  lemma AppendStep(adj: map<int, seq<Edge>>, start: BasicNode, q: seq<Step>, dist: seq<nat>, pos: map<int, nat>,
                   i: nat, s: nat, d: nat, edge: Edge, node: BasicNode)
    requires Closed(adj) && SearchState(adj, start, q, dist, pos) && ExpandedUpTo(adj, q, dist, pos, i)
    requires Layers(dist, i, s, d) && i < s
    requires edge in adj[q[i].node.id] && node == GetOtherNode(edge, q[i].node.id) && node.id !in pos
    ensures SearchState(adj, start, q + [Step(node, Some(edge), i)], dist + [dist[i] + 1], pos[node.id := |q|])
    ensures Extends(q, dist, pos, q + [Step(node, Some(edge), i)], dist + [dist[i] + 1], pos[node.id := |q|])
    ensures ExpandedUpTo(adj, q + [Step(node, Some(edge), i)], dist + [dist[i] + 1], pos[node.id := |q|], i)
    ensures Layers(dist + [dist[i] + 1], i, s, d)
    ensures pos[node.id := |q|].Keys == pos.Keys + {node.id}
  {
    var q', d', pos' := q + [Step(node, Some(edge), i)], dist + [dist[i] + 1], pos[node.id := |q|];
    LinksAppend(adj, start, q, dist, i, edge, node);
    IndexedAppend(adj, q, pos, Step(node, Some(edge), i));
    LayersAppend(dist, i, s, d);
    ExpansionGrows(adj, q, dist, pos, q', d', pos', i);
  }

  /** The first `j` edges of the list of the node at step `i` are settled. */
  ghost predicate SettledPrefix(adj: map<int, seq<Edge>>, q: seq<Step>, dist: seq<nat>, pos: map<int, nat>, i: nat, j: nat)
  {
    i < |q| && q[i].node.id in adj && j <= |adj[q[i].node.id]| &&
    forall k :: 0 <= k < j ==> Settled(q, dist, pos, i, adj[q[i].node.id][k])
  }

  lemma SettledPrefixGrows(adj: map<int, seq<Edge>>, q: seq<Step>, dist: seq<nat>, pos: map<int, nat>,
                           q': seq<Step>, d': seq<nat>, pos': map<int, nat>, i: nat, j: nat)
    requires Extends(q, dist, pos, q', d', pos') && SettledPrefix(adj, q, dist, pos, i, j)
    requires j < |adj[q[i].node.id]| && Settled(q', d', pos', i, adj[q[i].node.id][j])
    ensures SettledPrefix(adj, q', d', pos', i, j + 1)
  {
    var edges := adj[q[i].node.id];
    assert q'[i] == q[i];
    forall k | 0 <= k < j + 1
      ensures Settled(q', d', pos', i, edges[k])
    {
      if k < j {
        SettledGrows(q, dist, pos, q', d', pos', i, edges[k]);
      }
    }
  }

  lemma SettledAll(adj: map<int, seq<Edge>>, q: seq<Step>, dist: seq<nat>, pos: map<int, nat>, i: nat)
    requires i < |q| && q[i].node.id in adj && SettledPrefix(adj, q, dist, pos, i, |adj[q[i].node.id]|)
    ensures NeighboursQueued(adj, q, dist, pos, i)
  {
    var edges := adj[q[i].node.id];
    forall e {:trigger e in adj[q[i].node.id]} | e in adj[q[i].node.id]
      ensures Settled(q, dist, pos, i, e)
    {
      var k :| 0 <= k < |edges| && edges[k] == e;
    }
  }

  /** Skipping an edge whose other endpoint is already seen. */
  lemma SkipSeen(adj: map<int, seq<Edge>>, start: BasicNode, q: seq<Step>, seen: set<int>,
                 i: nat, j: nat, dist: seq<nat>, pos: map<int, nat>, s: nat, d: nat)
    requires Closed(adj) && SearchState(adj, start, q, dist, pos) && seen == pos.Keys
    requires Layers(dist, i, s, d) && i < s
    requires SettledPrefix(adj, q, dist, pos, i, j) && j < |adj[q[i].node.id]|
    requires Neighbour(adj, q, i, j).id in seen
    ensures VisitEdges(adj, q, seen, i, j) == VisitEdges(adj, q, seen, i, j + 1)
    ensures SettledPrefix(adj, q, dist, pos, i, j + 1)
  {
    var edges := adj[q[i].node.id];
    assert edges[j] in adj[q[i].node.id];
    assert Settled(q, dist, pos, i, edges[j]);
    SettledPrefixGrows(adj, q, dist, pos, q, dist, pos, i, j);
  }

  /** Queuing the other endpoint of an edge when it is not seen yet. */
  lemma QueueUnseen(adj: map<int, seq<Edge>>, start: BasicNode, q: seq<Step>, seen: set<int>,
                    i: nat, j: nat, dist: seq<nat>, pos: map<int, nat>, s: nat, d: nat)
    returns (q1: seq<Step>, seen1: set<int>, d1: seq<nat>, pos1: map<int, nat>)
    requires Closed(adj) && SearchState(adj, start, q, dist, pos) && seen == pos.Keys
    requires ExpandedUpTo(adj, q, dist, pos, i) && Layers(dist, i, s, d) && i < s
    requires SettledPrefix(adj, q, dist, pos, i, j) && j < |adj[q[i].node.id]|
    requires Neighbour(adj, q, i, j).id !in seen
    ensures i < |q1| && q1[i] == q[i] && |adj[q1[i].node.id]| == |adj[q[i].node.id]|
    ensures VisitEdges(adj, q, seen, i, j) == VisitEdges(adj, q1, seen1, i, j + 1)
    ensures SearchState(adj, start, q1, d1, pos1) && seen1 == pos1.Keys
    ensures ExpandedUpTo(adj, q1, d1, pos1, i) && Layers(d1, i, s, d)
    ensures SettledPrefix(adj, q1, d1, pos1, i, j + 1)
  {
    var edges := adj[q[i].node.id];
    assert edges[j] in adj[q[i].node.id];
    var node := GetOtherNode(edges[j], q[i].node.id);
    q1, seen1, d1, pos1 := q + [Step(node, Some(edges[j]), i)], seen + {node.id}, dist + [dist[i] + 1], pos[node.id := |q|];
    AppendStep(adj, start, q, dist, pos, i, s, d, edges[j], node);
    assert q1[i] == q[i] && d1[i] == dist[i] && pos1[node.id] == |q| && d1[|q|] == dist[i] + 1;
    assert Settled(q1, d1, pos1, i, edges[j]);
    SettledPrefixGrows(adj, q, dist, pos, q1, d1, pos1, i, j);
  }

  /**
   * The inner loop keeps the search state, and once it has run through the
   * list, every neighbour of the node at step `i` is settled.
   */
  lemma {:induction false} VisitEdgesKeeps(adj: map<int, seq<Edge>>, start: BasicNode, q: seq<Step>, seen: set<int>,
                                           i: nat, j: nat, dist: seq<nat>, pos: map<int, nat>, s: nat, d: nat)
    returns (q': seq<Step>, seen': set<int>, dist': seq<nat>, pos': map<int, nat>)
    requires Closed(adj) && SearchState(adj, start, q, dist, pos) && seen == pos.Keys
    requires ExpandedUpTo(adj, q, dist, pos, i) && Layers(dist, i, s, d) && i < s
    requires SettledPrefix(adj, q, dist, pos, i, j)
    ensures (q', seen') == VisitEdges(adj, q, seen, i, j)
    ensures SearchState(adj, start, q', dist', pos') && seen' == pos'.Keys
    ensures ExpandedUpTo(adj, q', dist', pos', i + 1)
    ensures Layers(dist', i, s, d)
    decreases |adj[q[i].node.id]| - j
  {
    if j == |adj[q[i].node.id]| {
      q', seen', dist', pos' := q, seen, dist, pos;
      SettledAll(adj, q, dist, pos, i);
    } else if Neighbour(adj, q, i, j).id in seen {
      SkipSeen(adj, start, q, seen, i, j, dist, pos, s, d);
      q', seen', dist', pos' := VisitEdgesKeeps(adj, start, q, seen, i, j + 1, dist, pos, s, d);
    } else {
      var q1, seen1, d1, pos1 := QueueUnseen(adj, start, q, seen, i, j, dist, pos, s, d);
      q', seen', dist', pos' := VisitEdgesKeeps(adj, start, q1, seen1, i, j + 1, d1, pos1, s, d);
    }
  }

  /** The next layer boundary once the step at `i` is expanded. */
  lemma NextLayer(dist: seq<nat>, i: nat, s: nat, d: nat) returns (s': nat, d': nat)
    requires Layers(dist, i, s, d) && i < s
    ensures Layers(dist, i + 1, s', d') && (i + 1 < |dist| ==> i + 1 < s')
  {
    if i + 1 == s {
      s', d' := |dist|, d + 1;
    } else {
      s', d' := s, d;
    }
  }

  /** When the node being expanded is the target, no walk to the target is shorter than its chain. */
  lemma FoundIsShortest(adj: map<int, seq<Edge>>, start: BasicNode, q: seq<Step>, dist: seq<nat>, pos: map<int, nat>,
                        i: nat, s: nat, d: nat, endId: int, p: seq<Edge>)
    requires Closed(adj) && SearchState(adj, start, q, dist, pos) && ExpandedUpTo(adj, q, dist, pos, i)
    requires Layers(dist, i, s, d) && i < s
    requires forall k :: 0 <= k < i ==> q[k].node.id != endId
    requires Reaches(adj, start.id, p, endId)
    ensures dist[i] <= |p|
  {
    Frontier(adj, start, q, dist, pos, i, s, d, p);
    if endId in pos {
      assert q[pos[endId]].node.id == endId;
      assert dist[i] <= dist[pos[endId]];
    }
  }

  /** The queue is used up without meeting the target: no walk reaches it. */
  lemma Exhausted(adj: map<int, seq<Edge>>, start: BasicNode, q: seq<Step>, dist: seq<nat>, pos: map<int, nat>,
                  s: nat, d: nat, endId: int)
    requires Closed(adj) && SearchState(adj, start, q, dist, pos) && ExpandedUpTo(adj, q, dist, pos, |q|)
    requires Layers(dist, |q|, s, d)
    requires forall k :: 0 <= k < |q| ==> q[k].node.id != endId
    ensures forall p :: !Reaches(adj, start.id, p, endId)
  {
    forall p | Walk(adj, start.id, p).Some?
      ensures Walk(adj, start.id, p).value != endId
    {
      Frontier(adj, start, q, dist, pos, |q|, s, d, p);
      assert q[pos[Walk(adj, start.id, p).value]].node.id == Walk(adj, start.id, p).value;
    }
  }

  lemma StateShape(adj: map<int, seq<Edge>>, start: BasicNode, q: seq<Step>, seen: set<int>,
                   i: nat, dist: seq<nat>, pos: map<int, nat>)
    requires Closed(adj) && SearchState(adj, start, q, dist, pos) && seen == pos.Keys && i <= |q|
    ensures Shape(adj, q, seen, i)
  {
    assert forall k :: 0 < k < |q| ==> q[k].fromEdge.Some? && q[k].prevStep < k;
  }

  /** The node being expanded is the target: its chain is a shortest walk. */
  lemma FoundCase(adj: map<int, seq<Edge>>, start: BasicNode, q: seq<Step>, dist: seq<nat>, pos: map<int, nat>,
                  i: nat, s: nat, d: nat, endId: int)
    requires Closed(adj) && SearchState(adj, start, q, dist, pos) && ExpandedUpTo(adj, q, dist, pos, i)
    requires Layers(dist, i, s, d) && i < s && q[i].node.id == endId
    requires forall k :: 0 <= k < i ==> q[k].node.id != endId
    ensures Linked(q) && Reaches(adj, start.id, Chain(q, i), endId)
    ensures forall p :: Reaches(adj, start.id, p, endId) ==> |Chain(q, i)| <= |p|
  {
    ChainWalks(adj, start, q, dist, i);
    forall p | Reaches(adj, start.id, p, endId)
      ensures |Chain(q, i)| <= |p|
    {
      FoundIsShortest(adj, start, q, dist, pos, i, s, d, endId, p);
    }
  }

  /** One round of the outer loop when the node at step `i` is not the target. */
  lemma SearchLoopStep(adj: map<int, seq<Edge>>, q: seq<Step>, seen: set<int>, i: nat, endId: int)
    requires Shape(adj, q, seen, i) && i < |q| && q[i].node.id != endId
    ensures Shape(adj, VisitEdges(adj, q, seen, i, 0).0, VisitEdges(adj, q, seen, i, 0).1, i + 1)
    ensures SearchLoop(adj, q, seen, i, endId) ==
      SearchLoop(adj, VisitEdges(adj, q, seen, i, 0).0, VisitEdges(adj, q, seen, i, 0).1, i + 1, endId)
    ensures q <= VisitEdges(adj, q, seen, i, 0).0
    ensures |seen| <= |VisitEdges(adj, q, seen, i, 0).1| <= |adj|
    ensures |VisitEdges(adj, q, seen, i, 0).1| - |seen| == |VisitEdges(adj, q, seen, i, 0).0| - |q|
  {
    var r := VisitEdges(adj, q, seen, i, 0);
    SubsetCard(seen, adj.Keys);
    SubsetCard(r.1, adj.Keys);
  }

  /** The target is not among the first `i + 1` steps of a longer queue. */
  lemma TargetNotBefore(q: seq<Step>, q': seq<Step>, i: nat, endId: int)
    requires q <= q' && i < |q| && q[i].node.id != endId
    requires forall k :: 0 <= k < i ==> q[k].node.id != endId
    ensures forall k :: 0 <= k < i + 1 ==> q'[k].node.id != endId
  {
    forall k | 0 <= k < i + 1
      ensures q'[k].node.id != endId
    {
      assert q'[k] == q[k];
    }
  }

  /** The outer loop from step `i` on returns a shortest walk to the target, if there is any walk. */
  lemma {:induction false} SearchLoopCorrect(adj: map<int, seq<Edge>>, start: BasicNode, q: seq<Step>, seen: set<int>,
                                             i: nat, endId: int, dist: seq<nat>, pos: map<int, nat>, s: nat, d: nat)
    returns (r: seq<Edge>)
    requires Closed(adj) && SearchState(adj, start, q, dist, pos) && seen == pos.Keys
    requires ExpandedUpTo(adj, q, dist, pos, i) && i <= |q| && Layers(dist, i, s, d) && (i < |q| ==> i < s)
    requires forall k :: 0 <= k < i ==> q[k].node.id != endId
    ensures Shape(adj, q, seen, i) && r == SearchLoop(adj, q, seen, i, endId)
    ensures r != [] ==> Reaches(adj, start.id, r, endId)
    ensures forall p :: Reaches(adj, start.id, p, endId) ==> Reaches(adj, start.id, r, endId) && |r| <= |p|
    decreases |adj| - |seen|, |q| - i
  {
    StateShape(adj, start, q, seen, i, dist, pos);
    if i == |q| {
      Exhausted(adj, start, q, dist, pos, s, d, endId);
      r := [];
    } else if q[i].node.id == endId {
      FoundCase(adj, start, q, dist, pos, i, s, d, endId);
      r := Chain(q, i);
    } else {
      var q', seen', dist', pos' := VisitEdgesKeeps(adj, start, q, seen, i, 0, dist, pos, s, d);
      var s', d' := NextLayer(dist', i, s, d);
      SearchLoopStep(adj, q, seen, i, endId);
      TargetNotBefore(q, q', i, endId);
      r := SearchLoopCorrect(adj, start, q', seen', i + 1, endId, dist', pos', s', d');
    }
  }

  /**
   * A non-empty result of the search is a walk from `start` to the target,
   * and whenever some walk reaches the target, the result is one with the
   * fewest edges.
   */
  lemma SearchIsShortestWalk(adj: map<int, seq<Edge>>, start: BasicNode, endId: int)
    requires Closed(adj) && start.id in adj
    ensures Search(adj, start, endId) != [] ==> Reaches(adj, start.id, Search(adj, start, endId), endId)
    ensures forall p :: Reaches(adj, start.id, p, endId) ==>
      Reaches(adj, start.id, Search(adj, start, endId), endId) && |Search(adj, start, endId)| <= |p|
  {
    var q, pos := [Step(start, None, 0)], map[start.id := 0];
    assert pos.Keys == {start.id};
    var r := SearchLoopCorrect(adj, start, q, {start.id}, 0, endId, [0], pos, 1, 0);
  }

  /** No node id is queued twice. */
  ghost predicate QueuedOnce(q: seq<Step>)
  {
    forall a, b :: 0 <= a < b < |q| ==> q[a].node.id != q[b].node.id
  }

  /**
   * The `seenNodeIds` check of the inner loop: a queue without repeated ids,
   * all of them seen, stays without repeated ids, and every id it gains was
   * not seen before.
   */
  lemma {:induction false} VisitEdgesQueuesOnce(adj: map<int, seq<Edge>>, q: seq<Step>, seen: set<int>, i: nat, j: nat)
    requires Closed(adj) && i < |q| && q[i].node.id in adj && j <= |adj[q[i].node.id]|
    requires QueuedOnce(q) && forall k :: 0 <= k < |q| ==> q[k].node.id in seen
    ensures QueuedOnce(VisitEdges(adj, q, seen, i, j).0)
    ensures forall k :: |q| <= k < |VisitEdges(adj, q, seen, i, j).0| ==>
      VisitEdges(adj, q, seen, i, j).0[k].node.id !in seen
    decreases |adj[q[i].node.id]| - j
  {
    if j < |adj[q[i].node.id]| {
      var node := Neighbour(adj, q, i, j);
      if node.id in seen {
        VisitEdgesQueuesOnce(adj, q, seen, i, j + 1);
      } else {
        var q1 := q + [Step(node, Some(adj[q[i].node.id][j]), i)];
        assert QueuedOnce(q1) by {
          forall a, b | 0 <= a < b < |q1|
            ensures q1[a].node.id != q1[b].node.id
          {
            assert q1[a] == q[a];
            if b < |q| {
              assert q1[b] == q[b];
            }
          }
        }
        assert q1[i] == q[i];
        VisitEdgesQueuesOnce(adj, q1, seen + {node.id}, i, j + 1);
      }
    }
  }

  /** A queue without repeated ids, all of them nodes of the graph, is no longer than the graph has nodes. */
  lemma {:induction false} QueueBound(adj: map<int, seq<Edge>>, q: seq<Step>)
    requires QueuedOnce(q) && forall k :: 0 <= k < |q| ==> q[k].node.id in adj
    ensures |q| <= |adj|
  {
    IdsCount(q, |q|);
    SubsetCard(IdsOf(q, |q|), adj.Keys);
  }

  ghost function IdsOf(q: seq<Step>, n: nat): set<int>
    requires n <= |q|
  {
    set k | 0 <= k < n :: q[k].node.id
  }

  lemma {:induction false} IdsCount(q: seq<Step>, n: nat)
    requires QueuedOnce(q) && n <= |q|
    ensures |IdsOf(q, n)| == n
  {
    if n > 0 {
      IdsCount(q, n - 1);
      assert IdsOf(q, n) == IdsOf(q, n - 1) + {q[n - 1].node.id};
      assert q[n - 1].node.id !in IdsOf(q, n - 1);
    }
  }

  /** Searching for the start node's own id gives the empty walk. */
  lemma SearchFromTarget(adj: map<int, seq<Edge>>, start: BasicNode)
    requires Closed(adj) && start.id in adj
    ensures Search(adj, start, start.id) == []
  {
  }

  /** When no walk reaches the target, the search gives `[]`. */
  lemma SearchUnreachable(adj: map<int, seq<Edge>>, start: BasicNode, endId: int)
    requires Closed(adj) && start.id in adj
    requires forall p :: !Reaches(adj, start.id, p, endId)
    ensures Search(adj, start, endId) == []
  {
    SearchIsShortestWalk(adj, start, endId);
  }
}
