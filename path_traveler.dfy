/**
 * src/agents/PathTraveler.js: a traveler that follows a stored list of edges,
 * with a cursor `pathIndex`, starting the next hop in the same `update` in
 * which it arrives. src/agents/AgentTypeMap.js, the agent registry, is here too.
 */
module PathTravelers {
  import opened Results
  import opened TypeMaps
  import opened Nodes
  import opened Travelers

  /** `AgentType.PATH_TRAVELER`; the enum file is not part of this model, so the string is a stand-in. */
  const PathTravelerType: string := "path_traveler"

  /** The agent family's classes, for the registry. */
  datatype AgentClass = TravelerClass | PathTravelerClass

  /** Their static `type`: `Traveler` declares none. */
  function AgentClassType(c: AgentClass): Tag
  {
    if c.TravelerClass? then None else Some(PathTravelerType)
  }

  /** src/agents/AgentTypeMap.js. */
  const AgentTypeMap: map<string, AgentClass> := MapToType([TravelerClass, PathTravelerClass], AgentClassType)

  /** `Traveler` is registered under the key "undefined", `PathTraveler` under its type. */
  lemma AgentTypeMapContents()
    ensures AgentTypeMap == map["undefined" := TravelerClass, PathTravelerType := PathTravelerClass]
  {
    var m := AgentTypeMap;
    assert m.Keys == {"undefined", PathTravelerType};
    LaterClassWins([TravelerClass, PathTravelerClass], AgentClassType, 0);
    LaterClassWins([TravelerClass, PathTravelerClass], AgentClassType, 1);
  }

  /**
   * The fields of a path traveler, as a value: the motion it inherits, the
   * path (`undefined` until one is set) and the cursor into it.
   */
  datatype PathState = PathState(motion: Motion, path: Option<seq<Edge>>, pathIndex: nat)

  /**
   * `travelEdgePath(edgePath)`: an empty list is ignored; otherwise the path
   * is stored, the cursor reset and the first edge travelled.
   */
  function TravelEdgePath(ps: PathState, edgePath: seq<Edge>, now: int): (ps': PathState)
    ensures |edgePath| < 1 ==> ps' == ps
    ensures |edgePath| >= 1 ==>
      ps'.path == Some(edgePath) && ps'.pathIndex == 0 && ps'.motion == Travel(ps.motion, edgePath[0], now)
  {
    if |edgePath| < 1 then ps
    else PathState(Travel(ps.motion, edgePath[0], now), Some(edgePath), 0)
  }

  /**
   * `getNextPathStep()`: with no path, `null` and nothing moves; otherwise the
   * cursor advances and the edge under it is returned, or `null` past the end.
   */
  function NextPathStep(ps: PathState): (r: (PathState, Option<Edge>))
  {
    if ps.path.None? then (ps, None)
    else
      var k := ps.pathIndex + 1;
      (ps.(pathIndex := k), if k >= |ps.path.value| then None else Some(ps.path.value[k]))
  }

  /** The three outcomes of `getNextPathStep`. */
  lemma NextPathStepCases(ps: PathState)
    ensures ps.path.None? ==> NextPathStep(ps) == (ps, None)
    ensures ps.path.Some? ==>
      NextPathStep(ps).0 == PathState(ps.motion, ps.path, ps.pathIndex + 1)
    ensures ps.path.Some? && ps.pathIndex + 1 < |ps.path.value| ==>
      NextPathStep(ps).1 == Some(ps.path.value[ps.pathIndex + 1])
    ensures ps.path.Some? && ps.pathIndex + 1 >= |ps.path.value| ==> NextPathStep(ps).1.None?
  {
  }

  /**
   * `update(dt)`: the traveler's own update first; then, when it is idle and
   * has a path, it takes the next step and travels it at once.
   */
  function PathUpdate(ps: PathState, now: int, travelTime: real): PathState
  {
    var ps1 := ps.(motion := Update(ps.motion, now, travelTime));
    if ps1.motion.destinationNode.None? && ps1.path.Some? then
      var (ps2, edge) := NextPathStep(ps1);
      if edge.Some? then ps2.(motion := Travel(ps2.motion, edge.value, now)) else ps2
    else ps1
  }

  /**
   * The path is never cleared: `getNextPathStep` and `update` keep it, and
   * `travelEdgePath` either keeps it or replaces it by a non-empty one.
   */
  lemma PathNeverCleared(ps: PathState, edgePath: seq<Edge>, now: int, travelTime: real)
    ensures NextPathStep(ps).0.path == ps.path
    ensures PathUpdate(ps, now, travelTime).path == ps.path
    ensures TravelEdgePath(ps, edgePath, now).path == ps.path ||
      (TravelEdgePath(ps, edgePath, now).path == Some(edgePath) && |edgePath| >= 1)
  {
  }

  /**
   * In transit, before the hop is over, `update` leaves the whole path state
   * unchanged: the base update waits and no next step is taken.
   */
  lemma PathUpdateWaits(ps: PathState, now: int, travelTime: real)
    requires ps.motion.destinationNode.Some? && !HopOver(ps.motion, now, travelTime)
    ensures PathUpdate(ps, now, travelTime) == ps
  {
  }

  /**
   * The cursor moves by one exactly when the traveler is idle after its own
   * update and has a path, and stays put otherwise.
   */
  lemma PathUpdateCursor(ps: PathState, now: int, travelTime: real)
    ensures var m := Update(ps.motion, now, travelTime);
      PathUpdate(ps, now, travelTime).pathIndex ==
        if m.destinationNode.None? && ps.path.Some? then ps.pathIndex + 1 else ps.pathIndex
  {
  }

  /**
   * No idle tick between hops: when the update completes a hop and the path
   * has a next edge touching the node arrived at, the same update starts
   * travelling it, from the node arrived at.
   */
  lemma ArrivalChainsNextHop(ps: PathState, now: int, travelTime: real)
    requires ps.motion.destinationNode.Some? && HopOver(ps.motion, now, travelTime) && ps.path.Some?
    requires ps.pathIndex + 1 < |ps.path.value|
    requires var e := ps.path.value[ps.pathIndex + 1];
      e.start == ps.motion.destinationNode.value || e.end == ps.motion.destinationNode.value
    ensures var ps' := PathUpdate(ps, now, travelTime);
      ps'.motion.curNode == ps.motion.destinationNode.value &&
      ps'.motion.destinationNode.Some? && ps'.motion.travelStarted == Some(now) &&
      ps'.pathIndex == ps.pathIndex + 1
  {
  }

  /** After the last hop an idle update only moves the cursor on; the agent stays where it is. */
  lemma IdlePastTheEnd(ps: PathState, now: int, travelTime: real)
    requires ps.motion.destinationNode.None? && ps.path.Some?
    requires ps.pathIndex + 1 >= |ps.path.value|
    ensures PathUpdate(ps, now, travelTime) == ps.(pathIndex := ps.pathIndex + 1)
  {
  }

  /**
   * `ns` are the nodes a traveler at `ns[0]` passes through when it travels
   * the edges of `p` in order: each edge touches the node reached so far and
   * leads on to the next.
   */
  predicate IsChain(p: seq<Edge>, ns: seq<BasicNode>)
  {
    |ns| == |p| + 1 &&
    forall k :: 0 <= k < |p| ==> TravelTarget(None, p[k], ns[k]) == Some(ns[k + 1])
  }

  /** In transit on hop `k` of chain `p`, started at time `t`. */
  predicate OnHop(ps: PathState, p: seq<Edge>, ns: seq<BasicNode>, k: nat, t: int)
    requires IsChain(p, ns) && k < |p|
  {
    ps.path == Some(p) && ps.pathIndex == k && ps.motion == Motion(ns[k], Some(ns[k + 1]), Some(t))
  }

  /** `update` called at each of `times` in turn. */
  function RunUpdates(ps: PathState, times: seq<int>, travelTime: real): PathState
    decreases |times|
  {
    if times == [] then ps else RunUpdates(PathUpdate(ps, times[0], travelTime), times[1..], travelTime)
  }

  /** Each update comes at least one travel time after the previous one (the first after `t`). */
  predicate Paced(t: int, times: seq<int>, travelTime: real)
    decreases |times|
  {
    times == [] ||
    ((times[0] - t) as real >= travelTime * 1000.0 && Paced(times[0], times[1..], travelTime))
  }

  /** An edge that touches the current node leads to the same place whatever the old destination. */
  lemma TargetIgnoresOldDestination(d: Option<BasicNode>, e: Edge, n: BasicNode)
    requires TravelTarget(None, e, n).Some?
    ensures TravelTarget(d, e, n) == TravelTarget(None, e, n)
  {
  }

  /** One hop of a chain: the update that ends it starts the next, or leaves the agent at the end. */
  lemma HopStep(ps: PathState, p: seq<Edge>, ns: seq<BasicNode>, k: nat, t: int, now: int, travelTime: real)
    requires IsChain(p, ns) && k < |p| && OnHop(ps, p, ns, k, t)
    requires (now - t) as real >= travelTime * 1000.0
    ensures k + 1 < |p| ==> OnHop(PathUpdate(ps, now, travelTime), p, ns, k + 1, now)
    ensures k + 1 == |p| ==> PathUpdate(ps, now, travelTime) == PathState(Motion(ns[|p|], None, Some(t)), Some(p), k + 1)
  {
    if k + 1 < |p| {
      assert TravelTarget(None, p[k + 1], ns[k + 1]) == Some(ns[k + 2]);
    }
  }

  /** From hop `k`, paced updates, one per remaining hop, bring the agent to the chain's last node. */
  lemma {:induction false} RunChainFrom(ps: PathState, p: seq<Edge>, ns: seq<BasicNode>, k: nat, t: int,
                                        times: seq<int>, travelTime: real)
    requires IsChain(p, ns) && k < |p| && OnHop(ps, p, ns, k, t)
    requires |times| == |p| - k && Paced(t, times, travelTime)
    ensures RunUpdates(ps, times, travelTime).motion.curNode == ns[|p|]
    ensures RunUpdates(ps, times, travelTime).motion.destinationNode.None?
    ensures RunUpdates(ps, times, travelTime).path == Some(p)
    ensures RunUpdates(ps, times, travelTime).pathIndex == |p|
    decreases |p| - k
  {
    HopStep(ps, p, ns, k, t, times[0], travelTime);
    var ps' := PathUpdate(ps, times[0], travelTime);
    if k + 1 < |p| {
      RunChainFrom(ps', p, ns, k + 1, times[0], times[1..], travelTime);
    } else {
      assert times[1..] == [];
    }
  }

  /**
   * A connected chain, end to end: a traveler at the chain's first node that
   * is sent along it with `travelEdgePath` at time `t`, and updated once per
   * hop, each time after a full travel time, ends idle at the chain's last
   * node with its cursor at the end of the path.
   */
  lemma FollowsChain(ps: PathState, p: seq<Edge>, ns: seq<BasicNode>, t: int, times: seq<int>, travelTime: real)
    requires IsChain(p, ns) && |p| >= 1 && ps.motion.curNode == ns[0]
    requires |times| == |p| && Paced(t, times, travelTime)
    ensures RunUpdates(TravelEdgePath(ps, p, t), times, travelTime).motion ==
      Motion(ns[|p|], None, RunUpdates(TravelEdgePath(ps, p, t), times, travelTime).motion.travelStarted)
    ensures RunUpdates(TravelEdgePath(ps, p, t), times, travelTime).pathIndex == |p|
  {
    assert TravelTarget(None, p[0], ns[0]) == Some(ns[1]);
    TargetIgnoresOldDestination(ps.motion.destinationNode, p[0], ns[0]);
    RunChainFrom(TravelEdgePath(ps, p, t), p, ns, 0, t, times, travelTime);
  }

  /**
   * The path traveler object. It extends `Traveler`; the inherited fields
   * live in `traveler`. `path` is `None` until `travelEdgePath` stores one.
   */
  class PathTraveler {
    const traveler: Traveler
    var path: Option<seq<Edge>>
    var pathIndex: nat

    function State(): PathState
      reads this, traveler
    {
      PathState(traveler.State(), path, pathIndex)
    }

    /**
     * The inherited constructor `new PathTraveler(curNode, travelTime = 2)`.
     * `pathIndex` has no initial value in the class and is `undefined` until
     * `travelEdgePath` sets it; no operation reads it before then, so it starts at 0 here.
     */
    constructor (curNode: BasicNode, travelTime: Option<real>)
      requires travelTime.Some? ==> travelTime.value > 0.0
      ensures fresh(traveler)
      ensures State() == PathState(Idle(curNode), None, 0) && traveler.curEdge.None?
      ensures traveler.travelTime == (if travelTime.Some? then travelTime.value else DefaultTravelTime)
    {
      traveler := new Traveler(curNode, travelTime);
      path := None;
      pathIndex := 0;
    }

    /** `travelEdgePath(edgePath)`. */
    method TravelPath(edgePath: seq<Edge>, now: int)
      modifies this, traveler
      ensures State() == TravelEdgePath(old(State()), edgePath, now)
      ensures traveler.curEdge == old(traveler.curEdge)
    {
      if |edgePath| < 1 {
        return;
      }
      path := Some(edgePath);
      pathIndex := 0;
      traveler.TravelAlong(edgePath[pathIndex], now);
    }

    /** `getNextPathStep()`. */
    method GetNextPathStep() returns (edge: Option<Edge>)
      modifies this
      ensures (State(), edge) == NextPathStep(old(State()))
    {
      if path.None? {
        return None;
      }
      pathIndex := pathIndex + 1;
      if pathIndex >= |path.value| {
        return None;
      }
      return Some(path.value[pathIndex]);
    }

    /** `update(dt)`. */
    method UpdateAt(dt: real, now: int)
      modifies this, traveler
      ensures State() == PathUpdate(old(State()), now, traveler.travelTime)
      ensures traveler.curEdge == old(traveler.curEdge)
    {
      traveler.UpdateAt(dt, now);
      if traveler.destinationNode.None? && path.Some? {
        var edge := GetNextPathStep();
        if edge.Some? {
          traveler.TravelAlong(edge.value, now);
        }
      }
    }
  }
}
