/**
 * src/agents/Traveler.js: an agent that moves from node to node over edges.
 * It is idle when it has no destination and in transit otherwise; `travel`
 * starts a hop, `update` commits the arrival, and `shape` places the agent
 * on the segment between the two nodes.
 *
 * The wall clock (`new Date()`) is the parameter `now`, in milliseconds.
 */
module Travelers {
  import opened Results
  import opened Nodes

  /** The constructor's default, in seconds. */
  const DefaultTravelTime: real := 2.0

  /** The fields `travel` and `update` reassign, as a value. */
  datatype Motion = Motion(curNode: BasicNode, destinationNode: Option<BasicNode>, travelStarted: Option<int>)

  /** A new traveler: at its node, no destination, no travel started. */
  function Idle(curNode: BasicNode): (m: Motion)
    ensures m.curNode == curNode && m.destinationNode.None? && m.travelStarted.None?
  {
    Motion(curNode, None, None)
  }

  /**
   * `new Date() - travelStarted` in milliseconds. Before any travel the field
   * is `null`, which JavaScript subtraction reads as 0.
   */
  function Elapsed(m: Motion, now: int): int
  {
    now - (if m.travelStarted.Some? then m.travelStarted.value else 0)
  }

  /** The `progress` getter: elapsed time as a fraction of `travelTime` seconds. */
  function Progress(m: Motion, now: int, travelTime: real): real
    requires travelTime > 0.0
  {
    Elapsed(m, now) as real / (travelTime * 1000.0)
  }

  /** The hop is over: `progress >= 1`, written without the division. */
  predicate HopOver(m: Motion, now: int, travelTime: real)
  {
    Elapsed(m, now) as real >= travelTime * 1000.0
  }

  /** The arrival test `update` applies is the division-free `HopOver`. */
  lemma ProgressReachesOne(m: Motion, now: int, travelTime: real)
    requires travelTime > 0.0
    ensures Progress(m, now, travelTime) >= 1.0 <==> HopOver(m, now, travelTime)
  {
    var e, t := Elapsed(m, now) as real, travelTime * 1000.0;
    assert Progress(m, now, travelTime) * t == e;
  }

  /**
   * The destination `travel(edge)` leaves: the end when the start is the
   * current node, then the start when the end is (so a loop at the current
   * node leads back to it), and the old destination for an edge that does
   * not touch the current node.
   */
  function TravelTarget(current: Option<BasicNode>, edge: Edge, curNode: BasicNode): Option<BasicNode>
  {
    if edge.end == curNode then Some(edge.start)
    else if edge.start == curNode then Some(edge.end)
    else current
  }

  /** `travel(edge)`: picks the destination and restarts the clock in every case. */
  function Travel(m: Motion, edge: Edge, now: int): (m': Motion)
    ensures m'.curNode == m.curNode && m'.travelStarted == Some(now)
    ensures edge.start == m.curNode || edge.end == m.curNode ==> m'.destinationNode.Some?
  {
    Motion(m.curNode, TravelTarget(m.destinationNode, edge, m.curNode), Some(now))
  }

  /** `travel` finds the other endpoint of an edge that touches the current node. */
  lemma TravelPicksOtherEnd(m: Motion, edge: Edge, now: int)
    ensures edge.start == m.curNode ==> Travel(m, edge, now).destinationNode == Some(edge.end)
    ensures edge.end == m.curNode ==> Travel(m, edge, now).destinationNode == Some(edge.start)
    ensures edge.start != m.curNode && edge.end != m.curNode ==>
      Travel(m, edge, now).destinationNode == m.destinationNode
  {
  }

  /** The warning `travel` prints: the destination is still none afterwards. */
  predicate CannotStart(m: Motion, edge: Edge)
  {
    TravelTarget(m.destinationNode, edge, m.curNode).None?
  }

  /** The warning is printed exactly for an idle traveler and an edge that does not touch its node. */
  lemma CannotStartCases(m: Motion, edge: Edge)
    ensures CannotStart(m, edge) <==>
      m.destinationNode.None? && edge.start != m.curNode && edge.end != m.curNode
  {
  }

  /**
   * `update(dt)`: when the hop is over and there is a destination, the
   * traveler stands on it and has none; otherwise nothing changes.
   * `travelStarted` is left as it is.
   */
  function Update(m: Motion, now: int, travelTime: real): (m': Motion)
    ensures m'.travelStarted == m.travelStarted
    ensures m' != m <==> HopOver(m, now, travelTime) && m.destinationNode.Some?
  {
    if HopOver(m, now, travelTime) && m.destinationNode.Some? then
      Motion(m.destinationNode.value, None, m.travelStarted)
    else m
  }

  /** Arrival: after an update at which the hop is over, the traveler is idle at its old destination. */
  lemma UpdateArrives(m: Motion, now: int, travelTime: real)
    requires m.destinationNode.Some? && HopOver(m, now, travelTime)
    ensures Update(m, now, travelTime) == Motion(m.destinationNode.value, None, m.travelStarted)
  {
  }

  /** Before the hop is over, or when idle, `update` changes nothing. */
  lemma UpdateWaits(m: Motion, now: int, travelTime: real)
    requires m.destinationNode.None? || !HopOver(m, now, travelTime)
    ensures Update(m, now, travelTime) == m
  {
  }

  /** A second update at the same time is a no-op. */
  lemma UpdateIdempotent(m: Motion, now: int, travelTime: real)
    ensures Update(Update(m, now, travelTime), now, travelTime) == Update(m, now, travelTime)
  {
  }

  /** `start + (end - start) * progress`. */
  function Lerp(a: real, b: real, p: real): real
  {
    a + (b - a) * p
  }

  /**
   * The position the `shape` getter gives: the destination once progress
   * reaches 1, the interpolated point while in transit, and the current node
   * when there is no destination or no travel was started.
   */
  function Position(m: Motion, now: int, travelTime: real): (xy: (real, real))
    requires travelTime > 0.0
  {
    if m.destinationNode.Some? && m.travelStarted.Some? then
      var p := Progress(m, now, travelTime);
      if p >= 1.0 then (m.destinationNode.value.x, m.destinationNode.value.y)
      else (Lerp(m.curNode.x, m.destinationNode.value.x, p), Lerp(m.curNode.y, m.destinationNode.value.y, p))
    else (m.curNode.x, m.curNode.y)
  }

  function Min(a: real, b: real): real { if a <= b then a else b }
  function Max(a: real, b: real): real { if a <= b then b else a }

  /** An interpolation at a fraction in [0, 1) lies between its two ends. */
  lemma LerpBetween(a: real, b: real, p: real)
    requires 0.0 <= p < 1.0
    ensures Min(a, b) <= Lerp(a, b, p) <= Max(a, b)
  {
    NonNegProduct(if a <= b then b - a else a - b, p);
    NonNegProduct(if a <= b then b - a else a - b, 1.0 - p);
  }

  lemma NonNegProduct(u: real, v: real)
    requires u >= 0.0 && v >= 0.0
    ensures u * v >= 0.0
  {
  }

  /**
   * Where `shape` puts the traveler: on its node when idle; on its node at
   * the moment of departure; on the destination once the hop is over; and,
   * while a hop is under way, inside the box spanned by the two nodes.
   */
  lemma PositionCases(m: Motion, now: int, travelTime: real)
    requires travelTime > 0.0
    ensures m.destinationNode.None? ==> Position(m, now, travelTime) == (m.curNode.x, m.curNode.y)
    ensures m.destinationNode.Some? && m.travelStarted == Some(now) ==>
      Position(m, now, travelTime) == (m.curNode.x, m.curNode.y)
    ensures m.destinationNode.Some? && m.travelStarted.Some? && HopOver(m, now, travelTime) ==>
      Position(m, now, travelTime) == (m.destinationNode.value.x, m.destinationNode.value.y)
    ensures m.destinationNode.Some? && m.travelStarted.Some? && Elapsed(m, now) >= 0 ==>
      var xy := Position(m, now, travelTime);
      Min(m.curNode.x, m.destinationNode.value.x) <= xy.0 <= Max(m.curNode.x, m.destinationNode.value.x) &&
      Min(m.curNode.y, m.destinationNode.value.y) <= xy.1 <= Max(m.curNode.y, m.destinationNode.value.y)
  {
    ProgressReachesOne(m, now, travelTime);
    if m.destinationNode.Some? && m.travelStarted.Some? {
      var p := Progress(m, now, travelTime);
      var d := m.destinationNode.value;
      if m.travelStarted == Some(now) {
        assert Elapsed(m, now) == 0;
        assert p == 0.0;
      }
      if Elapsed(m, now) >= 0 && p < 1.0 {
        assert 0.0 <= p by {
          assert Elapsed(m, now) as real >= 0.0;
        }
        LerpBetween(m.curNode.x, d.x, p);
        LerpBetween(m.curNode.y, d.y, p);
      }
    }
  }

  /**
   * The traveler object. `travelTime` is never reassigned; `curEdge` is
   * initialised to `null` and never assigned again.
   */
  class Traveler {
    var curNode: BasicNode
    var destinationNode: Option<BasicNode>
    var travelStarted: Option<int>
    var curEdge: Option<Edge>
    const travelTime: real

    function State(): Motion
      reads this
    {
      Motion(curNode, destinationNode, travelStarted)
    }

    /** `new Traveler(curNode, travelTime = 2)`. */
    constructor (curNode: BasicNode, travelTime: Option<real>)
      requires travelTime.Some? ==> travelTime.value > 0.0
      ensures State() == Idle(curNode) && curEdge.None?
      ensures this.travelTime == (if travelTime.Some? then travelTime.value else DefaultTravelTime)
    {
      this.curNode := curNode;
      destinationNode := None;
      travelStarted := None;
      curEdge := None;
      this.travelTime := if travelTime.Some? then travelTime.value else DefaultTravelTime;
    }

    /** The `progress` getter. */
    function GetProgress(now: int): real
      reads this
      requires travelTime > 0.0
    {
      Progress(State(), now, travelTime)
    }

    /** The position of the `shape` getter. */
    function ShapePosition(now: int): (real, real)
      reads this
      requires travelTime > 0.0
    {
      Position(State(), now, travelTime)
    }

    /** `travel(edge)`. */
    method TravelAlong(edge: Edge, now: int)
      modifies this
      ensures State() == Travel(old(State()), edge, now)
      ensures curEdge == old(curEdge)
    {
      if edge.start == curNode {
        destinationNode := Some(edge.end);
      }
      if edge.end == curNode {
        destinationNode := Some(edge.start);
      }
      travelStarted := Some(now);
    }

    /** `update(dt)`; `dt` plays no part. */
    method UpdateAt(dt: real, now: int)
      modifies this
      ensures State() == Update(old(State()), now, travelTime)
      ensures curEdge == old(curEdge)
    {
      if HopOver(State(), now, travelTime) && destinationNode.Some? {
        curNode := destinationNode.value;
        destinationNode := None;
      }
    }
  }
}
