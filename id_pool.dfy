/**
 * The id allocator of src/utils/IdPool.js: a high-water mark `highestId` and a
 * LIFO stack `vacantIds` of released ids.
 */
module IdPools {

  /** The two fields of an IdPool, as a value. */
  datatype PoolState = PoolState(vacantIds: seq<int>, highestId: int)

  /** What the constructor leaves: no vacant ids, high-water mark 0. */
  const EmptyPool := PoolState([], 0)

  /**
   * `getId()`: pop the most recently released id if there is one, otherwise
   * raise the high-water mark by one and hand it out. Returns the new state and
   * the id.
   */
  function GetIdStep(s: PoolState): (PoolState, int)
  {
    if |s.vacantIds| > 0 then
      (PoolState(s.vacantIds[..|s.vacantIds| - 1], s.highestId), s.vacantIds[|s.vacantIds| - 1])
    else
      (PoolState(s.vacantIds, s.highestId + 1), s.highestId + 1)
  }

  /**
   * `releaseId(id)`: releasing the high-water mark only lowers the mark; any
   * other id is pushed onto the vacant stack.
   */
  function ReleaseIdStep(s: PoolState, id: int): PoolState
  {
    if s.highestId == id then PoolState(s.vacantIds, s.highestId - 1)
    else PoolState(s.vacantIds + [id], s.highestId)
  }

  /**
   * `n` successive `getId()` calls: the final state and the ids in call order.
   * Every id handed out was either vacant before or lies above the old mark and
   * at most the new one; the mark rises by at most `n` and the stack only shrinks.
   */
  function TakeMany(s: PoolState, n: nat): (r: (PoolState, seq<int>))
    ensures |r.1| == n
    ensures s.highestId <= r.0.highestId <= s.highestId + n
    ensures |r.0.vacantIds| <= |s.vacantIds| && r.0.vacantIds == s.vacantIds[..|r.0.vacantIds|]
    ensures forall i :: 0 <= i < n ==>
      r.1[i] in s.vacantIds || s.highestId < r.1[i] <= r.0.highestId
    decreases n
  {
    if n == 0 then (s, [])
    else
      var (s', id) := GetIdStep(s);
      var (s'', ids) := TakeMany(s', n - 1);
      (s'', [id] + ids)
  }

  /**
   * The bookkeeping promise behind "Returns unique numeric ID": `issued` (the
   * ids currently held by callers) and the vacant stack are disjoint, the stack
   * holds no id twice, and together they are exactly 1..highestId.
   */
  ghost predicate Accounts(s: PoolState, issued: set<int>)
  {
    s.highestId >= 0 &&
    (forall i :: 0 <= i < |s.vacantIds| ==> 1 <= s.vacantIds[i] <= s.highestId && s.vacantIds[i] !in issued) &&
    (forall i, j :: 0 <= i < j < |s.vacantIds| ==> s.vacantIds[i] != s.vacantIds[j]) &&
    (forall x :: x in issued ==> 1 <= x <= s.highestId) &&
    (forall x :: 1 <= x <= s.highestId ==> x in issued || x in s.vacantIds)
  }

  /** A fresh pool accounts for nothing issued. */
  lemma EmptyPoolAccounts()
    ensures Accounts(EmptyPool, {})
  {
  }

  /** A fresh pool that never sees a release hands out 1, 2, 3, ... in order. */
  lemma {:induction false} FreshPoolCountsUp(n: nat)
    ensures TakeMany(EmptyPool, n) == (PoolState([], n), seq(n, i => i + 1))
  {
    CountsUpFrom(0, n);
    assert seq(n, i => 0 + 1 + i) == seq(n, i => i + 1);
  }

  /** From a pool with no vacant ids and mark `h`, `n` calls give h+1 .. h+n. */
  lemma {:induction false} CountsUpFrom(h: int, n: nat)
    ensures TakeMany(PoolState([], h), n) == (PoolState([], h + n), seq(n, i => h + 1 + i))
    decreases n
  {
    if n > 0 {
      CountsUpFrom(h + 1, n - 1);
      assert GetIdStep(PoolState([], h)) == (PoolState([], h + 1), h + 1);
      var rest := TakeMany(PoolState([], h + 1), n - 1);
      assert TakeMany(PoolState([], h), n) == (rest.0, [h + 1] + rest.1);
      assert seq(n, i => h + 1 + i) == [h + 1] + seq(n - 1, i => h + 1 + 1 + i);
    } else {
      assert seq(n, i => h + 1 + i) == [];
    }
  }

  /** With vacant ids, `getId()` pops the last one released and keeps the mark. */
  lemma TakeIdPopsLastReleased(s: PoolState)
    requires |s.vacantIds| > 0
    ensures GetIdStep(s).1 == s.vacantIds[|s.vacantIds| - 1]
    ensures GetIdStep(s).0.highestId == s.highestId
    ensures GetIdStep(s).0.vacantIds + [GetIdStep(s).1] == s.vacantIds
  {
  }

  /** With no vacant ids, `getId()` raises the mark by exactly one and returns it. */
  lemma TakeIdRaisesMark(s: PoolState)
    requires s.vacantIds == []
    ensures GetIdStep(s).1 == s.highestId + 1 == GetIdStep(s).0.highestId
    ensures GetIdStep(s).0.vacantIds == []
  {
  }

  /**
   * Releasing the high-water mark lowers it by one and leaves the stack alone;
   * releasing any other id pushes it and leaves the mark alone.
   */
  lemma ReleaseIdCases(s: PoolState, id: int)
    ensures id == s.highestId ==> ReleaseIdStep(s, id) == PoolState(s.vacantIds, s.highestId - 1)
    ensures id != s.highestId ==> ReleaseIdStep(s, id) == PoolState(s.vacantIds + [id], s.highestId)
  {
  }

  /**
   * Release followed by `getId()` hands the released id straight back and
   * restores the pool, except when the released id was the high-water mark
   * while other ids were vacant: then the mark shrinks and `getId()` pops the
   * most recently released vacant id instead.
   */
  lemma ReleaseThenTake(s: PoolState, x: int)
    ensures x != s.highestId || s.vacantIds == [] ==> GetIdStep(ReleaseIdStep(s, x)) == (s, x)
    ensures x == s.highestId && s.vacantIds != [] ==>
      GetIdStep(ReleaseIdStep(s, x)).1 == s.vacantIds[|s.vacantIds| - 1] &&
      GetIdStep(ReleaseIdStep(s, x)).0.highestId == x - 1
  {
    if x != s.highestId {
      assert (s.vacantIds + [x])[..|s.vacantIds|] == s.vacantIds;
    }
  }

  /** A concrete pool where the released id does not come straight back. */
  lemma ReleasingTheMarkCanSkipIt()
    ensures GetIdStep(ReleaseIdStep(PoolState([1], 3), 3)).1 == 1
  {
  }

  /**
   * `getId()` never hands out an id that is still issued, and the bookkeeping
   * invariant holds afterwards with the new id counted as issued.
   */
  lemma {:induction false} TakeIdKeepsAccounts(s: PoolState, issued: set<int>)
    requires Accounts(s, issued)
    ensures GetIdStep(s).1 !in issued
    ensures 1 <= GetIdStep(s).1
    ensures Accounts(GetIdStep(s).0, issued + {GetIdStep(s).1})
  {
    var (s', id) := GetIdStep(s);
    if |s.vacantIds| > 0 {
      var n := |s.vacantIds| - 1;
      assert id == s.vacantIds[n];
      assert s'.vacantIds == s.vacantIds[..n];
      forall x | 1 <= x <= s'.highestId
        ensures x in issued + {id} || x in s'.vacantIds
      {
        if x !in issued + {id} {
          assert x in s.vacantIds;
          var k :| 0 <= k < |s.vacantIds| && s.vacantIds[k] == x;
          assert k != n;
          assert s'.vacantIds[k] == x;
        }
      }
    } else {
      assert id == s.highestId + 1;
    }
  }

  /**
   * Releasing an id that is currently issued keeps the bookkeeping invariant,
   * with that id no longer issued.
   */
  lemma {:induction false} ReleaseIdKeepsAccounts(s: PoolState, issued: set<int>, id: int)
    requires Accounts(s, issued) && id in issued
    ensures Accounts(ReleaseIdStep(s, id), issued - {id})
  {
    var s' := ReleaseIdStep(s, id);
    if s.highestId == id {
      forall i | 0 <= i < |s.vacantIds|
        ensures s.vacantIds[i] <= s'.highestId
      {
        assert s.vacantIds[i] != id;
      }
    } else {
      forall x | 1 <= x <= s'.highestId
        ensures x in issued - {id} || x in s'.vacantIds
      {
        if x !in issued - {id} {
          if x == id {
            assert s'.vacantIds[|s.vacantIds|] == x;
          } else {
            var k :| 0 <= k < |s.vacantIds| && s.vacantIds[k] == x;
            assert s'.vacantIds[k] == x;
          }
        }
      }
    }
  }

  /** The pool object: both fields are updated in place by its two methods. */
  class IdPool {
    var vacantIds: seq<int>
    var highestId: int

    /** Both fields as a value. */
    function State(): PoolState
      reads this
    {
      PoolState(vacantIds, highestId)
    }

    constructor ()
      ensures State() == EmptyPool
    {
      vacantIds := [];
      highestId := 0;
    }

    /**
     * `getId()`. The JavaScript caller in Graph passes an argument, which this
     * method does not take: it is ignored.
     */
    method GetId() returns (id: int)
      modifies this
      ensures (State(), id) == GetIdStep(old(State()))
    {
      if |vacantIds| > 0 {
        id := vacantIds[|vacantIds| - 1];
        vacantIds := vacantIds[..|vacantIds| - 1];
        return;
      }
      highestId := highestId + 1;
      id := highestId;
    }

    /** `releaseId(id)`; never checks that `id` is issued. */
    method ReleaseId(id: int)
      modifies this
      ensures State() == ReleaseIdStep(old(State()), id)
    {
      if highestId == id {
        highestId := highestId - 1;
        return;
      }
      vacantIds := vacantIds + [id];
    }
  }
}
