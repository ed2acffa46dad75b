/**
 * The SELECT statements of the repair storage. Each statement reads exactly
 * one table, so each is a function of that table's map; a query that returns
 * a collection returns the selected part of the table (id to row), one that
 * returns a single row returns it with its id, or None when nothing matches.
 */
module Queries {
  import opened Types
  import opened Sql

  /** The segment state code the free-segment queries select (`state = 0`). */
  const FreeState: int := 0

  // ----- cluster -----

  /** getCluster: the row whose name is `name`. */
  function GetCluster(cluster: map<string, Cluster>, name: string): (r: Option<Cluster>)
    ensures r.Some? <==> name in cluster
    ensures r.Some? ==> r.value == cluster[name]
  {
    if name in cluster then Some(cluster[name]) else None
  }

  /** getClusters: every row of the table. */
  function GetClusters(cluster: map<string, Cluster>): (r: set<Cluster>)
    ensures forall name :: name in cluster ==> cluster[name] in r
    ensures forall c :: c in r ==> exists name :: name in cluster && cluster[name] == c
  {
    set name | name in cluster :: cluster[name]
  }

  // ----- repair_run -----

  /** getRepairRun: the row with id `id`. */
  function GetRepairRun(repairRun: map<int, RepairRun>, id: int): (r: Option<RepairRun>)
    ensures r.Some? <==> id in repairRun
    ensures r.Some? ==> r.value == repairRun[id]
  {
    if id in repairRun then Some(repairRun[id]) else None
  }

  /** getRepairRunsForCluster: the rows whose cluster_name is `clusterName`. */
  function GetRepairRunsForCluster(repairRun: map<int, RepairRun>, clusterName: string): (r: map<int, RepairRun>)
    ensures forall id :: id in r <==> id in repairRun && repairRun[id].clusterName == clusterName
    ensures forall id :: id in r ==> r[id] == repairRun[id]
  {
    map id | id in repairRun && repairRun[id].clusterName == clusterName :: repairRun[id]
  }

  /** getRepairRunsWithState: the rows whose state is `state`. */
  function GetRepairRunsWithState(repairRun: map<int, RepairRun>, state: RunState): (r: map<int, RepairRun>)
    ensures forall id :: id in r <==> id in repairRun && repairRun[id].runState == state
    ensures forall id :: id in r ==> r[id] == repairRun[id]
  {
    map id | id in repairRun && repairRun[id].runState == state :: repairRun[id]
  }

  /** getRepairRunsForUnit: the rows whose repair_unit_id is `unitId`. */
  function GetRepairRunsForUnit(repairRun: map<int, RepairRun>, unitId: int): (r: map<int, RepairRun>)
    ensures forall id :: id in r <==> id in repairRun && repairRun[id].repairUnitId == unitId
    ensures forall id :: id in r ==> r[id] == repairRun[id]
  {
    map id | id in repairRun && repairRun[id].repairUnitId == unitId :: repairRun[id]
  }

  /** getRepairRunIdsForCluster: the ids of exactly the rows getRepairRunsForCluster returns. */
  function GetRepairRunIdsForCluster(repairRun: map<int, RepairRun>, clusterName: string): (r: set<int>)
    ensures r == GetRepairRunsForCluster(repairRun, clusterName).Keys
  {
    set id | id in repairRun && repairRun[id].clusterName == clusterName
  }

  // ----- repair_unit -----

  /** getRepairUnit: the row with id `id`. */
  function GetRepairUnit(repairUnit: map<int, RepairUnit>, id: int): (r: Option<RepairUnit>)
    ensures r.Some? <==> id in repairUnit
    ensures r.Some? ==> r.value == repairUnit[id]
  {
    if id in repairUnit then Some(repairUnit[id]) else None
  }

  /**
   * The WHERE clause of getRepairUnitByClusterAndTables: same cluster, same
   * keyspace, and column_families both contains and is contained in the argument.
   */
  predicate UnitMatches(u: RepairUnit, clusterName: string, keyspaceName: string, columnFamilies: seq<string>)
  {
    && u.clusterName == clusterName
    && u.keyspaceName == keyspaceName
    && ArrayContains(u.columnFamilies, columnFamilies)
    && ArrayContains(columnFamilies, u.columnFamilies)
  }

  /** A unit matches exactly when its table set equals the argument's, whatever their order or repetitions. */
  lemma UnitMatchesIffSameTables(u: RepairUnit, clusterName: string, keyspaceName: string, columnFamilies: seq<string>)
    ensures UnitMatches(u, clusterName, keyspaceName, columnFamilies)
        <==> u.clusterName == clusterName && u.keyspaceName == keyspaceName
             && Elems(u.columnFamilies) == Elems(columnFamilies)
  {
  }

  /**
   * getRepairUnitByClusterAndTables: a matching row, or None when no row
   * matches. Among several matching rows the model returns the one with the
   * least id; the statement itself leaves that choice open.
   */
  function GetRepairUnitByClusterAndTables(repairUnit: map<int, RepairUnit>, clusterName: string,
                                           keyspaceName: string, columnFamilies: seq<string>): (r: Option<Row<RepairUnit>>)
    ensures r.Some? ==> r.value.id in repairUnit && repairUnit[r.value.id] == r.value.value
    ensures r.Some? ==> UnitMatches(r.value.value, clusterName, keyspaceName, columnFamilies)
    ensures r.None? <==> forall id :: id in repairUnit ==> !UnitMatches(repairUnit[id], clusterName, keyspaceName, columnFamilies)
  {
    var ids := set id | id in repairUnit && UnitMatches(repairUnit[id], clusterName, keyspaceName, columnFamilies);
    if ids == {} then
      assert forall id :: id in repairUnit && UnitMatches(repairUnit[id], clusterName, keyspaceName, columnFamilies) ==> id in ids;
      None
    else
      var id := LeastId(ids);
      Some(Row(id, repairUnit[id]))
  }

  /** The lookup depends on the table names only as a set: any reordering or repetition of them finds the same row. */
  lemma UnitLookupIgnoresOrder(repairUnit: map<int, RepairUnit>, clusterName: string, keyspaceName: string,
                               a: seq<string>, b: seq<string>)
    requires Elems(a) == Elems(b)
    ensures GetRepairUnitByClusterAndTables(repairUnit, clusterName, keyspaceName, a)
         == GetRepairUnitByClusterAndTables(repairUnit, clusterName, keyspaceName, b)
  {
    var idsA := set id | id in repairUnit && UnitMatches(repairUnit[id], clusterName, keyspaceName, a);
    var idsB := set id | id in repairUnit && UnitMatches(repairUnit[id], clusterName, keyspaceName, b);
    forall id | id in repairUnit
      ensures UnitMatches(repairUnit[id], clusterName, keyspaceName, a)
          <==> UnitMatches(repairUnit[id], clusterName, keyspaceName, b)
    {
      UnitMatchesIffSameTables(repairUnit[id], clusterName, keyspaceName, a);
      UnitMatchesIffSameTables(repairUnit[id], clusterName, keyspaceName, b);
    }
    assert idsA == idsB;
  }

  // ----- repair_segment -----

  /** getRepairSegment: the row with id `id`. */
  function GetRepairSegment(repairSegment: map<int, RepairSegment>, id: int): (r: Option<RepairSegment>)
    ensures r.Some? <==> id in repairSegment
    ensures r.Some? ==> r.value == repairSegment[id]
  {
    if id in repairSegment then Some(repairSegment[id]) else None
  }

  /** `run_id = :runId AND state = :state` */
  predicate InRunWithState(s: RepairSegment, runId: int, state: int)
  {
    s.runId == runId && s.state == state
  }

  /** getRepairSegmentForRunWithState: the rows of run `runId` in state `state`. */
  function GetRepairSegmentForRunWithState(repairSegment: map<int, RepairSegment>, runId: int, state: int): (r: map<int, RepairSegment>)
    ensures forall id :: id in r <==> id in repairSegment && InRunWithState(repairSegment[id], runId, state)
    ensures forall id :: id in r ==> r[id] == repairSegment[id]
  {
    map id | id in repairSegment && InRunWithState(repairSegment[id], runId, state) :: repairSegment[id]
  }

  /** `count(*)` over the rows of `ids` that belong to run `runId` and are in state `state`. */
  function CountInRunWithState(repairSegment: map<int, RepairSegment>, ids: set<int>, runId: int, state: int): nat
    requires ids <= repairSegment.Keys
    decreases ids
  {
    if ids == {} then 0
    else
      var i := LeastId(ids);
      (if InRunWithState(repairSegment[i], runId, state) then 1 else 0)
        + CountInRunWithState(repairSegment, ids - {i}, runId, state)
  }

  /** Counting row by row gives the number of selected rows. */
  lemma {:induction false} CountIsNumberOfSelected(repairSegment: map<int, RepairSegment>, ids: set<int>, runId: int, state: int)
    requires ids <= repairSegment.Keys
    ensures CountInRunWithState(repairSegment, ids, runId, state)
         == |set j | j in ids && InRunWithState(repairSegment[j], runId, state)|
  {
    var selected := set j | j in ids && InRunWithState(repairSegment[j], runId, state);
    if ids == {} {
      assert selected == {};
    } else {
      var i := LeastId(ids);
      var rest := set j | j in ids - {i} && InRunWithState(repairSegment[j], runId, state);
      CountIsNumberOfSelected(repairSegment, ids - {i}, runId, state);
      if InRunWithState(repairSegment[i], runId, state) {
        assert selected == rest + {i};
        assert i !in rest;
      } else {
        assert selected == rest;
      }
    }
  }

  /** getSegmentAmountForRepairRun: as many as getRepairSegmentForRunWithState returns for the same run and state. */
  function GetSegmentAmountForRepairRun(repairSegment: map<int, RepairSegment>, runId: int, state: int): (n: nat)
    ensures n == |GetRepairSegmentForRunWithState(repairSegment, runId, state)|
  {
    var selected := GetRepairSegmentForRunWithState(repairSegment, runId, state);
    CountIsNumberOfSelected(repairSegment, repairSegment.Keys, runId, state);
    assert selected.Keys == set j | j in repairSegment.Keys && InRunWithState(repairSegment[j], runId, state);
    CountInRunWithState(repairSegment, repairSegment.Keys, runId, state)
  }

  /** `run_id = :runId AND state = 0`: a segment of the run that nobody has started. */
  predicate IsFree(s: RepairSegment, runId: int)
  {
    s.runId == runId && s.state == FreeState
  }

  /** `start_token >= :startToken AND end_token < :endToken` (the upper bound is strict). */
  predicate WithinRange(s: RepairSegment, startToken: Token, endToken: Token)
  {
    s.startToken >= startToken && s.endToken < endToken
  }

  /** `ORDER BY fail_count ASC, start_token ASC`: `a` may come before `b`. */
  predicate OrderedBefore(a: RepairSegment, b: RepairSegment)
  {
    a.failCount < b.failCount || (a.failCount == b.failCount && a.startToken <= b.startToken)
  }

  /** `ORDER BY fail_count ASC, start_token ASC LIMIT 1` over the rows `ids`. */
  function FirstInOrder(repairSegment: map<int, RepairSegment>, ids: set<int>): (r: Option<int>)
    requires ids <= repairSegment.Keys
    ensures r.None? <==> ids == {}
    ensures r.Some? ==> r.value in ids
    ensures r.Some? ==> forall j :: j in ids ==> OrderedBefore(repairSegment[r.value], repairSegment[j])
    decreases ids
  {
    if ids == {} then None
    else
      var i := LeastId(ids);
      var first := FirstInOrder(repairSegment, ids - {i});
      if first.None? || OrderedBefore(repairSegment[i], repairSegment[first.value]) then Some(i) else first
  }

  /**
   * getNextFreeRepairSegment: a free segment of the run that comes first by
   * (fail_count, start_token); None exactly when the run has no free segment.
   */
  function GetNextFreeRepairSegment(repairSegment: map<int, RepairSegment>, runId: int): (r: Option<Row<RepairSegment>>)
    ensures r.Some? ==> r.value.id in repairSegment && repairSegment[r.value.id] == r.value.value
    ensures r.Some? ==> IsFree(r.value.value, runId)
    ensures r.Some? ==> forall id :: id in repairSegment && IsFree(repairSegment[id], runId)
                                     ==> OrderedBefore(r.value.value, repairSegment[id])
    ensures r.None? <==> forall id :: id in repairSegment ==> !IsFree(repairSegment[id], runId)
  {
    var candidates := set id | id in repairSegment && IsFree(repairSegment[id], runId);
    match FirstInOrder(repairSegment, candidates)
    case None =>
      assert forall id :: id in repairSegment && IsFree(repairSegment[id], runId) ==> id in candidates;
      None
    case Some(id) => Some(Row(id, repairSegment[id]))
  }

  /**
   * getNextFreeRepairSegmentOnRange: the same choice, among the free segments
   * of the run whose start_token >= startToken and end_token < endToken.
   */
  function GetNextFreeRepairSegmentOnRange(repairSegment: map<int, RepairSegment>, runId: int,
                                           startToken: Token, endToken: Token): (r: Option<Row<RepairSegment>>)
    ensures r.Some? ==> r.value.id in repairSegment && repairSegment[r.value.id] == r.value.value
    ensures r.Some? ==> IsFree(r.value.value, runId) && WithinRange(r.value.value, startToken, endToken)
    ensures r.Some? ==> forall id :: id in repairSegment && IsFree(repairSegment[id], runId)
                                       && WithinRange(repairSegment[id], startToken, endToken)
                                     ==> OrderedBefore(r.value.value, repairSegment[id])
    ensures r.None? <==> forall id :: id in repairSegment ==>
                           !(IsFree(repairSegment[id], runId) && WithinRange(repairSegment[id], startToken, endToken))
  {
    var candidates := set id | id in repairSegment && IsFree(repairSegment[id], runId)
                                 && WithinRange(repairSegment[id], startToken, endToken);
    match FirstInOrder(repairSegment, candidates)
    case None =>
      assert forall id :: (id in repairSegment && IsFree(repairSegment[id], runId)
                           && WithinRange(repairSegment[id], startToken, endToken)) ==> id in candidates;
      None
    case Some(id) => Some(Row(id, repairSegment[id]))
  }

  /**
   * The range only narrows the choice: whenever the ranged query finds a
   * segment, the unranged one finds one too, and it is not later in the order.
   */
  lemma OnRangeNeverAheadOfUnranged(repairSegment: map<int, RepairSegment>, runId: int, startToken: Token, endToken: Token)
    ensures var ranged := GetNextFreeRepairSegmentOnRange(repairSegment, runId, startToken, endToken);
            var unranged := GetNextFreeRepairSegment(repairSegment, runId);
            ranged.Some? ==> unranged.Some? && OrderedBefore(unranged.value.value, ranged.value.value)
  {
  }

  /**
   * When the segment the unranged query picks lies inside the range, the
   * ranged query picks a segment with the same fail_count and start_token.
   */
  lemma OnRangeAgreesInsideRange(repairSegment: map<int, RepairSegment>, runId: int, startToken: Token, endToken: Token)
    ensures var ranged := GetNextFreeRepairSegmentOnRange(repairSegment, runId, startToken, endToken);
            var unranged := GetNextFreeRepairSegment(repairSegment, runId);
            unranged.Some? && WithinRange(unranged.value.value, startToken, endToken) ==>
              && ranged.Some?
              && ranged.value.value.failCount == unranged.value.value.failCount
              && ranged.value.value.startToken == unranged.value.value.startToken
  {
  }

  /**
   * Three free segments of one run with fail counts 2, 0 and 1: whatever their
   * start tokens, the one never tried before (fail count 0) is picked.
   */
  lemma LeastTriedSegmentComesFirst(runId: int, s1: RepairSegment, s2: RepairSegment, s3: RepairSegment)
    requires IsFree(s1, runId) && IsFree(s2, runId) && IsFree(s3, runId)
    requires s1.failCount == 2 && s2.failCount == 0 && s3.failCount == 1
    ensures GetNextFreeRepairSegment(map[1 := s1, 2 := s2, 3 := s3], runId) == Some(Row(2, s2))
  {
    var t := map[1 := s1, 2 := s2, 3 := s3];
    var r := GetNextFreeRepairSegment(t, runId);
    assert 2 in t && IsFree(t[2], runId);
    assert r.Some?;
    assert r.value.id in {1, 2, 3};
  }

  // ----- repair_schedules (the table the schedule reads name) -----

  /** getRepairSchedule: the row with id `id` of the table it reads, `repair_schedules`. */
  function GetRepairSchedule(repairSchedules: map<int, RepairSchedule>, id: int): (r: Option<RepairSchedule>)
    ensures r.Some? <==> id in repairSchedules
    ensures r.Some? ==> r.value == repairSchedules[id]
  {
    if id in repairSchedules then Some(repairSchedules[id]) else None
  }

  /** getAllRepairSchedules: every row of `repair_schedules`. */
  function GetAllRepairSchedules(repairSchedules: map<int, RepairSchedule>): (r: map<int, RepairSchedule>)
    ensures r.Keys == repairSchedules.Keys
    ensures forall id :: id in r ==> r[id] == repairSchedules[id]
  {
    repairSchedules
  }
}
