/**
 * What the UPDATE statements write into the row they find by id: the columns
 * of the SET list take the given values, every other column keeps the value
 * stored in the row.
 */
module Updates {
  import opened Types
  import opened Queries

  /**
   * updateRepairRun: every column but cluster_name, repair_unit_id and
   * creation_time (absent from the SET list) takes the given value.
   */
  function RunAfterUpdate(stored: RepairRun, given: RepairRun): (r: RepairRun)
    ensures r.clusterName == stored.clusterName
    ensures r.repairUnitId == stored.repairUnitId
    ensures r.creationTime == stored.creationTime
    ensures r.(clusterName := given.clusterName, repairUnitId := given.repairUnitId, creationTime := given.creationTime) == given
  {
    given.(clusterName := stored.clusterName, repairUnitId := stored.repairUnitId, creationTime := stored.creationTime)
  }

  /** The values given for cluster_name, repair_unit_id and creation_time never reach the row. */
  lemma RunUpdateIgnoresUnsetColumns(stored: RepairRun, given1: RepairRun, given2: RepairRun)
    requires given1.(clusterName := "", repairUnitId := 0, creationTime := 0)
          == given2.(clusterName := "", repairUnitId := 0, creationTime := 0)
    ensures RunAfterUpdate(stored, given1) == RunAfterUpdate(stored, given2)
  {
  }

  /**
   * Updating a run never moves it to another cluster or unit: the rows
   * getRepairRunIdsForCluster and getRepairRunsForUnit select stay the same.
   */
  lemma RunUpdateKeepsClusterAndUnitSelections(repairRun: map<int, RepairRun>, id: int, given: RepairRun,
                                               clusterName: string, unitId: int)
    requires id in repairRun
    ensures var updated := repairRun[id := RunAfterUpdate(repairRun[id], given)];
            && GetRepairRunIdsForCluster(updated, clusterName) == GetRepairRunIdsForCluster(repairRun, clusterName)
            && GetRepairRunsForUnit(updated, unitId).Keys == GetRepairRunsForUnit(repairRun, unitId).Keys
  {
  }

  /**
   * state is in the SET list of updateRepairRun, so after an update the run is
   * selected by getRepairRunsWithState exactly for the state it was given.
   */
  lemma RunUpdateMovesToGivenState(repairRun: map<int, RepairRun>, id: int, given: RepairRun, state: RunState)
    requires id in repairRun
    ensures id in GetRepairRunsWithState(repairRun[id := RunAfterUpdate(repairRun[id], given)], state)
            <==> given.runState == state
  {
  }

  /** updateRepairSchedule: every column but intensity (absent from the SET list) takes the given value. */
  function ScheduleAfterUpdate(stored: RepairSchedule, given: RepairSchedule): (r: RepairSchedule)
    ensures r.intensity == stored.intensity
    ensures r.(intensity := given.intensity) == given
  {
    given.(intensity := stored.intensity)
  }

  /** A row after a sequence of updateRepairSchedule calls, each with the next given row. */
  function ScheduleAfterUpdates(stored: RepairSchedule, updates: seq<RepairSchedule>): RepairSchedule
    decreases |updates|
  {
    if updates == [] then stored
    else ScheduleAfterUpdates(ScheduleAfterUpdate(stored, updates[0]), updates[1..])
  }

  /**
   * No sequence of updates changes a schedule's intensity: afterwards the row
   * is the last given row with the intensity it was inserted with.
   */
  lemma {:induction false} ScheduleIntensityOutlivesUpdates(stored: RepairSchedule, updates: seq<RepairSchedule>)
    ensures ScheduleAfterUpdates(stored, updates).intensity == stored.intensity
    ensures updates != [] ==>
              ScheduleAfterUpdates(stored, updates) == updates[|updates| - 1].(intensity := stored.intensity)
    decreases |updates|
  {
    if updates != [] {
      var next := ScheduleAfterUpdate(stored, updates[0]);
      ScheduleIntensityOutlivesUpdates(next, updates[1..]);
      if updates[1..] != [] {
        assert updates[1..][|updates[1..]| - 1] == updates[|updates| - 1];
      }
    }
  }

  /**
   * updateRepairSegment writes every non-id column, so the number of segments
   * of a run in a state changes only by the row it rewrites: it loses that row
   * if the old row was counted and gains it if the new one is.
   */
  lemma SegmentUpdateShiftsCount(repairSegment: map<int, RepairSegment>, id: int, given: RepairSegment,
                                 runId: int, state: int)
    requires id in repairSegment
    ensures GetSegmentAmountForRepairRun(repairSegment[id := given], runId, state)
         == GetSegmentAmountForRepairRun(repairSegment, runId, state)
            - (if InRunWithState(repairSegment[id], runId, state) then 1 else 0)
            + (if InRunWithState(given, runId, state) then 1 else 0)
  {
    var updated := repairSegment[id := given];
    var before := GetRepairSegmentForRunWithState(repairSegment, runId, state).Keys;
    var after := GetRepairSegmentForRunWithState(updated, runId, state).Keys;
    var others := before - {id};
    assert after == if InRunWithState(given, runId, state) then others + {id} else others;
    assert before == if InRunWithState(repairSegment[id], runId, state) then others + {id} else others;
  }
}
