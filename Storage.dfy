/**
 * The repair storage as a database: one map per table, keyed by the generated
 * id (by name for `cluster`), and one id sequence per table with generated
 * keys. The INSERT and UPDATE statements are the methods of the class; the
 * SELECT statements are the functions of module Queries, applied to the field
 * of the table they read.
 */
module Storage {
  import opened Types
  import opened Queries
  import opened Updates

  /** Rows numbered consecutively from `base`, in the order a batch inserts them. */
  function Numbered(base: int, rows: seq<RepairSegment>): (m: map<int, RepairSegment>)
    ensures forall i :: i in m <==> base <= i < base + |rows|
    ensures forall k :: 0 <= k < |rows| ==> m[base + k] == rows[k]
    decreases |rows|
  {
    if rows == [] then map[]
    else Numbered(base, rows[..|rows| - 1])[base + |rows| - 1 := rows[|rows| - 1]]
  }

  class PostgresStorage {
    var cluster: map<string, Cluster>
    var repairUnit: map<int, RepairUnit>
    var repairRun: map<int, RepairRun>
    var repairSegment: map<int, RepairSegment>
    var repairSchedule: map<int, RepairSchedule>
    /** `repair_schedules`, the table getRepairSchedule and getAllRepairSchedules read; no statement here writes it. */
    var repairSchedules: map<int, RepairSchedule>

    // The next value of each table's id sequence.
    var nextRepairUnitId: int
    var nextRepairRunId: int
    var nextRepairSegmentId: int
    var nextRepairScheduleId: int

    /** Every cluster row is stored under its name, and every id a sequence handed out lies below its next value. */
    ghost predicate Valid()
      reads this
    {
      && (forall name :: name in cluster ==> cluster[name].name == name)
      && (forall id :: id in repairUnit ==> id < nextRepairUnitId)
      && (forall id :: id in repairRun ==> id < nextRepairRunId)
      && (forall id :: id in repairSegment ==> id < nextRepairSegmentId)
      && (forall id :: id in repairSchedule ==> id < nextRepairScheduleId)
    }

    /** An empty database whose sequences start at 1. */
    constructor ()
      ensures Valid()
      ensures cluster == map[] && repairUnit == map[] && repairRun == map[]
      ensures repairSegment == map[] && repairSchedule == map[] && repairSchedules == map[]
    {
      cluster, repairUnit, repairRun := map[], map[], map[];
      repairSegment, repairSchedule, repairSchedules := map[], map[], map[];
      nextRepairUnitId, nextRepairRunId, nextRepairSegmentId, nextRepairScheduleId := 1, 1, 1, 1;
    }

    // ----- cluster -----

    /** insertCluster: one new row, or a unique violation when the name is taken. */
    method InsertCluster(newCluster: Cluster) returns (r: Result<nat>)
      requires Valid()
      modifies this`cluster
      ensures Valid()
      ensures newCluster.name in old(cluster) ==> r == Err(UniqueViolation) && cluster == old(cluster)
      ensures newCluster.name !in old(cluster) ==> r == Ok(1) && cluster == old(cluster)[newCluster.name := newCluster]
      ensures GetCluster(cluster, newCluster.name).Some?
      ensures r.Ok? ==> GetClusters(cluster) == old(GetClusters(cluster)) + {newCluster}
    {
      if newCluster.name in cluster {
        r := Err(UniqueViolation);
      } else {
        ghost var before := cluster;
        cluster := cluster[newCluster.name := newCluster];
        r := Ok(1);
        forall c | c in GetClusters(cluster)
          ensures c in GetClusters(before) + {newCluster}
        {
          var name :| name in cluster && cluster[name] == c;
          if name != newCluster.name { assert before[name] == c; }
        }
        forall c | c in GetClusters(before)
          ensures c in GetClusters(cluster)
        {
          var name :| name in before && before[name] == c;
          assert cluster[name] == c;
        }
      }
    }

    /** updateCluster: rewrites partitioner and seed_hosts of the row with that name; returns the rows changed. */
    method UpdateCluster(newCluster: Cluster) returns (rows: nat)
      requires Valid()
      modifies this`cluster
      ensures Valid()
      ensures rows == if newCluster.name in old(cluster) then 1 else 0
      ensures cluster == if newCluster.name in old(cluster) then old(cluster)[newCluster.name := newCluster] else old(cluster)
    {
      if newCluster.name in cluster {
        var stored := cluster[newCluster.name];
        cluster := cluster[newCluster.name := stored.(partitioner := newCluster.partitioner, seedHosts := newCluster.seedHosts)];
        rows := 1;
      } else {
        rows := 0;
      }
    }

    // ----- repair_run -----

    /** insertRepairRun: stores the row under a newly generated id and returns that id. */
    method InsertRepairRun(newRepairRun: RepairRun) returns (id: int)
      requires Valid()
      modifies this`repairRun, this`nextRepairRunId
      ensures Valid()
      ensures id !in old(repairRun)
      ensures repairRun == old(repairRun)[id := newRepairRun]
      ensures GetRepairRun(repairRun, id) == Some(newRepairRun)
      ensures GetRepairRunsForCluster(repairRun, newRepairRun.clusterName)
           == old(GetRepairRunsForCluster(repairRun, newRepairRun.clusterName))[id := newRepairRun]
      ensures GetRepairRunIdsForCluster(repairRun, newRepairRun.clusterName)
           == old(GetRepairRunIdsForCluster(repairRun, newRepairRun.clusterName)) + {id}
    {
      id := nextRepairRunId;
      repairRun := repairRun[id := newRepairRun];
      nextRepairRunId := nextRepairRunId + 1;
    }

    /**
     * updateRepairRun: rewrites the columns of the SET list of the row with
     * that id, keeping its cluster_name, repair_unit_id and creation_time;
     * returns the rows changed.
     */
    method UpdateRepairRun(id: int, newRepairRun: RepairRun) returns (rows: nat)
      requires Valid()
      modifies this`repairRun
      ensures Valid()
      ensures rows == if id in old(repairRun) then 1 else 0
      ensures repairRun.Keys == old(repairRun).Keys
      ensures repairRun == if id in old(repairRun)
                           then old(repairRun)[id := RunAfterUpdate(old(repairRun)[id], newRepairRun)]
                           else old(repairRun)
    {
      if id in repairRun {
        repairRun := repairRun[id := RunAfterUpdate(repairRun[id], newRepairRun)];
        rows := 1;
      } else {
        rows := 0;
      }
    }

    // ----- repair_unit -----

    /** insertRepairUnit: stores the row under a newly generated id; the unit lookup then finds a unit for its tables. */
    method InsertRepairUnit(newRepairUnit: RepairUnit) returns (id: int)
      requires Valid()
      modifies this`repairUnit, this`nextRepairUnitId
      ensures Valid()
      ensures id !in old(repairUnit)
      ensures repairUnit == old(repairUnit)[id := newRepairUnit]
      ensures GetRepairUnit(repairUnit, id) == Some(newRepairUnit)
      ensures GetRepairUnitByClusterAndTables(repairUnit, newRepairUnit.clusterName,
                                              newRepairUnit.keyspaceName, newRepairUnit.columnFamilies).Some?
      ensures old(GetRepairUnitByClusterAndTables(repairUnit, newRepairUnit.clusterName,
                                                  newRepairUnit.keyspaceName, newRepairUnit.columnFamilies)).None?
              ==> GetRepairUnitByClusterAndTables(repairUnit, newRepairUnit.clusterName,
                                                  newRepairUnit.keyspaceName, newRepairUnit.columnFamilies)
                  == Some(Row(id, newRepairUnit))
    {
      ghost var before := repairUnit;
      id := nextRepairUnitId;
      repairUnit := repairUnit[id := newRepairUnit];
      nextRepairUnitId := nextRepairUnitId + 1;
      var c, k, cfs := newRepairUnit.clusterName, newRepairUnit.keyspaceName, newRepairUnit.columnFamilies;
      assert UnitMatches(repairUnit[id], c, k, cfs);
      if GetRepairUnitByClusterAndTables(before, c, k, cfs).None? {
        assert GetRepairUnitByClusterAndTables(repairUnit, c, k, cfs).Some?;
      }
    }

    // ----- repair_segment -----

    /** insertRepairSegments: inserts the segments one after another, each under the next generated id. */
    method InsertRepairSegments(newRepairSegments: seq<RepairSegment>)
      requires Valid()
      modifies this`repairSegment, this`nextRepairSegmentId
      ensures Valid()
      ensures nextRepairSegmentId == old(nextRepairSegmentId) + |newRepairSegments|
      ensures old(repairSegment).Keys !! Numbered(old(nextRepairSegmentId), newRepairSegments).Keys
      ensures repairSegment == old(repairSegment) + Numbered(old(nextRepairSegmentId), newRepairSegments)
      ensures forall k :: 0 <= k < |newRepairSegments| ==>
                GetRepairSegment(repairSegment, old(nextRepairSegmentId) + k) == Some(newRepairSegments[k])
    {
      var k := 0;
      while k < |newRepairSegments|
        invariant 0 <= k <= |newRepairSegments|
        invariant Valid()
        invariant nextRepairSegmentId == old(nextRepairSegmentId) + k
        invariant repairSegment == old(repairSegment) + Numbered(old(nextRepairSegmentId), newRepairSegments[..k])
      {
        ghost var done := Numbered(old(nextRepairSegmentId), newRepairSegments[..k]);
        assert newRepairSegments[..k + 1][..k] == newRepairSegments[..k];
        assert Numbered(old(nextRepairSegmentId), newRepairSegments[..k + 1])
            == done[nextRepairSegmentId := newRepairSegments[k]];
        repairSegment := repairSegment[nextRepairSegmentId := newRepairSegments[k]];
        nextRepairSegmentId := nextRepairSegmentId + 1;
        k := k + 1;
      }
      assert newRepairSegments[..k] == newRepairSegments;
    }

    /** updateRepairSegment: rewrites every column but the id of the row with that id; returns the rows changed. */
    method UpdateRepairSegment(id: int, newRepairSegment: RepairSegment) returns (rows: nat)
      requires Valid()
      modifies this`repairSegment
      ensures Valid()
      ensures rows == if id in old(repairSegment) then 1 else 0
      ensures repairSegment.Keys == old(repairSegment).Keys
      ensures repairSegment == if id in old(repairSegment)
                               then old(repairSegment)[id := newRepairSegment]
                               else old(repairSegment)
      ensures id in old(repairSegment) ==> GetRepairSegment(repairSegment, id) == Some(newRepairSegment)
    {
      if id in repairSegment {
        repairSegment := repairSegment[id := newRepairSegment];
        rows := 1;
      } else {
        rows := 0;
      }
    }

    // ----- repair_schedule -----

    /** insertRepairSchedule: stores the row in repair_schedule under a newly generated id and returns that id. */
    method InsertRepairSchedule(newRepairSchedule: RepairSchedule) returns (id: int)
      requires Valid()
      modifies this`repairSchedule, this`nextRepairScheduleId
      ensures Valid()
      ensures id !in old(repairSchedule)
      ensures repairSchedule == old(repairSchedule)[id := newRepairSchedule]
      ensures repairSchedules == old(repairSchedules)
      ensures GetAllRepairSchedules(repairSchedules) == old(GetAllRepairSchedules(repairSchedules))
    {
      id := nextRepairScheduleId;
      repairSchedule := repairSchedule[id := newRepairSchedule];
      nextRepairScheduleId := nextRepairScheduleId + 1;
    }

    /**
     * updateRepairSchedule: rewrites the columns of the SET list of the row of
     * repair_schedule with that id, keeping its intensity; returns the rows changed.
     */
    method UpdateRepairSchedule(id: int, newRepairSchedule: RepairSchedule) returns (rows: nat)
      requires Valid()
      modifies this`repairSchedule
      ensures Valid()
      ensures rows == if id in old(repairSchedule) then 1 else 0
      ensures repairSchedule.Keys == old(repairSchedule).Keys
      ensures GetAllRepairSchedules(repairSchedules) == old(GetAllRepairSchedules(repairSchedules))
      ensures forall j :: j in repairSchedule ==> repairSchedule[j].intensity == old(repairSchedule)[j].intensity
      ensures repairSchedule == if id in old(repairSchedule)
                                then old(repairSchedule)[id := ScheduleAfterUpdate(old(repairSchedule)[id], newRepairSchedule)]
                                else old(repairSchedule)
    {
      if id in repairSchedule {
        repairSchedule := repairSchedule[id := ScheduleAfterUpdate(repairSchedule[id], newRepairSchedule)];
        rows := 1;
      } else {
        rows := 0;
      }
    }
  }

  /**
   * As the statements are written, a schedule just inserted cannot be read
   * back: the INSERT writes repair_schedule, getRepairSchedule reads
   * repair_schedules.
   */
  method ScheduleRoundTripAsWritten(schedule: RepairSchedule) returns (id: int, read: Option<RepairSchedule>)
    ensures read == None
  {
    var storage := new PostgresStorage();
    id := storage.InsertRepairSchedule(schedule);
    read := GetRepairSchedule(storage.repairSchedules, id);
  }

  /**
   * In any consistent database, reading repair_schedule, the table the INSERT
   * writes, under the new id returns the inserted row, while what
   * repair_schedules holds under that id does not change.
   */
  method ScheduleRoundTripIntended(storage: PostgresStorage, schedule: RepairSchedule)
    returns (id: int, read: Option<RepairSchedule>)
    requires storage.Valid()
    modifies storage
    ensures storage.Valid()
    ensures read == Some(schedule)
    ensures GetRepairSchedule(storage.repairSchedules, id) == old(GetRepairSchedule(storage.repairSchedules, id))
  {
    id := storage.InsertRepairSchedule(schedule);
    read := GetRepairSchedule(storage.repairSchedule, id);
  }
}
