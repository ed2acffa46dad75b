# Repair storage of the repair orchestrator, in Dafny

This project models the PostgreSQL storage contract of the repair orchestrator
(`IStoragePostgreSQL`). In that interface, each SQL statement fixes exactly
which rows an operation reads or writes. Together the statements describe a
database with these tables:

- `cluster`, keyed by cluster name;
- `repair_unit`, `repair_run`, `repair_segment` and `repair_schedule`, each
  keyed by a generated id.

The model has five files:

- `Types.dfy` holds one datatype per row kind. Tokens are unbounded integers,
  because the source uses `BigInteger`. Intensity, a Java double, is carried as
  its 64 bits and never computed with. Timestamps are stored and read back.
- `Sql.dfy` holds the SQL semantics the queries need. These are PostgreSQL
  array containment (`@>`, `<@`) and a fixed choice among rows that a statement
  returns in no particular order.
- `Queries.dfy` holds every SELECT. Each statement reads exactly one table, so
  each is a function of that table's map. A filter query returns the selected
  part of the table (id to row); `getClusters` returns the set of rows and
  `getRepairRunIdsForCluster` the set of ids. A lookup by key returns the
  stored row or `None` (its id is the argument). A query that picks one row
  among several returns it with its id, or `None`.
- `Updates.dfy` holds the row written by the two UPDATE statements whose SET
  list leaves columns out (`updateRepairRun` and `updateRepairSchedule`):
  columns in the SET list take the given value, every other column keeps its
  stored value. The cluster and segment updates are written inline in their
  methods in `Storage.dfy`.
- `Storage.dfy` holds the class `PostgresStorage`. It has one map field per
  table and one id sequence per table with generated keys. The INSERT and
  UPDATE statements are its methods, and each method states the new contents
  of the one table it writes.

The main proved properties:

- **Work selection.** `getNextFreeRepairSegment` returns a state-0 segment of
  the run that comes first by (fail_count, start_token). It returns nothing
  exactly when the run has no such segment. The ranged variant adds
  `start_token >= :startToken` and the strict `end_token < :endToken`. It never
  picks a segment that comes before the unranged pick.
- **Unit lookup.** A unit matches exactly when its table set equals the
  argument's. The order of the names and any repeats do not matter.
- **Update frames.** The columns missing from each SET list never change.
  `updateRepairSchedule` never changes intensity, even across any number of
  updates. `updateRepairRun` never changes the cluster or unit a run belongs to.
- **Segment count.** `getSegmentAmountForRepairRun` equals the size of
  `getRepairSegmentForRunWithState`.
- **Run inserts.** An inserted run gets an id that was not used before, and the
  run can be read back under that id.

Two guarantees that a storage layer shared by several orchestrator instances
would want are not given by these statements, and the model does not add them:

- No statement claims a segment atomically or updates conditionally:
  `updateRepairSegment` is an unconditional update by id, so two callers that
  both read the same free segment can both write it.
- No statement makes the batch insert of segments all-or-nothing: the model
  inserts the segments one after another.

## Model

| member | source | states |
|---|---|---|
| `Queries.GetCluster` | src/main/java/com/spotify/reaper/storage/postgresql/IStoragePostgreSQL.java:46-47 | returns the row with the given name; returns None exactly when no row has that name |
| `Queries.GetClusters` | src/main/java/com/spotify/reaper/storage/postgresql/IStoragePostgreSQL.java:45 | returns every row of `cluster` and nothing else |
| `Storage.PostgresStorage.InsertCluster` | src/main/java/com/spotify/reaper/storage/postgresql/IStoragePostgreSQL.java:48-50 | adds the row under its name and reports one row, so getClusters then returns the old rows plus this one; if the name is already present, raises a unique violation and changes nothing |
| `Storage.PostgresStorage.UpdateCluster` | src/main/java/com/spotify/reaper/storage/postgresql/IStoragePostgreSQL.java:51-52 | rewrites partitioner and seed_hosts of the row with that name and reports 1 row; with no such row, nothing changes and it reports 0 |
| `Queries.GetRepairRun` | src/main/java/com/spotify/reaper/storage/postgresql/IStoragePostgreSQL.java:71-72 | returns the run with the given id, or None when the id is absent |
| `Queries.GetRepairRunsForCluster` | src/main/java/com/spotify/reaper/storage/postgresql/IStoragePostgreSQL.java:73-74 | selects exactly the runs whose cluster_name is the argument, unchanged |
| `Queries.GetRepairRunsWithState` | src/main/java/com/spotify/reaper/storage/postgresql/IStoragePostgreSQL.java:75-76 | selects exactly the runs in the given state, unchanged |
| `Updates.RunUpdateMovesToGivenState` | src/main/java/com/spotify/reaper/storage/postgresql/IStoragePostgreSQL.java:66-70 | state is in the SET list, so after an update getRepairRunsWithState(s) selects the run exactly when the given row's state is s |
| `Queries.GetRepairRunsForUnit` | src/main/java/com/spotify/reaper/storage/postgresql/IStoragePostgreSQL.java:77-78 | selects exactly the runs whose repair_unit_id is the argument, unchanged |
| `Queries.GetRepairRunIdsForCluster` | src/main/java/com/spotify/reaper/storage/postgresql/IStoragePostgreSQL.java:147-148 | returns exactly the ids of the rows getRepairRunsForCluster returns |
| `Storage.PostgresStorage.InsertRepairRun` | src/main/java/com/spotify/reaper/storage/postgresql/IStoragePostgreSQL.java:61-65 | returns an id not used before; getRepairRun on it gives the inserted row; the run joins the per-cluster query and the per-cluster id query under that id |
| `Updates.RunAfterUpdate` | src/main/java/com/spotify/reaper/storage/postgresql/IStoragePostgreSQL.java:66-70 | after an update, cluster_name, repair_unit_id and creation_time keep their stored values; all other columns take the given ones |
| `Updates.RunUpdateIgnoresUnsetColumns` | src/main/java/com/spotify/reaper/storage/postgresql/IStoragePostgreSQL.java:66-70 | two updates whose given rows differ only in cluster_name, repair_unit_id or creation_time produce the same row |
| `Updates.RunUpdateKeepsClusterAndUnitSelections` | src/main/java/com/spotify/reaper/storage/postgresql/IStoragePostgreSQL.java:66-78 | updating a run changes neither the ids getRepairRunIdsForCluster returns nor the ids getRepairRunsForUnit returns, for any cluster or unit |
| `Storage.PostgresStorage.UpdateRepairRun` | src/main/java/com/spotify/reaper/storage/postgresql/IStoragePostgreSQL.java:66-70 | rewrites only the row with that id, as RunAfterUpdate says; adds and removes no row; reports 1 row, or 0 when the id is absent |
| `Queries.GetRepairUnit` | src/main/java/com/spotify/reaper/storage/postgresql/IStoragePostgreSQL.java:88-89 | returns the unit with the given id, or None when the id is absent |
| `Sql.ContainsBothWaysIsSetEquality` | src/main/java/com/spotify/reaper/storage/postgresql/IStoragePostgreSQL.java:93 | two arrays each contain the other exactly when they have the same set of elements |
| `Queries.UnitMatchesIffSameTables` | src/main/java/com/spotify/reaper/storage/postgresql/IStoragePostgreSQL.java:90-93 | a unit matches the lookup exactly when cluster and keyspace are equal and its column families form the same set as the argument |
| `Queries.GetRepairUnitByClusterAndTables` | src/main/java/com/spotify/reaper/storage/postgresql/IStoragePostgreSQL.java:90-93 | returns a stored unit that matches, or None exactly when no unit matches |
| `Queries.UnitLookupIgnoresOrder` | src/main/java/com/spotify/reaper/storage/postgresql/IStoragePostgreSQL.java:90-93 | table lists with the same names, in any order and with any repeats, find the same unit |
| `Storage.PostgresStorage.InsertRepairUnit` | src/main/java/com/spotify/reaper/storage/postgresql/IStoragePostgreSQL.java:85-87 | returns an id not used before, and getRepairUnit on it gives the inserted row; the unit lookup with the unit's own cluster, keyspace and tables then always finds a unit, and if no unit matched before, that lookup returns exactly this row |
| `Storage.PostgresStorage.InsertRepairSegments` | src/main/java/com/spotify/reaper/storage/postgresql/IStoragePostgreSQL.java:101-104 | inserts every segment, in order, under new ids disjoint from the existing ones, each of which getRepairSegment then reads back as the segment inserted under it; keeps every existing row |
| `Storage.PostgresStorage.UpdateRepairSegment` | src/main/java/com/spotify/reaper/storage/postgresql/IStoragePostgreSQL.java:105-109 | replaces every non-id column of the row with that id by the given values; leaves all other rows unchanged; adds and removes no row; getRepairSegment on that id then returns the given row; reports 1 row, or 0 |
| `Updates.SegmentUpdateShiftsCount` | src/main/java/com/spotify/reaper/storage/postgresql/IStoragePostgreSQL.java:105-109 | after a segment update, the count for a (run, state) drops by one if the old row was counted and rises by one if the new row is counted |
| `Queries.GetRepairSegment` | src/main/java/com/spotify/reaper/storage/postgresql/IStoragePostgreSQL.java:110-111 | returns the segment with the given id, or None when the id is absent |
| `Queries.GetRepairSegmentForRunWithState` | src/main/java/com/spotify/reaper/storage/postgresql/IStoragePostgreSQL.java:112-114 | selects exactly the segments of the run in the given state, unchanged |
| `Queries.FirstInOrder` | src/main/java/com/spotify/reaper/storage/postgresql/IStoragePostgreSQL.java:117 | `ORDER BY fail_count, start_token LIMIT 1`: returns one of the candidate rows that comes no later than any other candidate; returns nothing exactly when there are no candidates |
| `Queries.GetNextFreeRepairSegment` | src/main/java/com/spotify/reaper/storage/postgresql/IStoragePostgreSQL.java:115-117 | returns a stored state-0 segment of the run whose (fail_count, start_token) is lexicographically least among them; returns None exactly when the run has no state-0 segment |
| `Queries.GetNextFreeRepairSegmentOnRange` | src/main/java/com/spotify/reaper/storage/postgresql/IStoragePostgreSQL.java:118-121 | same as the unranged query, among segments with start_token >= startToken and end_token < endToken (strict) |
| `Queries.OnRangeNeverAheadOfUnranged` | src/main/java/com/spotify/reaper/storage/postgresql/IStoragePostgreSQL.java:115-121 | when the ranged query finds a segment, the unranged query finds one too, and the unranged pick does not come after it |
| `Queries.OnRangeAgreesInsideRange` | src/main/java/com/spotify/reaper/storage/postgresql/IStoragePostgreSQL.java:115-121 | when the unranged pick lies inside the range, the ranged query picks a segment with the same fail_count and start_token |
| `Queries.LeastTriedSegmentComesFirst` | src/main/java/com/spotify/reaper/storage/postgresql/IStoragePostgreSQL.java:115-117 | among free segments with fail counts 2, 0 and 1, the one with fail count 0 is picked, whatever their start tokens |
| `Queries.CountIsNumberOfSelected` | src/main/java/com/spotify/reaper/storage/postgresql/IStoragePostgreSQL.java:149-150 | counting row by row gives the number of rows with that run_id and state |
| `Queries.GetSegmentAmountForRepairRun` | src/main/java/com/spotify/reaper/storage/postgresql/IStoragePostgreSQL.java:149-150 | the count equals the number of rows getRepairSegmentForRunWithState returns for the same run and state |
| `Queries.GetRepairSchedule` | src/main/java/com/spotify/reaper/storage/postgresql/IStoragePostgreSQL.java:140-141 | returns the row with the given id of the table it reads, `repair_schedules`, or None when the id is absent |
| `Queries.GetAllRepairSchedules` | src/main/java/com/spotify/reaper/storage/postgresql/IStoragePostgreSQL.java:142-143 | returns every row of `repair_schedules` |
| `Storage.PostgresStorage.InsertRepairSchedule` | src/main/java/com/spotify/reaper/storage/postgresql/IStoragePostgreSQL.java:130-133 | stores the row in `repair_schedule` under an id not used before; leaves `repair_schedules`, and so getAllRepairSchedules, unchanged |
| `Updates.ScheduleAfterUpdate` | src/main/java/com/spotify/reaper/storage/postgresql/IStoragePostgreSQL.java:134-139 | after an update, intensity keeps its stored value; all other columns take the given ones |
| `Updates.ScheduleIntensityOutlivesUpdates` | src/main/java/com/spotify/reaper/storage/postgresql/IStoragePostgreSQL.java:125-139 | after any sequence of updates, a schedule keeps the intensity it was inserted with, and otherwise equals the last row given |
| `Storage.PostgresStorage.UpdateRepairSchedule` | src/main/java/com/spotify/reaper/storage/postgresql/IStoragePostgreSQL.java:134-139 | rewrites only the row with that id, as ScheduleAfterUpdate says; no schedule's intensity changes; adds and removes no row; getAllRepairSchedules is unchanged; reports 1 row, or 0 |
| `Storage.ScheduleRoundTripAsWritten` | src/main/java/com/spotify/reaper/storage/postgresql/IStoragePostgreSQL.java:130-141 | as the statements are written, a schedule inserted into an empty database is not found by getRepairSchedule under its new id |
| `Storage.ScheduleRoundTripIntended` | src/main/java/com/spotify/reaper/storage/postgresql/IStoragePostgreSQL.java:130-141 | in any consistent database, reading `repair_schedule`, the table the INSERT writes, under the new id returns the inserted row, while what `repair_schedules` holds under that id is unchanged |

## Left out

- `getVersion` (`SELECT version()`) is left out. It asks the database server for its version and touches no table.
- The JDBI machinery is left out: the annotations, how beans are bound to parameters, and the row mappers. The mappers are not part of this model.
- The update methods take the row's id as a separate parameter. The source binds `:id` from the bean.
- `@BatchChunkSize(500)` on `insertRepairSegments` is left out. The batch is modelled as inserting each segment in order. Nothing is claimed about atomicity.
- Transactions, concurrency and isolation are left out. This interface has no compare-and-set or atomic claim statement.
- The table schemas are not part of this model. The model assumes that `cluster.name` is the primary key, so a second insert under the same name is a unique violation.
- NULL semantics, column types and constraints other than the keys are left out.
- Segment states are stored as their integer codes. The free-segment queries select code 0. The mapping from the Java enum to these codes is not part of this model.
- Run and schedule states are stored and compared only. Their value lists are the states the orchestrator uses for runs (not started, running, paused, done, error, aborted) and schedules (active, paused); the Java enums are not part of this model.
- Storage.PostgresStorage.InsertRepairSegments: generated ids come from a counter per table that starts at 1 and grows by one per inserted row, so a batch gets consecutive ids. That is a modelling choice: a PostgreSQL sequence promises distinct ids, not consecutive ones. Runs, units and schedules get their ids from their own counters of the same kind.
- Ids and counts are unbounded integers. Overflow of Java `long` and `int` is not modelled.
- Queries.GetNextFreeRepairSegment: among rows tied on (fail_count, start_token), the model returns the one with the least id. The statement leaves that choice open, so no contract states the tie-break.
- Queries.GetNextFreeRepairSegmentOnRange: ties are broken the same way, and no contract states the tie-break.
- Queries.GetRepairUnitByClusterAndTables: among several matching units, the model returns the one with the least id. The statement leaves that choice open.
- Queries.GetRepairSchedule: the model treats `repair_schedules` as a table that no statement here writes. If that table does not exist, the real query fails instead of returning no row.
- The HTTP resource for schedules is not part of this model. It is request plumbing: validation it calls but does not contain, the wall clock, parsing doubles, and building URIs.
- The snapshot manager test is not part of this model. It exercises mocked remote node connections and a thread pool.

## Findings

| source | as written | input that shows it | evidently intended | confidence | as-written member | corrected member |
|---|---|---|---|---|---|---|
| src/main/java/com/spotify/reaper/storage/postgresql/IStoragePostgreSQL.java:140-143 | `getRepairSchedule` and `getAllRepairSchedules` read table `repair_schedules`. `insertRepairSchedule` and `updateRepairSchedule` (:130-139) write table `repair_schedule`. | In an empty database, insert any schedule, then call getRepairSchedule with the returned id. It finds no row. | The reads name `repair_schedule`, so a stored schedule can be read back. | medium, not executed: the schema is not part of this model, and if `repair_schedules` does not exist the reads fail instead of returning nothing | `Storage.ScheduleRoundTripAsWritten` | `Storage.ScheduleRoundTripIntended` |
