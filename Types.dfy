/**
 * Rows of the tables of the repair storage (cluster, repair_unit, repair_run,
 * repair_segment, repair_schedule) and the value types of their columns.
 * A row is stored without its id: each table is a map from id to row, except
 * `cluster`, whose key is the cluster name.
 */
module Types {

  datatype Option<+T> = None | Some(value: T)

  /** A row together with its id, as a single-row query hands it back. */
  datatype Row<+T> = Row(id: int, value: T)

  /** What a statement raises instead of returning a value. */
  datatype StorageError =
    | UniqueViolation  // an INSERT whose key is already present

  datatype Result<+T> = Ok(value: T) | Err(error: StorageError)

  /** A point in time; only stored and read back. */
  type Timestamp = int

  /** A token of the ring (a BigInteger, so unbounded). */
  type Token = int

  /** A Java double carried as its 64 IEEE-754 bits; nothing computes with it. */
  datatype Intensity = Intensity(bits: bv64)

  datatype RepairParallelism = Sequential | Parallel | DatacenterAware

  /** States a run row can hold; the storage only stores and compares them. */
  datatype RunState = NotStarted | Running | Paused | Done | Error | Aborted

  datatype ScheduleState = Active | Paused

  /** A row of `cluster`: name, partitioner, seed_hosts. */
  datatype Cluster = Cluster(name: string, partitioner: string, seedHosts: set<string>)

  /**
   * A row of `repair_unit`. `column_families` is an SQL array: it has an order
   * and may repeat a name, so it is a sequence here.
   */
  datatype RepairUnit = RepairUnit(clusterName: string, keyspaceName: string, columnFamilies: seq<string>)

  /** A row of `repair_run`, columns in the order of the INSERT statement. */
  datatype RepairRun = RepairRun(
    clusterName: string,
    repairUnitId: int,
    cause: string,
    owner: string,
    runState: RunState,
    creationTime: Timestamp,
    startTime: Option<Timestamp>,
    endTime: Option<Timestamp>,
    pauseTime: Option<Timestamp>,
    intensity: Intensity,
    lastEvent: string,
    segmentCount: int,
    repairParallelism: RepairParallelism)

  /**
   * A row of `repair_segment`. The state column holds the integer code of the
   * segment state; the free-segment queries look for code 0.
   */
  datatype RepairSegment = RepairSegment(
    repairUnitId: int,
    runId: int,
    startToken: Token,
    endToken: Token,
    state: int,
    coordinatorHost: Option<string>,
    startTime: Option<Timestamp>,
    endTime: Option<Timestamp>,
    failCount: int)

  /** A row of `repair_schedule`; `run_history` is an SQL array of run ids. */
  datatype RepairSchedule = RepairSchedule(
    repairUnitId: int,
    state: ScheduleState,
    daysBetween: int,
    nextActivation: Timestamp,
    runHistory: seq<int>,
    segmentCount: int,
    repairParallelism: RepairParallelism,
    intensity: Intensity,
    creationTime: Timestamp,
    owner: string,
    pauseTime: Option<Timestamp>)
}
