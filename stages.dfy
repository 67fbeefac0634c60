/**
  What each task of the DAG does to the outside world (dags/nyc_taxi_etl.py),
  stated on an abstract World value: the local CSV file, the Postgres table and
  the S3 bucket.  The HTTP response is an input, already decoded into a table.
*/
module Stages {
  import opened Wrappers
  import opened Contract

  /** download_data succeeds only on this HTTP status. */
  const SuccessStatus: int := 200

  /** Object key the file is archived under, in bucket dataeng-landing-zone-dfa23. */
  const S3Key: string := "yellow_taxi_data/yellow_tripdata_2024-01.csv"

  /** The errors the three tasks raise. */
  datatype StageError =
    | FetchFailed(status: int)              // download_data: status != 200
    | FileNotFound                          // read_csv or upload_to_s3: no local file
    | Rejected(violation: ContractViolation) // load_to_postgres: the data contract failed

  /** The table yellow_taxi_data: whether it exists, and its rows in insertion order. */
  datatype Store = Store(created: bool, rows: seq<Record>)

  /** A table that does not exist holds no rows. */
  predicate Consistent(s: Store) {
    !s.created ==> s.rows == []
  }

  /** The local CSV file, the database table and the bucket's objects by key. */
  datatype World = World(localCsv: Option<Table>, store: Store, bucket: map<string, Table>)

  /** A task's effect and its outcome. */
  datatype Step<+T> = Step(world: World, result: Result<T, StageError>)

  /** download_data: a non-200 status raises before anything is written. */
  function Download(w: World, status: int, body: Table): (s: Step<()>)
    ensures s.result.Err? <==> status != SuccessStatus
    ensures s.result.Err? ==> s.world == w && s.result.error == FetchFailed(status)
    ensures s.result.Ok? ==> s.world.localCsv == Some(body)
    ensures s.world.store == w.store && s.world.bucket == w.bucket
  {
    if status != SuccessStatus then Step(w, Err(FetchFailed(status)))
    else Step(w.(localCsv := Some(body)), Ok(()))
  }

  /** CREATE TABLE IF NOT EXISTS: an existing table is left exactly as it is. */
  function CreateTableIfNotExists(s: Store): (r: Store)
    ensures r.created
    ensures s.created ==> r == s
    ensures Consistent(s) ==> r.rows == s.rows
  {
    if s.created then s else Store(true, [])
  }

  /**
    load_to_postgres: read the file, validate it, and only then create the table
    if needed and append the whole batch in one statement.
  */
  function Load(w: World): (s: Step<nat>)
    ensures s.world.localCsv == w.localCsv && s.world.bucket == w.bucket
    ensures s.result.Err? ==> s.world == w
    ensures w.localCsv.None? ==> s.result == Err(FileNotFound)
    ensures w.localCsv.Some? && Validate(w.localCsv.value).Err? ==>
              s.result == Err(Rejected(Validate(w.localCsv.value).error))
    ensures s.result.Ok? <==> w.localCsv.Some? && Validate(w.localCsv.value).Ok?
    ensures s.result.Ok? ==>
              var batch := Validate(w.localCsv.value).value;
              s.result.value == |batch| && s.world.store.created &&
              (Consistent(w.store) ==> s.world.store.rows == w.store.rows + batch)
    ensures Consistent(w.store) ==> Consistent(s.world.store)
  {
    match w.localCsv
    case None => Step(w, Err(FileNotFound))
    case Some(file) =>
      match Validate(file)
      case Err(v) => Step(w, Err(Rejected(v)))
      case Ok(batch) =>
        var table := CreateTableIfNotExists(w.store);
        Step(w.(store := table.(rows := table.rows + batch)), Ok(|batch|))
  }

  /** upload_to_s3: needs the local file; copies it to S3Key and nothing else. */
  function Upload(w: World): (s: Step<()>)
    ensures w.localCsv.None? ==> s == Step(w, Err(FileNotFound))
    ensures w.localCsv.Some? ==> s.result.Ok?
    ensures w.localCsv.Some? ==> S3Key in s.world.bucket && s.world.bucket[S3Key] == w.localCsv.value
    ensures forall key :: key != S3Key ==>
              (key in s.world.bucket <==> key in w.bucket) &&
              (key in w.bucket ==> s.world.bucket[key] == w.bucket[key])
    ensures s.world.localCsv == w.localCsv && s.world.store == w.store
  {
    match w.localCsv
    case None => Step(w, Err(FileNotFound))
    case Some(file) => Step(w.(bucket := w.bucket[S3Key := file]), Ok(()))
  }

  /** The three tasks, named as in the DAG. */
  datatype Task = TaskDownload | TaskLoadPostgres | TaskUploadS3

  /** What the scheduler records for one run. */
  datatype Report = Completed(inserted: nat) | Failed(task: Task, error: StageError)

  datatype RunResult = RunResult(world: World, report: Report)

  /**
    The DAG chains download, load and upload: each task runs only
    after the previous one succeeded; the first failure ends the run.
  */
  function Run(w: World, status: int, body: Table): (r: RunResult)
    ensures status != SuccessStatus ==> r == RunResult(w, Failed(TaskDownload, FetchFailed(status)))
    ensures r.report.Failed? && r.report.task == TaskLoadPostgres ==>
              status == SuccessStatus && r.world == w.(localCsv := Some(body)) && Validate(body).Err? &&
              r.report.error == Rejected(Validate(body).error)
    ensures r.report.Failed? ==> r.report.task != TaskUploadS3
    ensures r.report.Completed? <==> status == SuccessStatus && Validate(body).Ok?
    ensures r.report.Completed? ==>
              r.world.localCsv == Some(body) &&
              r.report.inserted == |Validate(body).value| &&
              (Consistent(w.store) ==> r.world.store.rows == w.store.rows + Validate(body).value) &&
              S3Key in r.world.bucket && r.world.bucket[S3Key] == body
    ensures r.report.Completed? ==>
              r.world.store.created &&
              forall key :: key != S3Key ==>
                (key in r.world.bucket <==> key in w.bucket) &&
                (key in w.bucket ==> r.world.bucket[key] == w.bucket[key])
    ensures r.report.Failed? ==> r.world.bucket == w.bucket && r.world.store == w.store
  {
    var d := Download(w, status, body);
    match d.result
    case Err(e) => RunResult(d.world, Failed(TaskDownload, e))
    case Ok(_) =>
      var l := Load(d.world);
      match l.result
      case Err(e) => RunResult(l.world, Failed(TaskLoadPostgres, e))
      case Ok(inserted) =>
        var u := Upload(l.world);
        match u.result
        case Err(e) => RunResult(u.world, Failed(TaskUploadS3, e))
        case Ok(_) => RunResult(u.world, Completed(inserted))
  }

  // ---------------------------------------------------------------------------
  // Properties across several calls

  /**
    The table has no key, so loading the same file again appends the same batch
    a second time: load_to_postgres is not idempotent.
  */
  lemma LoadTwiceDuplicates(w: World)
    requires Consistent(w.store)
    requires Load(w).result.Ok?
    ensures var batch := Validate(w.localCsv.value).value;
            var twice := Load(Load(w).world);
            twice.result == Load(w).result &&
            twice.world.store.rows == w.store.rows + batch + batch
    ensures Validate(w.localCsv.value).value != [] ==> Load(Load(w).world).world != Load(w).world
  {
  }

  /** Re-running the whole DAG on the same response inserts every kept row twice. */
  lemma RerunDuplicatesRows(w: World, status: int, body: Table)
    requires Consistent(w.store)
    requires Run(w, status, body).report.Completed?
    ensures var first := Run(w, status, body);
            var second := Run(first.world, status, body);
            second.report == first.report &&
            second.world.store.rows == w.store.rows + Validate(body).value + Validate(body).value &&
            second.world.bucket == first.world.bucket
  {
  }

  /**
    A failed fetch does not clear the previous file: a later load, if started
    by hand, would read the stale data.
  */
  lemma FailedFetchKeepsStaleFile(w: World, status: int, body: Table)
    requires status != SuccessStatus
    ensures Download(w, status, body).world.localCsv == w.localCsv
    ensures Load(Download(w, status, body).world) == Load(w)
  {
  }
}
