/**
  The DAG's tasks as operations on the mutable outside world: the local CSV
  file, the Postgres table and the S3 bucket are fields that the tasks update
  in place.  Each method is proved to have exactly the effect its counterpart
  in module Stages describes.
*/
module Dag {
  import opened Wrappers
  import opened Contract
  import opened Stages

  class EtlRuntime {
    var localCsv: Option<Table>
    var tableCreated: bool
    var tableRows: seq<Record>
    var bucket: map<string, Table>

    /** A table that does not exist holds no rows. */
    ghost predicate Valid()
      reads this
    {
      Consistent(Store(tableCreated, tableRows))
    }

    /** The world as the pure stage functions see it. */
    function State(): World
      reads this
    {
      World(localCsv, Store(tableCreated, tableRows), bucket)
    }

    constructor (initial: World)
      requires Consistent(initial.store)
      ensures Valid() && State() == initial
    {
      localCsv := initial.localCsv;
      tableCreated := initial.store.created;
      tableRows := initial.store.rows;
      bucket := initial.bucket;
    }

    /** download_data, given the HTTP status and the decoded response body. */
    method DownloadData(status: int, body: Table) returns (r: Result<(), StageError>)
      requires Valid()
      modifies this
      ensures Valid()
      ensures Step(State(), r) == Download(old(State()), status, body)
      ensures r.Err? ==> unchanged(this)
    {
      if status != SuccessStatus {
        return Err(FetchFailed(status));
      }
      localCsv := Some(body);
      r := Ok(());
    }

    /** load_to_postgres: validate, create the table if absent, bulk-insert. */
    method LoadToPostgres() returns (r: Result<nat, StageError>)
      requires Valid()
      modifies this
      ensures Valid()
      ensures Step(State(), r) == Load(old(State()))
      ensures r.Err? ==> unchanged(this)
      ensures r.Ok? ==> tableCreated && tableRows == old(tableRows) + Validate(localCsv.value).value
    {
      if localCsv.None? {
        return Err(FileNotFound);
      }
      var checked := Validate(localCsv.value);
      if checked.Err? {
        return Err(Rejected(checked.error));
      }
      var batch := checked.value;
      if !tableCreated {
        tableCreated := true;
        tableRows := [];
      }
      tableRows := tableRows + batch;
      r := Ok(|batch|);
    }

    /** upload_to_s3: copy the local file to S3Key, if the file exists. */
    method UploadToS3() returns (r: Result<(), StageError>)
      requires Valid()
      modifies this
      ensures Valid()
      ensures Step(State(), r) == Upload(old(State()))
      ensures r.Err? ==> unchanged(this)
    {
      if localCsv.None? {
        return Err(FileNotFound);
      }
      bucket := bucket[S3Key := localCsv.value];
      r := Ok(());
    }

    /** One scheduled run: download, then load, then upload, stopping at the first failure. */
    method RunDag(status: int, body: Table) returns (report: Report)
      requires Valid()
      modifies this
      ensures Valid()
      ensures RunResult(State(), report) == Run(old(State()), status, body)
    {
      var fetched := DownloadData(status, body);
      if fetched.Err? {
        return Failed(TaskDownload, fetched.error);
      }
      var loaded := LoadToPostgres();
      if loaded.Err? {
        return Failed(TaskLoadPostgres, loaded.error);
      }
      var uploaded := UploadToS3();
      report := match uploaded
        case Err(e) => Failed(TaskUploadS3, e)
        case Ok(_) => Completed(loaded.value);
    }
  }
}
