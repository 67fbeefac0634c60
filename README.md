# NYC taxi ETL — a Dafny model of the DAG's three tasks

The Airflow DAG `nyc_taxi_etl` runs three tasks in a fixed chain:
`download_data` fetches the January 2024 yellow-taxi Parquet file and writes it
as a local CSV; `load_to_postgres` reads that CSV, enforces a data contract
(19 required columns, rows with an empty required cell dropped, no negative
`passenger_count`) and bulk-inserts the kept rows into table
`yellow_taxi_data`, creating it if absent; `upload_to_s3` copies the CSV to a
fixed key in an S3 bucket.

The model has four modules:

- `Wrappers` (wrappers.dfy): `Option` and `Result`.
- `Contract` (contract.dfy): the load stage's validator as pure functions —
  the missing-column set, the projection onto the expected columns,
  `dropna`, and `passenger_count.lt(0).any()` — with lemmas on order, count,
  extra columns and dropped rows. A CSV is a header plus rows; a row maps a
  column name to a cell, and an empty (NaN) cell is a column absent from the
  map. Cells are integers or opaque text.
- `Stages` (stages.dfy): the effect of each task on an abstract `World` (local
  file, table, bucket) and the sequential runner, with lemmas about repeated
  runs.
- `Dag` (dag.dfy): class `EtlRuntime`, whose fields are the local file, the
  table (an "exists" flag and its rows) and the bucket; its methods update
  them in place and are proved to have exactly the effect `Stages` describes.

Two behaviours of the code that a cleaner design might change are modelled as written:

- A failed download leaves any earlier CSV in place; it is not truncated
  (`Stages.FailedFetchKeepsStaleFile`).
- The database connection is closed only on the success path; no release on
  failure is modelled.

Cells are typed one by one. Comparing a text cell with 0 raises in pandas, so
a kept row whose `passenger_count` is text makes the load fail with
`IncomparablePassengerCount`. This error takes precedence over a negative
count, because the comparison fails before `any()` runs.

## Model

| member | source | states |
|---|---|---|
| `Contract.AbsentColumns` | dags/nyc_taxi_etl.py:48-57 | a column is reported missing iff it is one of the 19 expected columns and not in the header; the set is empty iff every expected column is present |
| `Contract.Project` | dags/nyc_taxi_etl.py:60 | a kept row becomes a 19-value record whose i-th value is the row's cell for the i-th expected column |
| `Contract.Survivors` | dags/nyc_taxi_etl.py:60 | dropna never adds rows, and every record it keeps has exactly the 19 expected columns; a row is kept iff it is `Complete` (a cell in every required column) |
| `Contract.PassengerCounts` | dags/nyc_taxi_etl.py:63 | the passenger_count column of the batch, one value per row in row order |
| `Contract.LessThanZero` | dags/nyc_taxi_etl.py:63 | lt(0) fails iff some cell is text; otherwise it gives one flag per row, true iff that count is negative |
| `Contract.Any` | dags/nyc_taxi_etl.py:63 | any() is true iff some flag is true |
| `Contract.CheckPassengerCounts` | dags/nyc_taxi_etl.py:63-64 | the value check passes iff every kept count is a non-negative number (`NonNegativeCount`); it reports a comparison failure iff some count is text, and a negative count iff all are numbers and one is below 0 |
| `Contract.Validate` | dags/nyc_taxi_etl.py:46-64 | the load is rejected for missing columns iff some expected column is absent from the header, naming exactly those columns; with all columns present it succeeds iff every kept row has a non-negative count, and then returns exactly the kept rows, each 19 columns wide |
| `Contract.SurvivorsAppend` | dags/nyc_taxi_etl.py:60 | dropna works row by row: the kept rows of a concatenation are the kept rows of each part, concatenated |
| `Contract.CompletePositions` | dags/nyc_taxi_etl.py:60 | lists, in ascending order, the positions of exactly the rows that have a cell in every required column |
| `Contract.SurvivorsAreCompleteRowsInOrder` | dags/nyc_taxi_etl.py:60 | the k-th kept record is the projection of the k-th complete row, so the kept rows are exactly the complete ones, in their original relative order |
| `Contract.SurvivorCount` | dags/nyc_taxi_etl.py:60-61 | the number of kept rows is the number of rows minus the number with an empty required cell |
| `Contract.SurvivorsIgnoreExtraColumns` | dags/nyc_taxi_etl.py:60 | rows that agree on the 19 required cells keep the same records, whatever their extra columns hold or miss |
| `Contract.OnlyRequiredColumnsMatter` | dags/nyc_taxi_etl.py:56-64 | two files with the same required columns in the header and the same required cells row by row get the same verdict and the same batch |
| `Contract.DroppedRowNeverRejects` | dags/nyc_taxi_etl.py:60-64 | inserting a row with an empty required cell anywhere in a file changes nothing, even if its passenger_count is negative |
| `Contract.NegativeSurvivorRejectsBatch` | dags/nyc_taxi_etl.py:60-64 | a complete row with a negative passenger_count makes the whole load fail, whatever the other rows hold |
| `Contract.MissingRatecodeIsNamed` | dags/nyc_taxi_etl.py:48-58 | a header that has every required column except RatecodeID, with or without extra columns, is rejected with the missing set exactly {RatecodeID} |
| `Contract.NegativePassengerRejectsAll` | dags/nyc_taxi_etl.py:60-64 | under any header with every required column, a file whose rows are a complete trip with 2 passengers and a complete trip with -1 is rejected with NegativePassengerCount |
| `Stages.Download` | dags/nyc_taxi_etl.py:33-42 | a status other than 200 fails with that status and leaves the world unchanged; status 200 sets the local file to the decoded dataset; the table and bucket never change |
| `Stages.CreateTableIfNotExists` | dags/nyc_taxi_etl.py:73-96 | afterwards the table exists; an existing table is left exactly as it was |
| `Stages.Load` | dags/nyc_taxi_etl.py:44-117 | no file fails with FileNotFound; a contract violation fails with that violation; any failure leaves the world unchanged; success appends exactly the validated batch after the existing rows and reports its length; the file and bucket never change |
| `Stages.Upload` | dags/nyc_taxi_etl.py:119-126 | no local file fails and changes nothing; otherwise the object at S3Key becomes the file and every other key is untouched |
| `Stages.Run` | dags/nyc_taxi_etl.py:153 | a failed download ends the run with nothing changed; a failed load leaves only the new file; upload never fails after a download; the run completes iff the status is 200 and the data validates, and then the table exists and gains the batch, S3Key holds the file and every other bucket key is unchanged |
| `Stages.LoadTwiceDuplicates` | dags/nyc_taxi_etl.py:98-110 | loading the same file twice succeeds twice and appends the batch twice; with a non-empty batch the second load changes the table |
| `Stages.RerunDuplicatesRows` | dags/nyc_taxi_etl.py:107-113 | running the whole DAG again on the same response reports the same count and leaves the batch in the table twice |
| `Stages.FailedFetchKeepsStaleFile` | dags/nyc_taxi_etl.py:36-41 | after a failed fetch the old local file is still there, and a load behaves as it would have before the fetch |
| `Dag.EtlRuntime.DownloadData` | dags/nyc_taxi_etl.py:33-42 | updates the fields exactly as `Stages.Download`; on failure nothing changes |
| `Dag.EtlRuntime.LoadToPostgres` | dags/nyc_taxi_etl.py:44-117 | updates the fields exactly as `Stages.Load`; on failure nothing changes; on success the table exists and its rows are the old rows followed by the validated batch |
| `Dag.EtlRuntime.UploadToS3` | dags/nyc_taxi_etl.py:119-126 | updates the fields exactly as `Stages.Upload`; on failure nothing changes |
| `Dag.EtlRuntime.RunDag` | dags/nyc_taxi_etl.py:138-153 | runs the three tasks in order, stopping at the first failure, with exactly the effect and report of `Stages.Run` |

## Left out

- HTTP: the GET of the data URL is not modelled. Its status code and decoded body are inputs to `DownloadData`, and a network error before any status is not modelled.
- Parquet and CSV: decoding, `to_csv`, `read_csv` and its type inference are not modelled. The local file is the decoded table itself, so the fetch-then-load round trip is exact by construction. An unreadable file is not modelled.
- Floats: the monetary and distance columns are opaque cells. `passenger_count` is compared as an integer, and fractional counts are not modelled.
- SQL: the SQL text, the column types and psycopg2 are not modelled. The table is a flag plus a sequence of rows, and the insert is one atomic append.
- Database and S3 client failures are not modelled: connection, DDL, insert and upload errors. So the model has no path where the table was created but the insert failed, and no failed upload.
- Connection release is not modelled. The code closes the cursor and connection only on success.
- Logging, the Airflow DAG object, `default_args` (one retry after five minutes) and scheduling are not modelled. Only the order of the three tasks is kept.
- Configuration: the table name, the database parameters and the bucket name are not modelled. The bucket is a single map from key to file. scripts/config.py is not part of this model, because the DAG does not read it.
- Contract.LessThanZero: types each cell on its own. pandas' `read_csv` types the `passenger_count` column as a whole. Text in any cell of that column, even in a row that `dropna` later removes, turns every count into a string. The comparison then raises whenever at least one row is kept. The model reports the failure only when a kept row's own count is text. Files that mix numbers and text in one column are not written by `download_data`, which gets a typed Parquet column.
- Contract.DroppedRowNeverRejects: holds for the model's per-cell typing. Under pandas' per-column typing, a text count in a dropped row would still make the load fail whenever any row is kept (see the line above).
