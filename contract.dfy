/**
  The data contract that the load stage of the NYC taxi ETL enforces before it
  touches the database (dags/nyc_taxi_etl.py, load_to_postgres).

  The CSV file is an abstract table: a header (its column names) and rows.  A
  row maps a column name to a cell value; a cell that is empty in the file (what
  pandas reads as NaN) is simply absent from the map.  Only passenger_count is
  ever compared with a number, so cells are either integers or opaque text.
*/
module Contract {
  import opened Wrappers

  type Column = string

  /** A cell: a number, or anything else the file holds (timestamps, flags, ...). */
  datatype Value = Num(n: int) | Text(s: string)

  /** One CSV row; a column absent from the map is an empty (NaN) cell. */
  type Row = map<Column, Value>

  /** The local CSV file as read back by the loader. */
  datatype Table = Table(header: seq<Column>, rows: seq<Row>)

  /** One tuple handed to the bulk insert: the 19 expected columns, in order. */
  type Record = seq<Value>

  /** Why the loader rejects a file before opening a connection. */
  datatype ContractViolation =
    | MissingColumns(missing: set<Column>)  // required columns absent from the header
    | NegativePassengerCount                // some kept row has passenger_count < 0
    | IncomparablePassengerCount            // comparing a text count with 0 raised

  /** The required columns, in the order of the table's schema and of every insert. */
  const ExpectedColumns: seq<Column> := [
    "VendorID", "tpep_pickup_datetime", "tpep_dropoff_datetime", "passenger_count",
    "trip_distance", "RatecodeID", "store_and_fwd_flag", "PULocationID", "DOLocationID",
    "payment_type", "fare_amount", "extra", "mta_tax", "tip_amount",
    "tolls_amount", "improvement_surcharge", "total_amount", "congestion_surcharge", "Airport_fee"
  ]

  /** Position of passenger_count inside a Record. */
  const PassengerIndex: nat := 3

  /** The column the value check reads: "passenger_count". */
  const PassengerColumn: Column := ExpectedColumns[PassengerIndex]

  // ---------------------------------------------------------------------------
  // Schema check: the required columns the header lacks

  function AbsentColumns(header: seq<Column>): (missing: set<Column>)
    ensures forall c :: c in missing <==> c in ExpectedColumns && c !in header
    ensures missing == {} <==> forall i :: 0 <= i < |ExpectedColumns| ==> ExpectedColumns[i] in header
  {
    (set c | c in ExpectedColumns) - (set c | c in header)
  }

  // ---------------------------------------------------------------------------
  // Column projection, then dropping rows with an empty required cell

  /** A row with a cell in every one of cols, so dropna leaves it in. */
  predicate Complete(cols: seq<Column>, row: Row) {
    forall c :: c in cols ==> c in row
  }

  /** The row restricted to cols, in their order. */
  function Project(cols: seq<Column>, row: Row): (r: Record)
    requires Complete(cols, row)
    ensures |r| == |cols|
    ensures forall i :: 0 <= i < |r| ==> r[i] == row[cols[i]]
  {
    seq(|cols|, i requires 0 <= i < |cols| => row[cols[i]])
  }

  /**
    Projection onto cols followed by dropna: the rows with a cell in every one
    of cols, projected onto cols, in file order.  The loader uses it with
    cols = ExpectedColumns.
  */
  function Survivors(cols: seq<Column>, rows: seq<Row>): (kept: seq<Record>)
    ensures |kept| <= |rows|
    ensures forall k :: 0 <= k < |kept| ==> |kept[k]| == |cols|
    decreases |rows|
  {
    if rows == [] then []
    else
      var last := rows[|rows| - 1];
      Survivors(cols, rows[..|rows| - 1]) + (if Complete(cols, last) then [Project(cols, last)] else [])
  }

  // ---------------------------------------------------------------------------
  // Value check: is any kept passenger count below zero?

  /** The passenger_count column of a projected batch. */
  function PassengerCounts(batch: seq<Record>): (counts: seq<Value>)
    requires forall k :: 0 <= k < |batch| ==> PassengerIndex < |batch[k]|
    ensures |counts| == |batch|
    ensures forall k :: 0 <= k < |batch| ==> counts[k] == batch[k][PassengerIndex]
  {
    seq(|batch|, k requires 0 <= k < |batch| => batch[k][PassengerIndex])
  }

  /** Element-wise "less than zero" over a pandas Series; comparing a text cell with 0 raises. */
  function LessThanZero(counts: seq<Value>): (flags: Option<seq<bool>>)
    ensures flags.None? <==> exists k :: 0 <= k < |counts| && counts[k].Text?
    ensures flags.Some? ==> |flags.value| == |counts|
    ensures flags.Some? ==> forall k :: 0 <= k < |counts| ==> (flags.value[k] <==> counts[k].n < 0)
  {
    if counts == [] then Some([])
    else
      match (counts[0], LessThanZero(counts[1..]))
      case (Text(_), _) => None
      case (Num(_), None) => None
      case (Num(n), Some(rest)) => Some([n < 0] + rest)
  }

  /** Series.any(). */
  function Any(flags: seq<bool>): (b: bool)
    ensures b <==> exists k :: 0 <= k < |flags| && flags[k]
  {
    if flags == [] then false else flags[0] || Any(flags[1..])
  }

  /** A kept row whose passenger_count passes the value check. */
  predicate NonNegativeCount(rec: Record)
    requires PassengerIndex < |rec|
  {
    rec[PassengerIndex].Num? && rec[PassengerIndex].n >= 0
  }

  /**
    The value check of a projected batch: None when it passes, otherwise the
    violation raised (a text cell makes the comparison itself fail first).
  */
  function CheckPassengerCounts(batch: seq<Record>): (v: Option<ContractViolation>)
    requires forall k :: 0 <= k < |batch| ==> PassengerIndex < |batch[k]|
    ensures v.None? <==> forall k :: 0 <= k < |batch| ==> NonNegativeCount(batch[k])
    ensures v.Some? ==> !v.value.MissingColumns?
    ensures v == Some(IncomparablePassengerCount) <==>
              exists k :: 0 <= k < |batch| && batch[k][PassengerIndex].Text?
    ensures v == Some(NegativePassengerCount) <==>
              (forall k :: 0 <= k < |batch| ==> batch[k][PassengerIndex].Num?) &&
              exists k :: 0 <= k < |batch| && batch[k][PassengerIndex].n < 0
  {
    var counts := PassengerCounts(batch);
    match LessThanZero(counts)
    case None =>
      var k :| 0 <= k < |counts| && counts[k].Text?;
      assert !NonNegativeCount(batch[k]);
      Some(IncomparablePassengerCount)
    case Some(flags) =>
      if Any(flags) then
        var k :| 0 <= k < |flags| && flags[k];
        assert !NonNegativeCount(batch[k]);
        Some(NegativePassengerCount)
      else None
  }

  // ---------------------------------------------------------------------------
  // The whole validator, lines 56-64

  /**
    The batch the loader inserts, or the violation it raises.  The schema check
    comes first; the value check sees only rows that survived dropna.
  */
  function Validate(t: Table): (r: Result<seq<Record>, ContractViolation>)
    ensures (r.Err? && r.error.MissingColumns?) <==> exists c :: c in ExpectedColumns && c !in t.header
    ensures r.Err? && r.error.MissingColumns? ==>
              forall c :: c in r.error.missing <==> c in ExpectedColumns && c !in t.header
    ensures r.Ok? ==> r.value == Survivors(ExpectedColumns, t.rows)
    ensures r.Ok? ==> forall k :: 0 <= k < |r.value| ==> |r.value[k]| == |ExpectedColumns| && NonNegativeCount(r.value[k])
    ensures AbsentColumns(t.header) == {} ==>
              (r.Err? <==> CheckPassengerCounts(Survivors(ExpectedColumns, t.rows)).Some?) &&
              (r.Err? ==> r.error == CheckPassengerCounts(Survivors(ExpectedColumns, t.rows)).value)
  {
    var missing := AbsentColumns(t.header);
    if missing != {} then Err(MissingColumns(missing))
    else
      var batch := Survivors(ExpectedColumns, t.rows);
      match CheckPassengerCounts(batch)
      case Some(violation) => Err(violation)
      case None => Ok(batch)
  }

  // ---------------------------------------------------------------------------
  // Properties of projection and dropna

  /** dropna works row by row, so it distributes over concatenation. */
  lemma {:induction false} SurvivorsAppend(cols: seq<Column>, a: seq<Row>, b: seq<Row>)
    ensures Survivors(cols, a + b) == Survivors(cols, a) + Survivors(cols, b)
    decreases |b|
  {
    if b == [] {
      assert a + b == a;
    } else {
      var n := |b| - 1;
      assert (a + b)[..|a + b| - 1] == a + b[..n];
      assert (a + b)[|a + b| - 1] == b[n];
      SurvivorsAppend(cols, a, b[..n]);
    }
  }

  /** The positions of the rows that have every column of cols, ascending. */
  function CompletePositions(cols: seq<Column>, rows: seq<Row>): (idx: seq<nat>)
    ensures forall k :: 0 <= k < |idx| ==> idx[k] < |rows| && Complete(cols, rows[idx[k]])
    ensures forall k, l :: 0 <= k < l < |idx| ==> idx[k] < idx[l]
    ensures forall i :: 0 <= i < |rows| && Complete(cols, rows[i]) ==> i in idx
    decreases |rows|
  {
    if rows == [] then []
    else
      var n := |rows| - 1;
      var earlier := CompletePositions(cols, rows[..n]);
      assert forall i :: 0 <= i < n ==> rows[..n][i] == rows[i];
      earlier + (if Complete(cols, rows[n]) then [n] else [])
  }

  /**
    The kept records are exactly the projections of the complete rows, taken in
    their original relative order.
  */
  lemma {:induction false} SurvivorsAreCompleteRowsInOrder(cols: seq<Column>, rows: seq<Row>)
    ensures |Survivors(cols, rows)| == |CompletePositions(cols, rows)|
    ensures forall k :: 0 <= k < |Survivors(cols, rows)| ==>
              Survivors(cols, rows)[k] == Project(cols, rows[CompletePositions(cols, rows)[k]])
    decreases |rows|
  {
    if rows != [] {
      var n := |rows| - 1;
      var prefix := rows[..n];
      SurvivorsAreCompleteRowsInOrder(cols, prefix);
      var kept, before := Survivors(cols, rows), Survivors(cols, prefix);
      var idx, earlier := CompletePositions(cols, rows), CompletePositions(cols, prefix);
      assert kept == before + (if Complete(cols, rows[n]) then [Project(cols, rows[n])] else []);
      assert idx == earlier + (if Complete(cols, rows[n]) then [n] else []);
      forall k | 0 <= k < |before| ensures kept[k] == Project(cols, rows[idx[k]]) {
        assert idx[k] == earlier[k] && rows[earlier[k]] == prefix[earlier[k]];
      }
    }
  }

  /** Positions of the rows that dropna removes. */
  function IncompleteRows(cols: seq<Column>, rows: seq<Row>): set<nat> {
    set i: nat | i < |rows| && !Complete(cols, rows[i])
  }

  /** Appending one row adds its position to the dropped set exactly when it is incomplete. */
  lemma IncompleteRowsSnoc(cols: seq<Column>, rows: seq<Row>)
    requires rows != []
    ensures var n := |rows| - 1;
            IncompleteRows(cols, rows) ==
            IncompleteRows(cols, rows[..n]) + (if Complete(cols, rows[n]) then {} else {n})
    ensures |rows| - 1 !in IncompleteRows(cols, rows[..|rows| - 1])
  {
  }

  /** The inserted count is the input count minus the rows with an empty required cell. */
  lemma {:induction false} SurvivorCount(cols: seq<Column>, rows: seq<Row>)
    ensures |Survivors(cols, rows)| == |rows| - |IncompleteRows(cols, rows)|
    decreases |rows|
  {
    if rows != [] {
      var n := |rows| - 1;
      var prefix := rows[..n];
      SurvivorCount(cols, prefix);
      IncompleteRowsSnoc(cols, rows);
      assert |Survivors(cols, rows)| == |Survivors(cols, prefix)| + (if Complete(cols, rows[n]) then 1 else 0);
    }
  }

  /** Two rows that agree on every column of cols, cell present or not. */
  predicate AgreeOn(cols: seq<Column>, r1: Row, r2: Row) {
    forall c :: c in cols ==> (c in r1 <==> c in r2) && (c in r1 ==> r1[c] == r2[c])
  }

  /** Extra columns, and empty cells in them, never change what survives. */
  lemma {:induction false} SurvivorsIgnoreExtraColumns(cols: seq<Column>, rows1: seq<Row>, rows2: seq<Row>)
    requires |rows1| == |rows2|
    requires forall i :: 0 <= i < |rows1| ==> AgreeOn(cols, rows1[i], rows2[i])
    ensures Survivors(cols, rows1) == Survivors(cols, rows2)
    decreases |rows1|
  {
    if rows1 != [] {
      var n := |rows1| - 1;
      SurvivorsIgnoreExtraColumns(cols, rows1[..n], rows2[..n]);
      assert AgreeOn(cols, rows1[n], rows2[n]);
      if Complete(cols, rows1[n]) {
        assert Project(cols, rows1[n]) == Project(cols, rows2[n]);
      }
    }
  }

  /** Validate looks at the header only through its missing columns and at the rows only through dropna. */
  lemma ValidateSeesOnlySurvivors(t1: Table, t2: Table)
    requires AbsentColumns(t1.header) == AbsentColumns(t2.header)
    requires Survivors(ExpectedColumns, t1.rows) == Survivors(ExpectedColumns, t2.rows)
    ensures Validate(t1) == Validate(t2)
  {
  }

  /**
    The loader's verdict depends only on which required columns the header has
    and on the required cells of each row: extra columns are discarded unseen.
  */
  lemma OnlyRequiredColumnsMatter(t1: Table, t2: Table)
    requires forall c :: c in ExpectedColumns ==> (c in t1.header <==> c in t2.header)
    requires |t1.rows| == |t2.rows|
    requires forall i :: 0 <= i < |t1.rows| ==> AgreeOn(ExpectedColumns, t1.rows[i], t2.rows[i])
    ensures Validate(t1) == Validate(t2)
  {
    SurvivorsIgnoreExtraColumns(ExpectedColumns, t1.rows, t2.rows);
    assert AbsentColumns(t1.header) == AbsentColumns(t2.header);
    ValidateSeesOnlySurvivors(t1, t2);
  }

  /**
    A row that dropna removes is invisible to the value check: even with a
    negative passenger_count it cannot make the load fail.
  */
  lemma DroppedRowNeverRejects(header: seq<Column>, before: seq<Row>, row: Row, after: seq<Row>)
    requires !Complete(ExpectedColumns, row)
    ensures Validate(Table(header, before + [row] + after)) == Validate(Table(header, before + after))
  {
    var t1, t2 := Table(header, before + [row] + after), Table(header, before + after);
    var cols := ExpectedColumns;
    assert Survivors(cols, [row]) == [] by {
      assert [row][..0] == [];
    }
    calc {
      Survivors(cols, t1.rows);
      { SurvivorsAppend(cols, before + [row], after); }
      Survivors(cols, before + [row]) + Survivors(cols, after);
      { SurvivorsAppend(cols, before, [row]); }
      Survivors(cols, before) + Survivors(cols, after);
      { SurvivorsAppend(cols, before, after); }
      Survivors(cols, t2.rows);
    }
    ValidateSeesOnlySurvivors(t1, t2);
  }

  /**
    A kept row with a negative passenger_count rejects the whole batch: the
    load fails, whatever the other rows hold.
  */
  lemma NegativeSurvivorRejectsBatch(t: Table, i: nat)
    requires AbsentColumns(t.header) == {}
    requires i < |t.rows| && Complete(ExpectedColumns, t.rows[i])
    requires t.rows[i][PassengerColumn].Num? && t.rows[i][PassengerColumn].n < 0
    ensures Validate(t) == Err(NegativePassengerCount) || Validate(t) == Err(IncomparablePassengerCount)
  {
    var batch := Survivors(ExpectedColumns, t.rows);
    SurvivorsAreCompleteRowsInOrder(ExpectedColumns, t.rows);
    var idx := CompletePositions(ExpectedColumns, t.rows);
    var k :| 0 <= k < |idx| && idx[k] == i;
    assert batch[k] == Project(ExpectedColumns, t.rows[i]);
    assert !NonNegativeCount(batch[k]);
    assert CheckPassengerCounts(batch).Some?;
  }

  // ---------------------------------------------------------------------------
  // Two concrete files

  /**
    A file whose header has every required column but RatecodeID (and perhaps
    extra columns) is rejected naming exactly RatecodeID, whatever its rows.
  */
  lemma MissingRatecodeIsNamed(t: Table)
    requires "RatecodeID" !in t.header
    requires forall c :: c in ExpectedColumns && c != "RatecodeID" ==> c in t.header
    ensures Validate(t) == Err(MissingColumns({"RatecodeID"}))
  {
    assert ExpectedColumns[5] == "RatecodeID";
    assert AbsentColumns(t.header) == {"RatecodeID"};
  }

  /**
    One valid trip and one with passenger_count -1, under any header that has
    every required column: the whole batch is rejected.
  */
  lemma NegativePassengerRejectsAll(header: seq<Column>, valid: Row, bad: Row)
    requires AbsentColumns(header) == {}
    requires Complete(ExpectedColumns, valid) && valid[PassengerColumn] == Num(2)
    requires Complete(ExpectedColumns, bad) && bad[PassengerColumn] == Num(-1)
    ensures Validate(Table(header, [valid, bad])) == Err(NegativePassengerCount)
  {
    var rows := [valid, bad];
    assert rows[..1] == [valid];
    assert rows[..1][..0] == [];
    assert Survivors(ExpectedColumns, [valid]) == [Project(ExpectedColumns, valid)];
    var batch := Survivors(ExpectedColumns, rows);
    assert batch == [Project(ExpectedColumns, valid), Project(ExpectedColumns, bad)];
    assert batch[0][PassengerIndex] == Num(2) && batch[1][PassengerIndex] == Num(-1);
  }
}
