/** The loading path of lib/tsdb.hpp: tsdb::Interface::load, the column
    check _columns_match_type, the query text, the result-row loop, and
    TSDBInterfaceException. The MySQL server is an abstract `Database`
    value: how it connects, which tables it reports (a table whose lookup
    fails is simply absent, as has_table turns SQL errors into "no"), the
    column list of each table, and the answer it gives to a prepared
    query. */
module Tsdb {
  import opened Wrappers
  import opened DataPoints
  import opened StringOrder
  import opened TimeSeriesStore
  import Messages

  const InterfaceBaseMessage: string := "TSDB Interface Exception: "

  const InterfaceMessageTable: map<int, string> :=
    map[0 := "Unknown TSDBInterface exception.",
        1 := "Could not connect to TSDB server.",
        2 := "Invalid table name.",
        3 := "Failed to load TSDB table.",
        4 := "Invalid date range request.",
        5 := "Column mismatch.",
        6 := "Failed to set session time zone.",
        7 := "MySQL server error."]

  const CouldNotConnect: ushort := 1
  const InvalidTableName: ushort := 2
  const LoadFailed: ushort := 3
  const InvalidDateRange: ushort := 4
  const ColumnMismatch: ushort := 5
  const SessionTimeZone: ushort := 6
  const ServerError: ushort := 7

  datatype TsdbInterfaceException = TsdbInterfaceException(code: ushort)
  {
    /** what(): the base prefix, then the text for the code, or the code-0
        text when the table has no entry for it. */
    function What(): (r: string)
      ensures |r| >= |InterfaceBaseMessage| && r[..|InterfaceBaseMessage|] == InterfaceBaseMessage
      ensures r[|InterfaceBaseMessage|..] in InterfaceMessageTable.Values
      ensures code as int in InterfaceMessageTable ==> r[|InterfaceBaseMessage|..] == InterfaceMessageTable[code as int]
      ensures code as int !in InterfaceMessageTable ==> r[|InterfaceBaseMessage|..] == InterfaceMessageTable[0]
    {
      Messages.Describe(InterfaceBaseMessage, InterfaceMessageTable, code as int)
    }
  }

  lemma InterfaceWhatFallsBackToZero(e: TsdbInterfaceException)
    requires e.code as int !in InterfaceMessageTable
    ensures e.What() == TsdbInterfaceException(0).What()
  {
    Messages.UnknownReadsAsZero(InterfaceBaseMessage, InterfaceMessageTable, e.code as int);
  }

  /** Every code load can raise has its own message. */
  lemma LoadCodesDistinguished(c1: ushort, c2: ushort)
    requires 1 <= c1 <= 7 && 1 <= c2 <= 7 && c1 != c2
    ensures TsdbInterfaceException(c1).What() != TsdbInterfaceException(c2).What()
  {
    Messages.KnownCodesDistinguished(InterfaceBaseMessage, InterfaceMessageTable, c1 as int, c2 as int);
  }

  /** What escapes from load: a TSDBInterfaceException, a DataPointException
      from building a record, or the exception the timestamp conversion
      throws on a string it cannot read. */
  datatype LoadError =
    | InterfaceError(ie: TsdbInterfaceException)
    | RecordError(de: DataPointException)
    | TimeFormatError(stamp: string)

  /** How a connection attempt ends: connected with a UTC session; login
      refused (code 1, no connection); login accepted but a later setup step
      (schema, autocommit, time zone) raising an SQL error (code 1, the
      connection stays open); or connected with a session time zone that is
      not +00:00 (code 6, the connection stays open). */
  datatype ConnectBehaviour = Accepts | Refuses | SessionSetupFails | NonUtcSession

  /** One result row: column 1 as a string, columns 2.. as doubles. */
  datatype Row = Row(stamp: string, cells: seq<real>)

  /** getColumnCount() of a result set, which always has the date_time column. */
  type ColumnCount = n: int | n >= 1 witness 1

  /** The server's answer to the final prepared statement: an SQL error while
      preparing or executing, or a result set whose cursor yields `rows` and
      then either ends or fails with an SQL error. */
  datatype Answer =
    | SqlError
    | ResultSet(columnCount: ColumnCount, rows: seq<Row>, failsAfterRows: bool)

  /** A prepared statement: its text and the date-times bound to its
      placeholders, in order. */
  datatype Query = Query(text: string, bindings: seq<int>)

  /** `tables` maps each table has_table reports to the result of SHOW
      COLUMNS on it (None when that query fails). */
  datatype Database = Database(
    connect: ConnectBehaviour,
    tables: map<string, Option<seq<string>>>,
    run: Query -> Answer)

  /** The error code connect() raises, if any. */
  function ConnectError(b: ConnectBehaviour): Option<ushort>
  {
    match b
    case Accepts => None
    case Refuses => Some(CouldNotConnect)
    case SessionSetupFails => Some(CouldNotConnect)
    case NonUtcSession => Some(SessionTimeZone)
  }

  /** _columns_match_type: sorted copies of both lists, then std::includes. */
  function ColumnsMatch(columns: seq<string>, required: seq<string>): (r: bool)
    ensures r <==> multiset(required) <= multiset(columns)
  {
    SortSorted(columns);
    SortSorted(required);
    IncludesIsSubMultiset(Sort(columns), Sort(required));
    Includes(Sort(columns), Sort(required))
  }

  lemma {:induction false} DistinctCounts(s: seq<string>, x: string)
    requires forall i, j :: 0 <= i < j < |s| ==> s[i] != s[j]
    ensures multiset(s)[x] == if x in s then 1 else 0
  {
    if s != [] {
      assert s == [s[0]] + s[1..];
      DistinctCounts(s[1..], x);
    }
  }

  /** Every name in `names` is among `columns`. */
  predicate HasColumns(columns: seq<string>, names: seq<string>)
  {
    forall c :: c in names ==> c in columns
  }

  /** For a list of distinct names (every dp_names list is one), the check
      holds exactly when each name is among the table's columns; order and
      extra columns do not matter. */
  lemma ColumnsMatchIffContained(columns: seq<string>, required: seq<string>)
    requires forall i, j :: 0 <= i < j < |required| ==> required[i] != required[j]
    ensures ColumnsMatch(columns, required) <==> HasColumns(columns, required)
  {
    if HasColumns(columns, required) {
      forall x ensures multiset(required)[x] <= multiset(columns)[x] {
        DistinctCounts(required, x);
      }
    } else {
      var n :| n in required && n !in columns;
      assert multiset(required)[n] > 0;
    }
  }

  /** The unspecialised dp_names needs a column with an empty name. */
  lemma GenericTypeNeedsEmptyColumn(columns: seq<string>)
    ensures ColumnsMatch(columns, GenericNames()) <==> "" in columns
  {
    ColumnsMatchIffContained(columns, GenericNames());
  }

  /** boost::algorithm::join. */
  function Join(parts: seq<string>, sep: string): string
    decreases |parts|
  {
    if parts == [] then ""
    else if |parts| == 1 then parts[0]
    else parts[0] + sep + Join(parts[1..], sep)
  }

  /** The bound values a statement carries for one optional bound. */
  function Present(b: Option<int>): seq<int>
  {
    if b.Some? then [b.value] else []
  }

  /** The WHERE clause and its bindings chosen by which bounds are present. */
  function RangeClause(start: Option<int>, end: Option<int>): (r: (string, seq<int>))
    ensures r.1 == Present(start) + Present(end)
  {
    if start.Some? && end.Some? then (" WHERE date_time BETWEEN (?) and (?);", [start.value, end.value])
    else if start.Some? then (" WHERE date_time >= (?);", [start.value])
    else if end.Some? then (" WHERE date_time <= (?);", [end.value])
    else ("", [])
  }

  function SelectText(k: Kind, table: string): string
  {
    "SELECT date_time, " + Join(Names(k), ", ") + " FROM " + table
  }

  /** The statement load prepares for record kind k: the SELECT of the
      date_time column and the record's columns, followed by the range
      clause, with the present bounds bound in order, start first. */
  function BuildQuery(k: Kind, table: string, start: Option<int>, end: Option<int>): (q: Query)
    ensures SelectText(k, table) <= q.text
    ensures q.bindings == Present(start) + Present(end)
  {
    var (suffix, bindings) := RangeClause(start, end);
    Query(SelectText(k, table) + suffix, bindings)
  }

  /** The statement carries exactly the bounds it was given: two queries
      for the same table and kind are equal only when their bounds are. */
  lemma QueryDeterminesBounds(k: Kind, table: string, s1: Option<int>, e1: Option<int>, s2: Option<int>, e2: Option<int>)
    requires BuildQuery(k, table, s1, e1) == BuildQuery(k, table, s2, e2)
    ensures s1 == s2 && e1 == e2
  {
    var p := SelectText(k, table);
    var (x1, b1) := RangeClause(s1, e1);
    var (x2, b2) := RangeClause(s2, e2);
    assert p + x1 == p + x2;
    assert x1 == (p + x1)[|p|..] && x2 == (p + x2)[|p|..];
    assert |" WHERE date_time >= (?);"| == |" WHERE date_time <= (?);"|;
    assert " WHERE date_time >= (?);"[17] != " WHERE date_time <= (?);"[17];
  }

  /** How many times c occurs in s. */
  function Count(s: string, c: char): nat
  {
    if s == [] then 0 else (if s[0] == c then 1 else 0) + Count(s[1..], c)
  }

  lemma {:induction false} CountConcat(a: string, b: string, c: char)
    ensures Count(a + b, c) == Count(a, c) + Count(b, c)
  {
    if a == [] {
      assert a + b == b;
    } else {
      assert (a + b)[0] == a[0];
      assert (a + b)[1..] == a[1..] + b;
      CountConcat(a[1..], b, c);
    }
  }

  lemma {:induction false} CountAbsent(s: string, c: char)
    requires c !in s
    ensures Count(s, c) == 0
  {
    if s != [] { CountAbsent(s[1..], c); }
  }

  lemma {:induction false} JoinAvoids(parts: seq<string>, sep: string, c: char)
    requires c !in sep && forall p :: p in parts ==> c !in p
    ensures c !in Join(parts, sep)
    decreases |parts|
  {
    if |parts| > 1 { JoinAvoids(parts[1..], sep, c); }
  }

  lemma NoPlaceholderIn(a: string, b: string, c: string, d: string)
    requires '?' !in a && '?' !in b && '?' !in c && '?' !in d
    ensures Count(a + b + c + d, '?') == 0
  {
    assert '?' !in a + b + c + d;
    CountAbsent(a + b + c + d, '?');
  }

  lemma OnePlaceholder(o: string, c: string)
    requires '?' !in o && '?' !in c
    ensures Count(o + "?" + c, '?') == 1
  {
    CountConcat(o + "?", c, '?');
    CountConcat(o, "?", '?');
    CountAbsent(o, '?');
    CountAbsent(c, '?');
  }

  lemma TwoPlaceholders(o: string, m: string, c: string)
    requires '?' !in o && '?' !in m && '?' !in c
    ensures Count(o + "?" + m + "?" + c, '?') == 2
  {
    OnePlaceholder(o, m);
    CountConcat(o + "?" + m, "?" + c, '?');
    assert o + "?" + m + "?" + c == (o + "?" + m) + ("?" + c);
    CountConcat("?", c, '?');
    CountAbsent(c, '?');
  }

  lemma SelectHasNoPlaceholder(k: Kind, table: string)
    requires '?' !in table
    ensures Count(SelectText(k, table), '?') == 0
  {
    var head, from := "SELECT date_time, ", " FROM ";
    JoinAvoids(Names(k), ", ", '?');
    assert '?' !in head && '?' !in from;
    NoPlaceholderIn(head, Join(Names(k), ", "), from, table);
  }

  lemma BetweenClauseSplits()
    ensures " WHERE date_time BETWEEN (?) and (?);" == " WHERE date_time BETWEEN (" + "?" + ") and (" + "?" + ");"
    ensures '?' !in " WHERE date_time BETWEEN (" && '?' !in ") and (" && '?' !in ");"
  {
  }

  lemma LowerClauseSplits()
    ensures " WHERE date_time >= (?);" == " WHERE date_time >= (" + "?" + ");"
    ensures '?' !in " WHERE date_time >= (" && '?' !in ");"
  {
  }

  lemma UpperClauseSplits()
    ensures " WHERE date_time <= (?);" == " WHERE date_time <= (" + "?" + ");"
    ensures '?' !in " WHERE date_time <= (" && '?' !in ");"
  {
  }

  lemma ClausePlaceholders(start: Option<int>, end: Option<int>)
    ensures Count(RangeClause(start, end).0, '?') == |RangeClause(start, end).1|
  {
    if start.Some? && end.Some? {
      BetweenClauseSplits();
      TwoPlaceholders(" WHERE date_time BETWEEN (", ") and (", ");");
    } else if start.Some? {
      LowerClauseSplits();
      OnePlaceholder(" WHERE date_time >= (", ");");
    } else if end.Some? {
      UpperClauseSplits();
      OnePlaceholder(" WHERE date_time <= (", ");");
    }
  }

  /** Every placeholder of the statement gets exactly one bound value, as
      long as the table name itself has no '?'. */
  lemma PlaceholdersMatchBindings(k: Kind, table: string, start: Option<int>, end: Option<int>)
    requires '?' !in table
    ensures Count(BuildQuery(k, table, start, end).text, '?') == |BuildQuery(k, table, start, end).bindings|
  {
    SelectHasNoPlaceholder(k, table);
    ClausePlaceholders(start, end);
    CountConcat(SelectText(k, table), RangeClause(start, end).0, '?');
  }

  /** A row loads when it has a cell for every requested column, its
      timestamp converts and the record can be built. */
  predicate RowLoads(k: Kind, toEpoch: string -> Option<int>, n: ColumnCount, row: Row)
  {
    |row.cells| >= n - 1
    && toEpoch(row.stamp).Some?
    && FromVector(k, row.cells[..n - 1]).Success?
  }

  /** The entry a loading row becomes: its converted timestamp and the
      record built from that row's columns 2..n only. */
  function RowEntry(k: Kind, toEpoch: string -> Option<int>, n: ColumnCount, row: Row): (int, DataPoint)
    requires RowLoads(k, toEpoch, n, row)
  {
    (toEpoch(row.stamp).value, FromVector(k, row.cells[..n - 1]).value)
  }

  /** What a row that does not load raises: an SQL error reading a column
      (code 3), the timestamp conversion's exception, or the record's
      DataPointException. */
  function RowFailure(k: Kind, toEpoch: string -> Option<int>, n: ColumnCount, row: Row): LoadError
    requires !RowLoads(k, toEpoch, n, row)
  {
    if |row.cells| < n - 1 then InterfaceError(TsdbInterfaceException(LoadFailed))
    else if toEpoch(row.stamp).None? then TimeFormatError(row.stamp)
    else RecordError(FromVector(k, row.cells[..n - 1]).error)
  }

  /** The row loop of load: each row becomes one insert, and the first
      failing row stops the loop with everything before it kept. */
  function IngestRows(k: Kind, toEpoch: string -> Option<int>, n: ColumnCount, rows: seq<Row>, m: TimeMap)
    : (TimeMap, Option<LoadError>)
    decreases |rows|
  {
    if rows == [] then (m, None)
    else if !RowLoads(k, toEpoch, n, rows[0]) then (m, Some(RowFailure(k, toEpoch, n, rows[0])))
    else
      var (t, d) := RowEntry(k, toEpoch, n, rows[0]);
      IngestRows(k, toEpoch, n, rows[1..], MapInsert(m, t, d).0)
  }

  function Entries(k: Kind, toEpoch: string -> Option<int>, n: ColumnCount, rows: seq<Row>): (es: seq<(int, DataPoint)>)
    requires forall i :: 0 <= i < |rows| ==> RowLoads(k, toEpoch, n, rows[i])
    ensures |es| == |rows|
    ensures forall i :: 0 <= i < |rows| ==> es[i] == RowEntry(k, toEpoch, n, rows[i])
  {
    seq(|rows|, i requires 0 <= i < |rows| => RowEntry(k, toEpoch, n, rows[i]))
  }

  /** When every row loads, the loop is the in-order insertion of their
      entries and raises nothing. */
  lemma {:induction false} IngestAllRows(k: Kind, toEpoch: string -> Option<int>, n: ColumnCount, rows: seq<Row>, m: TimeMap)
    requires forall i :: 0 <= i < |rows| ==> RowLoads(k, toEpoch, n, rows[i])
    ensures IngestRows(k, toEpoch, n, rows, m) == (InsertAll(m, Entries(k, toEpoch, n, rows)), None)
    decreases |rows|
  {
    if rows != [] {
      var (t, d) := RowEntry(k, toEpoch, n, rows[0]);
      IngestAllRows(k, toEpoch, n, rows[1..], MapInsert(m, t, d).0);
      assert Entries(k, toEpoch, n, rows)[1..] == Entries(k, toEpoch, n, rows[1..]);
    }
  }

  /** The loop raises nothing exactly when every row loads. */
  lemma {:induction false} IngestSucceedsIff(k: Kind, toEpoch: string -> Option<int>, n: ColumnCount, rows: seq<Row>, m: TimeMap)
    ensures IngestRows(k, toEpoch, n, rows, m).1.None? <==> forall i :: 0 <= i < |rows| ==> RowLoads(k, toEpoch, n, rows[i])
    decreases |rows|
  {
    if rows != [] && RowLoads(k, toEpoch, n, rows[0]) {
      var (t, d) := RowEntry(k, toEpoch, n, rows[0]);
      IngestSucceedsIff(k, toEpoch, n, rows[1..], MapInsert(m, t, d).0);
      assert forall i :: 1 <= i < |rows| ==> rows[1..][i - 1] == rows[i];
    }
  }

  /** No rollback: when row j is the first that fails, the series keeps the
      inserts of rows 0..j-1 and load raises that row's error. */
  lemma {:induction false} IngestStopsAtFirstFailure(k: Kind, toEpoch: string -> Option<int>, n: ColumnCount, rows: seq<Row>, m: TimeMap, j: int)
    requires 0 <= j < |rows| && !RowLoads(k, toEpoch, n, rows[j])
    requires forall i :: 0 <= i < j ==> RowLoads(k, toEpoch, n, rows[i])
    ensures IngestRows(k, toEpoch, n, rows, m)
            == (InsertAll(m, Entries(k, toEpoch, n, rows[..j])), Some(RowFailure(k, toEpoch, n, rows[j])))
    decreases |rows|
  {
    if j > 0 {
      var (t, d) := RowEntry(k, toEpoch, n, rows[0]);
      assert rows[1..][j - 1] == rows[j];
      IngestStopsAtFirstFailure(k, toEpoch, n, rows[1..], MapInsert(m, t, d).0, j - 1);
      assert rows[1..][..j - 1] == rows[..j][1..];
      assert Entries(k, toEpoch, n, rows[..j])[1..] == Entries(k, toEpoch, n, rows[1..][..j - 1]);
    }
  }

  /** Load never clears: whatever the loop raises, every entry the series
      already held is still there, unchanged. */
  lemma {:induction false} IngestKeepsExisting(k: Kind, toEpoch: string -> Option<int>, n: ColumnCount, rows: seq<Row>, m: TimeMap)
    ensures forall t :: t in m ==> t in IngestRows(k, toEpoch, n, rows, m).0 && IngestRows(k, toEpoch, n, rows, m).0[t] == m[t]
    decreases |rows|
  {
    if rows != [] && RowLoads(k, toEpoch, n, rows[0]) {
      var (t, d) := RowEntry(k, toEpoch, n, rows[0]);
      IngestKeepsExisting(k, toEpoch, n, rows[1..], MapInsert(m, t, d).0);
    }
  }

  /** After a load in which every row loads, row i's record is stored at
      its timestamp unless that timestamp was already held or came from an
      earlier row: the first record for a timestamp wins. */
  lemma LoadedRowsStored(k: Kind, toEpoch: string -> Option<int>, n: ColumnCount, rows: seq<Row>, m: TimeMap, i: int)
    requires forall j :: 0 <= j < |rows| ==> RowLoads(k, toEpoch, n, rows[j])
    requires 0 <= i < |rows| && RowEntry(k, toEpoch, n, rows[i]).0 !in m
    requires forall j :: 0 <= j < i ==> RowEntry(k, toEpoch, n, rows[j]).0 != RowEntry(k, toEpoch, n, rows[i]).0
    ensures IngestRows(k, toEpoch, n, rows, m).1 == None
    ensures RowEntry(k, toEpoch, n, rows[i]).0 in IngestRows(k, toEpoch, n, rows, m).0
    ensures IngestRows(k, toEpoch, n, rows, m).0[RowEntry(k, toEpoch, n, rows[i]).0]
            == FromVector(k, rows[i].cells[..n - 1]).value
  {
    IngestAllRows(k, toEpoch, n, rows, m);
    InsertAllFirstWins(m, Entries(k, toEpoch, n, rows), i);
  }

  /** The timestamps a fully loaded series holds: the old ones and one per row. */
  lemma LoadedKeys(k: Kind, toEpoch: string -> Option<int>, n: ColumnCount, rows: seq<Row>, m: TimeMap, t: int)
    requires forall j :: 0 <= j < |rows| ==> RowLoads(k, toEpoch, n, rows[j])
    ensures t in IngestRows(k, toEpoch, n, rows, m).0
            <==> t in m || exists j :: 0 <= j < |rows| && RowEntry(k, toEpoch, n, rows[j]).0 == t
  {
    var es := Entries(k, toEpoch, n, rows);
    IngestAllRows(k, toEpoch, n, rows, m);
    InsertAllKeys(m, es, t);
    if exists e :: e in es && e.0 == t {
      var e :| e in es && e.0 == t;
      var j :| 0 <= j < |es| && es[j] == e;
      assert RowEntry(k, toEpoch, n, rows[j]).0 == t;
    }
    if exists j :: 0 <= j < |rows| && RowEntry(k, toEpoch, n, rows[j]).0 == t {
      var j :| 0 <= j < |rows| && RowEntry(k, toEpoch, n, rows[j]).0 == t;
      assert es[j] in es;
    }
  }

  /** The checks load runs before it prepares any statement, in order: the
      table exists, its column list can be read, it has the record's
      columns, and the range is not reversed. */
  function Validate(tables: map<string, Option<seq<string>>>, k: Kind, table: string,
                    start: Option<int>, end: Option<int>): Option<ushort>
  {
    if table !in tables then Some(InvalidTableName)
    else if tables[table].None? then Some(ServerError)
    else if !ColumnsMatch(tables[table].value, Names(k)) then Some(ColumnMismatch)
    else if start.Some? && end.Some? && start.value > end.value then Some(InvalidDateRange)
    else None
  }

  /** What load does to the series' map and what it raises, from the
      connection state it starts in. */
  function LoadSpec(db: Database, wasConnected: bool, k: Kind, table: string,
                    start: Option<int>, end: Option<int>, toEpoch: string -> Option<int>, m: TimeMap)
    : (TimeMap, Option<LoadError>)
  {
    if !wasConnected && ConnectError(db.connect).Some? then
      (m, Some(InterfaceError(TsdbInterfaceException(ConnectError(db.connect).value))))
    else if Validate(db.tables, k, table, start, end).Some? then
      (m, Some(InterfaceError(TsdbInterfaceException(Validate(db.tables, k, table, start, end).value))))
    else QueryOutcome(db.run(BuildQuery(k, table, start, end)), k, toEpoch, m)
  }

  /** The try block of load once the statement is prepared: any SQL error,
      before the first row or after the last, becomes code 3. */
  function QueryOutcome(a: Answer, k: Kind, toEpoch: string -> Option<int>, m: TimeMap): (TimeMap, Option<LoadError>)
  {
    match a
    case SqlError => (m, Some(InterfaceError(TsdbInterfaceException(LoadFailed))))
    case ResultSet(n, rows, failsAfterRows) =>
      var (m', err) := IngestRows(k, toEpoch, n, rows, m);
      if err.None? && failsAfterRows then (m', Some(InterfaceError(TsdbInterfaceException(LoadFailed))))
      else (m', err)
  }

  /** How the pre-query checks settle: a missing table is code 2 whatever
      else holds, an unreadable column list code 7, a table lacking one of
      the record's names code 5 (column order and extra columns do not
      matter), and only then a reversed pair of bounds code 4; a missing
      bound never counts as reversed. */
  lemma ValidateDecides(db: Database, k: Kind, table: string, start: Option<int>, end: Option<int>)
    ensures table !in db.tables ==> Validate(db.tables, k, table, start, end) == Some(InvalidTableName)
    ensures table in db.tables && db.tables[table].None? ==> Validate(db.tables, k, table, start, end) == Some(ServerError)
    ensures table in db.tables && db.tables[table].Some? ==>
              (!HasColumns(db.tables[table].value, Names(k))
               <==> Validate(db.tables, k, table, start, end) == Some(ColumnMismatch))
    ensures table in db.tables && db.tables[table].Some? && HasColumns(db.tables[table].value, Names(k)) ==>
              Validate(db.tables, k, table, start, end)
              == (if start.Some? && end.Some? && start.value > end.value then Some(InvalidDateRange) else None)
  {
    if table in db.tables && db.tables[table].Some? {
      var cols := db.tables[table].value;
      ColumnsMatchIffContained(cols, Names(k));
      assert ColumnsMatch(cols, Names(k)) <==> HasColumns(cols, Names(k));
      var rest := if start.Some? && end.Some? && start.value > end.value then Some(InvalidDateRange) else None;
      assert rest != Some(ColumnMismatch);
      assert Validate(db.tables, k, table, start, end) == if !ColumnsMatch(cols, Names(k)) then Some(ColumnMismatch) else rest;
    }
  }

  /** A load stopped by a check fails with a TSDBInterfaceException, leaves
      the series as it was, and does so whatever the server would have
      answered to the query: no statement is prepared before the checks. */
  lemma ChecksPrecedeQuery(db: Database, wasConnected: bool, k: Kind, table: string,
                           start: Option<int>, end: Option<int>, toEpoch: string -> Option<int>, m: TimeMap,
                           other: Query -> Answer)
    requires (!wasConnected && ConnectError(db.connect).Some?) || Validate(db.tables, k, table, start, end).Some?
    ensures LoadSpec(db, wasConnected, k, table, start, end, toEpoch, m).0 == m
    ensures LoadSpec(db, wasConnected, k, table, start, end, toEpoch, m).1.Some?
    ensures LoadSpec(db, wasConnected, k, table, start, end, toEpoch, m).1.value.InterfaceError?
    ensures LoadSpec(db, wasConnected, k, table, start, end, toEpoch, m)
            == LoadSpec(db.(run := other), wasConnected, k, table, start, end, toEpoch, m)
  {
    var db' := db.(run := other);
    assert db'.connect == db.connect && db'.tables == db.tables;
  }

  /** Once the statement is prepared, the query alone decides the
      outcome. */
  lemma PassedChecksRunQuery(db: Database, wasConnected: bool, k: Kind, table: string,
                             start: Option<int>, end: Option<int>, toEpoch: string -> Option<int>, m: TimeMap)
    requires wasConnected || ConnectError(db.connect).None?
    requires Validate(db.tables, k, table, start, end).None?
    ensures LoadSpec(db, wasConnected, k, table, start, end, toEpoch, m)
            == QueryOutcome(db.run(BuildQuery(k, table, start, end)), k, toEpoch, m)
  {
  }

  /** A load on an interface that is already connected never calls
      connect(): it behaves as a first load against a server whose
      connection attempt succeeds, whatever that attempt would have done. */
  lemma ConnectedLoadSkipsConnect(db: Database, k: Kind, table: string,
                                  start: Option<int>, end: Option<int>, toEpoch: string -> Option<int>, m: TimeMap)
    ensures LoadSpec(db, true, k, table, start, end, toEpoch, m)
            == LoadSpec(db.(connect := Accepts), false, k, table, start, end, toEpoch, m)
  {
    var db' := db.(connect := Accepts);
    assert db'.tables == db.tables && db'.run == db.run;
  }

  /** For a result set: the load raises nothing exactly when every row
      loads and the cursor ends cleanly; what the series held survives in
      every case; and an empty result set leaves the series unchanged. */
  lemma ResultSetOutcome(a: Answer, k: Kind, toEpoch: string -> Option<int>, m: TimeMap)
    requires a.ResultSet?
    ensures QueryOutcome(a, k, toEpoch, m).1.None?
            <==> !a.failsAfterRows && forall i :: 0 <= i < |a.rows| ==> RowLoads(k, toEpoch, a.columnCount, a.rows[i])
    ensures forall t :: t in m ==> t in QueryOutcome(a, k, toEpoch, m).0 && QueryOutcome(a, k, toEpoch, m).0[t] == m[t]
    ensures a.rows == [] ==> QueryOutcome(a, k, toEpoch, m) == (m, if a.failsAfterRows then Some(InterfaceError(TsdbInterfaceException(LoadFailed))) else None)
  {
    IngestSucceedsIff(k, toEpoch, a.columnCount, a.rows, m);
    IngestKeepsExisting(k, toEpoch, a.columnCount, a.rows, m);
  }

  /** A row that loads, at a timestamp the series does not hold yet, adds
      exactly its entry. */
  lemma IngestOneRow(k: Kind, toEpoch: string -> Option<int>, n: ColumnCount, row: Row, rest: seq<Row>, m: TimeMap)
    requires RowLoads(k, toEpoch, n, row) && RowEntry(k, toEpoch, n, row).0 !in m
    ensures IngestRows(k, toEpoch, n, [row] + rest, m)
            == IngestRows(k, toEpoch, n, rest, m[RowEntry(k, toEpoch, n, row).0 := RowEntry(k, toEpoch, n, row).1])
  {
    assert ([row] + rest)[0] == row && ([row] + rest)[1..] == rest;
  }

  lemma AscendingPair(t1: int, t2: int)
    requires t1 < t2
    ensures Ascending({t1, t2}) == [t1, t2]
  {
    var ks := Ascending({t1, t2});
    assert ks[0] in {t1, t2} && ks[1] in {t1, t2} && ks[0] < ks[1];
  }

  /** Two loading rows with increasing timestamps, read into an empty
      series, give a series of two records in that order, each built from
      its own row's columns. */
  lemma TwoRowsLoad(k: Kind, toEpoch: string -> Option<int>, n: ColumnCount, r1: Row, r2: Row)
    requires RowLoads(k, toEpoch, n, r1) && RowLoads(k, toEpoch, n, r2)
    requires RowEntry(k, toEpoch, n, r1).0 < RowEntry(k, toEpoch, n, r2).0
    ensures IngestRows(k, toEpoch, n, [r1, r2], map[])
            == (map[toEpoch(r1.stamp).value := FromVector(k, r1.cells[..n - 1]).value,
                    toEpoch(r2.stamp).value := FromVector(k, r2.cells[..n - 1]).value], None)
    ensures Ascending(IngestRows(k, toEpoch, n, [r1, r2], map[]).0.Keys) == [toEpoch(r1.stamp).value, toEpoch(r2.stamp).value]
  {
    var (t1, d1) := RowEntry(k, toEpoch, n, r1);
    var (t2, d2) := RowEntry(k, toEpoch, n, r2);
    IngestOneRow(k, toEpoch, n, r1, [r2], map[]);
    IngestOneRow(k, toEpoch, n, r2, [], map[t1 := d1]);
    assert [r1, r2] == [r1] + [r2];
    assert [r2] == [r2] + [];
    assert map[t1 := d1, t2 := d2].Keys == {t1, t2};
    AscendingPair(t1, t2);
  }

  /** The columns each record kind needs (by ColumnsMatchIffContained, what
      the check asks for), in whatever position and beside whatever other
      columns: OHLC bars need open, high, low and close (a
      table without `close` is a column mismatch), OHLCV bars those and
      volume, quotes bid and ask. */
  lemma KindsNeedTheirColumns(k: Kind, columns: seq<string>)
    ensures HasColumns(columns, Names(k)) <==>
              match k
              case OHLCKind => "open" in columns && "high" in columns && "low" in columns && "close" in columns
              case OHLCVKind => "open" in columns && "high" in columns && "low" in columns && "close" in columns
                                && "volume" in columns
              case BidAskKind => "bid" in columns && "ask" in columns
  {
    var names := Names(k);
    match k
    case OHLCKind =>
      assert forall c :: c in names <==> c == "open" || c == "high" || c == "low" || c == "close";
    case OHLCVKind =>
      assert forall c :: c in names <==> c == "open" || c == "high" || c == "low" || c == "close" || c == "volume";
    case BidAskKind =>
      assert forall c :: c in names <==> c == "bid" || c == "ask";
  }

  class Interface {
    const db: Database
    var connected: bool

    /** Interface(user, password): not yet connected. */
    constructor (db: Database)
      ensures this.db == db && !connected
    {
      this.db := db;
      connected := false;
    }

    /** connect(), reduced to its outcome. */
    method Connect() returns (err: Option<ushort>)
      modifies this
      ensures err == ConnectError(db.connect)
      ensures connected == (old(connected) || db.connect != Refuses)
    {
      err := ConnectError(db.connect);
      if db.connect != Refuses {
        connected := true;
      }
    }

    function HasTable(name: string): bool
    {
      name in db.tables
    }

    /** load<T>(series, table, start, end). The series is never cleared:
        rows are inserted next to what it holds. */
    method Load(series: TimeSeries, table: string, start: Option<int>, end: Option<int>,
                toEpoch: string -> Option<int>) returns (err: Option<LoadError>)
      requires series.Valid()
      modifies this, series
      ensures series.Valid()
      ensures series.meta == old(series.meta) && series.isLoaded == old(series.isLoaded)
      ensures connected == (old(connected) || db.connect != Refuses)
      ensures (series.data, err) == LoadSpec(db, old(connected), series.kind, table, start, end, toEpoch, old(series.data))
    {
      if !connected {
        var e := Connect();
        if e.Some? {
          return Some(InterfaceError(TsdbInterfaceException(e.value)));
        }
      }
      ghost var checked := Validate(db.tables, series.kind, table, start, end);
      if !HasTable(table) {
        assert checked == Some(InvalidTableName);
        return Some(InterfaceError(TsdbInterfaceException(InvalidTableName)));
      }
      var columns := db.tables[table];
      if columns.None? {
        assert checked == Some(ServerError);
        return Some(InterfaceError(TsdbInterfaceException(ServerError)));
      }
      if !ColumnsMatch(columns.value, Names(series.kind)) {
        assert checked == Some(ColumnMismatch);
        return Some(InterfaceError(TsdbInterfaceException(ColumnMismatch)));
      }
      if start.Some? && end.Some? && start.value > end.value {
        assert checked == Some(InvalidDateRange);
        return Some(InterfaceError(TsdbInterfaceException(InvalidDateRange)));
      }
      assert checked == None;
      PassedChecksRunQuery(db, old(connected), series.kind, table, start, end, toEpoch, series.data);
      var answer := db.run(BuildQuery(series.kind, table, start, end));
      if answer.SqlError? {
        return Some(InterfaceError(TsdbInterfaceException(LoadFailed)));
      }
      err := Ingest(series, toEpoch, answer.columnCount, answer.rows);
      if err.None? && answer.failsAfterRows {
        err := Some(InterfaceError(TsdbInterfaceException(LoadFailed)));
      }
    }

    /** The while (res->next()) loop of load. */
    method Ingest(series: TimeSeries, toEpoch: string -> Option<int>, numCols: ColumnCount, rows: seq<Row>)
      returns (err: Option<LoadError>)
      requires series.Valid()
      modifies series
      ensures series.Valid()
      ensures series.meta == old(series.meta) && series.isLoaded == old(series.isLoaded)
      ensures (series.data, err) == IngestRows(series.kind, toEpoch, numCols, rows, old(series.data))
    {
      var i := 0;
      while i < |rows|
        invariant 0 <= i <= |rows|
        invariant series.Valid()
        invariant series.meta == old(series.meta) && series.isLoaded == old(series.isLoaded)
        invariant IngestRows(series.kind, toEpoch, numCols, rows, old(series.data))
                  == IngestRows(series.kind, toEpoch, numCols, rows[i..], series.data)
      {
        assert rows[i..][0] == rows[i] && rows[i..][1..] == rows[i + 1..];
        var cells := ReadCells(rows[i].cells, numCols);
        if cells.None? {
          return Some(InterfaceError(TsdbInterfaceException(LoadFailed)));
        }
        var stamp := toEpoch(rows[i].stamp);
        if stamp.None? {
          return Some(TimeFormatError(rows[i].stamp));
        }
        var record := FromVector(series.kind, cells.value);
        if record.Failure? {
          return Some(RecordError(record.error));
        }
        var inserted := series.Insert(stamp.value, record.value);
        i := i + 1;
      }
      err := None;
    }
  }

  /** The inner loop over columns 2..numCols of one row (getDouble(i));
      reading past the row's end is an SQL error, which load reports as
      code 3. */
  method ReadCells(cells: seq<real>, numCols: ColumnCount) returns (row: Option<seq<real>>)
    ensures row.Some? <==> |cells| >= numCols - 1
    ensures row.Some? ==> row.value == cells[..numCols - 1]
  {
    var acc: seq<real> := [];
    var c := 2;
    while c <= numCols
      invariant 2 <= c <= numCols + 1
      invariant c - 2 <= |cells|
      invariant acc == cells[..c - 2]
    {
      if c - 2 == |cells| {
        return None;
      }
      acc := acc + [cells[c - 2]];
      c := c + 1;
    }
    return Some(acc);
  }
}
