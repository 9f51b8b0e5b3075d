# tsdb-backtester core in Dafny

This project models the data layer of the tsdb-backtester C++ library. It has three parts.

- **Record types** (`lib/datapoint.hpp`, `lib/datapoint.cpp`):
  - the `OHLC`, `OHLCV` and `BidAsk` structs;
  - their positional vector constructors, which throw `DataPointException(1000)` on a short vector;
  - the `dp_names<T>()` column-name lists;
  - `DataPointException::what`.
- **The ordered time series** (`lib/timeseries.hpp`): `TimeSeries<T>`, a `std::map<time_t, T>` with a meta string and a loaded flag. Covered:
  - construction, copy and move;
  - the three assignments and `swap`;
  - `insert`, where the first write wins;
  - the lookups `on` and `operator[]`;
  - `first`, `last` and `get_timestamps`;
  - the `values` and `timestamps` views;
  - the state queries and the meta accessors.
- **The loader** (`lib/tsdb.hpp`): `Interface::load`, `_columns_match_type` and `TSDBInterfaceException::what`. Covered:
  - the check order;
  - the text and bindings of the prepared statement;
  - the row loop;
  - how errors map to exception codes.

Files:

| file | module | contents |
|---|---|---|
| `wrappers.dfy` | `Wrappers` | `Option` and `Result` |
| `messages.dfy` | `Messages` | the what() message selection both exception classes share |
| `datapoint.dfy` | `DataPoints` | records, `Names`, `FromVector`, `DataPointException` |
| `string_order.dfy` | `StringOrder` | `std::string` ordering, `std::sort` and `std::includes` on name lists |
| `timeseries.dfy` | `TimeSeriesStore` | keyed-map helpers and the `TimeSeries` class |
| `tsdb.dfy` | `Tsdb` | the abstract database, the query, the row loop, and the `Interface` class with `Load` |

How the source maps onto the model:

- **`TimeSeries` class.** It keeps the source's fields (`data`, `meta`, `isLoaded`) and changes them in place.
  - The template argument `T` becomes the constant `kind`. `Valid()` says that every stored record has that kind.
  - The views are `seq`s read off the map in ascending key order (`Ascending`). This is the order a `std::map` visits its keys.
- **Loader.** `Interface.Load` is imperative, like `load`:
  - the checks run in sequence;
  - the `while (rset->next())` loop becomes `Ingest`;
  - the per-row `for` loop over columns 2..n becomes `ReadCells`.
- **Specification functions.** Each method is proved against one:
  - `Load` against `LoadSpec`;
  - `Ingest` against `IngestRows`;
  - `Insert` against `MapInsert`;
  - `GetTimestamps` against `Ascending`.

  The lemmas state what the source promises about these functions.
- **The MySQL server** is a `Database` value with three parts:
  - how `connect()` ends;
  - which tables `has_table` reports, and the `SHOW COLUMNS` result of each;
  - the answer to the prepared statement: an SQL error, or a result set of rows that may end in an SQL error.
- **Timestamp parsing** (`utilities::str_to_time_t`) is the parameter `toEpoch`. A string it cannot read gives `None`, which the model reports as `TimeFormatError`.
- **Missing bounds.** boost's `not_a_date_time` default for `start`/`end` is `None`. `start > end` is evaluated as `end < start`, which boost makes false when either bound is `not_a_date_time`; so code 4 is raised only when both bounds are present and reversed. A present bound is a whole number of seconds since the epoch.
- **Timestamps.** Every `time_t` key is an `int`. `First` and `Last` return that key itself; the source converts it with `bpt::from_time_t` and returns a `ptime`, which carries the same instant.

## Model

| member | source | states |
|---|---|---|
| Messages.Describe | lib/datapoint.hpp:69-76 | the message is the base prefix followed by a table text: the code's own text when the code is in the table, the code-0 text otherwise |
| Messages.UnknownReadsAsZero | lib/tsdb.hpp:92-94 | an unknown code produces exactly the code-0 message |
| Messages.KnownCodesDistinguished | lib/tsdb.cpp:39-47 | two known codes with different table texts never produce the same message |
| DataPoints.DataPointException.What | lib/datapoint.hpp:69-76 | "DataPoint Exception: " followed by the text for code 1000 or code 0, or the code-0 text for any other code |
| DataPoints.WhatFallsBackToZero | lib/datapoint.cpp:34-36 | any code outside {0, 1000} reads as the code-0 message |
| DataPoints.Names | lib/datapoint.hpp:146-159 | each specialised dp_names has one name per field of its struct, and no name twice |
| DataPoints.GenericNames | lib/datapoint.hpp:138-144 | the unspecialised list is a single name, different from every specialised list |
| DataPoints.TruncateToInt | lib/datapoint.cpp:61 | the double-to-int conversion of volume truncates toward zero, for both signs |
| DataPoints.FromVector | lib/datapoint.cpp:45-79 | the vector constructor fails exactly when the vector is shorter than the field count; the failure is DataPointException(1000); a success is the requested record type |
| DataPoints.ToVector | lib/datapoint.hpp:95-132 | a record's fields in column order, one per field |
| DataPoints.FromVectorPositional | lib/datapoint.cpp:45-79 | the field named by the i-th dp_names entry holds element i (truncated for volume) |
| DataPoints.FromVectorReadsPrefixOnly | lib/datapoint.cpp:59-65 | two vectors that agree on the first field-count elements build the same record: trailing elements are never read |
| DataPoints.VectorRoundTrip | lib/datapoint.cpp:41-79 | building a record from its own field vector gives that record back, so the field constructors store their arguments unchanged |
| DataPoints.NamesIndexFields | lib/datapoint.hpp:95-159 | the column names and the field layout agree index for index |
| DataPoints.BarFromList | lib/datapoint.cpp:45-51 | [1,2,3,4] is the bar open 1, high 2, low 3, close 4; a three-element vector fails |
| StringOrder.InsertInOrder | lib/tsdb.hpp:230-231 | inserting into a name list keeps the same multiset plus the new name |
| StringOrder.InsertInOrderSorted | lib/tsdb.hpp:230-231 | inserting into a sorted list keeps it sorted |
| StringOrder.Sort | lib/tsdb.hpp:230-231 | std::sort on the name lists returns a permutation of its input |
| StringOrder.SortSorted | lib/tsdb.hpp:230-231 | std::sort's result is sorted under std::string's operator< |
| StringOrder.LessTransitive | lib/tsdb.hpp:230-231 | std::string's lexicographic order is transitive, as std::sort needs |
| StringOrder.LessTrichotomy | lib/tsdb.hpp:230-231 | two different strings are ordered one way or the other |
| StringOrder.IncludesIsSubMultiset | lib/tsdb.hpp:233 | for sorted lists, std::includes holds exactly when the second list's multiset is contained in the first's |
| TimeSeriesStore.Ascending | lib/timeseries.hpp:300-336 | the timestamps walk visits every key exactly once, in strictly increasing order |
| TimeSeriesStore.ValuesInOrder | lib/timeseries.hpp:256-292 | the values walk yields, at position i, the record stored under the i-th timestamp |
| TimeSeriesStore.MapInsert | lib/timeseries.hpp:183-193 | the pair goes in exactly when its key is absent, with the flag saying so; a present key leaves the map unchanged; existing entries are never overwritten |
| TimeSeriesStore.ViewEndsAreExtremes | lib/timeseries.hpp:234-242 | the first and last keys of the walk are the smallest and largest timestamps |
| TimeSeriesStore.InsertAllKeys | lib/timeseries.hpp:183-193 | after a run of inserts, a timestamp is present exactly when it was present before or was one of the inserted ones |
| TimeSeriesStore.InsertAllKeepsExisting | lib/timeseries.hpp:183-193 | a run of inserts never changes an entry that was already there |
| TimeSeriesStore.InsertAllFirstWins | lib/timeseries.hpp:183-193 | of several inserts with one new timestamp, the first one's record is kept |
| TimeSeriesStore.InsertionOrderIrrelevant | lib/timeseries.hpp:300-336 | inserting the same entries in any order gives the same ascending timestamps view |
| TimeSeriesStore.TimeSeries.constructor | lib/timeseries.hpp:110-116 | a new series is empty, not loaded, and carries the given meta |
| TimeSeriesStore.TimeSeries.Copy | lib/timeseries.hpp:118-124 | the copy has the source's data, meta and loaded flag |
| TimeSeriesStore.TimeSeries.Move | lib/timeseries.hpp:127-136 | the new series takes over the source's state, and the source's loaded flag becomes false |
| TimeSeriesStore.TimeSeries.CopyAssign | lib/timeseries.hpp:149-156 | the target takes the rhs's data, meta and flag; self-assignment changes nothing |
| TimeSeriesStore.TimeSeries.MoveAssign | lib/timeseries.hpp:158-168 | the target takes over rhs's state; a distinct rhs has its loaded flag cleared |
| TimeSeriesStore.TimeSeries.Assign | lib/timeseries.hpp:143-146 | copy-and-swap: the target ends with rhs's data, meta and flag |
| TimeSeriesStore.Swap | lib/timeseries.hpp:171-178 | the two series exchange data, meta and loaded flag |
| TimeSeriesStore.TimeSeries.Insert | lib/timeseries.hpp:183-193 | the new map is MapInsert of the old one; the result is true exactly when the timestamp was absent; meta and the flag are untouched |
| TimeSeriesStore.TimeSeries.On | lib/timeseries.hpp:218-225 | a record is found exactly for the timestamps in the timestamps view, and it is the stored one |
| TimeSeriesStore.TimeSeries.At | lib/timeseries.hpp:230-232 | fails with out_of_range exactly when on() finds nothing, and otherwise returns the same record |
| TimeSeriesStore.TimeSeries.First | lib/timeseries.hpp:234-236 | on a non-empty series, the timestamp is stored and no stored timestamp is smaller |
| TimeSeriesStore.TimeSeries.Last | lib/timeseries.hpp:238-242 | on a non-empty series, the timestamp is stored and no stored timestamp is larger |
| TimeSeriesStore.TimeSeries.GetTimestamps | lib/timeseries.hpp:244-251 | the vector is strictly increasing, has one element per entry, holds exactly the stored timestamps, and equals the timestamps view |
| TimeSeriesStore.TimeSeries.TimestampView | lib/timeseries.hpp:300-336 | strictly increasing, one element per entry, exactly the stored timestamps |
| TimeSeriesStore.TimeSeries.ValueView | lib/timeseries.hpp:256-292 | as long as the timestamps view, and element i is the record stored under timestamp i |
| TimeSeriesStore.TimeSeries.Size | lib/timeseries.hpp:351-353 | equals the length of both views |
| TimeSeriesStore.TimeSeries.IsEmpty | lib/timeseries.hpp:347-349 | true exactly when size() is 0 |
| TimeSeriesStore.TimeSeries.ColumnNames | lib/timeseries.hpp:362-364 | one column name per field of every stored record |
| TimeSeriesStore.TimeSeries.Clear | lib/timeseries.hpp:355-357 | the series becomes empty; meta and the loaded flag stay |
| TimeSeriesStore.TimeSeries.SetMeta | lib/timeseries.hpp:370-372 | meta becomes the argument; data and the flag stay |
| TimeSeriesStore.OnAgreesWithViews | lib/timeseries.hpp:218-225 | looking up the i-th timestamp finds the i-th record of the values view |
| TimeSeriesStore.FirstLastAreViewEnds | lib/timeseries.hpp:234-242 | first() and last() are the two ends of the timestamps view |
| TimeSeriesStore.SecondInsertIgnored | lib/timeseries.hpp:183-193 | a second insert at the same timestamp returns false and changes nothing |
| Tsdb.TsdbInterfaceException.What | lib/tsdb.hpp:88-95 | "TSDB Interface Exception: " followed by the text for codes 0-7, or the code-0 text for any other code |
| Tsdb.InterfaceWhatFallsBackToZero | lib/tsdb.hpp:92-94 | a code outside 0-7 reads as the code-0 message |
| Tsdb.LoadCodesDistinguished | lib/tsdb.cpp:39-47 | codes 1 to 7 each have their own message |
| Tsdb.ColumnsMatch | lib/tsdb.hpp:222-236 | sorting both lists and running std::includes accepts exactly when the record's names, as a multiset, are contained in the table's columns |
| Tsdb.ColumnsMatchIffContained | lib/tsdb.hpp:222-236 | for a list of distinct names, the check holds exactly when every name is a column; order and extra columns do not matter |
| Tsdb.GenericTypeNeedsEmptyColumn | lib/tsdb.hpp:222-236 | for the unspecialised dp_names, the check holds exactly when the table has a column with an empty name |
| Tsdb.KindsNeedTheirColumns | lib/datapoint.hpp:146-159 | OHLC needs open, high, low and close; OHLCV needs those and volume; BidAsk needs bid and ask |
| Tsdb.QueryDeterminesBounds | lib/tsdb.hpp:156-178 | two statements for one table and kind are equal only when their bounds are, so each bound shape gets its own WHERE clause and bindings |
| Tsdb.PlaceholdersMatchBindings | lib/tsdb.hpp:156-178 | for a table name without '?', the statement has exactly one placeholder per bound value |
| Tsdb.IngestAllRows | lib/tsdb.hpp:190-197 | when every row loads, the loop inserts the rows' entries in order and raises nothing |
| Tsdb.IngestSucceedsIff | lib/tsdb.hpp:190-197 | the loop raises nothing exactly when every row loads |
| Tsdb.IngestStopsAtFirstFailure | lib/tsdb.hpp:186-202 | when row j is the first failing row, the series keeps the inserts of rows 0..j-1 (no rollback) and that row's error escapes |
| Tsdb.IngestKeepsExisting | lib/tsdb.hpp:190-197 | whatever the outcome, every entry the series held before the load is still there, unchanged |
| Tsdb.LoadedRowsStored | lib/tsdb.hpp:195 | a row's record, built from that row's columns 2..n only, is stored at its timestamp unless that timestamp was already held or used by an earlier row |
| Tsdb.LoadedKeys | lib/tsdb.hpp:190-197 | after a clean load, the timestamps are exactly the old ones plus one per row |
| Tsdb.IngestOneRow | lib/tsdb.hpp:195 | a loading row at a new timestamp adds exactly its entry |
| Tsdb.TwoRowsLoad | lib/tsdb.hpp:190-197 | two loading rows with increasing timestamps, loaded into an empty series, give those two records with their timestamps in that order |
| Tsdb.ValidateDecides | lib/tsdb.hpp:142-152 | missing table gives code 2 whatever else holds; unreadable column list gives 7; missing column gives 5 (both directions); and only then does a reversed pair of present bounds give 4 |
| Tsdb.ChecksPrecedeQuery | lib/tsdb.hpp:139-158 | a load stopped by connect or a check raises a TSDBInterfaceException, leaves the series unchanged, and its outcome does not depend on the server's query answer |
| Tsdb.PassedChecksRunQuery | lib/tsdb.hpp:154-202 | once the checks pass, the answer to the prepared statement alone decides the outcome |
| Tsdb.ResultSetOutcome | lib/tsdb.hpp:180-202 | a result set loads cleanly exactly when every row loads and the cursor ends without an SQL error; old entries survive; zero rows leave the series unchanged |
| Tsdb.ReadCells | lib/tsdb.hpp:192-193 | the column loop succeeds exactly when the row has at least numCols-1 value columns, and yields the first numCols-1 of them in order |
| StringOrder.Less | lib/tsdb.hpp:229-232 | the model of std::string's operator<: the first differing character decides, and a proper prefix is smaller; LessTransitive and LessTrichotomy state its order properties |
| StringOrder.Includes | lib/tsdb.hpp:232 | the model of std::includes on two sorted ranges; IncludesIsSubMultiset states what it computes |
| TimeSeriesStore.SetMin | lib/timeseries.hpp:234-236 | the key begin() points at: a member of the key set that no key is below |
| TimeSeriesStore.SetMax | lib/timeseries.hpp:238-242 | the key rbegin() points at: a member of the key set that no key is above |
| TimeSeriesStore.InsertAll | lib/timeseries.hpp:183-193 | the model of a run of inserts, one after another; InsertAllKeys, InsertAllKeepsExisting and InsertAllFirstWins state its result |
| Tsdb.Join | lib/tsdb.hpp:156 | the model of boost::algorithm::join: the parts with the separator between neighbours; JoinAvoids states that it adds no character absent from the parts and separator |
| Tsdb.SelectText | lib/tsdb.hpp:156-157 | the model of the bare SELECT of date_time and the record's columns; SelectHasNoPlaceholder states it holds no '?' when the table name holds none |
| Tsdb.RangeClause | lib/tsdb.hpp:160-178 | the WHERE clause chosen by which bounds are present, with the present bounds as bindings, start first |
| Tsdb.BuildQuery | lib/tsdb.hpp:156-178 | the statement text starts with the bare SELECT, and its bindings are the present bounds, start first |
| Tsdb.Validate | lib/tsdb.hpp:145-152 | the model of the pre-query checks in source order; ValidateDecides states which code each situation raises |
| Tsdb.LoadSpec | lib/tsdb.hpp:134-204 | the model of load from its connection state; ChecksPrecedeQuery, PassedChecksRunQuery and ConnectedLoadSkipsConnect state its cases |
| Tsdb.QueryOutcome | lib/tsdb.hpp:180-202 | the model of the try block once the statement is prepared, with every SQL error becoming code 3; ResultSetOutcome states its outcome |
| Tsdb.RowFailure | lib/tsdb.hpp:192-195 | the model of what a row that does not load raises: code 3 for a missing column, the timestamp conversion's error, or the record's DataPointException |
| Tsdb.IngestRows | lib/tsdb.hpp:190-197 | the model of the row loop; IngestAllRows, IngestSucceedsIff, IngestStopsAtFirstFailure and IngestKeepsExisting state its result |
| Tsdb.Interface.HasTable | lib/tsdb.cpp:127-149 | has_table, reduced to whether the server reports the table (an SQL error reads as absent) |
| Tsdb.Interface.constructor | lib/tsdb.cpp:52-65 | a new interface is not connected |
| Tsdb.Interface.Connect | lib/tsdb.cpp:75-99 | a refused login is code 1 and stays disconnected; an SQL error in a setup step after the login is code 1 with the connection left open; a non-UTC session is code 6 with the connection left open |
| Tsdb.Interface.Ingest | lib/tsdb.hpp:190-197 | the row loop's new map and error are IngestRows of the old map; meta and the flag are untouched |
| Tsdb.Interface.Load | lib/tsdb.hpp:134-204 | the series' new map and the raised error are LoadSpec of the connection state and old map; meta and the loaded flag are untouched; the interface is connected afterwards unless the server refused the login |
| Tsdb.ConnectedLoadSkipsConnect | lib/tsdb.hpp:142-143 | on an interface that is already connected, load never calls connect(), so its outcome is that of a first load against a server whose connection attempt succeeds |

## Left out

- The MySQL Connector calls are not modelled: `connect`, `disconnect`, `isConnected`, `has_table`, `get_column_names` and `get_table_dimensions`. They become parts of the `Database` value, which keeps only their outcomes: `has_table` answering false on an SQL error, code 2 or 7 from `get_column_names`, and codes 1 and 6 from `connect`.
- The console output is not modelled: `print_meta`, `_print_loading_MetaData`, `_print_SQLException`, `print_connection_info` and `print_metadata`. The `print_meta` argument of `load` is dropped with them.
- `lib/utilities.hpp` is not part of this model. Its date formatting (`bpt_to_str`, the bound values) is shown as the epoch values bound to the statement, and its parsing is the `toEpoch` parameter.
- `main.cpp` and `archive/` are not part of this model. The first is a demo driver, and the second is an unfinished earlier version.
- Strings are sequences of Unicode characters, where `std::string` compares bytes as `unsigned char`. Code-point order agrees with UTF-8 byte order, and column matching depends only on which names are equal, so the outcomes are the same.
- Floating point is real arithmetic. NaN, infinities and rounding are not modelled, and no record field is computed on.
- DataPoints.TruncateToInt: does not model the 32-bit range of `int volume`. Converting a double outside that range is undefined behaviour in C++.
- TimeSeriesStore.TimeSeries.Move: promises nothing about the moved-from map and meta string, which C++ leaves valid but unspecified. Only its cleared loaded flag is stated.
- TimeSeriesStore.TimeSeries.MoveAssign: promises nothing about the right-hand side's moved-from map and meta, for the same reason.
- TimeSeriesStore.TimeSeries.First: requires a non-empty series. On an empty map `begin()->first` is undefined.
- TimeSeriesStore.TimeSeries.Last: requires a non-empty series. The source's guard dereferences `begin()` of an empty map, which is undefined.
- TimeSeriesStore.TimeSeries.On: returns the record when present. The source body returns the mapped value where its comment and return type say iterator; the model follows the comment.
- TimeSeriesStore.TimeSeries.At: returns the record by value. `operator[]` returns a mutable reference, and writing through it is not modelled.
- TimeSeriesStore.TimeSeries.IsLoaded and TimeSeriesStore.TimeSeries.Meta are plain reads of their fields, with no contract of their own. No code in the library sets `_isLoaded` to true, and `Load` does not either.
- The iterator machinery is not modelled: `begin`/`end`/`rbegin`/`cbegin`/`cend` and the `transform_iterator` views with their `const_cast`. The views appear only as complete traversals (`TimestampView`, `ValueView`).
- The commented-out TODO operations of `TimeSeries` (resampling, frequency, `before`/`after`/`on_or_*`) are not modelled, because they have no code.
- The `what()` functions return `c_str()` of a temporary string. Only the choice of message is modelled.
- Tsdb.Interface.Load: C++ leaves unspecified which of `str_to_time_t(getString(1))` and `T(row)` runs first. When both would fail, the model reports the timestamp error.
- The first `prepareStatement` of the bare SELECT, which runs before the WHERE clause is added, is not modelled separately. An SQL error there is part of the `SqlError` answer and gives code 3, like any other SQL error in the try block.
- Bounds that are infinite (`pos_infin`, `neg_infin`) or carry fractions of a second are not modelled: a bound is an optional whole number of seconds. An infinite bound compares by order, so it can pass the range check. `bpt_to_str` then formats it as the nine-character "+infinity" or "-infinity", and `replace(10, 1, " ")` throws `std::out_of_range`. That is not an SQL error, so it escapes `load` uncaught.
- TimeSeriesStore.TimeSeries.Assign: models only an lvalue argument, which is copied into the by-value parameter. An rvalue argument is move-constructed into it instead, which also clears the caller's loaded flag as `Move` does.
- `row.reserve(num_cols-1)` is not modelled; a result set always has the `date_time` column, so `ColumnCount` is at least 1.
