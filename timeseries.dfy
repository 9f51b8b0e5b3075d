/** TimeSeries<T> of lib/timeseries.hpp: a std::map from unix timestamps
    to one record each, a meta string and a loaded flag. The map keeps its
    keys unique and ascending; the `values` and `timestamps` memberspaces
    are two read-only traversals of that same map. The template argument T
    becomes the constant `kind`, and Valid() says every stored record is
    of that kind, which the C++ type system guarantees. */
module TimeSeriesStore {
  import opened Wrappers
  import opened DataPoints

  /** std::map<time_t, T>; time_t is an unbounded int here. */
  type TimeMap = map<int, DataPoint>

  /** std::out_of_range, thrown by map::at. */
  datatype OutOfRange = OutOfRange

  predicate StrictlyIncreasing(s: seq<int>)
  {
    forall i, j :: 0 <= i < j < |s| ==> s[i] < s[j]
  }

  /** A set is empty or has a member. */
  lemma EmptyOrWitness(s: set<int>)
    ensures s == {} || exists y :: y in s
  {
    if forall y :: y !in s {
      assert s == {};
    }
  }

  lemma {:induction false} MinExists(s: set<int>)
    requires s != {}
    ensures exists m :: m in s && forall x :: x in s ==> m <= x
    decreases |s|
  {
    EmptyOrWitness(s);
    var y :| y in s;
    if s == {y} {
      assert forall x :: x in s ==> y <= x;
    } else {
      MinExists(s - {y});
      var lo :| lo in s - {y} && forall x :: x in s - {y} ==> lo <= x;
      var m := if y <= lo then y else lo;
      forall x | x in s ensures m <= x {
        if x != y { assert x in s - {y}; }
      }
      assert m in s;
    }
  }

  lemma {:induction false} MaxExists(s: set<int>)
    requires s != {}
    ensures exists m :: m in s && forall x :: x in s ==> x <= m
    decreases |s|
  {
    EmptyOrWitness(s);
    var y :| y in s;
    if s == {y} {
      assert forall x :: x in s ==> x <= y;
    } else {
      MaxExists(s - {y});
      var hi :| hi in s - {y} && forall x :: x in s - {y} ==> x <= hi;
      var m := if hi <= y then y else hi;
      forall x | x in s ensures x <= m {
        if x != y { assert x in s - {y}; }
      }
      assert m in s;
    }
  }

  /** The smallest key: what begin() points at. */
  function SetMin(s: set<int>): (m: int)
    requires s != {}
    ensures m in s && forall x :: x in s ==> m <= x
  {
    MinExists(s);
    var m :| m in s && forall x :: x in s ==> m <= x;
    m
  }

  /** The largest key: what rbegin() points at. */
  function SetMax(s: set<int>): (m: int)
    requires s != {}
    ensures m in s && forall x :: x in s ==> x <= m
  {
    MaxExists(s);
    var m :| m in s && forall x :: x in s ==> x <= m;
    m
  }

  /** The order in which a std::map visits its keys: every key once,
      smallest first. */
  function Ascending(s: set<int>): (r: seq<int>)
    ensures |r| == |s|
    ensures forall x :: x in r <==> x in s
    ensures StrictlyIncreasing(r)
    decreases s
  {
    if s == {} then []
    else
      var m := SetMin(s);
      var rest := Ascending(s - {m});
      PrependSmallest(m, rest);
      [m] + rest
  }

  lemma PrependSmallest(m: int, rest: seq<int>)
    requires StrictlyIncreasing(rest) && forall x :: x in rest ==> m < x
    ensures StrictlyIncreasing([m] + rest)
    ensures forall x :: x in [m] + rest <==> x == m || x in rest
  {
    var r := [m] + rest;
    forall i, j | 0 <= i < j < |r| ensures r[i] < r[j] {
      assert r[j] == rest[j - 1] && rest[j - 1] in rest;
      if i > 0 { assert r[i] == rest[i - 1]; }
    }
  }

  /** One step of the in-order walk: the smallest remaining key comes next. */
  lemma AscendingStep(prefix: seq<int>, s: set<int>)
    requires s != {}
    ensures prefix + Ascending(s) == (prefix + [SetMin(s)]) + Ascending(s - {SetMin(s)})
  {
    var k := SetMin(s);
    assert Ascending(s) == [k] + Ascending(s - {k});
  }

  /** The records of a map in key order: what the `values` view yields. */
  function ValuesInOrder(m: TimeMap): (vs: seq<DataPoint>)
    ensures |vs| == |m|
    ensures forall i :: 0 <= i < |vs| ==> Ascending(m.Keys)[i] in m && vs[i] == m[Ascending(m.Keys)[i]]
  {
    var ks := Ascending(m.Keys);
    assert |ks| == |m.Keys| == |m|;
    assert forall i :: 0 <= i < |ks| ==> ks[i] in ks;
    seq(|ks|, i requires 0 <= i < |ks| => m[ks[i]])
  }

  /** std::map::insert: the pair is added only when its key is absent, and
      the flag says whether it was; an existing entry is never overwritten. */
  function MapInsert(m: TimeMap, t: int, v: DataPoint): (r: (TimeMap, bool))
    ensures r.1 <==> t !in m
    ensures r.1 ==> r.0.Keys == m.Keys + {t} && |r.0| == |m| + 1 && r.0[t] == v
    ensures !r.1 ==> r.0 == m
    ensures forall k :: k in m ==> k in r.0 && r.0[k] == m[k]
  {
    if t in m then (m, false)
    else
      assert (m[t := v]).Keys == m.Keys + {t};
      (m[t := v], true)
  }

  /** The first and last timestamps of the `timestamps` view are the
      smallest and the largest key. */
  lemma {:induction false} ViewEndsAreExtremes(m: TimeMap)
    requires |m| > 0
    ensures Ascending(m.Keys)[0] == SetMin(m.Keys)
    ensures Ascending(m.Keys)[|m| - 1] == SetMax(m.Keys)
  {
    var ks := Ascending(m.Keys);
    var hi := SetMax(m.Keys);
    assert hi in ks;
    var j :| 0 <= j < |ks| && ks[j] == hi;
    var last := ks[|ks| - 1];
    forall i | 0 <= i < |ks| ensures ks[i] <= last {
      if i < |ks| - 1 { assert ks[i] < last; }
    }
    assert hi <= last;
    assert last in m.Keys;
  }

  /** Unique timestamps inserted one after another, in any order, come back
      from the `timestamps` view sorted ascending: the view depends only on
      the set of keys. */
  function InsertAll(m: TimeMap, entries: seq<(int, DataPoint)>): TimeMap
    decreases |entries|
  {
    if entries == [] then m
    else InsertAll(MapInsert(m, entries[0].0, entries[0].1).0, entries[1..])
  }

  lemma {:induction false} InsertAllKeys(m: TimeMap, entries: seq<(int, DataPoint)>, t: int)
    ensures t in InsertAll(m, entries) <==> t in m || exists e :: e in entries && e.0 == t
    decreases |entries|
  {
    if entries != [] {
      var m' := MapInsert(m, entries[0].0, entries[0].1).0;
      InsertAllKeys(m', entries[1..], t);
      assert forall e :: e in entries <==> e == entries[0] || e in entries[1..];
    }
  }

  /** Inserting never overwrites: what the map held is still there. */
  lemma {:induction false} InsertAllKeepsExisting(m: TimeMap, entries: seq<(int, DataPoint)>)
    ensures forall t :: t in m ==> t in InsertAll(m, entries) && InsertAll(m, entries)[t] == m[t]
    decreases |entries|
  {
    if entries != [] {
      InsertAllKeepsExisting(MapInsert(m, entries[0].0, entries[0].1).0, entries[1..]);
    }
  }

  /** Of several entries with one timestamp, the first one inserted is the
      one the map keeps. */
  lemma {:induction false} InsertAllFirstWins(m: TimeMap, entries: seq<(int, DataPoint)>, i: int)
    requires 0 <= i < |entries| && entries[i].0 !in m
    requires forall j :: 0 <= j < i ==> entries[j].0 != entries[i].0
    ensures entries[i].0 in InsertAll(m, entries) && InsertAll(m, entries)[entries[i].0] == entries[i].1
    decreases |entries|
  {
    var m' := MapInsert(m, entries[0].0, entries[0].1).0;
    if i == 0 {
      InsertAllKeepsExisting(m', entries[1..]);
    } else {
      assert entries[1..][i - 1] == entries[i];
      InsertAllFirstWins(m', entries[1..], i - 1);
    }
  }

  lemma InsertionOrderIrrelevant(entries: seq<(int, DataPoint)>, shuffled: seq<(int, DataPoint)>)
    requires multiset(entries) == multiset(shuffled)
    ensures Ascending(InsertAll(map[], entries).Keys) == Ascending(InsertAll(map[], shuffled).Keys)
    ensures StrictlyIncreasing(Ascending(InsertAll(map[], entries).Keys))
  {
    var a, b := InsertAll(map[], entries), InsertAll(map[], shuffled);
    forall t ensures t in a.Keys <==> t in b.Keys {
      InsertAllKeys(map[], entries, t);
      InsertAllKeys(map[], shuffled, t);
      forall e ensures e in entries <==> e in shuffled {
        assert e in entries <==> e in multiset(entries);
        assert e in shuffled <==> e in multiset(shuffled);
      }
    }
    assert a.Keys == b.Keys;
  }

  class TimeSeries {
    const kind: Kind
    var data: TimeMap
    var meta: string
    var isLoaded: bool

    ghost predicate Valid()
      reads this
    {
      forall t :: t in data ==> data[t].KindOf() == kind
    }

    /** TimeSeries(meta = ""): empty, not loaded. */
    constructor (kind: Kind, meta: string)
      ensures Valid() && this.kind == kind
      ensures data == map[] && this.meta == meta && !isLoaded
    {
      this.kind := kind;
      data := map[];
      this.meta := meta;
      isLoaded := false;
    }

    /** Copy constructor. */
    constructor Copy(ts: TimeSeries)
      requires ts.Valid()
      ensures Valid() && kind == ts.kind
      ensures data == ts.data && meta == ts.meta && isLoaded == ts.isLoaded
    {
      kind := ts.kind;
      data := ts.data;
      meta := ts.meta;
      isLoaded := ts.isLoaded;
    }

    /** Move constructor: takes over the source's state and clears its
        loaded flag; the moved-from map and string are left valid but
        unspecified, so nothing is promised about them. */
    constructor Move(ts: TimeSeries)
      requires ts.Valid()
      modifies ts
      ensures Valid() && kind == ts.kind
      ensures data == old(ts.data) && meta == old(ts.meta) && isLoaded == old(ts.isLoaded)
      ensures ts.Valid() && !ts.isLoaded
    {
      kind := ts.kind;
      data := ts.data;
      meta := ts.meta;
      isLoaded := ts.isLoaded;
      new;
      ts.isLoaded := false;
    }

    /** operator=(const TimeSeries&): copies unless assigning to itself. */
    method CopyAssign(rhs: TimeSeries)
      requires Valid() && rhs.Valid() && rhs.kind == kind
      modifies this
      ensures Valid()
      ensures data == old(rhs.data) && meta == old(rhs.meta) && isLoaded == old(rhs.isLoaded)
      ensures rhs == this ==> data == old(data) && meta == old(meta) && isLoaded == old(isLoaded)
    {
      if this != rhs {
        data := rhs.data;
        meta := rhs.meta;
        isLoaded := rhs.isLoaded;
      }
    }

    /** operator=(TimeSeries&&): takes over rhs's state and clears its loaded
        flag; rhs's map and string are left unspecified. */
    method MoveAssign(rhs: TimeSeries)
      requires Valid() && rhs.Valid() && rhs.kind == kind
      modifies this, rhs
      ensures Valid() && rhs.Valid()
      ensures data == old(rhs.data) && meta == old(rhs.meta) && isLoaded == old(rhs.isLoaded)
      ensures rhs != this ==> !rhs.isLoaded
    {
      if this != rhs {
        meta := rhs.meta;
        data := rhs.data;
        isLoaded := rhs.isLoaded;
        rhs.isLoaded := false;
      }
    }

    /** assign(TimeSeries rhs): copy-and-swap with a by-value copy of rhs. */
    method Assign(rhs: TimeSeries)
      requires Valid() && rhs.Valid() && rhs.kind == kind
      modifies this
      ensures Valid()
      ensures data == old(rhs.data) && meta == old(rhs.meta) && isLoaded == old(rhs.isLoaded)
    {
      var copy := new TimeSeries.Copy(rhs);
      Swap(this, copy);
    }

    /** The three insert overloads (copy, move, emplace) share one meaning:
        first write wins, and the result says whether the pair went in. */
    method Insert(t: int, v: DataPoint) returns (inserted: bool)
      requires Valid() && v.KindOf() == kind
      modifies this
      ensures Valid()
      ensures (data, inserted) == MapInsert(old(data), t, v)
      ensures inserted <==> t !in old(data)
      ensures inserted ==> |data| == |old(data)| + 1 && data[t] == v
      ensures !inserted ==> data == old(data)
      ensures forall k :: k in old(data) ==> k in data && data[k] == old(data)[k]
      ensures meta == old(meta) && isLoaded == old(isLoaded)
    {
      var r := MapInsert(data, t, v);
      data, inserted := r.0, r.1;
    }

    /** on(t): the record stored under t, or "not found" (end()). */
    function On(t: int): (r: Option<DataPoint>)
      reads this
      ensures r.Some? <==> t in TimestampView()
      ensures r.Some? ==> r.value == data[t]
    {
      if t in data then Some(data[t]) else None
    }

    /** operator[](k): map::at, which throws std::out_of_range for a missing
        key; otherwise the record on(k) finds. */
    function At(t: int): (r: Result<DataPoint, OutOfRange>)
      reads this
      ensures r.Failure? <==> On(t).None?
      ensures r.Success? ==> r.value == On(t).value
    {
      if t in data then Success(data[t]) else Failure(OutOfRange)
    }

    /** first(): the smallest timestamp; begin() is only meaningful on a
        non-empty series. */
    function First(): (t: int)
      reads this
      requires |data| > 0
      ensures t in data && forall k :: k in data ==> t <= k
    {
      SetMin(data.Keys)
    }

    /** last(): the largest timestamp, read through rbegin() on a non-empty
        series. */
    function Last(): (t: int)
      reads this
      requires |data| > 0
      ensures t in data && forall k :: k in data ==> k <= t
    {
      SetMax(data.Keys)
    }

    /** get_timestamps(): copies the keys into a fresh vector by back
        insertion while walking the map in order. */
    method GetTimestamps() returns (ts: seq<int>)
      ensures StrictlyIncreasing(ts)
      ensures |ts| == |data|
      ensures forall t :: t in ts <==> t in data
      ensures ts == TimestampView()
    {
      ts := [];
      var rest := data.Keys;
      while rest != {}
        invariant ts + Ascending(rest) == Ascending(data.Keys)
        decreases rest
      {
        var k := SetMin(rest);
        AscendingStep(ts, rest);
        ts := ts + [k];
        rest := rest - {k};
      }
      assert ts + [] == ts;
    }

    /** The `timestamps` memberspace, fully traversed. */
    function TimestampView(): (ts: seq<int>)
      reads this
      ensures StrictlyIncreasing(ts) && |ts| == |data|
      ensures forall t :: t in ts <==> t in data
    {
      Ascending(data.Keys)
    }

    /** The `values` memberspace, fully traversed: one record per entry, and
        the i-th record is the one stored under the i-th timestamp. */
    function ValueView(): (vs: seq<DataPoint>)
      reads this
      ensures |vs| == |TimestampView()|
      ensures forall i :: 0 <= i < |vs| ==> vs[i] == data[TimestampView()[i]]
    {
      ValuesInOrder(data)
    }

    function Size(): (n: nat)
      reads this
      ensures n == |TimestampView()| && n == |ValueView()|
    {
      |data|
    }

    function IsEmpty(): (b: bool)
      reads this
      ensures b <==> Size() == 0
    {
      data == map[]
    }

    function IsLoaded(): bool
      reads this
    {
      isLoaded
    }

    function Meta(): string
      reads this
    {
      meta
    }

    /** column_names(): the column names of the record type, one per field of
        every stored record. */
    function ColumnNames(): (r: seq<string>)
      reads this
      requires Valid()
      ensures |r| == FieldCount(kind)
      ensures forall i, j :: 0 <= i < j < |r| ==> r[i] != r[j]
      ensures forall t :: t in data ==> |ToVector(data[t])| == |r|
    {
      Names(kind)
    }

    /** clear(): empties the map; meta and the loaded flag stay. */
    method Clear()
      requires Valid()
      modifies this
      ensures Valid() && data == map[] && IsEmpty()
      ensures meta == old(meta) && isLoaded == old(isLoaded)
    {
      data := map[];
    }

    method SetMeta(m: string)
      requires Valid()
      modifies this
      ensures Valid() && meta == m
      ensures data == old(data) && isLoaded == old(isLoaded)
    {
      meta := m;
    }
  }

  /** The friend swap: exchanges loaded flag, meta and data. */
  method Swap(ts1: TimeSeries, ts2: TimeSeries)
    requires ts1.Valid() && ts2.Valid() && ts1.kind == ts2.kind
    modifies ts1, ts2
    ensures ts1.Valid() && ts2.Valid()
    ensures ts1.data == old(ts2.data) && ts1.meta == old(ts2.meta) && ts1.isLoaded == old(ts2.isLoaded)
    ensures ts2.data == old(ts1.data) && ts2.meta == old(ts1.meta) && ts2.isLoaded == old(ts1.isLoaded)
  {
    var loaded, meta, data := ts1.isLoaded, ts1.meta, ts1.data;
    ts1.isLoaded, ts1.meta, ts1.data := ts2.isLoaded, ts2.meta, ts2.data;
    ts2.isLoaded, ts2.meta, ts2.data := loaded, meta, data;
  }

  /** Lookup agrees with the two views: a present timestamp finds the record
      at its position in the `values` view. */
  lemma OnAgreesWithViews(ts: TimeSeries, i: nat)
    requires i < ts.Size()
    ensures ts.On(ts.TimestampView()[i]) == Some(ts.ValueView()[i])
  {
  }

  /** first() and last() are the two ends of the `timestamps` view. */
  lemma FirstLastAreViewEnds(ts: TimeSeries)
    requires ts.Size() > 0
    ensures ts.First() == ts.TimestampView()[0]
    ensures ts.Last() == ts.TimestampView()[ts.Size() - 1]
  {
    ViewEndsAreExtremes(ts.data);
  }

  /** Inserting the same timestamp twice keeps the first record. */
  lemma SecondInsertIgnored(m: TimeMap, t: int, v1: DataPoint, v2: DataPoint)
    ensures var m1 := MapInsert(m, t, v1).0;
            !MapInsert(m1, t, v2).1 && MapInsert(m1, t, v2).0 == m1
            && |MapInsert(m1, t, v2).0| == |m1| && m1[t] == (if t in m then m[t] else v1)
  {
  }
}
