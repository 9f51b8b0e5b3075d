/** The fixed-schema records stored in a time series (lib/datapoint.hpp,
    lib/datapoint.cpp): open/high/low/close bars, bars with a volume, and
    bid/ask quotes; their ordered column names (dp_names); the positional
    vector constructors; and DataPointException. Prices are doubles in the
    source and `real` here; no arithmetic is done on them. */
module DataPoints {
  import opened Wrappers
  import Messages

  /** unsigned short, the type of both exception classes' codes. */
  newtype ushort = x: int | 0 <= x < 0x1_0000

  const BaseMessage: string := "DataPoint Exception: "

  const MessageTable: map<int, string> :=
    map[1000 := "Vector initialization failed. Index out of range.",
        0 := "Unknown DataPoint Exception."]

  /** The code every vector constructor raises on a short vector. */
  const VectorInitFailed: ushort := 1000

  datatype DataPointException = DataPointException(code: ushort)
  {
    /** what(): the base prefix, then the text for the code, or the code-0
        text when the table has no entry for it. */
    function What(): (r: string)
      ensures |r| >= |BaseMessage| && r[..|BaseMessage|] == BaseMessage
      ensures r[|BaseMessage|..] in MessageTable.Values
      ensures code as int in MessageTable ==> r[|BaseMessage|..] == MessageTable[code as int]
      ensures code as int !in MessageTable ==> r[|BaseMessage|..] == MessageTable[0]
    {
      Messages.Describe(BaseMessage, MessageTable, code as int)
    }
  }

  /** An unknown code is reported exactly as code 0 is. */
  lemma WhatFallsBackToZero(e: DataPointException)
    requires e.code as int !in MessageTable
    ensures e.What() == DataPointException(0).What()
  {
    Messages.UnknownReadsAsZero(BaseMessage, MessageTable, e.code as int);
  }

  /** The record type a series is instantiated with (the template argument T). */
  datatype Kind = OHLCKind | OHLCVKind | BidAskKind

  datatype DataPoint =
    | OHLC(open: real, high: real, low: real, close: real)
    | OHLCV(open: real, high: real, low: real, close: real, volume: int)
    | BidAsk(bid: real, ask: real)
  {
    function KindOf(): Kind
    {
      match this
      case OHLC(_, _, _, _) => OHLCKind
      case OHLCV(_, _, _, _, _) => OHLCVKind
      case BidAsk(_, _) => BidAskKind
    }
  }

  /** Number of data members of each record struct. */
  function FieldCount(k: Kind): nat
  {
    match k
    case OHLCKind => 4
    case OHLCVKind => 5
    case BidAskKind => 2
  }

  /** dp_names<T>(): the ordered column names of a specialised record type. */
  function Names(k: Kind): (r: seq<string>)
    ensures |r| == FieldCount(k)
    ensures forall i, j :: 0 <= i < j < |r| ==> r[i] != r[j]
  {
    match k
    case OHLCKind => ["open", "high", "low", "close"]
    case OHLCVKind => ["open", "high", "low", "close", "volume"]
    case BidAskKind => ["bid", "ask"]
  }

  /** The unspecialised dp_names<T>(): one empty name, which no specialised
      type shares. */
  function GenericNames(): (r: seq<string>)
    ensures |r| == 1
    ensures forall k: Kind :: r != Names(k)
  {
    [""]
  }

  /** double -> int conversion of the volume element: truncation toward zero. */
  function TruncateToInt(x: real): (n: int)
    ensures 0.0 <= x ==> n as real <= x < n as real + 1.0
    ensures x < 0.0 ==> n as real - 1.0 < x <= n as real
  {
    if 0.0 <= x then x.Floor else -((-x).Floor)
  }

  /** The vector constructors OHLC(init), OHLCV(init), BidAsk(init): read
      elements 0.. in column order with bounds-checked at(); a vector
      shorter than the field count raises DataPointException(1000). */
  function FromVector(k: Kind, init: seq<real>): (r: Result<DataPoint, DataPointException>)
    ensures r.Failure? <==> |init| < FieldCount(k)
    ensures r.Failure? ==> r.error == DataPointException(VectorInitFailed)
    ensures r.Success? ==> r.value.KindOf() == k
  {
    match k
    case OHLCKind =>
      if |init| < 4 then Failure(DataPointException(VectorInitFailed))
      else Success(OHLC(init[0], init[1], init[2], init[3]))
    case OHLCVKind =>
      if |init| < 5 then Failure(DataPointException(VectorInitFailed))
      else Success(OHLCV(init[0], init[1], init[2], init[3], TruncateToInt(init[4])))
    case BidAskKind =>
      if |init| < 2 then Failure(DataPointException(VectorInitFailed))
      else Success(BidAsk(init[0], init[1]))
  }

  /** Member access by column name (d.open, d.volume, ...), the volume read
      as a real; None for a name the record does not have. */
  function Get(d: DataPoint, name: string): Option<real>
  {
    match d
    case OHLC(o, h, l, c) =>
      if name == "open" then Some(o) else if name == "high" then Some(h)
      else if name == "low" then Some(l) else if name == "close" then Some(c)
      else None
    case OHLCV(o, h, l, c, v) =>
      if name == "open" then Some(o) else if name == "high" then Some(h)
      else if name == "low" then Some(l) else if name == "close" then Some(c)
      else if name == "volume" then Some(v as real)
      else None
    case BidAsk(b, a) =>
      if name == "bid" then Some(b) else if name == "ask" then Some(a)
      else None
  }

  /** The fields of a record in column order: the inverse of FromVector. */
  function ToVector(d: DataPoint): (r: seq<real>)
    ensures |r| == FieldCount(d.KindOf())
  {
    match d
    case OHLC(o, h, l, c) => [o, h, l, c]
    case OHLCV(o, h, l, c, v) => [o, h, l, c, v as real]
    case BidAsk(b, a) => [b, a]
  }

  /** The value FromVector stores for element x at position i of kind k. */
  function Stored(k: Kind, i: nat, x: real): real
  {
    if k == OHLCVKind && i == 4 then TruncateToInt(x) as real else x
  }

  /** The binding contract between the loader and the records: the field
      named by the i-th column name holds the i-th vector element. */
  lemma FromVectorPositional(k: Kind, init: seq<real>, i: nat)
    requires |init| >= FieldCount(k) && i < FieldCount(k)
    ensures Get(FromVector(k, init).value, Names(k)[i]) == Some(Stored(k, i, init[i]))
  {
  }

  /** Elements past the field count are never read. */
  lemma {:induction false} FromVectorReadsPrefixOnly(k: Kind, a: seq<real>, b: seq<real>)
    requires |a| >= FieldCount(k) && |b| >= FieldCount(k)
    requires a[..FieldCount(k)] == b[..FieldCount(k)]
    ensures FromVector(k, a) == FromVector(k, b)
  {
    var n := FieldCount(k);
    forall i | 0 <= i < n ensures a[i] == b[i] {
      assert a[i] == a[..n][i] && b[i] == b[..n][i];
    }
  }

  /** Building a record from its own field vector gives the record back, so
      a field constructor followed by the vector constructor stores every
      argument unchanged. */
  lemma VectorRoundTrip(d: DataPoint)
    ensures FromVector(d.KindOf(), ToVector(d)) == Success(d)
  {
  }

  /** Column names and field layout agree index for index. */
  lemma NamesIndexFields(d: DataPoint, i: nat)
    requires i < FieldCount(d.KindOf())
    ensures Get(d, Names(d.KindOf())[i]) == Some(ToVector(d)[i])
  {
  }

  /** Spelled out for a bar: [1, 2, 3, 4] is open 1, high 2, low 3, close 4. */
  lemma BarFromList()
    ensures FromVector(OHLCKind, [1.0, 2.0, 3.0, 4.0]) == Success(OHLC(1.0, 2.0, 3.0, 4.0))
    ensures FromVector(OHLCKind, [1.0, 2.0, 3.0]).Failure?
  {
  }
}
