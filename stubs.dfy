/**
 * The mocked `java.sql.ResultSet` (with its `ResultSetMetaData`) as an
 * explicit stub table. A Mockito `when(m(k)).thenReturn(v)` is a write of
 * `v` at `(m, k)`; a later write at the same place replaces an earlier one;
 * a lookup nobody stubbed answers with Mockito's default (0, false, null).
 * `next()` answers from a queue of consecutive answers whose last element
 * repeats for ever.
 */
module Stubs {
  import opened Wrappers

  /**
   * The by-label getters of `ResultSet` that the builder stubs, in the
   * order it stubs them (`getDouble` and `getFloat` are not modelled).
   */
  datatype Accessor =
    | GetArray | GetAsciiStream | GetBigDecimal | GetBinaryStream | GetBlob
    | GetBoolean | GetByte | GetBytes | GetCharacterStream | GetClob | GetDate
    | GetInt | GetLong | GetNCharacterStream | GetNClob | GetNString | GetObject
    | GetRef | GetRowId | GetShort | GetSqlXml | GetString | GetTime
    | GetTimestamp | GetUrl

  /** A value a getter answers with. */
  datatype Value =
    | Null                    // Java's null
    | Bool(b: bool)
    | Int(n: int)             // an int, short, long or byte result
    | Text(s: string)         // a String
    | Bytes(of: string)       // `of.getBytes()`: the text's bytes in the platform charset
    | FirstByte(of: string)   // `of.getBytes()[0]`

  /** What Mockito's default answer returns for a getter nobody stubbed. */
  function Default(acc: Accessor): Value {
    match acc
    case GetBoolean => Bool(false)
    case GetByte | GetInt | GetLong | GetShort => Int(0)
    case _ => Null
  }

  /** The getter stubs: accessor and label argument to the stubbed answer. */
  type Getters = map<(Accessor, string), Value>

  /** The stubbed answer at `(acc, key)`, or None where nothing was stubbed. */
  function Lookup(g: Getters, acc: Accessor, key: string): Option<Value> {
    if (acc, key) in g then Some(g[(acc, key)]) else None
  }

  /** Every stub on the result set and on its metadata, as a value. */
  datatype Registry = Registry(
    columnCount: Option<int>,       // getMetaData().getColumnCount()
    columnNames: map<int, string>,  // getMetaData().getColumnName(i)
    columnTypes: map<int, int>,     // getMetaData().getColumnType(i)
    getters: Getters,               // getX(key)
    nextAnswers: seq<bool>)         // the consecutive answers of next()
  {
    function ColumnCount(): int {
      columnCount.GetOr(0)
    }

    /** None stands for the default answer null. */
    function ColumnName(i: int): Option<string> {
      if i in columnNames then Some(columnNames[i]) else None
    }

    function ColumnType(i: int): int {
      if i in columnTypes then columnTypes[i] else 0
    }

    function Get(acc: Accessor, key: string): Value {
      Lookup(getters, acc, key).GetOr(Default(acc))
    }
  }

  /** A fresh mock: nothing stubbed. */
  const Unstubbed: Registry := Registry(None, map[], map[], map[], [])

  /**
   * What the `k`-th call (counting from 0) of a method stubbed with the
   * consecutive answers `answers` returns: the `k`-th answer, the last one
   * once they run out, and the default false when nothing was stubbed.
   */
  function NthAnswer(answers: seq<bool>, k: nat): bool {
    if answers == [] then false
    else if k < |answers| then answers[k]
    else answers[|answers| - 1]
  }

  /** The answers still queued after one call. */
  function AfterOneCall(answers: seq<bool>): seq<bool> {
    if |answers| > 1 then answers[1..] else answers
  }

  /** The answers still queued after `calls` calls. */
  function AfterCalls(answers: seq<bool>, calls: nat): seq<bool> {
    if calls == 0 then answers else AfterOneCall(AfterCalls(answers, calls - 1))
  }

  /** After `calls` calls, the next answers are those from position `calls` on. */
  lemma {:induction false} AfterCallsShifts(answers: seq<bool>, calls: nat, k: nat)
    ensures NthAnswer(AfterCalls(answers, calls), k) == NthAnswer(answers, k + calls)
    decreases calls
  {
    if calls > 0 {
      AfterCallsShifts(answers, calls - 1, k + 1);
    }
  }

  /** The mock object: its stub table is updated in place by each stubbing call. */
  class ResultSetMock {
    var columnCount: Option<int>
    var columnNames: map<int, string>
    var columnTypes: map<int, int>
    var getters: Getters
    var nextAnswers: seq<bool>

    function State(): Registry
      reads this
    {
      Registry(columnCount, columnNames, columnTypes, getters, nextAnswers)
    }

    /** `mock(ResultSet.class)` together with `mock(ResultSetMetaData.class)`. */
    constructor ()
      ensures State() == Unstubbed
    {
      columnCount, columnNames, columnTypes := None, map[], map[];
      getters, nextAnswers := map[], [];
    }

    /** `when(metaData.getColumnCount()).thenReturn(n)` */
    method StubColumnCount(n: int)
      modifies this
      ensures State() == old(State()).(columnCount := Some(n))
    {
      columnCount := Some(n);
    }

    /** `when(metaData.getColumnName(i)).thenReturn(name)` */
    method StubColumnName(i: int, name: string)
      modifies this
      ensures State() == old(State()).(columnNames := old(columnNames)[i := name])
    {
      columnNames := columnNames[i := name];
    }

    /** `when(metaData.getColumnType(i)).thenReturn(code)` */
    method StubColumnType(i: int, code: int)
      modifies this
      ensures State() == old(State()).(columnTypes := old(columnTypes)[i := code])
    {
      columnTypes := columnTypes[i := code];
    }

    /** `when(resultSet.getX(key)).thenReturn(v)` for the getter `acc`. */
    method Stub(acc: Accessor, key: string, v: Value)
      modifies this
      ensures State() == old(State()).(getters := old(getters)[(acc, key) := v])
    {
      getters := getters[(acc, key) := v];
    }

    /** `when(resultSet.next()).thenReturn(first, rest...)` */
    method StubNext(first: bool, rest: seq<bool>)
      modifies this
      ensures State() == old(State()).(nextAnswers := [first] + rest)
    {
      nextAnswers := [first] + rest;
    }

    /** A call of `resultSet.next()`: it consumes one consecutive answer. */
    method Next() returns (more: bool)
      modifies this
      ensures more == NthAnswer(old(nextAnswers), 0)
      ensures State() == old(State()).(nextAnswers := AfterOneCall(old(nextAnswers)))
    {
      more := nextAnswers != [] && nextAnswers[0];
      nextAnswers := AfterOneCall(nextAnswers);
    }
  }

  /**
   * A consumer calling `next()` `times` times: the answers it sees are the
   * queue's answers in order, the last one repeated.
   */
  method CallNext(resultSet: ResultSetMock, times: nat) returns (seen: seq<bool>)
    modifies resultSet
    ensures |seen| == times
    ensures forall k :: 0 <= k < times ==> seen[k] == NthAnswer(old(resultSet.nextAnswers), k)
    ensures resultSet.State() == old(resultSet.State()).(nextAnswers := AfterCalls(old(resultSet.nextAnswers), times))
  {
    seen := [];
    while |seen| < times
      invariant |seen| <= times
      invariant forall k :: 0 <= k < |seen| ==> seen[k] == NthAnswer(old(resultSet.nextAnswers), k)
      invariant resultSet.State() == old(resultSet.State()).(nextAnswers := AfterCalls(old(resultSet.nextAnswers), |seen|))
    {
      AfterCallsShifts(old(resultSet.nextAnswers), |seen|, 0);
      var more := resultSet.Next();
      seen := seen + [more];
    }
  }
}
