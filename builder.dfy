/**
 * `MockitoResultSetBuilder`: fluent setters for the input source and the
 * CSV text delimiter, and `build()`, which reads the CSV fixture and stubs a
 * mocked `ResultSet` from it.
 *
 * The specification functions below (`BuildSpec` and the folds it is made
 * of) say what the stub table holds after `build()`; `Builder.Build` is the
 * step-by-step procedure, proved to end in exactly that state.
 */
module ResultSetBuilder {
  import opened Wrappers
  import opened JavaLang
  import Jdbc
  import opened Stubs

  /** An open `java.io.Reader`, known only by identity. */
  datatype Reader = Reader(id: nat)

  /** A `java.io.File`. */
  datatype File = File(pathname: string)

  /** Where `build()` reads the CSV text from. */
  datatype Source = FromReader(reader: Reader) | FromFile(file: File) | FromPath(path: string)

  /** The records the CSV parser yields: the header record, then the data records. */
  datatype CsvData = CsvData(header: seq<string>, rows: seq<seq<string>>)

  /** The exceptions `build()` can end with. Row and column indexes count from 0. */
  datatype BuildError =
    | NoInputSpecified                             // IOException: "No file, path or reader was specified."
    | ReadFailed                                   // opening or reading the source threw
    | MalformedHeader(position: nat)               // header.split(" ") has no element 1
    | UnknownJdbcType(position: nat, token: string) // JDBCType.valueOf(token) threw
    | MissingField(row: nat, column: nat)          // row.getField(column) past the end of the row
    | EmptyCell(row: nat, column: nat)             // "".getBytes()[0] threw

  /** The input source `build()` opens: the reader first, then the file, then the path. */
  function SelectSource(reader: Option<Reader>, file: Option<File>, path: Option<string>): (r: Result<Source, BuildError>)
    ensures r.Failure? <==> reader.None? && file.None? && path.None?
    ensures r.Failure? ==> r.error == NoInputSpecified
    ensures reader.Some? ==> r == Success(FromReader(reader.value))
    ensures reader.None? && file.Some? ==> r == Success(FromFile(file.value))
    ensures reader.None? && file.None? && path.Some? ==> r == Success(FromPath(path.value))
  {
    if reader.Some? then Success(FromReader(reader.value))
    else if file.Some? then Success(FromFile(file.value))
    else if path.Some? then Success(FromPath(path.value))
    else Failure(NoInputSpecified)
  }

  // ---------------------------------------------------------------------
  // The header loop
  // ---------------------------------------------------------------------

  /** The column name and type the header at 1-based `position` declares. */
  function ParseHeader(header: string, position: nat): Result<(string, Jdbc.JdbcType), BuildError> {
    var split := Split(header);
    if |split| < 2 then Failure(MalformedHeader(position))
    else match Jdbc.ValueOf(split[1])
      case None => Failure(UnknownJdbcType(position, split[1]))
      case Some(t) => Success((split[0], t))
  }

  /** A parsed header: the column name and its declared type, or the exception parsing threw. */
  type Column = Result<(string, Jdbc.JdbcType), BuildError>

  /** `parse` applied to each header at its 1-based position, one header after the other. */
  function Positioned<T>(headers: seq<string>, parse: (string, nat) -> T): seq<T>
    decreases |headers|
  {
    if headers == [] then []
    else Positioned(headers[..|headers| - 1], parse) + [parse(headers[|headers| - 1], |headers|)]
  }

  /** Header `i` (from 0) is the one handled at position `i + 1`. */
  lemma {:induction false} PositionedInOrder<T>(headers: seq<string>, parse: (string, nat) -> T)
    ensures |Positioned(headers, parse)| == |headers|
    ensures forall i :: 0 <= i < |headers| ==> Positioned(headers, parse)[i] == parse(headers[i], i + 1)
    decreases |headers|
  {
    if headers != [] {
      var n := |headers|;
      var before := headers[..n - 1];
      PositionedInOrder(before, parse);
      forall i | 0 <= i < n - 1
        ensures Positioned(headers, parse)[i] == parse(headers[i], i + 1)
      {
        assert before[i] == headers[i];
      }
    }
  }

  /** The headers parsed one after the other, header `i` (from 0) at position `i + 1`. */
  function ParsedHeaders(headers: seq<string>): seq<Column> {
    Positioned(headers, ParseHeader)
  }

  /** The header loop parses the headers in order: header `i` (from 0) is parsed at position `i + 1`. */
  lemma ParsedHeadersInOrder(headers: seq<string>)
    ensures |ParsedHeaders(headers)| == |headers|
    ensures forall i :: 0 <= i < |headers| ==> ParsedHeaders(headers)[i] == ParseHeader(headers[i], i + 1)
  {
    PositionedInOrder(headers, ParseHeader);
  }

  /** One parse result per header. */
  lemma ParsedHeadersLength(headers: seq<string>)
    ensures |ParsedHeaders(headers)| == |headers|
  {
    PositionedInOrder(headers, ParseHeader);
  }

  /** Header `k` (from 0) is parsed at position `k + 1`. */
  lemma ParsedHeaderAt(headers: seq<string>, k: nat)
    requires k < |headers|
    ensures |ParsedHeaders(headers)| == |headers| && ParsedHeaders(headers)[k] == ParseHeader(headers[k], k + 1)
  {
    ParsedHeadersInOrder(headers);
  }

  /** The metadata stubs (column names, column types) after the header loop has seen the parsed headers `parsed`. */
  function HeaderFold(parsed: seq<Column>): Result<(map<int, string>, map<int, int>), BuildError>
    decreases |parsed|
  {
    if parsed == [] then Success((map[], map[]))
    else
      var before :- HeaderFold(parsed[..|parsed| - 1]);
      var position := |parsed|;
      var column :- parsed[|parsed| - 1];
      Success((before.0[position := column.0], before.1[1 := Jdbc.VendorTypeNumber(column.1)]))
  }

  /** The metadata stubs after the header loop over `headers`. */
  function HeaderStubs(headers: seq<string>): Result<(map<int, string>, map<int, int>), BuildError> {
    HeaderFold(ParsedHeaders(headers))
  }

  // ---------------------------------------------------------------------
  // The per-cell stubs
  // ---------------------------------------------------------------------

  /** The stubs written for one cell before `getByte`: every one of them twice, under the same key. */
  function CellStubsToBoolean(g: Getters, key: string, cell: string): Getters {
    g[(GetArray, key) := Null][(GetArray, key) := Null]
     [(GetAsciiStream, key) := Null][(GetAsciiStream, key) := Null]
     [(GetBigDecimal, key) := Null][(GetBigDecimal, key) := Null]
     [(GetBinaryStream, key) := Null][(GetBinaryStream, key) := Null]
     [(GetBlob, key) := Null][(GetBlob, key) := Null]
     [(GetBoolean, key) := Bool(BooleanValueOf(cell))][(GetBoolean, key) := Bool(BooleanValueOf(cell))]
  }

  /** `g` with `v` stubbed twice at `(acc, key)` when `v` is present, `g` itself otherwise. */
  function StubParsed(g: Getters, acc: Accessor, key: string, v: Option<int>): Getters {
    if v.Some? then g[(acc, key) := Int(v.value)][(acc, key) := Int(v.value)] else g
  }

  /** MockitoResultSetBuilder.java lines 129-170: the stubs written for one cell from `getByte` to `getLong`. */
  function CellStubsByteToLong(g: Getters, key: string, cell: string): Getters {
    var g1 :=
      g[(GetByte, key) := FirstByte(cell)][(GetByte, key) := FirstByte(cell)]
       [(GetBytes, key) := Bytes(cell)][(GetBytes, key) := Null]
       [(GetCharacterStream, key) := Null][(GetCharacterStream, key) := Null]
       [(GetClob, key) := Null][(GetClob, key) := Null]
       [(GetDate, key) := Null][(GetDate, key) := Null];
    var g2 := StubParsed(g1, GetInt, key, IntegerValueOf(cell));
    StubParsed(g2, GetLong, key, LongValueOf(cell))
  }

  /** MockitoResultSetBuilder.java lines 173-213: the stubs written for one cell from `getNCharacterStream` to `getURL`. */
  function CellStubsNCharToUrl(g: Getters, key: string, cell: string): Getters {
    var g1 :=
      g[(GetNCharacterStream, key) := Null][(GetNCharacterStream, key) := Null]
       [(GetNClob, key) := Null][(GetNClob, key) := Null]
       [(GetNString, key) := Text(cell)][(GetNString, key) := Text(cell)]
       [(GetObject, key) := Text(cell)][(GetObject, key) := Text(cell)]
       [(GetRef, key) := Null][(GetRef, key) := Null]
       [(GetRowId, key) := Null][(GetRowId, key) := Null];
    var g2 := StubParsed(g1, GetShort, key, ShortValueOf(cell));
    g2[(GetSqlXml, key) := Null][(GetSqlXml, key) := Null]
      [(GetString, key) := Text(cell)][(GetString, key) := Text(cell)]
      [(GetTime, key) := Null][(GetTime, key) := Null]
      [(GetTimestamp, key) := Null][(GetTimestamp, key) := Null]
      [(GetUrl, key) := Null][(GetUrl, key) := Null]
  }

  /** All stubs written for one non-empty cell under the getter key `key`. */
  function CellStubs(g: Getters, key: string, cell: string): Getters {
    CellStubsNCharToUrl(CellStubsByteToLong(CellStubsToBoolean(g, key, cell), key, cell), key, cell)
  }

  // ---------------------------------------------------------------------
  // The row and column loops
  // ---------------------------------------------------------------------

  /** The getter stubs after the first `columns` columns of data row `rowIndex`, starting from `g`. */
  function ColumnsStubs(g: Getters, headers: seq<string>, row: seq<string>, rowIndex: nat, columns: nat): Result<Getters, BuildError>
    requires columns <= |headers|
    decreases columns
  {
    if columns == 0 then Success(g)
    else
      var before :- ColumnsStubs(g, headers, row, rowIndex, columns - 1);
      var c := columns - 1;
      if c >= |row| then Failure(MissingField(rowIndex, c))
      else if row[c] == "" then Failure(EmptyCell(rowIndex, c))
      else Success(CellStubs(before, headers[c], row[c]))
  }

  /** The getter stubs after the row loop has seen `rows`. */
  function RowsStubs(headers: seq<string>, rows: seq<seq<string>>): Result<Getters, BuildError>
    decreases |rows|
  {
    if rows == [] then Success(map[])
    else
      var before :- RowsStubs(headers, rows[..|rows| - 1]);
      ColumnsStubs(before, headers, rows[|rows| - 1], |rows| - 1, |headers|)
  }

  /** The consecutive answers given to `next()`: true once per data row, then false. */
  function NextReturns(rowCount: nat): seq<bool> {
    seq(rowCount, _ => true) + [false]
  }

  /** Every stub `build()` leaves on the mock for the CSV records `csv`, or the exception it ends with. */
  function BuildFrom(csv: CsvData): Result<Registry, BuildError> {
    var meta :- HeaderStubs(csv.header);
    var getters :- RowsStubs(csv.header, csv.rows);
    Success(Registry(Some(|csv.header|), meta.0, meta.1, getters, NextReturns(|csv.rows|)))
  }

  /**
   * `build()` on a builder with the given settings. `read` stands for
   * opening the source and parsing it with FastCSV (the text delimiter is
   * the parser's quote character); None is an I/O failure.
   */
  function BuildSpec(reader: Option<Reader>, file: Option<File>, path: Option<string>, delimiter: Option<char>,
                     read: (Source, Option<char>) -> Option<CsvData>): Result<Registry, BuildError>
  {
    var source :- SelectSource(reader, file, path);
    match read(source, delimiter)
    case None => Failure(ReadFailed)
    case Some(csv) => BuildFrom(csv)
  }

  // ---------------------------------------------------------------------
  // A failure stops every loop: the folds keep the first error
  // ---------------------------------------------------------------------

  lemma {:induction false} HeaderFailureSticks(parsed: seq<Column>, i: nat)
    requires i <= |parsed| && HeaderFold(parsed[..i]).Failure?
    ensures HeaderFold(parsed) == HeaderFold(parsed[..i])
    decreases |parsed| - i
  {
    if i < |parsed| {
      assert parsed[..i + 1][..i] == parsed[..i];
      HeaderFailureSticks(parsed, i + 1);
    } else {
      assert parsed[..i] == parsed;
    }
  }

  lemma {:induction false} ColumnsFailureSticks(g: Getters, headers: seq<string>, row: seq<string>, rowIndex: nat, c: nat, d: nat)
    requires c <= d <= |headers| && ColumnsStubs(g, headers, row, rowIndex, c).Failure?
    ensures ColumnsStubs(g, headers, row, rowIndex, d) == ColumnsStubs(g, headers, row, rowIndex, c)
    decreases d
  {
    if c < d {
      ColumnsFailureSticks(g, headers, row, rowIndex, c, d - 1);
    }
  }

  lemma {:induction false} RowsFailureSticks(headers: seq<string>, rows: seq<seq<string>>, i: nat)
    requires i <= |rows| && RowsStubs(headers, rows[..i]).Failure?
    ensures RowsStubs(headers, rows) == RowsStubs(headers, rows[..i])
    decreases |rows| - i
  {
    if i < |rows| {
      assert rows[..i + 1][..i] == rows[..i];
      RowsFailureSticks(headers, rows, i + 1);
    } else {
      assert rows[..i] == rows;
    }
  }

  // ---------------------------------------------------------------------
  // The imperative procedure
  // ---------------------------------------------------------------------

  /** MockitoResultSetBuilder.java lines 111-127 for one cell: the stubs up to `getBoolean`. */
  method StubCellToBoolean(resultSet: ResultSetMock, key: string, cell: string)
    modifies resultSet
    ensures resultSet.State() == old(resultSet.State()).(getters := CellStubsToBoolean(old(resultSet.getters), key, cell))
  {
    resultSet.Stub(GetArray, key, Null);
    resultSet.Stub(GetArray, key, Null);
    resultSet.Stub(GetAsciiStream, key, Null);
    resultSet.Stub(GetAsciiStream, key, Null);
    resultSet.Stub(GetBigDecimal, key, Null);
    resultSet.Stub(GetBigDecimal, key, Null);
    resultSet.Stub(GetBinaryStream, key, Null);
    resultSet.Stub(GetBinaryStream, key, Null);
    resultSet.Stub(GetBlob, key, Null);
    resultSet.Stub(GetBlob, key, Null);
    resultSet.Stub(GetBoolean, key, Bool(BooleanValueOf(cell)));
    resultSet.Stub(GetBoolean, key, Bool(BooleanValueOf(cell)));
  }

  /** MockitoResultSetBuilder.java lines 129-170 for one non-empty cell. */
  method StubCellByteToLong(resultSet: ResultSetMock, key: string, cell: string)
    requires cell != ""
    modifies resultSet
    ensures resultSet.State() == old(resultSet.State()).(getters := CellStubsByteToLong(old(resultSet.getters), key, cell))
  {
    resultSet.Stub(GetByte, key, FirstByte(cell));
    resultSet.Stub(GetByte, key, FirstByte(cell));
    resultSet.Stub(GetBytes, key, Bytes(cell));
    resultSet.Stub(GetBytes, key, Null);
    resultSet.Stub(GetCharacterStream, key, Null);
    resultSet.Stub(GetCharacterStream, key, Null);
    resultSet.Stub(GetClob, key, Null);
    resultSet.Stub(GetClob, key, Null);
    resultSet.Stub(GetDate, key, Null);
    resultSet.Stub(GetDate, key, Null);
    var intValue := IntegerValueOf(cell);
    if intValue.Some? {
      resultSet.Stub(GetInt, key, Int(intValue.value));
      resultSet.Stub(GetInt, key, Int(intValue.value));
    }
    var longValue := LongValueOf(cell);
    if longValue.Some? {
      resultSet.Stub(GetLong, key, Int(longValue.value));
      resultSet.Stub(GetLong, key, Int(longValue.value));
    }
  }

  /** MockitoResultSetBuilder.java lines 173-213 for one cell. */
  method StubCellNCharToUrl(resultSet: ResultSetMock, key: string, cell: string)
    modifies resultSet
    ensures resultSet.State() == old(resultSet.State()).(getters := CellStubsNCharToUrl(old(resultSet.getters), key, cell))
  {
    resultSet.Stub(GetNCharacterStream, key, Null);
    resultSet.Stub(GetNCharacterStream, key, Null);
    resultSet.Stub(GetNClob, key, Null);
    resultSet.Stub(GetNClob, key, Null);
    resultSet.Stub(GetNString, key, Text(cell));
    resultSet.Stub(GetNString, key, Text(cell));
    resultSet.Stub(GetObject, key, Text(cell));
    resultSet.Stub(GetObject, key, Text(cell));
    resultSet.Stub(GetRef, key, Null);
    resultSet.Stub(GetRef, key, Null);
    resultSet.Stub(GetRowId, key, Null);
    resultSet.Stub(GetRowId, key, Null);
    var shortValue := ShortValueOf(cell);
    if shortValue.Some? {
      resultSet.Stub(GetShort, key, Int(shortValue.value));
      resultSet.Stub(GetShort, key, Int(shortValue.value));
    }
    resultSet.Stub(GetSqlXml, key, Null);
    resultSet.Stub(GetSqlXml, key, Null);
    resultSet.Stub(GetString, key, Text(cell));
    resultSet.Stub(GetString, key, Text(cell));
    resultSet.Stub(GetTime, key, Null);
    resultSet.Stub(GetTime, key, Null);
    resultSet.Stub(GetTimestamp, key, Null);
    resultSet.Stub(GetTimestamp, key, Null);
    resultSet.Stub(GetUrl, key, Null);
    resultSet.Stub(GetUrl, key, Null);
  }

  /** MockitoResultSetBuilder.java lines 111-213 for one cell: each `when(...).thenReturn(...)` in turn. */
  method StubCell(resultSet: ResultSetMock, key: string, cell: string) returns (ok: bool)
    modifies resultSet
    ensures ok == (cell != "")
    ensures ok ==> resultSet.State() == old(resultSet.State()).(getters := CellStubs(old(resultSet.getters), key, cell))
  {
    StubCellToBoolean(resultSet, key, cell);
    if cell == "" {
      // columnValue.getBytes()[0] throws ArrayIndexOutOfBoundsException
      return false;
    }
    StubCellByteToLong(resultSet, key, cell);
    StubCellNCharToUrl(resultSet, key, cell);
    ok := true;
  }

  class Builder {
    var file: Option<File>
    var path: Option<string>
    var reader: Option<Reader>
    var delimiter: Option<char>

    constructor ()
      ensures file == None && path == None && reader == None && delimiter == None
    {
      file, path, reader, delimiter := None, None, None, None;
    }

    /** `withFile(file)`; None stands for a null argument. */
    method WithFile(file: Option<File>) returns (self: Builder)
      modifies this
      ensures self == this && this.file == file
      ensures path == old(path) && reader == old(reader) && delimiter == old(delimiter)
    {
      this.file := file;
      self := this;
    }

    method WithReader(reader: Option<Reader>) returns (self: Builder)
      modifies this
      ensures self == this && this.reader == reader
      ensures file == old(file) && path == old(path) && delimiter == old(delimiter)
    {
      this.reader := reader;
      self := this;
    }

    method WithPath(path: Option<string>) returns (self: Builder)
      modifies this
      ensures self == this && this.path == path
      ensures file == old(file) && reader == old(reader) && delimiter == old(delimiter)
    {
      this.path := path;
      self := this;
    }

    method WithDelimiter(delimiter: Option<char>) returns (self: Builder)
      modifies this
      ensures self == this && this.delimiter == delimiter
      ensures file == old(file) && path == old(path) && reader == old(reader)
    {
      this.delimiter := delimiter;
      self := this;
    }

    /**
     * `build()`: a fresh mock whose stubs are exactly `BuildSpec`'s, or
     * `BuildSpec`'s exception.
     */
    method Build(read: (Source, Option<char>) -> Option<CsvData>) returns (r: Result<ResultSetMock, BuildError>)
      ensures r.Failure? <==> BuildSpec(reader, file, path, delimiter, read).Failure?
      ensures r.Failure? ==> r.error == BuildSpec(reader, file, path, delimiter, read).error
      ensures r.Success? ==> fresh(r.value) && r.value.State() == BuildSpec(reader, file, path, delimiter, read).value
    {
      var source :- SelectSource(reader, file, path);
      var parsed := read(source, delimiter);
      if parsed.None? {
        return Failure(ReadFailed);
      }
      var csv := parsed.value;
      var resultSet := new ResultSetMock();
      resultSet.StubColumnCount(|csv.header|);
      var failure := StubHeaders(resultSet, csv.header);
      if failure.Some? {
        return Failure(failure.value);
      }
      var rowCount;
      failure, rowCount := StubRows(resultSet, csv.header, csv.rows);
      if failure.Some? {
        return Failure(failure.value);
      }
      StubNextReturns(resultSet, rowCount);
      return Success(resultSet);
    }
  }

  /** MockitoResultSetBuilder.java lines 88-98: the header loop. */
  method StubHeaders(resultSet: ResultSetMock, headers: seq<string>) returns (failure: Option<BuildError>)
    requires resultSet.columnNames == map[] && resultSet.columnTypes == map[]
    modifies resultSet
    ensures failure.Some? <==> HeaderStubs(headers).Failure?
    ensures failure.Some? ==> failure.value == HeaderStubs(headers).error
    ensures failure.None? ==> resultSet.State() == old(resultSet.State()).(
      columnNames := HeaderStubs(headers).value.0, columnTypes := HeaderStubs(headers).value.1)
  {
    ghost var parsed := ParsedHeaders(headers);
    ParsedHeadersLength(headers);
    var headerIndex := 1;
    while headerIndex <= |headers|
      invariant 1 <= headerIndex <= |headers| + 1
      invariant HeaderFold(parsed[..headerIndex - 1]).Success?
      invariant resultSet.State() == old(resultSet.State()).(
        columnNames := HeaderFold(parsed[..headerIndex - 1]).value.0,
        columnTypes := HeaderFold(parsed[..headerIndex - 1]).value.1)
    {
      assert parsed[..headerIndex][..headerIndex - 1] == parsed[..headerIndex - 1];
      var column := ParseHeader(headers[headerIndex - 1], headerIndex);
      ParsedHeaderAt(headers, headerIndex - 1);
      if column.Failure? {
        HeaderFailureSticks(parsed, headerIndex);
        return Some(column.error);
      }
      resultSet.StubColumnName(headerIndex, column.value.0);
      resultSet.StubColumnType(1, Jdbc.VendorTypeNumber(column.value.1));
      headerIndex := headerIndex + 1;
    }
    assert parsed[..headerIndex - 1] == parsed;
    return None;
  }

  /** MockitoResultSetBuilder.java lines 106-214: the column loop over one data row. */
  method StubRow(resultSet: ResultSetMock, headers: seq<string>, row: seq<string>, rowIndex: nat) returns (failure: Option<BuildError>)
    modifies resultSet
    ensures failure.Some? <==> ColumnsStubs(old(resultSet.getters), headers, row, rowIndex, |headers|).Failure?
    ensures failure.Some? ==> failure.value == ColumnsStubs(old(resultSet.getters), headers, row, rowIndex, |headers|).error
    ensures failure.None? ==> resultSet.State() == old(resultSet.State()).(
      getters := ColumnsStubs(old(resultSet.getters), headers, row, rowIndex, |headers|).value)
  {
    for columnIndex := 0 to |headers|
      invariant ColumnsStubs(old(resultSet.getters), headers, row, rowIndex, columnIndex).Success?
      invariant resultSet.State() == old(resultSet.State()).(
        getters := ColumnsStubs(old(resultSet.getters), headers, row, rowIndex, columnIndex).value)
    {
      if columnIndex >= |row| {
        ColumnsFailureSticks(old(resultSet.getters), headers, row, rowIndex, columnIndex + 1, |headers|);
        return Some(MissingField(rowIndex, columnIndex));
      }
      var ok := StubCell(resultSet, headers[columnIndex], row[columnIndex]);
      if !ok {
        ColumnsFailureSticks(old(resultSet.getters), headers, row, rowIndex, columnIndex + 1, |headers|);
        return Some(EmptyCell(rowIndex, columnIndex));
      }
    }
    return None;
  }

  /** MockitoResultSetBuilder.java lines 100-218: the row loop, which also counts the rows. */
  method StubRows(resultSet: ResultSetMock, headers: seq<string>, rows: seq<seq<string>>)
    returns (failure: Option<BuildError>, rowIndex: nat)
    requires resultSet.getters == map[]
    modifies resultSet
    ensures failure.Some? <==> RowsStubs(headers, rows).Failure?
    ensures failure.Some? ==> failure.value == RowsStubs(headers, rows).error
    ensures failure.None? ==> rowIndex == |rows|
    ensures failure.None? ==> resultSet.State() == old(resultSet.State()).(getters := RowsStubs(headers, rows).value)
  {
    rowIndex := 0;
    while rowIndex < |rows|
      invariant 0 <= rowIndex <= |rows|
      invariant RowsStubs(headers, rows[..rowIndex]).Success?
      invariant resultSet.State() == old(resultSet.State()).(getters := RowsStubs(headers, rows[..rowIndex]).value)
    {
      assert rows[..rowIndex + 1][..rowIndex] == rows[..rowIndex];
      failure := StubRow(resultSet, headers, rows[rowIndex], rowIndex);
      if failure.Some? {
        RowsFailureSticks(headers, rows, rowIndex + 1);
        return;
      }
      rowIndex := rowIndex + 1;
    }
    assert rows[..rowIndex] == rows;
    failure := None;
  }

  /** MockitoResultSetBuilder.java lines 220-225: the `next()` answers, filled in an array. */
  method StubNextReturns(resultSet: ResultSetMock, rowIndex: nat)
    modifies resultSet
    ensures resultSet.State() == old(resultSet.State()).(nextAnswers := NextReturns(rowIndex))
  {
    var nextReturns := new bool[rowIndex + 1];
    for i := 0 to nextReturns.Length
      modifies nextReturns
      invariant forall k :: 0 <= k < i ==> nextReturns[k]
    {
      nextReturns[i] := true;
    }
    nextReturns[nextReturns.Length - 1] := false;
    assert nextReturns[..] == NextReturns(rowIndex);
    assert [nextReturns[0]] + nextReturns[1..] == nextReturns[..];
    resultSet.StubNext(nextReturns[0], nextReturns[1..]);
  }
}
