/**
 * What the mock built by `build()` answers, stated against the CSV records
 * directly: when loading fails and with which exception, what the metadata
 * reports, what each getter returns for a header key, and what `next()`
 * returns call after call.
 */
module BuilderProperties {
  import opened Wrappers
  import opened JavaLang
  import Jdbc
  import opened Stubs
  import opened ResultSetBuilder

  // ---------------------------------------------------------------------
  // The input source
  // ---------------------------------------------------------------------

  /**
   * A reader set on the builder makes the file and the path irrelevant, and
   * a file makes the path irrelevant; with none of them `build()` throws
   * before reading anything.
   */
  lemma SourcePrecedence(reader: Option<Reader>, file: Option<File>, path: Option<string>, delimiter: Option<char>,
                         read: (Source, Option<char>) -> Option<CsvData>)
    ensures reader.Some? ==> BuildSpec(reader, file, path, delimiter, read) == BuildSpec(reader, None, None, delimiter, read)
    ensures file.Some? ==> BuildSpec(None, file, path, delimiter, read) == BuildSpec(None, file, None, delimiter, read)
    ensures BuildSpec(None, None, None, delimiter, read) == Failure(NoInputSpecified)
  {
  }

  // ---------------------------------------------------------------------
  // Headers
  // ---------------------------------------------------------------------

  /** A header `build()` accepts: a second token that names a `JDBCType` constant. */
  predicate WellFormedHeader(h: string) {
    HasSecondToken(h) && Jdbc.ValueOf(SecondToken(h)).Some?
  }

  /** The exception the header loop throws at a header it does not accept. */
  function HeaderError(h: string, position: nat): BuildError {
    if HasSecondToken(h) then UnknownJdbcType(position, SecondToken(h)) else MalformedHeader(position)
  }

  /** The column type a well-formed header declares. */
  function DeclaredType(h: string): Jdbc.JdbcType
    requires WellFormedHeader(h)
  {
    Jdbc.ValueOf(SecondToken(h)).value
  }

  /** One header: accepted exactly when well-formed, and then split into its name and type. */
  lemma ParseHeaderOutcome(h: string, position: nat)
    ensures ParseHeader(h, position).Success? <==> WellFormedHeader(h)
    ensures WellFormedHeader(h) ==> ParseHeader(h, position).value == (TextBeforeSpace(h), DeclaredType(h))
    ensures !WellFormedHeader(h) ==> ParseHeader(h, position).error == HeaderError(h, position)
  {
    SplitFirstTwo(h);
  }

  /** The header loop completes exactly when every header parses. */
  lemma {:induction false} HeaderFoldAccepts(parsed: seq<Column>)
    ensures HeaderFold(parsed).Success? <==> forall i :: 0 <= i < |parsed| ==> parsed[i].Success?
    decreases |parsed|
  {
    if parsed != [] {
      var n := |parsed|;
      var before := parsed[..n - 1];
      assert forall i :: 0 <= i < n - 1 ==> before[i] == parsed[i];
      HeaderFoldAccepts(before);
    }
  }

  /** A failing header loop throws the exception of the first header that does not parse. */
  lemma {:induction false} HeaderFoldFirstError(parsed: seq<Column>)
    requires HeaderFold(parsed).Failure?
    ensures exists i ::
      && 0 <= i < |parsed| && parsed[i].Failure?
      && (forall j :: 0 <= j < i ==> parsed[j].Success?)
      && HeaderFold(parsed).error == parsed[i].error
    decreases |parsed|
  {
    var n := |parsed|;
    var before := parsed[..n - 1];
    assert forall i :: 0 <= i < n - 1 ==> before[i] == parsed[i];
    if HeaderFold(before).Failure? {
      HeaderFoldFirstError(before);
      var i :| 0 <= i < |before| && before[i].Failure?
        && (forall j :: 0 <= j < i ==> before[j].Success?)
        && HeaderFold(before).error == before[i].error;
      assert parsed[i] == before[i];
      assert HeaderFold(parsed).error == parsed[i].error;
    } else {
      HeaderFoldAccepts(before);
      assert forall j :: 0 <= j < n - 1 ==> parsed[j].Success?;
      assert HeaderFold(parsed).error == parsed[n - 1].error;
    }
  }

  /**
   * Over headers that all parse: `getColumnName` is stubbed exactly at
   * 1..n, each position with its own header's name, and `getColumnType`
   * only at 1, with the last header's type.
   */
  lemma {:induction false} HeaderFoldMaps(parsed: seq<Column>)
    requires HeaderFold(parsed).Success?
    ensures forall i :: i in HeaderFold(parsed).value.0 <==> 1 <= i <= |parsed|
    ensures forall i :: 0 <= i < |parsed| ==> parsed[i].Success? && HeaderFold(parsed).value.0[i + 1] == parsed[i].value.0
    ensures parsed == [] ==> HeaderFold(parsed).value.1 == map[]
    ensures parsed != [] ==> parsed[|parsed| - 1].Success?
    ensures parsed != [] ==> HeaderFold(parsed).value.1 == map[1 := Jdbc.VendorTypeNumber(parsed[|parsed| - 1].value.1)]
    decreases |parsed|
  {
    if parsed != [] {
      var n := |parsed|;
      var before := parsed[..n - 1];
      assert forall i :: 0 <= i < n - 1 ==> before[i] == parsed[i];
      HeaderFoldMaps(before);
      var names := HeaderFold(parsed).value.0;
      assert names == HeaderFold(before).value.0[n := parsed[n - 1].value.0];
      forall i | 0 <= i < n
        ensures parsed[i].Success? && names[i + 1] == parsed[i].value.0
      {
        if i < n - 1 {
          assert parsed[i] == before[i];
        }
      }
    }
  }

  /**
   * The header loop completes exactly when every header is well-formed;
   * otherwise it throws at the first header that is not.
   */
  lemma HeaderStubsOutcome(headers: seq<string>)
    ensures HeaderStubs(headers).Success? <==> forall i :: 0 <= i < |headers| ==> WellFormedHeader(headers[i])
    ensures HeaderStubs(headers).Failure? ==>
      exists i ::
        && 0 <= i < |headers| && !WellFormedHeader(headers[i])
        && (forall j :: 0 <= j < i ==> WellFormedHeader(headers[j]))
        && HeaderStubs(headers).error == HeaderError(headers[i], i + 1)
  {
    var parsed := ParsedHeaders(headers);
    ParsedHeadersInOrder(headers);
    forall i | 0 <= i < |headers| {
      ParseHeaderOutcome(headers[i], i + 1);
    }
    HeaderFoldAccepts(parsed);
    if HeaderStubs(headers).Failure? {
      HeaderFoldFirstError(parsed);
    }
  }

  /**
   * After a header loop over well-formed headers, `getColumnName(i)` is
   * stubbed exactly at the positions 1..n, each with the text before the
   * first ' ' of header i, and `getColumnType` only at position 1, with
   * the type of the last header.
   */
  lemma HeaderMetadata(headers: seq<string>)
    requires forall i :: 0 <= i < |headers| ==> WellFormedHeader(headers[i])
    ensures HeaderStubs(headers).Success?
    ensures forall i :: i in HeaderStubs(headers).value.0 <==> 1 <= i <= |headers|
    ensures forall i :: 0 <= i < |headers| ==> HeaderStubs(headers).value.0[i + 1] == TextBeforeSpace(headers[i])
    ensures HeaderStubs(headers).value.1 ==
      if headers == [] then map[] else map[1 := Jdbc.VendorTypeNumber(DeclaredType(headers[|headers| - 1]))]
  {
    var parsed := ParsedHeaders(headers);
    ParsedHeadersInOrder(headers);
    forall i | 0 <= i < |headers| {
      ParseHeaderOutcome(headers[i], i + 1);
    }
    HeaderFoldAccepts(parsed);
    HeaderFoldMaps(parsed);
  }

  // ---------------------------------------------------------------------
  // Rows
  // ---------------------------------------------------------------------

  /** The cell at column `c` exists and is not empty. */
  predicate CellPresent(row: seq<string>, c: nat) {
    c < |row| && row[c] != ""
  }

  /** The exception the column loop throws at a column whose cell is missing or empty. */
  function CellError(row: seq<string>, rowIndex: nat, c: nat): BuildError {
    if c < |row| then EmptyCell(rowIndex, c) else MissingField(rowIndex, c)
  }

  /** A data row the column loop gets through: a non-empty cell under every one of the `width` headers. */
  predicate RowFits(width: nat, row: seq<string>) {
    forall c :: 0 <= c < width ==> CellPresent(row, c)
  }

  /** The column loop completes exactly when its cells are present, and otherwise throws at the first one that is not. */
  lemma {:induction false} ColumnsStubsOutcome(g: Getters, headers: seq<string>, row: seq<string>, rowIndex: nat, columns: nat)
    requires columns <= |headers|
    ensures ColumnsStubs(g, headers, row, rowIndex, columns).Success? <==> RowFits(columns, row)
    ensures ColumnsStubs(g, headers, row, rowIndex, columns).Failure? ==>
      exists c :: 0 <= c < columns && !CellPresent(row, c) && RowFits(c, row)
        && ColumnsStubs(g, headers, row, rowIndex, columns).error == CellError(row, rowIndex, c)
    decreases columns
  {
    if columns > 0 {
      ColumnsStubsOutcome(g, headers, row, rowIndex, columns - 1);
      if ColumnsStubs(g, headers, row, rowIndex, columns - 1).Failure? {
        var c :| 0 <= c < columns - 1 && !CellPresent(row, c) && RowFits(c, row)
          && ColumnsStubs(g, headers, row, rowIndex, columns - 1).error == CellError(row, rowIndex, c);
        assert !RowFits(columns, row);
      } else if !CellPresent(row, columns - 1) {
        assert RowFits(columns - 1, row);
      }
    }
  }

  /** The row loop completes exactly when every data row fits the header. */
  lemma {:induction false} RowsStubsAccepts(headers: seq<string>, rows: seq<seq<string>>)
    ensures RowsStubs(headers, rows).Success? <==> forall r :: 0 <= r < |rows| ==> RowFits(|headers|, rows[r])
    decreases |rows|
  {
    if rows != [] {
      var n := |rows|;
      var before := rows[..n - 1];
      assert forall q :: 0 <= q < n - 1 ==> before[q] == rows[q];
      RowsStubsAccepts(headers, before);
      if RowsStubs(headers, before).Success? {
        ColumnsStubsOutcome(RowsStubs(headers, before).value, headers, rows[n - 1], n - 1, |headers|);
      }
    }
  }

  /** A row loop that fails throws at the first missing or empty cell of the first row that does not fit. */
  lemma {:induction false} RowsStubsFirstError(headers: seq<string>, rows: seq<seq<string>>)
    requires RowsStubs(headers, rows).Failure?
    ensures exists r, c ::
      && 0 <= r < |rows| && 0 <= c < |headers|
      && (forall q :: 0 <= q < r ==> RowFits(|headers|, rows[q]))
      && !CellPresent(rows[r], c) && RowFits(c, rows[r])
      && RowsStubs(headers, rows).error == CellError(rows[r], r, c)
    decreases |rows|
  {
    var n := |rows|;
    var before := rows[..n - 1];
    assert forall q :: 0 <= q < n - 1 ==> before[q] == rows[q];
    if RowsStubs(headers, before).Failure? {
      RowsStubsFirstError(headers, before);
      var r, c :| 0 <= r < |before| && 0 <= c < |headers|
        && (forall q :: 0 <= q < r ==> RowFits(|headers|, before[q]))
        && !CellPresent(before[r], c) && RowFits(c, before[r])
        && RowsStubs(headers, before).error == CellError(before[r], r, c);
      assert rows[r] == before[r];
    } else {
      RowsStubsAccepts(headers, before);
      var g := RowsStubs(headers, before).value;
      ColumnsStubsOutcome(g, headers, rows[n - 1], n - 1, |headers|);
      var c :| 0 <= c < |headers| && !CellPresent(rows[n - 1], c) && RowFits(c, rows[n - 1])
        && ColumnsStubs(g, headers, rows[n - 1], n - 1, |headers|).error == CellError(rows[n - 1], n - 1, c);
    }
  }

  /**
   * A row with fewer fields than the loop has columns never gets through it;
   * when its own cells are all non-empty, `getField` throws just past its end.
   */
  lemma ShortRowThrowsMissingField(g: Getters, headers: seq<string>, row: seq<string>, rowIndex: nat, columns: nat)
    requires columns <= |headers| && |row| < columns
    ensures ColumnsStubs(g, headers, row, rowIndex, columns).Failure?
    ensures RowFits(|row|, row) ==>
      ColumnsStubs(g, headers, row, rowIndex, columns).error == MissingField(rowIndex, |row|)
  {
    ColumnsStubsOutcome(g, headers, row, rowIndex, columns);
    assert !CellPresent(row, |row|);
    if RowFits(|row|, row) {
      var c :| 0 <= c < columns && !CellPresent(row, c) && RowFits(c, row)
        && ColumnsStubs(g, headers, row, rowIndex, columns).error == CellError(row, rowIndex, c);
      assert c == |row|;
    }
  }

  // ---------------------------------------------------------------------
  // What the getters answer
  // ---------------------------------------------------------------------

  /** `a` when present, `b` otherwise: a later stub in front of an earlier one. */
  function Or(a: Option<Value>, b: Option<Value>): Option<Value> {
    if a.Some? then a else b
  }

  function AsInt(v: Option<int>): Option<Value> {
    if v.Some? then Some(Int(v.value)) else None
  }

  /**
   * What the stubs for one cell finally leave at accessor `acc` of its key:
   * the cell text for the text getters, `Boolean.valueOf` for `getBoolean`,
   * the parsed number for the integer getters (nothing when the parse
   * fails), null for `getBytes` (its second stub replaces the first) and
   * for every other getter.
   */
  function CellEffect(acc: Accessor, cell: string): Option<Value> {
    match acc
    case GetBoolean => Some(Bool(BooleanValueOf(cell)))
    case GetByte => Some(FirstByte(cell))
    case GetInt => AsInt(IntegerValueOf(cell))
    case GetLong => AsInt(LongValueOf(cell))
    case GetShort => AsInt(ShortValueOf(cell))
    case GetNString | GetObject | GetString => Some(Text(cell))
    case _ => Some(Null)
  }

  /** The accessors stubbed on MockitoResultSetBuilder.java lines 111-127, 129-170 and 173-213 respectively. */
  predicate StubbedToBoolean(acc: Accessor) {
    acc.GetArray? || acc.GetAsciiStream? || acc.GetBigDecimal? || acc.GetBinaryStream? || acc.GetBlob? || acc.GetBoolean?
  }

  predicate StubbedByteToLong(acc: Accessor) {
    acc.GetByte? || acc.GetBytes? || acc.GetCharacterStream? || acc.GetClob? || acc.GetDate? || acc.GetInt? || acc.GetLong?
  }

  predicate StubbedNCharToUrl(acc: Accessor) {
    !StubbedToBoolean(acc) && !StubbedByteToLong(acc)
  }

  /** The stubs of MockitoResultSetBuilder.java lines 111-127 write at `key` the effect of the cell for their own getters, and nothing anywhere else. */
  lemma ToBooleanEffect(g: Getters, key: string, cell: string, acc: Accessor, k: string)
    ensures Lookup(CellStubsToBoolean(g, key, cell), acc, k) ==
      if k == key && StubbedToBoolean(acc) then Or(CellEffect(acc, cell), Lookup(g, acc, k)) else Lookup(g, acc, k)
  {
  }

  /** The stubs of MockitoResultSetBuilder.java lines 129-170 write at `key` the effect of the cell for their own getters, and nothing anywhere else. */
  lemma ByteToLongEffect(g: Getters, key: string, cell: string, acc: Accessor, k: string)
    ensures Lookup(CellStubsByteToLong(g, key, cell), acc, k) ==
      if k == key && StubbedByteToLong(acc) then Or(CellEffect(acc, cell), Lookup(g, acc, k)) else Lookup(g, acc, k)
  {
    if k != key {
      ByteToLongOtherKey(g, key, cell, acc, k);
    } else if StubbedToBoolean(acc) {
      ByteToLongKeepsToBoolean(g, key, cell, acc);
    } else if StubbedByteToLong(acc) {
      ByteToLongOwn(g, key, cell, acc);
    } else {
      ByteToLongKeepsNCharToUrl(g, key, cell, acc);
    }
  }

  lemma ByteToLongOtherKey(g: Getters, key: string, cell: string, acc: Accessor, k: string)
    requires k != key
    ensures Lookup(CellStubsByteToLong(g, key, cell), acc, k) == Lookup(g, acc, k)
  {
  }

  lemma ByteToLongKeepsToBoolean(g: Getters, key: string, cell: string, acc: Accessor)
    requires StubbedToBoolean(acc)
    ensures Lookup(CellStubsByteToLong(g, key, cell), acc, key) == Lookup(g, acc, key)
  {
  }

  lemma ByteToLongKeepsNCharToUrl(g: Getters, key: string, cell: string, acc: Accessor)
    requires StubbedNCharToUrl(acc)
    ensures Lookup(CellStubsByteToLong(g, key, cell), acc, key) == Lookup(g, acc, key)
  {
  }

  lemma ByteToLongOwn(g: Getters, key: string, cell: string, acc: Accessor)
    requires StubbedByteToLong(acc)
    ensures Lookup(CellStubsByteToLong(g, key, cell), acc, key) == Or(CellEffect(acc, cell), Lookup(g, acc, key))
  {
  }

  /** The stubs of MockitoResultSetBuilder.java lines 173-213 write at `key` the effect of the cell for their own getters, and nothing anywhere else. */
  lemma NCharToUrlEffect(g: Getters, key: string, cell: string, acc: Accessor, k: string)
    ensures Lookup(CellStubsNCharToUrl(g, key, cell), acc, k) ==
      if k == key && StubbedNCharToUrl(acc) then Or(CellEffect(acc, cell), Lookup(g, acc, k)) else Lookup(g, acc, k)
  {
    if k != key {
      NCharToUrlOtherKey(g, key, cell, acc, k);
    } else if StubbedToBoolean(acc) {
      NCharToUrlKeepsToBoolean(g, key, cell, acc);
    } else if StubbedByteToLong(acc) {
      NCharToUrlKeepsByteToLong(g, key, cell, acc);
    } else {
      NCharToUrlOwn(g, key, cell, acc);
    }
  }

  lemma NCharToUrlOtherKey(g: Getters, key: string, cell: string, acc: Accessor, k: string)
    requires k != key
    ensures Lookup(CellStubsNCharToUrl(g, key, cell), acc, k) == Lookup(g, acc, k)
  {
  }

  lemma NCharToUrlKeepsToBoolean(g: Getters, key: string, cell: string, acc: Accessor)
    requires StubbedToBoolean(acc)
    ensures Lookup(CellStubsNCharToUrl(g, key, cell), acc, key) == Lookup(g, acc, key)
  {
  }

  lemma NCharToUrlKeepsByteToLong(g: Getters, key: string, cell: string, acc: Accessor)
    requires StubbedByteToLong(acc)
    ensures Lookup(CellStubsNCharToUrl(g, key, cell), acc, key) == Lookup(g, acc, key)
  {
  }

  lemma NCharToUrlOwn(g: Getters, key: string, cell: string, acc: Accessor)
    requires StubbedNCharToUrl(acc)
    ensures Lookup(CellStubsNCharToUrl(g, key, cell), acc, key) == Or(CellEffect(acc, cell), Lookup(g, acc, key))
  {
  }

  /** The stubs for one cell change only its own key, and leave there what `CellEffect` says. */
  lemma CellStubsEffect(g: Getters, key: string, cell: string, acc: Accessor, k: string)
    ensures Lookup(CellStubs(g, key, cell), acc, k) ==
      if k == key then Or(CellEffect(acc, cell), Lookup(g, acc, k)) else Lookup(g, acc, k)
  {
    var g1 := CellStubsToBoolean(g, key, cell);
    var g2 := CellStubsByteToLong(g1, key, cell);
    ToBooleanEffect(g, key, cell, acc, k);
    ByteToLongEffect(g1, key, cell, acc, k);
    NCharToUrlEffect(g2, key, cell, acc, k);
  }

  /**
   * The reference answer for one data row: scanning the columns of `row`
   * from the last one back, the effect of the first cell under the key
   * `key` that leaves anything at `acc`.
   */
  function RowEffect(headers: seq<string>, row: seq<string>, columns: nat, acc: Accessor, key: string): Option<Value>
    requires columns <= |headers| && columns <= |row|
  {
    if columns == 0 then None
    else if headers[columns - 1] == key then
      Or(CellEffect(acc, row[columns - 1]), RowEffect(headers, row, columns - 1, acc, key))
    else RowEffect(headers, row, columns - 1, acc, key)
  }

  /** The reference answer for all data rows: the last row that leaves anything at `(acc, key)` decides. */
  function LastEffect(headers: seq<string>, rows: seq<seq<string>>, acc: Accessor, key: string): Option<Value>
    requires forall r :: 0 <= r < |rows| ==> |headers| <= |rows[r]|
    decreases |rows|
  {
    if rows == [] then None
    else Or(RowEffect(headers, rows[|rows| - 1], |headers|, acc, key), LastEffect(headers, rows[..|rows| - 1], acc, key))
  }

  lemma OrAssociative(a: Option<Value>, b: Option<Value>, c: Option<Value>)
    ensures Or(a, Or(b, c)) == Or(Or(a, b), c)
  {
  }

  /** One more column: the fold of the columns before it, then the stubs for its cell. */
  lemma ColumnsStubsStep(g: Getters, headers: seq<string>, row: seq<string>, rowIndex: nat, columns: nat)
    requires 0 < columns <= |headers| && ColumnsStubs(g, headers, row, rowIndex, columns).Success?
    ensures ColumnsStubs(g, headers, row, rowIndex, columns - 1).Success?
    ensures columns - 1 < |row|
    ensures ColumnsStubs(g, headers, row, rowIndex, columns).value ==
      CellStubs(ColumnsStubs(g, headers, row, rowIndex, columns - 1).value, headers[columns - 1], row[columns - 1])
  {
  }

  /** The column loop over one row puts that row's reference answer in front of what was stubbed before. */
  lemma {:induction false} ColumnsLookup(g: Getters, headers: seq<string>, row: seq<string>, rowIndex: nat, columns: nat,
                                         acc: Accessor, key: string)
    requires columns <= |headers| && ColumnsStubs(g, headers, row, rowIndex, columns).Success?
    ensures columns <= |row|
    ensures Lookup(ColumnsStubs(g, headers, row, rowIndex, columns).value, acc, key) ==
      Or(RowEffect(headers, row, columns, acc, key), Lookup(g, acc, key))
    decreases columns
  {
    if columns > 0 {
      var c := columns - 1;
      ColumnsStubsStep(g, headers, row, rowIndex, columns);
      var before := ColumnsStubs(g, headers, row, rowIndex, c).value;
      ColumnsLookup(g, headers, row, rowIndex, c, acc, key);
      CellStubsEffect(before, headers[c], row[c], acc, key);
      if headers[c] == key {
        OrAssociative(CellEffect(acc, row[c]), RowEffect(headers, row, c, acc, key), Lookup(g, acc, key));
      }
    }
  }

  /** After the row loop, every getter stub is the reference answer `LastEffect`. */
  lemma {:induction false} RowsLookup(headers: seq<string>, rows: seq<seq<string>>, acc: Accessor, key: string)
    requires RowsStubs(headers, rows).Success?
    ensures forall r :: 0 <= r < |rows| ==> |headers| <= |rows[r]|
    ensures Lookup(RowsStubs(headers, rows).value, acc, key) == LastEffect(headers, rows, acc, key)
    decreases |rows|
  {
    if rows != [] {
      var n := |rows|;
      var before := rows[..n - 1];
      RowsStubsStep(headers, rows);
      var g := RowsStubs(headers, before).value;
      RowsLookup(headers, before, acc, key);
      ColumnsLookup(g, headers, rows[n - 1], n - 1, |headers|, acc, key);
      forall r | 0 <= r < n
        ensures |headers| <= |rows[r]|
      {
        if r < n - 1 {
          assert rows[r] == before[r];
        }
      }
    }
  }

  /** One more data row: the row loop over the rows before it, then the column loop over it. */
  lemma RowsStubsStep(headers: seq<string>, rows: seq<seq<string>>)
    requires rows != [] && RowsStubs(headers, rows).Success?
    ensures RowsStubs(headers, rows[..|rows| - 1]).Success?
    ensures ColumnsStubs(RowsStubs(headers, rows[..|rows| - 1]).value, headers, rows[|rows| - 1], |rows| - 1, |headers|)
      == RowsStubs(headers, rows)
  {
  }

  /** In a row, the last column under `key` whose cell leaves anything at `acc` decides. */
  lemma {:induction false} RowEffectLastColumn(headers: seq<string>, row: seq<string>, columns: nat, acc: Accessor, c: nat)
    requires c < columns <= |headers| && columns <= |row|
    requires forall d :: c < d < columns ==> headers[d] != headers[c]
    requires CellEffect(acc, row[c]).Some?
    ensures RowEffect(headers, row, columns, acc, headers[c]) == CellEffect(acc, row[c])
    decreases columns
  {
    if columns - 1 > c {
      RowEffectLastColumn(headers, row, columns - 1, acc, c);
    }
  }

  /** A row none of whose cells under `key` leaves anything at `acc` has no answer there. */
  lemma {:induction false} RowEffectAbsent(headers: seq<string>, row: seq<string>, columns: nat, acc: Accessor, key: string)
    requires columns <= |headers| && columns <= |row|
    requires forall c :: 0 <= c < columns && headers[c] == key ==> CellEffect(acc, row[c]).None?
    ensures RowEffect(headers, row, columns, acc, key).None?
    decreases columns
  {
    if columns > 0 {
      RowEffectAbsent(headers, row, columns - 1, acc, key);
    }
  }

  /** Data rows none of whose cells under `key` leave anything at `acc` have no answer there. */
  lemma {:induction false} LastEffectAbsent(headers: seq<string>, rows: seq<seq<string>>, acc: Accessor, key: string)
    requires forall r :: 0 <= r < |rows| ==> |headers| <= |rows[r]|
    requires forall r, c :: 0 <= r < |rows| && 0 <= c < |headers| && headers[c] == key ==> CellEffect(acc, rows[r][c]).None?
    ensures LastEffect(headers, rows, acc, key).None?
    decreases |rows|
  {
    if rows != [] {
      var n := |rows|;
      var before := rows[..n - 1];
      assert forall q :: 0 <= q < n - 1 ==> before[q] == rows[q];
      RowEffectAbsent(headers, rows[n - 1], |headers|, acc, key);
      LastEffectAbsent(headers, before, acc, key);
    }
  }

  // ---------------------------------------------------------------------
  // The built mock
  // ---------------------------------------------------------------------

  /** `build()` on the records `csv` succeeds exactly when every header is well-formed and every data row fits. */
  lemma BuildFromAccepts(csv: CsvData)
    ensures BuildFrom(csv).Success? <==>
      (forall i :: 0 <= i < |csv.header| ==> WellFormedHeader(csv.header[i]))
      && (forall r :: 0 <= r < |csv.rows| ==> RowFits(|csv.header|, csv.rows[r]))
    ensures BuildFrom(csv).Failure? && HeaderStubs(csv.header).Failure? ==> BuildFrom(csv).error == HeaderStubs(csv.header).error
    ensures BuildFrom(csv).Failure? && HeaderStubs(csv.header).Success? ==> BuildFrom(csv).error == RowsStubs(csv.header, csv.rows).error
  {
    HeaderStubsOutcome(csv.header);
    RowsStubsAccepts(csv.header, csv.rows);
  }

  /** A successful build's registry, component by component. */
  lemma BuildFromParts(csv: CsvData)
    requires BuildFrom(csv).Success?
    ensures HeaderStubs(csv.header).Success? && RowsStubs(csv.header, csv.rows).Success?
    ensures BuildFrom(csv).value == Registry(Some(|csv.header|), HeaderStubs(csv.header).value.0,
      HeaderStubs(csv.header).value.1, RowsStubs(csv.header, csv.rows).value, NextReturns(|csv.rows|))
  {
  }

  /**
   * The metadata of a successfully built mock: the column count is the
   * number of headers, column i (from 1) is named by the text before the
   * first ' ' of header i and no other column has a name, only column 1
   * has a type (the last header's), and `next()` answers true once per
   * data row and false from then on.
   */
  lemma BuildFromMetadata(csv: CsvData)
    requires BuildFrom(csv).Success?
    ensures BuildFrom(csv).value.ColumnCount() == |csv.header|
    ensures forall i :: 0 <= i < |csv.header| ==> BuildFrom(csv).value.ColumnName(i + 1) == Some(TextBeforeSpace(csv.header[i]))
    ensures forall i :: BuildFrom(csv).value.ColumnName(i).Some? <==> 1 <= i <= |csv.header|
    ensures forall i :: i != 1 ==> BuildFrom(csv).value.ColumnType(i) == 0
    ensures csv.header == [] ==> BuildFrom(csv).value.ColumnType(1) == 0
    ensures csv.header != [] ==> WellFormedHeader(csv.header[|csv.header| - 1])
    ensures csv.header != [] ==>
      BuildFrom(csv).value.ColumnType(1) == Jdbc.VendorTypeNumber(DeclaredType(csv.header[|csv.header| - 1]))
    ensures forall k: nat :: NthAnswer(BuildFrom(csv).value.nextAnswers, k) == (k < |csv.rows|)
  {
    BuildFromParts(csv);
    HeaderStubsOutcome(csv.header);
    HeaderMetadata(csv.header);
    forall k: nat {
      NextReturnsAnswers(|csv.rows|, k);
    }
  }

  /** A getter stubbed at a key answers with its stub there. */
  lemma StubbedAnswer(reg: Registry, getters: Getters, acc: Accessor, key: string, v: Value)
    requires reg.getters == getters && Lookup(getters, acc, key) == Some(v)
    ensures reg.Get(acc, key) == v
  {
  }

  /** A getter nobody stubbed at a key answers Mockito's default there. */
  lemma DefaultWhenUnstubbed(reg: Registry, getters: Getters, acc: Accessor, key: string)
    requires reg.getters == getters && Lookup(getters, acc, key).None?
    ensures reg.Get(acc, key) == Default(acc)
  {
  }

  /** An integer getter nobody stubbed at a key answers 0 there. */
  lemma ZeroWhenUnstubbed(reg: Registry, getters: Getters, acc: Accessor, key: string)
    requires reg.getters == getters && Lookup(getters, acc, key).None?
    requires acc.GetInt? || acc.GetLong? || acc.GetShort?
    ensures reg.Get(acc, key) == Int(0)
  {
  }

  /** A getter whose stub at a key, if any, is null answers null there. */
  lemma NullWhenStubbedNull(reg: Registry, getters: Getters, acc: Accessor, key: string)
    requires reg.getters == getters && Lookup(getters, acc, key) in {None, Some(Null)}
    requires AnswersNull(acc)
    ensures reg.Get(acc, key) == Null
  {
  }

  /** The answers queued for `next()`: true for the first `rowCount` calls, false ever after. */
  lemma NextReturnsAnswers(rowCount: nat, k: nat)
    ensures NthAnswer(NextReturns(rowCount), k) == (k < rowCount)
  {
    var answers := NextReturns(rowCount);
    assert |answers| == rowCount + 1 && answers[rowCount] == false;
    if k < rowCount {
      assert answers[k] == true;
    }
  }

  /** The getters whose every stub is null. */
  predicate AnswersNull(acc: Accessor) {
    !(acc.GetBoolean? || acc.GetByte? || acc.GetInt? || acc.GetLong? || acc.GetShort?
      || acc.GetNString? || acc.GetObject? || acc.GetString?)
  }

  /** The getters that answer with the cell text. */
  predicate AnswersText(acc: Accessor) {
    acc.GetNString? || acc.GetObject? || acc.GetString?
  }

  /** No header after column `c` carries the same text: `c` is the last column with its key. */
  predicate LastColumnWithKey(headers: seq<string>, c: nat)
    requires c < |headers|
  {
    forall d :: c < d < |headers| ==> headers[d] != headers[c]
  }

  /** The row loop's stubs: the last data row's cell in the last column with a key decides where it leaves anything. */
  lemma RowsLastRowWins(headers: seq<string>, rows: seq<seq<string>>, c: nat, acc: Accessor)
    requires RowsStubs(headers, rows).Success? && rows != []
    requires c < |headers| && LastColumnWithKey(headers, c)
    ensures c < |rows[|rows| - 1]|
    ensures CellEffect(acc, rows[|rows| - 1][c]).Some? ==>
      Lookup(RowsStubs(headers, rows).value, acc, headers[c]) == CellEffect(acc, rows[|rows| - 1][c])
  {
    RowsLookup(headers, rows, acc, headers[c]);
    var last := rows[|rows| - 1];
    if CellEffect(acc, last[c]).Some? {
      RowEffectLastColumn(headers, last, |headers|, acc, c);
    }
  }

  /**
   * Later rows overwrite earlier ones: where the last data row's cell in
   * the last column with a key leaves anything at a getter, that is what
   * the getter answers for the key.
   */
  lemma LastRowWins(csv: CsvData, c: nat, acc: Accessor)
    requires BuildFrom(csv).Success? && csv.rows != []
    requires c < |csv.header| && LastColumnWithKey(csv.header, c)
    ensures c < |csv.rows[|csv.rows| - 1]|
    ensures CellEffect(acc, csv.rows[|csv.rows| - 1][c]).Some? ==>
      BuildFrom(csv).value.Get(acc, csv.header[c]) == CellEffect(acc, csv.rows[|csv.rows| - 1][c]).value
  {
    BuildFromParts(csv);
    RowsLastRowWins(csv.header, csv.rows, c, acc);
    var cell := csv.rows[|csv.rows| - 1][c];
    if CellEffect(acc, cell).Some? {
      StubbedAnswer(BuildFrom(csv).value, RowsStubs(csv.header, csv.rows).value, acc, csv.header[c], CellEffect(acc, cell).value);
    }
  }

  /** The row loop's stubs for a text getter: the last data row's cell, verbatim. */
  lemma RowsTextLastRow(headers: seq<string>, rows: seq<seq<string>>, c: nat, acc: Accessor)
    requires RowsStubs(headers, rows).Success? && rows != []
    requires c < |headers| && LastColumnWithKey(headers, c) && AnswersText(acc)
    ensures c < |rows[|rows| - 1]|
    ensures Lookup(RowsStubs(headers, rows).value, acc, headers[c]) == Some(Text(rows[|rows| - 1][c]))
  {
    RowsLastRowWins(headers, rows, c, acc);
  }

  /** `getString`, `getNString` and `getObject` answer with the last data row's cell, verbatim. */
  lemma TextGettersAnswerLastRow(csv: CsvData, c: nat, acc: Accessor)
    requires BuildFrom(csv).Success? && csv.rows != []
    requires c < |csv.header| && LastColumnWithKey(csv.header, c) && AnswersText(acc)
    ensures c < |csv.rows[|csv.rows| - 1]|
    ensures BuildFrom(csv).value.Get(acc, csv.header[c]) == Text(csv.rows[|csv.rows| - 1][c])
  {
    BuildFromParts(csv);
    RowsTextLastRow(csv.header, csv.rows, c, acc);
    StubbedAnswer(BuildFrom(csv).value, RowsStubs(csv.header, csv.rows).value, acc, csv.header[c],
      Text(csv.rows[|csv.rows| - 1][c]));
  }

  /** The row loop's stub for `getBoolean`: whether the last data row's cell lower-cases to "true". */
  lemma RowsBooleanLastRow(headers: seq<string>, rows: seq<seq<string>>, c: nat)
    requires RowsStubs(headers, rows).Success? && rows != []
    requires c < |headers| && LastColumnWithKey(headers, c)
    ensures c < |rows[|rows| - 1]|
    ensures Lookup(RowsStubs(headers, rows).value, GetBoolean, headers[c]) ==
      Some(Bool(LowerAscii(rows[|rows| - 1][c]) == "true"))
  {
    RowsLastRowWins(headers, rows, c, GetBoolean);
    BooleanValueOfIsLowerTrue(rows[|rows| - 1][c]);
  }

  /** `getBoolean` answers true exactly when the last data row's cell is "true" in any letter case. */
  lemma BooleanGetterAnswersLastRow(csv: CsvData, c: nat)
    requires BuildFrom(csv).Success? && csv.rows != []
    requires c < |csv.header| && LastColumnWithKey(csv.header, c)
    ensures c < |csv.rows[|csv.rows| - 1]|
    ensures BuildFrom(csv).value.Get(GetBoolean, csv.header[c]) == Bool(LowerAscii(csv.rows[|csv.rows| - 1][c]) == "true")
  {
    BuildFromParts(csv);
    RowsBooleanLastRow(csv.header, csv.rows, c);
    StubbedAnswer(BuildFrom(csv).value, RowsStubs(csv.header, csv.rows).value, GetBoolean, csv.header[c],
      Bool(LowerAscii(csv.rows[|csv.rows| - 1][c]) == "true"));
  }

  /** What `Integer.valueOf`, `Long.valueOf` or `Short.valueOf` makes of `cell`, for the matching getter. */
  function IntegerParse(acc: Accessor, cell: string): Option<int>
    requires acc.GetInt? || acc.GetLong? || acc.GetShort?
  {
    if acc.GetInt? then IntegerValueOf(cell) else if acc.GetLong? then LongValueOf(cell) else ShortValueOf(cell)
  }

  /**
   * `getInt`, `getLong` and `getShort` answer with the last data row's
   * value when it parses in the getter's range.
   */
  lemma IntegerGettersAnswerLastRow(csv: CsvData, c: nat, acc: Accessor)
    requires BuildFrom(csv).Success? && csv.rows != []
    requires c < |csv.header| && LastColumnWithKey(csv.header, c)
    requires acc.GetInt? || acc.GetLong? || acc.GetShort?
    ensures c < |csv.rows[|csv.rows| - 1]|
    ensures IntegerParse(acc, csv.rows[|csv.rows| - 1][c]).Some? ==>
      BuildFrom(csv).value.Get(acc, csv.header[c]) == Int(IntegerParse(acc, csv.rows[|csv.rows| - 1][c]).value)
  {
    BuildFromParts(csv);
    RowsIntegerLastRow(csv.header, csv.rows, c, acc);
    var parsed := IntegerParse(acc, csv.rows[|csv.rows| - 1][c]);
    if parsed.Some? {
      StubbedAnswer(BuildFrom(csv).value, RowsStubs(csv.header, csv.rows).value, acc, csv.header[c], Int(parsed.value));
    }
  }

  /** The row loop's stub for an integer getter: the last data row's value, when it parses. */
  lemma RowsIntegerLastRow(headers: seq<string>, rows: seq<seq<string>>, c: nat, acc: Accessor)
    requires RowsStubs(headers, rows).Success? && rows != []
    requires c < |headers| && LastColumnWithKey(headers, c)
    requires acc.GetInt? || acc.GetLong? || acc.GetShort?
    ensures c < |rows[|rows| - 1]|
    ensures IntegerParse(acc, rows[|rows| - 1][c]).Some? ==>
      Lookup(RowsStubs(headers, rows).value, acc, headers[c]) == Some(Int(IntegerParse(acc, rows[|rows| - 1][c]).value))
  {
    RowsLastRowWins(headers, rows, c, acc);
    IntegerCellEffect(acc, rows[|rows| - 1][c]);
  }

  /**
   * A cell that does not parse raises nothing and leaves the integer
   * getter's earlier stub in place; one that parses replaces it.
   */
  lemma IntegerStubsOnlyWhenParsed(g: Getters, key: string, cell: string, acc: Accessor)
    requires acc.GetInt? || acc.GetLong? || acc.GetShort?
    ensures IntegerParse(acc, cell).None? ==> Lookup(CellStubs(g, key, cell), acc, key) == Lookup(g, acc, key)
    ensures IntegerParse(acc, cell).Some? ==> Lookup(CellStubs(g, key, cell), acc, key) == Some(Int(IntegerParse(acc, cell).value))
  {
    CellStubsEffect(g, key, cell, acc, key);
  }

  /** For the integer getters, a cell leaves a stub exactly when it parses. */
  lemma IntegerCellEffect(acc: Accessor, cell: string)
    requires acc.GetInt? || acc.GetLong? || acc.GetShort?
    ensures CellEffect(acc, cell) == AsInt(IntegerParse(acc, cell))
  {
  }

  /** No cell of `rows` under the key `key` parses for the integer getter `acc`. */
  predicate NoCellParses(headers: seq<string>, rows: seq<seq<string>>, acc: Accessor, key: string)
    requires acc.GetInt? || acc.GetLong? || acc.GetShort?
  {
    forall r, c ::
      0 <= r < |rows| && 0 <= c < |headers| && c < |rows[r]| && headers[c] == key ==> IntegerParse(acc, rows[r][c]).None?
  }

  /** The row loop leaves no integer stub at a key under which no cell parses. */
  lemma RowsNeverParsed(headers: seq<string>, rows: seq<seq<string>>, acc: Accessor, key: string)
    requires RowsStubs(headers, rows).Success? && (acc.GetInt? || acc.GetLong? || acc.GetShort?)
    requires NoCellParses(headers, rows, acc, key)
    ensures Lookup(RowsStubs(headers, rows).value, acc, key).None?
  {
    RowsLookup(headers, rows, acc, key);
    forall r, c | 0 <= r < |rows| && 0 <= c < |headers| && headers[c] == key
      ensures CellEffect(acc, rows[r][c]).None?
    {
      IntegerCellEffect(acc, rows[r][c]);
    }
    LastEffectAbsent(headers, rows, acc, key);
  }

  /**
   * A key under which no cell ever parses leaves the integer getter at its
   * default: `getInt`, `getLong` and `getShort` answer 0.
   */
  lemma NeverParsedAnswersZero(csv: CsvData, key: string, acc: Accessor)
    requires BuildFrom(csv).Success? && (acc.GetInt? || acc.GetLong? || acc.GetShort?)
    requires NoCellParses(csv.header, csv.rows, acc, key)
    ensures BuildFrom(csv).value.Get(acc, key) == Int(0)
  {
    BuildFromParts(csv);
    RowsNeverParsed(csv.header, csv.rows, acc, key);
    ZeroWhenUnstubbed(BuildFrom(csv).value, RowsStubs(csv.header, csv.rows).value, acc, key);
  }

  /** Every null-stubbed getter, `getBytes` included, answers null for every key. */
  lemma NullGettersAnswerNull(csv: CsvData, key: string, acc: Accessor)
    requires BuildFrom(csv).Success? && AnswersNull(acc)
    ensures BuildFrom(csv).value.Get(acc, key) == Null
  {
    BuildFromParts(csv);
    RowsNullGetters(csv.header, csv.rows, acc, key);
    NullWhenStubbedNull(BuildFrom(csv).value, RowsStubs(csv.header, csv.rows).value, acc, key);
  }

  /** The row loop stubs the null-stubbed getters with null or not at all. */
  lemma RowsNullGetters(headers: seq<string>, rows: seq<seq<string>>, acc: Accessor, key: string)
    requires RowsStubs(headers, rows).Success? && AnswersNull(acc)
    ensures Lookup(RowsStubs(headers, rows).value, acc, key) in {None, Some(Null)}
  {
    RowsLookup(headers, rows, acc, key);
    LastEffectNull(headers, rows, acc, key);
  }

  lemma {:induction false} LastEffectNull(headers: seq<string>, rows: seq<seq<string>>, acc: Accessor, key: string)
    requires forall r :: 0 <= r < |rows| ==> |headers| <= |rows[r]|
    requires AnswersNull(acc)
    ensures LastEffect(headers, rows, acc, key) in {None, Some(Null)}
    decreases |rows|
  {
    if rows != [] {
      var n := |rows|;
      var before := rows[..n - 1];
      assert forall q :: 0 <= q < n - 1 ==> before[q] == rows[q];
      RowEffectNull(headers, rows[n - 1], |headers|, acc, key);
      LastEffectNull(headers, before, acc, key);
    }
  }

  lemma {:induction false} RowEffectNull(headers: seq<string>, row: seq<string>, columns: nat, acc: Accessor, key: string)
    requires columns <= |headers| && columns <= |row| && AnswersNull(acc)
    ensures RowEffect(headers, row, columns, acc, key) in {None, Some(Null)}
    decreases columns
  {
    if columns > 0 {
      RowEffectNull(headers, row, columns - 1, acc, key);
    }
  }

  /** A key that is not a header is never stubbed: every getter answers its default there. */
  lemma ForeignKeyAnswersDefault(csv: CsvData, key: string, acc: Accessor)
    requires BuildFrom(csv).Success? && key !in csv.header
    ensures BuildFrom(csv).value.Get(acc, key) == Default(acc)
  {
    BuildFromParts(csv);
    RowsForeignKey(csv.header, csv.rows, acc, key);
    DefaultWhenUnstubbed(BuildFrom(csv).value, RowsStubs(csv.header, csv.rows).value, acc, key);
  }

  /** The row loop stubs nothing at a key that is not a header. */
  lemma RowsForeignKey(headers: seq<string>, rows: seq<seq<string>>, acc: Accessor, key: string)
    requires RowsStubs(headers, rows).Success? && key !in headers
    ensures Lookup(RowsStubs(headers, rows).value, acc, key).None?
  {
    RowsLookup(headers, rows, acc, key);
    LastEffectAbsent(headers, rows, acc, key);
  }

  /**
   * The getters are keyed by the whole header text: asking with a column
   * name as `getColumnName` reports it answers the default, since a
   * well-formed header holds a ' ' and a column name does not.
   */
  lemma ColumnNameIsNotAKey(csv: CsvData, i: nat, acc: Accessor)
    requires BuildFrom(csv).Success? && 1 <= i <= |csv.header|
    ensures BuildFrom(csv).value.ColumnName(i).Some?
    ensures BuildFrom(csv).value.Get(acc, BuildFrom(csv).value.ColumnName(i).value) == Default(acc)
  {
    BuildFromMetadata(csv);
    BuildFromAccepts(csv);
    var name := TextBeforeSpace(csv.header[i - 1]);
    assert BuildFrom(csv).value.ColumnName(i) == Some(name);
    TextBeforeSpaceHasNoSpace(csv.header[i - 1]);
    forall j | 0 <= j < |csv.header|
      ensures csv.header[j] != name
    {
      assert WellFormedHeader(csv.header[j]);
      assert csv.header[j][IndexOfSpace(csv.header[j])] == ' ';
    }
    ForeignKeyAnswersDefault(csv, name, acc);
  }
}
