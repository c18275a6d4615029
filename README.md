# mockito-resultset: the result-set builder, modelled in Dafny

`MockitoResultSetBuilder` turns a CSV fixture into a Mockito mock of
`java.sql.ResultSet`. Its setters (`withFile`, `withReader`, `withPath`,
`withDelimiter`) record where the CSV text comes from and which text
delimiter the parser uses. `build()` then does five things in turn:

- It opens the reader, else the file, else the path.
- It stubs `getColumnCount()` with the number of headers.
- It splits each header `"<name> <JDBCType>"` on ' ' and stubs
  `getColumnName(i)` and `getColumnType(1)` accordingly.
- It stubs about two dozen getters for every cell of every data row.
- It stubs `next()` to answer true once per data record its row loop
  receives, then false.

The project models this as written.

- **Stub table.** The mock is an explicit stub table (`Stubs.ResultSetMock`).
  Every `when(...).thenReturn(...)` is a write into it, and later writes
  replace earlier ones. A lookup nobody stubbed answers Mockito's default:
  0, false or null. `next()` uses consecutive answers, and the last one
  repeats.
- **Build.** `ResultSetBuilder.Builder.Build` is the step-by-step procedure:
  the header loop, the row loop, the column loop and the `next()` answer
  array. It is proved to end in exactly the state that the specification
  function `ResultSetBuilder.BuildSpec` computes from the builder's
  settings and the parsed CSV records. It also fails with exactly the same
  exception.
- **Properties.** `BuilderProperties` proves what that state means for a
  consumer of the mock:
  - which inputs make `build()` throw, and with which exception;
  - what the metadata reports;
  - what each getter answers for a header key;
  - what `next()` answers call after call.
- **Java library behaviour.** `JavaLang` gives the Java library behaviour
  the outcome depends on: `String.split(" ")`, `Boolean.valueOf`, and
  `Integer`/`Short`/`Long.valueOf`. `Jdbc` gives `JDBCType.valueOf` and
  `getVendorTypeNumber`.

The builder differs in several ways from what the JDBC `ResultSet` contract
leads a caller to expect. The model follows the code:

- **No cursor.** There is no cursor state. Whatever `next()` has returned,
  every getter answers the last stub the row loop wrote for its key. For a
  text getter or `getBoolean`, that is the last data row's cell in the last
  column carrying the key. For `getInt`, `getLong` and `getShort`, it is the
  last such cell that parses in range.
- **Getter keys.** Getters are stubbed only by label, and the label is the
  whole header text (for example `"id INTEGER"`). The name that
  `getColumnName` reports is never a key. Position-based getters are never
  stubbed, so they answer defaults.
- **Column types.** `getColumnType` is stubbed only at position 1, and each
  header overwrites it, so the last header's type wins.
- **`getBytes`.** Its second stub (null) replaces the first (the cell's
  bytes), so `getBytes` answers null.
- **Failures.** Each of these makes `build()` throw:
  - a header without a second token;
  - a second token that is not a `JDBCType` constant name;
  - a data row shorter than the header;
  - an empty cell (`"".getBytes()[0]`).
- **Numbers that do not parse.** A cell that does not parse as a number
  writes no integer stub. The earlier stub, or the default 0, stays.

## Model

All source paths below are `src/main/java/mockito/resultset/MockitoResultSetBuilder.java`.

| member | source | states |
|---|---|---|
| ResultSetBuilder.Builder.constructor | src/main/java/mockito/resultset/MockitoResultSetBuilder.java:24-29 | a new builder has no file, path, reader or delimiter set |
| ResultSetBuilder.Builder.WithFile | src/main/java/mockito/resultset/MockitoResultSetBuilder.java:31-34 | sets the file, returns the same builder, leaves the other settings unchanged |
| ResultSetBuilder.Builder.WithReader | src/main/java/mockito/resultset/MockitoResultSetBuilder.java:36-39 | sets the reader, returns the same builder, leaves the other settings unchanged |
| ResultSetBuilder.Builder.WithPath | src/main/java/mockito/resultset/MockitoResultSetBuilder.java:41-44 | sets the path, returns the same builder, leaves the other settings unchanged |
| ResultSetBuilder.Builder.WithDelimiter | src/main/java/mockito/resultset/MockitoResultSetBuilder.java:46-49 | sets the text delimiter, returns the same builder, leaves the other settings unchanged |
| ResultSetBuilder.Builder.Build | src/main/java/mockito/resultset/MockitoResultSetBuilder.java:52-232 | fails exactly when the specification fails, with the same exception; otherwise returns a fresh mock whose whole stub table is the specification's |
| ResultSetBuilder.SelectSource | src/main/java/mockito/resultset/MockitoResultSetBuilder.java:64-72 | the reader is used when set, else the file, else the path; with none, the "no file, path or reader" IOException |
| BuilderProperties.SourcePrecedence | src/main/java/mockito/resultset/MockitoResultSetBuilder.java:64-72 | a set reader makes the file and path irrelevant; a set file makes the path irrelevant; with none, build throws before reading |
| ResultSetBuilder.ParsedHeaders | src/main/java/mockito/resultset/MockitoResultSetBuilder.java:88-97 | definition: the header loop's parse applied to each header at its 1-based position |
| ResultSetBuilder.Positioned | src/main/java/mockito/resultset/MockitoResultSetBuilder.java:88-97 | definition: the header loop's order, each header handed with its 1-based position to a parse function |
| ResultSetBuilder.PositionedInOrder | src/main/java/mockito/resultset/MockitoResultSetBuilder.java:88-97 | for any parse of the loop's shape: one result per header, header i (from 0) handled at position i + 1 |
| ResultSetBuilder.ParsedHeadersInOrder | src/main/java/mockito/resultset/MockitoResultSetBuilder.java:88-97 | one parse result per header, header i (from 0) parsed at position i + 1 |
| ResultSetBuilder.ParsedHeadersLength | src/main/java/mockito/resultset/MockitoResultSetBuilder.java:88-97 | the header loop produces exactly one parse result per header |
| ResultSetBuilder.ParsedHeaderAt | src/main/java/mockito/resultset/MockitoResultSetBuilder.java:88-97 | the header at index k (from 0) is the one parsed at position k + 1 |
| ResultSetBuilder.StubHeaders | src/main/java/mockito/resultset/MockitoResultSetBuilder.java:88-98 | the header loop fails exactly when the header fold fails, with its exception; otherwise it leaves exactly the fold's column names and types on the metadata mock |
| ResultSetBuilder.HeaderFailureSticks | src/main/java/mockito/resultset/MockitoResultSetBuilder.java:89-98 | once a header throws, later headers change nothing: the fold over all headers ends with the same failure |
| BuilderProperties.ParseHeaderOutcome | src/main/java/mockito/resultset/MockitoResultSetBuilder.java:91-96 | a header parses exactly when it has a second token naming a JDBCType; it then yields the text before the first ' ' and that type; otherwise the exception says which of the two is missing |
| BuilderProperties.HeaderFoldAccepts | src/main/java/mockito/resultset/MockitoResultSetBuilder.java:89-98 | the header loop completes exactly when every header parses |
| BuilderProperties.HeaderFoldFirstError | src/main/java/mockito/resultset/MockitoResultSetBuilder.java:89-98 | a failing header loop throws the exception of the first header that does not parse |
| BuilderProperties.HeaderFoldMaps | src/main/java/mockito/resultset/MockitoResultSetBuilder.java:95-96 | column names are stubbed exactly at 1..n, each with its own header's name; the column type only at 1, with the last header's vendor number |
| BuilderProperties.HeaderStubsOutcome | src/main/java/mockito/resultset/MockitoResultSetBuilder.java:88-98 | the header loop completes exactly when every header is well-formed, and otherwise throws the error of the first header that is not |
| BuilderProperties.HeaderMetadata | src/main/java/mockito/resultset/MockitoResultSetBuilder.java:95-96 | over well-formed headers, getColumnName(i) is the text before header i's first ' ' exactly for i in 1..n, and getColumnType(1) is the last header's type |
| JavaLang.IndexOfSpace | src/main/java/mockito/resultset/MockitoResultSetBuilder.java:91 | the position of the first ' ' is within the string, and there is a ' ' at it unless it is the end |
| JavaLang.NoSpaceBeforeIndex | src/main/java/mockito/resultset/MockitoResultSetBuilder.java:91 | no ' ' occurs before the first one |
| JavaLang.Fields | src/main/java/mockito/resultset/MockitoResultSetBuilder.java:91 | the pieces between the ' ' separators: at least one, the first being the text before the first ' ' |
| JavaLang.JoinFields | src/main/java/mockito/resultset/MockitoResultSetBuilder.java:91 | the pieces joined with ' ' give back the text they were cut from |
| JavaLang.FieldsHaveNoSpace | src/main/java/mockito/resultset/MockitoResultSetBuilder.java:91 | no piece holds a ' ' |
| JavaLang.DropTrailingEmpty | src/main/java/mockito/resultset/MockitoResultSetBuilder.java:91 | split's limit-0 trimming: a prefix of the pieces that does not end in an empty string, with only empty strings cut off |
| JavaLang.FieldsNonEmpty | src/main/java/mockito/resultset/MockitoResultSetBuilder.java:91 | some piece is non-empty exactly when the text holds a character other than ' ' |
| JavaLang.NonSpaceInNonEmptyField | src/main/java/mockito/resultset/MockitoResultSetBuilder.java:91 | a character other than ' ' lies in a non-empty piece |
| JavaLang.NonEmptyFieldHasNonSpace | src/main/java/mockito/resultset/MockitoResultSetBuilder.java:91 | a non-empty piece holds a character other than ' ' |
| JavaLang.DropTrailingEmptyKeepsTwo | src/main/java/mockito/resultset/MockitoResultSetBuilder.java:91-93 | two pieces survive the trimming exactly when some piece after the first is non-empty |
| JavaLang.SplitFirstTwo | src/main/java/mockito/resultset/MockitoResultSetBuilder.java:91-93 | `split(" ")` has an element 1 exactly when a non-space follows the first ' '; element 0 is then the text before that ' ', and element 1 the text up to the next ' ' |
| JavaLang.TextBeforeSpaceHasNoSpace | src/main/java/mockito/resultset/MockitoResultSetBuilder.java:92 | the column name (split element 0) holds no ' ' |
| Jdbc.ValueOf | src/main/java/mockito/resultset/MockitoResultSetBuilder.java:96 | a constant found for a string has exactly that string as its name |
| Jdbc.ValueOfName | src/main/java/mockito/resultset/MockitoResultSetBuilder.java:96 | every JDBCType constant is found by its own name |
| Jdbc.ValueOfSucceedsOnNames | src/main/java/mockito/resultset/MockitoResultSetBuilder.java:96 | `JDBCType.valueOf` succeeds exactly on the 39 constant names; any other string throws |
| ResultSetBuilder.StubCellToBoolean | src/main/java/mockito/resultset/MockitoResultSetBuilder.java:111-127 | the stubs from getArray to getBoolean for one cell, each twice under the header key, and nothing else changed |
| ResultSetBuilder.StubCellByteToLong | src/main/java/mockito/resultset/MockitoResultSetBuilder.java:129-170 | the stubs from getByte to getLong for one non-empty cell; getInt and getLong only when the cell parses in range |
| ResultSetBuilder.StubCellNCharToUrl | src/main/java/mockito/resultset/MockitoResultSetBuilder.java:173-213 | the stubs from getNCharacterStream to getURL for one cell; getShort only when the cell parses in range |
| ResultSetBuilder.StubCell | src/main/java/mockito/resultset/MockitoResultSetBuilder.java:111-213 | one cell's stubs: succeeds exactly when the cell is non-empty (`getBytes()[0]` throws otherwise) and then leaves the full per-cell stub set |
| ResultSetBuilder.StubRow | src/main/java/mockito/resultset/MockitoResultSetBuilder.java:106-214 | the column loop fails exactly when the column fold fails, with its exception; otherwise it leaves exactly the fold's getter stubs |
| ResultSetBuilder.StubRows | src/main/java/mockito/resultset/MockitoResultSetBuilder.java:100-218 | the row loop fails exactly when the row fold fails, with its exception; otherwise it has counted every row and leaves exactly the fold's getter stubs |
| ResultSetBuilder.ColumnsFailureSticks | src/main/java/mockito/resultset/MockitoResultSetBuilder.java:106-214 | once a cell throws, the remaining columns change nothing |
| ResultSetBuilder.RowsFailureSticks | src/main/java/mockito/resultset/MockitoResultSetBuilder.java:104-218 | once a row throws, the remaining rows change nothing |
| ResultSetBuilder.StubNextReturns | src/main/java/mockito/resultset/MockitoResultSetBuilder.java:221-225 | the array filled with true and then false at its end becomes `next()`'s consecutive answers: true once per row, then false |
| BuilderProperties.ColumnsStubsOutcome | src/main/java/mockito/resultset/MockitoResultSetBuilder.java:106-133 | the column loop completes exactly when every cell is present and non-empty, and otherwise throws at the first missing or empty cell |
| BuilderProperties.RowsStubsAccepts | src/main/java/mockito/resultset/MockitoResultSetBuilder.java:104-218 | the row loop completes exactly when every data row has a non-empty cell under every header |
| BuilderProperties.RowsStubsFirstError | src/main/java/mockito/resultset/MockitoResultSetBuilder.java:104-218 | a failing row loop throws at the first missing or empty cell of the first row that does not fit |
| BuilderProperties.ShortRowThrowsMissingField | src/main/java/mockito/resultset/MockitoResultSetBuilder.java:106-109 | a row with fewer fields than headers never gets through the column loop, and when its own cells are non-empty `getField` throws `MissingField` just past its end |
| BuilderProperties.ToBooleanEffect | src/main/java/mockito/resultset/MockitoResultSetBuilder.java:111-127 | at the cell's key, the getters from getArray to getBoolean get the cell's effect (null, or `Boolean.valueOf`); every other getter and every other key keep their old stub |
| BuilderProperties.ByteToLongEffect | src/main/java/mockito/resultset/MockitoResultSetBuilder.java:129-170 | at the cell's key, the getters from getByte to getLong get the cell's effect (getBytes ends null; getInt and getLong only when they parse); everything else keeps its old stub |
| BuilderProperties.NCharToUrlEffect | src/main/java/mockito/resultset/MockitoResultSetBuilder.java:173-213 | at the cell's key, the getters from getNCharacterStream to getURL get the cell's effect (the text for getNString, getObject and getString; getShort only when it parses); everything else keeps its old stub |
| BuilderProperties.CellStubsEffect | src/main/java/mockito/resultset/MockitoResultSetBuilder.java:111-213 | one cell's stubs change only its own key, where each getter gets the cell's effect in front of its old stub |
| BuilderProperties.ColumnsLookup | src/main/java/mockito/resultset/MockitoResultSetBuilder.java:106-214 | after the column loop over a row, each getter stub is that row's reference answer in front of what was there before |
| BuilderProperties.RowsLookup | src/main/java/mockito/resultset/MockitoResultSetBuilder.java:104-218 | after the row loop, each getter stub is the reference answer: the last row and the last column under the key with an effect decide |
| BuilderProperties.BuildFromAccepts | src/main/java/mockito/resultset/MockitoResultSetBuilder.java:88-218 | build succeeds on the records exactly when every header is well-formed and every data row fits; a header failure comes first |
| BuilderProperties.BuildFromMetadata | src/main/java/mockito/resultset/MockitoResultSetBuilder.java:84-98 | the column count is the number of headers; column i is named by header i's text before ' ' and no other column has a name; only column 1 has a type, the last header's; `next()` answers true once per data row, then false |
| BuilderProperties.NextReturnsAnswers | src/main/java/mockito/resultset/MockitoResultSetBuilder.java:221-225 | call k of `next()` answers true exactly when k is below the row count |
| BuilderProperties.LastRowWins | src/main/java/mockito/resultset/MockitoResultSetBuilder.java:104-214 | where the last data row's cell in the last column with a key has an effect on a getter, that getter answers it for the key |
| BuilderProperties.TextGettersAnswerLastRow | src/main/java/mockito/resultset/MockitoResultSetBuilder.java:179-183 | getString, getNString and getObject answer the last data row's cell verbatim |
| BuilderProperties.BooleanGetterAnswersLastRow | src/main/java/mockito/resultset/MockitoResultSetBuilder.java:126-127 | getBoolean answers true exactly when the last data row's cell is "true" in any letter case |
| BuilderProperties.IntegerGettersAnswerLastRow | src/main/java/mockito/resultset/MockitoResultSetBuilder.java:158-197 | getInt, getLong and getShort answer the last data row's value when it parses in the getter's range |
| BuilderProperties.IntegerStubsOnlyWhenParsed | src/main/java/mockito/resultset/MockitoResultSetBuilder.java:158-170 | a cell that does not parse leaves the integer getter's earlier stub; one that parses replaces it with the parsed value |
| BuilderProperties.IntegerCellEffect | src/main/java/mockito/resultset/MockitoResultSetBuilder.java:158-197 | a cell leaves an integer stub exactly when it parses for that getter |
| BuilderProperties.NeverParsedAnswersZero | src/main/java/mockito/resultset/MockitoResultSetBuilder.java:158-197 | where no cell under a key parses, getInt, getLong and getShort answer 0 there |
| BuilderProperties.NullGettersAnswerNull | src/main/java/mockito/resultset/MockitoResultSetBuilder.java:111-213 | every null-stubbed getter, getBytes included, answers null for every key |
| BuilderProperties.ForeignKeyAnswersDefault | src/main/java/mockito/resultset/MockitoResultSetBuilder.java:106-111 | a key that is not a full header text is never stubbed: every getter answers its default |
| BuilderProperties.ColumnNameIsNotAKey | src/main/java/mockito/resultset/MockitoResultSetBuilder.java:92-111 | asking a getter with the column name that getColumnName reports answers the default, since the key is the whole header |
| JavaLang.LowerAscii | src/main/java/mockito/resultset/MockitoResultSetBuilder.java:126 | definition: the text with every ASCII capital lower-cased |
| JavaLang.BooleanValueOfIsLowerTrue | src/main/java/mockito/resultset/MockitoResultSetBuilder.java:126 | `Boolean.valueOf(s)` is true exactly when s lower-cases to "true" |
| JavaLang.LongValueOf | src/main/java/mockito/resultset/MockitoResultSetBuilder.java:166 | `Long.valueOf` succeeds exactly on decimal literals in the long range, with their value |
| JavaLang.IntegerValueOf | src/main/java/mockito/resultset/MockitoResultSetBuilder.java:159 | `Integer.valueOf` succeeds exactly on decimal literals in the int range, and then agrees with `Long.valueOf` |
| JavaLang.ShortValueOf | src/main/java/mockito/resultset/MockitoResultSetBuilder.java:192 | `Short.valueOf` succeeds exactly on decimal literals in the short range, and then agrees with `Integer.valueOf` |
| JavaLang.ParseDecimalRoundTrip | src/main/java/mockito/resultset/MockitoResultSetBuilder.java:159-192 | every number's decimal text parses back to it |
| JavaLang.ValueOfRoundTrip | src/main/java/mockito/resultset/MockitoResultSetBuilder.java:159-192 | each integer parser reads back exactly the numbers of its type's range |
| Stubs.ResultSetMock.constructor | src/main/java/mockito/resultset/MockitoResultSetBuilder.java:80-83 | a fresh mock with nothing stubbed |
| Stubs.ResultSetMock.StubColumnCount | src/main/java/mockito/resultset/MockitoResultSetBuilder.java:84 | stubs getColumnCount and nothing else |
| Stubs.ResultSetMock.StubColumnName | src/main/java/mockito/resultset/MockitoResultSetBuilder.java:95 | stubs getColumnName at one position, replacing an earlier stub there, and nothing else |
| Stubs.ResultSetMock.StubColumnType | src/main/java/mockito/resultset/MockitoResultSetBuilder.java:96 | stubs getColumnType at one position, replacing an earlier stub there, and nothing else |
| Stubs.ResultSetMock.Stub | src/main/java/mockito/resultset/MockitoResultSetBuilder.java:111-213 | stubs one getter at one key, replacing an earlier stub there, and nothing else |
| Stubs.ResultSetMock.StubNext | src/main/java/mockito/resultset/MockitoResultSetBuilder.java:225 | replaces `next()`'s consecutive answers, and nothing else |
| Stubs.ResultSetMock.Next | src/main/java/mockito/resultset/MockitoResultSetBuilder.java:225 | a call of `next()` answers the first queued answer and consumes it unless it is the last |
| Stubs.CallNext | src/main/java/mockito/resultset/MockitoResultSetBuilder.java:225 | calling `next()` repeatedly sees the queued answers in order, the last one repeated |
| Stubs.AfterCallsShifts | src/main/java/mockito/resultset/MockitoResultSetBuilder.java:225 | after some calls, the next answer is the one that many places further on |
| ResultSetBuilder.ParseHeader | src/main/java/mockito/resultset/MockitoResultSetBuilder.java:91-96 | definition: split the header on ' '; no element 1 is MalformedHeader, an element 1 that is no JDBCType name is UnknownJdbcType, otherwise element 0 and the type |
| ResultSetBuilder.HeaderFold | src/main/java/mockito/resultset/MockitoResultSetBuilder.java:88-98 | definition: the column-name and column-type stubs after the parsed headers, the first failing header ending the loop |
| ResultSetBuilder.HeaderStubs | src/main/java/mockito/resultset/MockitoResultSetBuilder.java:88-98 | definition: the header fold over the parsed headers |
| ResultSetBuilder.CellStubsToBoolean | src/main/java/mockito/resultset/MockitoResultSetBuilder.java:111-127 | definition: one cell's writes from getArray to getBoolean, each made twice |
| ResultSetBuilder.StubParsed | src/main/java/mockito/resultset/MockitoResultSetBuilder.java:158-170 | definition: a parsed number written twice under the key, nothing when the parse failed |
| ResultSetBuilder.CellStubsByteToLong | src/main/java/mockito/resultset/MockitoResultSetBuilder.java:129-170 | definition: one cell's writes from getByte to getLong, getBytes written with the bytes then null |
| ResultSetBuilder.CellStubsNCharToUrl | src/main/java/mockito/resultset/MockitoResultSetBuilder.java:173-213 | definition: one cell's writes from getNCharacterStream to getURL |
| ResultSetBuilder.CellStubs | src/main/java/mockito/resultset/MockitoResultSetBuilder.java:111-213 | definition: the three cell segments in source order |
| ResultSetBuilder.ColumnsStubs | src/main/java/mockito/resultset/MockitoResultSetBuilder.java:106-214 | definition: the getter stubs after the first columns of one row; a missing field or an empty cell ends the loop |
| ResultSetBuilder.RowsStubs | src/main/java/mockito/resultset/MockitoResultSetBuilder.java:104-218 | definition: the getter stubs after the rows, the first failing row ending the loop |
| ResultSetBuilder.NextReturns | src/main/java/mockito/resultset/MockitoResultSetBuilder.java:221-223 | definition: true once per row, then one false |
| ResultSetBuilder.BuildFrom | src/main/java/mockito/resultset/MockitoResultSetBuilder.java:80-225 | definition: the whole stub table built from the header and data records, or the first exception |
| ResultSetBuilder.BuildSpec | src/main/java/mockito/resultset/MockitoResultSetBuilder.java:52-232 | definition: source selection, then reading, then BuildFrom |
| JavaLang.Split | src/main/java/mockito/resultset/MockitoResultSetBuilder.java:91 | definition: the text itself when it holds no ' ', otherwise the pieces with trailing empty ones removed |
| JavaLang.BooleanValueOf | src/main/java/mockito/resultset/MockitoResultSetBuilder.java:126 | definition: "true".equalsIgnoreCase(cell) |
| JavaLang.ParseDecimal | src/main/java/mockito/resultset/MockitoResultSetBuilder.java:159-192 | definition: an optional sign and one or more ASCII digits, read as a number |
| Jdbc.Name | src/main/java/mockito/resultset/MockitoResultSetBuilder.java:96 | definition: the Java constant name of each JDBCType constant |
| Jdbc.VendorTypeNumber | src/main/java/mockito/resultset/MockitoResultSetBuilder.java:96 | definition: the java.sql.Types code of each JDBCType constant |
| Stubs.Default | src/main/java/mockito/resultset/MockitoResultSetBuilder.java:111-213 | definition: Mockito's default answer: false for getBoolean, 0 for the integer getters, null otherwise |
| Stubs.NthAnswer | src/main/java/mockito/resultset/MockitoResultSetBuilder.java:225 | definition: answer k of the consecutive answers, the last one once they run out, false when none were stubbed |
| Stubs.Lookup | src/main/java/mockito/resultset/MockitoResultSetBuilder.java:111-213 | definition: the answer stubbed for a getter at a key, or none where nothing was stubbed |
| Stubs.Registry.Get | src/main/java/mockito/resultset/MockitoResultSetBuilder.java:111-213 | definition: a getter's answer at a key: its stub, otherwise Mockito's default |
| Stubs.Registry.ColumnCount | src/main/java/mockito/resultset/MockitoResultSetBuilder.java:84 | definition: the metadata's getColumnCount answer: the stubbed count, otherwise 0 |
| Stubs.Registry.ColumnName | src/main/java/mockito/resultset/MockitoResultSetBuilder.java:95 | definition: the metadata's getColumnName(i) answer: the stubbed name, otherwise null |
| Stubs.Registry.ColumnType | src/main/java/mockito/resultset/MockitoResultSetBuilder.java:96 | definition: the metadata's getColumnType(i) answer: the stubbed code, otherwise 0 |
| Stubs.AfterOneCall | src/main/java/mockito/resultset/MockitoResultSetBuilder.java:225 | definition: the consecutive answers still queued after one call of `next()`: all but the first, the last one kept |
| Stubs.AfterCalls | src/main/java/mockito/resultset/MockitoResultSetBuilder.java:225 | definition: the answers still queued after that many calls of `next()` |
| JavaLang.EqualsIgnoreCase | src/main/java/mockito/resultset/MockitoResultSetBuilder.java:126 | definition: `String.equalsIgnoreCase`: equal lengths, and each pair of characters equal or equal after ASCII upper-casing |

## Left out

- Opening the source and parsing the CSV with FastCSV (`new FileReader`, `csvReader.parse`, `nextRow`, `getHeader`) are I/O and a library the model cannot see. `Build` and `BuildSpec` take them as a parameter `read` from the selected source and the text delimiter to the header record and data records, or to an I/O failure.
- How FastCSV treats the text delimiter, quoting, an empty input or a missing header record is not modelled. The delimiter is only passed on to `read`.
- `read` stands for lines 74-78, including the `nextRow()` call on line 76. Its `rows` are exactly the records that the loop on line 104 receives, whatever FastCSV's `nextRow` yields after that call. The model does not claim that they are all the data records of the file.
- Reading is modelled as done all at once, before any header is parsed, so an I/O failure is always `ReadFailed`. The Java code reads lazily: an I/O error after a bad header or an empty cell would surface as that header's or that cell's exception instead.
- `getMetaData()` returning the metadata mock (line 83) is implicit: the registry holds the metadata stubs.
- `getDouble` and `getFloat` (lines 144-156) are left out, because Dafny has no floating point that matches `Double.valueOf` and `Float.valueOf`.
- Mockito's internals are not modelled: argument matching, the proxies, and the extra call that `when(...)` makes on the mock. Each stubbing is a write into the stub table.
- `getBytes()` and `getBytes()[0]` depend on the platform charset. The model keeps them abstract as `Bytes(cell)` and `FirstByte(cell)`. The only thing used is that an empty cell makes `[0]` throw.
- JavaLang.IntegerValueOf, JavaLang.LongValueOf, JavaLang.ShortValueOf: only ASCII digits are accepted. Java's `Character.digit` also accepts other Unicode decimal digits.
- JavaLang.BooleanValueOfIsLowerTrue: case-insensitive comparison uses ASCII case mapping only. Java's `equalsIgnoreCase` also folds non-ASCII letters, which cannot spell "true".
- `rowIndex` and `headerIndex` are Java `int`s. Their overflow past 2^31-1 rows or headers is not modelled; the model counts with unbounded naturals.
- The vendor numbers of `Jdbc.VendorTypeNumber` are taken to be the `java.sql.Types` constants that `JDBCType` wraps.
- ResultSetBuilder.Builder.Build: after an exception the Java mock is discarded half-stubbed. The model promises only the exception, not that partial state.
- The test file `src/test/java/mockito/resultset/MockitoResultSetTest.java` only calls `build()` and asserts nothing, so it adds no property.
