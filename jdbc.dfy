/**
 * The `java.sql.JDBCType` enumeration: its 39 constants in declaration order,
 * `JDBCType.valueOf(String)` (exact, case-sensitive constant name) and
 * `getVendorTypeNumber()` (the matching `java.sql.Types` value).
 */
module Jdbc {
  import opened Wrappers

  datatype JdbcType =
      Bit
    | TinyInt
    | SmallInt
    | Integer
    | BigInt
    | Float
    | Real
    | Double
    | Numeric
    | Decimal
    | Char
    | VarChar
    | LongVarChar
    | Date
    | Time
    | Timestamp
    | Binary
    | VarBinary
    | LongVarBinary
    | Null
    | Other
    | JavaObject
    | Distinct
    | Struct
    | Array
    | Blob
    | Clob
    | Ref
    | DataLink
    | Boolean
    | RowId
    | NChar
    | NVarChar
    | LongNVarChar
    | NClob
    | SqlXml
    | RefCursor
    | TimeWithTimezone
    | TimestampWithTimezone

  /** The Java constant name of `t`. */
  function Name(t: JdbcType): string {
    match t
    case Bit => "BIT"
    case TinyInt => "TINYINT"
    case SmallInt => "SMALLINT"
    case Integer => "INTEGER"
    case BigInt => "BIGINT"
    case Float => "FLOAT"
    case Real => "REAL"
    case Double => "DOUBLE"
    case Numeric => "NUMERIC"
    case Decimal => "DECIMAL"
    case Char => "CHAR"
    case VarChar => "VARCHAR"
    case LongVarChar => "LONGVARCHAR"
    case Date => "DATE"
    case Time => "TIME"
    case Timestamp => "TIMESTAMP"
    case Binary => "BINARY"
    case VarBinary => "VARBINARY"
    case LongVarBinary => "LONGVARBINARY"
    case Null => "NULL"
    case Other => "OTHER"
    case JavaObject => "JAVA_OBJECT"
    case Distinct => "DISTINCT"
    case Struct => "STRUCT"
    case Array => "ARRAY"
    case Blob => "BLOB"
    case Clob => "CLOB"
    case Ref => "REF"
    case DataLink => "DATALINK"
    case Boolean => "BOOLEAN"
    case RowId => "ROWID"
    case NChar => "NCHAR"
    case NVarChar => "NVARCHAR"
    case LongNVarChar => "LONGNVARCHAR"
    case NClob => "NCLOB"
    case SqlXml => "SQLXML"
    case RefCursor => "REF_CURSOR"
    case TimeWithTimezone => "TIME_WITH_TIMEZONE"
    case TimestampWithTimezone => "TIMESTAMP_WITH_TIMEZONE"
  }

  /**
   * `JDBCType.valueOf(s)`: the constant whose name is exactly `s`, None
   * (an IllegalArgumentException) for any other string. The lookup is
   * split by the length of `s`.
   */
  function ValueOf(s: string): (r: Option<JdbcType>)
    ensures r.Some? ==> Name(r.value) == s
  {
    if |s| == 3 then NamesOfLength3(s)
    else if |s| == 4 then NamesOfLength4(s)
    else if |s| == 5 then NamesOfLength5(s)
    else if |s| == 6 then NamesOfLength6(s)
    else if |s| == 7 then NamesOfLength7(s)
    else if |s| == 8 then NamesOfLength8(s)
    else if |s| == 9 then NamesOfLength9(s)
    else if |s| == 10 then NamesOfLength10(s)
    else if |s| == 11 then NamesOfLength11(s)
    else if |s| == 12 then NamesOfLength12(s)
    else if |s| == 13 then NamesOfLength13(s)
    else if |s| >= 14 then LongNames(s)
    else None
  }

  /** `ValueOf` on the names of 3 characters. */
  function NamesOfLength3(s: string): (r: Option<JdbcType>)
    requires |s| == 3
    ensures r.Some? ==> Name(r.value) == s
  {
    match s
    case "BIT" => Some(Bit)
    case "REF" => Some(Ref)
    case _ => None
  }

  /** `ValueOf` on the names of 4 characters. */
  function NamesOfLength4(s: string): (r: Option<JdbcType>)
    requires |s| == 4
    ensures r.Some? ==> Name(r.value) == s
  {
    match s
    case "REAL" => Some(Real)
    case "CHAR" => Some(Char)
    case "DATE" => Some(Date)
    case "TIME" => Some(Time)
    case "NULL" => Some(Null)
    case "BLOB" => Some(Blob)
    case "CLOB" => Some(Clob)
    case _ => None
  }

  /** `ValueOf` on the names of 5 characters. */
  function NamesOfLength5(s: string): (r: Option<JdbcType>)
    requires |s| == 5
    ensures r.Some? ==> Name(r.value) == s
  {
    match s
    case "FLOAT" => Some(Float)
    case "OTHER" => Some(Other)
    case "ARRAY" => Some(Array)
    case "ROWID" => Some(RowId)
    case "NCHAR" => Some(NChar)
    case "NCLOB" => Some(NClob)
    case _ => None
  }

  /** `ValueOf` on the names of 6 characters. */
  function NamesOfLength6(s: string): (r: Option<JdbcType>)
    requires |s| == 6
    ensures r.Some? ==> Name(r.value) == s
  {
    match s
    case "BIGINT" => Some(BigInt)
    case "DOUBLE" => Some(Double)
    case "BINARY" => Some(Binary)
    case "STRUCT" => Some(Struct)
    case "SQLXML" => Some(SqlXml)
    case _ => None
  }

  /** `ValueOf` on the names of 7 characters. */
  function NamesOfLength7(s: string): (r: Option<JdbcType>)
    requires |s| == 7
    ensures r.Some? ==> Name(r.value) == s
  {
    match s
    case "TINYINT" => Some(TinyInt)
    case "INTEGER" => Some(Integer)
    case "NUMERIC" => Some(Numeric)
    case "DECIMAL" => Some(Decimal)
    case "VARCHAR" => Some(VarChar)
    case "BOOLEAN" => Some(Boolean)
    case _ => None
  }

  /** `ValueOf` on the names of 8 characters. */
  function NamesOfLength8(s: string): (r: Option<JdbcType>)
    requires |s| == 8
    ensures r.Some? ==> Name(r.value) == s
  {
    match s
    case "SMALLINT" => Some(SmallInt)
    case "DISTINCT" => Some(Distinct)
    case "DATALINK" => Some(DataLink)
    case "NVARCHAR" => Some(NVarChar)
    case _ => None
  }

  /** `ValueOf` on the names of 9 characters. */
  function NamesOfLength9(s: string): (r: Option<JdbcType>)
    requires |s| == 9
    ensures r.Some? ==> Name(r.value) == s
  {
    match s
    case "TIMESTAMP" => Some(Timestamp)
    case "VARBINARY" => Some(VarBinary)
    case _ => None
  }

  /** `ValueOf` on the names of 10 characters. */
  function NamesOfLength10(s: string): (r: Option<JdbcType>)
    requires |s| == 10
    ensures r.Some? ==> Name(r.value) == s
  {
    match s
    case "REF_CURSOR" => Some(RefCursor)
    case _ => None
  }

  /** `ValueOf` on the names of 11 characters. */
  function NamesOfLength11(s: string): (r: Option<JdbcType>)
    requires |s| == 11
    ensures r.Some? ==> Name(r.value) == s
  {
    match s
    case "LONGVARCHAR" => Some(LongVarChar)
    case "JAVA_OBJECT" => Some(JavaObject)
    case _ => None
  }

  /** `ValueOf` on the names of 12 characters. */
  function NamesOfLength12(s: string): (r: Option<JdbcType>)
    requires |s| == 12
    ensures r.Some? ==> Name(r.value) == s
  {
    match s
    case "LONGNVARCHAR" => Some(LongNVarChar)
    case _ => None
  }

  /** `ValueOf` on the names of 13 characters. */
  function NamesOfLength13(s: string): (r: Option<JdbcType>)
    requires |s| == 13
    ensures r.Some? ==> Name(r.value) == s
  {
    match s
    case "LONGVARBINARY" => Some(LongVarBinary)
    case _ => None
  }

  /** `ValueOf` on the names of 14 characters or more. */
  function LongNames(s: string): (r: Option<JdbcType>)
    requires 14 <= |s|
    ensures r.Some? ==> Name(r.value) == s
  {
    match s
    case "TIME_WITH_TIMEZONE" => Some(TimeWithTimezone)
    case "TIMESTAMP_WITH_TIMEZONE" => Some(TimestampWithTimezone)
    case _ => None
  }

  /** `t.getVendorTypeNumber()`, the `java.sql.Types` code of `t`. */
  function VendorTypeNumber(t: JdbcType): int {
    match t
    case Bit => -7
    case TinyInt => -6
    case SmallInt => 5
    case Integer => 4
    case BigInt => -5
    case Float => 6
    case Real => 7
    case Double => 8
    case Numeric => 2
    case Decimal => 3
    case Char => 1
    case VarChar => 12
    case LongVarChar => -1
    case Date => 91
    case Time => 92
    case Timestamp => 93
    case Binary => -2
    case VarBinary => -3
    case LongVarBinary => -4
    case Null => 0
    case Other => 1111
    case JavaObject => 2000
    case Distinct => 2001
    case Struct => 2002
    case Array => 2003
    case Blob => 2004
    case Clob => 2005
    case Ref => 2006
    case DataLink => 70
    case Boolean => 16
    case RowId => -8
    case NChar => -15
    case NVarChar => -9
    case LongNVarChar => -16
    case NClob => 2011
    case SqlXml => 2009
    case RefCursor => 2012
    case TimeWithTimezone => 2013
    case TimestampWithTimezone => 2014
  }

  /** Every constant is found again by its own name (checked constant by constant). */
  lemma ValueOfName(t: JdbcType)
    ensures ValueOf(Name(t)) == Some(t)
  {
    match t
    case Bit =>
    case TinyInt =>
    case SmallInt =>
    case Integer =>
    case BigInt =>
    case Float =>
    case Real =>
    case Double =>
    case Numeric =>
    case Decimal =>
    case Char =>
    case VarChar =>
    case LongVarChar =>
    case Date =>
    case Time =>
    case Timestamp =>
    case Binary =>
    case VarBinary =>
    case LongVarBinary =>
    case Null =>
    case Other =>
    case JavaObject =>
    case Distinct =>
    case Struct =>
    case Array =>
    case Blob =>
    case Clob =>
    case Ref =>
    case DataLink =>
    case Boolean =>
    case RowId =>
    case NChar =>
    case NVarChar =>
    case LongNVarChar =>
    case NClob =>
    case SqlXml =>
    case RefCursor =>
    case TimeWithTimezone =>
    case TimestampWithTimezone =>
  }

  /** `valueOf` succeeds exactly on the catalogue's names. */
  lemma ValueOfSucceedsOnNames(s: string)
    ensures ValueOf(s).Some? <==> exists t :: Name(t) == s
  {
    if t :| Name(t) == s {
      ValueOfName(t);
    }
  }
}
