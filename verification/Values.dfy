/** The types a column can hold, and the values of each, owned and borrowed.

A text is its bytes, a floating-point number its bit pattern. Which byte strings are texts is a
parameter.
*/
module Values {
  import opened Proto

  type Octet = n: nat | n < 256
  type i64 = n: int | -0x8000_0000_0000_0000 <= n < 0x8000_0000_0000_0000
  type i32 = n: int | -0x8000_0000 <= n < 0x8000_0000
  type i16 = n: int | -0x8000 <= n < 0x8000
  type u32 = n: nat | n < 0x1_0000_0000
  type Bits64 = n: nat | n < 0x1_0000_0000_0000_0000
  type Sixteen = s: seq<Octet> | |s| == 16 witness seq(16, i => 0)

  datatype ColumnType =
    | Int8Type | Int4Type | Int2Type | TextType | VarcharType | BoolType | ByteaType
    | TimestampTzType | TimestampType | DoubleType | RealType | DateType | TimeType | UuidType
    | IntervalType | OidType | NumericType | BpcharType | JsonType | JsonbType
  {
    predicate Textual() {
      TextType? || VarcharType? || BpcharType? || JsonType? || JsonbType?
    }

    /** Which dense run the type is kept in. */
    function Run(): Run {
      match this
      case Int8Type | TimestampTzType | TimestampType | Int4Type | Int2Type | OidType | DateType | TimeType => IntRun
      case DoubleType => DoubleRun
      case RealType => FloatRun
      case BoolType => BoolRun
      case _ => ByteRun
    }
  }

  datatype Run = IntRun | DoubleRun | FloatRun | BoolRun | ByteRun

  datatype Value =
    | Null
    | Int8(i8: i64) | Int4(i4: i32) | Int2(i2: i16)
    | Text(text: seq<Octet>) | Bool(flag: bool) | Bytea(bytes: seq<Octet>)
    | TimestampTz(tz: i64) | Timestamp(ts: i64)
    | Double(double: Bits64) | Real(float: u32)
    | Date(day: i32) | Time(time: i64)
    | Uuid(uuid: Sixteen) | Interval(interval: Sixteen)
    | Oid(oid: u32) | Numeric(digits: seq<Octet>)
  {
    predicate Fits(ty: ColumnType) {
      match this
      case Null => true
      case Int8(_) => ty == Int8Type
      case Int4(_) => ty == Int4Type
      case Int2(_) => ty == Int2Type
      case Text(_) => ty.Textual()
      case Bool(_) => ty == BoolType
      case Bytea(_) => ty == ByteaType
      case TimestampTz(_) => ty == TimestampTzType
      case Timestamp(_) => ty == TimestampType
      case Double(_) => ty == DoubleType
      case Real(_) => ty == RealType
      case Date(_) => ty == DateType
      case Time(_) => ty == TimeType
      case Uuid(_) => ty == UuidType
      case Interval(_) => ty == IntervalType
      case Oid(_) => ty == OidType
      case Numeric(_) => ty == NumericType
    }

    function AsRef(): ValueRef {
      match this
      case Null => NullRef
      case Int8(v) => IntRef(v)
      case TimestampTz(v) => IntRef(v)
      case Timestamp(v) => IntRef(v)
      case Time(v) => IntRef(v)
      case Int4(v) => IntRef(v)
      case Date(v) => IntRef(v)
      case Oid(v) => IntRef(v)
      case Int2(v) => IntRef(v)
      case Bool(v) => BoolRef(v)
      case Double(v) => DoubleRef(v)
      case Real(v) => RealRef(v)
      case Text(v) => BytesRef(v)
      case Numeric(v) => BytesRef(v)
      case Uuid(v) => BytesRef(v)
      case Interval(v) => BytesRef(v)
      case Bytea(v) => BytesRef(v)
    }

    /** What is held as text is text. */
    ghost predicate Legible(utf8: seq<Octet> -> bool) {
      (Text? ==> utf8(text)) && (Numeric? ==> utf8(digits))
    }
  }

  datatype ValueRef =
    | NullRef
    | IntRef(number: i64)
    | BoolRef(truth: bool)
    | DoubleRef(bits64: Bits64)
    | RealRef(bits32: u32)
    | BytesRef(slice: seq<Octet>)
  {
    predicate In(run: Run) {
      match this
      case NullRef => false
      case IntRef(_) => run == IntRun
      case BoolRef(_) => run == BoolRun
      case DoubleRef(_) => run == DoubleRun
      case RealRef(_) => run == FloatRun
      case BytesRef(_) => run == ByteRun
    }

    /** The owned value of a type, refused when the type could not have written it. */
    function ToValue(ty: ColumnType, utf8: seq<Octet> -> bool): (r: Result<Value, ColumnError>)
      ensures r.Err? ==> r.error == Corruption
    {
      match this
      case NullRef => Ok(Null)
      case IntRef(v) =>
        if ty == Int8Type then Ok(Int8(v))
        else if ty == TimestampTzType then Ok(TimestampTz(v))
        else if ty == OidType then if 0 <= v < 0x1_0000_0000 then Ok(Oid(v)) else Err(Corruption)
        else if ty == TimestampType then Ok(Timestamp(v))
        else if ty == TimeType then Ok(Time(v))
        else if ty == Int4Type then if -0x8000_0000 <= v < 0x8000_0000 then Ok(Int4(v)) else Err(Corruption)
        else if ty == Int2Type then if -0x8000 <= v < 0x8000 then Ok(Int2(v)) else Err(Corruption)
        else if ty == DateType then if -0x8000_0000 <= v < 0x8000_0000 then Ok(Date(v)) else Err(Corruption)
        else Err(Corruption)
      case BoolRef(v) => if ty == BoolType then Ok(Bool(v)) else Err(Corruption)
      case DoubleRef(v) => if ty == DoubleType then Ok(Double(v)) else Err(Corruption)
      case RealRef(v) => if ty == RealType then Ok(Real(v)) else Err(Corruption)
      case BytesRef(v) =>
        if ty == NumericType then if utf8(v) then Ok(Numeric(v)) else Err(Corruption)
        else if ty == UuidType then if |v| == 16 then Ok(Uuid(v)) else Err(Corruption)
        else if ty == IntervalType then if |v| == 16 then Ok(Interval(v)) else Err(Corruption)
        else if ty == ByteaType then Ok(Bytea(v))
        else if ty.Textual() then if utf8(v) then Ok(Text(v)) else Err(Corruption)
        else Err(Corruption)
    }
  }

  datatype ColumnError = InvalidArgument | Corruption

  /** Borrowing a value and owning it again gives it back, and nothing else is given for the type. */
  lemma ValueRoundTrip(value: Value, ty: ColumnType, utf8: seq<Octet> -> bool)
    requires value.Legible(utf8)
    ensures value.Fits(ty) <==> value.AsRef().ToValue(ty, utf8) == Ok(value)
  {
  }

  /** A value that fits a type is kept in that type's run. */
  lemma FitsTheRun(value: Value, ty: ColumnType)
    requires value.Fits(ty) && !value.Null?
    ensures value.AsRef().In(ty.Run())
  {
  }
}
