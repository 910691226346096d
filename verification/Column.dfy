/** A column chunk: a null bitmap, and densely behind it the values of the rows that are not NULL.

A builder takes one value per row and hands over a column; walking the column weaves the values back
through the bitmap. What comes out is what went in, and when it could not be, the builder says so.
*/
module Column {
  import opened Proto
  import opened Values

  // -- the bitmap ----------------------------------------------------------------------

  predicate Test(byte: nat, k: nat) {
    if k == 0 then byte % 2 == 1 else Test(byte / 2, k - 1)
  }

  function Set(byte: nat, k: nat): nat {
    if k == 0 then (if byte % 2 == 1 then byte else byte + 1) else 2 * Set(byte / 2, k - 1) + byte % 2
  }

  lemma {:induction false} SetTests(byte: nat, k: nat, j: nat)
    ensures Test(Set(byte, k), j) == (j == k || Test(byte, j))
    decreases k
  {
    if k > 0 && j > 0 {
      SetTests(byte / 2, k - 1, j - 1);
    } else if k == 0 && j > 0 {
      assert Set(byte, 0) / 2 == byte / 2;
    }
  }

  /** Bit `k` counts for two to the power of `k`: the lowest bit is the first row's. */
  lemma {:induction false} SetWeighs(byte: nat, k: nat)
    ensures Set(byte, k) == byte + if Test(byte, k) then 0 else Limit(k)
    decreases k
  {
    if k > 0 {
      SetWeighs(byte / 2, k - 1);
    }
  }

  lemma {:induction false} SetFits(byte: nat, k: nat, n: nat)
    requires k < n <= 8 && byte < Limit(n)
    ensures Set(byte, k) < Limit(n)
    decreases k
  {
    var half := Limit(n - 1);
    assert Limit(n) == 2 * half;
    if k > 0 {
      assert byte / 2 < half;
      SetFits(byte / 2, k - 1, n - 1);
      assert Set(byte, k) == 2 * Set(byte / 2, k - 1) + byte % 2;
    }
  }

  function Limit(n: nat): nat {
    if n == 0 then 1 else 2 * Limit(n - 1)
  }

  lemma LimitOfByte()
    ensures Limit(8) == 256
  {
    assert Limit(4) == 16;
  }

  lemma {:induction false} ZeroTests(k: nat)
    ensures !Test(0, k)
  {
    if k > 0 {
      ZeroTests(k - 1);
    }
  }

  function Count(nulls: seq<bool>): (n: nat)
    ensures n <= |nulls|
  {
    if nulls == [] then 0 else Count(nulls[..|nulls| - 1]) + if nulls[|nulls| - 1] then 1 else 0
  }

  datatype NullMask = NullMask(bits: seq<Octet>, rows: nat, nulls: nat) {
    predicate IsNull(row: nat) {
      row < rows && row / 8 < |bits| && Test(bits[row / 8], row % 8)
    }

    /** The mask stands for these flags. */
    ghost predicate Shows(flags: seq<bool>) {
      && rows == |flags| && nulls == Count(flags)
      && forall row :: 0 <= row < |flags| ==> IsNull(row) == flags[row]
    }

    /** The count is the number of bits set among the rows. */
    ghost predicate Counted() {
      Shows(Flags())
    }

    ghost function Flags(): seq<bool> {
      seq(rows, row requires 0 <= row < rows => IsNull(row))
    }
  }

  lemma ShowsItsFlags(mask: NullMask, flags: seq<bool>)
    requires mask.Shows(flags)
    ensures mask.Flags() == flags && mask.Counted()
  {
    assert mask.Flags() == flags;
  }

  lemma {:induction false} NoneCounted(flags: seq<bool>, row: nat)
    requires row < |flags| && flags[row]
    ensures Count(flags) > 0
  {
    if row < |flags| - 1 {
      NoneCounted(flags[..|flags| - 1], row);
    }
  }

  method CountNulls(nulls: seq<bool>) returns (count: nat)
    ensures count == Count(nulls)
  {
    count := 0;
    for row := 0 to |nulls|
      invariant count == Count(nulls[..row])
    {
      assert nulls[..row + 1][..row] == nulls[..row];
      if nulls[row] {
        count := count + 1;
      }
    }
    assert nulls[..|nulls|] == nulls;
  }

  /** The bits of a row, and of no other, are where the row says. */
  lemma OneBit(byte: nat, row: nat, r: nat)
    ensures r / 8 == row / 8 ==> Test(Set(byte, row % 8), r % 8) == (r == row || Test(byte, r % 8))
  {
    hide Test, Set;
    SetTests(byte, row % 8, r % 8);
    assert r == 8 * (r / 8) + r % 8 && row == 8 * (row / 8) + row % 8;
  }

  method SetBits(nulls: seq<bool>, bits: array<Octet>)
    requires bits.Length == (|nulls| + 7) / 8
    requires forall b :: 0 <= b < bits.Length ==> bits[b] == 0
    modifies bits
    ensures forall r :: 0 <= r < |nulls| ==> Test(bits[r / 8], r % 8) == nulls[r]
  {
    hide Test, Set;
    forall r: nat | r < |nulls|
      ensures !Test(bits[r / 8], r % 8)
    {
      ZeroTests(r % 8);
    }
    for row := 0 to |nulls|
      invariant forall r :: 0 <= r < |nulls| ==> Test(bits[r / 8], r % 8) == (r < row && nulls[r])
    {
      if nulls[row] {
        LimitOfByte();
        SetFits(bits[row / 8], row % 8, 8);
        ghost var byte := bits[row / 8];
        forall r: nat | r < |nulls|
          ensures r / 8 == row / 8 ==> Test(Set(byte, row % 8), r % 8) == (r == row || Test(byte, r % 8))
        {
          OneBit(byte, row, r);
        }
        bits[row / 8] := Set(bits[row / 8], row % 8);
      }
    }
  }

  method FromBools(nulls: seq<bool>) returns (mask: NullMask)
    ensures mask.Shows(nulls)
    ensures |mask.bits| == if Count(nulls) == 0 then 0 else (|nulls| + 7) / 8
  {
    hide Test, Count;
    var count := CountNulls(nulls);
    if count == 0 {
      mask := NullMask([], |nulls|, 0);
      forall row | 0 <= row < |nulls|
        ensures !nulls[row]
      {
        if nulls[row] {
          NoneCounted(nulls, row);
        }
      }
      return;
    }
    var bits := new Octet[(|nulls| + 7) / 8](_ => 0);
    SetBits(nulls, bits);
    mask := NullMask(bits[..], |nulls|, count);
  }

  // -- the dense run -------------------------------------------------------------------

  datatype ColumnData =
    | Ints(ints: seq<i64>)
    | Doubles(doubles: seq<Bits64>)
    | Floats(floats: seq<u32>)
    | Bools(bools: seq<bool>)
    | Bytes(offsets: seq<u32>, data: seq<Octet>)
  {
    function Len(): nat {
      match this
      case Ints(values) => |values|
      case Doubles(values) => |values|
      case Floats(values) => |values|
      case Bools(values) => |values|
      case Bytes(offsets, _) => if |offsets| == 0 then 0 else |offsets| - 1
    }

    predicate Fits(ty: ColumnType) {
      match this
      case Ints(_) => ty.Run() == IntRun
      case Doubles(_) => ty.Run() == DoubleRun
      case Floats(_) => ty.Run() == FloatRun
      case Bools(_) => ty.Run() == BoolRun
      case Bytes(_, _) => ty.Run() == ByteRun
    }

    /** Byte offsets start at nothing, never go back and end at the data's end. */
    predicate Sound() {
      Bytes? ==>
        && |offsets| > 0 && offsets[0] == 0 && offsets[|offsets| - 1] == |data|
        && forall i :: 0 <= i < |offsets| - 1 ==> offsets[i] <= offsets[i + 1]
    }

    function At(i: nat): ValueRef
      requires Sound() && i < Len()
    {
      match this
      case Ints(values) => IntRef(values[i])
      case Doubles(values) => DoubleRef(values[i])
      case Floats(values) => RealRef(values[i])
      case Bools(values) => BoolRef(values[i])
      case Bytes(offsets, data) =>
        OffsetsFit(offsets, |data|, i + 1);
        BytesRef(data[offsets[i]..offsets[i + 1]])
    }

    ghost function Dense(): (r: seq<ValueRef>)
      requires Sound()
      ensures |r| == Len()
    {
      seq(Len(), i requires 0 <= i < Len() => At(i))
    }
  }

  lemma {:induction false} OffsetsFit(offsets: seq<u32>, end: nat, i: nat)
    requires i < |offsets| && offsets[|offsets| - 1] == end
    requires forall j :: 0 <= j < |offsets| - 1 ==> offsets[j] <= offsets[j + 1]
    ensures offsets[i] <= end
    decreases |offsets| - i
  {
    if i < |offsets| - 1 {
      OffsetsFit(offsets, end, i + 1);
    }
  }

  // -- the column ----------------------------------------------------------------------

  datatype Column = Column(ty: ColumnType, nulls: NullMask, data: ColumnData) {
    /** What every accessor relies on. */
    ghost predicate Valid() {
      && data.Fits(ty) && data.Sound() && nulls.Counted()
      && data.Len() == nulls.rows - nulls.nulls
    }

    /** The rows, NULLs in place. */
    ghost function Rows(): (rows: seq<ValueRef>)
      requires Valid()
      ensures |rows| == nulls.rows
    {
      Woven(nulls.Flags(), data.Dense())
    }
  }

  function NewColumn(ty: ColumnType, nulls: NullMask, data: ColumnData): (r: Result<Column, ColumnError>)
    requires nulls.Counted()
    ensures r.Ok? <==> Column(ty, nulls, data).Valid()
    ensures r.Ok? ==> r.value == Column(ty, nulls, data)
    ensures r.Err? ==> r.error == Corruption
  {
    if !data.Fits(ty) then Err(Corruption)
    else if data.Len() != nulls.rows - nulls.nulls then Err(Corruption)
    else if !data.Sound() then Err(Corruption)
    else Ok(Column(ty, nulls, data))
  }

  /** Values put back where the flags leave room for them. */
  ghost function Woven(flags: seq<bool>, values: seq<ValueRef>): (rows: seq<ValueRef>)
    requires |values| == |flags| - Count(flags)
    ensures |rows| == |flags|
    decreases |flags|
  {
    if flags == [] then []
    else
      var n := |flags| - 1;
      if flags[n] then Woven(flags[..n], values) + [NullRef]
      else Woven(flags[..n], values[..|values| - 1]) + [values[|values| - 1]]
  }

  lemma {:induction false} CountPrefix(flags: seq<bool>, row: nat)
    requires row <= |flags|
    ensures row - Count(flags[..row]) <= |flags| - Count(flags)
    decreases |flags|
  {
    if row == |flags| {
      assert flags[..row] == flags;
    } else {
      var n := |flags| - 1;
      assert flags[..n][..row] == flags[..row];
      CountPrefix(flags[..n], row);
    }
  }

  /** A row that is not NULL holds as many values before it as there are such rows. */
  lemma {:induction false} WovenAt(flags: seq<bool>, values: seq<ValueRef>, row: nat)
    requires |values| == |flags| - Count(flags) && row < |flags|
    ensures if flags[row] then Woven(flags, values)[row] == NullRef
            else row - Count(flags[..row]) < |values|
                 && Woven(flags, values)[row] == values[row - Count(flags[..row])]
    decreases |flags|
  {
    var n := |flags| - 1;
    if row < n {
      assert flags[..n][..row] == flags[..row];
      WovenAt(flags[..n], if flags[n] then values else values[..|values| - 1], row);
    }
  }

  class ColumnIter {
    const column: Column
    var row: nat
    var present: nat

    ghost predicate Valid()
      reads this
    {
      && column.Valid() && row <= column.nulls.rows
      && present == row - Count(column.nulls.Flags()[..row])
    }

    constructor (column: Column)
      requires column.Valid()
      ensures this.column == column && row == 0 && Valid()
    {
      this.column := column;
      row := 0;
      present := 0;
    }

    method Next() returns (r: Option<ValueRef>)
      requires Valid()
      modifies this
      ensures Valid()
      ensures if old(row) < column.nulls.rows
              then r == Some(column.Rows()[old(row)]) && row == old(row) + 1
              else r == None && row == old(row)
    {
      hide Woven, Count, Column.Valid, Column.Rows, NullMask.IsNull, ColumnData.At;
      if row >= column.nulls.rows {
        return None;
      }
      var at := row;
      NextRow(column, at, present);
      row := row + 1;
      if column.nulls.IsNull(at) {
        return Some(NullRef);
      }
      var index := present;
      present := present + 1;
      return Some(column.data.At(index));
    }
  }

  /** What the row at `row` is, and how many values lie before the next, given how many lie before it. */
  lemma NextRow(column: Column, row: nat, present: nat)
    requires column.Valid() && row < column.nulls.rows && present == row - Count(column.nulls.Flags()[..row])
    ensures var absent := column.nulls.IsNull(row);
      && present + (if absent then 0 else 1) == row + 1 - Count(column.nulls.Flags()[..row + 1])
      && (!absent ==> column.data.Sound() && present < column.data.Len())
      && column.Rows()[row] == if absent then NullRef else column.data.At(present)
  {
    hide Woven, NullMask.IsNull, ColumnData.At;
    var flags := column.nulls.Flags();
    WovenAt(flags, column.data.Dense(), row);
    assert flags[..row + 1][..row] == flags[..row];
  }

  // -- the builder ---------------------------------------------------------------------

  /** The run has room for the value, and is of its kind. */
  predicate Takes(run: ColumnData, value: ValueRef) {
    match value
    case NullRef => false
    case IntRef(_) => run.Ints?
    case DoubleRef(_) => run.Doubles?
    case RealRef(_) => run.Floats?
    case BoolRef(_) => run.Bools?
    case BytesRef(b) => run.Bytes? && |run.data| + |b| < 0x1_0000_0000
  }

  function Appended(run: ColumnData, value: ValueRef): ColumnData
    requires Takes(run, value)
  {
    match value
    case IntRef(v) => Ints(run.ints + [v])
    case DoubleRef(v) => Doubles(run.doubles + [v])
    case RealRef(v) => Floats(run.floats + [v])
    case BoolRef(v) => Bools(run.bools + [v])
    case BytesRef(b) => Bytes(run.offsets + [|run.data| + |b|], run.data + b)
  }

  lemma AppendedIsDense(run: ColumnData, value: ValueRef)
    requires run.Sound() && Takes(run, value)
    ensures Appended(run, value).Sound()
    ensures Appended(run, value).Dense() == run.Dense() + [value]
  {
    if value.BytesRef? {
      AppendedBytes(run, value.slice);
    } else {
      AppendedPlain(run, value);
    }
  }

  lemma AppendedPlain(run: ColumnData, value: ValueRef)
    requires run.Sound() && Takes(run, value) && !value.BytesRef?
    ensures Appended(run, value).Sound()
    ensures Appended(run, value).Dense() == run.Dense() + [value]
  {
    var more, n := Appended(run, value), run.Len();
    assert more.Sound() && more.Len() == n + 1;
    forall i | 0 <= i < n ensures more.At(i) == run.At(i) {
      match value
      case IntRef(_) =>
      case DoubleRef(_) =>
      case RealRef(_) =>
      case BoolRef(_) =>
    }
    assert more.At(n) == value;
    hide ColumnData.At, ColumnData.Len, Appended;
    assert more.Dense() == run.Dense() + [value];
  }

  lemma AppendedBytes(run: ColumnData, bytes: seq<Octet>)
    requires run.Sound() && Takes(run, BytesRef(bytes))
    ensures Appended(run, BytesRef(bytes)).Sound()
    ensures Appended(run, BytesRef(bytes)).Dense() == run.Dense() + [BytesRef(bytes)]
  {
    var more := Appended(run, BytesRef(bytes));
    var n := run.Len();
    forall i | 0 <= i < n
      ensures more.At(i) == run.At(i)
    {
      OffsetsFit(run.offsets, |run.data|, i + 1);
      assert more.data[run.offsets[i]..run.offsets[i + 1]] == run.data[run.offsets[i]..run.offsets[i + 1]];
    }
    assert more.At(n) == BytesRef(bytes);
    assert more.Dense() == run.Dense() + [BytesRef(bytes)];
  }

  class ColumnBuilder {
    const ty: ColumnType
    var nulls: seq<bool>
    var ints: seq<i64>
    var doubles: seq<Bits64>
    var floats: seq<u32>
    var bools: seq<bool>
    var offsets: seq<u32>
    var data: seq<Octet>

    /** The run the column's type is kept in. */
    function Kept(): (run: ColumnData)
      reads `ints, `doubles, `floats, `bools, `offsets, `data
      ensures run.Fits(ty)
    {
      match ty.Run()
      case IntRun => Ints(ints)
      case DoubleRun => Doubles(doubles)
      case FloatRun => Floats(floats)
      case BoolRun => Bools(bools)
      case ByteRun => Bytes(offsets, data)
    }

    ghost predicate Valid()
      reads this
    {
      && Kept().Sound() && (ty.Run() != ByteRun ==> data == [])
      && Kept().Len() <= |nulls| - Count(nulls)
    }

    /** Rows that were counted and whose value was then refused. */
    ghost function Missing(): nat
      requires Valid()
      reads this
    {
      |nulls| - Count(nulls) - Kept().Len()
    }

    /** The rows taken so far. */
    ghost function Contents(): seq<ValueRef>
      requires Valid() && Missing() == 0
      reads this
    {
      Woven(nulls, Kept().Dense())
    }

    constructor (ty: ColumnType)
      ensures this.ty == ty && Valid() && Missing() == 0 && Contents() == [] && data == []
    {
      this.ty := ty;
      nulls, ints, doubles, floats, bools, offsets, data := [], [], [], [], [], [0], [];
    }

    method Append(value: ValueRef) returns (ok: bool)
      requires value.In(ty.Run())
      modifies this
      ensures nulls == old(nulls)
      ensures ok == Takes(old(Kept()), value)
      ensures ok ==> Kept() == Appended(old(Kept()), value)
      ensures |data| == old(|data|) + if ok then Size(value) else 0
      ensures !ok ==> Kept() == old(Kept())
    {
      ok := true;
      match value {
        case IntRef(v) => ints := ints + [v];
        case DoubleRef(v) => doubles := doubles + [v];
        case RealRef(v) => floats := floats + [v];
        case BoolRef(v) => bools := bools + [v];
        case BytesRef(b) =>
          var end := |data| + |b|;
          if end >= 0x1_0000_0000 {
            return false;
          }
          data := data + b;
          offsets := offsets + [end];
      }
    }

    /** A row is counted before its value is appended; a value refused for size leaves it short. */
    method Push(value: Value) returns (r: Result<(), ColumnError>)
      requires Valid()
      modifies this
      ensures Valid()
      ensures !value.Fits(ty) ==> r == Err(InvalidArgument) && unchanged(this)
      ensures value.Fits(ty) && TooLarge(value, old(|data|)) ==>
                r == Err(InvalidArgument) && Missing() == old(Missing()) + 1 && |data| == old(|data|)
      ensures value.Fits(ty) && !TooLarge(value, old(|data|)) ==>
                && r == Ok(()) && Missing() == old(Missing()) && |data| == old(|data|) + Size(value.AsRef())
                && (Missing() == 0 ==> Contents() == old(Contents()) + [value.AsRef()])
    {
      hide Woven, Count;
      if !value.Fits(ty) {
        return Err(InvalidArgument);
      }
      ghost var run, flags, row := Kept(), nulls, value.AsRef();
      OneMoreRow(flags, run.Dense(), value.Null?, row);
      nulls := nulls + [value.Null?];
      if value.Null? {
        return Ok(());
      }
      FitsTheRun(value, ty);
      var ok := Append(value.AsRef());
      if !ok {
        return Err(InvalidArgument);
      }
      AppendedIsDense(run, row);
      r := Ok(());
    }

    /** Hands over what was taken, or refuses when a row lost its value; either way starts afresh. */
    method Finish() returns (r: Result<Column, ColumnError>)
      requires Valid()
      modifies this
      ensures Valid() && Missing() == 0 && Contents() == [] && data == []
      ensures r.Ok? <==> old(Missing()) == 0
      ensures r.Ok? ==> r.value.Valid() && r.value.ty == ty && r.value.Rows() == old(Contents())
      ensures r.Err? ==> r.error == Corruption
    {
      hide Woven;
      var mask := FromBools(nulls);
      ShowsItsFlags(mask, nulls);
      var run := Kept();
      Nothing();
      match ty.Run() {
        case IntRun => ints := [];
        case DoubleRun => doubles := [];
        case FloatRun => floats := [];
        case BoolRun => bools := [];
        case ByteRun => offsets, data := [0], [];
      }
      nulls := [];
      r := NewColumn(ty, mask, run);
    }
  }

  lemma Nothing()
    ensures Count([]) == 0 && Woven([], []) == []
  {
  }

  /** The rows of values, as a column holds them. */
  function Refs(values: seq<Value>): (rows: seq<ValueRef>)
    ensures |rows| == |values|
  {
    seq(|values|, i requires 0 <= i < |values| => values[i].AsRef())
  }

  function TotalSize(values: seq<Value>): nat {
    if values == [] then 0 else TotalSize(values[..|values| - 1]) + Size(values[|values| - 1].AsRef())
  }

  predicate AllFit(values: seq<Value>, ty: ColumnType) {
    forall i :: 0 <= i < |values| ==> values[i].Fits(ty)
  }

  lemma {:induction false} TotalGrows(values: seq<Value>, n: nat)
    requires n <= |values|
    ensures TotalSize(values[..n]) <= TotalSize(values)
    decreases |values|
  {
    if n == |values| {
      assert values[..n] == values;
    } else {
      assert values[..|values| - 1][..n] == values[..n];
      TotalGrows(values[..|values| - 1], n);
    }
  }

  lemma Prefix(values: seq<Value>, i: nat, ty: ColumnType)
    requires i < |values|
    ensures AllFit(values[..i + 1], ty) <==> AllFit(values[..i], ty) && values[i].Fits(ty)
    ensures AllFit(values, ty) ==> values[i].Fits(ty)
    ensures TotalSize(values[..i + 1]) == TotalSize(values[..i]) + Size(values[i].AsRef())
    ensures Refs(values[..i + 1]) == Refs(values[..i]) + [values[i].AsRef()]
  {
    hide Value.Fits, Value.AsRef;
    assert values[..i + 1][..i] == values[..i];
    assert forall j :: 0 <= j < i ==> values[..i + 1][j] == values[..i][j];
    assert values[..i + 1][i] == values[i];
  }

  lemma NoValues(values: seq<Value>, ty: ColumnType)
    ensures AllFit(values[..0], ty) && TotalSize(values[..0]) == 0 && Refs(values[..0]) == []
  {
  }

  /** A column from one value per row: built exactly when each fits and together they are small enough. */
  method Build(ty: ColumnType, values: seq<Value>) returns (r: Result<Column, ColumnError>)
    ensures r.Ok? <==> AllFit(values, ty) && TotalSize(values) < 0x1_0000_0000
    ensures r.Ok? ==> r.value.Valid() && r.value.ty == ty && r.value.Rows() == Refs(values)
    ensures r.Err? ==> r.error == InvalidArgument
  {
    hide Woven, Count, ColumnBuilder.Kept, ColumnBuilder.Valid, ColumnBuilder.Missing, ColumnBuilder.Contents;
    hide Value.Fits, Value.AsRef, Column.Valid, Column.Rows, AllFit, Refs, TotalSize;
    NoValues(values, ty);
    var builder := new ColumnBuilder(ty);
    for i := 0 to |values|
      invariant fresh(builder) && builder.ty == ty && builder.Valid() && builder.Missing() == 0
      invariant AllFit(values[..i], ty) && TotalSize(values[..i]) == |builder.data| < 0x1_0000_0000
      invariant builder.Contents() == Refs(values[..i])
    {
      Prefix(values, i, ty);
      TotalGrows(values, i + 1);
      var pushed := builder.Push(values[i]);
      if pushed.Err? {
        return Err(pushed.error);
      }
    }
    assert values[..|values|] == values;
    r := builder.Finish();
  }

  /** Rows owned again, or refused if any of them could not have been written. */
  ghost predicate Owns(rows: seq<ValueRef>, ty: ColumnType, utf8: seq<Octet> -> bool, r: Result<seq<Value>, ColumnError>) {
    match r
    case Ok(values) => |values| == |rows| && forall i :: 0 <= i < |rows| ==> rows[i].ToValue(ty, utf8) == Ok(values[i])
    case Err(error) => error == Corruption && exists i :: 0 <= i < |rows| && rows[i].ToValue(ty, utf8).Err?
  }

  method ToValues(column: Column, utf8: seq<Octet> -> bool) returns (r: Result<seq<Value>, ColumnError>)
    requires column.Valid()
    ensures Owns(column.Rows(), column.ty, utf8, r)
  {
    hide Woven, Column.Valid, ColumnIter.Valid, ValueRef.ToValue;
    var iter := new ColumnIter(column);
    var values: seq<Value> := [];
    ghost var rows := column.Rows();
    while true
      invariant fresh(iter) && iter.column == column && iter.Valid() && |values| == iter.row <= |rows|
      invariant forall i :: 0 <= i < iter.row ==> rows[i].ToValue(column.ty, utf8) == Ok(values[i])
      decreases column.nulls.rows - iter.row
    {
      var next := iter.Next();
      if next.None? {
        return Ok(values);
      }
      var value := next.value.ToValue(column.ty, utf8);
      if value.Err? {
        return Err(value.error);
      }
      values := values + [value.value];
    }
  }

  /** What went in comes out. */
  lemma BuiltIsRead(values: seq<Value>, ty: ColumnType, utf8: seq<Octet> -> bool, r: Result<seq<Value>, ColumnError>)
    requires AllFit(values, ty) && forall i :: 0 <= i < |values| ==> values[i].Legible(utf8)
    requires Owns(Refs(values), ty, utf8, r)
    ensures r == Ok(values)
  {
    forall i | 0 <= i < |values|
      ensures Refs(values)[i].ToValue(ty, utf8) == Ok(values[i])
    {
      ValueRoundTrip(values[i], ty, utf8);
    }
    hide ValueRef.ToValue, Value.AsRef;
    if r.Ok? {
      assert r.value == values;
    }
  }

  lemma OneMoreRow(flags: seq<bool>, values: seq<ValueRef>, isNull: bool, value: ValueRef)
    ensures Count(flags + [isNull]) == Count(flags) + if isNull then 1 else 0
    ensures |values| == |flags| - Count(flags) ==>
              if isNull then Woven(flags + [isNull], values) == Woven(flags, values) + [NullRef]
              else Woven(flags + [isNull], values + [value]) == Woven(flags, values) + [value]
  {
    assert (flags + [isNull])[..|flags|] == flags;
    assert (values + [value])[..|values|] == values;
  }

  function Size(value: ValueRef): nat {
    if value.BytesRef? then |value.slice| else 0
  }

  /** The bytes of one column would no longer be counted in thirty-two bits. */
  predicate TooLarge(value: Value, taken: nat) {
    value.AsRef().BytesRef? && taken + Size(value.AsRef()) >= 0x1_0000_0000
  }
}
