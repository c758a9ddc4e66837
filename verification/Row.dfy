/**
 * The row codec (src/schema/row.rs): a version byte, a null bitmap, one fixed-width field per column
 * and then the variable-length payloads in column order. What a row means is given by `Represents`;
 * encoding and decoding are proved against it.
 */
module Rows {
  import opened Wrappers
  import opened Bytes
  import opened Bits
  import opened Utf8Text
  import opened Pages
  import opened PageModel
  import opened Columns

  const ROW_FORMAT_VERSION: byte := 1
  const VARIABLE_DESCRIPTOR_SIZE := 8
  const MAX_ROW_SIZE := PAGE_SIZE - PAGE_HEADER_SIZE - SLOT_ENTRY_SIZE

  /** Floats are kept as their 64-bit patterns. */
  datatype Value =
    | Null
    | IntValue(number: i64)
    | FloatValue(bits: u64)
    | BoolValue(truth: bool)
    | TextValue(text: Text)
    | BytesValue(bytes: seq<byte>)

  datatype RowError =
    | WrongValueCount(expected: nat, found: nat)
    | TypeMismatch(column: Text, declared: DataType, value: string)
    | NullNotAllowed(column: Text)
    | ColumnOutOfBounds(index: nat, columnCount: nat)
    | RowTooLarge(size: nat)
    | CorruptRow(reason: string)

  // ----- Layout -----

  datatype ColumnLayout = ColumnLayout(offset: nat, width: nat)

  datatype RowLayout = RowLayout(nullBitmapSize: nat, columns: seq<ColumnLayout>, minimumRowSize: nat)

  function Width(t: DataType): nat {
    match t
    case IntType | FloatType => 8
    case BoolType => 1
    case TextType | BytesType => VARIABLE_DESCRIPTOR_SIZE
  }

  function BitmapSize(n: nat): nat {
    (n + 7) / 8
  }

  /** Where the field of column `i` starts; for `i` past the last column, where the payload area does. */
  function Offset(columns: seq<ColumnSchema>, i: nat): nat
    requires i <= |columns|
  {
    if i == 0 then 1 + BitmapSize(|columns|) else Offset(columns, i - 1) + Width(columns[i - 1].dataType)
  }

  function MinimumSize(columns: seq<ColumnSchema>): nat {
    Offset(columns, |columns|)
  }

  /** The layout that belongs to these columns. */
  ghost predicate Lays(layout: RowLayout, columns: seq<ColumnSchema>) {
    && layout.nullBitmapSize == BitmapSize(|columns|) && layout.minimumRowSize == MinimumSize(columns)
    && |layout.columns| == |columns|
    && forall i | 0 <= i < |columns| ::
      layout.columns[i] == ColumnLayout(Offset(columns, i), Width(columns[i].dataType))
  }

  lemma OffsetStep(columns: seq<ColumnSchema>, i: nat)
    requires i <= |columns|
    ensures Offset(columns, i) ==
      if i == 0 then 1 + BitmapSize(|columns|) else Offset(columns, i - 1) + Width(columns[i - 1].dataType)
  {
  }

  method Compile(columns: seq<ColumnSchema>) returns (layout: RowLayout)
    ensures Lays(layout, columns)
  {
    hide BitmapSize, Width, Offset;
    OffsetStep(columns, 0);
    var offset := 1 + BitmapSize(|columns|);
    var layouts := [];
    for i := 0 to |columns|
      invariant offset == Offset(columns, i) && |layouts| == i
      invariant forall j | 0 <= j < i :: layouts[j] == ColumnLayout(Offset(columns, j), Width(columns[j].dataType))
    {
      OffsetStep(columns, i + 1);
      var width := Width(columns[i].dataType);
      layouts := layouts + [ColumnLayout(offset, width)];
      offset := offset + width;
    }
    return RowLayout(BitmapSize(|columns|), layouts, offset);
  }

  /** Fields follow one another without overlap, after the bitmap and before the payload. */
  lemma {:induction false} FieldsApart(columns: seq<ColumnSchema>, i: nat, j: nat)
    requires i < j <= |columns|
    ensures 1 + BitmapSize(|columns|) <= Offset(columns, i)
    ensures Offset(columns, i) + Width(columns[i].dataType) <= Offset(columns, j)
    decreases j
  {
    if i + 1 < j {
      FieldsApart(columns, i, j - 1);
    } else if i > 0 {
      FieldsApart(columns, i - 1, i);
    }
  }

  // ----- What a row means -----

  function ToU64(v: i64): u64 {
    if v < 0 then v + 0x1_0000_0000_0000_0000 else v
  }

  function FromU64(v: u64): i64 {
    if v < 0x8000_0000_0000_0000 then v else v - 0x1_0000_0000_0000_0000
  }

  /** The value has the column's type, or is a null that the column allows. */
  predicate Fits(column: ColumnSchema, v: Value) {
    match v
    case Null => column.nullable
    case IntValue(_) => column.dataType.IntType?
    case FloatValue(_) => column.dataType.FloatType?
    case BoolValue(_) => column.dataType.BoolType?
    case TextValue(_) => column.dataType.TextType?
    case BytesValue(_) => column.dataType.BytesType?
  }

  /** The bytes a value keeps in the payload area. */
  function Payload(v: Value): seq<byte> {
    match v
    case TextValue(t) => t
    case BytesValue(b) => b
    case _ => []
  }

  function PayloadUpTo(values: seq<Value>, i: nat): nat
    requires i <= |values|
  {
    if i == 0 then 0 else PayloadUpTo(values, i - 1) + |Payload(values[i - 1])|
  }

  /** Where the payload of column `i` starts. */
  function PayloadStart(columns: seq<ColumnSchema>, values: seq<Value>, i: nat): nat
    requires i <= |values|
  {
    MinimumSize(columns) + PayloadUpTo(values, i)
  }

  /** The fixed-width field of a value whose payload, if it has one, starts at `start`. */
  function FieldBytes(column: ColumnSchema, v: Value, start: nat): seq<byte> {
    match v
    case Null => Zeros(Width(column.dataType))
    case IntValue(n) => Le64(ToU64(n))
    case FloatValue(bits) => Le64(bits)
    case BoolValue(b) => [if b then 1 else 0]
    case _ =>
      if start <= U32_MAX && |Payload(v)| <= U32_MAX then Le32(start) + Le32(|Payload(v)|) else []
  }

  predicate IsNull(row: seq<byte>, i: nat) {
    1 + i / 8 < |row| && Bit(row[1 + i / 8], i % 8)
  }

  ghost predicate FieldIs(columns: seq<ColumnSchema>, row: seq<byte>, i: nat, field: seq<byte>)
    requires i < |columns| && MinimumSize(columns) <= |row|
  {
    FieldsApart(columns, i, |columns|);
    row[Offset(columns, i)..Offset(columns, i) + Width(columns[i].dataType)] == field
  }

  ghost predicate PayloadIs(row: seq<byte>, start: nat, payload: seq<byte>) {
    start + |payload| <= |row| && row[start..start + |payload|] == payload
  }

  /** Column `i` of the row stores `values[i]`: its null bit, its field, and its payload where the field says. */
  ghost predicate Stores(columns: seq<ColumnSchema>, values: seq<Value>, row: seq<byte>, i: nat)
    requires i < |columns| && i < |values| && MinimumSize(columns) <= |row|
  {
    var start, v := PayloadStart(columns, values, i), values[i];
    && Fits(columns[i], v)
    && (IsNull(row, i) <==> v.Null?)
    && FieldIs(columns, row, i, FieldBytes(columns[i], v, start))
    && PayloadIs(row, start, Payload(v))
  }

  /** The row means exactly these values. */
  ghost predicate Represents(columns: seq<ColumnSchema>, values: seq<Value>, row: seq<byte>) {
    && |values| == |columns|
    && |row| == PayloadStart(columns, values, |values|) <= MAX_ROW_SIZE
    && row[0] == ROW_FORMAT_VERSION
    && forall i | 0 <= i < |columns| :: Stores(columns, values, row, i)
  }

  /** The bitmap bits that no column uses are zero. */
  ghost predicate PaddingClear(columns: seq<ColumnSchema>, row: seq<byte>) {
    forall i | |columns| <= i < 8 * BitmapSize(|columns|) :: !IsNull(row, i)
  }

  /** Exactly the value lists that have a row. */
  ghost predicate Encodable(columns: seq<ColumnSchema>, values: seq<Value>) {
    && |values| == |columns|
    && (forall i | 0 <= i < |columns| :: Fits(columns[i], values[i]))
    && PayloadStart(columns, values, |values|) <= MAX_ROW_SIZE
  }

  // ----- Encoding -----

  function TypeName(v: Value): string {
    match v
    case Null => "null"
    case IntValue(_) => "int"
    case FloatValue(_) => "float"
    case BoolValue(_) => "bool"
    case TextValue(_) => "text"
    case BytesValue(_) => "bytes"
  }

  /** What is wrong with the value of one column, given how much payload comes before it. */
  function ProblemAt(columns: seq<ColumnSchema>, values: seq<Value>, i: nat): Option<RowError>
    requires i < |columns| && i < |values|
  {
    var column, v := columns[i], values[i];
    var end := PayloadStart(columns, values, i) + |Payload(v)|;
    if v.Null? then if column.nullable then None else Some(NullNotAllowed(column.name))
    else if !Fits(column, v) then Some(TypeMismatch(column.name, column.dataType, TypeName(v)))
    else if (v.TextValue? || v.BytesValue?) && end > MAX_ROW_SIZE then Some(RowTooLarge(end))
    else None
  }

  /** The first problem from column `i` on; the total size is looked at last. */
  function FirstProblem(columns: seq<ColumnSchema>, values: seq<Value>, i: nat): Option<RowError>
    requires i <= |columns| == |values|
    decreases |columns| - i
  {
    if i == |columns| then
      var size := PayloadStart(columns, values, i);
      if size > MAX_ROW_SIZE then Some(RowTooLarge(size)) else None
    else if ProblemAt(columns, values, i).Some? then ProblemAt(columns, values, i)
    else FirstProblem(columns, values, i + 1)
  }

  lemma {:induction false} PayloadGrows(columns: seq<ColumnSchema>, values: seq<Value>, i: nat, j: nat)
    requires i <= j <= |values|
    ensures PayloadStart(columns, values, i) <= PayloadStart(columns, values, j)
    decreases j
  {
    if i < j {
      PayloadGrows(columns, values, i, j - 1);
    }
  }

  /** Encoding meets a problem exactly when the values have no row. */
  lemma {:induction false} NoProblemIffEncodable(columns: seq<ColumnSchema>, values: seq<Value>, i: nat)
    requires i <= |columns| == |values|
    ensures FirstProblem(columns, values, i).None? <==>
      && (forall j | i <= j < |columns| :: Fits(columns[j], values[j]))
      && PayloadStart(columns, values, |values|) <= MAX_ROW_SIZE
    decreases |columns| - i
  {
    if i < |columns| {
      NoProblemIffEncodable(columns, values, i + 1);
      PayloadGrows(columns, values, i + 1, |values|);
    }
  }

  lemma ProblemIffNotEncodable(columns: seq<ColumnSchema>, values: seq<Value>)
    ensures Encodable(columns, values) <==> |values| == |columns| && FirstProblem(columns, values, 0).None?
  {
    if |values| == |columns| {
      NoProblemIffEncodable(columns, values, 0);
    }
  }

  /** The row after `done` columns: those are stored, the other fields are still zero, and only null bits are set. */
  ghost predicate Filled(columns: seq<ColumnSchema>, values: seq<Value>, row: seq<byte>, done: nat)
    requires done <= |columns| == |values|
  {
    && |row| == PayloadStart(columns, values, done) && row[0] == ROW_FORMAT_VERSION
    && (forall i | 0 <= i < done :: Stores(columns, values, row, i))
    && (forall i | done <= i < |columns| :: FieldClear(columns, row, i))
    && BitmapSays(columns, values, row, done)
  }

  ghost predicate FieldClear(columns: seq<ColumnSchema>, row: seq<byte>, i: nat)
    requires i < |columns| && MinimumSize(columns) <= |row|
  {
    FieldIs(columns, row, i, Zeros(Width(columns[i].dataType)))
  }

  /** The bitmap has exactly the bits of the nulls among the first `done` values. */
  ghost predicate BitmapSays(columns: seq<ColumnSchema>, values: seq<Value>, row: seq<byte>, done: nat)
    requires done <= |columns| == |values|
  {
    forall i | 0 <= i < 8 * BitmapSize(|columns|) :: IsNull(row, i) <==> i < done && values[i].Null?
  }

  lemma HeadSize(columns: seq<ColumnSchema>)
    ensures 1 + BitmapSize(|columns|) <= MinimumSize(columns)
    ensures |columns| <= 8 * BitmapSize(|columns|)
  {
    if |columns| > 0 {
      FieldsApart(columns, 0, |columns|);
    }
  }

  lemma SameSlice(a: seq<byte>, b: seq<byte>, lo: nat, hi: nat)
    requires lo <= hi <= |a| <= |b| && forall k | lo <= k < hi :: a[k] == b[k]
    ensures a[lo..hi] == b[lo..hi]
  {
  }

  lemma FieldFrame(columns: seq<ColumnSchema>, row: seq<byte>, after: seq<byte>, i: nat, field: seq<byte>)
    requires i < |columns| && MinimumSize(columns) <= |row| <= |after| && FieldIs(columns, row, i, field)
    requires var o := Offset(columns, i);
      forall k | o <= k < o + Width(columns[i].dataType) && k < |row| :: after[k] == row[k]
    ensures FieldIs(columns, after, i, field)
  {
    FieldsApart(columns, i, |columns|);
    var o, w := Offset(columns, i), Width(columns[i].dataType);
    hide Offset, Width, BitmapSize;
    SameSlice(row, after, o, o + w);
  }

  lemma PayloadFrame(row: seq<byte>, after: seq<byte>, start: nat, payload: seq<byte>)
    requires |row| <= |after| && PayloadIs(row, start, payload)
    requires forall k | start <= k < |row| :: after[k] == row[k]
    ensures PayloadIs(after, start, payload)
  {
    SameSlice(row, after, start, start + |payload|);
  }

  /** What a column stores survives changes elsewhere. */
  lemma StoresFrame(columns: seq<ColumnSchema>, values: seq<Value>, row: seq<byte>, after: seq<byte>, i: nat)
    requires i < |columns| && i < |values| && MinimumSize(columns) <= |row| <= |after|
    requires Stores(columns, values, row, i) && IsNull(after, i) == IsNull(row, i)
    requires var o := Offset(columns, i);
      forall k | o <= k < o + Width(columns[i].dataType) && k < |row| :: after[k] == row[k]
    requires forall k | MinimumSize(columns) <= k < |row| :: after[k] == row[k]
    ensures Stores(columns, values, after, i)
  {
    assert PayloadStart(columns, values, i) >= MinimumSize(columns);
    hide Fits, FieldBytes, IsNull, Offset, Width, BitmapSize, PayloadUpTo, PayloadStart, MinimumSize, FieldIs, PayloadIs, Payload;
    FieldFrame(columns, row, after, i, FieldBytes(columns[i], values[i], PayloadStart(columns, values, i)));
    PayloadFrame(row, after, PayloadStart(columns, values, i), Payload(values[i]));
  }

  /** The null bits do not see what happens past the bitmap. */
  lemma BitmapFrame(columns: seq<ColumnSchema>, row: seq<byte>, after: seq<byte>)
    requires 1 + BitmapSize(|columns|) <= |row| <= |after|
    requires forall k | 1 <= k < 1 + BitmapSize(|columns|) :: after[k] == row[k]
    ensures forall i | 0 <= i < 8 * BitmapSize(|columns|) :: IsNull(after, i) == IsNull(row, i)
  {
    hide Bit;
  }

  /** The field of column `i` written in place, and its payload appended. */
  function WithField(columns: seq<ColumnSchema>, values: seq<Value>, row: seq<byte>, i: nat): seq<byte>
    requires i < |columns| && i < |values| && MinimumSize(columns) <= |row|
    requires |FieldBytes(columns[i], values[i], |row|)| == Width(columns[i].dataType)
  {
    FieldsApart(columns, i, |columns|);
    Splice(row, Offset(columns, i), FieldBytes(columns[i], values[i], |row|)) + Payload(values[i])
  }

  lemma WithFieldShape(columns: seq<ColumnSchema>, values: seq<Value>, row: seq<byte>, i: nat)
    requires i < |columns| && i < |values| && MinimumSize(columns) <= |row|
    requires |FieldBytes(columns[i], values[i], |row|)| == Width(columns[i].dataType)
    ensures var after, o := WithField(columns, values, row, i), Offset(columns, i);
      && |after| == |row| + |Payload(values[i])|
      && (forall k | 0 <= k < |row| && !(o <= k < o + Width(columns[i].dataType)) :: after[k] == row[k])
      && FieldIs(columns, after, i, FieldBytes(columns[i], values[i], |row|))
      && PayloadIs(after, |row|, Payload(values[i]))
  {
    FieldsApart(columns, i, |columns|);
    hide FieldBytes, Offset, Width, BitmapSize, Payload, MinimumSize;
  }

  /** One more column is stored, and nothing stored before changes. */
  lemma {:induction false} FieldStored(columns: seq<ColumnSchema>, values: seq<Value>, row: seq<byte>, i: nat)
    requires i < |columns| == |values| && Filled(columns, values, row, i)
    requires Fits(columns[i], values[i]) && !values[i].Null?
    requires |FieldBytes(columns[i], values[i], |row|)| == Width(columns[i].dataType)
    ensures Filled(columns, values, WithField(columns, values, row, i), i + 1)
  {
    hide Filled, WithField, FieldBytes, Stores, FieldClear, Fits, BitmapSize, Payload, PayloadStart, MinimumSize, IsNull,
      BitmapSays, OnlyFieldDiffers, SameNulls, Width;
    FilledParts(columns, values, row, i);
    FieldStoredSetting(columns, values, row, i);
    var after := WithField(columns, values, row, i);
    BitmapStep(columns, values, row, after, i);
    FieldStoredElsewhere(columns, values, row, after, i);
    FieldStoredHere(columns, values, row, i);
    FilledFromParts(columns, values, after, i + 1);
  }

  lemma FilledParts(columns: seq<ColumnSchema>, values: seq<Value>, row: seq<byte>, done: nat)
    requires done <= |columns| == |values| && Filled(columns, values, row, done)
    ensures MinimumSize(columns) <= |row| == PayloadStart(columns, values, done) && |row| > 0 && row[0] == ROW_FORMAT_VERSION
    ensures forall i | 0 <= i < done :: Stores(columns, values, row, i)
    ensures forall i | done <= i < |columns| :: FieldClear(columns, row, i)
    ensures BitmapSays(columns, values, row, done)
  {
    HeadSize(columns);
    hide Stores, FieldClear, BitmapSays, Offset, BitmapSize;
  }

  lemma FilledFromParts(columns: seq<ColumnSchema>, values: seq<Value>, row: seq<byte>, done: nat)
    requires done <= |columns| == |values|
    requires MinimumSize(columns) <= |row| == PayloadStart(columns, values, done) && |row| > 0 && row[0] == ROW_FORMAT_VERSION
    requires forall i | 0 <= i < done :: Stores(columns, values, row, i)
    requires forall i | done <= i < |columns| :: FieldClear(columns, row, i)
    requires BitmapSays(columns, values, row, done)
    ensures Filled(columns, values, row, done)
  {
    hide Stores, FieldClear, BitmapSays, Offset, BitmapSize;
  }

  /** `after` has the bytes of `row`, but for the field of column `i` and what was appended. */
  ghost predicate OnlyFieldDiffers(columns: seq<ColumnSchema>, row: seq<byte>, after: seq<byte>, i: nat)
    requires i < |columns|
  {
    var o := Offset(columns, i);
    |row| <= |after| && forall k | 0 <= k < |row| && !(o <= k < o + Width(columns[i].dataType)) :: after[k] == row[k]
  }

  /** What the row looks like around the new field. */
  lemma {:induction false} FieldStoredSetting(columns: seq<ColumnSchema>, values: seq<Value>, row: seq<byte>, i: nat)
    requires i < |columns| == |values| && Filled(columns, values, row, i)
    requires |FieldBytes(columns[i], values[i], |row|)| == Width(columns[i].dataType)
    ensures 1 + BitmapSize(|columns|) <= MinimumSize(columns) <= |row| == PayloadStart(columns, values, i)
    ensures |columns| <= 8 * BitmapSize(|columns|)
    ensures var after := WithField(columns, values, row, i);
      && |after| == PayloadStart(columns, values, i + 1) && |row| <= |after| && after[0] == row[0]
      && OnlyFieldDiffers(columns, row, after, i) && SameNulls(columns, row, after)
  {
    HeadSize(columns);
    FieldsApart(columns, i, |columns|);
    assert MinimumSize(columns) <= |row|;
    hide WithField, FieldBytes, Offset, Width, Filled, BitmapSize, FieldIs, PayloadIs, IsNull, MinimumSize, Payload;
    WithFieldShape(columns, values, row, i);
    BitmapFrame(columns, row, WithField(columns, values, row, i));
  }

  /** The bitmaps of two rows read the same. */
  ghost predicate SameNulls(columns: seq<ColumnSchema>, row: seq<byte>, after: seq<byte>) {
    forall j | 0 <= j < 8 * BitmapSize(|columns|) :: IsNull(after, j) == IsNull(row, j)
  }

  lemma BitmapStep(columns: seq<ColumnSchema>, values: seq<Value>, row: seq<byte>, after: seq<byte>, i: nat)
    requires i < |columns| == |values| && |columns| <= 8 * BitmapSize(|columns|)
    requires BitmapSays(columns, values, row, i) && !values[i].Null? && SameNulls(columns, row, after)
    ensures BitmapSays(columns, values, after, i + 1) && !IsNull(after, i)
  {
    hide IsNull, BitmapSize;
  }

  lemma {:induction false} FieldStoredHere(columns: seq<ColumnSchema>, values: seq<Value>, row: seq<byte>, i: nat)
    requires i < |columns| == |values| && MinimumSize(columns) <= |row| == PayloadStart(columns, values, i)
    requires Fits(columns[i], values[i]) && !values[i].Null?
    requires |FieldBytes(columns[i], values[i], |row|)| == Width(columns[i].dataType)
    requires !IsNull(WithField(columns, values, row, i), i)
    ensures Stores(columns, values, WithField(columns, values, row, i), i)
  {
    hide Fits, FieldBytes, IsNull, Offset, Width, WithField, BitmapSize, FieldIs, PayloadIs, Payload;
    WithFieldShape(columns, values, row, i);
  }

  lemma {:induction false} FieldStoredElsewhere(columns: seq<ColumnSchema>, values: seq<Value>, row: seq<byte>, after: seq<byte>, i: nat)
    requires i < |columns| == |values| && MinimumSize(columns) <= |row| <= |after|
    requires forall j | 0 <= j < i :: Stores(columns, values, row, j)
    requires forall j | i <= j < |columns| :: FieldClear(columns, row, j)
    requires 1 + BitmapSize(|columns|) <= MinimumSize(columns) && |columns| <= 8 * BitmapSize(|columns|)
    requires OnlyFieldDiffers(columns, row, after, i) && SameNulls(columns, row, after)
    ensures forall j | 0 <= j < i :: Stores(columns, values, after, j)
    ensures forall j | i < j < |columns| :: FieldClear(columns, after, j)
  {
    FieldsApart(columns, i, |columns|);
    hide Stores, FieldIs, IsNull;
    forall j | 0 <= j < i ensures Stores(columns, values, after, j) {
      FieldsApart(columns, j, i);
      StoresFrame(columns, values, row, after, j);
    }
    forall j | i < j < |columns| ensures FieldClear(columns, after, j) {
      FieldsApart(columns, i, j);
      assert FieldClear(columns, row, j);
      FieldFrame(columns, row, after, j, Zeros(Width(columns[j].dataType)));
    }
  }

  /** Sets the null bit of column `i`; no other bit and no other byte changes. */
  function SetNull(row: seq<byte>, i: nat): (after: seq<byte>)
    requires 1 + i / 8 < |row|
    ensures |after| == |row|
    ensures forall k | 0 <= k < |row| && k != 1 + i / 8 :: after[k] == row[k]
    ensures forall j :: IsNull(after, j) <==> j == i || IsNull(row, j)
  {
    EightBits();
    SetBitBound(row[1 + i / 8], i % 8, 8);
    SetNullBits(row, i);
    row[1 + i / 8 := SetBit(row[1 + i / 8], i % 8)]
  }

  lemma {:induction false} SetNullBits(row: seq<byte>, i: nat)
    requires 1 + i / 8 < |row| && SetBit(row[1 + i / 8], i % 8) < 256
    ensures var after: seq<byte> := row[1 + i / 8 := SetBit(row[1 + i / 8], i % 8)];
      forall j :: IsNull(after, j) <==> j == i || IsNull(row, j)
  {
    hide Bit, SetBit;
    var after: seq<byte> := row[1 + i / 8 := SetBit(row[1 + i / 8], i % 8)];
    forall j: nat ensures IsNull(after, j) <==> j == i || IsNull(row, j) {
      SetBitBits(row[1 + i / 8], i % 8, j % 8);
      assert j == 8 * (j / 8) + j % 8 && i == 8 * (i / 8) + i % 8;
    }
  }

  /** A null is stored by its bit alone: its field is already zero. */
  lemma {:induction false} NullStored(columns: seq<ColumnSchema>, values: seq<Value>, row: seq<byte>, i: nat)
    requires i < |columns| == |values| && Filled(columns, values, row, i)
    requires Fits(columns[i], values[i]) && values[i].Null?
    ensures 1 + i / 8 < 1 + BitmapSize(|columns|) <= |row|
    ensures Filled(columns, values, SetNull(row, i), i + 1)
  {
    HeadSize(columns);
    FieldsApart(columns, i, |columns|);
    BitmapCovers(columns, i);
    assert MinimumSize(columns) <= |row|;
    assert FieldClear(columns, row, i);
    var after := SetNull(row, i);
    hide SetNull, Offset, Width, Stores, Fits, BitmapSize, IsNull, FieldIs;
    forall j | 0 <= j < i ensures Stores(columns, values, after, j) {
      FieldsApart(columns, j, i);
      StoresFrame(columns, values, row, after, j);
    }
    forall j | i <= j < |columns| ensures FieldClear(columns, after, j) {
      FieldsApart(columns, j, |columns|);
      assert FieldClear(columns, row, j);
      FieldFrame(columns, row, after, j, Zeros(Width(columns[j].dataType)));
    }
    NullStoredHere(columns, values, after, i);
  }

  lemma BitmapCovers(columns: seq<ColumnSchema>, i: nat)
    requires i < |columns|
    ensures 1 + i / 8 < 1 + BitmapSize(|columns|)
  {
  }

  lemma NullStoredHere(columns: seq<ColumnSchema>, values: seq<Value>, row: seq<byte>, i: nat)
    requires i < |columns| == |values| && MinimumSize(columns) <= |row| == PayloadStart(columns, values, i)
    requires Fits(columns[i], values[i]) && values[i].Null? && IsNull(row, i) && FieldClear(columns, row, i)
    ensures Stores(columns, values, row, i)
  {
    hide IsNull, Offset, Width, FieldIs;
  }

  /** The row every encoding starts from. */
  lemma {:induction false} EmptyRowFilled(columns: seq<ColumnSchema>, values: seq<Value>)
    requires |columns| == |values|
    ensures MinimumSize(columns) >= 1
    ensures Filled(columns, values, Zeros(MinimumSize(columns))[0 := ROW_FORMAT_VERSION], 0)
  {
    HeadSize(columns);
    var row := Zeros(MinimumSize(columns))[0 := ROW_FORMAT_VERSION];
    hide Offset, Width, BitmapSize;
    forall i | 0 <= i < |columns| ensures FieldClear(columns, row, i) {
      FieldsApart(columns, i, |columns|);
    }
    forall i | 0 <= i < 8 * BitmapSize(|columns|) ensures !IsNull(row, i) {
      NoBitsOfZero(i % 8);
    }
  }

  lemma FilledIsRow(columns: seq<ColumnSchema>, values: seq<Value>, row: seq<byte>)
    requires |columns| == |values| && Filled(columns, values, row, |columns|) && |row| <= MAX_ROW_SIZE
    ensures Represents(columns, values, row) && PaddingClear(columns, row)
  {
    hide Stores, IsNull;
  }

  /** The value of one column goes into the row: appended payload, null bit or fixed field. */
  method EncodeColumn(layout: RowLayout, columns: seq<ColumnSchema>, values: seq<Value>, row: seq<byte>, i: nat)
    returns (r: Result<seq<byte>, RowError>)
    requires Lays(layout, columns) && i < |columns| == |values| && Filled(columns, values, row, i)
    ensures r.Err? ==> ProblemAt(columns, values, i) == Some(r.error)
    ensures r.Ok? ==> ProblemAt(columns, values, i).None? && Filled(columns, values, r.value, i + 1)
  {
    hide Filled, MinimumSize, Offset, PayloadUpTo, SetNull, BitmapSize;
    var column, value := columns[i], values[i];
    RowSize(columns, values, row, i);
    if value.Null? {
      if !column.nullable {
        return Err(NullNotAllowed(column.name));
      }
      NullStored(columns, values, row, i);
      return Ok(SetNull(row, i));
    }
    if !Fits(column, value) {
      return Err(TypeMismatch(column.name, column.dataType, TypeName(value)));
    }
    var field, payload := [], [];
    match value {
      case IntValue(n) => field := Le64(ToU64(n));
      case FloatValue(bits) => field := Le64(bits);
      case BoolValue(b) => field := [if b then 1 else 0];
      case TextValue(_) | BytesValue(_) =>
        payload := Payload(value);
        if |row| + |payload| > MAX_ROW_SIZE {
          return Err(RowTooLarge(|row| + |payload|));
        }
        field := Le32(|row|) + Le32(|payload|);
    }
    FieldStored(columns, values, row, i);
    return Ok(Splice(row, layout.columns[i].offset, field) + payload);
  }

  lemma RowSize(columns: seq<ColumnSchema>, values: seq<Value>, row: seq<byte>, i: nat)
    requires i < |columns| == |values| && Filled(columns, values, row, i)
    ensures |row| == PayloadStart(columns, values, i) && MinimumSize(columns) <= |row|
    ensures Offset(columns, i) + Width(columns[i].dataType) <= |row|
  {
    FieldsApart(columns, i, |columns|);
  }

  /**
   * Encodes a row. The outcome is exact: the first problem in column order, or a row that means these
   * values and leaves the unused bitmap bits zero.
   */
  method Encode(layout: RowLayout, columns: seq<ColumnSchema>, values: seq<Value>) returns (r: Result<seq<byte>, RowError>)
    requires Lays(layout, columns)
    ensures r.Ok? <==> Encodable(columns, values)
    ensures r.Ok? ==> Represents(columns, values, r.value) && PaddingClear(columns, r.value)
    ensures |values| != |columns| ==> r == Err(WrongValueCount(|columns|, |values|))
    ensures |values| == |columns| && r.Err? ==> FirstProblem(columns, values, 0) == Some(r.error)
  {
    hide Filled, MinimumSize, PayloadUpTo, Represents, PaddingClear, Encodable, ProblemAt, PayloadStart, Offset, Width;
    ProblemIffNotEncodable(columns, values);
    if |values| != |columns| {
      return Err(WrongValueCount(|columns|, |values|));
    }
    EmptyRowFilled(columns, values);
    var row := Zeros(layout.minimumRowSize)[0 := ROW_FORMAT_VERSION];
    for i := 0 to |columns|
      invariant Filled(columns, values, row, i) && FirstProblem(columns, values, 0) == FirstProblem(columns, values, i)
    {
      var encoded := EncodeColumn(layout, columns, values, row, i);
      if encoded.Err? {
        return Err(encoded.error);
      }
      row := encoded.value;
    }
    FullSize(columns, values, row);
    if |row| > MAX_ROW_SIZE {
      return Err(RowTooLarge(|row|));
    }
    FilledIsRow(columns, values, row);
    return Ok(row);
  }

  lemma FullSize(columns: seq<ColumnSchema>, values: seq<Value>, row: seq<byte>)
    requires |columns| == |values| && Filled(columns, values, row, |columns|)
    ensures |row| == PayloadStart(columns, values, |columns|)
  {
  }

  // ----- The row of a list of values -----

  lemma ReadyForColumn(columns: seq<ColumnSchema>, values: seq<Value>, row: seq<byte>, i: nat)
    requires i < |columns| && Encodable(columns, values) && Filled(columns, values, row, i)
    ensures Fits(columns[i], values[i]) && MinimumSize(columns) <= |row|
    ensures !values[i].Null? ==> |FieldBytes(columns[i], values[i], |row|)| == Width(columns[i].dataType)
  {
    PayloadGrows(columns, values, i + 1, |values|);
    RowSize(columns, values, row, i);
    hide Filled, Offset, BitmapSize;
  }

  /** One column stored: its null bit, or its field and payload. */
  ghost function WithColumn(columns: seq<ColumnSchema>, values: seq<Value>, row: seq<byte>, i: nat): seq<byte>
    requires i < |columns| && i < |values| && MinimumSize(columns) <= |row| && 1 + i / 8 < |row|
    requires !values[i].Null? ==> |FieldBytes(columns[i], values[i], |row|)| == Width(columns[i].dataType)
  {
    if values[i].Null? then SetNull(row, i) else WithField(columns, values, row, i)
  }

  lemma ColumnStored(columns: seq<ColumnSchema>, values: seq<Value>, row: seq<byte>, i: nat)
    requires i < |columns| && Encodable(columns, values) && Filled(columns, values, row, i)
    ensures MinimumSize(columns) <= |row| && 1 + i / 8 < |row|
    ensures !values[i].Null? ==> |FieldBytes(columns[i], values[i], |row|)| == Width(columns[i].dataType)
    ensures Filled(columns, values, WithColumn(columns, values, row, i), i + 1)
  {
    hide Filled, MinimumSize, SetNull, WithField, BitmapSize, Fits, FieldBytes;
    ReadyForColumn(columns, values, row, i);
    HeadSize(columns);
    BitmapCovers(columns, i);
    if values[i].Null? {
      NullStored(columns, values, row, i);
    } else {
      FieldStored(columns, values, row, i);
    }
  }

  /** The row after the first `n` columns are stored, one after another. */
  ghost function RowUpTo(columns: seq<ColumnSchema>, values: seq<Value>, n: nat): (row: seq<byte>)
    requires n <= |columns| && Encodable(columns, values)
    ensures Filled(columns, values, row, n)
  {
    hide Filled, Fits, MinimumSize, SetNull, WithField, FieldBytes, Width;
    if n == 0 then
      EmptyRowFilled(columns, values);
      Zeros(MinimumSize(columns))[0 := ROW_FORMAT_VERSION]
    else
      var row := RowUpTo(columns, values, n - 1);
      ColumnStored(columns, values, row, n - 1);
      WithColumn(columns, values, row, n - 1)
  }

  /** The one row that means these values and leaves the unused bitmap bits clear. */
  ghost function EncodedRow(columns: seq<ColumnSchema>, values: seq<Value>): (row: seq<byte>)
    requires Encodable(columns, values)
    ensures Represents(columns, values, row) && PaddingClear(columns, row)
  {
    var row := RowUpTo(columns, values, |columns|);
    FullSize(columns, values, row);
    FilledIsRow(columns, values, row);
    row
  }

  lemma {:induction false} EncodedRowIsUnique(columns: seq<ColumnSchema>, values: seq<Value>, row: seq<byte>)
    requires Encodable(columns, values) && Represents(columns, values, row) && PaddingClear(columns, row)
    ensures row == EncodedRow(columns, values)
  {
    hide EncodedRow, Encodable, Represents, PaddingClear;
    ReencodingGivesTheRow(columns, values, EncodedRow(columns, values), row);
  }

  // ----- Decoding -----

  /** The offset and length that a variable column's field gives. */
  function Descriptor(columns: seq<ColumnSchema>, row: seq<byte>, i: nat): (u32, u32)
    requires i < |columns| && MinimumSize(columns) <= |row| && Width(columns[i].dataType) == 8
  {
    FieldsApart(columns, i, |columns|);
    (U32At(row, Offset(columns, i)), U32At(row, Offset(columns, i) + 4))
  }

  /** What decoding relies on once a row is validated: payloads inside the row, and text that is UTF-8. */
  predicate Readable(columns: seq<ColumnSchema>, row: seq<byte>, i: nat)
    requires i < |columns| && MinimumSize(columns) <= |row|
  {
    IsNull(row, i) || !(columns[i].dataType.TextType? || columns[i].dataType.BytesType?) ||
    PayloadReadable(row, Descriptor(columns, row, i), columns[i].dataType == TextType)
  }

  predicate PayloadReadable(row: seq<byte>, d: (u32, u32), text: bool) {
    d.0 + d.1 <= |row| && (text ==> Utf8(row[d.0..d.0 + d.1]))
  }

  /** The value of a variable column whose field says where its payload is. */
  function PayloadValue(row: seq<byte>, d: (u32, u32), text: bool): Value
    requires PayloadReadable(row, d, text)
  {
    if text then TextValue(row[d.0..d.0 + d.1]) else BytesValue(row[d.0..d.0 + d.1])
  }

  function DecodeColumnUnchecked(columns: seq<ColumnSchema>, row: seq<byte>, i: nat): Value
    requires i < |columns| && MinimumSize(columns) <= |row| && Readable(columns, row, i)
  {
    if IsNull(row, i) then Null
    else
      FieldsApart(columns, i, |columns|);
      var o := Offset(columns, i);
      match columns[i].dataType
      case IntType => IntValue(FromU64(U64At(row, o)))
      case FloatType => FloatValue(U64At(row, o))
      case BoolType => BoolValue(row[o] == 1)
      case TextType | BytesType => PayloadValue(row, Descriptor(columns, row, i), columns[i].dataType == TextType)
  }

  /**
   * Validation of one column, given where its payload must start: where the next payload must start,
   * or why the row is refused.
   */
  function CheckColumn(columns: seq<ColumnSchema>, row: seq<byte>, i: nat, expected: nat): Result<nat, string>
    requires i < |columns| && MinimumSize(columns) <= |row|
  {
    FieldsApart(columns, i, |columns|);
    var o, column := Offset(columns, i), columns[i];
    if IsNull(row, i) then
      if !column.nullable then Err("required column is encoded as null")
      else if exists k | o <= k < o + Width(column.dataType) :: row[k] != 0 then Err("null column has nonzero fixed bytes")
      else Ok(expected)
    else
      match column.dataType
      case BoolType => if row[o] == 0 || row[o] == 1 then Ok(expected) else Err("boolean column is not zero or one")
      case IntType | FloatType => Ok(expected)
      case TextType | BytesType =>
        CheckPayload(row, Descriptor(columns, row, i), expected, column.dataType == TextType)
  }

  function CheckPayload(row: seq<byte>, d: (u32, u32), expected: nat, text: bool): Result<nat, string> {
    if d.0 != expected then Err("variable column payload is not canonical")
    else if d.0 + d.1 > |row| then Err("variable column exceeds row boundary")
    else if text && !Utf8(row[d.0..d.0 + d.1]) then Err("text column is not UTF-8")
    else Ok(d.0 + d.1)
  }

  /** Where the payload of column `i` must start, if the columns before it are acceptable. */
  function ExpectedStart(columns: seq<ColumnSchema>, row: seq<byte>, i: nat): Result<nat, string>
    requires i <= |columns| && MinimumSize(columns) <= |row|
  {
    if i == 0 then Ok(MinimumSize(columns))
    else
      match ExpectedStart(columns, row, i - 1)
      case Err(e) => Err(e)
      case Ok(expected) => CheckColumn(columns, row, i - 1, expected)
  }

  /** Exactly what validation accepts. */
  predicate Accepts(columns: seq<ColumnSchema>, row: seq<byte>) {
    && MinimumSize(columns) <= |row| <= MAX_ROW_SIZE && row[0] == ROW_FORMAT_VERSION
    && ExpectedStart(columns, row, |columns|) == Ok(|row|)
  }

  lemma ReadsBack32(row: seq<byte>, o: nat, v: u32)
    requires o + 4 <= |row|
    ensures row[o..o + 4] == Le32(v) <==> U32At(row, o) == v
  {
    Le32Unique(row, o);
    Le32RoundTrip(v);
    if row[o..o + 4] == Le32(v) {
      assert Le32(v)[0..4] == Le32(v);
      U32Shift(row, o, Le32(v), 0);
    }
    hide Le32, U32At;
  }

  lemma ReadsBack64(row: seq<byte>, o: nat, v: u64)
    requires o + 8 <= |row|
    ensures row[o..o + 8] == Le64(v) <==> U64At(row, o) == v
  {
    hide Le64, U64At;
    Le64Unique(row, o);
    Le64RoundTrip(v);
    if row[o..o + 8] == Le64(v) {
      assert Le64(v)[0..8] == Le64(v);
      U64Shift(row, o, Le64(v), 0);
    }
  }

  lemma ReadsBackDescriptor(row: seq<byte>, o: nat, start: u32, length: u32)
    requires o + 8 <= |row|
    ensures row[o..o + 8] == Le32(start) + Le32(length) <==> U32At(row, o) == start && U32At(row, o + 4) == length
  {
    hide Le32, U32At;
    ReadsBack32(row, o, start);
    ReadsBack32(row, o + 4, length);
    assert row[o..o + 8] == row[o..o + 4] + row[o + 4..o + 8];
    var low, high := Le32(start), Le32(length);
    assert (low + high)[..4] == low && (low + high)[4..] == high;
    assert (row[o..o + 4] + row[o + 4..o + 8])[..4] == row[o..o + 4];
    assert (row[o..o + 4] + row[o + 4..o + 8])[4..] == row[o + 4..o + 8];
  }

  // ----- Validation and decoding against the meaning of a row -----

  lemma SignsRoundTrip(n: i64, u: u64)
    ensures FromU64(ToU64(n)) == n && ToU64(FromU64(u)) == u
  {
  }

  /** A fixed field holds the bytes of a value exactly when reading it gives that value. */
  lemma FixedFieldReads(columns: seq<ColumnSchema>, row: seq<byte>, i: nat, v: Value, start: nat)
    requires i < |columns| && MinimumSize(columns) <= |row| && !IsNull(row, i)
    requires Fits(columns[i], v) && (v.IntValue? || v.FloatValue? || v.BoolValue?)
    ensures Readable(columns, row, i)
    ensures FieldIs(columns, row, i, FieldBytes(columns[i], v, start)) <==>
      DecodeColumnUnchecked(columns, row, i) == v && CheckColumn(columns, row, i, start) == Ok(start)
  {
    FieldsApart(columns, i, |columns|);
    var o := Offset(columns, i);
    hide Offset, U64At, Le64, IsNull, BitmapSize;
    match v
    case IntValue(n) => ReadsBack64(row, o, ToU64(n)); SignsRoundTrip(n, U64At(row, o));
    case FloatValue(bits) => ReadsBack64(row, o, bits);
    case BoolValue(b) => assert row[o..o + 1] == [row[o]];
  }

  lemma DescriptorReads(columns: seq<ColumnSchema>, row: seq<byte>, i: nat, v: Value, start: nat)
    requires i < |columns| && MinimumSize(columns) <= |row| && Fits(columns[i], v) && (v.TextValue? || v.BytesValue?)
    ensures FieldIs(columns, row, i, FieldBytes(columns[i], v, start)) <==>
      Descriptor(columns, row, i).0 == start && Descriptor(columns, row, i).1 == |Payload(v)|
  {
    FieldsApart(columns, i, |columns|);
    var o := Offset(columns, i);
    hide Offset, U32At, Le32, IsNull, BitmapSize, Utf8;
    if start <= U32_MAX && |Payload(v)| <= U32_MAX {
      ReadsBackDescriptor(row, o, start, |Payload(v)|);
    }
  }

  /** Payload bytes in place are read as the value they belong to. */
  lemma PayloadReads(row: seq<byte>, d: (u32, u32), v: Value, start: nat, text: bool)
    requires if text then v.TextValue? else v.BytesValue?
    requires d.0 == start && d.1 == |Payload(v)| && PayloadIs(row, start, Payload(v))
    ensures PayloadReadable(row, d, text) && PayloadValue(row, d, text) == v
    ensures CheckPayload(row, d, start, text) == Ok(start + |Payload(v)|)
  {
    hide Utf8;
  }

  /** A payload that passes validation is in place for the value it is read as. */
  lemma PayloadHolds(row: seq<byte>, d: (u32, u32), start: nat, text: bool)
    requires CheckPayload(row, d, start, text).Ok?
    ensures PayloadReadable(row, d, text) && d.0 == start
    ensures var v := PayloadValue(row, d, text);
      && (if text then v.TextValue? else v.BytesValue?)
      && d.1 == |Payload(v)| && PayloadIs(row, start, Payload(v))
      && CheckPayload(row, d, start, text) == Ok(start + |Payload(v)|)
  {
    hide Utf8;
  }

  /** Decoding and validation of a variable column look only at its descriptor. */
  lemma VariableByDescriptor(columns: seq<ColumnSchema>, row: seq<byte>, i: nat, start: nat)
    requires i < |columns| && MinimumSize(columns) <= |row| && !IsNull(row, i)
    requires columns[i].dataType.TextType? || columns[i].dataType.BytesType?
    ensures var d, text := Descriptor(columns, row, i), columns[i].dataType == TextType;
      && (Readable(columns, row, i) <==> PayloadReadable(row, d, text))
      && (Readable(columns, row, i) ==> DecodeColumnUnchecked(columns, row, i) == PayloadValue(row, d, text))
      && CheckColumn(columns, row, i, start) == CheckPayload(row, d, start, text)
  {
    hide Offset, IsNull, Utf8, Descriptor, PayloadReadable, PayloadValue, CheckPayload, U64At, FromU64, BitmapSize, MinimumSize;
  }

  /** A variable column whose field and payload are those of `v` reads as `v`. */
  lemma VariableFieldReads(columns: seq<ColumnSchema>, row: seq<byte>, i: nat, v: Value, start: nat)
    requires i < |columns| && MinimumSize(columns) <= |row| && !IsNull(row, i)
    requires Fits(columns[i], v) && (v.TextValue? || v.BytesValue?)
    requires FieldIs(columns, row, i, FieldBytes(columns[i], v, start)) && PayloadIs(row, start, Payload(v))
    ensures Readable(columns, row, i) && DecodeColumnUnchecked(columns, row, i) == v
    ensures CheckColumn(columns, row, i, start) == Ok(start + |Payload(v)|)
  {
    hide DecodeColumnUnchecked, CheckColumn, Readable, IsNull, FieldIs, FieldBytes, PayloadIs, Descriptor, MinimumSize,
      PayloadReadable, PayloadValue, CheckPayload;
    DescriptorReads(columns, row, i, v, start);
    VariableByDescriptor(columns, row, i, start);
    PayloadReads(row, Descriptor(columns, row, i), v, start, columns[i].dataType == TextType);
  }

  /** A variable column that passes validation holds the field and payload of the value it reads as. */
  lemma VariableFieldHolds(columns: seq<ColumnSchema>, row: seq<byte>, i: nat, start: nat)
    requires i < |columns| && MinimumSize(columns) <= |row| && !IsNull(row, i)
    requires columns[i].dataType.TextType? || columns[i].dataType.BytesType?
    requires CheckColumn(columns, row, i, start).Ok?
    ensures Readable(columns, row, i)
    ensures var v := DecodeColumnUnchecked(columns, row, i);
      && Fits(columns[i], v) && (v.TextValue? || v.BytesValue?)
      && FieldIs(columns, row, i, FieldBytes(columns[i], v, start)) && PayloadIs(row, start, Payload(v))
      && CheckColumn(columns, row, i, start) == Ok(start + |Payload(v)|)
  {
    hide DecodeColumnUnchecked, CheckColumn, Readable, IsNull, FieldIs, FieldBytes, PayloadIs, Descriptor, MinimumSize,
      PayloadReadable, PayloadValue, CheckPayload, Payload;
    VariableByDescriptor(columns, row, i, start);
    PayloadHolds(row, Descriptor(columns, row, i), start, columns[i].dataType == TextType);
    DescriptorReads(columns, row, i, DecodeColumnUnchecked(columns, row, i), start);
  }

  /** And of a null, whose field is all zeros. */
  lemma NullFieldReads(columns: seq<ColumnSchema>, row: seq<byte>, i: nat, start: nat)
    requires i < |columns| && MinimumSize(columns) <= |row| && IsNull(row, i)
    ensures Readable(columns, row, i) && DecodeColumnUnchecked(columns, row, i) == Null
    ensures columns[i].nullable && FieldIs(columns, row, i, FieldBytes(columns[i], Null, start)) <==>
      CheckColumn(columns, row, i, start) == Ok(start)
  {
    FieldsApart(columns, i, |columns|);
    hide IsNull, Offset, BitmapSize, Width;
    var o, w := Offset(columns, i), Width(columns[i].dataType);
    if forall k | o <= k < o + w :: row[k] == 0 {
      assert row[o..o + w] == Zeros(w);
    } else {
      var k :| o <= k < o + w && row[k] != 0;
      assert row[o..o + w][k - o] != Zeros(w)[k - o];
    }
  }

  /** A stored column is read back: it passes validation and decodes to the value it stores. */
  lemma StoredIsRead(columns: seq<ColumnSchema>, values: seq<Value>, row: seq<byte>, i: nat)
    requires i < |columns| == |values| && MinimumSize(columns) <= |row| && Stores(columns, values, row, i)
    ensures Readable(columns, row, i) && DecodeColumnUnchecked(columns, row, i) == values[i]
    ensures CheckColumn(columns, row, i, PayloadStart(columns, values, i)) == Ok(PayloadStart(columns, values, i + 1))
  {
    hide FieldIs, PayloadIs, CheckColumn, DecodeColumnUnchecked, Readable, MinimumSize, IsNull;
    var v, start := values[i], PayloadStart(columns, values, i);
    if v.Null? {
      NullFieldReads(columns, row, i, start);
    } else if v.TextValue? || v.BytesValue? {
      VariableFieldReads(columns, row, i, v, start);
    } else {
      FixedFieldReads(columns, row, i, v, start);
    }
  }

  /** A column that passes validation stores the value it decodes to. */
  lemma ReadIsStored(columns: seq<ColumnSchema>, values: seq<Value>, row: seq<byte>, i: nat)
    requires i < |columns| == |values| && MinimumSize(columns) <= |row| && Readable(columns, row, i)
    requires CheckColumn(columns, row, i, PayloadStart(columns, values, i)).Ok?
    requires values[i] == DecodeColumnUnchecked(columns, row, i)
    requires PayloadStart(columns, values, i) <= |row|
    ensures Stores(columns, values, row, i)
    ensures CheckColumn(columns, row, i, PayloadStart(columns, values, i)) == Ok(PayloadStart(columns, values, i + 1))
  {
    var start := PayloadStart(columns, values, i);
    assert PayloadStart(columns, values, i + 1) == start + |Payload(values[i])|;
    hide PayloadStart, PayloadUpTo, FieldIs, FieldBytes, CheckColumn, DecodeColumnUnchecked, Readable, MinimumSize, IsNull, Fits, Payload;
    DecodedKind(columns, row, i);
    ChecksOut(columns, row, i, start);
    if IsNull(row, i) {
      NullFieldReads(columns, row, i, start);
    } else if values[i].TextValue? || values[i].BytesValue? {
      VariableFieldHolds(columns, row, i, start);
    } else {
      FixedFieldReads(columns, row, i, values[i], start);
    }
  }

  /** A null column decodes to null; any other decodes to a value of the column's type. */
  lemma DecodedKind(columns: seq<ColumnSchema>, row: seq<byte>, i: nat)
    requires i < |columns| && MinimumSize(columns) <= |row| && Readable(columns, row, i)
    ensures var v := DecodeColumnUnchecked(columns, row, i);
      && (IsNull(row, i) <==> v.Null?)
      && (if v.Null? then Fits(columns[i], v) == columns[i].nullable else Fits(columns[i], v))
      && (v.TextValue? || v.BytesValue? <==> !IsNull(row, i) && (columns[i].dataType.TextType? || columns[i].dataType.BytesType?))
      && (!(v.TextValue? || v.BytesValue?) ==> Payload(v) == [])
  {
    hide IsNull, Offset, U64At, FromU64, Descriptor, Utf8, BitmapSize;
  }

  /** Only a variable column moves the place where the next payload must start. */
  lemma ChecksOut(columns: seq<ColumnSchema>, row: seq<byte>, i: nat, expected: nat)
    requires i < |columns| && MinimumSize(columns) <= |row| && CheckColumn(columns, row, i, expected).Ok?
    ensures IsNull(row, i) || !(columns[i].dataType.TextType? || columns[i].dataType.BytesType?) ==> CheckColumn(columns, row, i, expected) == Ok(expected)
    ensures IsNull(row, i) ==> columns[i].nullable
  {
    hide IsNull, Offset, Descriptor, BitmapSize, CheckPayload;
  }

  // ----- Whole rows -----

  ghost predicate AllReadable(columns: seq<ColumnSchema>, row: seq<byte>) {
    MinimumSize(columns) <= |row| && forall i | 0 <= i < |columns| :: Readable(columns, row, i)
  }

  ghost function Decoded(columns: seq<ColumnSchema>, row: seq<byte>): (values: seq<Value>)
    requires AllReadable(columns, row)
    ensures |values| == |columns|
    ensures forall i | 0 <= i < |columns| :: values[i] == DecodeColumnUnchecked(columns, row, i)
  {
    seq(|columns|, i requires 0 <= i < |columns| => DecodeColumnUnchecked(columns, row, i))
  }

  lemma {:induction false} CheckedReadable(columns: seq<ColumnSchema>, row: seq<byte>, n: nat)
    requires n <= |columns| && MinimumSize(columns) <= |row| && ExpectedStart(columns, row, n).Ok?
    ensures forall i | 0 <= i < n :: Readable(columns, row, i) && ExpectedStart(columns, row, i).Ok?
    ensures ExpectedStart(columns, row, n).value <= |row|
  {
    hide CheckColumn, Readable, MinimumSize;
    if n > 0 {
      CheckedReadable(columns, row, n - 1);
      CheckReads(columns, row, n - 1, ExpectedStart(columns, row, n - 1).value);
    }
  }

  lemma CheckReads(columns: seq<ColumnSchema>, row: seq<byte>, i: nat, expected: nat)
    requires i < |columns| && MinimumSize(columns) <= |row| && CheckColumn(columns, row, i, expected).Ok?
    requires expected <= |row|
    ensures Readable(columns, row, i) && CheckColumn(columns, row, i, expected).value <= |row|
  {
    hide IsNull, Offset, Descriptor, Utf8, BitmapSize, MinimumSize;
  }

  /** On a row that passes validation, the payloads start where the decoded values say. */
  lemma {:induction false} AcceptedStores(columns: seq<ColumnSchema>, row: seq<byte>, n: nat)
    requires n <= |columns| && AllReadable(columns, row) && ExpectedStart(columns, row, n).Ok?
    ensures var values := Decoded(columns, row);
      && ExpectedStart(columns, row, n) == Ok(PayloadStart(columns, values, n))
      && forall i | 0 <= i < n :: Stores(columns, values, row, i)
  {
    hide CheckColumn, Readable, MinimumSize, Stores, DecodeColumnUnchecked;
    if n > 0 {
      AcceptedStores(columns, row, n - 1);
      CheckedReadable(columns, row, n - 1);
      assert Readable(columns, row, n - 1);
      ReadIsStored(columns, Decoded(columns, row), row, n - 1);
    }
  }

  lemma {:induction false} StoredIsAccepted(columns: seq<ColumnSchema>, values: seq<Value>, row: seq<byte>, n: nat)
    requires n <= |columns| == |values| && MinimumSize(columns) <= |row|
    requires forall i | 0 <= i < |columns| :: Stores(columns, values, row, i)
    ensures ExpectedStart(columns, row, n) == Ok(PayloadStart(columns, values, n))
  {
    hide CheckColumn, Readable, MinimumSize, Stores, DecodeColumnUnchecked;
    if n > 0 {
      StoredIsAccepted(columns, values, row, n - 1);
      assert Stores(columns, values, row, n - 1);
      StoredIsRead(columns, values, row, n - 1);
    }
  }

  /** Validation accepts a row exactly when it means some list of values, which is then the decoded one. */
  lemma {:induction false} AcceptsIffRepresents(columns: seq<ColumnSchema>, row: seq<byte>)
    ensures Accepts(columns, row) ==> AllReadable(columns, row) && Represents(columns, Decoded(columns, row), row)
    ensures forall values | Represents(columns, values, row) :: Accepts(columns, row) && values == Decoded(columns, row)
  {
    HeadSize(columns);
    hide CheckColumn, Readable, MinimumSize, Stores, DecodeColumnUnchecked;
    if Accepts(columns, row) {
      CheckedReadable(columns, row, |columns|);
      AcceptedStores(columns, row, |columns|);
    }
    forall values | Represents(columns, values, row) ensures Accepts(columns, row) && values == Decoded(columns, row) {
      RepresentedIsDecoded(columns, values, row);
    }
  }

  lemma {:induction false} RepresentedIsDecoded(columns: seq<ColumnSchema>, values: seq<Value>, row: seq<byte>)
    requires Represents(columns, values, row)
    ensures Accepts(columns, row) && AllReadable(columns, row) && values == Decoded(columns, row)
  {
    PayloadGrows(columns, values, 0, |values|);
    hide CheckColumn, Readable, MinimumSize, Stores, DecodeColumnUnchecked;
    StoredIsAccepted(columns, values, row, |columns|);
    forall i | 0 <= i < |columns| ensures Readable(columns, row, i) && DecodeColumnUnchecked(columns, row, i) == values[i] {
      assert Stores(columns, values, row, i);
      StoredIsRead(columns, values, row, i);
    }
  }

  /** A row means at most one list of values: decoding undoes encoding. */
  lemma {:induction false} RowMeansOneList(columns: seq<ColumnSchema>, values: seq<Value>, others: seq<Value>, row: seq<byte>)
    requires Represents(columns, values, row) && Represents(columns, others, row)
    ensures values == others
  {
    hide Represents, Accepts, Decoded;
    AcceptsIffRepresents(columns, row);
  }

  /** Two rows with the same unused bitmap bits. */
  ghost predicate SamePadding(columns: seq<ColumnSchema>, row: seq<byte>, other: seq<byte>) {
    forall i | |columns| <= i < 8 * BitmapSize(|columns|) :: IsNull(row, i) == IsNull(other, i)
  }

  ghost predicate SameBetween(row: seq<byte>, other: seq<byte>, lo: nat, hi: nat) {
    forall k | lo <= k < hi && k < |row| && k < |other| :: row[k] == other[k]
  }

  lemma SameElements(row: seq<byte>, other: seq<byte>, lo: nat, hi: nat)
    requires lo <= hi <= |row| && hi <= |other| && row[lo..hi] == other[lo..hi]
    ensures SameBetween(row, other, lo, hi)
  {
    forall k | lo <= k < hi ensures row[k] == other[k] {
      assert row[k] == row[lo..hi][k - lo];
    }
  }

  lemma SameJoined(row: seq<byte>, other: seq<byte>, lo: nat, mid: nat, hi: nat)
    requires lo <= mid <= hi && SameBetween(row, other, lo, mid) && SameBetween(row, other, mid, hi)
    ensures SameBetween(row, other, lo, hi)
  {
  }

  lemma SameThroughout(row: seq<byte>, other: seq<byte>)
    requires |row| == |other| && SameBetween(row, other, 0, |row|)
    ensures row == other
  {
  }

  lemma SamePayload(row: seq<byte>, other: seq<byte>, start: nat, payload: seq<byte>)
    requires PayloadIs(row, start, payload) && PayloadIs(other, start, payload)
    ensures SameBetween(row, other, start, start + |payload|)
  {
    hide SameBetween;
    SameElements(row, other, start, start + |payload|);
  }

  lemma SameField(columns: seq<ColumnSchema>, row: seq<byte>, other: seq<byte>, i: nat, field: seq<byte>)
    requires i < |columns| && MinimumSize(columns) <= |row| && MinimumSize(columns) <= |other|
    requires FieldIs(columns, row, i, field) && FieldIs(columns, other, i, field)
    ensures SameBetween(row, other, Offset(columns, i), Offset(columns, i + 1))
  {
    FieldsApart(columns, i, |columns|);
    assert Offset(columns, i + 1) == Offset(columns, i) + Width(columns[i].dataType);
    hide SameBetween, Offset, Width, BitmapSize;
    SameElements(row, other, Offset(columns, i), Offset(columns, i + 1));
  }

  /** Two rows that store the same value of a column agree on its field and on its payload. */
  lemma SameColumn(columns: seq<ColumnSchema>, values: seq<Value>, row: seq<byte>, other: seq<byte>, i: nat)
    requires i < |columns| == |values| && MinimumSize(columns) <= |row| && MinimumSize(columns) <= |other|
    requires Stores(columns, values, row, i) && Stores(columns, values, other, i)
    ensures SameBetween(row, other, Offset(columns, i), Offset(columns, i + 1))
    ensures SameBetween(row, other, PayloadStart(columns, values, i), PayloadStart(columns, values, i + 1))
  {
    var start, v := PayloadStart(columns, values, i), values[i];
    assert PayloadStart(columns, values, i + 1) == start + |Payload(v)|;
    hide Offset, MinimumSize, IsNull, FieldBytes, Fits, SameBetween, Payload, PayloadUpTo, PayloadStart, FieldIs, PayloadIs;
    SameField(columns, row, other, i, FieldBytes(columns[i], v, start));
    SamePayload(row, other, start, Payload(v));
  }

  lemma {:induction false} SameColumns(columns: seq<ColumnSchema>, values: seq<Value>, row: seq<byte>, other: seq<byte>, n: nat)
    requires n <= |columns| == |values| && MinimumSize(columns) <= |row| && MinimumSize(columns) <= |other|
    requires forall i | 0 <= i < |columns| :: Stores(columns, values, row, i) && Stores(columns, values, other, i)
    ensures 1 + BitmapSize(|columns|) <= Offset(columns, n)
    ensures SameBetween(row, other, 1 + BitmapSize(|columns|), Offset(columns, n))
    ensures SameBetween(row, other, MinimumSize(columns), PayloadStart(columns, values, n))
  {
    hide Stores, SameBetween, MinimumSize, Width, BitmapSize, Payload;
    if n == 0 {
      NothingBetween(row, other, MinimumSize(columns));
      NothingBetween(row, other, 1 + BitmapSize(|columns|));
    } else {
      SameColumns(columns, values, row, other, n - 1);
      SameColumn(columns, values, row, other, n - 1);
      SameJoined(row, other, 1 + BitmapSize(|columns|), Offset(columns, n - 1), Offset(columns, n));
      SameJoined(row, other, MinimumSize(columns), PayloadStart(columns, values, n - 1), PayloadStart(columns, values, n));
    }
  }

  lemma NothingBetween(row: seq<byte>, other: seq<byte>, k: nat)
    ensures SameBetween(row, other, k, k)
  {
  }

  lemma {:induction false} SameBitmapByte(columns: seq<ColumnSchema>, row: seq<byte>, other: seq<byte>, k: nat)
    requires 1 <= k < 1 + BitmapSize(|columns|) && k < |row| && k < |other|
    requires forall i | 0 <= i < 8 * BitmapSize(|columns|) :: IsNull(row, i) == IsNull(other, i)
    ensures row[k] == other[k]
  {
    hide BitmapSize, Bit;
    EightBits();
    forall j | 0 <= j < 8 ensures Bit(row[k], j) == Bit(other[k], j) {
      var i := 8 * (k - 1) + j;
      assert i / 8 == k - 1 && i % 8 == j;
      assert IsNull(row, i) == IsNull(other, i);
    }
    SameBits(row[k], other[k], 8);
  }

  lemma {:induction false} SameNullBits(columns: seq<ColumnSchema>, values: seq<Value>, row: seq<byte>, other: seq<byte>)
    requires |columns| == |values| && MinimumSize(columns) <= |row| && MinimumSize(columns) <= |other|
    requires forall i | 0 <= i < |columns| :: Stores(columns, values, row, i) && Stores(columns, values, other, i)
    requires SamePadding(columns, row, other)
    ensures SameBetween(row, other, 1, 1 + BitmapSize(|columns|))
  {
    HeadSize(columns);
    hide BitmapSize, IsNull, Offset, FieldIs, PayloadIs, FieldBytes, Fits;
    forall i | 0 <= i < 8 * BitmapSize(|columns|) ensures IsNull(row, i) == IsNull(other, i) {
      if i < |columns| {
        assert Stores(columns, values, row, i) && Stores(columns, values, other, i);
      }
    }
    hide Stores;
    forall k | 1 <= k < 1 + BitmapSize(|columns|) ensures row[k] == other[k] {
      SameBitmapByte(columns, row, other, k);
    }
  }

  /**
   * How canonical rows are: two rows that mean the same values are equal exactly when they have the same
   * unused bitmap bits.
   */
  lemma {:induction false} RowsAreCanonical(columns: seq<ColumnSchema>, values: seq<Value>, row: seq<byte>, other: seq<byte>)
    requires Represents(columns, values, row) && Represents(columns, values, other)
    ensures row == other <==> SamePadding(columns, row, other)
  {
    hide Represents, SamePadding, IsNull;
    if SamePadding(columns, row, other) {
      SamePaddingSameRow(columns, values, row, other);
    }
    if row == other {
      SamePaddingAsItself(columns, row);
    }
  }

  lemma SamePaddingAsItself(columns: seq<ColumnSchema>, row: seq<byte>)
    ensures SamePadding(columns, row, row)
  {
  }

  /**
   * Validation does not look at those bits: setting one of them in a row gives another row that means the
   * same values, so encoding is not the only way to write them.
   */
  lemma {:induction false} PaddingIsIgnored(columns: seq<ColumnSchema>, values: seq<Value>, row: seq<byte>, i: nat)
    requires Represents(columns, values, row) && |columns| <= i < 8 * BitmapSize(|columns|)
    ensures 1 + i / 8 < |row| && Represents(columns, values, SetNull(row, i)) && Accepts(columns, SetNull(row, i))
    ensures !IsNull(row, i) ==> SetNull(row, i) != row && !PaddingClear(columns, SetNull(row, i))
  {
    HeadSize(columns);
    PayloadGrows(columns, values, 0, |values|);
    assert 1 + i / 8 < 1 + BitmapSize(|columns|);
    var after := SetNull(row, i);
    forall j | 0 <= j < |columns| ensures Stores(columns, values, after, j) {
      assert Stores(columns, values, row, j);
      hide SetNull, Offset, Width, BitmapSize, Stores, IsNull;
      FieldsApart(columns, j, |columns|);
      StoresFrame(columns, values, row, after, j);
    }
    hide SetNull, Stores, IsNull, Offset, BitmapSize;
    RepresentedIsDecoded(columns, values, after);
  }

  lemma {:induction false} SamePaddingSameRow(columns: seq<ColumnSchema>, values: seq<Value>, row: seq<byte>, other: seq<byte>)
    requires Represents(columns, values, row) && Represents(columns, values, other) && SamePadding(columns, row, other)
    ensures row == other
  {
    PayloadGrows(columns, values, 0, |values|);
    SameNullBits(columns, values, row, other);
    SameColumns(columns, values, row, other, |columns|);
    HeadSize(columns);
    assert SameBetween(row, other, 0, 1);
    hide Stores, BitmapSize, IsNull, Offset, PayloadUpTo, SameBetween, SamePadding;
    SameJoined(row, other, 0, 1, 1 + BitmapSize(|columns|));
    SameJoined(row, other, 0, 1 + BitmapSize(|columns|), MinimumSize(columns));
    SameJoined(row, other, 0, MinimumSize(columns), |row|);
    SameThroughout(row, other);
  }

  /** So re-encoding what a row with clear padding decodes to gives that row again. */
  lemma {:induction false} ReencodingGivesTheRow(columns: seq<ColumnSchema>, values: seq<Value>, row: seq<byte>, again: seq<byte>)
    requires Represents(columns, values, row) && PaddingClear(columns, row)
    requires Represents(columns, values, again) && PaddingClear(columns, again)
    ensures Encodable(columns, values) && again == row
  {
    SamePaddingSameRow(columns, values, row, again);
    forall i | 0 <= i < |columns| ensures Fits(columns[i], values[i]) {
      assert Stores(columns, values, row, i);
    }
  }

  /** Refuses every row that means nothing, and only those. */
  method Validate(layout: RowLayout, columns: seq<ColumnSchema>, row: seq<byte>) returns (r: Result<Unit, RowError>)
    requires Lays(layout, columns)
    ensures r.Ok? <==> exists values :: Represents(columns, values, row)
    ensures r.Ok? <==> Accepts(columns, row)
    ensures r.Err? ==> r.error.CorruptRow?
  {
    HeadSize(columns);
    AcceptsIffRepresents(columns, row);
    hide Represents, CheckColumn, Decoded, AllReadable, BitmapSize, MinimumSize, Offset, Width;
    if |row| < layout.minimumRowSize {
      return Err(CorruptRow("row is shorter than its fixed layout"));
    }
    if |row| > MAX_ROW_SIZE {
      return Err(CorruptRow("row exceeds maximum page payload"));
    }
    if row[0] != ROW_FORMAT_VERSION {
      return Err(CorruptRow("unsupported row format version"));
    }
    var expected := layout.minimumRowSize;
    for i := 0 to |columns|
      invariant ExpectedStart(columns, row, i) == Ok(expected)
    {
      var checked := CheckColumn(columns, row, i, expected);
      if checked.Err? {
        RefusedLater(columns, row, i + 1, |columns|);
        return Err(CorruptRow(checked.error));
      }
      expected := checked.value;
    }
    if expected != |row| {
      return Err(CorruptRow("row has trailing or unreferenced payload"));
    }
    return Ok(Unit);
  }

  lemma {:induction false} RefusedLater(columns: seq<ColumnSchema>, row: seq<byte>, i: nat, n: nat)
    requires i <= n <= |columns| && MinimumSize(columns) <= |row| && ExpectedStart(columns, row, i).Err?
    ensures ExpectedStart(columns, row, n).Err?
  {
    if i < n {
      RefusedLater(columns, row, i, n - 1);
    }
  }

  /** The values a row means, if it means any. */
  method Decode(layout: RowLayout, columns: seq<ColumnSchema>, row: seq<byte>) returns (r: Result<seq<Value>, RowError>)
    requires Lays(layout, columns)
    ensures r.Ok? ==> Represents(columns, r.value, row)
    ensures r.Err? ==> r.error.CorruptRow? && forall values :: !Represents(columns, values, row)
  {
    var valid := Validate(layout, columns, row);
    if valid.Err? {
      return Err(valid.error);
    }
    AcceptsIffRepresents(columns, row);
    hide Represents, Accepts, Readable, DecodeColumnUnchecked, MinimumSize;
    var values := seq(|columns|, i requires 0 <= i < |columns| && AllReadable(columns, row) => DecodeColumnUnchecked(columns, row, i));
    assert values == Decoded(columns, row);
    return Ok(values);
  }

  /** One column of a row that means some values; a bad index is reported before a bad row. */
  method DecodeColumn(layout: RowLayout, columns: seq<ColumnSchema>, row: seq<byte>, index: nat) returns (r: Result<Value, RowError>)
    requires Lays(layout, columns)
    ensures index >= |columns| ==> r == Err(ColumnOutOfBounds(index, |columns|))
    ensures index < |columns| ==> (r.Ok? <==> exists values :: Represents(columns, values, row))
    ensures index < |columns| && r.Err? ==> r.error.CorruptRow?
    ensures r.Ok? ==> forall values | Represents(columns, values, row) :: r.value == values[index]
  {
    if index >= |columns| {
      return Err(ColumnOutOfBounds(index, |columns|));
    }
    var valid := Validate(layout, columns, row);
    if valid.Err? {
      return Err(valid.error);
    }
    AcceptsIffRepresents(columns, row);
    hide Accepts, Readable, DecodeColumnUnchecked, MinimumSize, Stores;
    return Ok(DecodeColumnUnchecked(columns, row, index));
  }

  method ReadColumns(columns: seq<ColumnSchema>, row: seq<byte>, projected: seq<nat>) returns (values: seq<Value>)
    requires AllReadable(columns, row) && forall k | 0 <= k < |projected| :: projected[k] < |columns|
    ensures |values| == |projected|
    ensures forall k | 0 <= k < |projected| :: values[k] == Decoded(columns, row)[projected[k]]
  {
    hide Readable, DecodeColumnUnchecked, MinimumSize;
    values := [];
    for k := 0 to |projected|
      invariant |values| == k && forall j | 0 <= j < k :: values[j] == Decoded(columns, row)[projected[j]]
    {
      assert Readable(columns, row, projected[k]);
      values := values + [DecodeColumnUnchecked(columns, row, projected[k])];
    }
  }

  /** The chosen columns of a row, in any order and with repeats: exactly those entries of the decoded row. */
  method Project(layout: RowLayout, columns: seq<ColumnSchema>, row: seq<byte>, projected: seq<nat>)
    returns (r: Result<seq<Value>, RowError>)
    requires Lays(layout, columns)
    ensures var inRange := forall k | 0 <= k < |projected| :: projected[k] < |columns|;
      && (r.Ok? <==> inRange && exists values :: Represents(columns, values, row))
      && (inRange && r.Err? ==> r.error.CorruptRow?)
      && (!inRange ==> r.Err? && exists k | 0 <= k < |projected| ::
            r.error == ColumnOutOfBounds(projected[k], |columns|) && projected[k] >= |columns|
            && forall j | 0 <= j < k :: projected[j] < |columns|)
    ensures r.Ok? ==> |r.value| == |projected|
    ensures r.Ok? ==> forall values | Represents(columns, values, row) ::
      forall k | 0 <= k < |projected| :: r.value[k] == values[projected[k]]
  {
    hide Represents, Accepts, AllReadable, Decoded, MinimumSize, Lays;
    for k := 0 to |projected|
      invariant forall j | 0 <= j < k :: projected[j] < |columns|
    {
      if projected[k] >= |columns| {
        return Err(ColumnOutOfBounds(projected[k], |columns|));
      }
    }
    var valid := Validate(layout, columns, row);
    if valid.Err? {
      return Err(valid.error);
    }
    AcceptsIffRepresents(columns, row);
    var values := ReadColumns(columns, row, projected);
    return Ok(values);
  }
}
