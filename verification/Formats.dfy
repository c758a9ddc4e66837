/**
 * What the engine's bytes are, in plain numbers: every offset, width, tag and limit of rows, schemas and
 * table records, said without the functions and constants that the code shares with its specification.
 */
module Formats {
  import opened Wrappers
  import opened Bytes
  import opened Bits
  import opened Numbers
  import opened Utf8Text
  import opened Pages
  import opened PageModel
  import opened Columns
  import opened Rows
  import opened Schemas
  import opened CatalogRecords

  // ----- Names and declarations -----

  /** 1 to 255 bytes, the first of them a letter or an underscore and every other one of these or a digit. */
  predicate Named(name: Text) {
    && 1 <= |name| <= 255 && (name[0] == 0x5F || 0x41 <= name[0] <= 0x5A || 0x61 <= name[0] <= 0x7A)
    && forall i | 1 <= i < |name| ::
         name[i] == 0x5F || 0x41 <= name[i] <= 0x5A || 0x61 <= name[i] <= 0x7A || 0x30 <= name[i] <= 0x39
  }

  lemma NameInBytes(name: Text)
    ensures Identifier(name) <==> Named(name)
  {
  }

  /** A table with one required key column is accepted exactly when its name and the column's are names. */
  lemma NamesInBytes(name: Text, column: Text, t: DataType)
    ensures Declarable(name, [ColumnSchema(column, t, false, true)]) <==> Named(name) && Named(column)
  {
    if Identifier(name) && Identifier(column) {
      OneColumnTable(name, column, t);
    }
    var columns := [ColumnSchema(column, t, false, true)];
    assert columns[0].name == column;
    NameInBytes(name);
    NameInBytes(column);
    hide Identifier, Named, MinimumSize;
  }

  /** Nothing is wrong with column `i`: it has a name of its own, and it is no nullable or second key. */
  ghost predicate ColumnSound(columns: seq<ColumnSchema>, i: nat)
    requires i < |columns|
  {
    && Named(columns[i].name) && (forall j | 0 <= j < i :: columns[j].name != columns[i].name)
    && (columns[i].primaryKey ==> !columns[i].nullable && forall j | 0 <= j < i :: !columns[j].primaryKey)
  }

  lemma SoundColumns(columns: seq<ColumnSchema>, i: nat)
    requires i < |columns|
    ensures ColumnSound(columns, i) <==> ColumnProblem(columns, i).None?
  {
    NameInBytes(columns[i].name);
    hide Identifier, Named;
  }

  /** Exactly the accepted declarations: names, 1 to 1024 sound columns, a key, and fields that leave a row in 8152 bytes. */
  lemma {:induction false} DeclarableInWords(name: Text, columns: seq<ColumnSchema>)
    ensures Declarable(name, columns) <==>
      && Named(name) && 1 <= |columns| <= 1024 && (forall i | 0 <= i < |columns| :: ColumnSound(columns, i))
      && (exists k :: 0 <= k < |columns| && columns[k].primaryKey) && FieldPlace(columns, |columns|) <= 8152
  {
    NameInBytes(name);
    FieldsArePlaced(columns, |columns|);
    KeyIsOne(columns);
    hide Identifier, Named, Offset, FieldPlace, ColumnSound, KeyAt, NamesDistinct;
  }

  lemma {:induction false} KeyIsOne(columns: seq<ColumnSchema>)
    ensures
      && (forall i | 0 <= i < |columns| :: ColumnSound(columns, i)) && (exists k :: 0 <= k < |columns| && columns[k].primaryKey)
      <==>
      && (forall i | 0 <= i < |columns| :: Identifier(columns[i].name)) && NamesDistinct(columns) && exists k :: KeyAt(columns, k)
  {
    hide Identifier, Named, ColumnSound, NamesDistinct;
    forall i | 0 <= i < |columns| ensures Identifier(columns[i].name) <==> Named(columns[i].name) {
      NameInBytes(columns[i].name);
    }
    if k :| 0 <= k < |columns| && columns[k].primaryKey && forall i | 0 <= i < |columns| :: ColumnSound(columns, i) {
      SoundIsKeyed(columns, k);
    }
    if k :| KeyAt(columns, k) && NamesDistinct(columns) && forall i | 0 <= i < |columns| :: Named(columns[i].name) {
      forall i | 0 <= i < |columns| ensures ColumnSound(columns, i) {
        KeyedIsSound(columns, k, i);
      }
    }
  }

  lemma SoundIsKeyed(columns: seq<ColumnSchema>, k: nat)
    requires k < |columns| && columns[k].primaryKey && forall i | 0 <= i < |columns| :: ColumnSound(columns, i)
    ensures KeyAt(columns, k) && NamesDistinct(columns) && forall i | 0 <= i < |columns| :: Named(columns[i].name)
  {
    hide Named;
    forall i | 0 <= i < |columns| ensures Named(columns[i].name) {
      assert ColumnSound(columns, i);
    }
    assert ColumnSound(columns, k);
    forall j | 0 <= j < |columns| && j != k ensures !columns[j].primaryKey {
      assert ColumnSound(columns, j);
    }
    forall i, j | 0 <= i < j < |columns| ensures columns[i].name != columns[j].name {
      assert ColumnSound(columns, j);
    }
  }

  lemma KeyedIsSound(columns: seq<ColumnSchema>, k: nat, i: nat)
    requires i < |columns| && Named(columns[i].name) && NamesDistinct(columns) && KeyAt(columns, k)
    ensures ColumnSound(columns, i)
  {
    hide Named;
    forall j | 0 <= j < i ensures columns[j].name != columns[i].name && (columns[i].primaryKey ==> !columns[j].primaryKey) {
    }
  }

  function Flaw(columns: seq<ColumnSchema>, i: nat): SchemaError
    requires i < |columns|
  {
    if !Named(columns[i].name) then InvalidIdentifier("column", columns[i].name)
    else if exists j :: 0 <= j < i && columns[j].name == columns[i].name then DuplicateColumn(columns[i].name)
    else if exists j :: 0 <= j < i && columns[j].primaryKey then MultiplePrimaryKeys
    else NullablePrimaryKey(columns[i].name)
  }

  /** The one reason why a declaration is refused whose column `i` is the first that is not sound. */
  lemma {:induction false} UnsoundColumn(name: Text, columns: seq<ColumnSchema>, i: nat, e: SchemaError)
    requires Named(name) && i < |columns| <= 1024 && !ColumnSound(columns, i) && forall j | 0 <= j < i :: ColumnSound(columns, j)
    ensures DeclarationProblem(name, columns, e) <==> e == Flaw(columns, i)
  {
    NameInBytes(name);
    forall j | 0 <= j <= i ensures ColumnSound(columns, j) <==> ColumnProblem(columns, j).None? {
      SoundColumns(columns, j);
    }
    assert ColumnProblem(columns, i).Some?;
    hide MinimumSize;
    OnlyFirstProblem(columns, i, e);
    NameInBytes(columns[i].name);
    hide Identifier, Named, FirstColumnProblem;
  }

  lemma OnlyFirstProblem(columns: seq<ColumnSchema>, i: nat, e: SchemaError)
    requires i < |columns| && ColumnProblem(columns, i).Some? && forall j | 0 <= j < i :: ColumnProblem(columns, j).None?
    ensures FirstColumnProblem(columns, e) <==> ColumnProblem(columns, i) == Some(e)
  {
    hide ColumnProblem;
  }

  /** And the one reason why any other is refused: its name, the number of its columns, no key, or too wide a row. */
  lemma {:induction false} OtherRefusals(name: Text, columns: seq<ColumnSchema>, e: SchemaError)
    requires !Named(name) || columns == [] || |columns| > 1024 || forall i | 0 <= i < |columns| :: ColumnSound(columns, i)
    ensures DeclarationProblem(name, columns, e) <==> (
      if !Named(name) then e == InvalidIdentifier("table", name)
      else if |columns| == 0 then e == NoColumns
      else if |columns| > 1024 then e == TooManyColumns(|columns|)
      else if forall i | 0 <= i < |columns| :: !columns[i].primaryKey then e == MissingPrimaryKey
      else FieldPlace(columns, |columns|) > 8152 && e == SchemaTooWide(FieldPlace(columns, |columns|)))
  {
    NameInBytes(name);
    FieldsArePlaced(columns, |columns|);
    forall i | 0 <= i < |columns| ensures ColumnSound(columns, i) <==> ColumnProblem(columns, i).None? {
      SoundColumns(columns, i);
    }
    hide Identifier, Named, Offset, FieldPlace, ColumnSound, ColumnProblem;
  }

  // ----- Schemas -----

  /** Where column `n` of an encoded schema starts. */
  function ColumnPlace(name: Text, columns: seq<ColumnSchema>, n: nat): nat
    requires n <= |columns|
  {
    if n == 0 then 10 + |name| else ColumnPlace(name, columns, n - 1) + 4 + |columns[n - 1].name|
  }

  /** A column in bytes: the length of its name, the name, its type's tag, and its two flags. */
  ghost predicate ColumnStandsAt(b: seq<byte>, o: nat, c: ColumnSchema) {
    var end := o + 2 + |c.name|;
    && end + 2 <= |b| && Field(b, o, 2) == |c.name| && b[o + 2..end] == c.name
    && b[end] == (match c.dataType case IntType => 1 case FloatType => 2 case BoolType => 3 case TextType => 4 case BytesType => 5)
    && b[end + 1] as int == (if c.nullable then 1 else 0) + (if c.primaryKey then 2 else 0)
  }

  lemma {:induction false} ColumnInBytes(b: seq<byte>, o: nat, c: ColumnSchema)
    requires |c.name| <= U16_MAX
    ensures StandsAt(b, o, o + 4 + |c.name|, ColumnBytes(c)) <==> ColumnStandsAt(b, o, c)
  {
    var end := o + 2 + |c.name|;
    StandsJoined(b, o, end, end + 2, StringBytes(c.name), [Tag(c.dataType), Flags(c)]);
    StandsJoined(b, o, o + 2, end, Le16(|c.name|), c.name);
    FieldStands(b, o, |c.name|);
    TailStands(b, o + 2, end, c.name);
    PairStands(b, end, Tag(c.dataType), Flags(c));
    FieldsAreLittleEndian(b, o);
    hide StandsAt, Field, U16At, Le16;
  }

  ghost predicate ColumnsStand(b: seq<byte>, name: Text, columns: seq<ColumnSchema>, n: nat)
    requires n <= |columns|
  {
    forall i | 0 <= i < n :: ColumnStandsAt(b, ColumnPlace(name, columns, i), columns[i])
  }

  lemma ColumnsStandStep(b: seq<byte>, name: Text, columns: seq<ColumnSchema>, n: nat)
    requires n < |columns|
    ensures ColumnsStand(b, name, columns, n + 1) <==>
      ColumnsStand(b, name, columns, n) && ColumnStandsAt(b, ColumnPlace(name, columns, n), columns[n])
  {
    hide ColumnStandsAt, ColumnPlace;
  }

  lemma {:induction false} ColumnsSize(name: Text, columns: seq<ColumnSchema>, n: nat)
    requires n <= |columns| && NamesFit(columns)
    ensures |ColumnsBytes(columns, n)| == ColumnPlace(name, columns, n) - 10 - |name|
  {
    if n > 0 {
      ColumnsSize(name, columns, n - 1);
      hide ColumnBytes;
    }
  }

  lemma {:induction false} ColumnsInBytes(b: seq<byte>, name: Text, columns: seq<ColumnSchema>, n: nat)
    requires n <= |columns| && NamesFit(columns) && 10 + |name| <= |b|
    ensures StandsAt(b, 10 + |name|, ColumnPlace(name, columns, n), ColumnsBytes(columns, n)) <==> ColumnsStand(b, name, columns, n)
  {
    hide ColumnStandsAt, ColumnBytes, ColumnsStand;
    if n > 0 {
      ColumnsInBytes(b, name, columns, n - 1);
      ColumnsSize(name, columns, n - 1);
      ColumnsStandStep(b, name, columns, n - 1);
      var mid := ColumnPlace(name, columns, n - 1);
      hide StandsAt;
      StandsJoined(b, 10 + |name|, mid, mid + 4 + |columns[n - 1].name|, ColumnsBytes(columns, n - 1), ColumnBytes(columns[n - 1]));
      ColumnInBytes(b, mid, columns[n - 1]);
    } else {
      NoneStand(b, name, columns);
    }
  }

  lemma NoneStand(b: seq<byte>, name: Text, columns: seq<ColumnSchema>)
    ensures ColumnsStand(b, name, columns, 0)
  {
  }

  /** A schema in bytes: NSCH, version 1, the number of columns, the table's name with its length, and the columns. */
  lemma {:induction false} SchemaInBytes(b: seq<byte>, name: Text, columns: seq<ColumnSchema>)
    requires |name| <= 0xFFFF && |columns| <= 0xFFFF && forall i | 0 <= i < |columns| :: |columns[i].name| <= 0xFFFF
    ensures Encodes(b, name, columns) <==>
      && |b| == ColumnPlace(name, columns, |columns|) >= 10 + |name|
      && b[..4] == [0x4E, 0x53, 0x43, 0x48] && Field(b, 4, 2) == 1 && Field(b, 6, 2) == |columns|
      && Field(b, 8, 2) == |name| && b[10..10 + |name|] == name
      && forall i | 0 <= i < |columns| :: ColumnStandsAt(b, ColumnPlace(name, columns, i), columns[i])
  {
    PlacesGrow(name, columns, |columns|);
    if 10 + |name| <= |b| {
      ColumnsInBytes(b, name, columns, |columns|);
    }
    SchemaStands(b, name, columns);
    PreambleStands(b, |columns|);
    StandsJoined(b, 8, 10, 10 + |name|, Le16(|name|), name);
    FieldStands(b, 8, |name|);
    TailStands(b, 10, 10 + |name|, name);
    FieldsAreLittleEndian(b, 4);
    FieldsAreLittleEndian(b, 6);
    FieldsAreLittleEndian(b, 8);
    EncodingEnds(b, name, columns);
    hide ColumnStandsAt, ColumnsBytes, PreambleBytes, Field, U16At, ColumnPlace, SchemaBytes, Le16;
  }

  lemma {:induction false} PlacesGrow(name: Text, columns: seq<ColumnSchema>, n: nat)
    requires n <= |columns|
    ensures ColumnPlace(name, columns, n) >= 10 + |name|
  {
    if n > 0 {
      PlacesGrow(name, columns, n - 1);
    }
  }

  lemma EncodingEnds(b: seq<byte>, name: Text, columns: seq<ColumnSchema>)
    requires |name| <= U16_MAX && |columns| <= U16_MAX && NamesFit(columns)
    ensures b == SchemaBytes(name, columns) ==> |b| == ColumnPlace(name, columns, |columns|)
  {
    ColumnsSize(name, columns, |columns|);
    hide ColumnPlace, ColumnsBytes, PreambleBytes, StringBytes;
  }

  // ----- Table records -----

  /** A table record in bytes: NTBL, version 1, two zeros, the id, the first page, the length of the schema, the schema. */
  lemma {:induction false} RecordInBytes(b: seq<byte>, m: TableMetadata)
    requires SchemaValid(m.schema)
    ensures Describes(b, m) <==>
      && m.id >= 1 && m.heapFirstPage >= 1
      && |b| >= 20 && b[..4] == [0x4E, 0x54, 0x42, 0x4C] && Field(b, 4, 2) == 1 && b[6] == 0 && b[7] == 0
      && Field(b, 8, 4) == m.id && Field(b, 12, 4) == m.heapFirstPage && Field(b, 16, 4) == |b| - 20
      && Encodes(b[20..], m.schema.name, m.schema.columns)
  {
    if m.id >= 1 && m.heapFirstPage >= 1 {
      DescribesByFields(b, m);
    }
    FieldsAreLittleEndian(b, 4);
    FieldsAreLittleEndian(b, 8);
    FieldsAreLittleEndian(b, 12);
    FieldsAreLittleEndian(b, 16);
    hide SchemaValid, Field, U32At, Encodes;
  }

  // ----- Rows -----

  /** Where the field of column `i` is, after the version byte and one bitmap bit a column: one byte for a boolean, else eight. */
  function FieldPlace(columns: seq<ColumnSchema>, i: nat): nat
    requires i <= |columns|
  {
    if i == 0 then 1 + (|columns| + 7) / 8
    else FieldPlace(columns, i - 1) + if columns[i - 1].dataType == BoolType then 1 else 8
  }

  /** Where the payload of column `i` is: after the fields, text and bytes one after another. */
  function PayloadPlace(columns: seq<ColumnSchema>, values: seq<Value>, i: nat): nat
    requires i <= |values|
  {
    if i == 0 then FieldPlace(columns, |columns|)
    else PayloadPlace(columns, values, i - 1) + match values[i - 1] case TextValue(t) => |t| case BytesValue(b) => |b| case _ => 0
  }

  /** The value of column `i` in bytes, in a field at `o` and, for text and bytes, a payload at `start`. */
  ghost predicate ValueStandsAt(row: seq<byte>, c: ColumnSchema, v: Value, o: nat, start: nat) {
    match v
    case Null =>
      c.nullable && if c.dataType == BoolType then o < |row| && row[o] == 0 else o + 8 <= |row| && forall k | o <= k < o + 8 :: row[k] == 0
    case IntValue(n) => c.dataType == IntType && o + 8 <= |row| && Field(row, o, 8) == n % 0x1_0000_0000_0000_0000
    case FloatValue(bits) => c.dataType == FloatType && o + 8 <= |row| && Field(row, o, 8) == bits
    case BoolValue(truth) => c.dataType == BoolType && o < |row| && row[o] == if truth then 1 else 0
    case TextValue(t) => c.dataType == TextType && PartStandsAt(row, o, start, t)
    case BytesValue(b) => c.dataType == BytesType && PartStandsAt(row, o, start, b)
  }

  /** A descriptor at `o` says where the part starts and how long it is, and the part is there. */
  ghost predicate PartStandsAt(row: seq<byte>, o: nat, start: nat, part: seq<byte>) {
    && o + 8 <= |row| && Field(row, o, 4) == start && Field(row, o + 4, 4) == |part|
    && start + |part| <= |row| && row[start..start + |part|] == part
  }

  /** The null bit of column `i`: bit `i` modulo eight of the byte `i` over eight after the version. */
  predicate NullBit(row: seq<byte>, i: nat) {
    1 + i / 8 < |row| && row[1 + i / 8] as int / WEIGHTS[i % 8] % 2 == 1
  }

  lemma {:induction false} FieldsArePlaced(columns: seq<ColumnSchema>, i: nat)
    requires i <= |columns|
    ensures Offset(columns, i) == FieldPlace(columns, i)
    ensures i < |columns| ==> Width(columns[i].dataType) == if columns[i].dataType == BoolType then 1 else 8
  {
    if i > 0 {
      FieldsArePlaced(columns, i - 1);
    }
  }

  /** A compiled layout has the size of the null bitmap, the place and width of every field, and the size of the rest. */
  lemma {:induction false} LayoutInNumbers(layout: RowLayout, columns: seq<ColumnSchema>)
    ensures Lays(layout, columns) <==>
      && layout.nullBitmapSize == (|columns| + 7) / 8 && layout.minimumRowSize == FieldPlace(columns, |columns|)
      && |layout.columns| == |columns|
      && forall i | 0 <= i < |columns| ::
        layout.columns[i] == ColumnLayout(FieldPlace(columns, i), if columns[i].dataType == BoolType then 1 else 8)
  {
    FieldsArePlaced(columns, |columns|);
    forall i | 0 <= i < |columns|
      ensures Offset(columns, i) == FieldPlace(columns, i) && Width(columns[i].dataType) == if columns[i].dataType == BoolType then 1 else 8
    {
      FieldsArePlaced(columns, i);
    }
    hide Offset, FieldPlace, Width;
  }

  lemma {:induction false} PayloadsArePlaced(columns: seq<ColumnSchema>, values: seq<Value>, i: nat)
    requires i <= |values|
    ensures PayloadStart(columns, values, i) == PayloadPlace(columns, values, i)
  {
    FieldsArePlaced(columns, |columns|);
    if i > 0 {
      PayloadsArePlaced(columns, values, i - 1);
    }
  }

  lemma NullsByWeight(row: seq<byte>, i: nat)
    ensures IsNull(row, i) <==> NullBit(row, i)
  {
    if 1 + i / 8 < |row| {
      BitsByWeight(row[1 + i / 8], i % 8);
    }
    hide Bit;
  }

  /** A signed integer is stored modulo two to the 64. */
  lemma SignedIsModulo(n: i64)
    ensures ToU64(n) == n % 0x1_0000_0000_0000_0000
  {
  }

  lemma {:induction false} NumbersInBytes(columns: seq<ColumnSchema>, row: seq<byte>, i: nat, v: Value, start: nat)
    requires i < |columns| && MinimumSize(columns) <= |row| && (v.IntValue? || v.FloatValue?)
    ensures Fits(columns[i], v) && FieldIs(columns, row, i, FieldBytes(columns[i], v, start)) <==>
      ValueStandsAt(row, columns[i], v, Offset(columns, i), start)
  {
    FieldsApart(columns, i, |columns|);
    var o := Offset(columns, i);
    hide Offset, BitmapSize, U64At, Le64, Field, ToU64;
    if Fits(columns[i], v) {
      FieldsAreLittleEndian(row, o);
      if v.IntValue? {
        SignedIsModulo(v.number);
        ReadsBack64(row, o, ToU64(v.number));
      } else {
        ReadsBack64(row, o, v.bits);
      }
    }
  }

  lemma {:induction false} BooleansInBytes(columns: seq<ColumnSchema>, row: seq<byte>, i: nat, v: Value, start: nat)
    requires i < |columns| && MinimumSize(columns) <= |row| && v.BoolValue?
    ensures Fits(columns[i], v) && FieldIs(columns, row, i, FieldBytes(columns[i], v, start)) <==>
      ValueStandsAt(row, columns[i], v, Offset(columns, i), start)
  {
    FieldsApart(columns, i, |columns|);
    var o := Offset(columns, i);
    hide Offset, BitmapSize;
    if Fits(columns[i], v) {
      assert row[o..o + 1] == [row[o]];
    }
  }

  lemma {:induction false} NullsInBytes(columns: seq<ColumnSchema>, row: seq<byte>, i: nat, start: nat)
    requires i < |columns| && MinimumSize(columns) <= |row|
    ensures Fits(columns[i], Null) && FieldIs(columns, row, i, FieldBytes(columns[i], Null, start)) <==>
      ValueStandsAt(row, columns[i], Null, Offset(columns, i), start)
  {
    FieldsApart(columns, i, |columns|);
    FieldsArePlaced(columns, i);
    var o, w := Offset(columns, i), Width(columns[i].dataType);
    hide Offset, BitmapSize, Width, FieldPlace;
    ZeroSlice(row, o, w);
  }

  lemma ZeroSlice(row: seq<byte>, o: nat, w: nat)
    requires o + w <= |row|
    ensures row[o..o + w] == Zeros(w) <==> forall k | o <= k < o + w :: row[k] == 0
  {
    if row[o..o + w] == Zeros(w) {
      forall k | o <= k < o + w ensures row[k] == 0 {
        assert row[k] == row[o..o + w][k - o];
      }
    }
  }

  lemma {:induction false} PartsInBytes(columns: seq<ColumnSchema>, row: seq<byte>, i: nat, v: Value, start: nat)
    requires i < |columns| && MinimumSize(columns) <= |row| && (v.TextValue? || v.BytesValue?)
    ensures Fits(columns[i], v) && FieldIs(columns, row, i, FieldBytes(columns[i], v, start)) && PayloadIs(row, start, Payload(v)) <==>
      ValueStandsAt(row, columns[i], v, Offset(columns, i), start)
  {
    FieldsApart(columns, i, |columns|);
    var o := Offset(columns, i);
    hide Offset, BitmapSize, U32At, Field, FieldBytes, FieldIs, PartStandsAt, Descriptor, PayloadIs, MinimumSize;
    if Fits(columns[i], v) {
      DescriptorReads(columns, row, i, v, start);
      DescriptorIs(columns, row, i);
      PartByFields(row, o, start, Payload(v));
    }
  }

  lemma DescriptorIs(columns: seq<ColumnSchema>, row: seq<byte>, i: nat)
    requires i < |columns| && MinimumSize(columns) <= |row| && Width(columns[i].dataType) == 8
    ensures var o := Offset(columns, i);
      o + 8 <= |row| && Descriptor(columns, row, i) == (U32At(row, o), U32At(row, o + 4))
  {
    FieldsApart(columns, i, |columns|);
    hide Offset, BitmapSize, U32At;
  }

  lemma PartByFields(row: seq<byte>, o: nat, start: nat, part: seq<byte>)
    requires o + 8 <= |row|
    ensures PartStandsAt(row, o, start, part) <==>
      U32At(row, o) == start && U32At(row, o + 4) == |part| && PayloadIs(row, start, part)
  {
    FieldsAreLittleEndian(row, o);
    FieldsAreLittleEndian(row, o + 4);
    hide U32At, Field;
  }

  /** A column stores a value exactly when the value stands in its bytes, and its null bit says whether it is null. */
  lemma {:induction false} ColumnStoredInBytes(columns: seq<ColumnSchema>, values: seq<Value>, row: seq<byte>, i: nat)
    requires i < |columns| && i < |values| && MinimumSize(columns) <= |row| && PayloadStart(columns, values, i) <= |row|
    ensures Stores(columns, values, row, i) <==>
      && (NullBit(row, i) <==> values[i].Null?)
      && ValueStandsAt(row, columns[i], values[i], FieldPlace(columns, i), PayloadPlace(columns, values, i))
  {
    var v, start := values[i], PayloadStart(columns, values, i);
    FieldsArePlaced(columns, i);
    PayloadsArePlaced(columns, values, i);
    NullsByWeight(row, i);
    PayloadGrows(columns, values, 0, i);
    hide FieldBytes, FieldIs, Offset, FieldPlace, PayloadPlace, PayloadStart, NullBit, IsNull, ValueStandsAt, Fits, MinimumSize;
    match v
    case Null => NullsInBytes(columns, row, i, start);
    case IntValue(_) | FloatValue(_) => NumbersInBytes(columns, row, i, v, start);
    case BoolValue(_) => BooleansInBytes(columns, row, i, v, start);
    case TextValue(_) | BytesValue(_) => PartsInBytes(columns, row, i, v, start);
  }

  /** A row in bytes: its size, version 1, and for every column its null bit and its value. */
  ghost predicate RowStandsIn(columns: seq<ColumnSchema>, values: seq<Value>, row: seq<byte>) {
    && |values| == |columns| && |row| == PayloadPlace(columns, values, |values|) <= 8152 && |row| > 0 && row[0] == 1
    && forall i | 0 <= i < |columns| :: ColumnHolds(columns, values, row, i)
  }

  ghost predicate ColumnHolds(columns: seq<ColumnSchema>, values: seq<Value>, row: seq<byte>, i: nat)
    requires i < |columns| && i < |values|
  {
    && (NullBit(row, i) <==> values[i].Null?)
    && ValueStandsAt(row, columns[i], values[i], FieldPlace(columns, i), PayloadPlace(columns, values, i))
  }

  /** A row means its values exactly when they stand in its bytes. */
  lemma {:induction false} RowInBytes(columns: seq<ColumnSchema>, values: seq<Value>, row: seq<byte>)
    ensures Represents(columns, values, row) <==> RowStandsIn(columns, values, row)
  {
    PayloadsArePlaced(columns, values, |values|);
    PayloadGrows(columns, values, 0, |values|);
    HeadSize(columns);
    hide Stores, ColumnHolds, PayloadStart, PayloadPlace, MinimumSize, BitmapSize;
    if |values| == |columns| && |row| == PayloadStart(columns, values, |values|) {
      assert PayloadStart(columns, values, 0) == MinimumSize(columns) by {
        StartOfPayload(columns, values);
      }
      forall i | 0 <= i < |columns| ensures Stores(columns, values, row, i) <==> ColumnHolds(columns, values, row, i) {
        PayloadGrows(columns, values, i, |values|);
        ColumnHoldsIt(columns, values, row, i);
      }
    }
  }

  lemma StartOfPayload(columns: seq<ColumnSchema>, values: seq<Value>)
    ensures PayloadStart(columns, values, 0) == MinimumSize(columns)
  {
  }

  lemma ColumnHoldsIt(columns: seq<ColumnSchema>, values: seq<Value>, row: seq<byte>, i: nat)
    requires i < |columns| && i < |values| && MinimumSize(columns) <= |row| && PayloadStart(columns, values, i) <= |row|
    ensures Stores(columns, values, row, i) <==> ColumnHolds(columns, values, row, i)
  {
    hide Stores, ValueStandsAt, NullBit, FieldPlace, PayloadPlace, PayloadStart, MinimumSize;
    ColumnStoredInBytes(columns, values, row, i);
  }

  /** Byte `k` of a stored integer is its `k`-th digit to the base 256, also below zero. */
  lemma {:induction false} IntegerInBytes(columns: seq<ColumnSchema>, values: seq<Value>, row: seq<byte>, i: nat, k: nat)
    requires Represents(columns, values, row) && i < |columns| && values[i].IntValue? && k < 8
    ensures var o, n := FieldPlace(columns, i), values[i].number;
      && o + 8 <= |row| && Field(row, o, 8) == n % 0x1_0000_0000_0000_0000
      && row[o + k] == (n as int / POWERS[k]) % 256
  {
    RowInBytes(columns, values, row);
    assert ColumnHolds(columns, values, row, i);
    var o, n := FieldPlace(columns, i), values[i].number;
    hide FieldPlace, PayloadPlace, NullBit, Represents;
    DigitOfField(row, o, k);
    DigitOfRemainder(n, k);
  }

  predicate TypeAllows(c: ColumnSchema, v: Value) {
    match v
    case Null => c.nullable
    case IntValue(_) => c.dataType == IntType
    case FloatValue(_) => c.dataType == FloatType
    case BoolValue(_) => c.dataType == BoolType
    case TextValue(_) => c.dataType == TextType
    case BytesValue(_) => c.dataType == BytesType
  }

  /** Exactly the values that have a row: one for each column, of its type or null where allowed, in at most 8152 bytes. */
  lemma {:induction false} EncodableInWords(columns: seq<ColumnSchema>, values: seq<Value>)
    ensures Encodable(columns, values) <==>
      && |values| == |columns| && PayloadPlace(columns, values, |values|) <= 8152
      && forall i | 0 <= i < |columns| :: TypeAllows(columns[i], values[i])
  {
    PayloadsArePlaced(columns, values, |values|);
    hide PayloadStart, PayloadPlace;
    if |values| == |columns| {
      assert forall i | 0 <= i < |columns| :: Fits(columns[i], values[i]) <==> TypeAllows(columns[i], values[i]);
    }
  }

  /** The value of column `i` raises no problem: it is allowed there, and its payload ends within the row. */
  predicate ValueTaken(columns: seq<ColumnSchema>, values: seq<Value>, i: nat)
    requires i < |columns| && i < |values|
  {
    && TypeAllows(columns[i], values[i])
    && (values[i].TextValue? || values[i].BytesValue? ==> PayloadPlace(columns, values, i + 1) <= 8152)
  }

  /** Which problem is reported when the values before `i` raise none and the one at `i` does, or none does. */
  lemma {:induction false} ValueRefused(columns: seq<ColumnSchema>, values: seq<Value>, i: nat)
    requires i <= |columns| == |values| && forall j | 0 <= j < i :: ValueTaken(columns, values, j)
    requires i < |columns| ==> !ValueTaken(columns, values, i)
    ensures FirstProblem(columns, values, 0) ==
      if i == |columns| then
        if PayloadPlace(columns, values, i) > 8152 then Some(RowTooLarge(PayloadPlace(columns, values, i))) else None
      else if values[i] == Null then Some(NullNotAllowed(columns[i].name))
      else if !TypeAllows(columns[i], values[i]) then Some(TypeMismatch(columns[i].name, columns[i].dataType,
        match values[i] case IntValue(_) => "int" case FloatValue(_) => "float" case BoolValue(_) => "bool" case TextValue(_) => "text" case _ => "bytes"))
      else Some(RowTooLarge(PayloadPlace(columns, values, i + 1)))
  {
    TakenRaisesNothing(columns, values, 0, i);
    if i < |columns| {
      PayloadsArePlaced(columns, values, i);
      PayloadsArePlaced(columns, values, i + 1);
      hide FieldPlace;
    } else {
      PayloadsArePlaced(columns, values, i);
    }
  }

  lemma {:induction false} TakenRaisesNothing(columns: seq<ColumnSchema>, values: seq<Value>, k: nat, i: nat)
    requires k <= i <= |columns| == |values| && forall j | k <= j < i :: ValueTaken(columns, values, j)
    ensures FirstProblem(columns, values, k) == FirstProblem(columns, values, i)
    decreases i - k
  {
    if k < i {
      TakenRaisesNothing(columns, values, k + 1, i);
      PayloadsArePlaced(columns, values, k + 1);
      assert ValueTaken(columns, values, k);
      hide FieldPlace;
    }
  }
}
