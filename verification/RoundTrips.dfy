/**
 * The encoders and decoders undo each other, said outright: each method runs one codec there and back
 * for every input and is proved to end where it began.
 */
module RoundTrips {
  import opened Wrappers
  import opened Bytes
  import opened Rows
  import opened Schemas
  import opened CatalogRecords

  /** Every list of values that has a row comes back from it unchanged. */
  method RowThereAndBack(s: TableSchema, values: seq<Value>) returns (back: Result<seq<Value>, RowError>)
    requires SchemaValid(s) && Encodable(s.columns, values)
    ensures back == Ok(values)
  {
    hide Represents, Encodable;
    var row := EncodeRow(s, values);
    back := DecodeRow(s, row.value);
    RowMeansOneList(s.columns, values, back.value, row.value);
  }

  /** A row that means some values is what they encode to exactly when it leaves the unused bitmap bits clear. */
  method RowBackAndThere(s: TableSchema, row: seq<byte>) returns (again: Result<seq<byte>, RowError>)
    requires SchemaValid(s)
    ensures (exists values :: Represents(s.columns, values, row)) ==> again.Ok? && (again == Ok(row) <==> PaddingClear(s.columns, row))
    ensures (forall values :: !Represents(s.columns, values, row)) ==> again.Err?
  {
    var values := DecodeRow(s, row);
    if values.Err? {
      return Err(values.error);
    }
    again := EncodeRow(s, values.value);
    RepresentedFits(s, values.value, row);
    hide Represents, Encodable, PaddingClear;
    if PaddingClear(s.columns, row) {
      ReencodingGivesTheRow(s.columns, values.value, row, again.value);
    }
  }

  lemma RepresentedFits(s: TableSchema, values: seq<Value>, row: seq<byte>)
    requires Represents(s.columns, values, row)
    ensures Encodable(s.columns, values)
  {
    forall i | 0 <= i < |s.columns| ensures Fits(s.columns[i], values[i]) {
      assert Stores(s.columns, values, row, i);
    }
  }

  /** Every accepted schema comes back from its encoding, layout and key column included. */
  method SchemaThereAndBack(s: TableSchema) returns (back: Result<TableSchema, SchemaError>)
    requires SchemaValid(s)
    ensures back == Ok(s)
  {
    DeclarableFits(s.name, s.columns);
    hide Declarable, KeyAt, Lays, SchemaBytes;
    var bytes := Schemas.Encode(s);
    back := Schemas.Decode(bytes);
    SchemaRoundTrip(s, back.value, bytes);
  }

  /** Every byte string that decodes is the encoding of what it decodes to. */
  method SchemaBackAndThere(bytes: seq<byte>) returns (again: Result<seq<byte>, SchemaError>)
    ensures again.Ok? ==> again.value == bytes
    ensures again.Err? ==> forall name, columns | Declarable(name, columns) :: !Encodes(bytes, name, columns)
  {
    hide SchemaValid, SchemaBytes, Declarable;
    var s := Schemas.Decode(bytes);
    if s.Err? {
      return Err(s.error);
    }
    var b := Schemas.Encode(s.value);
    return Ok(b);
  }

  /** Every table definition comes back from its catalog record. */
  method RecordThereAndBack(m: TableMetadata) returns (back: Result<TableMetadata, RecordError>)
    requires MetadataValid(m)
    ensures back == Ok(m)
  {
    hide MetadataValid, RecordBytes;
    var bytes := EncodeTableRecord(m);
    back := DecodeTableRecord(bytes);
    RecordIsUnique(bytes, m, back.value);
  }
}
