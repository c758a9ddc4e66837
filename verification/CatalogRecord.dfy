/** Table records (src/catalog/mod.rs): how the catalog writes down one table definition. */
module CatalogRecords {
  import opened Wrappers
  import opened Bytes
  import opened Utf8Text
  import opened Pages
  import opened Columns
  import opened Rows
  import opened Schemas

  const TABLE_RECORD_MAGIC: seq<byte> := [0x4E, 0x54, 0x42, 0x4C]
  const TABLE_RECORD_VERSION: u16 := 1
  const TABLE_RECORD_HEADER_SIZE := 20
  const FIRST_TABLE_ID: u32 := 1

  datatype TableMetadata = TableMetadata(id: u32, schema: TableSchema, heapFirstPage: PageId)

  datatype RecordError = CorruptRecord(reason: string) | SchemaFailure(schema: SchemaError)

  ghost predicate MetadataValid(m: TableMetadata) {
    m.id >= FIRST_TABLE_ID && m.heapFirstPage >= 1 && SchemaValid(m.schema)
  }

  /** The encoding of an accepted schema. */
  ghost function DeclarationBytes(s: TableSchema): (b: seq<byte>)
    requires SchemaValid(s)
    ensures Encodes(b, s.name, s.columns)
  {
    DeclarableFits(s.name, s.columns);
    SchemaBytes(s.name, s.columns)
  }

  lemma {:induction false} ColumnsBytesSize(columns: seq<ColumnSchema>, n: nat)
    requires n <= |columns| && NamesFit(columns)
    requires forall i | 0 <= i < |columns| :: |columns[i].name| <= MAX_IDENTIFIER_BYTES
    ensures |ColumnsBytes(columns, n)| <= (MAX_IDENTIFIER_BYTES + 4) * n
  {
    if n > 0 {
      ColumnsBytesSize(columns, n - 1);
    }
  }

  /** Schema encodings are far shorter than the length field of a record can say. */
  lemma DeclarationSize(s: TableSchema)
    requires SchemaValid(s)
    ensures |DeclarationBytes(s)| <= 0x1_0000_0000 - 21
  {
    DeclarableFits(s.name, s.columns);
    hide Offset, NamesDistinct, KeyAt, Lays;
    assert forall i | 0 <= i < |s.columns| :: Identifier(s.columns[i].name);
    ColumnsBytesSize(s.columns, |s.columns|);
  }

  function HeaderBytes(id: u32, page: PageId, size: u32): (b: seq<byte>)
    ensures |b| == TABLE_RECORD_HEADER_SIZE
  {
    TABLE_RECORD_MAGIC + Le16(TABLE_RECORD_VERSION) + Le16(0) + Le32(id) + Le32(page) + Le32(size)
  }

  ghost function RecordBytes(m: TableMetadata): seq<byte>
    requires MetadataValid(m)
  {
    DeclarationSize(m.schema);
    HeaderBytes(m.id, m.heapFirstPage, |DeclarationBytes(m.schema)|) + DeclarationBytes(m.schema)
  }

  /** `bytes` is the record of table `m`. */
  ghost predicate Describes(bytes: seq<byte>, m: TableMetadata) {
    MetadataValid(m) && bytes == RecordBytes(m)
  }

  method EncodeTableRecord(m: TableMetadata) returns (bytes: seq<byte>)
    requires MetadataValid(m)
    ensures Describes(bytes, m) && |bytes| == TABLE_RECORD_HEADER_SIZE + |DeclarationBytes(m.schema)|
  {
    hide Le16, Le32, SchemaValid;
    DeclarationSize(m.schema);
    var schema := Schemas.Encode(m.schema);
    hide SchemaBytes;
    bytes := TABLE_RECORD_MAGIC;
    bytes := bytes + Le16(TABLE_RECORD_VERSION);
    bytes := bytes + Le16(0);
    bytes := bytes + Le32(m.id);
    bytes := bytes + Le32(m.heapFirstPage);
    bytes := bytes + Le32(|schema|);
    bytes := bytes + schema;
  }

  lemma Field32Stands(b: seq<byte>, pos: nat, v: u32)
    ensures StandsAt(b, pos, pos + 4, Le32(v)) <==> pos + 4 <= |b| && U32At(b, pos) == v
  {
    hide Le32, U32At;
    if pos + 4 <= |b| {
      ReadsBack32(b, pos, v);
    }
  }

  lemma {:induction false} HeaderStands(b: seq<byte>, id: u32, page: PageId, size: u32)
    ensures StandsAt(b, 0, 20, HeaderBytes(id, page, size)) <==>
      && |b| >= 20 && b[..4] == TABLE_RECORD_MAGIC && U16At(b, 4) == TABLE_RECORD_VERSION && U16At(b, 6) == 0
      && U32At(b, 8) == id && U32At(b, 12) == page && U32At(b, 16) == size
  {
    hide StandsAt, Le16, Le32, U16At, U32At;
    var h4, h6 := TABLE_RECORD_MAGIC, TABLE_RECORD_MAGIC + Le16(TABLE_RECORD_VERSION);
    var h8 := h6 + Le16(0);
    StandsJoined(b, 0, 16, 20, h8 + Le32(id) + Le32(page), Le32(size));
    StandsJoined(b, 0, 12, 16, h8 + Le32(id), Le32(page));
    StandsJoined(b, 0, 8, 12, h8, Le32(id));
    StandsJoined(b, 0, 6, 8, h6, Le16(0));
    StandsJoined(b, 0, 4, 6, h4, Le16(TABLE_RECORD_VERSION));
    FieldStands(b, 4, TABLE_RECORD_VERSION);
    FieldStands(b, 6, 0);
    Field32Stands(b, 8, id);
    Field32Stands(b, 12, page);
    Field32Stands(b, 16, size);
    TailStands(b, 0, 4, h4);
    if |b| >= 4 {
      assert b[0..4] == b[..4];
    }
  }

  /** What a record says, field by field. */
  lemma {:induction false} DescribesByFields(b: seq<byte>, m: TableMetadata)
    requires MetadataValid(m)
    ensures Describes(b, m) <==>
      && |b| >= 20 && b[..4] == TABLE_RECORD_MAGIC && U16At(b, 4) == TABLE_RECORD_VERSION && U16At(b, 6) == 0
      && U32At(b, 8) == m.id && U32At(b, 12) == m.heapFirstPage && U32At(b, 16) == |b| - 20
      && Encodes(b[20..], m.schema.name, m.schema.columns)
  {
    DeclarationSize(m.schema);
    var schema := DeclarationBytes(m.schema);
    hide HeaderBytes, U16At, U32At, MetadataValid, SchemaBytes, Encodes, DeclarationBytes;
    if |b| == 20 + |schema| {
      HeaderStands(b, m.id, m.heapFirstPage, |schema|);
      StandsJoined(b, 0, 20, |b|, HeaderBytes(m.id, m.heapFirstPage, |schema|), schema);
      assert b[0..|b|] == b && b[20..|b|] == b[20..];
    }
    if |b| >= 20 {
      OnlyEncoding(b[20..], m.schema);
    }
  }

  lemma OnlyEncoding(b: seq<byte>, s: TableSchema)
    requires SchemaValid(s)
    ensures Encodes(b, s.name, s.columns) <==> b == DeclarationBytes(s)
  {
    hide SchemaValid, SchemaBytes;
  }

  /** A record describes one table: no two definitions share their bytes. */
  lemma {:induction false} RecordIsUnique(b: seq<byte>, m: TableMetadata, n: TableMetadata)
    requires Describes(b, m) && Describes(b, n)
    ensures m == n
  {
    DescribesByFields(b, m);
    DescribesByFields(b, n);
    hide RecordBytes, SchemaValid, Encodes, U16At, U32At;
    SchemaRoundTrip(m.schema, n.schema, b[20..]);
  }

  /** Decodes exactly the records of valid definitions. */
  method DecodeTableRecord(bytes: seq<byte>) returns (r: Result<TableMetadata, RecordError>)
    ensures r.Ok? ==> Describes(bytes, r.value)
    ensures r.Err? ==> forall m :: !Describes(bytes, m)
  {
    forall m | Describes(bytes, m) ensures RecordSays(bytes, m) {
      DescribesByFields(bytes, m);
      hide RecordBytes, SchemaValid, Encodes, U16At, U32At;
      assert Declarable(m.schema.name, m.schema.columns) by {
        ValidDeclares(m.schema);
      }
    }
    hide Describes, MetadataValid, Encodes, U16At, U32At, SchemaValid, Declarable;
    if |bytes| < TABLE_RECORD_HEADER_SIZE {
      return Err(CorruptRecord("table record is truncated"));
    }
    if bytes[0..4] != TABLE_RECORD_MAGIC {
      assert bytes[0..4] == bytes[..4];
      return Err(CorruptRecord("invalid table record magic"));
    }
    if U16At(bytes, 4) != TABLE_RECORD_VERSION {
      return Err(CorruptRecord("unsupported table record version"));
    }
    if U16At(bytes, 6) != 0 {
      return Err(CorruptRecord("table record reserved flags are not zero"));
    }
    if U32At(bytes, 8) < FIRST_TABLE_ID {
      return Err(CorruptRecord("invalid table ID"));
    }
    if U32At(bytes, 12) == 0 {
      return Err(CorruptRecord("invalid table heap root"));
    }
    if TABLE_RECORD_HEADER_SIZE + U32At(bytes, 16) != |bytes| {
      return Err(CorruptRecord("table record schema length does not match record"));
    }
    var schema := Schemas.Decode(bytes[TABLE_RECORD_HEADER_SIZE..]);
    if schema.Err? {
      return Err(SchemaFailure(schema.error));
    }
    var m := TableMetadata(U32At(bytes, 8), schema.value, U32At(bytes, 12));
    assert bytes[0..4] == bytes[..4];
    DescribedBy(bytes, m);
    return Ok(m);
  }

  /** What must be true of the bytes of any record. */
  ghost predicate RecordSays(b: seq<byte>, m: TableMetadata) {
    && |b| >= 20 && b[..4] == TABLE_RECORD_MAGIC && U16At(b, 4) == TABLE_RECORD_VERSION && U16At(b, 6) == 0
    && U32At(b, 8) >= FIRST_TABLE_ID && U32At(b, 12) >= 1 && U32At(b, 16) == |b| - 20
    && Declarable(m.schema.name, m.schema.columns) && Encodes(b[20..], m.schema.name, m.schema.columns)
  }

  lemma ValidDeclares(s: TableSchema)
    requires SchemaValid(s)
    ensures Declarable(s.name, s.columns)
  {
  }

  lemma DescribedBy(b: seq<byte>, m: TableMetadata)
    requires SchemaValid(m.schema) && m.id >= FIRST_TABLE_ID && m.heapFirstPage >= 1
    requires |b| >= 20 && b[..4] == TABLE_RECORD_MAGIC && U16At(b, 4) == TABLE_RECORD_VERSION && U16At(b, 6) == 0
    requires U32At(b, 8) == m.id && U32At(b, 12) == m.heapFirstPage && U32At(b, 16) == |b| - 20
    requires Encodes(b[20..], m.schema.name, m.schema.columns)
    ensures Describes(b, m)
  {
    DescribesByFields(b, m);
    hide RecordBytes, SchemaValid, Encodes, U16At, U32At;
  }
}
