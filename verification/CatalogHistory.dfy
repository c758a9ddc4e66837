/**
 * Runs of a catalog: what creating tables one after another leads to, whichever of them succeed. A table
 * whose record is refused still leaves behind the page that was made for its heap.
 */
module CatalogHistory {
  import opened Wrappers
  import opened Bytes
  import opened Utf8Text
  import opened Pages
  import opened PageModel
  import opened HeapModel
  import opened HeapHistory
  import opened Columns
  import opened Rows
  import opened Schemas
  import opened CatalogRecords
  import opened CatalogModel
  import opened HeapFiles

  /** The catalog's own heap with the next page id, the tables, and the next table id. */
  datatype CatalogState = CatalogState(heap: HeapState, tables: TableMap, nextId: u32)

  ghost predicate CatalogStateInv(s: CatalogState) {
    StateInv(s.heap) && s.heap.nextPage >= 1 && s.nextId >= FIRST_TABLE_ID
  }

  ghost function RecordSize(schema: TableSchema): nat
    requires SchemaValid(schema)
  {
    TABLE_RECORD_HEADER_SIZE + |DeclarationBytes(schema)|
  }

  /** Creation is refused before anything is written. */
  ghost predicate StopsEarly(s: CatalogState, schema: TableSchema)
    requires SchemaValid(schema)
  {
    || schema.name in s.tables || s.nextId == U32_MAX || RecordSize(schema) > MAX_RECORD_SIZE
    || s.heap.nextPage == U32_MAX
  }

  /** The definition a created table gets: the next id, and the next page as its heap. */
  ghost function NextTable(s: CatalogState, schema: TableSchema): TableMetadata {
    TableMetadata(s.nextId, schema, s.heap.nextPage)
  }

  /** The table's record goes into the catalog's heap, if that takes it. */
  ghost function RegisterStep(s: CatalogState, m: TableMetadata): CatalogState
    requires CatalogStateInv(s) && MetadataValid(m) && s.nextId < U32_MAX
  {
    if HeapHistory.Accepts(s.heap, RecordBytes(m)) then
      CatalogState(StepHeap(s.heap, InsertRecord(RecordBytes(m))), s.tables[m.schema.name := m], s.nextId + 1)
    else s
  }

  /** The table's heap takes the next page, and then the record is written. */
  ghost function CreateStep(s: CatalogState, schema: TableSchema): CatalogState
    requires CatalogStateInv(s) && SchemaValid(schema)
  {
    if StopsEarly(s, schema) then s
    else RegisterStep(HeapMade(s), NextTable(s, schema))
  }

  ghost function HeapMade(s: CatalogState): (t: CatalogState)
    requires CatalogStateInv(s) && s.heap.nextPage < U32_MAX
    ensures CatalogStateInv(t)
  {
    s.(heap := s.heap.(nextPage := s.heap.nextPage + 1))
  }

  lemma {:induction false} CreateKeeps(s: CatalogState, schema: TableSchema)
    requires CatalogStateInv(s) && SchemaValid(schema)
    ensures CatalogStateInv(CreateStep(s, schema))
  {
    if !StopsEarly(s, schema) {
      var t, m := HeapMade(s), NextTable(s, schema);
      hide SchemaValid, StateInv, StepHeap, RecordBytes, HeapHistory.Accepts, RecordSize;
      StepKeeps(t.heap, InsertRecord(RecordBytes(m)));
      NextPageGrows(t.heap, InsertRecord(RecordBytes(m)));
    }
  }

  lemma NextPageGrows(s: HeapState, op: HeapOp)
    requires StateInv(s)
    ensures s.nextPage <= StepHeap(s, op).nextPage
  {
    ShapeOf(s);
    hide HeapInv, HeapHistory.Accepts, Holds, Inserted;
  }

  ghost function CreateAll(s: CatalogState, schemas: seq<TableSchema>): (t: CatalogState)
    requires CatalogStateInv(s) && forall i | 0 <= i < |schemas| :: SchemaValid(schemas[i])
    ensures CatalogStateInv(t)
    decreases |schemas|
  {
    if schemas == [] then s
    else
      CreateKeeps(s, schemas[0]);
      CreateAll(CreateStep(s, schemas[0]), schemas[1..])
  }

  /** A new database with an empty catalog. */
  const FreshCatalog := CatalogState(FreshState, map[], FIRST_TABLE_ID)

  lemma FreshCatalogInv()
    ensures CatalogStateInv(FreshCatalog)
  {
    FreshStateInv();
  }

  /**
   * What a failed creation does: nothing when it stops early, and otherwise it spends one page id, which
   * happens exactly when the catalog's heap refuses the record.
   */
  lemma {:induction false} FailedCreation(s: CatalogState, schema: TableSchema)
    requires CatalogStateInv(s) && SchemaValid(schema)
    ensures var t := CreateStep(s, schema);
      if StopsEarly(s, schema) then t == s
      else if HeapHistory.Accepts(HeapMade(s).heap, RecordBytes(NextTable(s, schema)))
      then t.tables == s.tables[schema.name := NextTable(s, schema)] && schema.name !in s.tables && t.nextId == s.nextId + 1
      else t == HeapMade(s) && t != s
  {
    hide SchemaValid, StateInv, StepHeap, RecordBytes, HeapHistory.Accepts, RecordSize;
  }

  /** Each table of `t` was one of `s`, or comes from one of the schemas. */
  ghost predicate MadeFrom(s: CatalogState, t: CatalogState, schemas: seq<TableSchema>) {
    forall name | name in t.tables ::
      || (name in s.tables && t.tables[name] == s.tables[name])
      || (t.tables[name].schema in schemas && t.tables[name].schema.name == name)
  }

  /** A run of creations leaves no gap in the ids, keeps the tables it started with, and makes only tables it was asked for. */
  lemma {:induction false} IdsWithoutGaps(s: CatalogState, schemas: seq<TableSchema>)
    requires CatalogStateInv(s) && forall i | 0 <= i < |schemas| :: SchemaValid(schemas[i])
    requires |s.tables| == s.nextId - 1
    ensures var t := CreateAll(s, schemas);
      && |t.tables| == t.nextId - 1 && MadeFrom(s, t, schemas)
      && forall name | name in s.tables :: name in t.tables && t.tables[name] == s.tables[name]
    decreases |schemas|
  {
    if schemas != [] {
      var mid := CreateStep(s, schemas[0]);
      CreateKeeps(s, schemas[0]);
      OneMoreId(s, schemas[0]);
      hide CatalogStateInv, CreateStep, SchemaValid, MadeFrom;
      IdsWithoutGaps(mid, schemas[1..]);
      MadeThrough(s, mid, CreateAll(mid, schemas[1..]), schemas);
    }
  }

  lemma {:induction false} OneMoreId(s: CatalogState, schema: TableSchema)
    requires CatalogStateInv(s) && SchemaValid(schema) && |s.tables| == s.nextId - 1
    ensures var t := CreateStep(s, schema);
      && |t.tables| == t.nextId - 1 && MadeFrom(s, t, [schema])
      && forall name | name in s.tables :: name in t.tables && t.tables[name] == s.tables[name]
  {
    hide CatalogStateInv, CreateStep, SchemaValid, StopsEarly, HeapHistory.Accepts, RecordBytes, MetadataValid;
    FailedCreation(s, schema);
    var t := CreateStep(s, schema);
    if t.tables != s.tables {
      assert t.tables == s.tables[schema.name := NextTable(s, schema)];
      assert |t.tables| == |s.tables| + 1;
    }
  }

  lemma MadeThrough(s: CatalogState, mid: CatalogState, t: CatalogState, schemas: seq<TableSchema>)
    requires schemas != [] && MadeFrom(s, mid, [schemas[0]]) && MadeFrom(mid, t, schemas[1..])
    ensures MadeFrom(s, t, schemas)
  {
  }

  /** A creation spends a page without making a table exactly when it goes ahead and the catalog's heap refuses the record. */
  lemma {:induction false} PageSpentExactlyWhenRefused(s: CatalogState, schema: TableSchema)
    requires CatalogStateInv(s) && SchemaValid(schema)
    ensures HeapInv(s.heap.heap)
    ensures var t := CreateStep(s, schema);
      t.tables == s.tables && t.heap.nextPage != s.heap.nextPage <==>
        !StopsEarly(s, schema) && InsertOutcome(s.heap.heap, RecordBytes(NextTable(s, schema)), s.heap.nextPage + 1, false).Err?
  {
    FailedCreation(s, schema);
    hide SchemaValid, HeapInv, RecordBytes, HeapHistory.Accepts, RecordSize, CreateStep, InsertOutcome;
    if !StopsEarly(s, schema) {
      OutcomeIsStep(s.heap.heap, RecordBytes(NextTable(s, schema)), s.heap.nextPage + 1);
    }
  }

  // ----- A record that stops the catalog -----

  /** The heap is one page that a record of the largest size fills. */
  ghost predicate Packed(h: Heap) {
    exists page: PageId, record: seq<byte> :: |record| == MAX_RECORD_SIZE && page < U32_MAX && h == PackedHeap(page, record)
  }

  ghost predicate Stopped(s: CatalogState) {
    CatalogStateInv(s) && Packed(s.heap.heap)
  }

  lemma {:induction false} PackedRefuses(s: HeapState, record: seq<byte>)
    requires Packed(s.heap)
    ensures !HeapHistory.Accepts(s, record)
  {
    if |record| <= MAX_RECORD_SIZE {
      var page: PageId, packed: seq<byte> :| |packed| == MAX_RECORD_SIZE && page < U32_MAX && s.heap == PackedHeap(page, packed);
      hide PackedHeap, HeapInv, Place;
      LargestRecordStopsTheHeap(page, packed, record);
    }
  }

  /** Such a catalog makes no table again, and every attempt that does not stop early costs a page. */
  lemma {:induction false} StoppedStays(s: CatalogState, schema: TableSchema)
    requires Stopped(s) && SchemaValid(schema)
    ensures Stopped(CreateStep(s, schema)) && CreateStep(s, schema).tables == s.tables
    ensures CreateStep(s, schema) == if StopsEarly(s, schema) then s else HeapMade(s)
  {
    hide SchemaValid, RecordBytes, Packed, RecordSize, StateInv, HeapHistory.Accepts;
    if !StopsEarly(s, schema) {
      PackedRefuses(HeapMade(s).heap, RecordBytes(NextTable(s, schema)));
    }
  }

  lemma RecordLength(m: TableMetadata)
    requires MetadataValid(m)
    ensures |RecordBytes(m)| == RecordSize(m.schema)
  {
    hide SchemaValid, DeclarationBytes;
  }

  /** However many are tried. */
  lemma {:induction false} StoppedForGood(s: CatalogState, schemas: seq<TableSchema>)
    requires Stopped(s) && forall i | 0 <= i < |schemas| :: SchemaValid(schemas[i])
    ensures CreateAll(s, schemas).tables == s.tables
    decreases |schemas|
  {
    if schemas != [] {
      StoppedStays(s, schemas[0]);
      hide Stopped, CreateStep, SchemaValid;
      StoppedForGood(CreateStep(s, schemas[0]), schemas[1..]);
    }
  }

  lemma {:induction false} FreshHeapTakes(record: seq<byte>)
    requires |record| == MAX_RECORD_SIZE
    ensures var s := HeapState(Heap([1], [EmptyPage]), 3);
      HeapHistory.Accepts(s, record) && Packed(StepHeap(s, InsertRecord(record)).heap)
  {
    LargestRecordStopsTheHeap(1, record, []);
    hide HeapInv, PageModel.Insert, Place;
    var s := HeapState(Heap([1], [EmptyPage]), 3);
    assert StepHeap(s, InsertRecord(record)).heap == PackedHeap(1, record);
  }

  /** A first table whose record has the largest size is made, and stops the catalog. */
  lemma {:induction false} LargestTableStopsTheCatalog(schema: TableSchema)
    requires SchemaValid(schema) && RecordSize(schema) == MAX_RECORD_SIZE
    ensures CatalogStateInv(FreshCatalog)
    ensures Stopped(CreateStep(FreshCatalog, schema)) && schema.name in CreateStep(FreshCatalog, schema).tables
  {
    FreshCatalogInv();
    var m := NextTable(FreshCatalog, schema);
    RecordLength(m);
    CreateKeeps(FreshCatalog, schema);
    hide SchemaValid, RecordBytes, RecordSize;
    FreshHeapTakes(RecordBytes(m));
    hide HeapInv, StepHeap, HeapHistory.Accepts;
  }

  lemma {:induction false} FirstTableMade(schema: TableSchema)
    requires SchemaValid(schema) && CatalogStateInv(FreshCatalog)
    ensures var s := CreateStep(FreshCatalog, schema);
      (forall name | name in s.tables :: name == schema.name) && s.nextId <= 2 && s.heap.nextPage <= 4
  {
    hide SchemaValid, HeapInv, RecordSize, RecordBytes, HeapHistory.Accepts, HeapModel.Inserted;
  }

  /** `n` letters b, then letters a, 255 in all. */
  function LongName(n: nat): (name: Text)
    requires 1 <= n <= MAX_IDENTIFIER_BYTES
    ensures Identifier(name) && |name| == MAX_IDENTIFIER_BYTES
    ensures forall i | 0 <= i < MAX_IDENTIFIER_BYTES :: name[i] == if i < n then 0x62 else 0x61
  {
    var name: seq<byte> := seq(MAX_IDENTIFIER_BYTES, i => if i < n then 0x62 else 0x61);
    AsciiIsUtf8(name, 0);
    name
  }

  lemma {:induction false} AsciiIsUtf8(b: seq<byte>, i: nat)
    requires i <= |b| && forall j | 0 <= j < |b| :: b[j] < 0x80
    ensures Utf8From(b, i)
    decreases |b| - i
  {
    if i < |b| {
      AsciiIsUtf8(b, i + 1);
    }
  }

  /** The `n`-th of 31 columns with the longest names there are. */
  function LongColumn(n: nat): ColumnSchema
    requires n < 31
  {
    ColumnSchema(LongName(n + 1), IntType, n > 0, n == 0)
  }

  predicate AreLong(columns: seq<ColumnSchema>) {
    |columns| == 31 && forall i | 0 <= i < 31 :: columns[i] == LongColumn(i)
  }

  function TableName(): (name: Text)
    ensures Identifier(name) && |name| == 93
  {
    var name: seq<byte> := seq(93, i => 0x61);
    AsciiIsUtf8(name, 0);
    name
  }

  lemma {:induction false} LongColumnsSize(columns: seq<ColumnSchema>, n: nat)
    requires AreLong(columns) && n <= 31
    ensures NamesFit(columns) && |ColumnsBytes(columns, n)| == 259 * n
    ensures Offset(columns, n) == 5 + 8 * n
  {
    hide LongName;
    if n > 0 {
      LongColumnsSize(columns, n - 1);
      assert columns[n - 1] == LongColumn(n - 1);
    }
  }

  lemma LongNamesDiffer(i: nat, j: nat)
    requires i < j < 31
    ensures LongName(i + 1) != LongName(j + 1)
  {
    hide LongName, Identifier;
    assert LongName(i + 1)[i + 1] == 0x61 && LongName(j + 1)[i + 1] == 0x62;
  }

  lemma {:induction false} LongNamesDistinct(columns: seq<ColumnSchema>)
    requires AreLong(columns)
    ensures NamesDistinct(columns) && forall i | 0 <= i < |columns| :: Identifier(columns[i].name)
  {
    hide LongName, Identifier;
    forall i, j | 0 <= i < j < |columns| ensures columns[i].name != columns[j].name {
      LongNamesDiffer(i, j);
    }
  }

  lemma {:induction false} LongColumnsDeclarable(columns: seq<ColumnSchema>)
    requires AreLong(columns)
    ensures Declarable(TableName(), columns) && KeyAt(columns, 0)
  {
    LongNamesDistinct(columns);
    LongColumnsSize(columns, 31);
    hide LongName, Identifier, TableName, NamesDistinct, NamesFit, Offset;
    assert KeyAt(columns, 0);
    hide AreLong, KeyAt;
  }

  function LaidOut(columns: seq<ColumnSchema>): (layout: RowLayout)
    ensures Lays(layout, columns)
  {
    hide Offset, BitmapSize, Width;
    var layouts := seq(|columns|, i requires 0 <= i < |columns| => ColumnLayout(Offset(columns, i), Width(columns[i].dataType)));
    RowLayout(BitmapSize(|columns|), layouts, MinimumSize(columns))
  }

  /** A schema whose record has the largest size there is: 31 columns with names of 255 bytes. */
  function LargestTable(): TableSchema {
    var columns := seq(31, i requires 0 <= i < 31 => LongColumn(i));
    TableSchema(TableName(), columns, 0, LaidOut(columns))
  }

  lemma {:induction false} LargestTableIsLargest()
    ensures SchemaValid(LargestTable()) && RecordSize(LargestTable()) == MAX_RECORD_SIZE
  {
    var columns := LargestTable().columns;
    hide LongColumn, TableName, LaidOut, Declarable, KeyAt, Lays, ColumnsBytes;
    assert AreLong(columns);
    LongColumnsDeclarable(columns);
    LongColumnsSize(columns, 31);
    hide LongColumn, AreLong;
  }

  /**
   * After a table whose record has the largest size, any other schema whose record is not too long is
   * refused, and the page made for it stays behind.
   */
  lemma {:induction false} RefusedTableLeavesPage(largest: TableSchema, schema: TableSchema)
    requires SchemaValid(largest) && RecordSize(largest) == MAX_RECORD_SIZE
    requires SchemaValid(schema) && schema.name != largest.name && RecordSize(schema) <= MAX_RECORD_SIZE
    ensures CatalogStateInv(FreshCatalog) && CatalogStateInv(CreateStep(FreshCatalog, largest))
    ensures var s := CreateStep(FreshCatalog, largest);
      !StopsEarly(s, schema) && CreateStep(s, schema) == s.(heap := s.heap.(nextPage := s.heap.nextPage + 1))
  {
    hide SchemaValid, StateInv, Packed, RecordSize, CreateStep;
    FreshCatalogInv();
    LargestTableStopsTheCatalog(largest);
    var s := CreateStep(FreshCatalog, largest);
    StoppedStays(s, schema);
    FirstTableMade(largest);
  }

  /** A creation that fails and yet changes the database: any table after one with the longest record. */
  lemma {:induction false} FailedCreationChangesDatabase() returns (largest: TableSchema, schema: TableSchema)
    ensures SchemaValid(largest) && SchemaValid(schema)
    ensures CatalogStateInv(FreshCatalog) && CatalogStateInv(CreateStep(FreshCatalog, largest))
    ensures var s := CreateStep(FreshCatalog, largest);
      CreateStep(s, schema) == s.(heap := s.heap.(nextPage := s.heap.nextPage + 1))
  {
    LargestTableIsLargest();
    largest := LargestTable();
    schema := Renamed(largest);
    hide SchemaValid, RecordSize, CreateStep, LargestTable, CatalogStateInv;
    RefusedTableLeavesPage(largest, schema);
  }

  lemma {:induction false} Renamed(largest: TableSchema) returns (schema: TableSchema)
    requires SchemaValid(largest) && RecordSize(largest) <= MAX_RECORD_SIZE && |largest.name| > 1
    ensures SchemaValid(schema) && RecordSize(schema) <= MAX_RECORD_SIZE && schema.name != largest.name
  {
    var name: seq<byte> := [0x61];
    AsciiIsUtf8(name, 0);
    assert Identifier(name);
    hide Lays, NamesDistinct, KeyAt, Offset, Identifier;
    schema := largest.(name := name);
  }
}
