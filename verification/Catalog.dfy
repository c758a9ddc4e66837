/**
 * The catalog (src/catalog/mod.rs): a registry of table definitions kept in a heap of its own, and
 * rebuilt from that heap when the database is opened again.
 */
module Catalogs {
  import opened Wrappers
  import opened Bytes
  import opened Utf8Text
  import opened Pages
  import opened PageModel
  import opened PageLayout
  import opened Disk
  import opened BufferPools
  import opened HeapModel
  import opened HeapFiles
  import opened Schemas
  import opened CatalogRecords
  import opened CatalogModel
  import PageEdits
  import HeapHistory
  import CatalogHistory

  datatype CatalogError =
    | PoolFailure(pool: PoolError)
    | HeapFailure(heap: HeapError)
    | RecordFailure(record: RecordError)
    | AlreadyInitialized(root: PageId)
    | NotInitialized
    | DuplicateTableName(name: Text)
    | DuplicateTableId(id: u32)
    | TableNotFound(name: Text)
    | TableIdExhausted
    | TableRecordTooLarge(size: nat)

  predicate BusyError(e: CatalogError) {
    e.HeapFailure? && Busy(e.heap)
  }

  /** What creating a table gives, when the pool can serve every page. */
  ghost function CreateOutcome(h: Heap, tables: TableMap, next: u32, nextPage: PageId, readOnly: bool, schema: TableSchema): Result<TableMetadata, CatalogError>
    requires HeapInv(h) && SchemaValid(schema) && next >= FIRST_TABLE_ID && nextPage >= FIRST_DATA_PAGE_ID
  {
    var size := TABLE_RECORD_HEADER_SIZE + |DeclarationBytes(schema)|;
    var m := TableMetadata(next, schema, nextPage);
    if schema.name in tables then Err(DuplicateTableName(schema.name))
    else if next == U32_MAX then Err(TableIdExhausted)
    else if size > MAX_RECORD_SIZE then Err(TableRecordTooLarge(size))
    else if readOnly then Err(HeapFailure(BufferFailure(ReadOnlyPool)))
    else if nextPage == U32_MAX then Err(HeapFailure(BufferFailure(DiskFailure(PageIdExhausted))))
    else
      match InsertOutcome(h, RecordBytes(m), nextPage + 1, false)
      case Err(e) => Err(HeapFailure(e))
      case Ok(_) => Ok(m)
  }

  /** Each way in which a creation ends, by the condition under which it does; the first that holds decides. */
  lemma {:induction false} CreationEnds(h: Heap, tables: TableMap, next: u32, nextPage: PageId, readOnly: bool, schema: TableSchema)
    requires HeapInv(h) && SchemaValid(schema) && next >= 1 && nextPage >= 1
    ensures var r, m := CreateOutcome(h, tables, next, nextPage, readOnly, schema), TableMetadata(next, schema, nextPage);
      if schema.name in tables then r == Err(DuplicateTableName(schema.name))
      else if next == 0xFFFF_FFFF then r == Err(TableIdExhausted)
      else if 20 + |DeclarationBytes(schema)| > 8152 then r == Err(TableRecordTooLarge(20 + |DeclarationBytes(schema)|))
      else if readOnly then r == Err(HeapFailure(BufferFailure(ReadOnlyPool)))
      else if nextPage == 0xFFFF_FFFF then r == Err(HeapFailure(BufferFailure(DiskFailure(PageIdExhausted))))
      else if Stops(h, RecordBytes(m)) then r.Err? && r.error.HeapFailure? && r.error.heap.PageFailure?
      else if AnyAdmits(h, RecordBytes(m)) || nextPage < 0xFFFF_FFFE then r == Ok(m)
      else r == Err(HeapFailure(BufferFailure(DiskFailure(PageIdExhausted))))
  {
    hide SchemaValid, HeapInv, InsertOutcome, Stops, AnyAdmits, FirstAdmits, HeaderBytes, DeclarationBytes;
    if next < U32_MAX && nextPage < U32_MAX && !readOnly {
      InsertionEnds(h, RecordBytes(TableMetadata(next, schema, nextPage)), nextPage + 1, false);
    }
  }

  class Catalog {
    const heap: HeapFile
    var tables: TableMap
    var nextTableId: u32

    constructor (heap: HeapFile, tables: TableMap, nextTableId: u32)
      ensures this.heap == heap && this.tables == tables && this.nextTableId == nextTableId
    {
      this.heap := heap;
      this.tables := tables;
      this.nextTableId := nextTableId;
    }

    /** The catalog and the database agree. */
    ghost predicate Valid(pool: BufferPool)
      reads this, heap, pool, pool.repr
    {
      && this !in pool.repr && heap.Valid(pool)
      && CatalogOk(pool.view, pool.disk.header.catalogRoot, heap.pages, tables, nextTableId)
    }

    /** The catalog as it stands in the pool, with the next page id of the database. */
    ghost function StateIn(pool: BufferPool): (s: CatalogHistory.CatalogState)
      requires Valid(pool)
      reads this, heap, pool, pool.repr
      ensures CatalogHistory.CatalogStateInv(s)
    {
      hide Owned, BufferPool.CacheOk, BufferPool.ClockOk, BufferPool.PinsOk, DiskOk, CatalogOk, CatalogHistory.CatalogStateInv;
      pool.AllocatedIds();
      StateIsSound(pool.view, pool.disk.header.catalogRoot, heap.pages, tables, nextTableId, pool.disk.header.nextPageId);
      CatalogAt(pool.view, heap.pages, pool.disk.header.nextPageId, tables, nextTableId)
    }

    /** A new, empty catalog, refused when the database already has one. */
    static method Create(pool: BufferPool) returns (r: Result<Catalog, CatalogError>)
      requires pool.Valid()
      modifies pool.repr
      ensures pool.Valid() && fresh(pool.repr - old(pool.repr)) && pool.pins == old(pool.pins)
      ensures r.Ok? <==>
        && !pool.disk.readOnly && old(HasRoom(pool.pins, pool.capacity))
        && old(pool.disk.header.nextPageId) < U32_MAX && old(pool.disk.header.catalogRoot).None?
      ensures old(pool.disk.header.catalogRoot).Some? ==> r == Err(AlreadyInitialized(old(pool.disk.header.catalogRoot).value))
      ensures r.Err? ==> pool.view == old(pool.view) && pool.disk.header == old(pool.disk.header)
      ensures r.Ok? ==> fresh(r.value) && fresh(r.value.heap) && r.value.Valid(pool)
      ensures r.Ok? ==> r.value.tables == map[] && r.value.nextTableId == FIRST_TABLE_ID
      ensures r.Ok? ==> r.value.heap.pages == [old(pool.disk.header.nextPageId)] && NewHeap(pool.view, old(pool.disk.header.nextPageId))
      ensures r.Ok? ==> pool.disk.header.nextPageId == old(pool.disk.header.nextPageId) + 1
      ensures r.Ok? ==> OthersKept(old(pool.view), pool.view, r.value.heap.pages)
    {
      hide Owned, BufferPool.CacheOk, BufferPool.CacheOkBut, BufferPool.ClockOk, BufferPool.PinsOk, HasRoom, DiskOk,
        InView, HeapInv, HeapOf, WellFormed, Abs, ChainOk, CatalogOk, OthersKept;
      if pool.disk.header.catalogRoot.Some? {
        return Err(AlreadyInitialized(pool.disk.header.catalogRoot.value));
      }
      var heap := HeapFile.Create(pool);
      if heap.Err? {
        return Err(HeapFailure(heap.error));
      }
      var root := heap.value.pages[0];
      pool.OwnedSets();
      ghost var view := pool.view;
      var flushed := pool.FlushPage(root);
      if flushed.Err? {
        assert false;
      }
      RootInView(pool.view, heap.value.pages);
      var rooted := pool.SetCatalogRoot(root);
      if rooted.Err? {
        assert false;
      }
      var catalog := new Catalog(heap.value, map[], FIRST_TABLE_ID);
      EmptyCatalogOk(pool.view, root);
      return Ok(catalog);
    }

    /**
     * Opens the catalog of any database: reads every record, refuses repeated ids or names and heaps
     * that do not open. It succeeds exactly when the database registers some tables, and with those. A
     * root that starts no whole chain is reported by what is wrong with the chain, and a root that is not
     * allocated by that.
     */
    static method Open(pool: BufferPool) returns (r: Result<Catalog, CatalogError>)
      requires pool.Valid()
      modifies pool.repr
      ensures pool.Valid() && fresh(pool.repr - old(pool.repr)) && pool.pins == old(pool.pins)
      ensures pool.view == old(pool.view) && pool.disk.header == old(pool.disk.header)
      ensures r.Ok? ==> fresh(r.value) && fresh(r.value.heap) && r.value.heap.Readable(pool) && r.value !in pool.repr
      ensures r.Ok? ==> OpensAs(pool.view, pool.disk.header.catalogRoot, r.value.tables, r.value.nextTableId)
      ensures r.Ok? ==> r.value.heap.pages == ChainFrom(pool.view, pool.disk.header.catalogRoot.value)
      ensures pool.disk.header.catalogRoot.None? ==> r == Err(NotInitialized)
      ensures pool.disk.header.catalogRoot.Some? && !Opens(pool.view, pool.disk.header.catalogRoot.value) ==>
        && r.Err? && r.error.HeapFailure?
        && (OpenFails(Walk(pool.view, pool.disk.header.catalogRoot.value, []), r.error.heap)
            || (!old(Calm(pool.pins, pool.capacity)) && Busy(r.error.heap)))
      ensures (
          && old(Calm(pool.pins, pool.capacity)) && pool.disk.header.catalogRoot.Some?
          && pool.disk.header.catalogRoot.value !in pool.view) ==>
        r == Err(HeapFailure(BufferFailure(MissError(pool.disk.header.catalogRoot.value, true))))
      ensures pool.disk.header.catalogRoot.Some? && Opens(pool.view, pool.disk.header.catalogRoot.value) && r.Err? ==>
        || FirstFault(pool.view, HeapModel.Scan(HeapOf(pool.view, ChainFrom(pool.view, pool.disk.header.catalogRoot.value))), r.error)
        || (!old(Calm(pool.pins, pool.capacity)) && BusyError(r.error))
      ensures r.Err? ==>
        || (forall tables, next :: !OpensAs(pool.view, pool.disk.header.catalogRoot, tables, next))
        || (!old(Calm(pool.pins, pool.capacity)) && BusyError(r.error))
    {
      hide Owned, BufferPool.CacheOk, BufferPool.CacheOkBut, BufferPool.ClockOk, BufferPool.PinsOk, HasRoom, DiskOk,
        InView, HeapShape, HeapOf, Walk, Registers, IdsDistinct, Highest, Calm, HeapModel.Rows, Loaded, FirstFault;
      if pool.disk.header.catalogRoot.None? {
        return Err(NotInitialized);
      }
      var root := pool.disk.header.catalogRoot.value;
      MissingRoot(pool.view, root);
      FoundOpens(pool.view, root);
      var found := HeapFile.Open(pool, root);
      if found.Err? {
        NoChainRefuses(pool.view, pool.disk.header.catalogRoot);
        return Err(HeapFailure(found.error));
      }
      var heap := found.value;
      var scanned := heap.Scan(pool);
      if scanned.Err? {
        return Err(HeapFailure(scanned.error));
      }
      ScanIsExact(HeapOf(pool.view, heap.pages));
      var loaded := LoadTables(pool, scanned.value, HeapModel.Rows(HeapOf(pool.view, heap.pages)));
      if loaded.Err? {
        RowsRefuse(pool.view, pool.disk.header.catalogRoot);
        return Err(loaded.error);
      }
      LoadedOpens(pool.view, pool.disk.header.catalogRoot, loaded.value.0, loaded.value.1);
      var catalog := new Catalog(heap, loaded.value.0, IdAfter(loaded.value.1));
      return Ok(catalog);
    }

    /** Rebuilds the tables from the records of the catalog's heap, opening each table's heap on the way. */
    static method LoadTables(pool: BufferPool, list: seq<HeapRecord>, ghost rows: map<Rid, seq<byte>>) returns (r: Result<(TableMap, u32), CatalogError>)
      requires pool.Valid() && Lists(list, rows) && DistinctRids(list)
      modifies pool.repr
      ensures pool.Valid() && fresh(pool.repr - old(pool.repr)) && pool.pins == old(pool.pins)
      ensures pool.view == old(pool.view) && pool.disk.header == old(pool.disk.header)
      ensures r.Ok? ==> Rebuilds(pool.view, rows, r.value.0) && Highest(r.value.0, r.value.1)
      ensures r.Err? ==>
        || ((forall tables :: !Rebuilds(pool.view, rows, tables)) && FirstFault(pool.view, list, r.error))
        || (!old(Calm(pool.pins, pool.capacity)) && BusyError(r.error))
    {
      hide Owned, BufferPool.CacheOk, BufferPool.CacheOkBut, BufferPool.ClockOk, BufferPool.PinsOk, HasRoom, DiskOk,
        InView, HeapShape, HeapOf, Walk, Calm, Loaded, Describes, Rebuilds, Lists, DistinctRids, Highest, Opens, IdsDistinct, FirstFault;
      var tables: TableMap, ids: set<u32>, highest: u32 := map[], {}, 0;
      NothingLoaded(pool.view, list);
      for k := 0 to |list|
        invariant pool.Valid() && fresh(pool.repr - old(pool.repr)) && pool.pins == old(pool.pins)
        invariant pool.view == old(pool.view) && pool.disk.header == old(pool.disk.header)
        invariant Loaded(pool.view, list, k, tables, ids, highest)
      {
        var decoded := DecodeTableRecord(list[k].bytes);
        if decoded.Err? {
          BadRecordStops(pool.view, list, rows, k);
          FaultMet(pool.view, list, k, tables, ids, highest, RecordFailure(decoded.error));
          return Err(RecordFailure(decoded.error));
        }
        var m := decoded.value;
        if m.id in ids {
          RepeatStops(pool.view, list, rows, k, tables, ids, highest, m);
          TableFault(pool.view, list, k, tables, ids, highest, m, DuplicateTableId(m.id));
          return Err(DuplicateTableId(m.id));
        }
        if m.schema.name in tables {
          RepeatStops(pool.view, list, rows, k, tables, ids, highest, m);
          TableFault(pool.view, list, k, tables, ids, highest, m, DuplicateTableName(m.schema.name));
          return Err(DuplicateTableName(m.schema.name));
        }
        var tableHeap := HeapFile.Open(pool, m.heapFirstPage);
        if tableHeap.Err? {
          LostHeapStops(pool.view, list, rows, k, m);
          if OpenFails(Walk(pool.view, m.heapFirstPage, []), tableHeap.error) {
            TableFault(pool.view, list, k, tables, ids, highest, m, HeapFailure(tableHeap.error));
          }
          return Err(HeapFailure(tableHeap.error));
        }
        FoundOpens(pool.view, m.heapFirstPage);
        LoadedOneMore(pool.view, list, k, tables, ids, highest, m);
        tables, ids, highest := tables[m.schema.name := m], ids + {m.id}, if m.id > highest then m.id else highest;
      }
      LoadedRebuilds(pool.view, list, rows, tables, ids, highest);
      return Ok((tables, highest));
    }

    /**
     * Makes a heap for the table and writes its record: the step of the specification. When that fails the
     * catalog is as it was, but a heap that was already made stays behind as a page that no chain has.
     */
    method CreateTable(pool: BufferPool, schema: TableSchema) returns (r: Result<TableMetadata, CatalogError>)
      requires Valid(pool) && SchemaValid(schema)
      modifies this, heap, pool.repr
      ensures Valid(pool) && fresh(pool.repr - old(pool.repr)) && pool.pins == old(pool.pins)
      ensures pool.disk.header.catalogRoot == old(pool.disk.header.catalogRoot)
      ensures nextTableId >= FIRST_TABLE_ID && old(pool.disk.header.nextPageId) >= FIRST_DATA_PAGE_ID
      ensures
        || r == CreateOutcome(old(HeapOf(pool.view, heap.pages)), old(tables), old(nextTableId),
                              old(pool.disk.header.nextPageId), pool.disk.readOnly, schema)
        || (!old(Calm(pool.pins, pool.capacity)) && r.Err? && BusyError(r.error))
      ensures schema.name in old(tables) <==> r == Err(DuplicateTableName(schema.name))
      ensures schema.name !in old(tables) && old(nextTableId) == 0xFFFF_FFFF <==> r == Err(TableIdExhausted)
      ensures
        && schema.name !in old(tables) && old(nextTableId) != 0xFFFF_FFFF && 20 + |DeclarationBytes(schema)| > 8152
        <==> r == Err(TableRecordTooLarge(20 + |DeclarationBytes(schema)|))
      ensures r.Ok? || (old(Calm(pool.pins, pool.capacity)) && !pool.disk.readOnly) ==>
        StateIn(pool) == CatalogHistory.CreateStep(old(StateIn(pool)), schema)
      ensures r.Ok? ==> r.value == TableMetadata(old(nextTableId), schema, old(pool.disk.header.nextPageId))
      ensures r.Ok? ==> schema.name !in old(tables) && NewHeap(pool.view, r.value.heapFirstPage)
      ensures r.Ok? ==> tables == old(tables)[schema.name := r.value] && nextTableId == old(nextTableId) + 1
      ensures r.Err? ==> tables == old(tables) && nextTableId == old(nextTableId) && heap.pages == old(heap.pages)
      ensures r.Err? ==> HeapOf(pool.view, heap.pages) == old(HeapOf(pool.view, heap.pages))
      ensures OthersKept(old(pool.view), pool.view, old(heap.pages))
      ensures forall name | name in old(tables) :: SameHeap(old(pool.view), pool.view, old(tables)[name].heapFirstPage)
      ensures r.Err? ==>
        if pool.disk.header == old(pool.disk.header) then pool.view == old(pool.view)
        else PageLeft(old(pool.view), pool.view, old(pool.disk.header.nextPageId), pool.disk.header.nextPageId, heap.pages, tables)
      ensures r.Err? && old(Calm(pool.pins, pool.capacity)) ==>
        (pool.disk.header == old(pool.disk.header) <==>
          pool.disk.readOnly || CatalogHistory.StopsEarly(old(StateIn(pool)), schema))
    {
      hide Owned, BufferPool.CacheOk, BufferPool.CacheOkBut, BufferPool.ClockOk, BufferPool.PinsOk, HasRoom, DiskOk, IdsOk,
        InView, HeapInv, HeapOf, WellFormed, Abs, ChainOk, SchemaValid, RecordBytes, InsertOutcome, Registers, TablesOk, Calm,
        OthersKept, HeapModel.Rows, Opens, ChainFrom, SameHeap;
      hide CatalogHistory.CatalogStateInv, CatalogHistory.CreateStep, CatalogHistory.RegisterStep;
      pool.AllocatedIds();
      CalmHasRoom(pool.pins, pool.capacity);
      EveryoneKept(pool.view, heap.pages);
      TableHeapsKept(pool.view, pool.view, pool.disk.header.catalogRoot, heap.pages, tables, nextTableId);
      ghost var root, was, nextId := pool.disk.header.catalogRoot, tables, nextTableId;
      NextIsPositive(pool.view, pool.disk.header.catalogRoot, heap.pages, tables, nextTableId);
      ghost var s := StateIn(pool);
      EarlyStops(s, schema);
      if schema.name in tables {
        return Err(DuplicateTableName(schema.name));
      }
      if nextTableId == U32_MAX {
        return Err(TableIdExhausted);
      }
      var declaration := Schemas.Encode(schema);
      OnlyEncoding(declaration, schema);
      var recordSize := TABLE_RECORD_HEADER_SIZE + |declaration|;
      if recordSize > MAX_RECORD_SIZE {
        return Err(TableRecordTooLarge(recordSize));
      }
      ghost var id, view := pool.disk.header.nextPageId, pool.view;
      var tableHeap := HeapFile.Create(pool);
      if tableHeap.Err? {
        return Err(HeapFailure(tableHeap.error));
      }
      var m := TableMetadata(nextTableId, schema, tableHeap.value.pages[0]);
      HeapMade(view, pool.view, pool.disk.header.catalogRoot, heap.pages, tables, nextTableId, id);
      ghost var mid := pool.view;
      CreateContinues(s, schema, m);
      r := Register(pool, m);
      KeptThrough(view, mid, pool.view, id, old(heap.pages));
      TableHeapsKept(view, pool.view, root, old(heap.pages), was, nextId);
    }

    /** The heap of a table, as the database has it now. */
    method OpenTableHeap(pool: BufferPool, name: Text) returns (r: Result<HeapFile, CatalogError>)
      requires Valid(pool)
      modifies pool.repr
      ensures Valid(pool) && fresh(pool.repr - old(pool.repr)) && pool.pins == old(pool.pins)
      ensures pool.view == old(pool.view) && pool.disk.header == old(pool.disk.header)
      ensures name !in tables ==> r == Err(TableNotFound(name))
      ensures name in tables ==> r.Ok? || (!old(Calm(pool.pins, pool.capacity)) && BusyError(r.error))
      ensures r.Ok? ==> fresh(r.value) && r.value.Valid(pool) && Opens(pool.view, tables[name].heapFirstPage)
      ensures r.Ok? ==> r.value.pages == ChainFrom(pool.view, tables[name].heapFirstPage)
    {
      hide Owned, BufferPool.CacheOk, BufferPool.CacheOkBut, BufferPool.ClockOk, BufferPool.PinsOk, HasRoom, DiskOk,
        InView, HeapInv, HeapShape, HeapOf, Walk, Calm, ChainOk, ReadableChain, TablesOk, IdsOk, Registers;
      if name !in tables {
        return Err(TableNotFound(name));
      }
      TableHeapIsWhole(pool.view, heap.pages, tables, name);
      var found := HeapFile.Open(pool, tables[name].heapFirstPage);
      if found.Err? {
        return Err(HeapFailure(found.error));
      }
      return Ok(found.value);
    }

    /** Writes the record of a table whose heap, one page that no chain has, is there already. */
    method Register(pool: BufferPool, m: TableMetadata) returns (r: Result<TableMetadata, CatalogError>)
      requires Valid(pool) && MetadataValid(m) && m.id == nextTableId < U32_MAX && m.schema.name !in tables
      requires NewHeap(pool.view, m.heapFirstPage) && m.heapFirstPage !in heap.pages
      requires forall name | name in tables ::
        Opens(pool.view, tables[name].heapFirstPage) && m.heapFirstPage !in ChainFrom(pool.view, tables[name].heapFirstPage)
      requires !pool.disk.readOnly
      modifies this, heap, pool.repr
      ensures Valid(pool) && fresh(pool.repr - old(pool.repr)) && pool.pins == old(pool.pins)
      ensures var outcome := InsertOutcome(old(HeapOf(pool.view, heap.pages)), RecordBytes(m), old(pool.disk.header.nextPageId), false);
        || r == (if outcome.Ok? then Ok(m) else Err(HeapFailure(outcome.error)))
        || (!old(Calm(pool.pins, pool.capacity)) && r.Err? && BusyError(r.error))
      ensures pool.disk.header.catalogRoot == old(pool.disk.header.catalogRoot)
      ensures r.Ok? || old(Calm(pool.pins, pool.capacity)) ==>
        StateIn(pool) == CatalogHistory.RegisterStep(old(StateIn(pool)), m)
      ensures r.Ok? ==> r.value == m && NewHeap(pool.view, m.heapFirstPage)
      ensures r.Ok? ==> tables == old(tables)[m.schema.name := m] && nextTableId == old(nextTableId) + 1
      ensures r.Err? ==> tables == old(tables) && nextTableId == old(nextTableId) && heap.pages == old(heap.pages)
      ensures r.Err? ==> pool.view == old(pool.view) && pool.disk.header == old(pool.disk.header)
      ensures OthersKept(old(pool.view), pool.view, old(heap.pages))
    {
      hide Owned, BufferPool.CacheOk, BufferPool.CacheOkBut, BufferPool.ClockOk, BufferPool.PinsOk, HasRoom, DiskOk,
        InView, HeapInv, HeapOf, WellFormed, Abs, ChainOk, SchemaValid, RecordBytes, InsertOutcome, Registers, TablesOk, Calm,
        OthersKept, HeapModel.Rows, Opens, ChainFrom, IdsOk, MetadataValid;
      hide CatalogHistory.CatalogStateInv, CatalogHistory.RegisterStep, Place, GainsRow;
      pool.AllocatedIds();
      ghost var s := StateIn(pool);
      RecordTaken(s, m);
      NewTableOk(pool.view, m.heapFirstPage, m);
      ghost var mid, pages, next := pool.view, heap.pages, pool.disk.header.nextPageId;
      var encoded := EncodeTableRecord(m);
      var stored := heap.Insert(pool, encoded);
      if stored.Err? {
        return Err(HeapFailure(stored.error));
      }
      NewHeapSurvives(mid, pool.view, pages, m.heapFirstPage);
      AcceptedHeapGrew(mid, pool.view, pages, heap.pages, encoded, next);
      TableAdded(mid, pool.view, pool.disk.header.catalogRoot, pages, heap.pages, tables, nextTableId, m, encoded, next);
      nextTableId := nextTableId + 1;
      tables := tables[m.schema.name := m];
      return Ok(m);
    }
  }

  ghost function CatalogAt(view: PageMap, pages: seq<PageId>, nextPage: PageId, tables: TableMap, nextId: u32): CatalogHistory.CatalogState
    requires InView(view, pages)
  {
    CatalogHistory.CatalogState(HeapHistory.HeapState(HeapOf(view, pages), nextPage), tables, nextId)
  }

  lemma StateIsSound(view: PageMap, root: Option<PageId>, pages: seq<PageId>, tables: TableMap, nextId: u32, nextPage: PageId)
    requires CatalogOk(view, root, pages, tables, nextId)
    requires nextPage >= 1 && forall id | id in view :: id < nextPage
    ensures CatalogHistory.CatalogStateInv(CatalogAt(view, pages, nextPage, tables, nextId))
  {
    hide WellFormed, Abs, HeapInv, Registers, TablesOk;
  }

  /**
   * The view gained one page, an empty heap that neither the catalog nor a table has, and nothing else
   * changed. Its id is spent.
   */
  ghost predicate PageLeft(view: PageMap, after: PageMap, id: PageId, next: PageId, pages: seq<PageId>, tables: TableMap) {
    && id !in view && after == view[id := PageEdits.Initialized()] && NewHeap(after, id) && next == id + 1
    && id !in pages
    && forall name | name in tables ::
         Opens(after, tables[name].heapFirstPage) && id !in ChainFrom(after, tables[name].heapFirstPage)
  }

  lemma EveryoneKept(view: PageMap, pages: seq<PageId>)
    ensures OthersKept(view, view, pages)
  {
  }

  lemma KeptThrough(view: PageMap, mid: PageMap, after: PageMap, id: PageId, touched: seq<PageId>)
    requires id !in view && OthersKept(view, mid, [id]) && OthersKept(mid, after, touched)
    ensures OthersKept(view, after, touched)
  {
  }

  /** When the record is taken, the step of the specification is the one the heap takes. */
  lemma {:induction false} RecordTaken(s: CatalogHistory.CatalogState, m: TableMetadata)
    requires CatalogHistory.CatalogStateInv(s) && MetadataValid(m) && s.nextId < U32_MAX
    ensures var h, next, t := s.heap.heap, s.heap.nextPage, CatalogHistory.RegisterStep(s, m);
      && HeapInv(h)
      && t == if InsertOutcome(h, RecordBytes(m), next, false).Ok?
         then
           CatalogHistory.CatalogState(
             HeapHistory.HeapState(Inserted(h, RecordBytes(m), next), next + if Place(h.states, RecordBytes(m)).NewPage? then 1 else 0),
             s.tables[m.schema.name := m], s.nextId + 1)
         else s
  {
    OutcomeIsStep(s.heap.heap, RecordBytes(m), s.heap.nextPage);
    hide HeapInv, MetadataValid, RecordBytes, InsertOutcome, Inserted, Place;
  }

  lemma NextIsPositive(view: PageMap, root: Option<PageId>, pages: seq<PageId>, tables: TableMap, next: u32)
    requires CatalogOk(view, root, pages, tables, next)
    ensures next >= FIRST_TABLE_ID
  {
    hide ChainOk, Registers, TablesOk, Highest;
  }

  lemma EarlyStops(s: CatalogHistory.CatalogState, schema: TableSchema)
    requires CatalogHistory.CatalogStateInv(s) && SchemaValid(schema)
    ensures CatalogHistory.StopsEarly(s, schema) ==> CatalogHistory.CreateStep(s, schema) == s
  {
    hide SchemaValid, CatalogHistory.CatalogStateInv, CatalogHistory.StopsEarly;
  }

  /** A creation that does not stop early goes on with the table's heap made. */
  lemma {:induction false} CreateContinues(s: CatalogHistory.CatalogState, schema: TableSchema, m: TableMetadata)
    requires CatalogHistory.CatalogStateInv(s) && SchemaValid(schema) && !CatalogHistory.StopsEarly(s, schema)
    requires m == CatalogHistory.NextTable(s, schema)
    ensures CatalogHistory.CreateStep(s, schema) == CatalogHistory.RegisterStep(CatalogHistory.HeapMade(s), m)
    ensures CatalogHistory.HeapMade(s) != s
  {
    hide SchemaValid, CatalogHistory.CatalogStateInv, CatalogHistory.RegisterStep;
  }

  /** The tables that the rows register, with distinct ids and heaps that open. */
  ghost predicate Rebuilds(view: PageMap, rows: map<Rid, seq<byte>>, tables: TableMap) {
    Registers(rows, tables) && IdsDistinct(tables) && NamedAndOpen(view, tables)
  }

  /** The first `k` records of the list describe exactly these tables, and nothing is wrong with them. */
  ghost predicate LoadsUpTo(view: PageMap, list: seq<HeapRecord>, k: nat, tables: TableMap) {
    k <= |list| && NamedAndOpen(view, tables) && RecordsAll(list, k, tables) && AllRecorded(list, k, tables) && IdsDistinct(tables)
  }

  /**
   * What is wrong with one more record: it describes no table, a table whose id is taken, else one whose name is
   * taken, else one whose heap does not open.
   */
  ghost predicate FaultOf(view: PageMap, bytes: seq<byte>, tables: TableMap, e: CatalogError) {
    if e.RecordFailure? then forall m :: !Describes(bytes, m)
    else
      exists m :: Describes(bytes, m) && FaultOfTable(view, m, tables, e)
  }

  ghost predicate FaultOfTable(view: PageMap, m: TableMetadata, tables: TableMap, e: CatalogError) {
    if exists name :: name in tables && tables[name].id == m.id then e == DuplicateTableId(m.id)
    else if m.schema.name in tables then e == DuplicateTableName(m.schema.name)
    else e.HeapFailure? && OpenFails(Walk(view, m.heapFirstPage, []), e.heap)
  }

  /** The first record with which something is wrong, in the order of the scan, is refused with `e`. */
  ghost predicate FirstFault(view: PageMap, list: seq<HeapRecord>, e: CatalogError) {
    exists k, tables :: 0 <= k < |list| && LoadsUpTo(view, list, k, tables) && FaultOf(view, list[k].bytes, tables, e)
  }

  lemma FaultMet(view: PageMap, list: seq<HeapRecord>, k: nat, tables: TableMap, ids: set<u32>, highest: u32, e: CatalogError)
    requires k < |list| && Loaded(view, list, k, tables, ids, highest) && FaultOf(view, list[k].bytes, tables, e)
    ensures FirstFault(view, list, e)
  {
    hide NamedAndOpen, RecordsAll, AllRecorded, IdsDistinct, FaultOf, IdsAre, Highest, BytesDistinct;
  }

  lemma TableFault(view: PageMap, list: seq<HeapRecord>, k: nat, tables: TableMap, ids: set<u32>, highest: u32, m: TableMetadata, e: CatalogError)
    requires k < |list| && Loaded(view, list, k, tables, ids, highest) && Describes(list[k].bytes, m) && !e.RecordFailure?
    requires if m.id in ids then e == DuplicateTableId(m.id)
      else if m.schema.name in tables then e == DuplicateTableName(m.schema.name)
      else e.HeapFailure? && OpenFails(Walk(view, m.heapFirstPage, []), e.heap)
    ensures FirstFault(view, list, e)
  {
    hide Describes, Walk, OpenFails, Loaded, FirstFault;
    IdsLoaded(view, list, k, tables, ids, highest, m.id);
    assert FaultOfTable(view, m, tables, e);
    FaultMet(view, list, k, tables, ids, highest, e);
  }

  lemma IdsLoaded(view: PageMap, list: seq<HeapRecord>, k: nat, tables: TableMap, ids: set<u32>, highest: u32, id: u32)
    requires k <= |list| && Loaded(view, list, k, tables, ids, highest)
    ensures id in ids <==> exists name :: name in tables && tables[name].id == id
  {
    hide NamedAndOpen, RecordsAll, AllRecorded, IdsDistinct, Highest, BytesDistinct;
    assert id in ids ==> IdTaken(tables, id);
  }

  lemma NothingLoaded(view: PageMap, list: seq<HeapRecord>)
    ensures Loaded(view, list, 0, map[], {}, 0)
  {
  }

  lemma MissingRoot(view: PageMap, root: PageId)
    ensures root !in view ==>
      forall e :: OpenFails(Walk(view, root, []), e) <==> e == BufferFailure(MissError(root, true))
    ensures Opens(view, root) ==> root in view
  {
    FirstPageMissing(view, root);
    FoundOpens(view, root);
    hide Walk;
  }

  lemma FoundOpens(view: PageMap, first: PageId)
    ensures Opens(view, first) <==> Walk(view, first, []).Chain?
  {
  }

  lemma LoadedRebuilds(view: PageMap, list: seq<HeapRecord>, rows: map<Rid, seq<byte>>, tables: TableMap, ids: set<u32>, highest: u32)
    requires Loaded(view, list, |list|, tables, ids, highest) && Lists(list, rows)
    ensures Rebuilds(view, rows, tables) && Highest(tables, highest)
  {
    LoadedAll(view, list, rows, tables, ids, highest);
    hide Registers, IdsDistinct, NamedAndOpen, Highest, Lists, RecordsAll, AllRecorded, IdsAre, BytesDistinct;
  }

  lemma BadRecordStops(view: PageMap, list: seq<HeapRecord>, rows: map<Rid, seq<byte>>, k: nat)
    requires k < |list| && Lists(list, rows) && forall m :: !Describes(list[k].bytes, m)
    ensures forall tables :: !Rebuilds(view, rows, tables)
  {
    hide Registers, IdsDistinct, NamedAndOpen, Lists, Describes;
    forall tables ensures !Rebuilds(view, rows, tables) {
      if Registers(rows, tables) {
        BadRecordRefuses(list, rows, k, tables);
      }
    }
  }

  lemma RepeatStops(view: PageMap, list: seq<HeapRecord>, rows: map<Rid, seq<byte>>, k: nat, tables: TableMap, ids: set<u32>, highest: u32, m: TableMetadata)
    requires k < |list| && Loaded(view, list, k, tables, ids, highest) && Describes(list[k].bytes, m)
    requires (m.id in ids || m.schema.name in tables) && Lists(list, rows) && DistinctRids(list)
    ensures forall others :: !Rebuilds(view, rows, others)
  {
    hide Registers, IdsDistinct, NamedAndOpen, Lists, Describes, Loaded, DistinctRids;
    forall others ensures !Rebuilds(view, rows, others) {
      if Registers(rows, others) && IdsDistinct(others) {
        NextRecordIsNew(view, list, rows, k, tables, ids, highest, m, others);
      }
    }
  }

  lemma LostHeapStops(view: PageMap, list: seq<HeapRecord>, rows: map<Rid, seq<byte>>, k: nat, m: TableMetadata)
    requires k < |list| && Lists(list, rows) && Describes(list[k].bytes, m)
    ensures !Walk(view, m.heapFirstPage, []).Chain? ==> forall tables :: !Rebuilds(view, rows, tables)
  {
    FoundOpens(view, m.heapFirstPage);
    hide Registers, IdsDistinct, Lists, Describes, Opens, Walk;
    if !Opens(view, m.heapFirstPage) {
      forall tables ensures !Rebuilds(view, rows, tables) {
        if Registers(rows, tables) {
          ListedIsTable(list, rows, k, m, tables);
        }
      }
    }
  }

  lemma NoChainRefuses(view: PageMap, root: Option<PageId>)
    requires root.Some?
    ensures !Walk(view, root.value, []).Chain? ==> forall tables, next :: !OpensAs(view, root, tables, next)
  {
    FoundOpens(view, root.value);
    hide Registers, IdsDistinct, Opens, Walk, ChainFrom, HeapOf, HeapModel.Rows, Highest;
  }

  lemma RowsRefuse(view: PageMap, root: Option<PageId>)
    requires root.Some? && Opens(view, root.value)
    ensures (forall tables :: !Rebuilds(view, HeapModel.Rows(HeapOf(view, ChainFrom(view, root.value))), tables)) ==>
      forall tables, next :: !OpensAs(view, root, tables, next)
  {
    hide Opens, ChainFrom, HeapOf, HeapModel.Rows, Highest, HeapShape, InView;
    var rows := HeapModel.Rows(HeapOf(view, ChainFrom(view, root.value)));
    forall tables, next | OpensAs(view, root, tables, next) ensures Rebuilds(view, rows, tables) {
      OpensAsRebuilds(view, rows, tables);
    }
  }

  lemma OpensAsRebuilds(view: PageMap, rows: map<Rid, seq<byte>>, tables: TableMap)
    requires Registers(rows, tables) && IdsDistinct(tables)
    requires forall name | name in tables :: Opens(view, tables[name].heapFirstPage)
    ensures Rebuilds(view, rows, tables)
  {
    hide Opens, IdsDistinct, RecordsSome, HasRecord;
  }

  lemma LoadedOpens(view: PageMap, root: Option<PageId>, tables: TableMap, highest: u32)
    requires root.Some? && Opens(view, root.value) && Highest(tables, highest)
    requires Rebuilds(view, HeapModel.Rows(HeapOf(view, ChainFrom(view, root.value))), tables)
    ensures OpensAs(view, root, tables, IdAfter(highest))
  {
    hide Opens, ChainFrom, HeapOf, HeapModel.Rows, Highest, HeapShape, InView, Registers, IdsDistinct;
  }

  lemma TableHeapIsWhole(view: PageMap, pages: seq<PageId>, tables: TableMap, name: Text)
    requires TablesOk(view, pages, tables) && name in tables
    ensures Opens(view, tables[name].heapFirstPage) && ChainOk(view, ChainFrom(view, tables[name].heapFirstPage))
  {
    hide Opens, ChainFrom, ChainOk, MetadataValid, Disjoint;
    assert TableHeapOk(view, tables[name]);
  }

  lemma CalmHasRoom(pins: multiset<PageId>, capacity: nat)
    ensures Calm(pins, capacity) ==> HasRoom(pins, capacity)
  {
  }

  /** A heap of one page, still empty. */
  ghost predicate NewHeap(view: PageMap, id: PageId) {
    ChainOk(view, [id]) && HeapOf(view, [id]) == Heap([id], [EmptyPage])
  }

  lemma NewHeapSurvives(view: PageMap, after: PageMap, touched: seq<PageId>, id: PageId)
    requires NewHeap(view, id) && OthersKept(view, after, touched) && id !in touched
    ensures NewHeap(after, id)
  {
    hide ChainOk, OthersKept;
    ChainSurvives(view, after, touched, [id]);
  }

  lemma {:induction false} NewTableOk(view: PageMap, id: PageId, m: TableMetadata)
    requires ChainOk(view, [id]) && MetadataValid(m) && m.heapFirstPage == id
    ensures TableHeapOk(view, m) && ChainFrom(view, id) == [id]
  {
    hide MetadataValid, ChainOk, Opens, ChainFrom;
    EngineChainFrom(view, [id]);
  }

  lemma {:induction false} AcceptedHeapGrew(mid: PageMap, after: PageMap, pages: seq<PageId>, grown: seq<PageId>, record: seq<byte>, nextPage: PageId)
    requires ChainOk(mid, pages) && ChainOk(after, grown) && OthersKept(mid, after, pages) && nextPage !in mid
    requires InsertOutcome(HeapOf(mid, pages), record, nextPage, false).Ok?
    requires HeapOf(after, grown) == Inserted(HeapOf(mid, pages), record, nextPage)
    ensures HeapGrew(mid, after, pages, grown, record, nextPage)
  {
    hide WellFormed, Abs, HeapInv, InView, Inserted, OthersKept, Place;
  }

  lemma RootInView(view: PageMap, pages: seq<PageId>)
    requires ChainOk(view, pages)
    ensures |pages| >= 1 && pages[0] in view
  {
    hide WellFormed, Abs;
  }

  lemma {:induction false} EmptyCatalogOk(view: PageMap, root: PageId)
    requires ChainOk(view, [root]) && HeapOf(view, [root]) == Heap([root], [EmptyPage])
    ensures CatalogOk(view, Some(root), [root], map[], FIRST_TABLE_ID)
  {
    InvHasShape(HeapOf(view, [root]));
    hide WellFormed, Abs, InView, HeapInv;
    assert IndexOf([root], root) == 0;
    assert forall rid :: !Holds(Heap([root], [EmptyPage]), rid);
  }
}
