/**
 * Whole runs through every layer: work on a new database through a pool of any size, close it, open the
 * file again with a pool of any other size, and read back exactly what the run means.
 */
module EndToEnd {
  import opened Wrappers
  import opened Bytes
  import opened Pages
  import opened PageModel
  import opened PageLayout
  import opened Disk
  import opened BufferPools
  import opened HeapModel
  import opened HeapFiles
  import opened HeapHistory
  import opened Utf8Text
  import opened Schemas
  import opened CatalogRecords
  import opened CatalogModel
  import opened Catalogs
  import CatalogHistory

  /** The heap as it stands in the pool, with the next page id of the database. */
  ghost function StateIn(pool: BufferPool, heap: HeapFile): (s: HeapState)
    requires heap.Valid(pool)
    reads heap, pool, pool.repr
    ensures StateInv(s)
  {
    hide Owned, BufferPool.CacheOk, BufferPool.ClockOk, BufferPool.PinsOk, DiskOk, ChainOk, HeapOf, StateInv;
    pool.AllocatedIds();
    HeapStateInv(pool.view, heap.pages, pool.disk.header.nextPageId);
    HeapState(HeapOf(pool.view, heap.pages), pool.disk.header.nextPageId)
  }

  lemma HeapStateInv(view: PageMap, pages: seq<PageId>, next: PageId)
    requires ChainOk(view, pages) && forall id | id in view :: id < next
    ensures StateInv(HeapState(HeapOf(view, pages), next))
  {
    hide WellFormed, Abs, HeapInv;
  }

  /** Another user of the database takes a page; the heap does not notice. */
  method AllocateElsewhereIn(pool: BufferPool, heap: HeapFile)
    requires heap.Valid(pool) && pool.pins == multiset{} && !pool.disk.readOnly
    modifies pool.repr
    ensures heap.Valid(pool) && fresh(pool.repr - old(pool.repr)) && pool.pins == multiset{}
    ensures StateIn(pool, heap) == StepHeap(old(StateIn(pool, heap)), AllocateElsewhere)
  {
    hide Owned, BufferPool.CacheOk, BufferPool.CacheOkBut, BufferPool.ClockOk, BufferPool.PinsOk, HasRoom, Copies, DiskOk,
      WellFormed, Abs, HeapInv, PageInv, EvictedInOrder, TouchedOnly, OnlyEvictedWritten;
    ghost var view, id := pool.view, pool.disk.header.nextPageId;
    CapacityIsPositive(pool);
    OneFrameIsEnough(pool.capacity);
    pool.AllocatedIds();
    var guard := pool.AllocatePage();
    if guard.Ok? {
      pool.FrameIsOk(id);
      pool.OwnedSets();
      PinsRestored(multiset{}, id);
      pool.Release(guard.value);
      NewPageElsewhere(view, pool.view, heap.pages, id);
    }
  }

  lemma CapacityIsPositive(pool: BufferPool)
    requires pool.Valid()
    ensures pool.capacity >= 1
  {
    pool.CapacityHolds();
  }

  lemma {:induction false} NewPageElsewhere(view: PageMap, after: PageMap, pages: seq<PageId>, id: PageId)
    requires ChainOk(view, pages) && id !in view && after.Keys == view.Keys + {id}
    requires forall p | p in view :: p in after && after[p] == view[p]
    ensures ChainOk(after, pages) && HeapOf(after, pages) == HeapOf(view, pages)
  {
    forall i | 0 <= i < |pages| ensures pages[i] in view {
      PageIsSound(view, pages, i);
    }
    hide ChainOk, HeapOf;
    ChainFrame(view, after, pages);
  }

  /**
   * Carries out one operation and returns the addresses it handed out; the heap in the pool takes exactly
   * the step of the specification.
   */
  method Perform(pool: BufferPool, heap: HeapFile, op: HeapOp) returns (issued: seq<Rid>)
    requires heap.Valid(pool) && pool.pins == multiset{} && !pool.disk.readOnly
    modifies heap, pool.repr
    ensures issued == IssuedInStep(old(StateIn(pool, heap)), op)
    ensures heap.Valid(pool) && fresh(pool.repr - old(pool.repr)) && pool.pins == multiset{}
    ensures StateIn(pool, heap) == StepHeap(old(StateIn(pool, heap)), op)
  {
    hide Owned, BufferPool.CacheOk, BufferPool.CacheOkBut, BufferPool.ClockOk, BufferPool.PinsOk, HasRoom, DiskOk,
      WellFormed, Abs, HeapInv, PageInv, InView, HeapModel.Rows, Calm, InsertOutcome, Accepts, Inserted;
    CapacityIsPositive(pool);
    OneFrameIsEnough(pool.capacity);
    hide IssuedInStep, StateInv;
    ghost var h, next := HeapOf(pool.view, heap.pages), pool.disk.header.nextPageId;
    NoneIssued(StateIn(pool, heap), op);
    issued := [];
    match op {
      case InsertRecord(record) =>
        OutcomeIsStep(h, record, next);
        OutcomeIsIssued(h, record, next);
        var inserted := heap.Insert(pool, record);
        if inserted.Ok? {
          issued := [inserted.value];
        }
      case DeleteRow(rid) =>
        var deleted := heap.Delete(pool, rid);
      case AllocateElsewhere =>
        AllocateElsewhereIn(pool, heap);
    }
  }

  lemma NoneIssued(s: HeapState, op: HeapOp)
    requires StateInv(s)
    ensures !op.InsertRecord? ==> IssuedInStep(s, op) == []
  {
  }

  /** A new database with one empty heap, and a run of operations on it. */
  method RunOnNewDatabase(capacity: nat, ops: seq<HeapOp>) returns (disk: DiskManager, issued: seq<Rid>, ghost pages: seq<PageId>)
    requires capacity >= 1
    ensures StateInv(FreshState) && fresh(disk) && disk.Valid()
    ensures |pages| >= 1 && pages[0] == 1 && ChainOk(disk.pages, pages)
    ensures HeapOf(disk.pages, pages) == RunHeap(FreshState, ops).heap && issued == IssuedInRun(FreshState, ops)
  {
    hide Owned, BufferPool.CacheOk, BufferPool.CacheOkBut, BufferPool.ClockOk, BufferPool.PinsOk, DiskOk,
      WellFormed, Abs, PageInv, InView, HeapInv, HeapOf;
    FreshStateInv();
    var created := new DiskManager.Create();
    var pool := new BufferPool(created, capacity);
    OneFrameIsEnough(capacity);
    var made := HeapFile.Create(pool);
    var heap := made.value;
    assert StateIn(pool, heap) == FreshState;
    issued := PerformAll(pool, heap, ops);
    pages := heap.pages;
    KeepsFirst(FreshState, ops);
    pool.OwnedSets();
    disk := pool.Close();
  }

  method PerformAll(pool: BufferPool, heap: HeapFile, ops: seq<HeapOp>) returns (issued: seq<Rid>)
    requires heap.Valid(pool) && pool.pins == multiset{} && !pool.disk.readOnly
    modifies heap, pool.repr
    ensures heap.Valid(pool) && fresh(pool.repr - old(pool.repr)) && pool.pins == multiset{}
    ensures StateIn(pool, heap) == RunHeap(old(StateIn(pool, heap)), ops)
    ensures issued == IssuedInRun(old(StateIn(pool, heap)), ops)
  {
    hide Owned, BufferPool.CacheOk, BufferPool.CacheOkBut, BufferPool.ClockOk, BufferPool.PinsOk, StateInv, StepHeap, StateIn, ChainOk,
      IssuedInStep;
    issued := [];
    ghost var start := StateIn(pool, heap);
    assert ops[0..] == ops;
    for i := 0 to |ops|
      invariant heap.Valid(pool) && fresh(pool.repr - old(pool.repr)) && pool.pins == multiset{}
      invariant RunHeap(StateIn(pool, heap), ops[i..]) == RunHeap(start, ops)
      invariant issued + IssuedInRun(StateIn(pool, heap), ops[i..]) == IssuedInRun(start, ops)
    {
      assert ops[i..][0] == ops[i] && ops[i..][1..] == ops[i + 1..];
      StepKeeps(StateIn(pool, heap), ops[i]);
      var more := Perform(pool, heap, ops[i]);
      issued := issued + more;
    }
  }

  /**
   * Stores a record, lets any run of operations go by, and reads it back by the address it was given: the
   * bytes are there unless the run deleted them, and then the address names nothing.
   */
  method InsertRunGet(pool: BufferPool, heap: HeapFile, record: seq<byte>, ops: seq<HeapOp>)
    returns (stored: Result<Rid, HeapError>, got: Result<seq<byte>, HeapError>)
    requires heap.Valid(pool) && pool.pins == multiset{} && !pool.disk.readOnly
    modifies heap, pool.repr
    ensures heap.Valid(pool) && fresh(pool.repr - old(pool.repr)) && pool.pins == multiset{}
    ensures stored.Ok? && DeleteRow(stored.value) !in ops ==> got == Ok(record)
    ensures stored.Ok? && DeleteRow(stored.value) in ops ==> got.Err?
    ensures stored.Err? <==> !Accepts(old(StateIn(pool, heap)), record)
  {
    hide Owned, BufferPool.CacheOk, BufferPool.CacheOkBut, BufferPool.ClockOk, BufferPool.PinsOk, HasRoom, DiskOk,
      WellFormed, Abs, HeapInv, HeapShape, PageInv, InView, HeapModel.Rows, Calm, InsertOutcome, Accepts, Inserted, StateInv,
      StepHeap, IssuedInStep, HasBytes, GainsRow, OthersKept, HeapOf, RunHeap, IssuedInRun;
    CapacityIsPositive(pool);
    OneFrameIsEnough(pool.capacity);
    ghost var s := StateIn(pool, heap);
    OutcomeIsStep(s.heap, record, s.nextPage);
    stored := heap.Insert(pool, record);
    if stored.Err? {
      return stored, Err(stored.error);
    }
    ghost var t := StateIn(pool, heap);
    StoredIsThere(s.heap, t, stored.value, record);
    var issued := PerformAll(pool, heap, ops);
    AfterTheRun(t, stored.value, record, ops);
    ChainReads(pool.view, heap.pages);
    got := heap.Get(pool, stored.value);
  }

  lemma StoredIsThere(h: Heap, t: HeapState, rid: Rid, record: seq<byte>)
    requires StateInv(t) && GainsRow(h, t.heap, rid, record)
    ensures HasBytes(t, rid, record)
  {
    hide StateInv, HeapShape, HeapModel.Rows;
  }

  lemma {:induction false} AfterTheRun(t: HeapState, rid: Rid, record: seq<byte>, ops: seq<HeapOp>)
    requires StateInv(t) && HasBytes(t, rid, record)
    ensures var h := RunHeap(t, ops).heap;
      && HeapShape(h) && (rid in HeapModel.Rows(h) <==> DeleteRow(rid) !in ops)
      && (rid in HeapModel.Rows(h) ==> HeapModel.Rows(h)[rid] == record)
  {
    InvHasShape(RunHeap(t, ops).heap);
    if DeleteRow(rid) in ops {
      DeletedRowIsGone(t, rid, record, ops);
    } else {
      RowStaysUntilDeleted(t, rid, record, ops);
    }
    hide StateInv, HeapShape, HeapInv, HeapModel.Rows, RunHeap;
  }

  /** A run never changes which page comes first. */
  lemma {:induction false} KeepsFirst(s: HeapState, ops: seq<HeapOp>)
    requires StateInv(s)
    ensures |s.heap.pages| >= 1 && |RunHeap(s, ops).heap.pages| >= 1
    ensures RunHeap(s, ops).heap.pages[0] == s.heap.pages[0]
    decreases |ops|
  {
    ShapeOf(s);
    if ops != [] {
      StepKeeps(s, ops[0]);
      StepKeepsFirst(s, ops[0]);
      hide StateInv, StepHeap;
      KeepsFirst(StepHeap(s, ops[0]), ops[1..]);
    }
  }

  lemma StepKeepsFirst(s: HeapState, op: HeapOp)
    requires StateInv(s)
    ensures |StepHeap(s, op).heap.pages| >= 1 && StepHeap(s, op).heap.pages[0] == s.heap.pages[0]
  {
    ShapeOf(s);
    assert |s.heap.pages| >= 1;
    hide HeapInv, Accepts, Holds;
  }

  /** Opens a database file with a pool of its own, reads the heap that starts at page one, and one of its rows. */
  method ReadBack(file: seq<byte>, readOnly: bool, capacity: nat, rid: Rid, ghost view: PageMap, ghost chain: seq<PageId>)
    returns (pages: seq<PageId>, records: seq<HeapRecord>, got: Result<seq<byte>, HeapError>)
    requires capacity >= 1 && FileOpens(file) && |chain| >= 1 && chain[0] == 1 && ChainOk(view, chain)
    requires forall header, stored :: DiskOk(file, header, stored) ==> stored == view
    ensures pages == chain && HeapShape(HeapOf(view, chain)) && records == Scan(HeapOf(view, chain))
    ensures var rows := HeapModel.Rows(HeapOf(view, chain));
      if rid in rows then got == Ok(rows[rid])
      else got == Err(if rid.page in chain then PageFailure(InvalidRid(rid)) else RidOutsideHeap(rid))
  {
    hide Owned, BufferPool.CacheOk, BufferPool.CacheOkBut, BufferPool.ClockOk, BufferPool.PinsOk, DiskOk, FileOpens,
      WellFormed, Abs, PageInv, InView, HeapInv, HeapShape, HeapOf, Walk, ChainOk, HeapModel.Rows;
    var disk := DiskManager.Open(file, readOnly);
    assert disk.value.pages == view;
    var pool := new BufferPool(disk.value, capacity);
    OneFrameIsEnough(capacity);
    EngineChainIsFound(view, chain);
    var found := HeapFile.Open(pool, 1);
    var heap := found.value;
    var scanned := heap.Scan(pool);
    got := heap.Get(pool, rid);
    return heap.pages, scanned.value, got;
  }

  /**
   * Any run of insertions, deletions and allocations on a new heap, through a pool of any capacity, then
   * closing the database and opening the file again with a pool of any other capacity: the heap has the
   * same pages, and a scan lists exactly the rows of the run, each once, in page and slot order. The
   * addresses that insertions returned on the way are those of the run, and no two are equal. Reading any
   * address then gives the bytes that the scan lists for it, or an error when the scan does not list it.
   */
  method RunAndReopen(ops: seq<HeapOp>, capacity: nat, again: nat, readOnly: bool, rid: Rid)
    returns (pages: seq<PageId>, records: seq<HeapRecord>, issued: seq<Rid>, got: Result<seq<byte>, HeapError>)
    requires capacity >= 1 && again >= 1
    ensures StateInv(FreshState)
    ensures var h := RunHeap(FreshState, ops).heap;
      && HeapShape(h) && pages == h.pages && records == Scan(h)
      && Lists(records, HeapModel.Rows(h)) && DistinctRids(records) && InScanOrder(h, records)
    ensures issued == IssuedInRun(FreshState, ops) && PageModel.Distinct(issued)
    ensures forall e | e in records && e.rid == rid :: got == Ok(e.bytes)
    ensures (forall e | e in records :: e.rid != rid) ==>
      got == Err(if rid.page in pages then PageFailure(InvalidRid(rid)) else RidOutsideHeap(rid))
  {
    var disk; ghost var chain;
    disk, issued, chain := RunOnNewDatabase(capacity, ops);
    AddressesAreNeverReused(FreshState, ops);
    hide DiskOk, FileOpens, ChainOk, StateInv, RunHeap, IssuedInRun;
    WrittenFileOpens(disk);
    OneReading(disk);
    pages, records, got := ReadBack(disk.file, readOnly, again, rid, disk.pages, chain);
    ScanIsExact(HeapOf(disk.pages, chain));
    if rid in HeapModel.Rows(HeapOf(disk.pages, chain)) {
      UnlistedIsAbsent(records, HeapModel.Rows(HeapOf(disk.pages, chain)), rid);
    }
  }

  lemma UnlistedIsAbsent(records: seq<HeapRecord>, rows: map<Rid, seq<byte>>, rid: Rid)
    requires Lists(records, rows) && rid in rows
    ensures exists e :: e in records && e.rid == rid
  {
    assert HeapRecord(rid, rows[rid]) in records;
  }

  // ----- The catalog -----

  ghost predicate AllNew(view: PageMap, tables: TableMap) {
    forall name | name in tables :: NewHeap(view, tables[name].heapFirstPage)
  }

  /** The heaps of tables are not the catalog's, so they stay as they were. */
  lemma {:induction false} NewHeapsStay(view: PageMap, after: PageMap, root: Option<PageId>, pages: seq<PageId>, tables: TableMap, next: u32)
    requires CatalogOk(view, root, pages, tables, next) && OthersKept(view, after, pages) && AllNew(view, tables)
    ensures AllNew(after, tables)
  {
    hide ChainOk, OthersKept, Registers, IdsOk, Opens, ChainFrom, NewHeap, MetadataValid;
    forall name | name in tables ensures NewHeap(after, tables[name].heapFirstPage) {
      var first := tables[name].heapFirstPage;
      NewHeapChain(view, first);
      assert Disjoint(pages, ChainFrom(view, first)) && first in [first];
      NewHeapSurvives(view, after, pages, first);
    }
  }

  lemma NewHeapChain(view: PageMap, id: PageId)
    requires NewHeap(view, id)
    ensures Opens(view, id) && ChainFrom(view, id) == [id]
  {
    EngineChainFrom(view, [id]);
    hide Opens, ChainFrom, ChainOk;
  }

  lemma NewCatalogIsFresh(view: PageMap)
    requires NewHeap(view, 1)
    ensures InView(view, [1]) && CatalogAt(view, [1], 2, map[], FIRST_TABLE_ID) == CatalogHistory.FreshCatalog
  {
    hide WellFormed, Abs, HeapInv;
  }

  /** Creates tables one after another in a new database, passing over those that are refused, and closes it. */
  method CreateTables(capacity: nat, schemas: seq<TableSchema>)
    returns (disk: DiskManager, made: TableMap, next: u32, ghost pages: seq<PageId>)
    requires capacity >= 1 && forall i | 0 <= i < |schemas| :: SchemaValid(schemas[i])
    ensures fresh(disk) && disk.Valid() && CatalogOk(disk.pages, disk.header.catalogRoot, pages, made, next)
    ensures CatalogHistory.CatalogStateInv(CatalogHistory.FreshCatalog)
    ensures CatalogAt(disk.pages, pages, disk.header.nextPageId, made, next) == CatalogHistory.CreateAll(CatalogHistory.FreshCatalog, schemas)
    ensures AllNew(disk.pages, made)
  {
    hide Owned, BufferPool.CacheOk, BufferPool.CacheOkBut, BufferPool.ClockOk, BufferPool.PinsOk, DiskOk, SchemaValid,
      ChainOk, CatalogOk, CreateOutcome, OthersKept, Calm, Busy, HasRoom, StateInv, NewHeap, AllNew, HeapOf;
    hide CatalogHistory.CatalogStateInv, CatalogHistory.CreateStep;
    CatalogHistory.FreshCatalogInv();
    var created := new DiskManager.Create();
    var pool := new BufferPool(created, capacity);
    OneFrameIsEnough(capacity);
    CalmHasRoom(multiset{}, capacity);
    var c := Catalog.Create(pool);
    var catalog := c.value;
    NewCatalogIsFresh(pool.view);
    NoneMade(pool.view);
    assert schemas[0..] == schemas;
    for i := 0 to |schemas|
      invariant catalog.Valid(pool) && pool.pins == multiset{} && fresh(pool.repr) && fresh(catalog) && fresh(catalog.heap)
      invariant CatalogHistory.CreateAll(catalog.StateIn(pool), schemas[i..]) == CatalogHistory.CreateAll(CatalogHistory.FreshCatalog, schemas)
      invariant AllNew(pool.view, catalog.tables) && pool.capacity == capacity && !pool.disk.readOnly
    {
      assert schemas[i..][0] == schemas[i] && schemas[i..][1..] == schemas[i + 1..];
      ghost var view, root, kept, tables, nextId := pool.view, pool.disk.header.catalogRoot, catalog.heap.pages, catalog.tables, catalog.nextTableId;
      var table := catalog.CreateTable(pool, schemas[i]);
      NewHeapsStay(view, pool.view, root, kept, tables, nextId);
      OneMoreNew(pool.view, tables, catalog.tables, table);
    }
    made, next, pages := catalog.tables, catalog.nextTableId, catalog.heap.pages;
    assert schemas[|schemas|..] == [];
    pool.OwnedSets();
    disk := pool.Close();
  }

  lemma NoneMade(view: PageMap)
    ensures AllNew(view, map[])
  {
  }

  lemma OneMoreNew(view: PageMap, tables: TableMap, after: TableMap, table: Result<TableMetadata, CatalogError>)
    requires AllNew(view, tables)
    requires if table.Ok? then
        && NewHeap(view, table.value.heapFirstPage) && after == tables[table.value.schema.name := table.value]
      else after == tables
    ensures AllNew(view, after)
  {
    hide NewHeap;
  }

  /** Opens a database file with a pool of its own, and its catalog, which agrees with it. */
  method Reopen(file: seq<byte>, readOnly: bool, capacity: nat, ghost header: DatabaseHeader, ghost view: PageMap,
      ghost pages: seq<PageId>, ghost made: TableMap, ghost madeNext: u32)
    returns (pool: BufferPool, catalog: Catalog)
    requires capacity >= 1 && FileOpens(file) && CatalogOk(view, header.catalogRoot, pages, made, madeNext)
    requires forall h, stored :: DiskOk(file, h, stored) ==> h == header && stored == view
    ensures fresh(pool) && fresh(pool.repr) && fresh(catalog) && fresh(catalog.heap)
    ensures catalog.Valid(pool) && pool.pins == multiset{} && pool.view == view && pool.disk.header == header
    ensures catalog.heap.pages == pages && catalog.tables == made && catalog.nextTableId == madeNext
  {
    hide Owned, BufferPool.CacheOk, BufferPool.CacheOkBut, BufferPool.ClockOk, BufferPool.PinsOk, DiskOk, FileOpens,
      CatalogOk, OpensAs, Opens, ChainFrom, ReadableChain, ChainOk, Walk, Calm, Busy;
    var disk := DiskManager.Open(file, readOnly);
    assert disk.value.header == header && disk.value.pages == view;
    pool := new BufferPool(disk.value, capacity);
    OneFrameIsEnough(capacity);
    CatalogReopens(view, header.catalogRoot, pages, made, madeNext);
    CatalogHasChain(view, header.catalogRoot, pages, made, madeNext);
    var found := Catalog.Open(pool);
    catalog := found.value;
    OpensOneWay(view, header.catalogRoot, made, madeNext, catalog.tables, catalog.nextTableId);
  }

  lemma CatalogHasChain(view: PageMap, root: Option<PageId>, pages: seq<PageId>, tables: TableMap, next: u32)
    requires CatalogOk(view, root, pages, tables, next)
    ensures ChainOk(view, pages)
  {
    hide ChainOk, Registers, IdsOk, TablesOk;
  }

  /**
   * Any tables created in a new database, which is then closed and opened again: the catalog read back
   * has exactly the tables and the next id that the run of creations leads to. The closed file agrees with
   * them, its next page and the catalog's heap are those of the run, ids have no gaps, and every table's heap is empty.
   */
  method CreateTablesAndReopen(schemas: seq<TableSchema>, capacity: nat, again: nat, readOnly: bool)
    returns (file: seq<byte>, tables: TableMap, next: u32,
             ghost header: DatabaseHeader, ghost view: PageMap, ghost pages: seq<PageId>)
    requires capacity >= 1 && again >= 1 && forall i | 0 <= i < |schemas| :: SchemaValid(schemas[i])
    ensures DiskOk(file, header, view) && CatalogOk(view, header.catalogRoot, pages, tables, next)
    ensures CatalogHistory.CatalogStateInv(CatalogHistory.FreshCatalog)
    ensures var end := CatalogHistory.CreateAll(CatalogHistory.FreshCatalog, schemas);
      && tables == end.tables && next == end.nextId
      && HeapOf(view, pages) == end.heap.heap && header.nextPageId == end.heap.nextPage
    ensures AllNew(view, tables) && |tables| == next - 1
    ensures forall name | name in tables :: tables[name].schema in schemas && tables[name].schema.name == name
  {
    var disk; ghost var made, madeNext;
    disk, made, madeNext, pages := CreateTables(capacity, schemas);
    CatalogHistory.IdsWithoutGaps(CatalogHistory.FreshCatalog, schemas);
    hide DiskOk, FileOpens, CatalogOk, SchemaValid, AllNew, HeapOf, CatalogHistory.CreateAll, CatalogHistory.CatalogStateInv;
    WrittenFileOpens(disk);
    OneReading(disk);
    file, header, view := disk.file, disk.header, disk.pages;
    var pool, catalog := Reopen(file, readOnly, again, header, view, pages, made, madeNext);
    tables, next := catalog.tables, catalog.nextTableId;
  }

  /**
   * A file whose header names a catalog root that is not allocated opens, and only opening its catalog
   * fails, because the page is not there.
   */
  method OpenWithUnallocatedRoot(root: PageId, readOnly: bool, capacity: nat) returns (r: Result<Catalog, CatalogError>)
    requires root != NO_CATALOG_ROOT && capacity >= 1
    ensures r == Err(HeapFailure(BufferFailure(MissError(root, true))))
  {
    hide Owned, BufferPool.CacheOk, BufferPool.CacheOkBut, BufferPool.ClockOk, BufferPool.PinsOk, FileOpens, OpensAs, Opens, Walk, Calm,
      EncodeHeader, DecodeHeader, PageInFile, WritePageAt, Busy;
    OpeningIgnoresTheRoot(root);
    var file := WritePageAt([], 0, EncodeHeader(DatabaseHeader(FIRST_DATA_PAGE_ID, Some(root))));
    var disk := DiskManager.Open(file, readOnly);
    assert root !in disk.value.pages;
    var pool := new BufferPool(disk.value, capacity);
    OneFrameIsEnough(capacity);
    r := Catalog.Open(pool);
  }
}
