/**
 * The whole engine at once: values stored in a table of a new database are, after the database is closed
 * and opened again with another pool, exactly the values read from that table.
 */
module FullStack {
  import opened Wrappers
  import opened Bytes
  import opened Utf8Text
  import opened Pages
  import opened PageModel
  import opened PageLayout
  import opened Disk
  import opened BufferPools
  import opened HeapModel
  import opened HeapFiles
  import opened Columns
  import opened Rows
  import opened Schemas
  import opened CatalogRecords
  import opened CatalogModel
  import opened Catalogs
  import opened EndToEnd
  import HeapHistory
  import CatalogHistory

  type StoredRows = map<Rid, seq<Value>>

  /** Each row of the heap means the values kept for its address. */
  ghost predicate StoredAs(columns: seq<ColumnSchema>, rows: map<Rid, seq<byte>>, stored: StoredRows) {
    rows.Keys == stored.Keys && forall rid | rid in rows :: Represents(columns, stored[rid], rows[rid])
  }

  /** The heap handle stands for table `name` of the catalog, and holds these rows. */
  ghost predicate TableHolds(pool: BufferPool, catalog: Catalog, heap: HeapFile, name: Text, stored: StoredRows)
    reads catalog, catalog.heap, heap, pool, pool.repr
  {
    && catalog.Valid(pool) && heap.Valid(pool) && heap != catalog.heap && name in catalog.tables
    && Opens(pool.view, catalog.tables[name].heapFirstPage)
    && heap.pages == ChainFrom(pool.view, catalog.tables[name].heapFirstPage)
    && StoredAs(catalog.tables[name].schema.columns, HeapModel.Rows(HeapOf(pool.view, heap.pages)), stored)
  }

  lemma {:induction false} InsertedRow(h: Heap, k: Heap, record: seq<byte>, next: PageId)
    requires HeapInv(h) && InsertOutcome(h, record, next, false).Ok? && next !in h.pages
    requires k == HeapModel.Inserted(h, record, next)
    ensures HeapInv(k)
    ensures var rid := InsertOutcome(h, record, next, false).value;
      rid !in HeapModel.Rows(h) && HeapModel.Rows(k) == HeapModel.Rows(h)[rid := record]
    ensures k.pages == h.pages || k.pages == h.pages + [next]
  {
    FirstFit(h.states, record, 0);
    InsertAddsRow(h, record, next);
    hide HeapInv, HeapModel.Rows, InsertResult, PageModel.Insert, Admits, Jammed;
  }

  lemma StoredOneMore(columns: seq<ColumnSchema>, rows: map<Rid, seq<byte>>, stored: StoredRows, rid: Rid, values: seq<Value>, record: seq<byte>)
    requires StoredAs(columns, rows, stored) && rid !in rows && Represents(columns, values, record)
    ensures rid !in stored && StoredAs(columns, rows[rid := record], stored[rid := values])
  {
    hide Represents;
  }

  /** The catalog's heap and the heaps of all tables but `name` hold what they held. */
  ghost predicate OtherHeapsSame(view: PageMap, after: PageMap, pages: seq<PageId>, tables: TableMap, name: Text) {
    && InView(view, pages) && InView(after, pages) && HeapOf(after, pages) == HeapOf(view, pages)
    && forall other | other in tables && other != name :: SameHeap(view, after, tables[other].heapFirstPage)
  }

  lemma {:induction false} AllHeapsSame(view: PageMap, root: Option<PageId>, pages: seq<PageId>, tables: TableMap, next: u32, name: Text)
    requires CatalogOk(view, root, pages, tables, next)
    ensures OtherHeapsSame(view, view, pages, tables, name)
  {
    EveryoneKept(view, pages);
    TableHeapsKept(view, view, root, pages, tables, next);
    CatalogHasChain(view, root, pages, tables, next);
    hide CatalogOk, SameHeap, HeapOf, HeapInv, WellFormed;
  }

  /** The catalog and the table handle after the table's heap took a record. */
  lemma {:induction false} RowStored(view: PageMap, after: PageMap, root: Option<PageId>, catalogPages: seq<PageId>, tables: TableMap, nextId: u32,
      name: Text, pages: seq<PageId>, grown: seq<PageId>, next: PageId)
    requires CatalogOk(view, root, catalogPages, tables, nextId) && name in tables
    requires Opens(view, tables[name].heapFirstPage) && pages == ChainFrom(view, tables[name].heapFirstPage)
    requires OthersKept(view, after, pages) && ChainOk(after, grown) && next !in view
    requires grown == pages || grown == pages + [next]
    ensures CatalogOk(after, root, catalogPages, tables, nextId) && ChainOk(after, catalogPages)
    ensures Opens(after, tables[name].heapFirstPage) && grown == ChainFrom(after, tables[name].heapFirstPage)
    ensures OtherHeapsSame(view, after, catalogPages, tables, name)
  {
    hide CatalogOk, ChainOk, OthersKept, Opens, ChainFrom, ReadableChain, Walk, SameHeap, HeapOf, InView;
    FirstOfChain(view, tables[name].heapFirstPage);
    TableHeapChanged(view, after, root, catalogPages, tables, nextId, name, grown);
    CatalogHasChain(view, root, catalogPages, tables, nextId);
    CatalogHasChain(after, root, catalogPages, tables, nextId);
    SameFromParts(view, after, catalogPages, tables, name);
  }

  lemma SameFromParts(view: PageMap, after: PageMap, pages: seq<PageId>, tables: TableMap, name: Text)
    requires ChainOk(view, pages) && ChainOk(after, pages) && HeapOf(after, pages) == HeapOf(view, pages)
    requires forall other | other in tables && other != name :: SameHeap(view, after, tables[other].heapFirstPage)
    ensures OtherHeapsSame(view, after, pages, tables, name)
  {
    hide SameHeap, HeapInv, WellFormed, HeapOf;
  }

  // ----- Which rows a table takes -----

  /** The table's heap with the next page id, and the values kept for each address. */
  datatype TableState = TableState(rows: HeapHistory.HeapState, stored: StoredRows)

  /** A list of values is taken when it is encodable and the heap accepts its row, at the address the heap hands out. */
  ghost predicate Takes(columns: seq<ColumnSchema>, s: TableState, values: seq<Value>) {
    Encodable(columns, values) && HeapHistory.Accepts(s.rows, EncodedRow(columns, values))
  }

  ghost function StoreStep(columns: seq<ColumnSchema>, s: TableState, values: seq<Value>): (t: TableState)
    requires HeapHistory.StateInv(s.rows)
  {
    if !Takes(columns, s, values) then s
    else
      var insert := HeapHistory.InsertRecord(EncodedRow(columns, values));
      IssuesOne(s.rows, insert);
      TableState(HeapHistory.StepHeap(s.rows, insert), s.stored[HeapHistory.IssuedInStep(s.rows, insert)[0] := values])
  }

  lemma IssuesOne(s: HeapHistory.HeapState, op: HeapHistory.HeapOp)
    requires HeapHistory.StateInv(s)
    ensures 1 <= |s.heap.pages| == |s.heap.states|
    ensures op.InsertRecord? && HeapHistory.Accepts(s, op.record) ==> |HeapHistory.IssuedInStep(s, op)| == 1
  {
  }

  lemma {:induction false} StoreKeepsInv(columns: seq<ColumnSchema>, s: TableState, values: seq<Value>)
    requires HeapHistory.StateInv(s.rows)
    ensures HeapHistory.StateInv(StoreStep(columns, s, values).rows)
  {
    hide HeapHistory.StateInv, HeapHistory.StepHeap, HeapHistory.IssuedInStep, HeapHistory.Accepts, Encodable, EncodedRow;
    if Takes(columns, s, values) {
      HeapHistory.StepKeeps(s.rows, HeapHistory.InsertRecord(EncodedRow(columns, values)));
    }
  }

  /** Lists of values one after another, passing over those that are not taken. */
  ghost function StoreAll(columns: seq<ColumnSchema>, s: TableState, lists: seq<seq<Value>>): (t: TableState)
    requires HeapHistory.StateInv(s.rows)
    ensures HeapHistory.StateInv(t.rows)
    decreases |lists|
  {
    if lists == [] then s
    else
      StoreKeepsInv(columns, s, lists[0]);
      StoreAll(columns, StoreStep(columns, s, lists[0]), lists[1..])
  }

  /** The values are kept at exactly the addresses of the heap's rows. */
  ghost predicate KeptAtRows(s: TableState)
    requires HeapHistory.StateInv(s.rows)
  {
    InvHasShape(s.rows.heap);
    s.stored.Keys == HeapModel.Rows(s.rows.heap).Keys
  }

  /** `more` has everything in `stored`, at the same addresses. */
  ghost predicate Extends(more: StoredRows, stored: StoredRows) {
    forall rid | rid in stored :: rid in more && more[rid] == stored[rid]
  }

  /** A taken list gets an address of its own, and a list that is not taken changes nothing. */
  lemma {:induction false} StoredAtNewAddress(columns: seq<ColumnSchema>, s: TableState, values: seq<Value>)
    requires HeapHistory.StateInv(s.rows) && KeptAtRows(s)
    ensures var t := StoreStep(columns, s, values);
      && HeapHistory.StateInv(t.rows) && KeptAtRows(t)
      && Extends(t.stored, s.stored)
      && |t.stored| == |s.stored| + if Takes(columns, s, values) then 1 else 0
  {
    hide HeapHistory.StateInv, HeapHistory.StepHeap, HeapHistory.IssuedInStep, HeapHistory.Accepts, Encodable, EncodedRow, HeapModel.Rows, HeapInv, HeapShape;
    StoreKeepsInv(columns, s, values);
    if Takes(columns, s, values) {
      var insert := HeapHistory.InsertRecord(EncodedRow(columns, values));
      IssuesOne(s.rows, insert);
      InsertedKeys(s.rows, insert);
      var rid := HeapHistory.IssuedInStep(s.rows, insert)[0];
      assert StoreStep(columns, s, values) == TableState(HeapHistory.StepHeap(s.rows, insert), s.stored[rid := values]);
      assert rid !in s.stored;
      hide *;
      OneMoreKept(s.stored, rid, values);
    }
  }

  lemma InsertedKeys(s: HeapHistory.HeapState, op: HeapHistory.HeapOp)
    requires HeapHistory.StateInv(s) && op.InsertRecord? && HeapHistory.Accepts(s, op.record)
    ensures HeapHistory.StateInv(HeapHistory.StepHeap(s, op)) && |HeapHistory.IssuedInStep(s, op)| == 1
    ensures HeapShape(s.heap) && HeapShape(HeapHistory.StepHeap(s, op).heap)
    ensures var rid := HeapHistory.IssuedInStep(s, op)[0];
      && rid !in HeapModel.Rows(s.heap).Keys
      && HeapModel.Rows(HeapHistory.StepHeap(s, op).heap).Keys == HeapModel.Rows(s.heap).Keys + {rid}
  {
    IssuesOne(s, op);
    HeapHistory.InsertRows(s, op.record);
    InvHasShape(s.heap);
    InvHasShape(HeapHistory.StepHeap(s, op).heap);
    hide HeapHistory.StepHeap, HeapHistory.IssuedInStep, HeapHistory.Accepts, HeapModel.Rows, HeapInv, HeapShape;
  }

  lemma OneMoreKept(stored: StoredRows, rid: Rid, values: seq<Value>)
    requires rid !in stored
    ensures var more := stored[rid := values];
      && more.Keys == stored.Keys + {rid} && |more| == |stored| + 1
      && Extends(more, stored)
  {
  }

  lemma ExtendsThrough(a: StoredRows, b: StoredRows, c: StoredRows)
    requires Extends(a, b) && Extends(b, c)
    ensures Extends(a, c)
  {
  }

  /** How many of the lists are taken. */
  ghost function CountTaken(columns: seq<ColumnSchema>, s: TableState, lists: seq<seq<Value>>): nat
    requires HeapHistory.StateInv(s.rows)
    decreases |lists|
  {
    if lists == [] then 0
    else
      StoreKeepsInv(columns, s, lists[0]);
      (if Takes(columns, s, lists[0]) then 1 else 0) + CountTaken(columns, StoreStep(columns, s, lists[0]), lists[1..])
  }

  /** Over a run nothing stored is overwritten or dropped: every list taken adds one row, and the earlier ones stay. */
  lemma {:induction false} NothingOverwritten(columns: seq<ColumnSchema>, s: TableState, lists: seq<seq<Value>>)
    requires HeapHistory.StateInv(s.rows) && KeptAtRows(s)
    ensures var t := StoreAll(columns, s, lists);
      && KeptAtRows(t) && Extends(t.stored, s.stored)
      && |t.stored| == |s.stored| + CountTaken(columns, s, lists)
    decreases |lists|
  {
    if lists != [] {
      StoredAtNewAddress(columns, s, lists[0]);
      var mid := StoreStep(columns, s, lists[0]);
      hide HeapHistory.StateInv, KeptAtRows, StoreStep, Takes, Extends;
      NothingOverwritten(columns, mid, lists[1..]);
      ExtendsThrough(StoreAll(columns, mid, lists[1..]).stored, mid.stored, s.stored);
    }
  }

  /** The step of the specification, in the terms of the insertion's outcome. */
  lemma {:induction false} StoreStepIs(columns: seq<ColumnSchema>, h: Heap, next: PageId, stored: StoredRows, values: seq<Value>)
    requires HeapHistory.StateInv(HeapHistory.HeapState(h, next))
    ensures var s := TableState(HeapHistory.HeapState(h, next), stored);
      Takes(columns, s, values) <==> Encodable(columns, values) && InsertOutcome(h, EncodedRow(columns, values), next, false).Ok?
    ensures var s := TableState(HeapHistory.HeapState(h, next), stored);
      StoreStep(columns, s, values) ==
        if !Encodable(columns, values) then s
        else
          var row := EncodedRow(columns, values);
          var outcome := InsertOutcome(h, row, next, false);
          if outcome.Err? then s
          else
            TableState(HeapHistory.HeapState(HeapModel.Inserted(h, row, next), next + if Place(h.states, row).NewPage? then 1 else 0),
                       stored[outcome.value := values])
  {
    IssuesOne(HeapHistory.HeapState(h, next), HeapHistory.AllocateElsewhere);
    hide HeapInv, HeapHistory.StateInv, HeapHistory.IssuedInStep, Encodable, EncodedRow, HeapModel.Inserted, Place, InsertOutcome;
    if Encodable(columns, values) {
      OutcomeIsStep(h, EncodedRow(columns, values), next);
      OutcomeIsIssued(h, EncodedRow(columns, values), next);
    }
  }

  /** What `stored` becomes when a list of values was taken at an address, or was not taken. */
  ghost function WithTaken(stored: StoredRows, taken: Option<Rid>, values: seq<Value>): StoredRows {
    if taken.Some? then stored[taken.value := values] else stored
  }

  /**
   * Stores one list of values in a table and returns its address, if it is taken. The heap and the stored
   * rows take exactly the step of the specification, and no other heap changes.
   */
  method StoreRow(pool: BufferPool, catalog: Catalog, heap: HeapFile, name: Text, values: seq<Value>, ghost stored: StoredRows)
    returns (taken: Option<Rid>)
    requires TableHolds(pool, catalog, heap, name, stored) && pool.pins == multiset{} && !pool.disk.readOnly
    requires SchemaValid(catalog.tables[name].schema)
    modifies heap, pool.repr
    ensures catalog.tables == old(catalog.tables) && catalog.nextTableId == old(catalog.nextTableId)
    ensures pool.pins == multiset{} && fresh(pool.repr - old(pool.repr))
    ensures TableHolds(pool, catalog, heap, name, WithTaken(stored, taken, values))
    ensures var columns, s := catalog.tables[name].schema.columns, TableState(old(StateIn(pool, heap)), stored);
      && (taken.Some? <==> Takes(columns, s, values))
      && TableState(StateIn(pool, heap), WithTaken(stored, taken, values)) == StoreStep(columns, s, values)
    ensures OthersKept(old(pool.view), pool.view, old(heap.pages))
    ensures OtherHeapsSame(old(pool.view), pool.view, catalog.heap.pages, catalog.tables, name)
  {
    hide Owned, BufferPool.CacheOk, BufferPool.CacheOkBut, BufferPool.ClockOk, BufferPool.PinsOk, HasRoom, DiskOk, CatalogOk,
      InView, HeapInv, HeapShape, HeapOf, Walk, Calm, OthersKept, SchemaValid, Represents, Encodable, InsertOutcome,
      HeapModel.Inserted, HeapModel.Rows, StoredAs, Opens, ChainFrom, StoreStep, Takes, EncodedRow, HeapHistory.StateInv,
      OtherHeapsSame, PaddingClear;
    ghost var columns, s := catalog.tables[name].schema.columns, StateIn(pool, heap);
    StoreStepIs(columns, HeapOf(pool.view, heap.pages), pool.disk.header.nextPageId, stored, values);
    EveryoneKept(pool.view, heap.pages);
    AllHeapsSame(pool.view, pool.disk.header.catalogRoot, catalog.heap.pages, catalog.tables, catalog.nextTableId, name);
    var row := EncodeRow(catalog.tables[name].schema, values);
    if row.Err? {
      return None;
    }
    EncodedRowIsUnique(columns, values, row.value);
    ghost var view, h, next := pool.view, HeapOf(pool.view, heap.pages), pool.disk.header.nextPageId;
    CapacityIsPositive(pool);
    OneFrameIsEnough(pool.capacity);
    pool.AllocatedIds();
    NextNotInChain(pool.view, heap.pages, next);
    var rid := heap.Insert(pool, row.value);
    if rid.Err? {
      return None;
    }
    InsertedRow(h, HeapOf(pool.view, heap.pages), row.value, next);
    RowStored(view, pool.view, pool.disk.header.catalogRoot, catalog.heap.pages, catalog.tables, catalog.nextTableId,
      name, h.pages, heap.pages, next);
    StoredOneMore(columns, HeapModel.Rows(h), stored, rid.value, values, row.value);
    return Some(rid.value);
  }

  /** Removing a row from the stored ones. */
  ghost function RemoveStep(s: TableState, rid: Rid): TableState
    requires HeapHistory.StateInv(s.rows)
  {
    IssuesOne(s.rows, HeapHistory.DeleteRow(rid));
    TableState(HeapHistory.StepHeap(s.rows, HeapHistory.DeleteRow(rid)), s.stored - {rid})
  }

  lemma StoredOneLess(columns: seq<ColumnSchema>, rows: map<Rid, seq<byte>>, less: map<Rid, seq<byte>>, stored: StoredRows, rid: Rid)
    requires StoredAs(columns, rows, stored) && less == rows - {rid}
    ensures StoredAs(columns, less, stored - {rid}) && (rid in rows <==> rid in stored)
  {
    hide Represents;
  }

  lemma {:induction false} RemoveStepIs(h: Heap, next: PageId, stored: StoredRows, rid: Rid)
    requires HeapHistory.StateInv(HeapHistory.HeapState(h, next))
    ensures HeapInv(h) && HeapShape(h)
    ensures rid in HeapModel.Rows(h) ==> rid.page in h.pages
    ensures var k := if rid in HeapModel.Rows(h) then HeapModel.Deleted(h, rid) else h;
      && HeapShape(k) && HeapModel.Rows(k) == HeapModel.Rows(h) - {rid}
      && RemoveStep(TableState(HeapHistory.HeapState(h, next), stored), rid) == TableState(HeapHistory.HeapState(k, next), stored - {rid})
  {
    InvHasShape(h);
    HeapHistory.DeleteRows(HeapHistory.HeapState(h, next), rid);
    assert rid in HeapModel.Rows(h) <==> Holds(h, rid);
    assert Holds(h, rid) ==> rid.page in h.pages;
    hide HeapInv, HeapShape, HeapModel.Rows, Holds, HeapModel.Deleted;
  }

  /** Removes one row of a table; exactly the addressed row goes, and no other heap changes. */
  method RemoveRow(pool: BufferPool, catalog: Catalog, heap: HeapFile, name: Text, rid: Rid, ghost stored: StoredRows)
    returns (removed: bool)
    requires TableHolds(pool, catalog, heap, name, stored) && pool.pins == multiset{} && !pool.disk.readOnly
    modifies pool.repr
    ensures catalog.tables == old(catalog.tables) && catalog.nextTableId == old(catalog.nextTableId)
    ensures pool.pins == multiset{} && fresh(pool.repr - old(pool.repr))
    ensures TableHolds(pool, catalog, heap, name, stored - {rid}) && (removed <==> rid in stored)
    ensures TableState(StateIn(pool, heap), stored - {rid}) == RemoveStep(TableState(old(StateIn(pool, heap)), stored), rid)
    ensures OthersKept(old(pool.view), pool.view, old(heap.pages))
    ensures OtherHeapsSame(old(pool.view), pool.view, catalog.heap.pages, catalog.tables, name)
  {
    hide Owned, BufferPool.CacheOk, BufferPool.CacheOkBut, BufferPool.ClockOk, BufferPool.PinsOk, HasRoom, DiskOk, CatalogOk,
      InView, HeapInv, HeapShape, HeapOf, Walk, Calm, OthersKept, SchemaValid, Represents, Holds, HeapModel.Deleted,
      HeapModel.Rows, StoredAs, Opens, ChainFrom, HeapHistory.StateInv, OtherHeapsSame, RemoveStep;
    ghost var s, view, h := StateIn(pool, heap), pool.view, HeapOf(pool.view, heap.pages);
    ghost var rows := HeapModel.Rows(h);
    RemoveStepIs(h, pool.disk.header.nextPageId, stored, rid);
    EveryoneKept(pool.view, heap.pages);
    AllHeapsSame(pool.view, pool.disk.header.catalogRoot, catalog.heap.pages, catalog.tables, catalog.nextTableId, name);
    CapacityIsPositive(pool);
    OneFrameIsEnough(pool.capacity);
    pool.AllocatedIds();
    var r := heap.Delete(pool, rid);
    RowStored(view, pool.view, pool.disk.header.catalogRoot, catalog.heap.pages, catalog.tables, catalog.nextTableId,
      name, h.pages, heap.pages, pool.disk.header.nextPageId);
    StoredOneLess(catalog.tables[name].schema.columns, rows, HeapModel.Rows(HeapOf(pool.view, heap.pages)), stored, rid);
    return r.Ok?;
  }

  lemma NextNotInChain(view: PageMap, pages: seq<PageId>, next: PageId)
    requires ChainOk(view, pages) && next !in view
    ensures next !in pages
  {
    NewPageIsElsewhere(view, next, pages);
  }

  lemma {:induction false} NothingStored(view: PageMap, id: PageId, columns: seq<ColumnSchema>)
    requires NewHeap(view, id)
    ensures HeapShape(HeapOf(view, [id])) && StoredAs(columns, HeapModel.Rows(HeapOf(view, [id])), map[])
    ensures Opens(view, id) && ChainFrom(view, id) == [id]
  {
    EngineChainFrom(view, [id]);
    InvHasShape(HeapOf(view, [id]));
    hide WellFormed, Abs, InView, HeapInv, Walk, Opens, ChainFrom, Represents;
    assert IndexOf([id], id) == 0;
    assert forall rid :: !Holds(Heap([id], [EmptyPage]), rid);
  }

  lemma NewHeapIs(view: PageMap, pages: seq<PageId>)
    requires |pages| == 1 && NewHeap(view, pages[0])
    ensures InView(view, pages) && HeapOf(view, pages) == Heap([pages[0]], [EmptyPage])
  {
    hide HeapOf, WellFormed, HeapInv;
    assert pages == [pages[0]];
  }

  /** What a closed database holds: its catalog has the table, whose heap has these rows. */
  ghost predicate DatabaseHolds(view: PageMap, root: Option<PageId>, pages: seq<PageId>, tables: TableMap, next: u32, schema: TableSchema, stored: StoredRows) {
    && CatalogOk(view, root, pages, tables, next)
    && schema.name in tables && tables[schema.name].schema == schema && Opens(view, tables[schema.name].heapFirstPage)
    && StoredAs(schema.columns, HeapModel.Rows(HeapOf(view, ChainFrom(view, tables[schema.name].heapFirstPage))), stored)
  }

  /** The first table of a new database is refused only when its record is too large. */
  lemma {:induction false} FirstTableFits(root: PageId, next: PageId, schema: TableSchema)
    requires SchemaValid(schema) && FIRST_DATA_PAGE_ID <= next < U32_MAX - 1 && root < U32_MAX
    ensures HeapInv(Heap([root], [EmptyPage]))
    ensures CreateOutcome(Heap([root], [EmptyPage]), map[], FIRST_TABLE_ID, next, false, schema).Ok? <==>
      TABLE_RECORD_HEADER_SIZE + |DeclarationBytes(schema)| <= MAX_RECORD_SIZE
  {
    var h := Heap([root], [EmptyPage]);
    OnePageHeap(root);
    DeclarationSize(schema);
    hide HeapInv, PageInv, FirstFree, Place;
    if TABLE_RECORD_HEADER_SIZE + |DeclarationBytes(schema)| <= MAX_RECORD_SIZE {
      var record := RecordBytes(TableMetadata(FIRST_TABLE_ID, schema, next));
      hide SchemaValid, DeclarationBytes, InsertOutcome, HeaderBytes;
      FirstRecordAccepted(h, record, next + 1);
    }
  }

  lemma OnePageHeap(root: PageId)
    requires root < U32_MAX
    ensures HeapInv(Heap([root], [EmptyPage]))
  {
  }

  lemma {:induction false} FirstRecordAccepted(h: Heap, record: seq<byte>, next: PageId)
    requires HeapInv(h) && h.states == [EmptyPage] && |record| <= MAX_RECORD_SIZE
    ensures InsertOutcome(h, record, next, false).Ok?
  {
    FirstRecord(record);
    FirstFit(h.states, record, 0);
  }

  /** The first table of a new database: its heap is page 2, still empty, and page 3 is next. */
  ghost const FirstTable := TableState(HeapHistory.HeapState(Heap([2], [EmptyPage]), 3), map[])

  lemma {:induction false} FirstTableInv()
    ensures HeapHistory.StateInv(FirstTable.rows) && KeptAtRows(FirstTable)
  {
    OnePageHeap(2);
    InvHasShape(FirstTable.rows.heap);
    assert IndexOf([2], 2) == 0;
    assert forall rid :: !Holds(FirstTable.rows.heap, rid);
    hide HeapInv, HeapShape, HeapModel.Rows, Holds;
  }

  lemma NoneStored()
    ensures FirstTable == TableState(FirstTable.rows, map[])
  {
  }

  /** The catalog's record goes into the catalog's own page. */
  lemma {:induction false} FirstTableNext(schema: TableSchema)
    requires SchemaValid(schema) && CatalogHistory.RecordSize(schema) <= MAX_RECORD_SIZE
    ensures CatalogHistory.CatalogStateInv(CatalogHistory.FreshCatalog)
    ensures CatalogHistory.CreateStep(CatalogHistory.FreshCatalog, schema).heap.nextPage == 3
  {
    CatalogHistory.FreshCatalogInv();
    var m := CatalogHistory.NextTable(CatalogHistory.FreshCatalog, schema);
    CatalogHistory.RecordLength(m);
    FirstRecord(RecordBytes(m));
    FirstFit([EmptyPage], RecordBytes(m), 0);
    hide SchemaValid, RecordBytes, CatalogHistory.RecordSize, HeapInv, PageModel.Insert, InsertResult;
    assert Place([EmptyPage], RecordBytes(m)).At?;
    hide Place;
  }

  lemma NewTableState(view: PageMap, pages: seq<PageId>, next: PageId)
    requires NewHeap(view, 2) && pages == [2] && next == 3
    ensures InView(view, pages) && HeapHistory.HeapState(HeapOf(view, pages), next) == FirstTable.rows
  {
    hide WellFormed, Abs, HeapInv;
  }

  /** Makes the first table of a new database and opens its heap. */
  method MakeFirstTable(pool: BufferPool, schema: TableSchema) returns (r: Result<(Catalog, HeapFile), CatalogError>)
    requires pool.Valid() && pool.pins == multiset{} && !pool.disk.readOnly && SchemaValid(schema)
    requires pool.disk.header == DatabaseHeader(1, None)
    modifies pool.repr
    ensures r.Ok? <==> CatalogHistory.RecordSize(schema) <= MAX_RECORD_SIZE
    ensures r.Ok? ==> var (catalog, heap) := r.value;
      && fresh(catalog) && fresh(catalog.heap) && fresh(heap) && fresh(pool.repr - old(pool.repr)) && pool.pins == multiset{}
      && TableHolds(pool, catalog, heap, schema.name, map[]) && catalog.tables[schema.name].schema == schema
      && StateIn(pool, heap) == FirstTable.rows
  {
    hide Owned, BufferPool.CacheOk, BufferPool.CacheOkBut, BufferPool.ClockOk, BufferPool.PinsOk, DiskOk, SchemaValid,
      ChainOk, CatalogOk, CreateOutcome, OthersKept, Calm, Busy, HasRoom, Opens, ChainFrom, StoredAs, NewHeap, HeapOf, HeapShape;
    hide CatalogHistory.CatalogStateInv, CatalogHistory.CreateStep, CatalogHistory.StopsEarly, HeapHistory.StateInv, FirstTable;
    CapacityIsPositive(pool);
    OneFrameIsEnough(pool.capacity);
    CalmHasRoom(multiset{}, pool.capacity);
    var c := Catalog.Create(pool);
    var catalog := c.value;
    FirstTableFits(1, 2, schema);
    NewHeapIs(pool.view, catalog.heap.pages);
    NewCatalogIsFresh(pool.view);
    var table := catalog.CreateTable(pool, schema);
    if table.Err? {
      return Err(table.error);
    }
    NothingStored(pool.view, 2, schema.columns);
    FirstTableNext(schema);
    var found := catalog.OpenTableHeap(pool, schema.name);
    NewTableState(pool.view, found.value.pages, pool.disk.header.nextPageId);
    return Ok((catalog, found.value));
  }

  /** Makes a table in a new database, stores the lists of values that it takes, and closes the database. */
  method StoreInNewDatabase(capacity: nat, schema: TableSchema, rows: seq<seq<Value>>)
    returns (r: Result<(DiskManager, StoredRows), CatalogError>, ghost pages: seq<PageId>, ghost tables: TableMap, ghost next: u32)
    requires capacity >= 1 && SchemaValid(schema)
    ensures r.Ok? <==> CatalogHistory.RecordSize(schema) <= MAX_RECORD_SIZE
    ensures r.Ok? ==> fresh(r.value.0) && r.value.0.Valid()
    ensures r.Ok? ==> DatabaseHolds(r.value.0.pages, r.value.0.header.catalogRoot, pages, tables, next, schema, r.value.1)
    ensures HeapHistory.StateInv(FirstTable.rows)
    ensures r.Ok? ==> r.value.1 == StoreAll(schema.columns, FirstTable, rows).stored
  {
    hide Owned, BufferPool.CacheOk, BufferPool.CacheOkBut, BufferPool.ClockOk, BufferPool.PinsOk, DiskOk, SchemaValid,
      ChainOk, CatalogOk, HasRoom, Opens, ChainFrom, StoredAs, HeapOf, HeapShape, StateIn;
    hide HeapHistory.StateInv, FirstTable, StoreAll;
    FirstTableInv();
    NoneStored();
    pages, tables, next := [], map[], 1;
    var created := new DiskManager.Create();
    var pool := new BufferPool(created, capacity);
    var made := MakeFirstTable(pool, schema);
    if made.Err? {
      return Err(made.error), pages, tables, next;
    }
    var catalog, heap := made.value.0, made.value.1;
    var stored := StoreRows(pool, catalog, heap, schema.name, rows);
    pages, tables, next := catalog.heap.pages, catalog.tables, catalog.nextTableId;
    pool.OwnedSets();
    var disk := pool.Close();
    return Ok((disk, stored)), pages, tables, next;
  }

  method StoreRows(pool: BufferPool, catalog: Catalog, heap: HeapFile, name: Text, rows: seq<seq<Value>>) returns (stored: StoredRows)
    requires TableHolds(pool, catalog, heap, name, map[]) && pool.pins == multiset{} && !pool.disk.readOnly
    requires SchemaValid(catalog.tables[name].schema)
    modifies heap, pool.repr
    ensures TableHolds(pool, catalog, heap, name, stored) && pool.pins == multiset{} && fresh(pool.repr - old(pool.repr))
    ensures catalog.tables == old(catalog.tables)
    ensures var columns := catalog.tables[name].schema.columns;
      TableState(StateIn(pool, heap), stored) == StoreAll(columns, TableState(old(StateIn(pool, heap)), map[]), rows)
  {
    hide SchemaValid, Owned, BufferPool.CacheOk, BufferPool.ClockOk, BufferPool.PinsOk, CatalogOk, ChainOk, Opens, ChainFrom, StoredAs,
      StoreStep, Takes, HeapHistory.StateInv, OtherHeapsSame, OthersKept, StateIn;
    stored := map[];
    ghost var columns, start := catalog.tables[name].schema.columns, TableState(StateIn(pool, heap), stored);
    assert rows[0..] == rows;
    for i := 0 to |rows|
      invariant TableHolds(pool, catalog, heap, name, stored) && pool.pins == multiset{} && fresh(pool.repr - old(pool.repr))
      invariant catalog.tables == old(catalog.tables)
      invariant StoreAll(columns, TableState(StateIn(pool, heap), stored), rows[i..]) == StoreAll(columns, start, rows)
    {
      assert rows[i..][0] == rows[i] && rows[i..][1..] == rows[i + 1..];
      var taken := StoreRow(pool, catalog, heap, name, rows[i], stored);
      stored := if taken.Some? then stored[taken.value := rows[i]] else stored;
    }
  }

  /** Decodes the records of a scan. */
  method DecodeAll(schema: TableSchema, list: seq<HeapRecord>, ghost rows: map<Rid, seq<byte>>, ghost stored: StoredRows)
    returns (read: seq<(Rid, seq<Value>)>)
    requires SchemaValid(schema) && StoredAs(schema.columns, rows, stored) && Lists(list, rows) && DistinctRids(list)
    ensures ReadsAs(read, stored) && |read| == |list| && forall k | 0 <= k < |list| :: read[k].0 == list[k].rid
  {
    hide SchemaValid, StoredAs, Lists, DistinctRids, Represents, ReadsAs;
    read := [];
    for k := 0 to |list|
      invariant |read| == k
      invariant forall j | 0 <= j < k :: DecodedAs(list[j], read[j], stored)
    {
      RowRepresented(schema.columns, rows, stored, list, k);
      var values := DecodeRow(schema, list[k].bytes);
      RowMeansOneList(schema.columns, values.value, stored[list[k].rid], list[k].bytes);
      read := read + [(list[k].rid, values.value)];
    }
    AllRead(schema.columns, rows, stored, list, read);
  }

  /** Reads every row of a heap and decodes it. */
  method ReadRows(pool: BufferPool, heap: HeapFile, schema: TableSchema, ghost stored: StoredRows) returns (read: seq<(Rid, seq<Value>)>)
    requires heap.Readable(pool) && pool.pins == multiset{} && SchemaValid(schema)
    requires StoredAs(schema.columns, HeapModel.Rows(HeapOf(pool.view, heap.pages)), stored)
    modifies pool.repr
    ensures ReadsAs(read, stored) && ReadInOrder(read, old(HeapOf(pool.view, heap.pages)))
    ensures pool.Valid() && fresh(pool.repr - old(pool.repr)) && pool.pins == multiset{}
    ensures pool.view == old(pool.view) && pool.disk.header == old(pool.disk.header)
  {
    hide Owned, BufferPool.CacheOk, BufferPool.CacheOkBut, BufferPool.ClockOk, BufferPool.PinsOk, DiskOk, SchemaValid,
      Calm, Busy, HasRoom, StoredAs, HeapOf, HeapShape, InView, HeapModel.Rows, Lists, DistinctRids, ReadsAs, HeapModel.Before;
    CapacityIsPositive(pool);
    OneFrameIsEnough(pool.capacity);
    var scanned := heap.Scan(pool);
    ScanIsExact(HeapOf(pool.view, heap.pages));
    read := DecodeAll(schema, scanned.value, HeapModel.Rows(HeapOf(pool.view, heap.pages)), stored);
  }

  /** Exactly the stored rows, each once. */
  ghost predicate ReadsAs(read: seq<(Rid, seq<Value>)>, stored: StoredRows) {
    && (forall e :: e in read <==> e.0 in stored && stored[e.0] == e.1)
    && forall i, j | 0 <= i < j < |read| :: read[i].0 != read[j].0
  }

  /** In the order of a scan: by page along the chain, then by slot. */
  ghost predicate ReadInOrder(read: seq<(Rid, seq<Value>)>, h: Heap) {
    forall i, j | 0 <= i < j < |read| :: Before(h, read[i].0, read[j].0)
  }

  ghost predicate DecodedAs(record: HeapRecord, entry: (Rid, seq<Value>), stored: StoredRows) {
    entry.0 == record.rid && entry.0 in stored && stored[entry.0] == entry.1
  }

  lemma RowRepresented(columns: seq<ColumnSchema>, rows: map<Rid, seq<byte>>, stored: StoredRows, list: seq<HeapRecord>, k: nat)
    requires StoredAs(columns, rows, stored) && Lists(list, rows) && k < |list|
    ensures list[k].rid in stored && Represents(columns, stored[list[k].rid], list[k].bytes)
  {
    hide Represents;
    assert list[k] in list;
  }

  lemma AllRead(columns: seq<ColumnSchema>, rows: map<Rid, seq<byte>>, stored: StoredRows, list: seq<HeapRecord>, read: seq<(Rid, seq<Value>)>)
    requires StoredAs(columns, rows, stored) && Lists(list, rows) && DistinctRids(list) && |read| == |list|
    requires forall j | 0 <= j < |list| :: DecodedAs(list[j], read[j], stored)
    ensures ReadsAs(read, stored)
  {
    hide Represents;
    forall e: (Rid, seq<Value>) | e.0 in stored && stored[e.0] == e.1 ensures e in read {
      var k := RowListed(list, rows, e.0);
      assert DecodedAs(list[k], read[k], stored);
    }
    forall i, j | 0 <= i < j < |read| ensures read[i].0 != read[j].0 {
      assert DecodedAs(list[i], read[i], stored) && DecodedAs(list[j], read[j], stored);
    }
  }

  /** Opens a database file with a pool of its own and reads one table. */
  method ReadTable(file: seq<byte>, readOnly: bool, capacity: nat, schema: TableSchema, ghost header: DatabaseHeader, ghost view: PageMap,
      ghost pages: seq<PageId>, ghost tables: TableMap, ghost next: u32, ghost stored: StoredRows)
    returns (read: seq<(Rid, seq<Value>)>)
    requires capacity >= 1 && FileOpens(file) && SchemaValid(schema)
    requires DatabaseHolds(view, header.catalogRoot, pages, tables, next, schema, stored)
    requires forall h, s :: DiskOk(file, h, s) ==> h == header && s == view
    ensures ReadsAs(read, stored)
  {
    hide Owned, BufferPool.CacheOk, BufferPool.CacheOkBut, BufferPool.ClockOk, BufferPool.PinsOk, DiskOk, FileOpens, SchemaValid,
      CatalogOk, ChainFrom, ReadableChain, Calm, Busy, StoredAs, HeapOf, HeapModel.Rows, Opens, ChainOk, ReadsAs;
    var pool, catalog := Reopen(file, readOnly, capacity, header, view, pages, tables, next);
    CapacityIsPositive(pool);
    OneFrameIsEnough(pool.capacity);
    var heap := catalog.OpenTableHeap(pool, schema.name);
    ChainReads(pool.view, heap.value.pages);
    read := ReadRows(pool, heap.value, schema, stored);
  }

  /**
   * Lists of values stored in a table of a new database, which is then closed and opened again with a pool
   * of any other size: reading the table gives exactly the run's rows, each once and at its own address.
   * The run takes each list that can be encoded and whose row the heap accepts; none is overwritten.
   */
  method StoreAndReadBack(schema: TableSchema, rows: seq<seq<Value>>, capacity: nat, again: nat, readOnly: bool)
    returns (r: Result<(StoredRows, seq<(Rid, seq<Value>)>), CatalogError>)
    requires capacity >= 1 && again >= 1 && SchemaValid(schema)
    ensures r.Ok? <==> CatalogHistory.RecordSize(schema) <= MAX_RECORD_SIZE
    ensures HeapHistory.StateInv(FirstTable.rows)
    ensures r.Ok? ==> ReadsAs(r.value.1, r.value.0) && r.value.0 == StoreAll(schema.columns, FirstTable, rows).stored
    ensures r.Ok? ==> |r.value.0| == CountTaken(schema.columns, FirstTable, rows)
  {
    hide HeapHistory.StateInv, StoreAll, CountTaken, KeptAtRows, FirstTable;
    FirstTableInv();
    NothingOverwritten(schema.columns, FirstTable, rows);
    NoneStored();
    hide DatabaseHolds, DiskOk, FileOpens, SchemaValid, ReadsAs;
    var made; ghost var pages, tables, next;
    made, pages, tables, next := StoreInNewDatabase(capacity, schema, rows);
    if made.Err? {
      return Err(made.error);
    }
    var disk, stored := made.value.0, made.value.1;
    WrittenFileOpens(disk);
    OneReading(disk);
    var read := ReadTable(disk.file, readOnly, again, schema, disk.header, disk.pages, pages, tables, next, stored);
    return Ok((stored, read));
  }
}
