/**
 * What a catalog is, as a relation between the pages of a database and a map of table definitions:
 * each table has one record in the catalog's heap and a heap of its own.
 */
module CatalogModel {
  import opened Wrappers
  import opened Bytes
  import opened Utf8Text
  import opened Pages
  import opened PageModel
  import opened PageLayout
  import opened BufferPools
  import opened HeapModel
  import opened HeapFiles
  import opened Schemas
  import opened CatalogRecords

  type TableMap = map<Text, TableMetadata>

  /** `bytes` is the record of one of the tables. */
  ghost predicate RecordsSome(bytes: seq<byte>, tables: TableMap) {
    exists name :: name in tables && Describes(bytes, tables[name])
  }

  /** Some row is the record of `m`. */
  ghost predicate HasRecord(rows: map<Rid, seq<byte>>, m: TableMetadata) {
    exists rid :: rid in rows && Describes(rows[rid], m)
  }

  /** The rows are exactly the records of the tables, one each. */
  ghost predicate Registers(rows: map<Rid, seq<byte>>, tables: TableMap) {
    && (forall name | name in tables :: tables[name].schema.name == name)
    && (forall rid | rid in rows :: RecordsSome(rows[rid], tables))
    && (forall name | name in tables :: HasRecord(rows, tables[name]))
    && (forall a, b | a in rows && b in rows && rows[a] == rows[b] :: a == b)
  }

  ghost predicate IdsDistinct(tables: TableMap) {
    forall a, b | a in tables && b in tables && tables[a].id == tables[b].id :: a == b
  }

  /** `highest` is the largest table id, or zero when there are no tables. */
  ghost predicate Highest(tables: TableMap, highest: u32) {
    && (forall name | name in tables :: tables[name].id <= highest)
    && (tables == map[] ==> highest == 0)
    && (tables != map[] ==> exists name :: name in tables && tables[name].id == highest)
  }

  /** The id that follows the largest one; at the end of the range it stays there. */
  function IdAfter(highest: u32): u32 {
    if highest == U32_MAX then U32_MAX else highest + 1
  }

  /** Following links from `first` gives a whole chain. */
  ghost predicate Opens(view: PageMap, first: PageId) {
    Walk(view, first, []).Chain?
  }

  ghost function ChainFrom(view: PageMap, first: PageId): (pages: seq<PageId>)
    requires Opens(view, first)
    ensures ReadableChain(view, pages)
  {
    FoundChainReads(view, first, Walk(view, first, []).pages);
    Walk(view, first, []).pages
  }

  /** Opening a catalog whose root is `root` succeeds with these tables. */
  ghost predicate OpensAs(view: PageMap, root: Option<PageId>, tables: TableMap, next: u32) {
    && root.Some? && Opens(view, root.value)
    && Registers(HeapModel.Rows(HeapOf(view, ChainFrom(view, root.value))), tables)
    && IdsDistinct(tables)
    && (forall name | name in tables :: Opens(view, tables[name].heapFirstPage))
    && exists highest :: Highest(tables, highest) && next == IdAfter(highest)
  }

  /** An opened catalog goes on with 1, or with the id after the largest one, unless that is the last. */
  lemma NextFollowsIds(view: PageMap, root: Option<PageId>, tables: TableMap, next: u32)
    requires OpensAs(view, root, tables, next)
    ensures forall name | name in tables :: tables[name].id < next || tables[name].id == next == 0xFFFF_FFFF
    ensures if tables == map[] then next == 1
      else exists name :: name in tables && (next == tables[name].id + 1 || next == tables[name].id == 0xFFFF_FFFF)
  {
    hide Opens, ChainFrom, HeapOf, HeapModel.Rows, Registers, IdsDistinct;
  }

  /** A row that describes a table can only describe the table of that name. */
  lemma {:induction false} RowIsTable(rows: map<Rid, seq<byte>>, tables: TableMap, rid: Rid, m: TableMetadata)
    requires Registers(rows, tables) && rid in rows && Describes(rows[rid], m)
    ensures m.schema.name in tables && tables[m.schema.name] == m
  {
    hide Describes;
    assert RecordsSome(rows[rid], tables);
    var name :| name in tables && Describes(rows[rid], tables[name]);
    RecordIsUnique(rows[rid], tables[name], m);
  }

  /** The pages determine the tables. */
  lemma {:induction false} OpensOneWay(view: PageMap, root: Option<PageId>, tables: TableMap, next: u32, others: TableMap, otherNext: u32)
    requires OpensAs(view, root, tables, next) && OpensAs(view, root, others, otherNext)
    ensures tables == others && next == otherNext
  {
    var rows := HeapModel.Rows(HeapOf(view, ChainFrom(view, root.value)));
    hide Describes, Opens, ChainFrom, HeapOf, HeapModel.Rows, Registers, IdsDistinct, Highest, IdAfter;
    TablesEqual(rows, tables, others);
    SameHighest(tables, next, otherNext);
  }

  lemma {:induction false} TablesEqual(rows: map<Rid, seq<byte>>, tables: TableMap, others: TableMap)
    requires Registers(rows, tables) && Registers(rows, others)
    ensures tables == others
  {
    hide Registers;
    SameTables(rows, tables, others);
    SameTables(rows, others, tables);
  }

  lemma SameHighest(tables: TableMap, next: u32, other: u32)
    requires exists highest :: Highest(tables, highest) && next == IdAfter(highest)
    requires exists highest :: Highest(tables, highest) && other == IdAfter(highest)
    ensures next == other
  {
    var h :| Highest(tables, h) && next == IdAfter(h);
    var k :| Highest(tables, k) && other == IdAfter(k);
    assert h == k;
  }

  lemma {:induction false} SameTables(rows: map<Rid, seq<byte>>, tables: TableMap, others: TableMap)
    requires Registers(rows, tables) && Registers(rows, others)
    ensures forall name | name in tables :: name in others && others[name] == tables[name]
  {
    forall name | name in tables ensures name in others && others[name] == tables[name] {
      TableIsRow(rows, tables, others, name);
    }
  }

  lemma {:induction false} TableIsRow(rows: map<Rid, seq<byte>>, tables: TableMap, others: TableMap, name: Text)
    requires Registers(rows, tables) && Registers(rows, others) && name in tables
    ensures name in others && others[name] == tables[name]
  {
    assert HasRecord(rows, tables[name]) && tables[name].schema.name == name;
    hide Describes, Registers;
    var rid :| rid in rows && Describes(rows[rid], tables[name]);
    RowIsTable(rows, others, rid, tables[name]);
  }

  // ----- The invariant of a catalog the engine built -----

  ghost predicate Disjoint(a: seq<PageId>, b: seq<PageId>) {
    forall p | p in a :: p !in b
  }

  /** A table's heap, whole and as the engine builds it. */
  ghost predicate TableHeapOk(view: PageMap, m: TableMetadata) {
    MetadataValid(m) && Opens(view, m.heapFirstPage) && ChainOk(view, ChainFrom(view, m.heapFirstPage))
  }

  ghost predicate TablesOk(view: PageMap, pages: seq<PageId>, tables: TableMap) {
    && (forall name | name in tables :: TableHeapOk(view, tables[name]) && Disjoint(pages, ChainFrom(view, tables[name].heapFirstPage)))
    && (forall a, b | a in tables && b in tables && a != b ::
          Disjoint(ChainFrom(view, tables[a].heapFirstPage), ChainFrom(view, tables[b].heapFirstPage)))
  }

  /** Ids are distinct and run below `next`, which follows the largest of them. */
  ghost predicate IdsOk(tables: TableMap, next: u32) {
    && IdsDistinct(tables) && next >= FIRST_TABLE_ID
    && (forall name | name in tables :: FIRST_TABLE_ID <= tables[name].id < next)
    && Highest(tables, next - 1)
  }

  /**
   * The catalog and the database agree: the root is the catalog's heap, that heap registers exactly
   * the tables, ids are in order, and all chains are whole and share no page.
   */
  ghost predicate CatalogOk(view: PageMap, root: Option<PageId>, pages: seq<PageId>, tables: TableMap, next: u32) {
    && ChainOk(view, pages) && root == Some(pages[0])
    && Registers(HeapModel.Rows(HeapOf(view, pages)), tables)
    && IdsOk(tables, next) && TablesOk(view, pages, tables)
  }

  lemma TablesOpen(view: PageMap, pages: seq<PageId>, tables: TableMap)
    requires TablesOk(view, pages, tables)
    ensures forall name | name in tables :: Opens(view, tables[name].heapFirstPage)
  {
    hide Opens, ChainFrom, Disjoint, ChainOk, MetadataValid;
    forall name | name in tables ensures Opens(view, tables[name].heapFirstPage) {
      assert TableHeapOk(view, tables[name]);
    }
  }

  lemma NextFollowsHighest(tables: TableMap, next: u32)
    requires IdsOk(tables, next)
    ensures IdsDistinct(tables) && exists highest :: Highest(tables, highest) && next == IdAfter(highest)
  {
    hide Highest, IdsDistinct;
    assert Highest(tables, next - 1) && next == IdAfter(next - 1);
  }

  /** A catalog the engine built opens again, with the same heap, the same tables and the same next id. */
  lemma {:induction false} CatalogReopens(view: PageMap, root: Option<PageId>, pages: seq<PageId>, tables: TableMap, next: u32)
    requires CatalogOk(view, root, pages, tables, next)
    ensures OpensAs(view, root, tables, next) && ChainFrom(view, root.value) == pages
  {
    hide TablesOk, IdsOk, ChainOk, Opens, ChainFrom, Registers, HeapModel.Rows, HeapOf, Highest, IdsDistinct;
    EngineChainFrom(view, pages);
    TablesOpen(view, pages, tables);
    NextFollowsHighest(tables, next);
  }

  /** The chain that links lead to is the one the engine built. */
  lemma {:induction false} EngineChainFrom(view: PageMap, pages: seq<PageId>)
    requires ChainOk(view, pages)
    ensures |pages| >= 1 && Opens(view, pages[0]) && ChainFrom(view, pages[0]) == pages
  {
    EngineChainIsFound(view, pages);
    hide Walk, HeapInv, InView;
  }

  // ----- What changes elsewhere leave alone -----

  lemma {:induction false} ChainSurvives(view: PageMap, after: PageMap, touched: seq<PageId>, chain: seq<PageId>)
    requires ChainOk(view, chain) && Disjoint(touched, chain) && OthersKept(view, after, touched)
    ensures ChainOk(after, chain) && HeapOf(after, chain) == HeapOf(view, chain)
  {
    hide WellFormed, Abs, HeapInv;
    forall i | 0 <= i < |chain| ensures chain[i] in after && after[chain[i]] == view[chain[i]] {
      assert chain[i] in view && chain[i] in chain;
    }
    ChainFrame(view, after, chain);
  }

  lemma {:induction false} TableSurvives(view: PageMap, after: PageMap, touched: seq<PageId>, m: TableMetadata)
    requires TableHeapOk(view, m) && Disjoint(touched, ChainFrom(view, m.heapFirstPage)) && OthersKept(view, after, touched)
    ensures TableHeapOk(after, m) && ChainFrom(after, m.heapFirstPage) == ChainFrom(view, m.heapFirstPage)
  {
    var chain := ChainFrom(view, m.heapFirstPage);
    FirstOfChain(view, m.heapFirstPage);
    hide Walk, HeapInv, InView, Disjoint, OthersKept, Opens, ChainFrom;
    ChainSurvives(view, after, touched, chain);
    EngineChainFrom(after, chain);
  }

  lemma {:induction false} FirstOfChain(view: PageMap, first: PageId)
    requires Opens(view, first)
    ensures |ChainFrom(view, first)| >= 1 && ChainFrom(view, first)[0] == first
  {
    WalkIsExact(view, first, ChainFrom(view, first));
    hide Walk, LinkOk;
  }

  /** Tables keep their heaps when only `touched` pages change and no table owns one of them. */
  lemma {:induction false} TablesSurvive(view: PageMap, after: PageMap, touched: seq<PageId>, pages: seq<PageId>, tables: TableMap)
    requires TablesOk(view, pages, tables) && OthersKept(view, after, touched)
    requires forall name | name in tables :: Disjoint(touched, ChainFrom(view, tables[name].heapFirstPage))
    ensures TablesOk(after, pages, tables)
    ensures forall name | name in tables ::
      && Opens(view, tables[name].heapFirstPage) && Opens(after, tables[name].heapFirstPage)
      && ChainFrom(after, tables[name].heapFirstPage) == ChainFrom(view, tables[name].heapFirstPage)
  {
    hide Opens, ChainFrom, Disjoint, OthersKept, ChainOk, MetadataValid;
    forall name | name in tables
      ensures TableHeapOk(view, tables[name]) && TableHeapOk(after, tables[name])
      ensures ChainFrom(after, tables[name].heapFirstPage) == ChainFrom(view, tables[name].heapFirstPage)
    {
      hide TableHeapOk;
      TableSurvives(view, after, touched, tables[name]);
    }
  }

  /** A chain in the view has none of the pages that are not. */
  lemma {:induction false} NewPageIsElsewhere(view: PageMap, id: PageId, chain: seq<PageId>)
    requires InView(view, chain) && id !in view
    ensures id !in chain && Disjoint([id], chain) && Disjoint(chain, [id])
  {
    hide WellFormed;
    forall i | 0 <= i < |chain| ensures chain[i] != id {
      assert chain[i] in view;
    }
  }

  // ----- One more table -----

  /** The catalog's heap and the tables after the heap `id` was made for a table that is not there yet. */
  lemma {:induction false} HeapMade(view: PageMap, mid: PageMap, root: Option<PageId>, pages: seq<PageId>, tables: TableMap, next: u32, id: PageId)
    requires CatalogOk(view, root, pages, tables, next) && id !in view && OthersKept(view, mid, [id])
    ensures CatalogOk(mid, root, pages, tables, next) && HeapOf(mid, pages) == HeapOf(view, pages)
    ensures id !in pages
    ensures forall name | name in tables ::
      Opens(mid, tables[name].heapFirstPage) && id !in ChainFrom(mid, tables[name].heapFirstPage)
  {
    hide TableHeapOk, IdsOk, HeapInv, Registers, HeapModel.Rows, Opens, ChainFrom, OthersKept;
    NewPageIsElsewhere(view, id, pages);
    ChainSurvives(view, mid, [id], pages);
    forall name | name in tables ensures Opens(view, tables[name].heapFirstPage) && id !in ChainFrom(view, tables[name].heapFirstPage) {
      assert TableHeapOk(view, tables[name]);
      TableIsElsewhere(view, id, tables[name]);
    }
    hide TablesOk, ChainOk;
    TablesSurvive(view, mid, [id], pages, tables);
  }

  lemma TableIsElsewhere(view: PageMap, id: PageId, m: TableMetadata)
    requires TableHeapOk(view, m) && id !in view
    ensures Opens(view, m.heapFirstPage) && id !in ChainFrom(view, m.heapFirstPage)
  {
    hide HeapInv, Opens, ChainFrom, MetadataValid;
    NewPageIsElsewhere(view, id, ChainFrom(view, m.heapFirstPage));
  }

  lemma RegistersOneMore(rows: map<Rid, seq<byte>>, tables: TableMap, rid: Rid, bytes: seq<byte>, m: TableMetadata)
    requires Registers(rows, tables) && rid !in rows && Describes(bytes, m)
    requires m.schema.name !in tables && forall name | name in tables :: tables[name].id != m.id
    ensures Registers(rows[rid := bytes], tables[m.schema.name := m])
  {
    hide Describes, RecordsSome, HasRecord;
    TableIsRecorded(bytes, tables[m.schema.name := m], m.schema.name);
    RowsOneMore(rows, rows[rid := bytes], tables, tables[m.schema.name := m], rid, bytes);
    RecordsOneMore(rows, rows[rid := bytes], tables, tables[m.schema.name := m], rid, bytes, m);
    NewRecordIsNew(rows, tables, bytes, m);
  }

  lemma RowsOneMore(rows: map<Rid, seq<byte>>, more: map<Rid, seq<byte>>, tables: TableMap, all: TableMap, rid: Rid, bytes: seq<byte>)
    requires (forall r | r in rows :: RecordsSome(rows[r], tables)) && RecordsSome(bytes, all)
    requires more == rows[rid := bytes] && forall name | name in tables :: name in all && all[name] == tables[name]
    ensures forall r | r in more :: RecordsSome(more[r], all)
  {
    hide Describes, RecordsSome, HasRecord;
    forall r | r in rows ensures RecordsSome(rows[r], all) {
      StillRecorded(rows[r], tables, all);
    }
  }

  lemma TableIsRecorded(bytes: seq<byte>, tables: TableMap, name: Text)
    requires name in tables && Describes(bytes, tables[name])
    ensures RecordsSome(bytes, tables)
  {
  }

  lemma RowIsRecord(rows: map<Rid, seq<byte>>, rid: Rid, m: TableMetadata)
    requires rid in rows && Describes(rows[rid], m)
    ensures HasRecord(rows, m)
  {
  }

  lemma RecordsOneMore(rows: map<Rid, seq<byte>>, more: map<Rid, seq<byte>>, tables: TableMap, all: TableMap, rid: Rid, bytes: seq<byte>, m: TableMetadata)
    requires (forall name | name in tables :: HasRecord(rows, tables[name])) && Describes(bytes, m) && rid !in rows
    requires more == rows[rid := bytes] && all == tables[m.schema.name := m]
    ensures forall name | name in all :: HasRecord(more, all[name])
  {
    hide Describes, HasRecord;
    RowIsRecord(more, rid, m);
    AllStillHaveRecords(rows, rid, bytes, tables);
  }

  lemma AllStillHaveRecords(rows: map<Rid, seq<byte>>, rid: Rid, bytes: seq<byte>, tables: TableMap)
    requires rid !in rows && forall name | name in tables :: HasRecord(rows, tables[name])
    ensures forall name | name in tables :: HasRecord(rows[rid := bytes], tables[name])
  {
    hide HasRecord;
    forall name | name in tables ensures HasRecord(rows[rid := bytes], tables[name]) {
      StillHasRecord(rows, rows[rid := bytes], tables[name]);
    }
  }

  lemma NewRecordIsNew(rows: map<Rid, seq<byte>>, tables: TableMap, bytes: seq<byte>, m: TableMetadata)
    requires Registers(rows, tables) && Describes(bytes, m) && m.schema.name !in tables
    ensures forall r | r in rows :: rows[r] != bytes
  {
    hide Registers, Describes;
    forall r | r in rows ensures rows[r] != bytes {
      if rows[r] == bytes {
        RowIsTable(rows, tables, r, m);
        assert false;
      }
    }
  }

  lemma StillRecorded(bytes: seq<byte>, tables: TableMap, all: TableMap)
    requires RecordsSome(bytes, tables) && forall name | name in tables :: name in all && all[name] == tables[name]
    ensures RecordsSome(bytes, all)
  {
    hide Describes;
    var name :| name in tables && Describes(bytes, tables[name]);
    assert Describes(bytes, all[name]);
  }

  lemma StillHasRecord(rows: map<Rid, seq<byte>>, more: map<Rid, seq<byte>>, m: TableMetadata)
    requires HasRecord(rows, m) && forall rid | rid in rows :: rid in more && more[rid] == rows[rid]
    ensures HasRecord(more, m)
  {
    hide Describes;
    var rid :| rid in rows && Describes(rows[rid], m);
    assert Describes(more[rid], m);
  }

  lemma IdsOneMore(tables: TableMap, next: u32, m: TableMetadata)
    requires IdsOk(tables, next) && m.id == next < U32_MAX && m.schema.name !in tables
    ensures IdsOk(tables[m.schema.name := m], next + 1)
    ensures forall name | name in tables :: tables[name].id != m.id
  {
    var all := tables[m.schema.name := m];
    assert all[m.schema.name].id == next;
    assert m.schema.name in all;
  }

  lemma {:induction false} TablesOneMore(view: PageMap, pages: seq<PageId>, tables: TableMap, m: TableMetadata, grown: seq<PageId>)
    requires TablesOk(view, pages, tables) && TableHeapOk(view, m)
    requires forall name | name in tables :: Opens(view, tables[name].heapFirstPage)
    requires forall name | name in tables :: Disjoint(grown, ChainFrom(view, tables[name].heapFirstPage))
    requires forall name | name in tables :: Disjoint(ChainFrom(view, m.heapFirstPage), ChainFrom(view, tables[name].heapFirstPage))
    requires forall name | name in tables :: Disjoint(ChainFrom(view, tables[name].heapFirstPage), ChainFrom(view, m.heapFirstPage))
    requires Disjoint(grown, ChainFrom(view, m.heapFirstPage))
    ensures TablesOk(view, grown, tables[m.schema.name := m])
  {
    hide Opens, ChainFrom, Disjoint, ChainOk, MetadataValid;
  }

  /** How the catalog's heap grew: by one record, and at most one page that was not there. */
  ghost predicate HeapGrew(mid: PageMap, after: PageMap, pages: seq<PageId>, grown: seq<PageId>, record: seq<byte>, nextPage: PageId) {
    && ChainOk(mid, pages) && ChainOk(after, grown) && OthersKept(mid, after, pages)
    && |record| <= MAX_RECORD_SIZE && nextPage !in mid
    && !Place(HeapOf(mid, pages).states, record).Refused?
    && (Place(HeapOf(mid, pages).states, record).NewPage? ==> nextPage < U32_MAX)
    && HeapOf(after, grown) == Inserted(HeapOf(mid, pages), record, nextPage)
  }

  lemma {:induction false} GrownPages(mid: PageMap, after: PageMap, pages: seq<PageId>, grown: seq<PageId>, record: seq<byte>, nextPage: PageId)
    requires HeapGrew(mid, after, pages, grown, record, nextPage)
    ensures |pages| >= 1 && nextPage !in pages && (grown == pages || grown == pages + [nextPage])
  {
    NewPageIsElsewhere(mid, nextPage, pages);
    hide WellFormed, Abs, PageInv, PageModel.Insert, OthersKept;
    assert HeapOf(after, grown).pages == grown;
  }

  lemma {:induction false} GrownRegisters(mid: PageMap, after: PageMap, pages: seq<PageId>, grown: seq<PageId>, record: seq<byte>, nextPage: PageId, tables: TableMap, m: TableMetadata)
    requires HeapGrew(mid, after, pages, grown, record, nextPage)
    requires HeapShape(HeapOf(mid, pages)) && HeapShape(HeapOf(after, grown))
    requires Registers(HeapModel.Rows(HeapOf(mid, pages)), tables) && Describes(record, m)
    requires m.schema.name !in tables && forall name | name in tables :: tables[name].id != m.id
    ensures Registers(HeapModel.Rows(HeapOf(after, grown)), tables[m.schema.name := m])
  {
    GrownPages(mid, after, pages, grown, record, nextPage);
    var h := HeapOf(mid, pages);
    hide OthersKept, HeapOf, HeapInv, HeapShape, Registers, Describes, HeapModel.Rows, InView, Place, Inserted;
    InsertAddsRow(h, record, nextPage);
    RegistersOneMore(HeapModel.Rows(h), tables, RidOf(InsertedAt(h, record, nextPage)), record, m);
  }

  lemma {:induction false} GrownTables(mid: PageMap, after: PageMap, pages: seq<PageId>, grown: seq<PageId>, nextPage: PageId, tables: TableMap, m: TableMetadata)
    requires TablesOk(mid, pages, tables) && TableHeapOk(mid, m) && OthersKept(mid, after, pages)
    requires nextPage !in mid && (grown == pages || grown == pages + [nextPage])
    requires ChainFrom(mid, m.heapFirstPage) == [m.heapFirstPage] && m.heapFirstPage !in pages
    requires forall name | name in tables ::
      Opens(mid, tables[name].heapFirstPage) && m.heapFirstPage !in ChainFrom(mid, tables[name].heapFirstPage)
    ensures TablesOk(after, grown, tables[m.schema.name := m])
  {
    forall name | name in tables ensures Disjoint(grown, ChainFrom(mid, tables[name].heapFirstPage)) {
      assert TableHeapOk(mid, tables[name]);
      hide Opens, ChainFrom;
      TableIsElsewhere(mid, nextPage, tables[name]);
    }
    TableIsElsewhere(mid, nextPage, m);
    hide TableHeapOk, Opens, ChainFrom, OthersKept;
    TablesSurvive(mid, after, pages, pages, tables);
    TableSurvives(mid, after, pages, m);
    hide TablesOk;
    TablesOneMore(after, pages, tables, m, grown);
  }

  /** Writing the record of a new table makes it part of the catalog. */
  lemma {:induction false} TableAdded(mid: PageMap, after: PageMap, root: Option<PageId>, pages: seq<PageId>, grown: seq<PageId>, tables: TableMap, next: u32, m: TableMetadata, record: seq<byte>, nextPage: PageId)
    requires CatalogOk(mid, root, pages, tables, next) && HeapGrew(mid, after, pages, grown, record, nextPage)
    requires m.id == next < U32_MAX && m.schema.name !in tables && Describes(record, m) && TableHeapOk(mid, m)
    requires ChainFrom(mid, m.heapFirstPage) == [m.heapFirstPage] && m.heapFirstPage !in pages
    requires forall name | name in tables ::
      Opens(mid, tables[name].heapFirstPage) && m.heapFirstPage !in ChainFrom(mid, tables[name].heapFirstPage)
    ensures CatalogOk(after, root, grown, tables[m.schema.name := m], next + 1)
  {
    GrownPages(mid, after, pages, grown, record, nextPage);
    IdsOneMore(tables, next, m);
    InvHasShape(HeapOf(after, grown));
    InvHasShape(HeapOf(mid, pages));
    GrownParts(mid, after, pages, grown, record, nextPage);
    hide HeapGrew, ChainOk, Registers, Describes, TablesOk, TableHeapOk, IdsOk, Opens, ChainFrom, HeapModel.Rows, HeapShape, OthersKept;
    GrownRegisters(mid, after, pages, grown, record, nextPage, tables, m);
    GrownTables(mid, after, pages, grown, nextPage, tables, m);
  }

  lemma GrownParts(mid: PageMap, after: PageMap, pages: seq<PageId>, grown: seq<PageId>, record: seq<byte>, nextPage: PageId)
    requires HeapGrew(mid, after, pages, grown, record, nextPage)
    ensures ChainOk(after, grown) && OthersKept(mid, after, pages) && nextPage !in mid
  {
  }

  lemma {:induction false} OtherTablesAreElsewhere(view: PageMap, pages: seq<PageId>, tables: TableMap, name: Text)
    requires TablesOk(view, pages, tables) && name in tables
    ensures Opens(view, tables[name].heapFirstPage) && Disjoint(ChainFrom(view, tables[name].heapFirstPage), pages)
    ensures forall other | other in tables && other != name ::
      && Opens(view, tables[other].heapFirstPage)
      && Disjoint(ChainFrom(view, tables[name].heapFirstPage), ChainFrom(view, tables[other].heapFirstPage))
  {
    assert TableHeapOk(view, tables[name]);
    forall other | other in tables ensures Opens(view, tables[other].heapFirstPage) {
      assert TableHeapOk(view, tables[other]);
    }
    hide Opens, ChainFrom, TableHeapOk;
  }

  /** The chain that starts at `first` holds in `after` exactly what it held in `view`. */
  ghost predicate SameHeap(view: PageMap, after: PageMap, first: PageId) {
    && Opens(view, first) && Opens(after, first) && ChainFrom(after, first) == ChainFrom(view, first)
    && HeapOf(after, ChainFrom(after, first)) == HeapOf(view, ChainFrom(view, first))
  }

  lemma {:induction false} HeapSurvives(view: PageMap, after: PageMap, touched: seq<PageId>, m: TableMetadata)
    requires TableHeapOk(view, m) && Disjoint(touched, ChainFrom(view, m.heapFirstPage)) && OthersKept(view, after, touched)
    ensures SameHeap(view, after, m.heapFirstPage)
  {
    hide Disjoint, OthersKept, Opens, ChainFrom, ChainOk, HeapOf, MetadataValid;
    TableSurvives(view, after, touched, m);
    ChainSurvives(view, after, touched, ChainFrom(view, m.heapFirstPage));
  }

  /** Changes to the catalog's own heap leave the heap of every table as it was. */
  lemma {:induction false} TableHeapsKept(view: PageMap, after: PageMap, root: Option<PageId>, pages: seq<PageId>, tables: TableMap, next: u32)
    requires CatalogOk(view, root, pages, tables, next) && OthersKept(view, after, pages)
    ensures forall name | name in tables :: SameHeap(view, after, tables[name].heapFirstPage)
  {
    hide Disjoint, OthersKept, Opens, ChainFrom, ChainOk, HeapOf, SameHeap, TableHeapOk, Registers, IdsOk;
    forall name | name in tables ensures SameHeap(view, after, tables[name].heapFirstPage) {
      assert TableHeapOk(view, tables[name]);
      HeapSurvives(view, after, pages, tables[name]);
    }
  }

  /**
   * Work on the rows of one table, whichever handle does it, keeps the catalog: its heap may gain new
   * pages, and the catalog's heap and the heap of every other table hold what they held.
   */
  lemma {:induction false} TableHeapChanged(view: PageMap, after: PageMap, root: Option<PageId>, pages: seq<PageId>, tables: TableMap, next: u32, name: Text, grown: seq<PageId>)
    requires CatalogOk(view, root, pages, tables, next) && name in tables && Opens(view, tables[name].heapFirstPage)
    requires OthersKept(view, after, ChainFrom(view, tables[name].heapFirstPage))
    requires ChainOk(after, grown) && |grown| >= 1 && grown[0] == tables[name].heapFirstPage
    requires forall p | p in grown :: p in ChainFrom(view, tables[name].heapFirstPage) || p !in view
    ensures CatalogOk(after, root, pages, tables, next)
    ensures Opens(after, tables[name].heapFirstPage) && ChainFrom(after, tables[name].heapFirstPage) == grown
    ensures HeapOf(after, pages) == HeapOf(view, pages)
    ensures forall other | other in tables && other != name :: SameHeap(view, after, tables[other].heapFirstPage)
  {
    var chain := ChainFrom(view, tables[name].heapFirstPage);
    OtherTablesAreElsewhere(view, pages, tables, name);
    hide Registers, HeapModel.Rows, Opens, ChainFrom, OthersKept, IdsOk, Disjoint, TablesOk, HeapInv;
    ChainSurvives(view, after, chain, pages);
    hide ChainOk, SameHeap;
    EngineChainFrom(after, grown);
    TablesAfterChange(view, after, pages, tables, name, grown);
    OtherHeapsKept(view, after, pages, tables, name);
  }

  lemma {:induction false} OtherHeapsKept(view: PageMap, after: PageMap, pages: seq<PageId>, tables: TableMap, name: Text)
    requires TablesOk(view, pages, tables) && name in tables && Opens(view, tables[name].heapFirstPage)
    requires OthersKept(view, after, ChainFrom(view, tables[name].heapFirstPage))
    ensures forall other | other in tables && other != name :: SameHeap(view, after, tables[other].heapFirstPage)
  {
    OtherTablesAreElsewhere(view, pages, tables, name);
    hide Disjoint, OthersKept, Opens, ChainFrom, ChainOk, HeapOf, SameHeap, TableHeapOk;
    forall other | other in tables && other != name ensures SameHeap(view, after, tables[other].heapFirstPage) {
      assert TableHeapOk(view, tables[other]);
      HeapSurvives(view, after, ChainFrom(view, tables[name].heapFirstPage), tables[other]);
    }
  }

  lemma {:induction false} TablesAfterChange(view: PageMap, after: PageMap, pages: seq<PageId>, tables: TableMap, name: Text, grown: seq<PageId>)
    requires TablesOk(view, pages, tables) && name in tables && Opens(view, tables[name].heapFirstPage) && InView(view, pages)
    requires OthersKept(view, after, ChainFrom(view, tables[name].heapFirstPage))
    requires Opens(after, tables[name].heapFirstPage) && ChainFrom(after, tables[name].heapFirstPage) == grown
    requires ChainOk(after, grown)
    requires forall p | p in grown :: p in ChainFrom(view, tables[name].heapFirstPage) || p !in view
    ensures TablesOk(after, pages, tables)
  {
    hide TablesOk, TableHeapOk, Opens, ChainFrom, OthersKept, Disjoint, InView, ChainOk, MetadataValid;
    forall other | other in tables
      ensures TableHeapOk(after, tables[other]) && Opens(after, tables[other].heapFirstPage)
      ensures Disjoint(pages, ChainFrom(after, tables[other].heapFirstPage))
    {
      TableAfterChange(view, after, pages, tables, name, grown, other);
      TableOpens(after, tables[other]);
    }
    forall a, b | a in tables && b in tables && a != b
      ensures Disjoint(ChainFrom(after, tables[a].heapFirstPage), ChainFrom(after, tables[b].heapFirstPage))
    {
      ApartAfterChange(view, after, pages, tables, name, grown, a, b);
    }
    Assembled(after, pages, tables);
  }

  lemma TableOpens(view: PageMap, m: TableMetadata)
    requires TableHeapOk(view, m)
    ensures Opens(view, m.heapFirstPage)
  {
  }

  lemma Assembled(view: PageMap, pages: seq<PageId>, tables: TableMap)
    requires forall name | name in tables :: TableHeapOk(view, tables[name]) && Opens(view, tables[name].heapFirstPage)
    requires forall name | name in tables :: Disjoint(pages, ChainFrom(view, tables[name].heapFirstPage))
    requires forall a, b | a in tables && b in tables && a != b ::
      Disjoint(ChainFrom(view, tables[a].heapFirstPage), ChainFrom(view, tables[b].heapFirstPage))
    ensures TablesOk(view, pages, tables)
  {
    hide TableHeapOk, Opens, ChainFrom, Disjoint;
  }

  lemma {:induction false} TableAfterChange(view: PageMap, after: PageMap, pages: seq<PageId>, tables: TableMap, name: Text, grown: seq<PageId>, other: Text)
    requires TablesOk(view, pages, tables) && name in tables && Opens(view, tables[name].heapFirstPage) && InView(view, pages)
    requires OthersKept(view, after, ChainFrom(view, tables[name].heapFirstPage))
    requires Opens(after, tables[name].heapFirstPage) && ChainFrom(after, tables[name].heapFirstPage) == grown
    requires ChainOk(after, grown) && other in tables
    requires forall p | p in grown :: p in ChainFrom(view, tables[name].heapFirstPage) || p !in view
    ensures TableHeapOk(after, tables[other]) && Opens(view, tables[other].heapFirstPage)
    ensures other != name ==> ChainFrom(after, tables[other].heapFirstPage) == ChainFrom(view, tables[other].heapFirstPage)
    ensures Disjoint(pages, ChainFrom(after, tables[other].heapFirstPage))
  {
    MetadataOf(view, pages, tables, other);
    OtherTablesAreElsewhere(view, pages, tables, name);
    assert TableHeapOk(view, tables[other]);
    hide Opens, ChainFrom, OthersKept, Disjoint, InView, ChainOk;
    if other == name {
      GrownIsElsewhere(view, ChainFrom(view, tables[name].heapFirstPage), grown, pages);
    } else {
      hide TableHeapOk;
      TableSurvives(view, after, ChainFrom(view, tables[name].heapFirstPage), tables[other]);
      ElsewhereFromOther(view, pages, tables, name, other, grown);
    }
  }

  lemma {:induction false} ApartAfterChange(view: PageMap, after: PageMap, pages: seq<PageId>, tables: TableMap, name: Text, grown: seq<PageId>, a: Text, b: Text)
    requires TablesOk(view, pages, tables) && name in tables && Opens(view, tables[name].heapFirstPage) && InView(view, pages)
    requires OthersKept(view, after, ChainFrom(view, tables[name].heapFirstPage))
    requires Opens(after, tables[name].heapFirstPage) && ChainFrom(after, tables[name].heapFirstPage) == grown
    requires ChainOk(after, grown) && a in tables && b in tables && a != b
    requires forall p | p in grown :: p in ChainFrom(view, tables[name].heapFirstPage) || p !in view
    ensures TableHeapOk(after, tables[a]) && TableHeapOk(after, tables[b])
    ensures Disjoint(ChainFrom(after, tables[a].heapFirstPage), ChainFrom(after, tables[b].heapFirstPage))
  {
    TableAfterChange(view, after, pages, tables, name, grown, a);
    TableAfterChange(view, after, pages, tables, name, grown, b);
    hide Opens, ChainFrom, OthersKept, Disjoint, InView, ChainOk, MetadataValid;
    if a == name {
      hide TableHeapOk;
      ElsewhereFromOther(view, pages, tables, name, b, grown);
    } else if b == name {
      hide TableHeapOk;
      ElsewhereFromOther(view, pages, tables, name, a, grown);
    } else {
      assert Disjoint(ChainFrom(view, tables[a].heapFirstPage), ChainFrom(view, tables[b].heapFirstPage));
    }
  }

  lemma MetadataOf(view: PageMap, pages: seq<PageId>, tables: TableMap, name: Text)
    requires TablesOk(view, pages, tables) && name in tables
    ensures MetadataValid(tables[name])
  {
    assert TableHeapOk(view, tables[name]);
    hide Opens, ChainFrom, Disjoint, ChainOk;
  }

  lemma GrownIsElsewhere(view: PageMap, chain: seq<PageId>, grown: seq<PageId>, elsewhere: seq<PageId>)
    requires InView(view, elsewhere) && Disjoint(chain, elsewhere)
    requires forall p | p in grown :: p in chain || p !in view
    ensures Disjoint(grown, elsewhere) && Disjoint(elsewhere, grown)
  {
    hide WellFormed;
    forall i | 0 <= i < |elsewhere| ensures elsewhere[i] in view && elsewhere[i] !in chain {
    }
  }

  lemma {:induction false} ElsewhereFromOther(view: PageMap, pages: seq<PageId>, tables: TableMap, name: Text, other: Text, grown: seq<PageId>)
    requires TablesOk(view, pages, tables) && name in tables && other in tables && other != name
    requires Opens(view, tables[name].heapFirstPage)
    requires forall p | p in grown :: p in ChainFrom(view, tables[name].heapFirstPage) || p !in view
    ensures Opens(view, tables[other].heapFirstPage)
    ensures var far := ChainFrom(view, tables[other].heapFirstPage);
      Disjoint(grown, far) && Disjoint(far, grown) && Disjoint(pages, far)
  {
    assert TableHeapOk(view, tables[other]);
    OtherTablesAreElsewhere(view, pages, tables, name);
    hide TablesOk, Opens, ChainFrom;
    GrownIsElsewhere(view, ChainFrom(view, tables[name].heapFirstPage), grown, ChainFrom(view, tables[other].heapFirstPage));
  }

  // ----- Rebuilding the tables from the records, one by one -----

  /** The tables of the first `n` records of a scan, all different, with heaps that open. */
  ghost predicate Loaded(view: PageMap, list: seq<HeapRecord>, n: nat, tables: TableMap, ids: set<u32>, highest: u32)
    requires n <= |list|
  {
    && NamedAndOpen(view, tables) && RecordsAll(list, n, tables) && AllRecorded(list, n, tables)
    && IdsAre(tables, ids) && IdsDistinct(tables) && Highest(tables, highest) && BytesDistinct(list, n)
  }

  ghost predicate NamedAndOpen(view: PageMap, tables: TableMap) {
    forall name | name in tables :: tables[name].schema.name == name && Opens(view, tables[name].heapFirstPage)
  }

  ghost predicate RecordsAll(list: seq<HeapRecord>, n: nat, tables: TableMap)
    requires n <= |list|
  {
    forall k | 0 <= k < n :: RecordsSome(list[k].bytes, tables)
  }

  ghost predicate AllRecorded(list: seq<HeapRecord>, n: nat, tables: TableMap)
    requires n <= |list|
  {
    forall name | name in tables :: RecordedBefore(list, n, tables[name])
  }

  ghost predicate RecordedBefore(list: seq<HeapRecord>, n: nat, m: TableMetadata)
    requires n <= |list|
  {
    exists k :: 0 <= k < n && Describes(list[k].bytes, m)
  }

  ghost predicate IdsAre(tables: TableMap, ids: set<u32>) {
    && (forall name | name in tables :: tables[name].id in ids)
    && (forall id | id in ids :: IdTaken(tables, id))
  }

  ghost predicate IdTaken(tables: TableMap, id: u32) {
    exists name :: name in tables && tables[name].id == id
  }

  ghost predicate BytesDistinct(list: seq<HeapRecord>, n: nat)
    requires n <= |list|
  {
    forall j, k | 0 <= j < k < n :: list[j].bytes != list[k].bytes
  }

  lemma RecordsAllMore(list: seq<HeapRecord>, n: nat, tables: TableMap, all: TableMap)
    requires n < |list| && RecordsAll(list, n, tables) && RecordsSome(list[n].bytes, all)
    requires forall name | name in tables :: name in all && all[name] == tables[name]
    ensures RecordsAll(list, n + 1, all)
  {
    hide RecordsSome;
    forall k | 0 <= k < n ensures RecordsSome(list[k].bytes, all) {
      StillRecorded(list[k].bytes, tables, all);
    }
  }

  lemma StillRecordedBefore(list: seq<HeapRecord>, n: nat, m: TableMetadata)
    requires n < |list|
    ensures RecordedBefore(list, n, m) || Describes(list[n].bytes, m) ==> RecordedBefore(list, n + 1, m)
  {
    hide Describes;
  }

  lemma AllRecordedMore(list: seq<HeapRecord>, n: nat, tables: TableMap, all: TableMap, m: TableMetadata)
    requires n < |list| && AllRecorded(list, n, tables) && Describes(list[n].bytes, m)
    requires forall name | name in all :: all[name] == m || (name in tables && tables[name] == all[name])
    ensures AllRecorded(list, n + 1, all)
  {
    hide Describes, RecordedBefore;
    forall name | name in all ensures RecordedBefore(list, n + 1, all[name]) {
      StillRecordedBefore(list, n, all[name]);
    }
  }

  /** A record whose table is new differs from every record before it. */
  lemma {:induction false} NewBytes(view: PageMap, list: seq<HeapRecord>, n: nat, tables: TableMap, m: TableMetadata)
    requires n < |list| && Describes(list[n].bytes, m) && m.schema.name !in tables && BytesDistinct(list, n)
    requires RecordsAll(list, n, tables) && NamedAndOpen(view, tables)
    ensures BytesDistinct(list, n + 1)
  {
    hide Describes;
    forall k | 0 <= k < n ensures list[k].bytes != list[n].bytes {
      assert RecordsSome(list[k].bytes, tables);
      var name :| name in tables && Describes(list[k].bytes, tables[name]);
      if list[k].bytes == list[n].bytes {
        RecordIsUnique(list[k].bytes, tables[name], m);
        assert false;
      }
    }
  }

  lemma HighestOneMore(tables: TableMap, highest: u32, m: TableMetadata)
    requires Highest(tables, highest) && m.schema.name !in tables
    ensures Highest(tables[m.schema.name := m], if m.id > highest then m.id else highest)
  {
    var all := tables[m.schema.name := m];
    assert all[m.schema.name] == m;
    if m.id <= highest && tables != map[] {
      var name :| name in tables && tables[name].id == highest;
      assert all[name].id == highest;
    }
  }

  lemma StillTaken(tables: TableMap, all: TableMap, id: u32)
    requires IdTaken(tables, id) && forall name | name in tables :: name in all && all[name] == tables[name]
    ensures IdTaken(all, id)
  {
    var name :| name in tables && tables[name].id == id;
    assert all[name].id == id;
  }

  lemma NameTakesId(tables: TableMap, name: Text)
    requires name in tables
    ensures IdTaken(tables, tables[name].id)
  {
  }

  lemma IdsAreMore(tables: TableMap, all: TableMap, ids: set<u32>, m: TableMetadata)
    requires IdsAre(tables, ids) && m.schema.name !in tables && all == tables[m.schema.name := m]
    ensures IdsAre(all, ids + {m.id})
    ensures m.id !in ids && IdsDistinct(tables) ==> IdsDistinct(all)
  {
    NameTakesId(all, m.schema.name);
    hide IdTaken;
    forall id | id in ids ensures IdTaken(all, id) {
      StillTaken(tables, all, id);
    }
  }

  lemma {:induction false} LoadedOneMore(view: PageMap, list: seq<HeapRecord>, n: nat, tables: TableMap, ids: set<u32>, highest: u32, m: TableMetadata)
    requires n < |list| && Loaded(view, list, n, tables, ids, highest)
    requires Describes(list[n].bytes, m) && m.id !in ids && m.schema.name !in tables && Opens(view, m.heapFirstPage)
    ensures Loaded(view, list, n + 1, tables[m.schema.name := m], ids + {m.id}, if m.id > highest then m.id else highest)
  {
    var all := tables[m.schema.name := m];
    hide Describes, RecordsSome, Opens, RecordsAll, AllRecorded, IdsAre, IdsDistinct, Highest, BytesDistinct, NamedAndOpen;
    TableIsRecorded(list[n].bytes, all, m.schema.name);
    NamedMore(view, tables, all, m);
    RecordsAllMore(list, n, tables, all);
    AllRecordedMore(list, n, tables, all, m);
    NewBytes(view, list, n, tables, m);
    HighestOneMore(tables, highest, m);
    IdsAreMore(tables, all, ids, m);
  }

  lemma NamedMore(view: PageMap, tables: TableMap, all: TableMap, m: TableMetadata)
    requires NamedAndOpen(view, tables) && m.schema.name !in tables && all == tables[m.schema.name := m] && Opens(view, m.heapFirstPage)
    ensures NamedAndOpen(view, all)
    ensures forall name | name in tables :: name in all && all[name] == tables[name]
    ensures forall name | name in all :: all[name] == m || (name in tables && tables[name] == all[name])
  {
    hide Opens;
  }

  lemma RowListed(list: seq<HeapRecord>, rows: map<Rid, seq<byte>>, rid: Rid) returns (k: nat)
    requires Lists(list, rows) && rid in rows
    ensures k < |list| && list[k] == HeapRecord(rid, rows[rid])
  {
    assert HeapRecord(rid, rows[rid]) in list;
    k :| 0 <= k < |list| && list[k] == HeapRecord(rid, rows[rid]);
  }

  lemma ListedRecord(list: seq<HeapRecord>, rows: map<Rid, seq<byte>>, m: TableMetadata)
    requires RecordedBefore(list, |list|, m) && Lists(list, rows)
    ensures HasRecord(rows, m)
  {
    hide Describes;
    var k :| 0 <= k < |list| && Describes(list[k].bytes, m);
    assert list[k] in list;
    RowIsRecord(rows, list[k].rid, m);
  }

  lemma {:induction false} RowsDistinct(list: seq<HeapRecord>, rows: map<Rid, seq<byte>>, a: Rid, b: Rid)
    requires Lists(list, rows) && BytesDistinct(list, |list|) && a in rows && b in rows && rows[a] == rows[b]
    ensures a == b
  {
    hide Lists;
    var j := RowListed(list, rows, a);
    var k := RowListed(list, rows, b);
  }

  /** All records loaded: the tables are exactly what the rows register. */
  lemma {:induction false} LoadedAll(view: PageMap, list: seq<HeapRecord>, rows: map<Rid, seq<byte>>, tables: TableMap, ids: set<u32>, highest: u32)
    requires Loaded(view, list, |list|, tables, ids, highest) && Lists(list, rows)
    ensures Registers(rows, tables)
  {
    hide Describes, Opens, Highest, IdsDistinct, IdsAre, RecordsSome, Lists, RecordedBefore, HasRecord, BytesDistinct;
    forall rid | rid in rows ensures RecordsSome(rows[rid], tables) {
      var k := RowListed(list, rows, rid);
    }
    hide RecordsAll;
    forall name | name in tables ensures HasRecord(rows, tables[name]) {
      ListedRecord(list, rows, tables[name]);
    }
    hide AllRecorded;
    forall a, b | a in rows && b in rows && rows[a] == rows[b] ensures a == b {
      RowsDistinct(list, rows, a, b);
    }
  }

  // ----- Why opening refuses -----

  lemma {:induction false} BadRecordRefuses(list: seq<HeapRecord>, rows: map<Rid, seq<byte>>, k: nat, tables: TableMap)
    requires k < |list| && Lists(list, rows) && Registers(rows, tables)
    ensures exists m :: Describes(list[k].bytes, m)
  {
    hide Describes;
    assert list[k] in list;
    assert RecordsSome(rows[list[k].rid], tables);
  }

  /** A listed record names its own table in every map that the rows register. */
  lemma {:induction false} ListedIsTable(list: seq<HeapRecord>, rows: map<Rid, seq<byte>>, k: nat, m: TableMetadata, tables: TableMap)
    requires k < |list| && Lists(list, rows) && Registers(rows, tables) && Describes(list[k].bytes, m)
    ensures m.schema.name in tables && tables[m.schema.name] == m
  {
    hide Describes, Registers;
    assert list[k] in list;
    RowIsTable(rows, tables, list[k].rid, m);
  }

  /** Two registered records never name the same id or the same table. */
  lemma {:induction false} RecordsDiffer(list: seq<HeapRecord>, rows: map<Rid, seq<byte>>, j: nat, k: nat, m: TableMetadata, n: TableMetadata, tables: TableMap)
    requires j < k < |list| && Lists(list, rows) && DistinctRids(list)
    requires Describes(list[j].bytes, m) && Describes(list[k].bytes, n)
    requires Registers(rows, tables) && IdsDistinct(tables)
    ensures m.id != n.id && m.schema.name != n.schema.name
  {
    assert list[j] in list && list[k] in list;
    assert list[j].bytes != list[k].bytes;
    assert m != n;
    hide Describes, Lists, DistinctRids;
    ListedIsTable(list, rows, j, m, tables);
    ListedIsTable(list, rows, k, n, tables);
  }

  /** While the rows register some tables at all, the next record repeats no id and no name. */
  lemma {:induction false} NextRecordIsNew(view: PageMap, list: seq<HeapRecord>, rows: map<Rid, seq<byte>>, n: nat, tables: TableMap, ids: set<u32>, highest: u32, m: TableMetadata, others: TableMap)
    requires n < |list| && Loaded(view, list, n, tables, ids, highest) && Describes(list[n].bytes, m)
    requires Lists(list, rows) && DistinctRids(list) && Registers(rows, others) && IdsDistinct(others)
    ensures m.id !in ids && m.schema.name !in tables
  {
    hide Describes, Registers, Lists, DistinctRids, RecordsAll, Highest, BytesDistinct, Opens, IdsDistinct;
    assert m.id in ids ==> IdTaken(tables, m.id);
    assert m.schema.name in tables ==> tables[m.schema.name].schema.name == m.schema.name;
    forall name | name in tables ensures tables[name].id != m.id && tables[name].schema.name != m.schema.name {
      assert RecordedBefore(list, n, tables[name]);
      var j :| 0 <= j < n && Describes(list[j].bytes, tables[name]);
      RecordsDiffer(list, rows, j, n, tables[name], m, others);
    }
  }

  /** Whatever handle opened it, a catalog read back from an agreeing database agrees with it. */
  lemma {:induction false} OpenedAgrees(view: PageMap, root: Option<PageId>, pages: seq<PageId>, tables: TableMap, next: u32, read: TableMap, readNext: u32)
    requires CatalogOk(view, root, pages, tables, next) && OpensAs(view, root, read, readNext)
    ensures read == tables && readNext == next && ChainFrom(view, root.value) == pages
  {
    CatalogReopens(view, root, pages, tables, next);
    hide CatalogOk, OpensAs, Opens, ChainFrom;
    OpensOneWay(view, root, tables, next, read, readNext);
  }
}
