/**
 * A whole database at work: tables are made, rows stored and removed in any of them and in any order, and
 * after the database is closed and opened again every table gives exactly its own rows.
 */
module Databases {
  import opened Wrappers
  import opened Bytes
  import opened Utf8Text
  import opened Pages
  import opened PageModel
  import opened PageLayout
  import opened Disk
  import opened BufferPools
  import opened HeapModel
  import opened HeapFiles
  import HeapHistory
  import opened Columns
  import opened Rows
  import opened Schemas
  import opened CatalogRecords
  import opened CatalogModel
  import CatalogHistory
  import opened Catalogs
  import opened EndToEnd
  import opened FullStack

  datatype DbOp =
    | MakeTable(schema: TableSchema)
    | StoreIn(table: Text, values: seq<Value>)
    | RemoveFrom(table: Text, rid: Rid)

  /** The heap of one table, and the values kept for each address. */
  datatype TableRows = TableRows(heap: Heap, stored: StoredRows)

  /** The catalog with the next page id, and the rows of every table. */
  datatype DbState = DbState(catalog: CatalogHistory.CatalogState, tables: map<Text, TableRows>)

  ghost predicate OpOk(op: DbOp) {
    op.MakeTable? ==> SchemaValid(op.schema)
  }

  ghost predicate RowsInv(s: DbState, name: Text)
    requires name in s.tables
  {
    HeapHistory.StateInv(HeapHistory.HeapState(s.tables[name].heap, s.catalog.heap.nextPage))
  }

  ghost predicate DbInv(s: DbState) {
    && CatalogHistory.CatalogStateInv(s.catalog) && s.tables.Keys == s.catalog.tables.Keys
    && forall name | name in s.tables :: RowsInv(s, name)
  }

  /** One table as a state of its own. */
  ghost function TableOf(s: DbState, name: Text): TableState
    requires name in s.tables
  {
    TableState(HeapHistory.HeapState(s.tables[name].heap, s.catalog.heap.nextPage), s.tables[name].stored)
  }

  /** The database after one of its tables came to `t`. */
  ghost function WithTable(s: DbState, name: Text, t: TableState): DbState {
    DbState(s.catalog.(heap := s.catalog.heap.(nextPage := t.rows.nextPage)), s.tables[name := TableRows(t.rows.heap, t.stored)])
  }

  ghost function DbStep(s: DbState, op: DbOp): DbState
    requires DbInv(s) && OpOk(op)
  {
    match op
    case MakeTable(schema) =>
      var t := CatalogHistory.CreateStep(s.catalog, schema);
      if t.tables == s.catalog.tables then s.(catalog := t)
      else DbState(t, s.tables[schema.name := TableRows(Heap([s.catalog.heap.nextPage], [EmptyPage]), map[])])
    case StoreIn(name, values) =>
      if name !in s.tables then s
      else WithTable(s, name, StoreStep(s.catalog.tables[name].schema.columns, TableOf(s, name), values))
    case RemoveFrom(name, rid) =>
      if name !in s.tables then s else WithTable(s, name, RemoveStep(TableOf(s, name), rid))
  }

  lemma LaterInv(h: Heap, a: PageId, b: PageId)
    requires HeapHistory.StateInv(HeapHistory.HeapState(h, a)) && a <= b
    ensures HeapHistory.StateInv(HeapHistory.HeapState(h, b))
  {
    hide HeapInv;
  }

  lemma OthersLater(s: DbState, t: DbState, name: Text)
    requires s.catalog.heap.nextPage <= t.catalog.heap.nextPage
    requires forall other | other in s.tables && other != name :: RowsInv(s, other) && other in t.tables && t.tables[other] == s.tables[other]
    ensures forall other | other in s.tables && other != name :: RowsInv(t, other)
  {
    hide HeapHistory.StateInv;
    forall other | other in s.tables && other != name ensures RowsInv(t, other) {
      assert RowsInv(s, other);
      LaterInv(s.tables[other].heap, s.catalog.heap.nextPage, t.catalog.heap.nextPage);
    }
  }

  lemma {:induction false} WithTableInv(s: DbState, name: Text, t: TableState)
    requires DbInv(s) && name in s.tables && HeapHistory.StateInv(t.rows) && s.catalog.heap.nextPage <= t.rows.nextPage
    ensures DbInv(WithTable(s, name, t))
  {
    hide HeapHistory.StateInv, RowsInv;
    LaterInv(s.catalog.heap.heap, s.catalog.heap.nextPage, t.rows.nextPage);
    OthersLater(s, WithTable(s, name, t), name);
    assert RowsInv(WithTable(s, name, t), name) by {
      NamedInv(s, name, t);
    }
  }

  lemma NamedInv(s: DbState, name: Text, t: TableState)
    requires HeapHistory.StateInv(t.rows)
    ensures RowsInv(WithTable(s, name, t), name)
  {
    hide HeapHistory.StateInv;
  }

  lemma {:induction false} StorePages(columns: seq<ColumnSchema>, s: TableState, values: seq<Value>)
    requires HeapHistory.StateInv(s.rows)
    ensures s.rows.nextPage <= StoreStep(columns, s, values).rows.nextPage
  {
    hide HeapHistory.StateInv, HeapHistory.StepHeap, HeapHistory.IssuedInStep, Takes, EncodedRow;
    if Takes(columns, s, values) {
      TakesEncodable(columns, s, values);
      CatalogHistory.NextPageGrows(s.rows, HeapHistory.InsertRecord(EncodedRow(columns, values)));
    }
  }

  lemma TakesEncodable(columns: seq<ColumnSchema>, s: TableState, values: seq<Value>)
    requires Takes(columns, s, values)
    ensures Encodable(columns, values)
  {
    hide Encodable, EncodedRow;
  }

  lemma {:induction false} RemoveKeeps(s: TableState, rid: Rid)
    requires HeapHistory.StateInv(s.rows)
    ensures HeapHistory.StateInv(RemoveStep(s, rid).rows) && s.rows.nextPage <= RemoveStep(s, rid).rows.nextPage
  {
    hide HeapHistory.StateInv, HeapHistory.StepHeap;
    HeapHistory.StepKeeps(s.rows, HeapHistory.DeleteRow(rid));
    CatalogHistory.NextPageGrows(s.rows, HeapHistory.DeleteRow(rid));
  }

  /** A created table is new, and its heap takes the next page. */
  lemma {:induction false} MadeOrNot(s: CatalogHistory.CatalogState, schema: TableSchema)
    requires CatalogHistory.CatalogStateInv(s) && SchemaValid(schema)
    ensures var t := CatalogHistory.CreateStep(s, schema);
      && CatalogHistory.CatalogStateInv(t) && s.heap.nextPage <= t.heap.nextPage
      && (t.tables != s.tables ==>
            && schema.name !in s.tables && t.tables == s.tables[schema.name := CatalogHistory.NextTable(s, schema)]
            && s.heap.nextPage < t.heap.nextPage)
  {
    hide SchemaValid, RecordBytes, HeapHistory.StateInv, HeapHistory.StepHeap, HeapHistory.Accepts, CatalogHistory.StopsEarly,
      CatalogHistory.RecordSize;
    CatalogHistory.CreateKeeps(s, schema);
    CatalogHistory.FailedCreation(s, schema);
    if !CatalogHistory.StopsEarly(s, schema) {
      GoesAhead(s, schema);
      var m := CatalogHistory.NextTable(s, schema);
      CatalogHistory.NextPageGrows(CatalogHistory.HeapMade(s).heap, HeapHistory.InsertRecord(RecordBytes(m)));
    }
  }

  lemma GoesAhead(s: CatalogHistory.CatalogState, schema: TableSchema)
    requires SchemaValid(schema) && !CatalogHistory.StopsEarly(s, schema)
    ensures s.heap.nextPage < U32_MAX && s.nextId < U32_MAX
  {
    hide SchemaValid, CatalogHistory.RecordSize;
  }

  lemma {:induction false} MakeKeeps(s: DbState, schema: TableSchema)
    requires DbInv(s) && SchemaValid(schema)
    ensures DbInv(DbStep(s, MakeTable(schema)))
  {
    hide SchemaValid, CatalogHistory.CatalogStateInv, CatalogHistory.CreateStep, RowsInv;
    MadeOrNot(s.catalog, schema);
    hide DbInv;
    var u := DbStep(s, MakeTable(schema));
    if u.catalog.tables == s.catalog.tables {
      NoTableMade(s, u);
    } else {
      TableMade(s, u, schema.name, s.catalog.heap.nextPage);
    }
  }

  lemma {:induction false} NoTableMade(s: DbState, t: DbState)
    requires DbInv(s) && CatalogHistory.CatalogStateInv(t.catalog) && s.catalog.heap.nextPage <= t.catalog.heap.nextPage
    requires t.tables == s.tables && t.catalog.tables == s.catalog.tables
    ensures DbInv(t)
  {
    hide CatalogHistory.CatalogStateInv, RowsInv;
    forall name | name in t.tables ensures RowsInv(t, name) {
      KeptLater(s, t, name);
    }
  }

  lemma {:induction false} TableMade(s: DbState, t: DbState, name: Text, page: PageId)
    requires DbInv(s) && CatalogHistory.CatalogStateInv(t.catalog) && s.catalog.heap.nextPage <= t.catalog.heap.nextPage
    requires t.tables == s.tables[name := TableRows(Heap([page], [EmptyPage]), map[])] && page < t.catalog.heap.nextPage
    requires t.catalog.tables.Keys == s.catalog.tables.Keys + {name}
    ensures DbInv(t)
  {
    hide CatalogHistory.CatalogStateInv, RowsInv;
    OthersLater(s, t, name);
    NewTableInv(t, name, page);
  }

  lemma KeptLater(s: DbState, t: DbState, name: Text)
    requires name in s.tables && RowsInv(s, name) && s.catalog.heap.nextPage <= t.catalog.heap.nextPage && t.tables == s.tables
    ensures RowsInv(t, name)
  {
    hide HeapHistory.StateInv;
    LaterInv(s.tables[name].heap, s.catalog.heap.nextPage, t.catalog.heap.nextPage);
  }

  lemma NewTableInv(t: DbState, name: Text, page: PageId)
    requires name in t.tables && t.tables[name].heap == Heap([page], [EmptyPage]) && page < t.catalog.heap.nextPage
    ensures RowsInv(t, name)
  {
    OnePageHeap(page);
    hide HeapInv;
  }

  /** Every step keeps the invariant. */
  lemma {:induction false} DbStepKeeps(s: DbState, op: DbOp)
    requires DbInv(s) && OpOk(op)
    ensures DbInv(DbStep(s, op))
  {
    match op {
      case MakeTable(schema) =>
        hide *;
        MakeKeeps(s, schema);
      case StoreIn(name, values) =>
        if name in s.tables {
          assert RowsInv(s, name);
          hide CatalogHistory.CatalogStateInv, HeapHistory.StateInv, DbInv, WithTable, StoreStep;
          StoreKeepsInv(s.catalog.tables[name].schema.columns, TableOf(s, name), values);
          StorePages(s.catalog.tables[name].schema.columns, TableOf(s, name), values);
          WithTableInv(s, name, StoreStep(s.catalog.tables[name].schema.columns, TableOf(s, name), values));
        }
      case RemoveFrom(name, rid) =>
        if name in s.tables {
          assert RowsInv(s, name);
          hide CatalogHistory.CatalogStateInv, HeapHistory.StateInv, DbInv, WithTable, RemoveStep;
          RemoveKeeps(TableOf(s, name), rid);
          WithTableInv(s, name, RemoveStep(TableOf(s, name), rid));
        }
    }
  }

  ghost function RunDb(s: DbState, ops: seq<DbOp>): (t: DbState)
    requires DbInv(s) && forall i | 0 <= i < |ops| :: OpOk(ops[i])
    ensures DbInv(t)
    decreases |ops|
  {
    if ops == [] then s
    else
      DbStepKeeps(s, ops[0]);
      RunDb(DbStep(s, ops[0]), ops[1..])
  }

  /** A new database with an empty catalog. */
  ghost const FreshDb := DbState(CatalogHistory.FreshCatalog, map[])

  lemma FreshDbInv()
    ensures DbInv(FreshDb) && AllKept(FreshDb)
  {
    CatalogHistory.FreshCatalogInv();
    hide HeapHistory.StateInv;
  }

  // ----- What a run keeps -----

  /** The values of a table are kept at exactly the addresses of its heap's rows. */
  ghost predicate Kept(s: DbState, name: Text)
    requires name in s.tables && RowsInv(s, name)
  {
    KeptAtRows(TableOf(s, name))
  }

  ghost predicate AllKept(s: DbState)
    requires DbInv(s)
  {
    forall name | name in s.tables :: Kept(s, name)
  }

  /** The row is there, with these values. */
  predicate HasRow(s: DbState, name: Text, rid: Rid, values: seq<Value>) {
    name in s.tables && rid in s.tables[name].stored && s.tables[name].stored[rid] == values
  }

  lemma KeptElsewhere(s: DbState, t: DbState, name: Text)
    requires name in s.tables && name in t.tables && t.tables[name] == s.tables[name] && RowsInv(s, name) && RowsInv(t, name)
    ensures Kept(s, name) ==> Kept(t, name)
  {
    hide HeapHistory.StateInv, HeapModel.Rows;
  }

  /** A step that leaves all tables but `name` alone, and keeps `name` in order, keeps all of them. */
  lemma {:induction false} KeptThrough(s: DbState, t: DbState, name: Text)
    requires DbInv(s) && DbInv(t) && AllKept(s) && s.tables.Keys <= t.tables.Keys <= s.tables.Keys + {name}
    requires forall other | other in s.tables && other != name :: t.tables[other] == s.tables[other]
    requires name in t.tables ==> Kept(t, name)
    ensures AllKept(t)
  {
    hide CatalogHistory.CatalogStateInv, RowsInv, Kept;
    forall other | other in t.tables ensures Kept(t, other) {
      if other != name {
        KeptElsewhere(s, t, other);
      }
    }
  }

  lemma {:induction false} RemovedKept(s: TableState, rid: Rid)
    requires HeapHistory.StateInv(s.rows) && KeptAtRows(s)
    ensures HeapHistory.StateInv(RemoveStep(s, rid).rows) && KeptAtRows(RemoveStep(s, rid))
  {
    IssuesOne(s.rows, HeapHistory.DeleteRow(rid));
    HeapHistory.DeleteRows(s.rows, rid);
    hide HeapHistory.StateInv, HeapHistory.StepHeap, HeapModel.Rows, HeapShape;
  }

  lemma {:induction false} NewTableKept(page: PageId, next: PageId)
    requires HeapHistory.StateInv(HeapHistory.HeapState(Heap([page], [EmptyPage]), next))
    ensures KeptAtRows(TableState(HeapHistory.HeapState(Heap([page], [EmptyPage]), next), map[]))
  {
    var h := Heap([page], [EmptyPage]);
    InvHasShape(h);
    assert IndexOf([page], page) == 0;
    assert forall rid :: !Holds(h, rid);
    hide HeapInv, HeapShape, HeapModel.Rows, Holds;
  }

  /** The operation works on a table that is not there. */
  predicate Misses(s: DbState, op: DbOp) {
    (op.StoreIn? || op.RemoveFrom?) && op.table !in s.tables
  }

  lemma MissesChangesNothing(s: DbState, op: DbOp)
    requires DbInv(s) && Misses(s, op)
    ensures DbStep(s, op) == s
  {
    hide DbInv, WithTable, StoreStep, RemoveStep;
  }

  /** Every row of `s` is in `t`, but the one that `op` removes. */
  ghost predicate RowsStay(s: DbState, t: DbState, op: DbOp) {
    forall name, rid, values :: HasRow(s, name, rid, values) && op != RemoveFrom(name, rid) ==> HasRow(t, name, rid, values)
  }

  /** Only `name` changed, and it has every row that it had, but the one that `op` removes. */
  lemma OneTableStays(s: DbState, t: DbState, name: Text, op: DbOp)
    requires name in s.tables && name in t.tables && t.tables == s.tables[name := t.tables[name]]
    requires
      || Extends(t.tables[name].stored, s.tables[name].stored)
      || (op.RemoveFrom? && op.table == name && t.tables[name].stored == s.tables[name].stored - {op.rid})
    ensures RowsStay(s, t, op)
  {
  }

  lemma AllTablesStay(s: DbState, t: DbState, op: DbOp)
    requires forall name | name in s.tables :: name in t.tables && t.tables[name] == s.tables[name]
    ensures RowsStay(s, t, op)
  {
  }

  lemma {:induction false} MakeKeepsRows(s: DbState, schema: TableSchema)
    requires DbInv(s) && SchemaValid(schema) && AllKept(s)
    ensures var t := DbStep(s, MakeTable(schema));
      DbInv(t) && AllKept(t) && RowsStay(s, t, MakeTable(schema))
  {
    MakeKeeps(s, schema);
    MadeOrNot(s.catalog, schema);
    hide SchemaValid, CatalogHistory.CatalogStateInv, CatalogHistory.CreateStep, RowsStay;
    var t := DbStep(s, MakeTable(schema));
    AllTablesStay(s, t, MakeTable(schema));
    if schema.name in s.tables {
      assert RowsInv(s, schema.name) && Kept(s, schema.name) && RowsInv(t, schema.name);
      hide RowsInv, Kept;
      KeptElsewhere(s, t, schema.name);
    } else if schema.name in t.tables {
      assert RowsInv(t, schema.name);
      hide KeptAtRows;
      NewTableKept(s.catalog.heap.nextPage, t.catalog.heap.nextPage);
      assert Kept(t, schema.name);
      hide RowsInv, Kept;
    }
    KeptThrough(s, t, schema.name);
  }

  lemma {:induction false} ChangedKept(s: DbState, name: Text, u: TableState)
    requires name in s.tables && HeapHistory.StateInv(u.rows) && KeptAtRows(u)
    ensures RowsInv(WithTable(s, name, u), name) && Kept(WithTable(s, name, u), name)
  {
    hide HeapHistory.StateInv, KeptAtRows;
    assert TableOf(WithTable(s, name, u), name) == u;
  }

  lemma {:induction false} TableStepKeepsRows(s: DbState, name: Text, u: TableState, op: DbOp)
    requires DbInv(s) && AllKept(s) && name in s.tables && s.catalog.heap.nextPage <= u.rows.nextPage
    requires HeapHistory.StateInv(u.rows) && KeptAtRows(u)
    requires
      || Extends(u.stored, s.tables[name].stored)
      || (op.RemoveFrom? && op.table == name && u.stored == s.tables[name].stored - {op.rid})
    ensures DbInv(WithTable(s, name, u)) && AllKept(WithTable(s, name, u)) && RowsStay(s, WithTable(s, name, u), op)
  {
    hide DbInv, AllKept, HeapHistory.StateInv, KeptAtRows, RowsStay, Extends, RowsInv, Kept;
    var t := WithTable(s, name, u);
    WithTableInv(s, name, u);
    ChangedKept(s, name, u);
    OneTableStays(s, t, name, op);
    KeptThrough(s, t, name);
  }

  lemma {:induction false} StoreKeepsRows(s: DbState, name: Text, list: seq<Value>)
    requires DbInv(s) && name in s.tables && AllKept(s)
    ensures var t := DbStep(s, StoreIn(name, list));
      DbInv(t) && AllKept(t) && RowsStay(s, t, StoreIn(name, list))
  {
    assert RowsInv(s, name) && Kept(s, name);
    hide DbInv, AllKept, HeapHistory.StateInv, StoreStep, KeptAtRows, Extends, RowsStay, WithTable;
    var columns := s.catalog.tables[name].schema.columns;
    StoredAtNewAddress(columns, TableOf(s, name), list);
    StorePages(columns, TableOf(s, name), list);
    TableStepKeepsRows(s, name, StoreStep(columns, TableOf(s, name), list), StoreIn(name, list));
  }

  lemma {:induction false} RemoveKeepsRows(s: DbState, name: Text, gone: Rid)
    requires DbInv(s) && name in s.tables && AllKept(s)
    ensures var t := DbStep(s, RemoveFrom(name, gone));
      DbInv(t) && AllKept(t) && RowsStay(s, t, RemoveFrom(name, gone))
  {
    assert RowsInv(s, name) && Kept(s, name);
    hide DbInv, AllKept, HeapHistory.StateInv, RemoveStep, KeptAtRows, Extends, RowsStay, WithTable;
    RemovedKept(TableOf(s, name), gone);
    RemoveKeeps(TableOf(s, name), gone);
    RemovedRows(TableOf(s, name), gone);
    assert DbStep(s, RemoveFrom(name, gone)) == WithTable(s, name, RemoveStep(TableOf(s, name), gone));
    hide DbStep, TableOf, RowsInv, Kept;
    TableStepKeepsRows(s, name, RemoveStep(TableOf(s, name), gone), RemoveFrom(name, gone));
  }

  lemma RemovedRows(s: TableState, rid: Rid)
    requires HeapHistory.StateInv(s.rows)
    ensures RemoveStep(s, rid).stored == s.stored - {rid}
  {
    hide HeapHistory.StateInv, HeapHistory.StepHeap;
  }

  lemma {:induction false} RowsStayInStep(s: DbState, op: DbOp)
    requires DbInv(s) && OpOk(op) && AllKept(s)
    ensures DbInv(DbStep(s, op)) && AllKept(DbStep(s, op)) && RowsStay(s, DbStep(s, op), op)
  {
    hide DbInv, AllKept, DbStep, RowsStay;
    DbStepKeeps(s, op);
    AllTablesStay(s, s, op);
    if Misses(s, op) {
      MissesChangesNothing(s, op);
    } else {
      match op
      case MakeTable(schema) => MakeKeepsRows(s, schema);
      case StoreIn(name, values) => StoreKeepsRows(s, name, values);
      case RemoveFrom(name, rid) => RemoveKeepsRows(s, name, rid);
    }
  }

  lemma OneRowStays(s: DbState, t: DbState, op: DbOp, name: Text, rid: Rid, values: seq<Value>)
    requires RowsStay(s, t, op) && HasRow(s, name, rid, values) && op != RemoveFrom(name, rid)
    ensures HasRow(t, name, rid, values)
  {
    hide HasRow;
  }

  /** No operation of the run removes this row. */
  predicate NeverRemoved(ops: seq<DbOp>, name: Text, rid: Rid) {
    forall i | 0 <= i < |ops| :: ops[i] != RemoveFrom(name, rid)
  }

  /** Over any run, a row of any table stays at its address with its values until it is removed from that table. */
  lemma {:induction false} RowStaysUntilRemoved(s: DbState, ops: seq<DbOp>, name: Text, rid: Rid, values: seq<Value>)
    requires DbInv(s) && AllKept(s) && (forall i | 0 <= i < |ops| :: OpOk(ops[i]))
    requires HasRow(s, name, rid, values) && NeverRemoved(ops, name, rid)
    ensures AllKept(RunDb(s, ops)) && HasRow(RunDb(s, ops), name, rid, values)
    decreases |ops|
  {
    hide DbInv, AllKept, HasRow, OpOk, DbStep, RowsStay;
    if ops != [] {
      RowsStayInStep(s, ops[0]);
      OneRowStays(s, DbStep(s, ops[0]), ops[0], name, rid, values);
      RowStaysUntilRemoved(DbStep(s, ops[0]), ops[1..], name, rid, values);
    }
  }

  // ----- What each step does -----

  /** No table but `name` changed, and the catalog has the same tables. */
  ghost predicate OnlyTable(s: DbState, t: DbState, name: Text) {
    && t.catalog.tables == s.catalog.tables && t.catalog.nextId == s.catalog.nextId && t.catalog.heap.heap == s.catalog.heap.heap
    && t.tables.Keys == s.tables.Keys && forall other | other in s.tables && other != name :: t.tables[other] == s.tables[other]
  }

  /** Removing takes exactly the addressed row from the table, if it has one there, and changes nothing else. */
  lemma {:induction false} StepRemoves(s: DbState, name: Text, rid: Rid)
    requires DbInv(s)
    ensures var t := DbStep(s, RemoveFrom(name, rid));
      && OnlyTable(s, t, name) && t.catalog.heap.nextPage == s.catalog.heap.nextPage
      && (name in s.tables ==> t.tables[name].stored == s.tables[name].stored - {rid})
  {
    hide CatalogHistory.CatalogStateInv, HeapHistory.StateInv;
    if name in s.tables {
      assert RowsInv(s, name);
      RemovedRows(TableOf(s, name), rid);
      SamePages(TableOf(s, name), rid);
    }
    hide RemoveStep;
  }

  lemma SamePages(s: TableState, rid: Rid)
    requires HeapHistory.StateInv(s.rows)
    ensures RemoveStep(s, rid).rows.nextPage == s.rows.nextPage
  {
    HeapHistory.ShapeOf(s.rows);
    hide HeapHistory.StateInv, Holds;
  }

  /** The values can be stored in the table: they have a row, and its heap takes it. */
  ghost predicate CanStore(s: DbState, name: Text, values: seq<Value>)
    requires DbInv(s)
  {
    && name in s.tables && name in s.catalog.tables && RowsInv(s, name) && HeapInv(s.tables[name].heap)
    && var columns := s.catalog.tables[name].schema.columns;
       Encodable(columns, values) && InsertOutcome(s.tables[name].heap, EncodedRow(columns, values), s.catalog.heap.nextPage, false).Ok?
  }

  /** Storing adds the values at one new address of the table exactly when they can be stored, and otherwise changes nothing. */
  lemma {:induction false} StepStores(s: DbState, name: Text, values: seq<Value>)
    requires DbInv(s) && AllKept(s)
    ensures var t := DbStep(s, StoreIn(name, values));
      if CanStore(s, name, values) then
        var rid := InsertOutcome(s.tables[name].heap, EncodedRow(s.catalog.tables[name].schema.columns, values), s.catalog.heap.nextPage, false).value;
        OnlyTable(s, t, name) && rid !in s.tables[name].stored && t.tables[name].stored == s.tables[name].stored[rid := values]
      else t == s
  {
    hide CatalogHistory.CatalogStateInv, Encodable, EncodedRow, InsertOutcome, HeapInv, StoreStep, Takes, HeapModel.Inserted, Place,
      OnlyTable, WithTable, HeapModel.Rows;
    if name in s.tables {
      assert RowsInv(s, name) && Kept(s, name);
      OnlyTableChanged(s, name, StoreStep(s.catalog.tables[name].schema.columns, TableOf(s, name), values));
      var columns, u := s.catalog.tables[name].schema.columns, TableOf(s, name);
      StoreStepIs(columns, u.rows.heap, u.rows.nextPage, u.stored, values);
      if CanStore(s, name, values) {
        NewAddress(u, EncodedRow(columns, values));
      } else {
        SameTable(s, name);
      }
    }
  }

  lemma OnlyTableChanged(s: DbState, name: Text, u: TableState)
    requires name in s.tables
    ensures OnlyTable(s, WithTable(s, name, u), name) && WithTable(s, name, u).tables[name].stored == u.stored
  {
  }

  lemma SameTable(s: DbState, name: Text)
    requires name in s.tables
    ensures WithTable(s, name, TableOf(s, name)) == s
  {
  }

  lemma {:induction false} NewAddress(u: TableState, row: seq<byte>)
    requires HeapHistory.StateInv(u.rows) && KeptAtRows(u) && InsertOutcome(u.rows.heap, row, u.rows.nextPage, false).Ok?
    ensures InsertOutcome(u.rows.heap, row, u.rows.nextPage, false).value !in u.stored
  {
    hide HeapInv, HeapShape, InsertOutcome, HeapModel.Rows, HeapHistory.StepHeap, HeapHistory.Accepts, HeapHistory.IssuedInStep;
    OutcomeIsStep(u.rows.heap, row, u.rows.nextPage);
    OutcomeIsIssued(u.rows.heap, row, u.rows.nextPage);
    HeapHistory.InsertRows(u.rows, row);
  }

  /** The table can be made: its name is new, an id and a page are left, and its record is small enough for the catalog's heap, which takes it. */
  ghost predicate CanMake(s: DbState, schema: TableSchema)
    requires DbInv(s) && SchemaValid(schema)
  {
    && schema.name !in s.tables && s.catalog.nextId < 0xFFFF_FFFF && 20 + |DeclarationBytes(schema)| <= 8152
    && s.catalog.heap.nextPage < 0xFFFF_FFFF && HeapInv(s.catalog.heap.heap)
    && var m := TableMetadata(s.catalog.nextId, schema, s.catalog.heap.nextPage);
       MetadataValid(m) && InsertOutcome(s.catalog.heap.heap, RecordBytes(m), s.catalog.heap.nextPage + 1, false).Ok?
  }

  /** Making a table adds it, without rows, under the next id and at the next page, exactly when it can be made; all other tables stay. */
  lemma {:induction false} StepMakes(s: DbState, schema: TableSchema)
    requires DbInv(s) && SchemaValid(schema)
    ensures var t, page := DbStep(s, MakeTable(schema)), s.catalog.heap.nextPage;
      if CanMake(s, schema) then
        && t.catalog.tables == s.catalog.tables[schema.name := TableMetadata(s.catalog.nextId, schema, page)]
        && t.catalog.nextId == s.catalog.nextId + 1
        && t.tables == s.tables[schema.name := TableRows(Heap([page], [EmptyPage]), map[])]
      else t.tables == s.tables && t.catalog.tables == s.catalog.tables && t.catalog.nextId == s.catalog.nextId
  {
    hide SchemaValid, RecordBytes, HeapHistory.StateInv, HeapHistory.Accepts, CatalogHistory.StopsEarly, HeapInv, RowsInv,
      CatalogHistory.CreateStep, InsertOutcome, HeapHistory.StepHeap;
    CatalogHistory.FailedCreation(s.catalog, schema);
    MakesExactly(s, schema);
    assert schema.name !in s.tables ==> schema.name in CatalogHistory.CreateStep(s.catalog, schema).tables ==>
      CatalogHistory.CreateStep(s.catalog, schema).tables != s.catalog.tables;
  }

  lemma {:induction false} MakesExactly(s: DbState, schema: TableSchema)
    requires DbInv(s) && SchemaValid(schema)
    ensures CanMake(s, schema) <==>
      !CatalogHistory.StopsEarly(s.catalog, schema)
      && HeapHistory.Accepts(CatalogHistory.HeapMade(s.catalog).heap, RecordBytes(CatalogHistory.NextTable(s.catalog, schema)))
  {
    hide SchemaValid, RecordBytes, HeapHistory.Accepts, HeapInv, RowsInv, InsertOutcome;
    if !CatalogHistory.StopsEarly(s.catalog, schema) {
      OutcomeIsStep(s.catalog.heap.heap, RecordBytes(CatalogHistory.NextTable(s.catalog, schema)), s.catalog.heap.nextPage + 1);
    }
  }

  // ----- The engine takes these steps -----

  /** In `view`, table `m` has this heap, which holds these rows. */
  ghost predicate TableAt(view: PageMap, m: TableMetadata, t: TableRows) {
    && Opens(view, m.heapFirstPage) && HeapOf(view, ChainFrom(view, m.heapFirstPage)) == t.heap && HeapShape(t.heap)
    && StoredAs(m.schema.columns, HeapModel.Rows(t.heap), t.stored)
  }

  ghost predicate TablesAt(view: PageMap, tables: TableMap, rows: map<Text, TableRows>) {
    rows.Keys == tables.Keys && forall name | name in tables :: TableAt(view, tables[name], rows[name])
  }

  /** The database in the pool is in state `s`. */
  ghost predicate InState(pool: BufferPool, catalog: Catalog, s: DbState)
    reads catalog, catalog.heap, pool, pool.repr
  {
    && catalog.Valid(pool) && pool.pins == multiset{} && DbInv(s)
    && catalog.StateIn(pool) == s.catalog && TablesAt(pool.view, catalog.tables, s.tables)
  }

  lemma StillAt(view: PageMap, after: PageMap, m: TableMetadata, t: TableRows)
    requires TableAt(view, m, t) && SameHeap(view, after, m.heapFirstPage)
    ensures TableAt(after, m, t)
  {
    hide Opens, ChainFrom, HeapOf, HeapShape, StoredAs, HeapModel.Rows;
  }

  /** All tables but `name` are as they were, and `name` came to `t`. */
  lemma {:induction false} OneTableChanged(view: PageMap, after: PageMap, tables: TableMap, all: TableMap, rows: map<Text, TableRows>, name: Text, t: TableRows)
    requires TablesAt(view, tables, rows) && name in all && all.Keys == tables.Keys + {name}
    requires forall other | other in tables && other != name :: all[other] == tables[other] && SameHeap(view, after, tables[other].heapFirstPage)
    requires TableAt(after, all[name], t)
    ensures TablesAt(after, all, rows[name := t])
  {
    hide TableAt, SameHeap;
    forall other | other in all ensures TableAt(after, all[other], rows[name := t][other]) {
      if other != name {
        StillAt(view, after, tables[other], rows[other]);
      }
    }
  }

  lemma {:induction false} NoTableChanged(view: PageMap, after: PageMap, tables: TableMap, rows: map<Text, TableRows>)
    requires TablesAt(view, tables, rows)
    requires forall name | name in tables :: SameHeap(view, after, tables[name].heapFirstPage)
    ensures TablesAt(after, tables, rows)
  {
    hide TableAt, SameHeap;
    forall name | name in tables ensures TableAt(after, tables[name], rows[name]) {
      StillAt(view, after, tables[name], rows[name]);
    }
  }

  lemma NewTableAt(view: PageMap, m: TableMetadata)
    requires NewHeap(view, m.heapFirstPage)
    ensures TableAt(view, m, TableRows(Heap([m.heapFirstPage], [EmptyPage]), map[]))
  {
    NothingStored(view, m.heapFirstPage, m.schema.columns);
    hide Opens, ChainFrom, ChainOk, HeapShape, StoredAs, HeapModel.Rows;
  }

  method Make(pool: BufferPool, catalog: Catalog, schema: TableSchema, ghost s: DbState)
    requires InState(pool, catalog, s) && !pool.disk.readOnly && SchemaValid(schema)
    modifies catalog, catalog.heap, pool.repr
    ensures InState(pool, catalog, DbStep(s, MakeTable(schema))) && fresh(pool.repr - old(pool.repr))
  {
    hide Owned, BufferPool.CacheOk, BufferPool.CacheOkBut, BufferPool.ClockOk, BufferPool.PinsOk, HasRoom, DiskOk, CatalogOk,
      ChainOk, HeapOf, Calm, Busy, OthersKept, SchemaValid, CreateOutcome, NewHeap, SameHeap, TableAt, TablesAt, DbInv,
      CatalogHistory.CreateStep, CatalogHistory.StopsEarly, CatalogHistory.CatalogStateInv;
    CapacityIsPositive(pool);
    OneFrameIsEnough(pool.capacity);
    ghost var view, tables := pool.view, catalog.tables;
    DbStepKeeps(s, MakeTable(schema));
    var made := catalog.CreateTable(pool, schema);
    if made.Err? {
      NoTableChanged(view, pool.view, tables, s.tables);
    } else {
      NewTableAt(pool.view, made.value);
      OneTableChanged(view, pool.view, tables, catalog.tables, s.tables, schema.name,
        TableRows(Heap([made.value.heapFirstPage], [EmptyPage]), map[]));
    }
  }

  lemma TableIn(view: PageMap, tables: TableMap, rows: map<Text, TableRows>, name: Text)
    requires TablesAt(view, tables, rows) && name in tables
    ensures name in rows && TableAt(view, tables[name], rows[name])
  {
    hide TableAt;
  }

  lemma TableSchemaIsValid(view: PageMap, root: Option<PageId>, pages: seq<PageId>, tables: TableMap, next: u32, name: Text)
    requires CatalogOk(view, root, pages, tables, next) && name in tables
    ensures SchemaValid(tables[name].schema)
  {
    MetadataOf(view, pages, tables, name);
    hide ChainOk, Registers, IdsOk, TablesOk, SchemaValid;
  }

  lemma SameNames(view: PageMap, tables: TableMap, rows: map<Text, TableRows>)
    requires TablesAt(view, tables, rows)
    ensures rows.Keys == tables.Keys
  {
  }

  method Store(pool: BufferPool, catalog: Catalog, name: Text, values: seq<Value>, ghost s: DbState) returns (taken: Option<Rid>)
    requires InState(pool, catalog, s) && !pool.disk.readOnly
    modifies pool.repr
    ensures InState(pool, catalog, DbStep(s, StoreIn(name, values))) && fresh(pool.repr - old(pool.repr))
    ensures s.tables.Keys == s.catalog.tables.Keys
    ensures taken.Some? <==> name in s.tables && Takes(s.catalog.tables[name].schema.columns, TableOf(s, name), values)
    ensures taken.Some? ==>
      DbStep(s, StoreIn(name, values)).tables[name].stored == s.tables[name].stored[taken.value := values]
  {
    hide Owned, BufferPool.CacheOk, BufferPool.CacheOkBut, BufferPool.ClockOk, BufferPool.PinsOk, HasRoom, DiskOk, CatalogOk,
      ChainOk, HeapOf, Calm, Busy, OthersKept, SchemaValid, SameHeap, TablesAt, DbInv, Opens, ChainFrom, HeapShape, StoredAs,
      HeapModel.Rows, StoreStep, Takes;
    DbStepKeeps(s, StoreIn(name, values));
    SameNames(pool.view, catalog.tables, s.tables);
    if name !in catalog.tables {
      return None;
    }
    CapacityIsPositive(pool);
    OneFrameIsEnough(pool.capacity);
    ghost var view := pool.view;
    TableIn(view, catalog.tables, s.tables, name);
    TableSchemaIsValid(view, pool.disk.header.catalogRoot, catalog.heap.pages, catalog.tables, catalog.nextTableId, name);
    var found := catalog.OpenTableHeap(pool, name);
    var heap := found.value;
    taken := StoreRow(pool, catalog, heap, name, values, s.tables[name].stored);
    ghost var t := StoreStep(catalog.tables[name].schema.columns, TableOf(s, name), values);
    OneTableChanged(view, pool.view, catalog.tables, catalog.tables, s.tables, name, TableRows(t.rows.heap, t.stored));
  }

  method Remove(pool: BufferPool, catalog: Catalog, name: Text, rid: Rid, ghost s: DbState) returns (removed: bool)
    requires InState(pool, catalog, s) && !pool.disk.readOnly
    modifies pool.repr
    ensures InState(pool, catalog, DbStep(s, RemoveFrom(name, rid))) && fresh(pool.repr - old(pool.repr))
    ensures removed <==> name in s.tables && rid in s.tables[name].stored
  {
    hide Owned, BufferPool.CacheOk, BufferPool.CacheOkBut, BufferPool.ClockOk, BufferPool.PinsOk, HasRoom, DiskOk, CatalogOk,
      ChainOk, HeapOf, Calm, Busy, OthersKept, SchemaValid, SameHeap, TablesAt, DbInv, Opens, ChainFrom, HeapShape, StoredAs,
      HeapModel.Rows, RemoveStep;
    DbStepKeeps(s, RemoveFrom(name, rid));
    SameNames(pool.view, catalog.tables, s.tables);
    if name !in catalog.tables {
      return false;
    }
    CapacityIsPositive(pool);
    OneFrameIsEnough(pool.capacity);
    ghost var view := pool.view;
    TableIn(view, catalog.tables, s.tables, name);
    var found := catalog.OpenTableHeap(pool, name);
    var heap := found.value;
    removed := RemoveRow(pool, catalog, heap, name, rid, s.tables[name].stored);
    ghost var t := RemoveStep(TableOf(s, name), rid);
    OneTableChanged(view, pool.view, catalog.tables, catalog.tables, s.tables, name, TableRows(t.rows.heap, t.stored));
  }

  /** Carries out one operation on the database. */
  method Perform(pool: BufferPool, catalog: Catalog, op: DbOp, ghost s: DbState)
    requires InState(pool, catalog, s) && !pool.disk.readOnly && OpOk(op)
    modifies catalog, catalog.heap, pool.repr
    ensures InState(pool, catalog, DbStep(s, op)) && fresh(pool.repr - old(pool.repr))
  {
    match op {
      case MakeTable(schema) =>
        hide DbStep, InState, SchemaValid;
        Make(pool, catalog, schema, s);
      case StoreIn(name, values) =>
        hide DbStep, InState, Takes;
        var taken := Store(pool, catalog, name, values, s);
      case RemoveFrom(name, rid) =>
        hide DbStep, InState;
        var removed := Remove(pool, catalog, name, rid, s);
    }
  }

  lemma NewDatabase(pool: BufferPool, catalog: Catalog)
    requires catalog.Valid(pool) && pool.pins == multiset{} && pool.disk.header.nextPageId == 2
    requires catalog.tables == map[] && catalog.nextTableId == FIRST_TABLE_ID
    requires catalog.heap.pages == [1] && NewHeap(pool.view, 1)
    ensures InState(pool, catalog, FreshDb)
  {
    hide Owned, BufferPool.CacheOk, BufferPool.CacheOkBut, BufferPool.ClockOk, BufferPool.PinsOk, DiskOk, CatalogOk, ChainOk,
      HeapOf, NewHeap, CatalogHistory.CatalogStateInv;
    NewCatalogIsFresh(pool.view);
    FreshDbInv();
  }

  /** A new database with an empty catalog, and a run of operations on it. */
  method RunOnNewDatabase(capacity: nat, ops: seq<DbOp>)
    returns (disk: DiskManager, ghost tables: TableMap, ghost nextId: u32, ghost pages: seq<PageId>)
    requires capacity >= 1 && forall i | 0 <= i < |ops| :: OpOk(ops[i])
    ensures fresh(disk) && disk.Valid() && CatalogOk(disk.pages, disk.header.catalogRoot, pages, tables, nextId)
    ensures DbInv(FreshDb) && TablesAt(disk.pages, tables, RunDb(FreshDb, ops).tables)
    ensures CatalogAt(disk.pages, pages, disk.header.nextPageId, tables, nextId) == RunDb(FreshDb, ops).catalog
  {
    hide Owned, BufferPool.CacheOk, BufferPool.CacheOkBut, BufferPool.ClockOk, BufferPool.PinsOk, DiskOk, CatalogOk, ChainOk,
      HeapOf, HasRoom, NewHeap, OthersKept, DbInv, DbStep, TablesAt, FreshDb, OpOk;
    FreshDbInv();
    var created := new DiskManager.Create();
    var pool := new BufferPool(created, capacity);
    OneFrameIsEnough(capacity);
    CalmHasRoom(multiset{}, capacity);
    var c := Catalog.Create(pool);
    var catalog := c.value;
    NewDatabase(pool, catalog);
    ghost var s := FreshDb;
    assert ops[0..] == ops;
    for i := 0 to |ops|
      invariant DbInv(s) && InState(pool, catalog, s) && fresh(pool.repr) && fresh(catalog) && fresh(catalog.heap)
      invariant RunDb(s, ops[i..]) == RunDb(FreshDb, ops)
    {
      assert ops[i..][0] == ops[i] && ops[i..][1..] == ops[i + 1..];
      DbStepKeeps(s, ops[i]);
      Perform(pool, catalog, ops[i], s);
      s := DbStep(s, ops[i]);
    }
    tables, nextId, pages := catalog.tables, catalog.nextTableId, catalog.heap.pages;
    pool.OwnedSets();
    disk := pool.Close();
  }

  /** Reads one table. */
  method ReadTableNamed(pool: BufferPool, catalog: Catalog, name: Text, ghost rows: map<Text, TableRows>) returns (read: seq<(Rid, seq<Value>)>)
    requires catalog.Valid(pool) && pool.pins == multiset{} && name in catalog.tables && TablesAt(pool.view, catalog.tables, rows)
    modifies pool.repr
    ensures name in rows && ReadsAs(read, rows[name].stored) && ReadInOrder(read, rows[name].heap)
    ensures pool.Valid() && fresh(pool.repr - old(pool.repr)) && pool.pins == multiset{}
    ensures pool.view == old(pool.view) && pool.disk.header == old(pool.disk.header)
  {
    hide Owned, BufferPool.CacheOk, BufferPool.CacheOkBut, BufferPool.ClockOk, BufferPool.PinsOk, HasRoom, DiskOk, CatalogOk,
      ChainOk, ReadableChain, HeapOf, Calm, Busy, SchemaValid, TablesAt, Opens, ChainFrom, HeapShape, StoredAs, HeapModel.Rows, ReadsAs, ReadInOrder;
    CapacityIsPositive(pool);
    OneFrameIsEnough(pool.capacity);
    TableIn(pool.view, catalog.tables, rows, name);
    TableSchemaIsValid(pool.view, pool.disk.header.catalogRoot, catalog.heap.pages, catalog.tables, catalog.nextTableId, name);
    var found := catalog.OpenTableHeap(pool, name);
    ChainReads(pool.view, found.value.pages);
    read := ReadRows(pool, found.value, catalog.tables[name].schema, rows[name].stored);
  }

  /** What was read of each table is what the table holds. */
  ghost predicate ReadOf(read: map<Text, seq<(Rid, seq<Value>)>>, rows: map<Text, TableRows>) {
    forall name | name in read :: name in rows && ReadsAs(read[name], rows[name].stored) && ReadInOrder(read[name], rows[name].heap)
  }

  lemma OneMoreRead(read: map<Text, seq<(Rid, seq<Value>)>>, rows: map<Text, TableRows>, name: Text, list: seq<(Rid, seq<Value>)>)
    requires ReadOf(read, rows) && name in rows && ReadsAs(list, rows[name].stored) && ReadInOrder(list, rows[name].heap)
    ensures ReadOf(read[name := list], rows)
  {
    hide ReadsAs, ReadInOrder;
  }

  /** Reads every table. */
  method ReadAll(pool: BufferPool, catalog: Catalog, ghost rows: map<Text, TableRows>) returns (read: map<Text, seq<(Rid, seq<Value>)>>)
    requires catalog.Valid(pool) && pool.pins == multiset{} && TablesAt(pool.view, catalog.tables, rows)
    modifies pool.repr
    ensures read.Keys == catalog.tables.Keys && ReadOf(read, rows)
  {
    hide Owned, BufferPool.CacheOk, BufferPool.CacheOkBut, BufferPool.ClockOk, BufferPool.PinsOk, CatalogOk, ChainOk, TablesAt, ReadsAs,
      ReadOf, ReadInOrder;
    read := map[];
    var todo := catalog.tables.Keys;
    assert ReadOf(read, rows) by {
      NothingRead(rows);
    }
    while todo != {}
      invariant catalog.Valid(pool) && pool.pins == multiset{} && fresh(pool.repr - old(pool.repr))
      invariant pool.view == old(pool.view) && catalog.tables == old(catalog.tables)
      invariant todo <= catalog.tables.Keys && read.Keys == catalog.tables.Keys - todo && ReadOf(read, rows)
      decreases todo
    {
      var name :| name in todo;
      var list := ReadTableNamed(pool, catalog, name, rows);
      OneMoreRead(read, rows, name, list);
      read := read[name := list];
      todo := todo - {name};
    }
  }

  lemma NothingRead(rows: map<Text, TableRows>)
    ensures ReadOf(map[], rows)
  {
  }

  /** Opens a database file with a pool of its own and reads every table. */
  method ReadDatabase(file: seq<byte>, readOnly: bool, capacity: nat, ghost header: DatabaseHeader, ghost view: PageMap,
      ghost pages: seq<PageId>, ghost made: TableMap, ghost nextId: u32, ghost rows: map<Text, TableRows>)
    returns (tables: TableMap, read: map<Text, seq<(Rid, seq<Value>)>>)
    requires capacity >= 1 && FileOpens(file) && CatalogOk(view, header.catalogRoot, pages, made, nextId) && TablesAt(view, made, rows)
    requires forall h, s :: DiskOk(file, h, s) ==> h == header && s == view
    ensures tables == made && read.Keys == made.Keys && ReadOf(read, rows)
  {
    hide Owned, BufferPool.CacheOk, BufferPool.CacheOkBut, BufferPool.ClockOk, BufferPool.PinsOk, DiskOk, FileOpens,
      CatalogOk, ChainOk, ReadOf, TablesAt;
    var pool, catalog := Reopen(file, readOnly, capacity, header, view, pages, made, nextId);
    tables := catalog.tables;
    read := ReadAll(pool, catalog, rows);
  }

  /**
   * Any run of operations on a new database, in any number of tables and through a pool of any capacity,
   * then closing it and opening the file again with a pool of any other capacity: the catalog has exactly
   * the tables of the run, and each table gives exactly its own rows of the run, each once and in the order of a scan.
   */
  method RunDatabase(ops: seq<DbOp>, capacity: nat, again: nat, readOnly: bool)
    returns (tables: TableMap, read: map<Text, seq<(Rid, seq<Value>)>>)
    requires capacity >= 1 && again >= 1 && forall i | 0 <= i < |ops| :: OpOk(ops[i])
    ensures DbInv(FreshDb)
    ensures var end := RunDb(FreshDb, ops);
      && tables == end.catalog.tables && read.Keys == end.tables.Keys == tables.Keys
      && forall name | name in read :: ReadsAs(read[name], end.tables[name].stored) && ReadInOrder(read[name], end.tables[name].heap)
  {
    var disk; ghost var made, nextId, pages;
    disk, made, nextId, pages := RunOnNewDatabase(capacity, ops);
    hide DiskOk, FileOpens, CatalogOk, TablesAt, ReadsAs, ReadInOrder, RunDb, FreshDb, DbInv, HeapOf, OpOk;
    WrittenFileOpens(disk);
    OneReading(disk);
    SameNames(disk.pages, made, RunDb(FreshDb, ops).tables);
    tables, read := ReadDatabase(disk.file, readOnly, again, disk.header, disk.pages, pages, made, nextId, RunDb(FreshDb, ops).tables);
  }
}
