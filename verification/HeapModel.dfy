/**
 * What a heap file means: a chain of slotted pages, its rows by address, the order in which a scan
 * lists them, and insertion and deletion as functions on that meaning.
 */
module HeapModel {
  import opened Wrappers
  import opened Bytes
  import opened Pages
  import opened PageModel

  const MAX_RECORD_SIZE := PAGE_SIZE - PAGE_HEADER_SIZE - SLOT_ENTRY_SIZE

  /** The member pages in chain order, and what each of them holds. */
  datatype Heap = Heap(pages: seq<PageId>, states: seq<PageState>)

  datatype HeapRecord = HeapRecord(rid: Rid, bytes: seq<byte>)

  /**
   * The chain invariant: member pages are distinct and allocatable, each links to the next one and
   * the last to none, and each is a page as the engine builds it.
   */
  ghost predicate HeapInv(h: Heap) {
    && HeapShape(h)
    && (forall i | 0 <= i < |h.pages| :: h.pages[i] < U32_MAX && PageInv(h.states[i]))
    && Linked(h)
  }

  /** What reading a heap relies on: distinct pages, and slots that an address can name. */
  ghost predicate HeapShape(h: Heap) {
    && 1 <= |h.pages| == |h.states| && DistinctPages(h.pages)
    && forall i | 0 <= i < |h.pages| :: |h.states[i].slots| <= U16_MAX
  }

  lemma InvHasShape(h: Heap)
    requires HeapInv(h)
    ensures HeapShape(h)
  {
  }

  predicate DistinctPages(pages: seq<PageId>) {
    forall i, j | 0 <= i < j < |pages| :: pages[i] != pages[j]
  }

  predicate Linked(h: Heap)
    requires |h.pages| == |h.states|
  {
    forall i | 0 <= i < |h.pages| ::
      h.states[i].next == if i + 1 < |h.pages| then Some(h.pages[i + 1]) else None
  }

  // ----- Insertion -----

  /** Where a heap puts a record: a slot of an existing page, a new page, or nowhere. */
  datatype Placement = At(page: nat, slot: SlotRef) | NewPage | Refused(error: SlottedPageError)

  /** The scan for room, page by page from `from`: only a page that is merely full is passed over. */
  function Place(states: seq<PageState>, record: seq<byte>, from: nat := 0): (p: Placement)
    requires from <= |states|
    ensures p.At? ==> from <= p.page < |states| && InsertResult(states[p.page].slots, record) == Ok(p.slot)
    decreases |states| - from
  {
    if from == |states| then NewPage
    else
      match InsertResult(states[from].slots, record)
      case Ok(slot) => At(from, slot)
      case Err(NoSpace(_, _)) => Place(states, record, from + 1)
      case Err(error) => Refused(error)
  }

  function SlotOf(rid: Rid): SlotRef {
    SlotRef(rid.slot, rid.generation)
  }

  /** The heap after `record` went where `Place` says; `newPage` is the id a new page would get. */
  function Inserted(h: Heap, record: seq<byte>, newPage: PageId): Heap
    requires 1 <= |h.pages| == |h.states|
  {
    match Place(h.states, record)
    case At(i, slot) => h.(states := h.states[i := Insert(h.states[i], record)])
    case NewPage => Appended(h, record, newPage)
    case Refused(_) => h
  }

  /** A new last page holding just `record`, linked from the old last page. */
  function Appended(h: Heap, record: seq<byte>, newPage: PageId): Heap
    requires 1 <= |h.pages| == |h.states|
  {
    var last := |h.states| - 1;
    Heap(h.pages + [newPage],
         h.states[last := h.states[last].(next := Some(newPage))] + [Insert(EmptyPage, record)])
  }

  /** The page and slot that an insertion fills. */
  function InsertedAt(h: Heap, record: seq<byte>, newPage: PageId): (PageId, SlotRef)
    requires |h.pages| == |h.states|
  {
    match Place(h.states, record)
    case At(i, slot) => (h.pages[i], slot)
    case _ => (newPage, SlotRef(0, 1))
  }

  // ----- Deletion -----

  function IndexOf(pages: seq<PageId>, page: PageId, from: nat := 0): (i: nat)
    requires from <= |pages|
    ensures from <= i <= |pages|
    ensures i < |pages| ==> pages[i] == page
    ensures forall j | from <= j < i :: pages[j] != page
    decreases |pages| - from
  {
    if from == |pages| || pages[from] == page then from else IndexOf(pages, page, from + 1)
  }

  predicate Holds(h: Heap, rid: Rid)
    requires |h.pages| == |h.states|
  {
    var i := IndexOf(h.pages, rid.page);
    i < |h.pages| && Resolves(h.states[i], SlotOf(rid))
  }

  function Deleted(h: Heap, rid: Rid): Heap
    requires |h.pages| == |h.states|
  {
    var i := IndexOf(h.pages, rid.page);
    if i < |h.pages| then h.(states := h.states[i := Delete(h.states[i], SlotOf(rid))]) else h
  }

  /** The bytes a live address names. */
  function RowAt(h: Heap, rid: Rid): seq<byte>
    requires |h.pages| == |h.states| && Holds(h, rid)
  {
    h.states[IndexOf(h.pages, rid.page)].slots[rid.slot].record
  }

  lemma IndexIsUnique(pages: seq<PageId>, i: nat)
    requires DistinctPages(pages) && i < |pages|
    ensures IndexOf(pages, pages[i]) == i
  {
  }

  // ----- First fit -----

  /**
   * First fit: the record goes to the first page whose slack admits it, and a page is appended only
   * when no page admits it. The scan stops early exactly at a page with no free slot and less than
   * one directory entry of slack.
   */
  lemma {:induction false} FirstFit(states: seq<PageState>, record: seq<byte>, from: nat)
    requires from <= |states| && |record| <= U16_MAX
    requires forall i | 0 <= i < |states| :: PageInv(states[i])
    ensures match Place(states, record, from)
      case At(i, slot) =>
        && from <= i < |states| && Admits(states[i], record) && InsertResult(states[i].slots, record) == Ok(slot)
        && slot.slot <= U16_MAX
        && forall j | from <= j < i :: !Admits(states[j], record) && !Jammed(states[j])
      case NewPage => forall j | from <= j < |states| :: !Admits(states[j], record) && !Jammed(states[j])
      case Refused(e) =>
        && e == SlackUnderflow
        && exists i :: from <= i < |states| && Jammed(states[i])
             && forall j | from <= j < i :: !Admits(states[j], record) && !Jammed(states[j])
    decreases |states| - from
  {
    if from < |states| {
      if InsertResult(states[from].slots, record).Ok? {
        SlotsFit(states[from]);
      }
      FirstFit(states, record, from + 1);
    }
  }

  /** The page has room for the record once compacted. */
  predicate Admits(st: PageState, record: seq<byte>) {
    |record| + (if FirstFree(st.slots).Some? then 0 else SLOT_ENTRY_SIZE) <= Slack(st.slots)
  }

  /** No free slot, and not even a directory entry of slack: insertion reports this page as corrupt. */
  predicate Jammed(st: PageState) {
    FirstFree(st.slots).None? && Slack(st.slots) < SLOT_ENTRY_SIZE
  }

  /**
   * Exactly when an insertion is refused although a new page could take it: some page is jammed, and no
   * page before it admits the record.
   */
  lemma {:induction false} RefusedExactlyWhenJammed(states: seq<PageState>, record: seq<byte>)
    requires |record| <= U16_MAX && forall i | 0 <= i < |states| :: PageInv(states[i])
    ensures Place(states, record).Refused? <==>
      exists i :: 0 <= i < |states| && Jammed(states[i]) && forall j | 0 <= j < i :: !Admits(states[j], record)
  {
    FirstFit(states, record, 0);
    hide PageInv, Place, Admits, Jammed, InsertResult;
    if i :| 0 <= i < |states| && Jammed(states[i]) && forall j | 0 <= j < i :: !Admits(states[j], record) {
      JammedAdmitsNothing(states[i], record);
    }
  }

  lemma JammedAdmitsNothing(st: PageState, record: seq<byte>)
    requires Jammed(st)
    ensures !Admits(st, record)
  {
  }

  /** A heap whose one page holds one record of the largest size. */
  function PackedHeap(page: PageId, record: seq<byte>): Heap {
    Heap([page], [Insert(EmptyPage, record)])
  }

  /** A record of the largest size jams its page: from then on the heap refuses every record, however short. */
  lemma {:induction false} LargestRecordStopsTheHeap(page: PageId, record: seq<byte>, next: seq<byte>)
    requires |record| == MAX_RECORD_SIZE && |next| <= MAX_RECORD_SIZE && page < U32_MAX
    ensures HeapInv(PackedHeap(page, record))
    ensures Place([EmptyPage], record).At? && Place(PackedHeap(page, record).states, next) == Refused(SlackUnderflow)
  {
    FirstRecord(record);
    var st := Insert(EmptyPage, record);
    InsertAddsOneRow(EmptyPage, record);
    assert FirstFree(st.slots).None?;
    hide PageInv, Insert;
  }

  lemma SlotsFit(st: PageState)
    requires PageInv(st)
    ensures |st.slots| <= 1020
  {
  }

  // ----- The rows of a heap, and a scan of it -----

  ghost function PageRows(page: PageId, st: PageState, n: nat): (rows: map<Rid, seq<byte>>)
    requires n <= |st.slots| <= U16_MAX
    ensures forall rid :: rid in rows <==> rid.page == page && rid.slot < n && Resolves(st, SlotOf(rid))
    ensures forall rid | rid in rows :: rid.slot < |st.slots| && rows[rid] == RecordIn(st, rid.slot)
  {
    if n == 0 then map[]
    else
      var s := st.slots[n - 1];
      if s.Live? then PageRows(page, st, n - 1)[Rid(page, n - 1, s.generation) := s.record] else PageRows(page, st, n - 1)
  }

  function RecordIn(st: PageState, k: nat): seq<byte>
    requires k < |st.slots|
  {
    if st.slots[k].Live? then st.slots[k].record else []
  }

  predicate HeldBelow(h: Heap, rid: Rid, n: nat)
    requires |h.pages| == |h.states|
  {
    var i := IndexOf(h.pages, rid.page);
    i < n && i < |h.pages| && Resolves(h.states[i], SlotOf(rid))
  }

  ghost function RowsBelow(h: Heap, n: nat): (rows: map<Rid, seq<byte>>)
    requires HeapShape(h) && n <= |h.pages|
    ensures forall rid :: rid in rows <==> HeldBelow(h, rid, n)
    ensures forall rid | rid in rows :: Holds(h, rid) && rows[rid] == RowAt(h, rid)
  {
    if n == 0 then map[]
    else
      IndexIsUnique(h.pages, n - 1);
      RowsBelow(h, n - 1) + PageRows(h.pages[n - 1], h.states[n - 1], |h.states[n - 1].slots|)
  }

  /** The rows of the heap, by address. */
  ghost function Rows(h: Heap): (rows: map<Rid, seq<byte>>)
    requires HeapShape(h)
    ensures forall rid :: rid in rows <==> Holds(h, rid)
    ensures forall rid | rid in rows :: rows[rid] == RowAt(h, rid)
  {
    RowsBelow(h, |h.pages|)
  }

  ghost function PageScan(page: PageId, st: PageState, n: nat): (list: seq<HeapRecord>)
    requires n <= |st.slots| <= U16_MAX
  {
    if n == 0 then []
    else
      var s := st.slots[n - 1];
      PageScan(page, st, n - 1) + if s.Live? then [HeapRecord(Rid(page, n - 1, s.generation), s.record)] else []
  }

  ghost function ScanBelow(h: Heap, n: nat): (list: seq<HeapRecord>)
    requires HeapShape(h) && n <= |h.pages|
  {
    if n == 0 then []
    else ScanBelow(h, n - 1) + PageScan(h.pages[n - 1], h.states[n - 1], |h.states[n - 1].slots|)
  }

  /** What a scan returns: page by page, and within a page slot by slot. */
  ghost function Scan(h: Heap): seq<HeapRecord>
    requires HeapShape(h)
  {
    ScanBelow(h, |h.pages|)
  }

  /** Page order in the chain first, then slot order. */
  predicate Before(h: Heap, a: Rid, b: Rid) {
    var i, j := IndexOf(h.pages, a.page), IndexOf(h.pages, b.page);
    i < j || (i == j && a.slot < b.slot)
  }

  ghost predicate InScanOrder(h: Heap, list: seq<HeapRecord>) {
    forall i, j | 0 <= i < j < |list| :: Before(h, list[i].rid, list[j].rid)
  }

  lemma {:induction false} PageScanExact(h: Heap, i: nat, n: nat)
    requires HeapShape(h) && i < |h.pages| && n <= |h.states[i].slots|
    ensures var list, rows := PageScan(h.pages[i], h.states[i], n), PageRows(h.pages[i], h.states[i], n);
      && (forall e :: e in list <==> e.rid in rows && rows[e.rid] == e.bytes)
      && InScanOrder(h, list)
  {
    if n > 0 {
      PageScanExact(h, i, n - 1);
      var page, st := h.pages[i], h.states[i];
      if st.slots[n - 1].Live? {
        PageScanInOrder(h, i, n);
        hide InScanOrder, Before;
      }
    }
  }

  /** The live slot after those already listed comes later in the order of the scan. */
  lemma {:induction false} PageScanInOrder(h: Heap, i: nat, n: nat)
    requires HeapShape(h) && i < |h.pages| && 0 < n <= |h.states[i].slots| && h.states[i].slots[n - 1].Live?
    requires var list, rows := PageScan(h.pages[i], h.states[i], n - 1), PageRows(h.pages[i], h.states[i], n - 1);
      (forall e :: e in list <==> e.rid in rows && rows[e.rid] == e.bytes) && InScanOrder(h, list)
    ensures InScanOrder(h, PageScan(h.pages[i], h.states[i], n))
  {
    IndexIsUnique(h.pages, i);
    var page, st := h.pages[i], h.states[i];
    var before, rid := PageScan(page, st, n - 1), Rid(page, n - 1, st.slots[n - 1].generation);
    forall k | 0 <= k < |before| ensures Before(h, before[k].rid, rid) {
      assert before[k] in before;
    }
    hide HeapShape, PageRows;
    OrderedAppend(h, before, [HeapRecord(rid, st.slots[n - 1].record)]);
  }

  lemma OrderedAppend(h: Heap, a: seq<HeapRecord>, b: seq<HeapRecord>)
    requires InScanOrder(h, a) && InScanOrder(h, b)
    requires forall i, j | 0 <= i < |a| && 0 <= j < |b| :: Before(h, a[i].rid, b[j].rid)
    ensures InScanOrder(h, a + b)
  {
  }

  /** `list` has exactly the entries of `rows`. */
  ghost predicate Lists(list: seq<HeapRecord>, rows: map<Rid, seq<byte>>) {
    forall e :: e in list <==> e.rid in rows && rows[e.rid] == e.bytes
  }

  lemma ListsConcat(a: seq<HeapRecord>, b: seq<HeapRecord>, m: map<Rid, seq<byte>>, n: map<Rid, seq<byte>>)
    requires Lists(a, m) && Lists(b, n) && m.Keys !! n.Keys
    ensures Lists(a + b, m + n)
  {
    forall e ensures e in a + b <==> e.rid in m + n && (m + n)[e.rid] == e.bytes {
      assert e in a + b <==> e in a || e in b;
      assert e.rid in n ==> e.rid !in m;
    }
  }

  lemma {:induction false} ScanBelowLists(h: Heap, n: nat)
    requires HeapShape(h) && n <= |h.pages|
    ensures Lists(ScanBelow(h, n), RowsBelow(h, n))
  {
    if n > 0 {
      ScanBelowLists(h, n - 1);
      var size := |h.states[n - 1].slots|;
      PageScanExact(h, n - 1, size);
      IndexIsUnique(h.pages, n - 1);
      var m, r := RowsBelow(h, n - 1), PageRows(h.pages[n - 1], h.states[n - 1], size);
      assert RowsBelow(h, n) == m + r;
      hide HeapShape, PageScan, RowsBelow, PageRows, Resolves;
      ListsConcat(ScanBelow(h, n - 1), PageScan(h.pages[n - 1], h.states[n - 1], size), m, r);
    }
  }

  lemma {:induction false} ScanBelowOrdered(h: Heap, n: nat)
    requires HeapShape(h) && n <= |h.pages|
    ensures InScanOrder(h, ScanBelow(h, n))
  {
    if n > 0 {
      ScanBelowOrdered(h, n - 1);
      ScanBelowLists(h, n - 1);
      var size := |h.states[n - 1].slots|;
      PageScanExact(h, n - 1, size);
      IndexIsUnique(h.pages, n - 1);
      hide HeapShape, RowsBelow, PageRows;
      var before, here := ScanBelow(h, n - 1), PageScan(h.pages[n - 1], h.states[n - 1], size);
      forall i, j | 0 <= i < |before| && 0 <= j < |here| ensures Before(h, before[i].rid, here[j].rid) {
        assert before[i] in before && here[j] in here;
      }
      OrderedAppend(h, before, here);
    }
  }

  /** A scan lists every row with its bytes, nothing else, each once, in chain and slot order. */
  lemma {:induction false} ScanIsExact(h: Heap)
    requires HeapShape(h)
    ensures Lists(Scan(h), Rows(h)) && InScanOrder(h, Scan(h)) && DistinctRids(Scan(h))
  {
    ScanBelowLists(h, |h.pages|);
    ScanBelowOrdered(h, |h.pages|);
    hide HeapShape;
    forall i, j | 0 <= i < j < |Scan(h)| ensures Scan(h)[i].rid != Scan(h)[j].rid {
      assert Before(h, Scan(h)[i].rid, Scan(h)[j].rid);
    }
  }

  predicate DistinctRids(list: seq<HeapRecord>) {
    forall i, j | 0 <= i < j < |list| :: list[i].rid != list[j].rid
  }

  // ----- Insertion adds one row, deletion removes one -----

  lemma UpdatedPageInv(h: Heap, i: nat, st: PageState)
    requires HeapInv(h) && i < |h.pages| && PageInv(st) && st.next == h.states[i].next
    ensures HeapInv(h.(states := h.states[i := st]))
  {
  }

  lemma RelinkKeepsInv(st: PageState, next: Option<PageId>)
    requires PageInv(st) && (next.Some? ==> next.value != U32_MAX)
    ensures PageInv(st.(next := next))
  {
  }

  /** A chain with one more page: everything but the links. */
  lemma GrownShape(h: Heap, k: Heap, st: PageState, newPage: PageId)
    requires HeapInv(h) && newPage !in h.pages && newPage < U32_MAX && PageInv(st) && |st.slots| <= U16_MAX
    requires var last := |h.states| - 1;
      k == Heap(h.pages + [newPage], h.states[last := h.states[last].(next := Some(newPage))] + [st])
    ensures HeapShape(k) && forall i | 0 <= i < |k.pages| :: k.pages[i] < U32_MAX && PageInv(k.states[i])
  {
    var last := |h.states| - 1;
    RelinkKeepsInv(h.states[last], Some(newPage));
    hide PageInv, Linked;
    forall i | 0 <= i < |k.pages|
      ensures k.pages[i] < U32_MAX && PageInv(k.states[i]) && |k.states[i].slots| <= U16_MAX
    {
      assert i < last ==> k.states[i] == h.states[i];
    }
  }

  lemma GrownLinks(h: Heap, k: Heap, st: PageState, newPage: PageId)
    requires HeapInv(h) && st.next == None
    requires var last := |h.states| - 1;
      k == Heap(h.pages + [newPage], h.states[last := h.states[last].(next := Some(newPage))] + [st])
    ensures Linked(k)
  {
    hide PageInv, DistinctPages;
  }

  lemma GrownInv(h: Heap, k: Heap, st: PageState, newPage: PageId)
    requires HeapInv(h) && newPage !in h.pages && newPage < U32_MAX
    requires PageInv(st) && |st.slots| <= U16_MAX && st.next == None
    requires var last := |h.states| - 1;
      k == Heap(h.pages + [newPage], h.states[last := h.states[last].(next := Some(newPage))] + [st])
    ensures HeapInv(k)
  {
    GrownShape(h, k, st, newPage);
    GrownLinks(h, k, st, newPage);
    hide HeapShape, PageInv, Linked;
  }

  lemma FirstRecord(record: seq<byte>)
    requires |record| <= MAX_RECORD_SIZE
    ensures PageInv(Insert(EmptyPage, record)) && Insert(EmptyPage, record).next == None
    ensures Resolves(Insert(EmptyPage, record), SlotRef(0, 1)) && Insert(EmptyPage, record).slots == [Live(1, record)]
  {
    InsertAddsOneRow(EmptyPage, record);
  }

  lemma AppendedInv(h: Heap, record: seq<byte>, newPage: PageId)
    requires HeapInv(h) && newPage !in h.pages && newPage < U32_MAX && |record| <= MAX_RECORD_SIZE
    ensures HeapInv(Appended(h, record, newPage))
    ensures Resolves(Insert(EmptyPage, record), SlotRef(0, 1)) && Insert(EmptyPage, record).slots == [Live(1, record)]
  {
    FirstRecord(record);
    hide Insert, Resolves, PageInv;
    GrownInv(h, Appended(h, record, newPage), Insert(EmptyPage, record), newPage);
  }

  lemma {:induction false} IndexAppend(pages: seq<PageId>, newPage: PageId, page: PageId, from: nat)
    requires from <= |pages| && newPage !in pages
    ensures var i, j := IndexOf(pages, page, from), IndexOf(pages + [newPage], page, from);
      && (i < |pages| ==> j == i)
      && (i == |pages| ==> j == if page == newPage then |pages| else |pages| + 1)
    decreases |pages| - from
  {
    if from < |pages| {
      IndexAppend(pages, newPage, page, from + 1);
    }
  }

  /** The address of an insertion as clients see it. */
  function RidOf(p: (PageId, SlotRef)): Rid
    requires p.1.slot <= U16_MAX
  {
    Rid(p.0, p.1.slot, p.1.generation)
  }

  lemma {:induction false} StoredInPage(h: Heap, i: nat, record: seq<byte>, slot: SlotRef, rid: Rid)
    requires HeapInv(h) && i < |h.pages| && InsertResult(h.states[i].slots, record) == Ok(slot)
    requires slot.slot <= U16_MAX
    ensures var k := h.(states := h.states[i := Insert(h.states[i], record)]);
      && (Holds(k, rid) <==> rid == RidOf((h.pages[i], slot)) || Holds(h, rid))
      && (Holds(k, rid) ==> RowAt(k, rid) == if rid == RidOf((h.pages[i], slot)) then record else RowAt(h, rid))
      && !Holds(h, RidOf((h.pages[i], slot)))
  {
    IndexIsUnique(h.pages, i);
    var st := h.states[i];
    InsertAddsOneRow(st, record);
    hide HeapInv, PageInv, InsertResult, Insert, Slack;
    assert SlotOf(rid) in PageModel.Rows(Insert(st, record)) <==> SlotOf(rid) == slot || SlotOf(rid) in PageModel.Rows(st);
  }

  lemma {:induction false} StoredInNewPage(h: Heap, record: seq<byte>, newPage: PageId, rid: Rid)
    requires HeapInv(h) && newPage !in h.pages && newPage < U32_MAX && |record| <= MAX_RECORD_SIZE
    ensures var k := Appended(h, record, newPage);
      && |k.pages| == |k.states|
      && (Holds(k, rid) <==> rid == Rid(newPage, 0, 1) || Holds(h, rid))
      && (Holds(k, rid) ==> RowAt(k, rid) == if rid == Rid(newPage, 0, 1) then record else RowAt(h, rid))
      && !Holds(h, Rid(newPage, 0, 1))
  {
    AppendedInv(h, record, newPage);
    IndexAppend(h.pages, newPage, rid.page, 0);
    IndexAppend(h.pages, newPage, newPage, 0);
    hide HeapInv, PageInv, Insert, IndexOf;
  }

  /** `k` has the rows of `h`, plus `record` at `rid`. */
  ghost predicate OneMoreRow(h: Heap, k: Heap, rid: Rid, record: seq<byte>)
    requires |h.pages| == |h.states| && |k.pages| == |k.states|
  {
    && !Holds(h, rid)
    && (forall r :: Holds(k, r) <==> r == rid || Holds(h, r))
    && (forall r | Holds(k, r) :: RowAt(k, r) == if r == rid then record else RowAt(h, r))
  }

  lemma RowsWithOneMore(h: Heap, k: Heap, rid: Rid, record: seq<byte>)
    requires HeapInv(h) && HeapInv(k) && OneMoreRow(h, k, rid, record)
    ensures rid !in Rows(h) && Rows(k) == Rows(h)[rid := record]
  {
    hide HeapInv, Holds, RowAt, Rows;
  }

  lemma {:induction false} InsertIntoOldPage(h: Heap, record: seq<byte>, i: nat, slot: SlotRef)
    requires HeapInv(h) && i < |h.pages| && InsertResult(h.states[i].slots, record) == Ok(slot) && slot.slot <= U16_MAX
    ensures var k := h.(states := h.states[i := Insert(h.states[i], record)]);
      HeapInv(k) && OneMoreRow(h, k, RidOf((h.pages[i], slot)), record)
  {
    InsertAddsOneRow(h.states[i], record);
    hide PageInv, InsertResult, Insert, Slack, Holds, RowAt;
    UpdatedPageInv(h, i, Insert(h.states[i], record));
    hide HeapInv;
    forall rid { StoredInPage(h, i, record, slot, rid); }
  }

  lemma {:induction false} InsertIntoNewPage(h: Heap, record: seq<byte>, newPage: PageId)
    requires HeapInv(h) && newPage !in h.pages && newPage < U32_MAX && |record| <= MAX_RECORD_SIZE
    ensures var k := Appended(h, record, newPage);
      HeapInv(k) && OneMoreRow(h, k, Rid(newPage, 0, 1), record)
  {
    hide HeapInv, PageInv, Insert, Holds, RowAt, Appended;
    AppendedInv(h, record, newPage);
    forall rid { StoredInNewPage(h, record, newPage, rid); }
  }

  /** Insertion keeps the chain invariant and adds exactly one row, at an address that named nothing before. */
  lemma {:induction false} InsertAddsRow(h: Heap, record: seq<byte>, newPage: PageId)
    requires HeapInv(h) && |record| <= MAX_RECORD_SIZE && !Place(h.states, record).Refused?
    requires Place(h.states, record).NewPage? ==> newPage !in h.pages && newPage < U32_MAX
    ensures HeapInv(Inserted(h, record, newPage))
    ensures var at := InsertedAt(h, record, newPage);
      && at.1.slot <= U16_MAX
      && RidOf(at) !in Rows(h)
      && Rows(Inserted(h, record, newPage)) == Rows(h)[RidOf(at) := record]
  {
    FirstFit(h.states, record, 0);
    hide HeapInv, PageInv, Insert, Holds, RowAt, InsertResult, Appended, Place, OneMoreRow;
    match Place(h.states, record) {
      case At(i, slot) => InsertIntoOldPage(h, record, i, slot);
      case NewPage => InsertIntoNewPage(h, record, newPage);
    }
    RowsWithOneMore(h, Inserted(h, record, newPage), RidOf(InsertedAt(h, record, newPage)), record);
  }

  /** Deletion keeps the chain invariant and removes exactly the named row. */
  lemma {:induction false} DeleteRemovesRow(h: Heap, rid: Rid)
    requires HeapInv(h) && Holds(h, rid)
    ensures HeapInv(Deleted(h, rid))
    ensures Rows(Deleted(h, rid)) == Rows(h) - {rid}
  {
    DeletedInv(h, rid);
    hide HeapInv, Holds, RowAt, Deleted, Rows;
    forall other { DeletedFromPage(h, IndexOf(h.pages, rid.page), rid, other); }
    RowsWithout(h, Deleted(h, rid), rid);
  }

  lemma {:induction false} DeletedInv(h: Heap, rid: Rid)
    requires HeapInv(h) && Holds(h, rid)
    ensures HeapInv(Deleted(h, rid))
  {
    var i := IndexOf(h.pages, rid.page);
    DeleteRemovesOneRow(h.states[i], SlotOf(rid));
    hide PageInv, Delete, Slack;
    UpdatedPageInv(h, i, Delete(h.states[i], SlotOf(rid)));
  }

  lemma RowsWithout(h: Heap, k: Heap, rid: Rid)
    requires HeapInv(h) && HeapInv(k)
    requires forall r :: Holds(k, r) <==> r != rid && Holds(h, r)
    requires forall r | Holds(k, r) :: RowAt(k, r) == RowAt(h, r)
    ensures Rows(k) == Rows(h) - {rid}
  {
    hide HeapInv, Holds, RowAt, Rows;
  }

  lemma {:induction false} DeletedFromPage(h: Heap, i: nat, rid: Rid, other: Rid)
    requires HeapInv(h) && Holds(h, rid) && i == IndexOf(h.pages, rid.page)
    ensures var k := Deleted(h, rid);
      && (Holds(k, other) <==> other != rid && Holds(h, other))
      && (Holds(k, other) ==> RowAt(k, other) == RowAt(h, other))
  {
    var st := h.states[i];
    DeleteRemovesOneRow(st, SlotOf(rid));
    hide HeapInv, PageInv, Delete, Slack;
    assert SlotOf(other) in PageModel.Rows(Delete(st, SlotOf(rid))) <==>
      SlotOf(other) != SlotOf(rid) && SlotOf(other) in PageModel.Rows(st);
  }
}
