/**
 * Heap files over the buffer pool (src/heap/heap_file.rs): a chain of slotted pages that is reached
 * page by page, one pin at a time. What each operation does is stated on the chain's meaning.
 */
module HeapFiles {
  import opened Wrappers
  import opened Bytes
  import opened Pages
  import opened PageModel
  import opened PageLayout
  import PageEdits
  import PageFormat
  import opened SlottedPages
  import opened Disk
  import opened BufferPools
  import opened HeapModel
  import HeapHistory

  datatype HeapError =
    | BufferFailure(pool: PoolError)
    | PageFailure(page: SlottedPageError)
    | RecordTooLarge(size: nat)
    | PageChainCycle(id: PageId)
    | RidOutsideHeap(rid: Rid)

  // ----- The heap a chain of pages stands for -----

  ghost predicate InView(view: PageMap, pages: seq<PageId>) {
    forall i | 0 <= i < |pages| :: pages[i] in view && WellFormed(view[pages[i]])
  }

  ghost function HeapOf(view: PageMap, pages: seq<PageId>): (h: Heap)
    requires InView(view, pages)
    ensures h.pages == pages && |h.states| == |pages|
    ensures forall i | 0 <= i < |pages| :: h.states[i] == Abs(view[pages[i]])
  {
    Heap(pages, seq(|pages|, i requires 0 <= i < |pages| => Abs(view[pages[i]])))
  }

  /** `pages` is a whole chain in `view`, as the engine builds it. */
  ghost predicate ChainOk(view: PageMap, pages: seq<PageId>) {
    InView(view, pages) && HeapInv(HeapOf(view, pages))
  }

  /** `pages` are distinct valid pages of `view`: enough to read through them. */
  ghost predicate ReadableChain(view: PageMap, pages: seq<PageId>) {
    InView(view, pages) && HeapShape(HeapOf(view, pages))
  }

  /** The pool can serve page `id`: some frame is free or unpinned, and the page's pin count is not at its limit. */
  ghost predicate Serves(pins: multiset<PageId>, capacity: nat, id: PageId) {
    HasRoom(pins, capacity) && pins[id] < U32_MAX
  }

  /** The pool can serve any page. */
  ghost predicate Calm(pins: multiset<PageId>, capacity: nat) {
    HasRoom(pins, capacity) && forall id :: pins[id] < U32_MAX
  }

  /** With no guards held elsewhere, a single frame is enough to serve any page. */
  lemma OneFrameIsEnough(capacity: nat)
    requires capacity >= 1
    ensures Calm(multiset{}, capacity)
  {
    assert Pinned(multiset{}) == {};
  }

  /** Refused because of pins held elsewhere. */
  predicate Busy(e: HeapError) {
    e.BufferFailure? && (e.pool.AllFramesPinned? || e.pool.PinCountExhausted?)
  }

  /** Why a page cannot be borrowed from a pool that can serve any page. */
  ghost predicate BorrowFails(view: PageMap, id: PageId, refused: bool, e: HeapError) {
    if id !in view then e == BufferFailure(MissError(id, true))
    else if refused then e == BufferFailure(ReadOnlyPool)
    else !WellFormed(view[id]) && e.PageFailure? && e.page.Corrupt?
  }

  /** A pinned page seen as a slotted page. */
  datatype Borrowed = Borrowed(guard: PageGuard, slotted: SlottedPage)

  ghost predicate Held(pool: BufferPool, b: Borrowed, id: PageId)
    reads pool`frames
  {
    id in pool.frames && b.guard.frame == pool.frames[id] && b.slotted.page == pool.frames[id].page
  }

  lemma PinsRestored(pins: multiset<PageId>, id: PageId)
    ensures pins + Copies(id, 1) - Copies(id, 1) == pins
    ensures id in pins + Copies(id, 1)
  {
  }

  /** Pins a page, asks for write access when `writing`, and validates it as a heap page. */
  method Borrow(pool: BufferPool, id: PageId, writing: bool) returns (r: Result<Borrowed, HeapError>)
    requires pool.Valid()
    modifies pool.repr
    ensures pool.Valid() && fresh(pool.repr - old(pool.repr))
    ensures pool.view == old(pool.view) && pool.disk.header == old(pool.disk.header)
    ensures r.Ok? ==> old(pool.pins)[id] < U32_MAX && id in pool.view && WellFormed(pool.view[id])
    ensures r.Ok? ==> !(writing && pool.disk.readOnly) && Held(pool, r.value, id) && r.value.slotted.writable == writing
    ensures r.Ok? ==> fresh(r.value.slotted) && pool.pins == old(pool.pins) + Copies(id, 1)
    ensures r.Err? ==> pool.pins == old(pool.pins)
    ensures r.Err? ==>
      || BorrowFails(pool.view, id, writing && pool.disk.readOnly, r.error)
      || (!old(Serves(pool.pins, pool.capacity, id)) && Busy(r.error))
  {
    hide Owned, BufferPool.CacheOk, BufferPool.CacheOkBut, BufferPool.ClockOk, BufferPool.PinsOk, WellFormed, HasRoom,
      Copies, DiskOk, EvictedInOrder, TouchedOnly, SurvivorsOf, OnlyEvictedWritten;
    var pinned := pool.Pin(id);
    if pinned.Err? {
      return Err(BufferFailure(pinned.error));
    }
    var guard := pinned.value;
    pool.FrameIsOk(id);
    pool.OwnedSets();
    PinsRestored(old(pool.pins), id);
    if writing && guard.Write().Err? {
      pool.Release(guard);
      return Err(BufferFailure(ReadOnlyPool));
    }
    var slotted := SlottedPage.FromPage(guard.frame.page, writing);
    if slotted.Err? {
      pool.Release(guard);
      return Err(PageFailure(slotted.error));
    }
    return Ok(Borrowed(guard, slotted.value));
  }

  /** The view changed at page `id` and nowhere else. */
  ghost predicate ChangedAt(before: PageMap, after: PageMap, id: PageId) {
    id in after && after == before[id := after[id]]
  }

  /** What storing a record in one sound page gives. */
  ghost function PageInsertResult(st: PageState, id: PageId, record: seq<byte>, readOnly: bool): Result<Rid, HeapError>
    requires PageInv(st)
  {
    if readOnly then Err(BufferFailure(ReadOnlyPool))
    else
      match InsertResult(st.slots, record)
      case Err(e) => Err(PageFailure(e))
      case Ok(at) => SlotsFit(st); Ok(Rid(id, at.slot, at.generation))
  }

  /** Insertion into a writable page of the cache. */
  method StoreInPage(slotted: SlottedPage, record: seq<byte>) returns (r: Result<Rid, HeapError>)
    requires slotted.page.Valid() && Sound(slotted.page.Content()) && slotted.writable
    modifies slotted.page`dirty, slotted.page.bytes
    ensures r == PageInsertResult(Abs(old(slotted.page.Content())), slotted.page.id, record, false)
    ensures r.Ok? ==> slotted.page.dirty && WellFormed(slotted.page.Content())
    ensures r.Ok? ==> Abs(slotted.page.Content()) == PageModel.Insert(Abs(old(slotted.page.Content())), record)
    ensures r.Err? ==> slotted.page.Content() == old(slotted.page.Content()) && slotted.page.dirty == old(slotted.page.dirty)
  {
    hide WellFormed, Abs, Slack, PageModel.Insert;
    var stored := slotted.Insert(record);
    return if stored.Ok? then Ok(stored.value) else Err(PageFailure(stored.error));
  }

  /** One step of the scan for room: pins the page, inserts if it can, and unpins it. */
  method InsertIntoPage(pool: BufferPool, id: PageId, record: seq<byte>) returns (r: Result<Rid, HeapError>)
    requires pool.Valid() && id in pool.view && Sound(pool.view[id])
    modifies pool.repr
    ensures pool.Valid() && fresh(pool.repr - old(pool.repr))
    ensures pool.pins == old(pool.pins) && pool.disk.header == old(pool.disk.header)
    ensures r.Err? ==> pool.view == old(pool.view)
    ensures r.Ok? ==> ChangedAt(old(pool.view), pool.view, id)
    ensures r.Ok? ==> WellFormed(pool.view[id]) && Abs(pool.view[id]) == PageModel.Insert(Abs(old(pool.view)[id]), record)
    ensures
      || r == PageInsertResult(Abs(old(pool.view)[id]), id, record, pool.disk.readOnly)
      || (!old(Serves(pool.pins, pool.capacity, id)) && r.Err? && Busy(r.error))
    ensures r.Ok? || r.error.PageFailure? ==> pool.pins[id] < U32_MAX && !pool.disk.readOnly
  {
    hide Owned, BufferPool.CacheOk, BufferPool.CacheOkBut, BufferPool.ClockOk, BufferPool.PinsOk, WellFormed, HasRoom,
      Copies, Abs, PageInv, InsertResult, Serves, PageModel.Insert, DiskOk;
    var borrowed := Borrow(pool, id, true);
    if borrowed.Err? {
      return Err(borrowed.error);
    }
    var guard, slotted := borrowed.value.guard, borrowed.value.slotted;
    pool.FrameIsOk(id);
    pool.OwnedSets();
    PinsRestored(old(pool.pins), id);
    label L:
    r := StoreInPage(slotted, record);
    pool.Edited@L(id);
    pool.EndEdit(guard);
  }

  /** Pins the page of `rid`, deletes the row if there is one, and unpins the page. */
  method DeleteFromPage(pool: BufferPool, rid: Rid) returns (r: Result<Unit, HeapError>)
    requires pool.Valid() && rid.page in pool.view && Sound(pool.view[rid.page])
    modifies pool.repr
    ensures pool.Valid() && fresh(pool.repr - old(pool.repr))
    ensures pool.pins == old(pool.pins) && pool.disk.header == old(pool.disk.header)
    ensures r.Err? ==> pool.view == old(pool.view)
    ensures var st := Abs(old(pool.view)[rid.page]);
      && (r.Ok? ==> Resolves(st, SlotOf(rid)) && ChangedAt(old(pool.view), pool.view, rid.page))
      && (r.Ok? ==> WellFormed(pool.view[rid.page]) && Abs(pool.view[rid.page]) == PageModel.Delete(st, SlotOf(rid)))
      && (|| r == (if pool.disk.readOnly then Err(BufferFailure(ReadOnlyPool))
                   else if Resolves(st, SlotOf(rid)) then Ok(Unit) else Err(PageFailure(InvalidRid(rid))))
          || (!old(Serves(pool.pins, pool.capacity, rid.page)) && r.Err? && Busy(r.error)))
  {
    hide Owned, BufferPool.CacheOk, BufferPool.CacheOkBut, BufferPool.ClockOk, BufferPool.PinsOk, WellFormed, HasRoom,
      Copies, Abs, PageInv, Resolves, Serves, PageModel.Delete, DiskOk;
    var borrowed := Borrow(pool, rid.page, true);
    if borrowed.Err? {
      return Err(borrowed.error);
    }
    var guard, slotted := borrowed.value.guard, borrowed.value.slotted;
    pool.FrameIsOk(rid.page);
    pool.OwnedSets();
    PinsRestored(old(pool.pins), rid.page);
    label L:
    var deleted := slotted.Delete(rid);
    pool.Edited@L(rid.page);
    pool.EndEdit(guard);
    return if deleted.Ok? then Ok(Unit) else Err(PageFailure(deleted.error));
  }

  /** A page lists its rows in the order of its live addresses. */
  lemma {:induction false} PageScanFollowsRefs(page: PageId, st: PageState, n: nat)
    requires n <= |st.slots| <= U16_MAX
    ensures var list, refs := PageScan(page, st, n), LiveRefs(st.slots, n);
      && |list| == |refs|
      && forall k | 0 <= k < |refs| ::
        && refs[k].slot < n && refs[k] in PageModel.Rows(st)
        && list[k] == HeapRecord(Rid(page, refs[k].slot, refs[k].generation), PageModel.Rows(st)[refs[k]])
  {
    if n > 0 {
      PageScanFollowsRefs(page, st, n - 1);
      if st.slots[n - 1].Live? {
        assert Resolves(st, SlotRef(n - 1, st.slots[n - 1].generation));
      }
      hide Resolves, PageModel.Rows;
    }
  }

  /** The rows of one page: its live addresses in turn, each with its bytes. */
  method ScanPage(slotted: SlottedPage) returns (list: seq<HeapRecord>)
    requires slotted.Valid()
    ensures |slotted.State().slots| <= U16_MAX
    ensures list == PageScan(slotted.page.id, slotted.State(), |slotted.State().slots|)
  {
    hide PageModel.Rows, LiveRefs, PageScan, WellFormed, Abs;
    ghost var st := slotted.State();
    CountIsSlots(slotted);
    PageScanFollowsRefs(slotted.page.id, st, |st.slots|);
    slotted.LiveRidsListed(SlotCount(slotted.page.Content()));
    var rids := slotted.LiveRids(SlotCount(slotted.page.Content()));
    list := [];
    for k := 0 to |rids|
      invariant list == PageScan(slotted.page.id, st, |st.slots|)[..k]
    {
      var row := slotted.Get(rids[k]);
      if row.Err? {
        assert false;
      }
      list := list + [HeapRecord(rids[k], row.value)];
    }
  }

  lemma CountIsSlots(slotted: SlottedPage)
    requires slotted.Valid()
    ensures SlotCount(slotted.page.Content()) == |slotted.State().slots|
  {
  }

  /** Pins a page, lists its rows, and unpins it. */
  method ScanPageOf(pool: BufferPool, id: PageId) returns (r: Result<seq<HeapRecord>, HeapError>)
    requires pool.Valid() && id in pool.view && WellFormed(pool.view[id]) && |Abs(pool.view[id]).slots| <= U16_MAX
    modifies pool.repr
    ensures pool.Valid() && fresh(pool.repr - old(pool.repr)) && pool.pins == old(pool.pins)
    ensures pool.view == old(pool.view) && pool.disk.header == old(pool.disk.header)
    ensures
      || r == Ok(PageScan(id, Abs(pool.view[id]), |Abs(pool.view[id]).slots|))
      || (!old(Serves(pool.pins, pool.capacity, id)) && r.Err? && Busy(r.error))
  {
    hide Owned, BufferPool.CacheOk, BufferPool.CacheOkBut, BufferPool.ClockOk, BufferPool.PinsOk, WellFormed, HasRoom,
      Copies, Abs, PageInv, Serves, PageScan, DiskOk;
    var borrowed := Borrow(pool, id, false);
    if borrowed.Err? {
      return Err(borrowed.error);
    }
    var guard, slotted := borrowed.value.guard, borrowed.value.slotted;
    pool.FrameIsOk(id);
    pool.OwnedSets();
    PinsRestored(old(pool.pins), id);
    var list := ScanPage(slotted);
    pool.Release(guard);
    return Ok(list);
  }

  /** Pins a page, validates it, reads its link, and unpins it. */
  method NextOf(pool: BufferPool, id: PageId) returns (r: Result<Option<PageId>, HeapError>)
    requires pool.Valid()
    modifies pool.repr
    ensures pool.Valid() && fresh(pool.repr - old(pool.repr)) && pool.pins == old(pool.pins)
    ensures pool.view == old(pool.view) && pool.disk.header == old(pool.disk.header)
    ensures r.Ok? ==> id in pool.view && WellFormed(pool.view[id]) && r.value == Abs(pool.view[id]).next
    ensures r.Err? ==>
      || BorrowFails(pool.view, id, false, r.error)
      || (!old(Serves(pool.pins, pool.capacity, id)) && Busy(r.error))
  {
    hide Owned, BufferPool.CacheOk, BufferPool.CacheOkBut, BufferPool.ClockOk, BufferPool.PinsOk, WellFormed, HasRoom,
      Copies, Abs, Serves, DiskOk;
    var borrowed := Borrow(pool, id, false);
    if borrowed.Err? {
      return Err(borrowed.error);
    }
    var guard, slotted := borrowed.value.guard, borrowed.value.slotted;
    pool.FrameIsOk(id);
    pool.OwnedSets();
    PinsRestored(old(pool.pins), id);
    var next := slotted.NextPageId();
    pool.Release(guard);
    return Ok(next);
  }

  /** Allocates a page, writes an empty heap page over it, and keeps it pinned. */
  method AllocateHeapPage(pool: BufferPool) returns (r: Result<Borrowed, HeapError>)
    requires pool.Valid()
    modifies pool.repr
    ensures pool.Valid() && fresh(pool.repr - old(pool.repr)) && pool.disk.header.catalogRoot == old(pool.disk.header.catalogRoot)
    ensures r.Ok? <==> !pool.disk.readOnly && old(HasRoom(pool.pins, pool.capacity) && pool.disk.header.nextPageId < U32_MAX)
    ensures r.Err? ==> r.error == BufferFailure(
      if pool.disk.readOnly then ReadOnlyPool
      else if old(HasRoom(pool.pins, pool.capacity)) then DiskFailure(PageIdExhausted) else AllFramesPinned)
    ensures r.Err? ==> pool.view == old(pool.view) && pool.pins == old(pool.pins) && pool.disk.header == old(pool.disk.header)
    ensures r.Ok? ==> pool.disk.header.nextPageId == old(pool.disk.header.nextPageId) + 1
    ensures r.Ok? ==> var id := old(pool.disk.header.nextPageId);
      && Held(pool, r.value, id) && fresh(r.value.slotted) && r.value.slotted.writable
      && pool.view == old(pool.view)[id := PageEdits.Initialized()] && pool.pins == old(pool.pins) + Copies(id, 1)
  {
    hide Owned, BufferPool.CacheOk, BufferPool.CacheOkBut, BufferPool.ClockOk, BufferPool.PinsOk, HasRoom, Copies, DiskOk,
      PageFormat.BlankPage, WellFormed, Abs, EvictedInOrder, TouchedOnly, SurvivorsOf, OnlyEvictedWritten;
    ghost var id := pool.disk.header.nextPageId;
    var created := pool.AllocatePage();
    if created.Err? {
      return Err(BufferFailure(created.error));
    }
    var guard := created.value;
    pool.FrameIsOk(id);
    pool.OwnedSets();
    if guard.Write().Err? {
      assert false;
    }
    label L:
    var slotted := SlottedPage.Initialize(guard.frame.page);
    pool.Edited@L(id);
    pool.Publish(id);
    return Ok(Borrowed(guard, slotted));
  }

  /** An initialized page is a heap of its own, and no other page changed. */
  lemma InitializedHeap(view: PageMap, after: PageMap, id: PageId)
    requires after == view[id := PageEdits.Initialized()] && id < U32_MAX
    ensures ChainOk(after, [id]) && HeapOf(after, [id]) == Heap([id], [EmptyPage]) && OthersKept(view, after, [id])
  {
    PageEdits.InitializedMeaning();
    hide WellFormed, Abs, PageEdits.Initialized;
    assert HeapOf(after, [id]).states == [EmptyPage];
  }

  /** Makes a new page that holds just `record`. */
  method NewPageWith(pool: BufferPool, record: seq<byte>) returns (r: Result<Rid, HeapError>)
    requires pool.Valid() && |record| <= MAX_RECORD_SIZE
    modifies pool.repr
    ensures pool.Valid() && fresh(pool.repr - old(pool.repr)) && pool.disk.header.catalogRoot == old(pool.disk.header.catalogRoot)
    ensures pool.pins == old(pool.pins)
    ensures r.Ok? <==> !pool.disk.readOnly && old(HasRoom(pool.pins, pool.capacity) && pool.disk.header.nextPageId < U32_MAX)
    ensures r.Err? ==> r.error == BufferFailure(
      if pool.disk.readOnly then ReadOnlyPool
      else if old(HasRoom(pool.pins, pool.capacity)) then DiskFailure(PageIdExhausted) else AllFramesPinned)
    ensures r.Err? ==> pool.view == old(pool.view) && pool.disk.header == old(pool.disk.header)
    ensures r.Ok? ==> pool.disk.header.nextPageId == old(pool.disk.header.nextPageId) + 1
    ensures r.Ok? ==> var id := old(pool.disk.header.nextPageId);
      && r.value == Rid(id, 0, 1) && ChangedAt(old(pool.view), pool.view, id)
      && WellFormed(pool.view[id]) && Abs(pool.view[id]) == PageModel.Insert(EmptyPage, record)
  {
    hide Owned, BufferPool.CacheOk, BufferPool.CacheOkBut, BufferPool.ClockOk, BufferPool.PinsOk, HasRoom, Copies, DiskOk,
      WellFormed, Abs, PageInv, PageModel.Insert, InsertResult, EvictedInOrder, TouchedOnly, SurvivorsOf, OnlyEvictedWritten;
    ghost var id := pool.disk.header.nextPageId;
    var created := AllocateHeapPage(pool);
    if created.Err? {
      return Err(created.error);
    }
    var guard, slotted := created.value.guard, created.value.slotted;
    pool.FrameIsOk(id);
    pool.OwnedSets();
    PinsRestored(old(pool.pins), id);
    PageEdits.InitializedMeaning();
    FitsInEmptyPage(id, record);
    label L:
    r := StoreInPage(slotted, record);
    pool.Edited@L(id);
    pool.EndEdit(guard);
  }

  lemma FitsInEmptyPage(id: PageId, record: seq<byte>)
    requires |record| <= MAX_RECORD_SIZE
    ensures PageInv(EmptyPage) && PageInsertResult(EmptyPage, id, record, false) == Ok(Rid(id, 0, 1))
  {
  }

  /** Points a page at its successor; nothing can stop this once the page could be pinned and written. */
  method LinkTo(pool: BufferPool, id: PageId, next: PageId) returns (r: Result<Unit, HeapError>)
    requires pool.Valid() && id in pool.view && WellFormed(pool.view[id]) && next != U32_MAX
    modifies pool.repr
    ensures pool.Valid() && fresh(pool.repr - old(pool.repr))
    ensures pool.pins == old(pool.pins) && pool.disk.header == old(pool.disk.header)
    ensures old(Serves(pool.pins, pool.capacity, id)) && !pool.disk.readOnly ==> r.Ok?
    ensures r.Err? ==> pool.view == old(pool.view)
    ensures r.Ok? ==> ChangedAt(old(pool.view), pool.view, id) && WellFormed(pool.view[id])
    ensures r.Ok? ==> Abs(pool.view[id]) == Abs(old(pool.view)[id]).(next := Some(next))
  {
    hide Owned, BufferPool.CacheOk, BufferPool.CacheOkBut, BufferPool.ClockOk, BufferPool.PinsOk, HasRoom, Copies, DiskOk,
      WellFormed, Abs;
    var borrowed := Borrow(pool, id, true);
    if borrowed.Err? {
      return Err(borrowed.error);
    }
    var guard, slotted := borrowed.value.guard, borrowed.value.slotted;
    pool.FrameIsOk(id);
    pool.OwnedSets();
    PinsRestored(old(pool.pins), id);
    label L:
    var linked := slotted.SetNextPageId(Some(next));
    pool.Edited@L(id);
    pool.EndEdit(guard);
    if linked.Err? {
      assert false;
    }
    return Ok(Unit);
  }

  // ----- What changing a page does to a chain -----

  /** Every page outside `pages` that was there is as it was. */
  ghost predicate OthersKept(before: PageMap, after: PageMap, pages: seq<PageId>) {
    forall id | id in before && id !in pages :: id in after && after[id] == before[id]
  }

  /** Changing a page outside the chain, or adding one, leaves the chain as it was. */
  lemma {:induction false} ChainFrame(before: PageMap, after: PageMap, pages: seq<PageId>)
    requires ChainOk(before, pages)
    requires forall i | 0 <= i < |pages| :: pages[i] in after && after[pages[i]] == before[pages[i]]
    ensures ChainOk(after, pages) && HeapOf(after, pages) == HeapOf(before, pages)
  {
    hide WellFormed, Abs, HeapInv;
    assert HeapOf(after, pages).states == HeapOf(before, pages).states;
  }

  lemma {:induction false} PageUpdated(before: PageMap, after: PageMap, pages: seq<PageId>, i: nat)
    requires ChainOk(before, pages) && i < |pages| && ChangedAt(before, after, pages[i])
    requires WellFormed(after[pages[i]])
    ensures InView(after, pages)
    ensures HeapOf(after, pages) == HeapOf(before, pages).(states := HeapOf(before, pages).states[i := Abs(after[pages[i]])])
    ensures OthersKept(before, after, pages)
  {
    hide WellFormed, Abs, PageInv, Linked;
    var h, k := HeapOf(before, pages), HeapOf(after, pages);
    assert k.states == h.states[i := Abs(after[pages[i]])];
  }

  /** Page `i` took the record: the heap is the one the insertion rule gives. */
  lemma {:induction false} StoredInChain(before: PageMap, after: PageMap, pages: seq<PageId>, i: nat, record: seq<byte>)
    requires ChainOk(before, pages) && i < |pages| && ChangedAt(before, after, pages[i])
    requires WellFormed(after[pages[i]]) && Abs(after[pages[i]]) == PageModel.Insert(Abs(before[pages[i]]), record)
    ensures ChainOk(after, pages) && OthersKept(before, after, pages)
    ensures HeapOf(after, pages) == HeapOf(before, pages).(states := HeapOf(before, pages).states[i := PageModel.Insert(HeapOf(before, pages).states[i], record)])
  {
    PageUpdated(before, after, pages, i);
    InsertAddsOneRow(Abs(before[pages[i]]), record);
    hide WellFormed, Abs, PageInv, PageModel.Insert, Linked;
    UpdatedPageInv(HeapOf(before, pages), i, Abs(after[pages[i]]));
  }

  /** A new page was filled and then linked from the old last page. */
  lemma {:induction false} ChainGrown(before: PageMap, between: PageMap, after: PageMap, pages: seq<PageId>, id: PageId, record: seq<byte>)
    requires ChainOk(before, pages) && id !in before && id < U32_MAX && |record| <= MAX_RECORD_SIZE
    requires ChangedAt(before, between, id) && ChangedAt(between, after, pages[|pages| - 1])
    requires WellFormed(between[id]) && Abs(between[id]) == PageModel.Insert(EmptyPage, record)
    requires var last := pages[|pages| - 1];
      WellFormed(after[last]) && Abs(after[last]) == Abs(before[last]).(next := Some(id))
    ensures ChainOk(after, pages + [id]) && OthersKept(before, after, pages)
    ensures HeapOf(after, pages + [id]) == Appended(HeapOf(before, pages), record, id)
  {
    AppendedInv(HeapOf(before, pages), record, id);
    DistinctFromLast(HeapOf(before, pages));
    hide WellFormed, Abs, HeapInv, PageModel.Insert;
    assert id !in pages;
    GrownStates(before, between, after, pages, id, record);
  }

  lemma DistinctFromLast(h: Heap)
    requires HeapInv(h)
    ensures forall i | 0 <= i < |h.pages| - 1 :: h.pages[i] != h.pages[|h.pages| - 1]
  {
  }

  lemma {:induction false} GrownStates(before: PageMap, between: PageMap, after: PageMap, pages: seq<PageId>, id: PageId, record: seq<byte>)
    requires InView(before, pages) && id !in pages && 1 <= |pages|
    requires ChangedAt(before, between, id) && ChangedAt(between, after, pages[|pages| - 1])
    requires forall i | 0 <= i < |pages| - 1 :: pages[i] != pages[|pages| - 1]
    requires WellFormed(between[id]) && Abs(between[id]) == PageModel.Insert(EmptyPage, record)
    requires var last := pages[|pages| - 1];
      WellFormed(after[last]) && Abs(after[last]) == Abs(before[last]).(next := Some(id))
    ensures InView(after, pages + [id])
    ensures HeapOf(after, pages + [id]) == Appended(HeapOf(before, pages), record, id)
  {
    hide WellFormed, Abs, PageModel.Insert;
    assert after[id] == between[id];
    assert forall i | 0 <= i < |pages| - 1 :: after[pages[i]] == before[pages[i]];
    assert HeapOf(after, pages + [id]).states == Appended(HeapOf(before, pages), record, id).states;
  }

  /** The page of `rid` lost that row: the heap is the one the deletion rule gives. */
  lemma {:induction false} DeletedInChain(before: PageMap, after: PageMap, pages: seq<PageId>, rid: Rid)
    requires ChainOk(before, pages) && rid.page in pages && ChangedAt(before, after, rid.page)
    requires Resolves(Abs(before[rid.page]), SlotOf(rid))
    requires WellFormed(after[rid.page]) && Abs(after[rid.page]) == PageModel.Delete(Abs(before[rid.page]), SlotOf(rid))
    ensures ChainOk(after, pages) && OthersKept(before, after, pages)
    ensures HeapOf(after, pages) == HeapModel.Deleted(HeapOf(before, pages), rid)
  {
    PageUpdated(before, after, pages, IndexOf(pages, rid.page));
    hide WellFormed, Abs, PageInv, PageModel.Delete, HeapInv;
    DeletedInv(HeapOf(before, pages), rid);
  }

  lemma PageIsSound(view: PageMap, pages: seq<PageId>, i: nat)
    requires ChainOk(view, pages) && i < |pages|
    ensures pages[i] in view && Sound(view[pages[i]]) && HeapOf(view, pages).states[i] == Abs(view[pages[i]])
    ensures i == |pages| - 1 ==> Abs(view[pages[i]]).next == None
  {
    hide WellFormed, Abs, PageInv;
  }

  lemma LastPageIsSound(view: PageMap, pages: seq<PageId>)
    requires ChainOk(view, pages)
    ensures |pages| >= 1
    ensures var last := pages[|pages| - 1]; last in view && WellFormed(view[last]) && Abs(view[last]).next == None
  {
    PageIsSound(view, pages, |pages| - 1);
    hide WellFormed, Abs, PageInv;
  }

  // ----- The heap file -----

  /** What inserting a record gives, when the pool can serve every page. */
  ghost function InsertOutcome(h: Heap, record: seq<byte>, newPage: PageId, readOnly: bool): Result<Rid, HeapError>
    requires HeapInv(h)
  {
    if |record| > MAX_RECORD_SIZE then Err(HeapError.RecordTooLarge(|record|))
    else if readOnly then Err(BufferFailure(ReadOnlyPool))
    else
      FirstFit(h.states, record, 0);
      match Place(h.states, record)
      case Refused(e) => Err(PageFailure(e))
      case NewPage => if newPage < U32_MAX then Ok(Rid(newPage, 0, 1)) else Err(BufferFailure(DiskFailure(PageIdExhausted)))
      case At(i, slot) => Ok(RidOf((h.pages[i], slot)))
  }

  /** A page without room to spare stops the scan: it is jammed, and no page before it admits the record. */
  ghost predicate Stops(h: Heap, record: seq<byte>)
    requires |h.pages| == |h.states|
  {
    exists i :: 0 <= i < |h.states| && Jammed(h.states[i]) && forall j | 0 <= j < i :: !Admits(h.states[j], record)
  }

  ghost predicate AnyAdmits(h: Heap, record: seq<byte>) {
    exists i :: 0 <= i < |h.states| && Admits(h.states[i], record)
  }

  /** The first page that admits the record is page `id`. */
  ghost predicate FirstAdmits(h: Heap, record: seq<byte>, id: PageId)
    requires |h.pages| == |h.states|
  {
    exists i :: 0 <= i < |h.states| && h.pages[i] == id && Admits(h.states[i], record) && forall j | 0 <= j < i :: !Admits(h.states[j], record)
  }

  /** Each way in which an insertion ends, by the condition under which it does. */
  lemma {:induction false} InsertionEnds(h: Heap, record: seq<byte>, next: PageId, readOnly: bool)
    requires HeapInv(h)
    ensures var r, small := InsertOutcome(h, record, next, readOnly), |record| <= 8152;
      && (r == Err(HeapError.RecordTooLarge(|record|)) <==> !small)
      && (r == Err(BufferFailure(ReadOnlyPool)) <==> small && readOnly)
      && (r.Err? && r.error.PageFailure? <==> small && !readOnly && Stops(h, record))
      && (r == Err(BufferFailure(DiskFailure(PageIdExhausted))) <==>
            small && !readOnly && !Stops(h, record) && !AnyAdmits(h, record) && next == 0xFFFF_FFFF)
      && (r.Ok? <==> small && !readOnly && !Stops(h, record) && (AnyAdmits(h, record) || next < 0xFFFF_FFFF))
      && (r.Ok? ==> if AnyAdmits(h, record) then FirstAdmits(h, record, r.value.page) else r.value == Rid(next, 0, 1))
  {
    if |record| <= 8152 {
      FirstFit(h.states, record, 0);
      RefusedExactlyWhenJammed(h.states, record);
    }
    hide PageInv, Place, Admits, Jammed, InsertResult;
  }

  // ----- Walking a chain of any file -----

  /** What following links from a page leads to: a whole chain, or the first thing wrong with it. */
  datatype WalkResult =
    | Chain(pages: seq<PageId>)
    | Cycle(id: PageId)
    | BadLink(id: PageId)
    | BadPage(id: PageId)

  ghost function Seen(pages: seq<PageId>): set<PageId> {
    set id | id in pages
  }

  ghost function Walk(view: PageMap, current: PageId, visited: seq<PageId>): WalkResult
    decreases view.Keys - Seen(visited)
  {
    if current in visited then Cycle(current)
    else if current !in view then BadLink(current)
    else if !WellFormed(view[current]) then BadPage(current)
    else
      assert Seen(visited + [current]) == Seen(visited) + {current};
      match Abs(view[current]).next
      case None => Chain(visited + [current])
      case Some(next) => Walk(view, next, visited + [current])
  }

  /** Member `i` is in the view, valid, and links to the next member, or to none if it is the last. */
  ghost predicate LinkOk(view: PageMap, pages: seq<PageId>, i: nat)
    requires i < |pages|
  {
    && pages[i] in view && WellFormed(view[pages[i]])
    && Abs(view[pages[i]]).next == if i + 1 < |pages| then Some(pages[i + 1]) else None
  }

  /** `pages` runs from its first page along the links to a page that has none, and meets no page twice. */
  ghost predicate WholeChain(view: PageMap, pages: seq<PageId>) {
    && 1 <= |pages| && DistinctPages(pages)
    && forall i | 0 <= i < |pages| :: LinkOk(view, pages, i)
  }

  lemma {:induction false} WalkFinds(view: PageMap, pages: seq<PageId>, i: nat)
    requires WholeChain(view, pages) && i < |pages|
    ensures Walk(view, pages[i], pages[..i]) == Chain(pages)
    decreases |pages| - i
  {
    hide WellFormed, Abs;
    assert LinkOk(view, pages, i);
    assert pages[..i] + [pages[i]] == pages[..i + 1];
    assert pages[i] !in pages[..i];
    if i + 1 < |pages| {
      WalkFinds(view, pages, i + 1);
    } else {
      assert pages[..i + 1] == pages;
    }
  }

  lemma {:induction false} WalkFound(view: PageMap, current: PageId, visited: seq<PageId>)
    requires DistinctPages(visited) && Walk(view, current, visited).Chain?
    ensures var pages, n := Walk(view, current, visited).pages, |visited|;
      && n < |pages| && pages[..n] == visited && pages[n] == current && DistinctPages(pages)
      && forall i | n <= i < |pages| :: LinkOk(view, pages, i)
    decreases view.Keys - Seen(visited)
  {
    hide WellFormed, Abs;
    assert Seen(visited + [current]) == Seen(visited) + {current};
    var next := Abs(view[current]).next;
    if next.Some? {
      WalkFound(view, next.value, visited + [current]);
      var pages := Walk(view, current, visited).pages;
      assert pages[..|visited|] == pages[..|visited| + 1][..|visited|] == visited;
    }
  }

  /** Following links finds `pages` exactly when `pages` is a whole chain from its first page. */
  lemma {:induction false} WalkIsExact(view: PageMap, first: PageId, pages: seq<PageId>)
    ensures Walk(view, first, []) == Chain(pages) <==> WholeChain(view, pages) && pages[0] == first
  {
    if WholeChain(view, pages) && pages[0] == first {
      assert pages[..0] == [];
      WalkFinds(view, pages, 0);
    }
    if Walk(view, first, []) == Chain(pages) {
      WalkFound(view, first, []);
    }
  }

  lemma {:induction false} BadLinkIsMissing(view: PageMap, current: PageId, visited: seq<PageId>)
    ensures Walk(view, current, visited).BadLink? ==> Walk(view, current, visited).id !in view
    decreases view.Keys - Seen(visited)
  {
    hide WellFormed, Abs;
    if current !in visited && current in view && WellFormed(view[current]) && Abs(view[current]).next.Some? {
      assert Seen(visited + [current]) == Seen(visited) + {current};
      BadLinkIsMissing(view, Abs(view[current]).next.value, visited + [current]);
    }
  }

  /** Following links stops at the first page itself exactly when that page is not allocated. */
  lemma {:induction false} FirstPageMissing(view: PageMap, first: PageId)
    ensures Walk(view, first, []) == BadLink(first) <==> first !in view
  {
    BadLinkIsMissing(view, first, []);
    hide WellFormed, Abs;
  }

  /** From `first` the links lead along `pages`, all valid and none met twice, and then to `id`. */
  ghost predicate LeadsTo(view: PageMap, first: PageId, pages: seq<PageId>, id: PageId) {
    && first == (if |pages| == 0 then id else pages[0]) && DistinctPages(pages)
    && forall i | 0 <= i < |pages| :: LinksOn(view, pages, id, i)
  }

  ghost predicate LinksOn(view: PageMap, pages: seq<PageId>, id: PageId, i: nat)
    requires i < |pages|
  {
    && pages[i] in view && WellFormed(view[pages[i]])
    && Abs(view[pages[i]]).next == Some(if i + 1 < |pages| then pages[i + 1] else id)
  }

  lemma {:induction false} WalkGoesAlong(view: PageMap, pages: seq<PageId>, id: PageId, i: nat)
    requires i < |pages| && LeadsTo(view, pages[0], pages, id)
    ensures Walk(view, pages[i], pages[..i]) == Walk(view, id, pages)
    decreases |pages| - i
  {
    hide WellFormed, Abs;
    assert LinksOn(view, pages, id, i);
    assert pages[..i] + [pages[i]] == pages[..i + 1];
    assert pages[i] !in pages[..i];
    if i + 1 < |pages| {
      WalkGoesAlong(view, pages, id, i + 1);
    } else {
      assert pages[..i + 1] == pages;
    }
  }

  lemma {:induction false} WalkLed(view: PageMap, first: PageId, pages: seq<PageId>, id: PageId)
    requires LeadsTo(view, first, pages, id)
    ensures Walk(view, first, []) == Walk(view, id, pages)
  {
    hide WellFormed, Abs, Walk, LinksOn;
    if |pages| > 0 {
      WalkGoesAlong(view, pages, id, 0);
      assert pages[..0] == [];
    } else {
      assert pages == [];
    }
  }

  lemma LeadsFurther(view: PageMap, first: PageId, pages: seq<PageId>, id: PageId, next: PageId)
    requires LeadsTo(view, first, pages, id) && id !in pages && id in view && WellFormed(view[id]) && Abs(view[id]).next == Some(next)
    ensures LeadsTo(view, first, pages + [id], next)
  {
    hide WellFormed, Abs;
    forall i | 0 <= i < |pages| ensures LinksOn(view, pages + [id], next, i) {
      assert LinksOn(view, pages, id, i);
    }
  }

  /** Where a walk that finds no chain stops, with the pages that lead there. */
  lemma {:induction false} WalkStopsAt(view: PageMap, first: PageId, current: PageId, visited: seq<PageId>) returns (pages: seq<PageId>, id: PageId)
    requires LeadsTo(view, first, visited, current) && !Walk(view, current, visited).Chain?
    ensures LeadsTo(view, first, pages, id)
    ensures Walk(view, current, visited) ==
      if id in pages then Cycle(id) else if id !in view then BadLink(id) else BadPage(id)
    ensures id in view && id !in pages ==> !WellFormed(view[id])
    decreases view.Keys - Seen(visited)
  {
    hide LeadsTo, WellFormed, Abs;
    pages, id := visited, current;
    if current !in visited && current in view && WellFormed(view[current]) {
      assert Seen(visited + [current]) == Seen(visited) + {current};
      LeadsFurther(view, first, visited, current, Abs(view[current]).next.value);
      pages, id := WalkStopsAt(view, first, Abs(view[current]).next.value, visited + [current]);
    }
  }

  /** The fault that following links meets: a page met before, one that is not there, or one that is not valid. */
  lemma {:induction false} WalkFails(view: PageMap, first: PageId, id: PageId)
    ensures Walk(view, first, []) == Cycle(id) <==> exists pages :: LeadsTo(view, first, pages, id) && id in pages
    ensures Walk(view, first, []) == BadLink(id) <==> id !in view && exists pages :: LeadsTo(view, first, pages, id)
    ensures Walk(view, first, []) == BadPage(id) <==>
      id in view && !WellFormed(view[id]) && exists pages :: LeadsTo(view, first, pages, id) && id !in pages
  {
    hide LeadsTo, WellFormed, Abs;
    forall pages | LeadsTo(view, first, pages, id) ensures Walk(view, first, []) == Walk(view, id, pages) {
      WalkLed(view, first, pages, id);
    }
    if !Walk(view, first, []).Chain? {
      NothingLeads(view, first);
      var pages, at := WalkStopsAt(view, first, first, []);
      PathStays(view, first, pages, id);
    }
  }

  lemma NothingLeads(view: PageMap, first: PageId)
    ensures LeadsTo(view, first, [], first)
  {
  }

  lemma PathStays(view: PageMap, first: PageId, pages: seq<PageId>, id: PageId)
    ensures forall p | p in pages && LeadsTo(view, first, pages, id) :: p in view
  {
    hide WellFormed, Abs;
    if LeadsTo(view, first, pages, id) {
      forall i | 0 <= i < |pages| ensures pages[i] in view {
        assert LinksOn(view, pages, id, i);
      }
    }
  }

  /** A chain found by following links can be read. */
  lemma {:induction false} FoundChainReads(view: PageMap, first: PageId, pages: seq<PageId>)
    requires Walk(view, first, []) == Chain(pages)
    ensures ReadableChain(view, pages)
  {
    WalkIsExact(view, first, pages);
    hide Walk, WellFormed, Abs;
    forall i | 0 <= i < |pages| ensures pages[i] in view && WellFormed(view[pages[i]]) {
      assert LinkOk(view, pages, i);
    }
    forall i | 0 <= i < |pages| ensures |HeapOf(view, pages).states[i].slots| <= U16_MAX {
      FewSlots(view[pages[i]]);
    }
  }

  lemma FewSlots(b: PageBytes)
    requires WellFormed(b)
    ensures |Abs(b).slots| <= U16_MAX
  {
  }

  /** A chain as the engine builds it is found again from its first page. */
  lemma {:induction false} EngineChainIsFound(view: PageMap, pages: seq<PageId>)
    requires ChainOk(view, pages)
    ensures |pages| >= 1 && Walk(view, pages[0], []) == Chain(pages)
  {
    LastPageIsSound(view, pages);
    hide WellFormed, Abs, PageInv, Walk;
    forall i | 0 <= i < |pages| ensures LinkOk(view, pages, i) {
      assert HeapOf(view, pages).states[i].next == if i + 1 < |pages| then Some(pages[i + 1]) else None;
    }
    WalkIsExact(view, pages[0], pages);
  }

  /** Why a heap cannot be opened from a pool that can serve any page. */
  ghost predicate OpenFails(w: WalkResult, e: HeapError) {
    match w
    case Chain(_) => false
    case Cycle(id) => e == PageChainCycle(id)
    case BadLink(id) => e == BufferFailure(MissError(id, true))
    case BadPage(_) => e.PageFailure? && e.page.Corrupt?
  }

  lemma ChainReads(view: PageMap, pages: seq<PageId>)
    requires ChainOk(view, pages)
    ensures ReadableChain(view, pages)
  {
    InvHasShape(HeapOf(view, pages));
    hide WellFormed, Abs, HeapInv, HeapShape;
  }

  /** An address of a member page names the row its page says it names. */
  lemma RowInPage(view: PageMap, pages: seq<PageId>, rid: Rid)
    requires ReadableChain(view, pages) && rid.page in pages
    ensures rid.page in view && WellFormed(view[rid.page])
    ensures var h, rows := HeapOf(view, pages), PageModel.Rows(Abs(view[rid.page]));
      && (rid in HeapModel.Rows(h) <==> SlotOf(rid) in rows)
      && (rid in HeapModel.Rows(h) ==> HeapModel.Rows(h)[rid] == rows[SlotOf(rid)])
  {
    var i := IndexOf(pages, rid.page);
    hide WellFormed, Abs, HeapShape, IndexOf;
  }

  lemma PageIsReadable(view: PageMap, pages: seq<PageId>, i: nat)
    requires ReadableChain(view, pages) && i < |pages|
    ensures pages[i] in view && WellFormed(view[pages[i]])
    ensures HeapOf(view, pages).states[i] == Abs(view[pages[i]]) && |Abs(view[pages[i]]).slots| <= U16_MAX
  {
    hide WellFormed, Abs;
  }

  /** The outcome of an insertion agrees with the step of the specification. */
  lemma OutcomeIsStep(h: Heap, record: seq<byte>, next: PageId)
    requires HeapInv(h)
    ensures InsertOutcome(h, record, next, false).Ok? <==> HeapHistory.Accepts(HeapHistory.HeapState(h, next), record)
  {
    if |record| <= MAX_RECORD_SIZE {
      FirstFit(h.states, record, 0);
    }
    hide HeapInv, PageInv, Admits, Jammed, InsertResult;
  }

  /** The address an insertion returns is the one its step hands out. */
  lemma OutcomeIsIssued(h: Heap, record: seq<byte>, next: PageId)
    requires HeapHistory.StateInv(HeapHistory.HeapState(h, next))
    ensures var outcome := InsertOutcome(h, record, next, false);
      HeapHistory.IssuedInStep(HeapHistory.HeapState(h, next), HeapHistory.InsertRecord(record)) ==
        if outcome.Ok? then [outcome.value] else []
  {
    OutcomeIsStep(h, record, next);
    if |record| <= MAX_RECORD_SIZE {
      FirstFit(h.states, record, 0);
    }
    hide HeapInv, PageInv, Admits, Jammed, InsertResult;
  }

  /** One more row, at an address that named nothing before. */
  ghost predicate GainsRow(h: Heap, k: Heap, rid: Rid, record: seq<byte>) {
    && HeapShape(h) && HeapShape(k)
    && rid !in HeapModel.Rows(h) && HeapModel.Rows(k) == HeapModel.Rows(h)[rid := record]
  }

  /** Just this row is gone. */
  ghost predicate LosesRow(h: Heap, k: Heap, rid: Rid) {
    && HeapShape(h) && HeapShape(k)
    && rid in HeapModel.Rows(h) && HeapModel.Rows(k) == HeapModel.Rows(h) - {rid}
  }

  lemma {:induction false} InsertionGainsRow(view: PageMap, pages: seq<PageId>, record: seq<byte>, next: PageId)
    requires ChainOk(view, pages) && next !in view
    ensures InsertOutcome(HeapOf(view, pages), record, next, false).Ok? ==>
      GainsRow(HeapOf(view, pages), Inserted(HeapOf(view, pages), record, next), InsertOutcome(HeapOf(view, pages), record, next, false).value, record)
  {
    var h := HeapOf(view, pages);
    if InsertOutcome(h, record, next, false).Ok? {
      assert next !in h.pages by {
        AbsentFromChain(view, pages, next);
      }
      hide HeapOf, ChainOk;
      FirstFit(h.states, record, 0);
      InsertAddsRow(h, record, next);
      InvHasShape(h);
      InvHasShape(Inserted(h, record, next));
      hide HeapInv, HeapShape, HeapModel.Rows, InsertResult, PageModel.Insert, Admits, Jammed, Inserted;
    }
  }

  lemma {:induction false} DeletionLosesRow(h: Heap, rid: Rid)
    requires HeapInv(h) && HeapShape(h) && rid in HeapModel.Rows(h)
    ensures LosesRow(h, HeapModel.Deleted(h, rid), rid)
  {
    DeleteRemovesRow(h, rid);
    InvHasShape(HeapModel.Deleted(h, rid));
    hide HeapInv, HeapShape, HeapModel.Rows, HeapModel.Deleted;
  }

  lemma AbsentFromChain(view: PageMap, pages: seq<PageId>, next: PageId)
    requires InView(view, pages) && next !in view
    ensures next !in pages
  {
    hide WellFormed;
    forall i | 0 <= i < |pages| ensures pages[i] != next {
      assert pages[i] in view;
    }
  }

  class HeapFile {
    var pages: seq<PageId>

    constructor (pages: seq<PageId>)
      ensures this.pages == pages
    {
      this.pages := pages;
    }

    /** Whether the pool holds this heap's pages, so that it can be read. */
    ghost predicate Readable(pool: BufferPool)
      reads this, pool, pool.repr
    {
      this !in pool.repr && pool.Valid() && ReadableChain(pool.view, pages)
    }

    /** Whether the pool holds this heap's chain, whole and as the engine builds it. */
    ghost predicate Valid(pool: BufferPool)
      reads this, pool, pool.repr
    {
      this !in pool.repr && pool.Valid() && ChainOk(pool.view, pages)
    }

    /** A new heap of one empty page. */
    static method Create(pool: BufferPool) returns (r: Result<HeapFile, HeapError>)
      requires pool.Valid()
      modifies pool.repr
      ensures pool.Valid() && fresh(pool.repr - old(pool.repr)) && pool.pins == old(pool.pins)
      ensures pool.disk.header.catalogRoot == old(pool.disk.header.catalogRoot)
      ensures r.Ok? <==> !pool.disk.readOnly && old(HasRoom(pool.pins, pool.capacity) && pool.disk.header.nextPageId < U32_MAX)
      ensures r.Err? ==> r.error == BufferFailure(
        if pool.disk.readOnly then ReadOnlyPool
        else if old(HasRoom(pool.pins, pool.capacity)) then DiskFailure(PageIdExhausted) else AllFramesPinned)
      ensures r.Err? ==> pool.view == old(pool.view) && pool.disk.header == old(pool.disk.header)
      ensures r.Ok? ==> var id := old(pool.disk.header.nextPageId);
        && fresh(r.value) && r.value.pages == [id] && r.value.Valid(pool) && id in pool.frames
        && pool.disk.header.nextPageId == id + 1 && pool.view == old(pool.view)[id := PageEdits.Initialized()]
        && HeapOf(pool.view, [id]) == Heap([id], [EmptyPage])
        && OthersKept(old(pool.view), pool.view, [id])
    {
      hide Owned, BufferPool.CacheOk, BufferPool.CacheOkBut, BufferPool.ClockOk, BufferPool.PinsOk, HasRoom, Copies, DiskOk,
        WellFormed, Abs, EvictedInOrder, TouchedOnly, SurvivorsOf, OnlyEvictedWritten, ChainOk, HeapOf, OthersKept, InView, PageEdits.Initialized;
      ghost var id := pool.disk.header.nextPageId;
      var created := AllocateHeapPage(pool);
      if created.Err? {
        return Err(created.error);
      }
      var guard := created.value.guard;
      pool.FrameIsOk(id);
      pool.OwnedSets();
      PinsRestored(old(pool.pins), id);
      InitializedHeap(old(pool.view), pool.view, id);
      pool.Release(guard);
      var heap := new HeapFile([guard.frame.pageId]);
      return Ok(heap);
    }

    /**
     * Follows the chain from its first page in any file. It ends because every step visits one more
     * allocated page, and gives exactly what Walk says.
     */
    static method Open(pool: BufferPool, first: PageId) returns (r: Result<HeapFile, HeapError>)
      requires pool.Valid()
      modifies pool.repr
      ensures pool.Valid() && fresh(pool.repr - old(pool.repr)) && pool.pins == old(pool.pins)
      ensures pool.view == old(pool.view) && pool.disk.header == old(pool.disk.header)
      ensures r.Ok? ==> fresh(r.value) && r.value.Readable(pool) && Walk(pool.view, first, []) == Chain(r.value.pages)
      ensures r.Err? ==>
        || OpenFails(Walk(pool.view, first, []), r.error)
        || (!old(Calm(pool.pins, pool.capacity)) && Busy(r.error))
    {
      hide Owned, BufferPool.CacheOk, BufferPool.CacheOkBut, BufferPool.ClockOk, BufferPool.PinsOk, HasRoom, Copies, DiskOk,
        WellFormed, Abs;
      var pages: seq<PageId>, visited: set<PageId>, current := [], {}, first;
      while true
        invariant pool.Valid() && fresh(pool.repr - old(pool.repr)) && pool.pins == old(pool.pins)
        invariant pool.view == old(pool.view) && pool.disk.header == old(pool.disk.header)
        invariant visited == Seen(pages) && Walk(pool.view, first, []) == Walk(pool.view, current, pages)
        decreases pool.view.Keys - visited
      {
        if current in visited {
          return Err(PageChainCycle(current));
        }
        visited := visited + {current};
        pages := pages + [current];
        var next := NextOf(pool, current);
        if next.Err? {
          return Err(next.error);
        }
        if next.value.None? {
          break;
        }
        current := next.value.value;
      }
      FoundChainReads(pool.view, first, pages);
      hide ReadableChain;
      var heap := new HeapFile(pages);
      return Ok(heap);
    }

    /** Appends a page holding the record and links it from the old last page. */
    method AppendPageWithRecord(pool: BufferPool, record: seq<byte>) returns (r: Result<Rid, HeapError>)
      requires Valid(pool) && |record| <= MAX_RECORD_SIZE && !pool.disk.readOnly
      requires pool.pins[pages[|pages| - 1]] < U32_MAX
      modifies this, pool.repr
      ensures Valid(pool) && fresh(pool.repr - old(pool.repr)) && pool.pins == old(pool.pins)
      ensures pool.disk.header.catalogRoot == old(pool.disk.header.catalogRoot)
      ensures r.Ok? <==> old(HasRoom(pool.pins, pool.capacity) && pool.disk.header.nextPageId < U32_MAX)
      ensures r.Err? ==> r.error == BufferFailure(
        if old(HasRoom(pool.pins, pool.capacity)) then DiskFailure(PageIdExhausted) else AllFramesPinned)
      ensures r.Err? ==> pool.view == old(pool.view) && pool.disk.header == old(pool.disk.header) && pages == old(pages)
      ensures r.Ok? ==> var id := old(pool.disk.header.nextPageId);
        && r.value == Rid(id, 0, 1) && id !in old(pages)
        && HeapOf(pool.view, pages) == Appended(old(HeapOf(pool.view, pages)), record, id)
        && pool.disk.header.nextPageId == id + 1
      ensures OthersKept(old(pool.view), pool.view, old(pages))
    {
      hide Owned, BufferPool.CacheOk, BufferPool.CacheOkBut, BufferPool.ClockOk, BufferPool.PinsOk, HasRoom, Copies, DiskOk,
        WellFormed, Abs, HeapInv, PageInv, PageModel.Insert;
      ghost var before, id := pool.view, pool.disk.header.nextPageId;
      pool.AllocatedIds();
      LastPageIsSound(pool.view, pages);
      r := NewPageWith(pool, record);
      if r.Err? {
        return;
      }
      ghost var between := pool.view;
      var linked := LinkTo(pool, pages[|pages| - 1], r.value.page);
      if linked.Err? {
        assert false;
      }
      ChainGrown(before, between, pool.view, pages, id, record);
      pages := pages + [r.value.page];
    }

    /**
     * Stores a record in the first page with room, or in a new last page. The outcome is exactly
     * InsertOutcome unless pins held elsewhere get in the way, and a failed insertion changes nothing.
     */
    method Insert(pool: BufferPool, record: seq<byte>) returns (r: Result<Rid, HeapError>)
      requires Valid(pool)
      modifies this, pool.repr
      ensures Valid(pool) && fresh(pool.repr - old(pool.repr)) && pool.pins == old(pool.pins)
      ensures pool.disk.header.catalogRoot == old(pool.disk.header.catalogRoot)
      ensures OthersKept(old(pool.view), pool.view, old(pages))
      ensures r.Err? ==> pool.view == old(pool.view) && pool.disk.header == old(pool.disk.header) && pages == old(pages)
      ensures var h, next := old(HeapOf(pool.view, pages)), old(pool.disk.header.nextPageId);
        && (r == InsertOutcome(h, record, next, pool.disk.readOnly)
            || (!old(Calm(pool.pins, pool.capacity)) && r.Err? && Busy(r.error)))
        && (r.Ok? ==> HeapOf(pool.view, pages) == Inserted(h, record, next))
        && pool.disk.header.nextPageId == next + if r.Ok? && Place(h.states, record).NewPage? then 1 else 0
      ensures r.Ok? ==> !pool.disk.readOnly && GainsRow(old(HeapOf(pool.view, pages)), HeapOf(pool.view, pages), r.value, record)
      ensures |record| > 8152 <==> r == Err(HeapError.RecordTooLarge(|record|))
    {
      hide Owned, BufferPool.CacheOk, BufferPool.CacheOkBut, BufferPool.ClockOk, BufferPool.PinsOk, HasRoom, Copies, DiskOk,
        WellFormed, Abs, HeapInv, PageInv, PageModel.Insert, InsertResult, Appended, Admits, Jammed, GainsRow;
      pool.AllocatedIds();
      InsertionGainsRow(pool.view, pages, record, pool.disk.header.nextPageId);
      if |record| > MAX_RECORD_SIZE {
        return Err(HeapError.RecordTooLarge(|record|));
      }
      ghost var before, h, next := pool.view, HeapOf(pool.view, pages), pool.disk.header.nextPageId;
      LastPageIsSound(pool.view, pages);
      for i := 0 to |pages|
        invariant Valid(pool) && fresh(pool.repr - old(pool.repr)) && pool.pins == old(pool.pins)
        invariant pool.view == before && pool.disk.header == old(pool.disk.header) && pages == old(pages)
        invariant Place(h.states, record) == Place(h.states, record, i)
        invariant i > 0 ==> pool.pins[pages[i - 1]] < U32_MAX && !pool.disk.readOnly
      {
        PageIsSound(pool.view, pages, i);
        r := InsertIntoPage(pool, pages[i], record);
        if r.Ok? {
          StoredInChain(before, pool.view, pages, i, record);
          return;
        }
        if !(r.error.PageFailure? && r.error.page.NoSpace?) {
          return;
        }
      }
      r := AppendPageWithRecord(pool, record);
    }

    /** The bytes of the row that the address names, or why there is none. */
    method Get(pool: BufferPool, rid: Rid) returns (r: Result<seq<byte>, HeapError>)
      requires Readable(pool)
      modifies pool.repr
      ensures Readable(pool) && fresh(pool.repr - old(pool.repr)) && pool.pins == old(pool.pins)
      ensures pool.view == old(pool.view) && pool.disk.header == old(pool.disk.header)
      ensures var rows := HeapModel.Rows(HeapOf(pool.view, pages));
        || (rid in rows && r == Ok(rows[rid]))
        || (rid !in rows && r == Err(if rid.page in pages then PageFailure(InvalidRid(rid)) else RidOutsideHeap(rid)))
        || (!old(Calm(pool.pins, pool.capacity)) && r.Err? && Busy(r.error))
    {
      hide Owned, BufferPool.CacheOk, BufferPool.CacheOkBut, BufferPool.ClockOk, BufferPool.PinsOk, HasRoom, Copies, DiskOk,
        WellFormed, Abs, HeapShape, HeapModel.Rows, PageModel.Rows;
      if rid.page !in pages {
        return Err(RidOutsideHeap(rid));
      }
      RowInPage(pool.view, pages, rid);
      var borrowed := Borrow(pool, rid.page, false);
      if borrowed.Err? {
        return Err(borrowed.error);
      }
      var guard, slotted := borrowed.value.guard, borrowed.value.slotted;
      pool.FrameIsOk(rid.page);
      pool.OwnedSets();
      PinsRestored(old(pool.pins), rid.page);
      var row := slotted.Get(rid);
      pool.Release(guard);
      return if row.Ok? then Ok(row.value) else Err(PageFailure(row.error));
    }

    /** Removes a row. A failed deletion changes nothing. */
    method Delete(pool: BufferPool, rid: Rid) returns (r: Result<Unit, HeapError>)
      requires Valid(pool)
      modifies pool.repr
      ensures Valid(pool) && fresh(pool.repr - old(pool.repr)) && pool.pins == old(pool.pins)
      ensures pool.disk.header == old(pool.disk.header) && OthersKept(old(pool.view), pool.view, pages)
      ensures r.Err? ==> pool.view == old(pool.view)
      ensures var h := old(HeapOf(pool.view, pages));
        && HeapShape(h)
        && (|| (rid.page !in pages && r == Err(RidOutsideHeap(rid)))
            || (rid.page in pages && pool.disk.readOnly && r == Err(BufferFailure(ReadOnlyPool)))
            || (!pool.disk.readOnly && rid in HeapModel.Rows(h) && r == Ok(Unit))
            || (rid.page in pages && !pool.disk.readOnly && rid !in HeapModel.Rows(h) && r == Err(PageFailure(InvalidRid(rid))))
            || (rid.page in pages && !old(Calm(pool.pins, pool.capacity)) && r.Err? && Busy(r.error)))
        && (r.Ok? ==> HeapOf(pool.view, pages) == HeapModel.Deleted(h, rid))
        && (r.Ok? ==> LosesRow(h, HeapOf(pool.view, pages), rid))
    {
      hide Owned, BufferPool.CacheOk, BufferPool.CacheOkBut, BufferPool.ClockOk, BufferPool.PinsOk, HasRoom, Copies, DiskOk,
        WellFormed, Abs, HeapInv, PageInv, HeapModel.Rows, PageModel.Rows, PageModel.Delete;
      ChainReads(pool.view, pages);
      if rid.page !in pages {
        return Err(RidOutsideHeap(rid));
      }
      RowInPage(pool.view, pages, rid);
      PageIsSound(pool.view, pages, IndexOf(pages, rid.page));
      r := DeleteFromPage(pool, rid);
      if r.Err? {
        return;
      }
      DeletedInChain(old(pool.view), pool.view, pages, rid);
      DeletionLosesRow(old(HeapOf(pool.view, pages)), rid);
      return Ok(Unit);
    }

    /** Every row of the heap, page by page along the chain and slot by slot. */
    method Scan(pool: BufferPool) returns (r: Result<seq<HeapRecord>, HeapError>)
      requires Readable(pool)
      modifies pool.repr
      ensures Readable(pool) && fresh(pool.repr - old(pool.repr)) && pool.pins == old(pool.pins)
      ensures pool.view == old(pool.view) && pool.disk.header == old(pool.disk.header)
      ensures
        || r == Ok(HeapModel.Scan(HeapOf(pool.view, pages)))
        || (!old(Calm(pool.pins, pool.capacity)) && r.Err? && Busy(r.error))
    {
      hide Owned, BufferPool.CacheOk, BufferPool.CacheOkBut, BufferPool.ClockOk, BufferPool.PinsOk, HasRoom, Copies, DiskOk,
        WellFormed, Abs, HeapShape, PageScan;
      var list := [];
      for i := 0 to |pages|
        invariant Readable(pool) && fresh(pool.repr - old(pool.repr)) && pool.pins == old(pool.pins)
        invariant pool.view == old(pool.view) && pool.disk.header == old(pool.disk.header)
        invariant list == ScanBelow(HeapOf(pool.view, pages), i)
      {
        PageIsReadable(pool.view, pages, i);
        var here := ScanPageOf(pool, pages[i]);
        if here.Err? {
          return Err(here.error);
        }
        list := list + here.value;
      }
      return Ok(list);
    }
  }
}
