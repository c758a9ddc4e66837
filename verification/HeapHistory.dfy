/**
 * Runs of a heap: what sequences of insertions and deletions keep, while other users of the database
 * take pages of their own. Row addresses are never handed out twice, because a page never forgets how
 * far the generations of its slots have come and page ids are never recycled.
 */
module HeapHistory {
  import opened Wrappers
  import opened Bytes
  import opened Pages
  import opened PageModel
  import opened HeapModel

  /** A heap and the next page id the database will hand out. */
  datatype HeapState = HeapState(heap: Heap, nextPage: PageId)

  datatype HeapOp = InsertRecord(record: seq<byte>) | DeleteRow(rid: Rid) | AllocateElsewhere

  ghost predicate StateInv(s: HeapState) {
    HeapInv(s.heap) && forall i | 0 <= i < |s.heap.pages| :: s.heap.pages[i] < s.nextPage
  }

  /** Whether an insertion succeeds: the record is small enough, no jammed page stops it, and a page can be had if needed. */
  predicate Accepts(s: HeapState, record: seq<byte>) {
    && |record| <= MAX_RECORD_SIZE && !Place(s.heap.states, record).Refused?
    && (Place(s.heap.states, record).NewPage? ==> s.nextPage < U32_MAX)
  }

  function StepHeap(s: HeapState, op: HeapOp): HeapState
    requires 1 <= |s.heap.pages| == |s.heap.states|
  {
    match op
    case InsertRecord(record) =>
      if !Accepts(s, record) then s
      else
        var next := if Place(s.heap.states, record).NewPage? then s.nextPage + 1 else s.nextPage;
        HeapState(HeapModel.Inserted(s.heap, record, s.nextPage), next)
    case DeleteRow(rid) => s.(heap := if Holds(s.heap, rid) then HeapModel.Deleted(s.heap, rid) else s.heap)
    case AllocateElsewhere => if s.nextPage < U32_MAX then s.(nextPage := s.nextPage + 1) else s
  }

  /** The addresses one operation hands out. */
  ghost function IssuedInStep(s: HeapState, op: HeapOp): seq<Rid>
    requires StateInv(s)
  {
    if op.InsertRecord? && Accepts(s, op.record) then
      FirstFit(s.heap.states, op.record, 0);
      [RidOf(InsertedAt(s.heap, op.record, s.nextPage))]
    else []
  }

  ghost function RunHeap(s: HeapState, ops: seq<HeapOp>): (t: HeapState)
    requires StateInv(s)
    ensures StateInv(t)
    decreases |ops|
  {
    if ops == [] then s else StepKeeps(s, ops[0]); RunHeap(StepHeap(s, ops[0]), ops[1..])
  }

  ghost function IssuedInRun(s: HeapState, ops: seq<HeapOp>): seq<Rid>
    requires StateInv(s)
    decreases |ops|
  {
    if ops == [] then [] else StepKeeps(s, ops[0]); IssuedInStep(s, ops[0]) + IssuedInRun(StepHeap(s, ops[0]), ops[1..])
  }

  /** This heap can no longer hand out `rid`: its page is allocated, and if the heap owns it, its slot is past it. */
  ghost predicate SpentIn(s: HeapState, rid: Rid)
    requires |s.heap.pages| == |s.heap.states|
  {
    && rid.page < s.nextPage
    && (rid.page in s.heap.pages ==> Spent(s.heap.states[IndexOf(s.heap.pages, rid.page)], SlotOf(rid)))
  }

  /** Every step keeps the chain invariant. */
  lemma {:induction false} StepKeeps(s: HeapState, op: HeapOp)
    requires StateInv(s)
    ensures StateInv(StepHeap(s, op))
  {
    assert |s.heap.pages| == |s.heap.states|;
    if op.InsertRecord? && Accepts(s, op.record) {
      InsertKeeps(s, op.record);
    } else if op.DeleteRow? && Holds(s.heap, op.rid) {
      DeletedInv(s.heap, op.rid);
    }
    hide HeapInv, Holds, Accepts;
  }

  lemma {:induction false} InsertKeeps(s: HeapState, record: seq<byte>)
    requires StateInv(s) && Accepts(s, record)
    ensures StateInv(StepHeap(s, InsertRecord(record)))
  {
    hide HeapInv, Holds, HeapModel.Rows, InsertedAt, Place, HeapModel.Inserted, RidOf;
    InsertedPages(s, record);
    InsertAddsRow(s.heap, record, s.nextPage);
  }

  lemma InsertedPages(s: HeapState, record: seq<byte>)
    requires StateInv(s)
    ensures s.nextPage !in s.heap.pages
    ensures HeapModel.Inserted(s.heap, record, s.nextPage).pages ==
      if Place(s.heap.states, record).NewPage? then s.heap.pages + [s.nextPage] else s.heap.pages
  {
    hide HeapInv, PageModel.Insert;
  }

  /** What one step does to the addresses: a spent one stays spent, a dead one stays dead, and a new one was not spent. */
  ghost predicate StepOnAddress(s: HeapState, t: HeapState, issued: seq<Rid>, rid: Rid)
    requires |s.heap.pages| == |s.heap.states| && |t.heap.pages| == |t.heap.states|
  {
    && (SpentIn(s, rid) ==> SpentIn(t, rid))
    && (SpentIn(s, rid) && !Holds(s.heap, rid) ==> !Holds(t.heap, rid))
    && (rid in issued ==> !SpentIn(s, rid) && SpentIn(t, rid) && Holds(t.heap, rid))
  }

  /** One page of the heap took a step of its own. */
  lemma {:induction false} PageStepOnAddress(s: HeapState, i: nat, op: PageOp, issued: seq<Rid>, rid: Rid)
    requires StateInv(s) && i < |s.heap.pages|
    requires forall r | r in issued :: r.page == s.heap.pages[i] && SlotOf(r) in Issues(s.heap.states[i], op)
    ensures var t := s.(heap := s.heap.(states := s.heap.states[i := Step(s.heap.states[i], op)]));
      StepOnAddress(s, t, issued, rid)
  {
    IndexIsUnique(s.heap.pages, i);
    StepSpends(s.heap.states[i], op);
    hide HeapInv, PageInv, Step, Spent, Resolves, Issues, IndexOf;
    if rid in issued {
      assert SlotOf(rid) in Issues(s.heap.states[i], op);
    }
  }

  /** Appending a page changes links, never slots. */
  lemma AppendedSlots(h: Heap, record: seq<byte>, newPage: PageId)
    requires 1 <= |h.pages| == |h.states| && |record| <= MAX_RECORD_SIZE
    ensures var k := Appended(h, record, newPage);
      && |k.states| == |k.pages| == |h.pages| + 1 && k.pages == h.pages + [newPage]
      && (forall i | 0 <= i < |h.pages| :: k.states[i].slots == h.states[i].slots)
      && k.states[|h.pages|].slots == [Live(1, record)]
  {
  }

  /** The heap gained a page. */
  lemma {:induction false} NewPageOnAddress(s: HeapState, record: seq<byte>, rid: Rid)
    requires StateInv(s) && s.nextPage < U32_MAX && |record| <= MAX_RECORD_SIZE
    ensures var t := HeapState(Appended(s.heap, record, s.nextPage), s.nextPage + 1);
      && |t.heap.pages| == |t.heap.states|
      && StepOnAddress(s, t, [Rid(s.nextPage, 0, 1)], rid)
  {
    InsertedPages(s, record);
    AppendedSlots(s.heap, record, s.nextPage);
    IndexAppend(s.heap.pages, s.nextPage, rid.page, 0);
    hide HeapInv, PageInv, IndexOf, Appended;
  }

  lemma {:induction false} InsertOnAddress(s: HeapState, record: seq<byte>, rid: Rid)
    requires StateInv(s) && Accepts(s, record)
    ensures StepOnAddress(s, StepHeap(s, InsertRecord(record)), IssuedInStep(s, InsertRecord(record)), rid)
  {
    FirstFit(s.heap.states, record, 0);
    hide HeapInv, PageInv, SpentIn, Holds, Step, Appended;
    match Place(s.heap.states, record)
    case At(i, slot) =>
      StoreIsStep(s.heap.states[i], record);
      PageStepOnAddress(s, i, InsertOp(record), IssuedInStep(s, InsertRecord(record)), rid);
    case NewPage => NewPageOnAddress(s, record, rid);
  }

  lemma StoreIsStep(st: PageState, record: seq<byte>)
    ensures Step(st, InsertOp(record)) == PageModel.Insert(st, record)
    ensures InsertResult(st.slots, record).Ok? ==> Issues(st, InsertOp(record)) == [InsertResult(st.slots, record).value]
  {
  }

  lemma {:induction false} DeleteOnAddress(s: HeapState, gone: Rid, rid: Rid)
    requires StateInv(s) && Holds(s.heap, gone)
    ensures StepOnAddress(s, StepHeap(s, DeleteRow(gone)), [], rid)
  {
    hide HeapInv, PageInv, SpentIn;
    PageStepOnAddress(s, IndexOf(s.heap.pages, gone.page), DeleteOp(SlotOf(gone)), [], rid);
  }

  lemma {:induction false} StepOnAddresses(s: HeapState, op: HeapOp)
    requires StateInv(s)
    ensures StateInv(StepHeap(s, op))
    ensures forall rid :: StepOnAddress(s, StepHeap(s, op), IssuedInStep(s, op), rid)
  {
    StepKeeps(s, op);
    assert |s.heap.pages| == |s.heap.states|;
    hide HeapInv, Holds, SpentIn, StepOnAddress;
    forall rid ensures StepOnAddress(s, StepHeap(s, op), IssuedInStep(s, op), rid) {
      if op.InsertRecord? && Accepts(s, op.record) {
        InsertOnAddress(s, op.record, rid);
      } else if op.DeleteRow? && Holds(s.heap, op.rid) {
        DeleteOnAddress(s, op.rid, rid);
      } else {
        IdleOnAddress(s, StepHeap(s, op), rid);
      }
    }
  }

  lemma IdleOnAddress(s: HeapState, t: HeapState, rid: Rid)
    requires |s.heap.pages| == |s.heap.states| && s.heap == t.heap && s.nextPage <= t.nextPage
    ensures StepOnAddress(s, t, [], rid)
  {
  }

  /** From `s` to `t`, handing out `issued`: no address twice, none that was spent, and dead ones stay dead. */
  ghost predicate NothingReused(s: HeapState, t: HeapState, issued: seq<Rid>)
    requires |s.heap.pages| == |s.heap.states| && |t.heap.pages| == |t.heap.states|
  {
    && Distinct(issued)
    && (forall rid | rid in issued :: !SpentIn(s, rid))
    && (forall rid :: SpentIn(s, rid) && !Holds(s.heap, rid) ==> !Holds(t.heap, rid))
  }

  /**
   * Over any run of a heap, whatever else the database allocates meanwhile: no address is handed out
   * twice, none that was spent before is handed out at all, and a dead address stays dead.
   */
  lemma {:induction false} AddressesAreNeverReused(s: HeapState, ops: seq<HeapOp>)
    requires StateInv(s)
    ensures NothingReused(s, RunHeap(s, ops), IssuedInRun(s, ops))
    decreases |ops|
  {
    assert |s.heap.pages| == |s.heap.states|;
    if ops != [] {
      var t := StepHeap(s, ops[0]);
      StepOnAddresses(s, ops[0]);
      AddressesAreNeverReused(t, ops[1..]);
      hide HeapInv, SpentIn, Holds, NothingReused, StepOnAddress, StepHeap, IssuedInStep;
      OneAtMost(s, ops[0]);
      Compose(s, t, RunHeap(t, ops[1..]), IssuedInStep(s, ops[0]), IssuedInRun(t, ops[1..]));
    }
  }

  lemma OneAtMost(s: HeapState, op: HeapOp)
    requires StateInv(s)
    ensures |IssuedInStep(s, op)| <= 1
  {
  }

  lemma {:induction false} Compose(s: HeapState, t: HeapState, u: HeapState, head: seq<Rid>, tail: seq<Rid>)
    requires |s.heap.pages| == |s.heap.states| && |t.heap.pages| == |t.heap.states| && |u.heap.pages| == |u.heap.states|
    requires |head| <= 1 && (forall rid :: StepOnAddress(s, t, head, rid)) && NothingReused(t, u, tail)
    ensures NothingReused(s, u, head + tail)
  {
    hide SpentIn, Holds;
    forall rid | rid in tail ensures rid !in head && !SpentIn(s, rid) {
      assert StepOnAddress(s, t, head, rid);
    }
    forall rid | SpentIn(s, rid) && !Holds(s.heap, rid) ensures !Holds(u.heap, rid) {
      assert StepOnAddress(s, t, head, rid);
    }
    forall rid | rid in head + tail ensures !SpentIn(s, rid) {
      assert StepOnAddress(s, t, head, rid);
    }
    DistinctConcat(head, tail);
  }

  /** Once a row is deleted, its address names nothing for the rest of the run and is never handed out again. */
  lemma {:induction false} DeletedRowStaysDead(s: HeapState, rid: Rid, ops: seq<HeapOp>)
    requires StateInv(s) && Holds(s.heap, rid)
    ensures StateInv(StepHeap(s, DeleteRow(rid)))
    ensures !Holds(RunHeap(StepHeap(s, DeleteRow(rid)), ops).heap, rid)
    ensures rid !in IssuedInRun(StepHeap(s, DeleteRow(rid)), ops)
  {
    var t := StepHeap(s, DeleteRow(rid));
    StepKeeps(s, DeleteRow(rid));
    DeletedIsSpent(s, rid);
    hide StateInv, StepHeap, SpentIn, Holds;
    AddressesAreNeverReused(t, ops);
    ShapeOf(t);
  }

  lemma {:induction false} DeletedIsSpent(s: HeapState, rid: Rid)
    requires StateInv(s) && Holds(s.heap, rid)
    ensures var t := StepHeap(s, DeleteRow(rid));
      |t.heap.pages| == |t.heap.states| && SpentIn(t, rid) && !Holds(t.heap, rid)
  {
    hide HeapInv;
    assert |s.heap.pages| == |s.heap.states| by {
      ShapeOf(s);
    }
  }

  lemma ShapeOf(s: HeapState)
    requires StateInv(s)
    ensures 1 <= |s.heap.pages| == |s.heap.states|
  {
  }

  /** A database whose only page is an empty heap. */
  const FreshState := HeapState(Heap([1], [EmptyPage]), 2)

  lemma FreshStateInv()
    ensures StateInv(FreshState)
  {
  }

  /** An accepted insertion adds one row, at the address it hands out; a refused one changes nothing. */
  lemma {:induction false} InsertRows(s: HeapState, record: seq<byte>)
    requires StateInv(s)
    ensures StateInv(StepHeap(s, InsertRecord(record)))
    ensures var before, after := HeapModel.Rows(s.heap), HeapModel.Rows(StepHeap(s, InsertRecord(record)).heap);
      if Accepts(s, record) then
        var rid := IssuedInStep(s, InsertRecord(record))[0];
        rid !in before && after == before[rid := record]
      else after == before
  {
    StepKeeps(s, InsertRecord(record));
    if Accepts(s, record) {
      NextIsElsewhere(s);
      hide HeapInv, HeapShape, HeapModel.Rows, Inserted, Place, RidOf, InsertedAt, FirstFree, Slack;
      InsertAddsRow(s.heap, record, s.nextPage);
    }
  }

  /** A deletion removes the row it names, if there is one, and nothing else. */
  lemma {:induction false} DeleteRows(s: HeapState, rid: Rid)
    requires StateInv(s)
    ensures StateInv(StepHeap(s, DeleteRow(rid)))
    ensures HeapModel.Rows(StepHeap(s, DeleteRow(rid)).heap) == HeapModel.Rows(s.heap) - {rid}
  {
    StepKeeps(s, DeleteRow(rid));
    ShapeOf(s);
    var rows := HeapModel.Rows(s.heap);
    assert rid in rows <==> Holds(s.heap, rid);
    hide HeapInv, HeapShape, HeapModel.Rows, Holds;
    if Holds(s.heap, rid) {
      DeleteRemovesRow(s.heap, rid);
    } else {
      assert rows - {rid} == rows;
    }
  }

  lemma NextIsElsewhere(s: HeapState)
    requires StateInv(s)
    ensures s.nextPage !in s.heap.pages
  {
    hide HeapInv;
  }

  // ----- A row from its insertion to its deletion -----

  /** The heap has these bytes at this address. */
  ghost predicate HasBytes(s: HeapState, rid: Rid, bytes: seq<byte>)
    requires StateInv(s)
  {
    InvHasShape(s.heap);
    rid in HeapModel.Rows(s.heap) && HeapModel.Rows(s.heap)[rid] == bytes
  }

  lemma {:induction false} StepKeepsRow(s: HeapState, op: HeapOp, rid: Rid, bytes: seq<byte>)
    requires StateInv(s) && HasBytes(s, rid, bytes) && op != DeleteRow(rid)
    ensures StateInv(StepHeap(s, op)) && HasBytes(StepHeap(s, op), rid, bytes)
  {
    hide StateInv, StepHeap, HeapModel.Rows, IssuedInStep, Accepts, HeapShape, HeapInv;
    StepKeeps(s, op);
    ShapeOf(s);
    match op
    case InsertRecord(record) => InsertRows(s, record);
    case DeleteRow(gone) => DeleteRows(s, gone);
    case AllocateElsewhere => AllocationKeepsHeap(s);
  }

  lemma AllocationKeepsHeap(s: HeapState)
    requires StateInv(s)
    ensures 1 <= |s.heap.pages| == |s.heap.states| && StepHeap(s, AllocateElsewhere).heap == s.heap
  {
    ShapeOf(s);
    hide HeapInv;
  }

  /** A row keeps its address and its bytes over any run that does not delete it. */
  lemma {:induction false} RowStaysUntilDeleted(s: HeapState, rid: Rid, bytes: seq<byte>, ops: seq<HeapOp>)
    requires StateInv(s) && HasBytes(s, rid, bytes) && DeleteRow(rid) !in ops
    ensures HasBytes(RunHeap(s, ops), rid, bytes)
    decreases |ops|
  {
    hide StateInv, StepHeap, HasBytes;
    ShapeOf(s);
    if ops != [] {
      StepKeepsRow(s, ops[0], rid, bytes);
      RowStaysUntilDeleted(StepHeap(s, ops[0]), rid, bytes, ops[1..]);
    }
  }

  /** And once a run deletes it, the address names nothing at the end. */
  lemma {:induction false} DeletedRowIsGone(s: HeapState, rid: Rid, bytes: seq<byte>, ops: seq<HeapOp>)
    requires StateInv(s) && HasBytes(s, rid, bytes) && DeleteRow(rid) in ops
    ensures HeapShape(RunHeap(s, ops).heap) && rid !in HeapModel.Rows(RunHeap(s, ops).heap)
    decreases |ops|
  {
    ShapeOf(s);
    InvHasShape(RunHeap(s, ops).heap);
    assert Holds(s.heap, rid);
    hide StateInv, StepHeap, HasBytes, HeapModel.Rows, HeapShape, Holds;
    if ops[0] == DeleteRow(rid) {
      DeletedRowStaysDead(s, rid, ops[1..]);
    } else {
      StepKeepsRow(s, ops[0], rid, bytes);
      assert DeleteRow(rid) in ops[1..];
      DeletedRowIsGone(StepHeap(s, ops[0]), rid, bytes, ops[1..]);
    }
  }
}
