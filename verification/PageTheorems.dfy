/**
 * What holds of the bytes of a slotted page over whole runs of edits: pages that the engine builds stay
 * valid and keep their invariant, and the one way in which validation alone would not be enough.
 */
module PageTheorems {
  import opened Wrappers
  import opened Bytes
  import opened Pages
  import opened PageModel
  import opened PageLayout
  import PageEdits

  /** What a slotted page can have done to it. */
  datatype PageEdit =
    | InsertEdit(record: seq<byte>)
    | DeleteEdit(at: SlotRef)
    | CompactEdit
    | RelinkEdit(next: Option<PageId>)

  predicate LinkAllowed(e: PageEdit) {
    e.RelinkEdit? && e.next.Some? ==> e.next.value != U32_MAX
  }

  /** The contiguous gap that an insertion needs. */
  ghost function GapNeeded(b: PageBytes, record: seq<byte>): nat
    requires WellFormed(b)
  {
    |record| + if FirstFree(Abs(b).slots).Some? then 0 else SLOT_ENTRY_SIZE
  }

  /** The page an insertion writes to: compacted first exactly when the gap is too small. */
  ghost function RoomMade(b: PageBytes, record: seq<byte>): PageBytes
    requires WellFormed(b)
  {
    if FreeEnd(b) as int - FreeStart(b) as int < GapNeeded(b, record) then
      PageEdits.CompactedMeaning(b);
      PageEdits.Compacted(b)
    else b
  }

  /** The bytes after one edit; an edit that is refused changes none. */
  ghost function Edited(b: PageBytes, e: PageEdit): (c: PageBytes)
    requires Sound(b) && LinkAllowed(e)
  {
    match e
    case InsertEdit(record) =>
      var r := InsertResult(Abs(b).slots, record);
      if r.Err? then b
      else
        RoomIsMade(b, record);
        PageEdits.Inserted(RoomMade(b, record), record, r.value)
    case DeleteEdit(at) =>
      if Resolves(Abs(b), at) then
        PageEdits.DeletionPlan(b, at.slot);
        PageEdits.Deleted(b, at.slot)
      else b
    case CompactEdit =>
      PageEdits.CompactedMeaning(b);
      PageEdits.Compacted(b)
    case RelinkEdit(next) => PageEdits.Relinked(b, next)
  }

  /** What the edit means. */
  function EditedState(st: PageState, e: PageEdit): PageState {
    match e
    case InsertEdit(record) => Insert(st, record)
    case DeleteEdit(at) => Delete(st, at)
    case CompactEdit => st
    case RelinkEdit(next) => st.(next := next)
  }

  /** After compaction the gap is the whole slack, so an insertion that the slack admits always fits. */
  lemma RoomIsMade(b: PageBytes, record: seq<byte>)
    requires WellFormed(b) && InsertResult(Abs(b).slots, record).Ok?
    ensures var c, at := RoomMade(b, record), InsertResult(Abs(b).slots, record).value;
      && WellFormed(c) && Abs(c) == Abs(b) && PageEdits.CanInsert(c, record, at)
      && SlotCount(c) <= 1020 && LiveCount(c) <= 1020 && SlotBase(at.slot + 1) <= PAGE_SIZE
  {
    hide WellFormed, Abs, PageEdits.Compacted, FreeStart, FreeEnd, PageEdits.CanInsert, LiveCount, SlotCount, LiveBytes, PageEdits.Inserted;
    PageEdits.CompactedMeaning(b);
    FreeSpaceWithinSlack(b);
    var c, at := RoomMade(b, record), InsertResult(Abs(b).slots, record).value;
    PageEdits.CanInsertFromPlan(c, record, at);
    PageEdits.InsertedMeaning(c, record, at);
  }

  /** Every edit keeps validity and the invariant, and does to the meaning what it should. */
  lemma {:induction false} EditKeepsSound(b: PageBytes, e: PageEdit)
    requires Sound(b) && LinkAllowed(e)
    ensures Sound(Edited(b, e)) && Abs(Edited(b, e)) == EditedState(Abs(b), e)
  {
    hide WellFormed, Abs, PageEdits.Compacted, PageEdits.Inserted, PageEdits.Deleted, PageEdits.Relinked, RoomMade,
      InsertResult, Insert, Delete, Resolves;
    match e
    case InsertEdit(record) => InsertKeepsSound(b, record);
    case DeleteEdit(at) => DeleteKeepsSound(b, at);
    case CompactEdit => PageEdits.CompactedMeaning(b);
    case RelinkEdit(next) => PageEdits.RelinkedMeaning(b, next);
  }

  lemma {:induction false} InsertKeepsSound(b: PageBytes, record: seq<byte>)
    requires Sound(b)
    ensures Sound(Edited(b, InsertEdit(record))) && Abs(Edited(b, InsertEdit(record))) == Insert(Abs(b), record)
  {
    var r := InsertResult(Abs(b).slots, record);
    InsertAddsOneRow(Abs(b), record);
    if r.Ok? {
      assert r.value.generation >= 1;
      hide WellFormed, Abs, PageInv, InsertResult, RoomMade, PageEdits.Inserted, Rows, Slack;
      RoomIsMade(b, record);
      PageEdits.InsertedMeaning(RoomMade(b, record), record, r.value);
    }
  }

  lemma {:induction false} DeleteKeepsSound(b: PageBytes, at: SlotRef)
    requires Sound(b)
    ensures Sound(Edited(b, DeleteEdit(at))) && Abs(Edited(b, DeleteEdit(at))) == Delete(Abs(b), at)
  {
    if Resolves(Abs(b), at) {
      DeleteRemovesOneRow(Abs(b), at);
      PageEdits.DeletionPlan(b, at.slot);
      PageEdits.DeletedMeaning(b, at.slot);
      hide WellFormed, Abs, PageInv, Rows, Slack, PageEdits.Deleted, Delete;
    }
  }

  ghost function EditedAll(b: PageBytes, edits: seq<PageEdit>): (c: PageBytes)
    requires Sound(b) && forall i | 0 <= i < |edits| :: LinkAllowed(edits[i])
    decreases |edits|
  {
    if edits == [] then b
    else
      EditKeepsSound(b, edits[0]);
      EditedAll(Edited(b, edits[0]), edits[1..])
  }

  function EditedStates(st: PageState, edits: seq<PageEdit>): PageState
    decreases |edits|
  {
    if edits == [] then st else EditedStates(EditedState(st, edits[0]), edits[1..])
  }

  /**
   * Any run of edits on a page the engine initialized leaves a page that validates, keeps the invariant,
   * and means what the run means: the engine can always read back what it wrote.
   */
  lemma {:induction false} RunsStaySound(b: PageBytes, edits: seq<PageEdit>)
    requires Sound(b) && forall i | 0 <= i < |edits| :: LinkAllowed(edits[i])
    ensures Sound(EditedAll(b, edits)) && Abs(EditedAll(b, edits)) == EditedStates(Abs(b), edits)
    decreases |edits|
  {
    if edits != [] {
      EditKeepsSound(b, edits[0]);
      hide Sound, Edited, EditedState, Abs;
      RunsStaySound(Edited(b, edits[0]), edits[1..]);
    }
  }

  lemma {:induction false} RunsFromNewPage(edits: seq<PageEdit>)
    requires forall i | 0 <= i < |edits| :: LinkAllowed(edits[i])
    ensures Sound(PageEdits.Initialized())
    ensures Sound(EditedAll(PageEdits.Initialized(), edits))
    ensures Abs(EditedAll(PageEdits.Initialized(), edits)) == EditedStates(EmptyPage, edits)
  {
    hide PageEdits.Initialized, EditedAll, WellFormed, PageInv;
    PageEdits.InitializedMeaning();
    RunsStaySound(PageEdits.Initialized(), edits);
  }

  /** The outcome of an insertion in terms of the page's bytes: what is left beside directory and live records. */
  lemma InsertOutcomeInBytes(b: PageBytes, record: seq<byte>)
    requires WellFormed(b) && |record| <= U16_MAX
    ensures var slots := Abs(b).slots;
      var space, growth := PAGE_SIZE - FreeStart(b) as int - LiveBytes(slots), GapNeeded(b, record) - |record|;
      match InsertResult(slots, record)
      case Ok(_) => |record| + growth <= space
      case Err(e) =>
        && |record| + growth > space
        && (e == SlackUnderflow <==> growth == SLOT_ENTRY_SIZE && space < SLOT_ENTRY_SIZE)
        && (e == SlackUnderflow || e.NoSpace?)
  {
    FreeSpaceWithinSlack(b);
    hide FreeStart, FreeEnd, LiveBytes, EntriesApart, EntryOk;
  }

  /** A page that validates lists exactly as many addresses as its header counts, and they are the ones that resolve. */
  lemma {:induction false} ValidPageListsItsRows(b: PageBytes)
    requires WellFormed(b)
    ensures var st := Abs(b);
      var refs := LiveRefs(st.slots, |st.slots|);
      && |refs| == LiveCount(b) && InSlotOrder(refs)
      && forall at :: at in refs <==> Resolves(st, at)
  {
    LiveCountIsListed(b, Table(b), |Table(b)|);
    LiveRefsExact(Abs(b), |Abs(b).slots|);
    hide TableOk, LiveRefs, HeaderOk;
  }

  // ----- Validation alone is not inductive -----

  const UnbornSlot := RawSlot(0, 0, 0, FREE)

  /** An initialized page with one free slot whose generation is zero. */
  function UnbornPage(): PageBytes {
    PageEdits.PutHeader(PageEdits.Initialized(), 1, SlotBase(1), PAGE_SIZE, 0)
  }

  lemma {:induction false} UnbornPageIsValid()
    ensures WellFormed(UnbornPage()) && Abs(UnbornPage()).slots == [Free(0)]
  {
    var b, c := PageEdits.Initialized(), UnbornPage();
    PageEdits.InitializedMeaning();
    PageEdits.PutHeaderFields(b, 1, SlotBase(1), PAGE_SIZE, 0);
    assert forall i | PAGE_HEADER_SIZE <= i < PAGE_SIZE :: b[i] == 0;
    hide PageEdits.PutHeader, PageEdits.Initialized, FreeStart, FreeEnd, SlotCount, LiveCount;
    assert forall i | PAGE_HEADER_SIZE <= i < PAGE_SIZE :: c[i] == 0;
    assert RawSlotAt(c, 0) == UnbornSlot;
    assert Entries(c, 1) == [UnbornSlot];
    assert CountLiveUpTo([UnbornSlot], 0) == 0 && CountLiveUpTo([UnbornSlot], 1) == 0;
    hide RawSlotAt;
    PageEdits.RebuiltPage(b, c, [UnbornSlot], PAGE_SIZE);
  }

  /**
   * Validation accepts this page, insertion succeeds on it, and validation refuses the result. So runs
   * need the invariant that a reusable slot has a generation; InsertedMeaning shows that it is exactly
   * what they need.
   */
  lemma {:induction false} ReuseBreaksValidation(record: seq<byte>)
    requires |record| <= 8000
    ensures WellFormed(UnbornPage())
    ensures InsertResult(Abs(UnbornPage()).slots, record) == Ok(SlotRef(0, 0))
    ensures PageEdits.CanInsert(UnbornPage(), record, SlotRef(0, 0))
    ensures SlotCount(UnbornPage()) == 1 && LiveCount(UnbornPage()) == 0
    ensures !WellFormed(PageEdits.Inserted(UnbornPage(), record, SlotRef(0, 0)))
  {
    UnbornPageIsValid();
    PageEdits.PutHeaderFields(PageEdits.Initialized(), 1, SlotBase(1), PAGE_SIZE, 0);
    hide UnbornPage, WellFormed, Abs;
    PageEdits.CanInsertFromPlan(UnbornPage(), record, SlotRef(0, 0));
    PageEdits.InsertedMeaning(UnbornPage(), record, SlotRef(0, 0));
  }
}
