/**
 * The byte-level effect of insertion, deletion, compaction and relinking, as functions on page
 * contents, and the proof that each means what PageModel says it means.
 */
module PageEdits {
  import opened Wrappers
  import opened Bytes
  import opened Pages
  import opened PageModel
  import opened PageLayout

  /** Two page contents with the same bytes from `lo` up to `hi`. */
  predicate Agree(b: PageBytes, c: PageBytes, lo: nat, hi: nat) {
    forall i | lo <= i < hi && i < PAGE_SIZE :: b[i] == c[i]
  }

  /** The four space-accounting header fields, rewritten together. */
  function PutHeader(b: PageBytes, slotCount: u16, freeStart: u16, freeEnd: u16, liveCount: u16): PageBytes {
    Splice(b, SLOT_COUNT_OFFSET, Le16(slotCount) + Le16(freeStart) + Le16(freeEnd) + Le16(liveCount))
  }

  lemma PutHeaderFields(b: PageBytes, slotCount: u16, freeStart: u16, freeEnd: u16, liveCount: u16)
    ensures var c := PutHeader(b, slotCount, freeStart, freeEnd, liveCount);
      && SlotCount(c) == slotCount && FreeStart(c) == freeStart
      && FreeEnd(c) == freeEnd && LiveCount(c) == liveCount
      && Agree(c, b, 0, SLOT_COUNT_OFFSET) && Agree(c, b, NEXT_PAGE_ID_OFFSET, PAGE_SIZE)
  {
    var c := PutHeader(b, slotCount, freeStart, freeEnd, liveCount);
    assert c[8] == Le16(slotCount)[0] && c[9] == Le16(slotCount)[1];
    assert c[10] == Le16(freeStart)[0] && c[11] == Le16(freeStart)[1];
    assert c[12] == Le16(freeEnd)[0] && c[13] == Le16(freeEnd)[1];
    assert c[14] == Le16(liveCount)[0] && c[15] == Le16(liveCount)[1];
  }

  lemma SetSpaceFields(b: PageBytes, freeEnd: u16, liveCount: u16)
    ensures Put16(Put16(b, FREE_END_OFFSET, freeEnd), LIVE_COUNT_OFFSET, liveCount)
         == PutHeader(b, SlotCount(b), FreeStart(b), freeEnd, liveCount)
  {
    assert Le16(SlotCount(b)) == [b[8], b[9]] && Le16(FreeStart(b)) == [b[10], b[11]];
  }

  lemma SetAllSpaceFields(b: PageBytes, slotCount: u16, freeStart: u16, freeEnd: u16, liveCount: u16)
    ensures Put16(Put16(Put16(Put16(b, SLOT_COUNT_OFFSET, slotCount), FREE_START_OFFSET, freeStart),
                        FREE_END_OFFSET, freeEnd), LIVE_COUNT_OFFSET, liveCount)
         == PutHeader(b, slotCount, freeStart, freeEnd, liveCount)
  {
  }

  function WithEntry(t: seq<RawSlot>, k: nat, s: RawSlot): seq<RawSlot>
    requires k <= |t|
  {
    if k < |t| then t[k := s] else t + [s]
  }

  /**
   * A page whose header accounts for table `u` and free end `freeEnd`, and whose other header fields
   * come from valid page `b`, is valid exactly when the table is.
   */
  lemma RebuiltPage(b: PageBytes, c: PageBytes, u: seq<RawSlot>, freeEnd: nat)
    requires HeaderOk(b) && Agree(c, b, 0, 6)
    requires SlotCount(c) == |u| && FreeStart(c) as int == SlotBase(|u|) <= freeEnd <= PAGE_SIZE
    requires FreeEnd(c) == freeEnd && LiveCount(c) == CountLive(u) && Entries(c, |u|) == u
    ensures WellFormed(c) <==> TableOk(u, freeEnd)
    ensures TableOk(u, freeEnd) ==> InPage(u) && Abs(c) == PageState(States(c, u), NextPage(c))
    ensures Agree(c, b, NEXT_PAGE_ID_OFFSET, NEXT_PAGE_ID_OFFSET + 4) ==> NextPage(c) == NextPage(b)
  {
    assert c[..4] == b[..4];
  }

  // ----- Insertion -----

  /** Page contents after `record` went in just below the free end and entry `at.slot` describes it. */
  function Inserted(b: PageBytes, record: seq<byte>, at: SlotRef): PageBytes
    requires at.slot <= SlotCount(b) < U16_MAX && SlotBase(at.slot + 1) <= PAGE_SIZE
    requires SlotBase(SlotCount(b)) <= PAGE_SIZE
    requires |record| <= FreeEnd(b) <= PAGE_SIZE && LiveCount(b) < U16_MAX
  {
    var n := if at.slot < SlotCount(b) then SlotCount(b) else at.slot + 1;
    PutHeader(Placed(b, record, at), n, SlotBase(n), FreeEnd(b) - |record|, LiveCount(b) + 1)
  }

  /** The slot is free or new, and the contiguous gap holds the record and the directory's growth. */
  ghost predicate CanInsert(b: PageBytes, record: seq<byte>, at: SlotRef) {
    && WellFormed(b)
    && at.slot <= SlotCount(b)
    && (at.slot < SlotCount(b) ==> Table(b)[at.slot].flags == FREE)
    && |record| + (if at.slot < SlotCount(b) then 0 else SLOT_ENTRY_SIZE) <= FreeEnd(b) as int - FreeStart(b) as int
  }

  lemma WellFormedBounds(b: PageBytes)
    requires WellFormed(b)
    ensures SlotCount(b) <= 1020 && LiveCount(b) <= SlotCount(b)
  {
    CountLiveBound(Table(b), SlotCount(b));
  }

  lemma InsertedTableOk(t: seq<RawSlot>, k: nat, s: RawSlot, freeEnd: nat)
    requires TableOk(t, freeEnd) && k <= |t|
    requires s.flags == LIVE && s.End() == freeEnd <= PAGE_SIZE
    ensures TableOk(WithEntry(t, k, s), s.offset) <==> s.generation != 0
  {
    var u := WithEntry(t, k, s);
    assert u[k] == s;
    forall j | 0 <= j < |u| && j != k ensures EntryOk(u[j], s.offset) && u[j] == t[j] {
      assert EntryOk(t[j], freeEnd);
    }
    forall i, j | 0 <= i < j < |u| ensures EntriesApart(u[i], u[j]) {
      if i != k && j != k {
        assert EntriesApart(t[i], t[j]);
      } else if i == k {
        assert EntryOk(t[j], freeEnd);
      } else {
        assert EntryOk(t[i], freeEnd);
      }
    }
  }

  lemma InsertedStates(b: PageBytes, c: PageBytes, t: seq<RawSlot>, k: nat, s: RawSlot, freeEnd: nat)
    requires TableOk(t, freeEnd) && k <= |t| && s.End() <= PAGE_SIZE
    requires Agree(c, b, freeEnd, PAGE_SIZE)
    ensures InPage(t) && InPage(WithEntry(t, k, s))
    ensures States(c, WithEntry(t, k, s))
         == if k < |t| then States(b, t)[k := StateOf(c, s)] else States(b, t) + [StateOf(c, s)]
  {
    StatesFrame(b, c, t, freeEnd);
  }

  /** The bytes of a page after its record and directory entry are written, before its header is. */
  function Placed(b: PageBytes, record: seq<byte>, at: SlotRef): PageBytes
    requires SlotBase(at.slot + 1) <= PAGE_SIZE && |record| <= FreeEnd(b) <= PAGE_SIZE
  {
    var offset := FreeEnd(b) - |record|;
    PutSlot(Splice(b, offset, record), at.slot, RawSlot(offset, |record|, at.generation, LIVE))
  }

  lemma InsertedDirectory(b: PageBytes, record: seq<byte>, at: SlotRef, n: nat, freeEnd: nat, s: RawSlot)
    requires at.slot <= n && SlotBase(at.slot + 1) <= PAGE_SIZE && FreeEnd(b) == freeEnd <= PAGE_SIZE
    requires |record| <= freeEnd && s == NewEntry(b, record, at)
    requires SlotBase(n) <= s.offset && SlotBase(at.slot + 1) <= s.offset
    ensures var c := Placed(b, record, at);
      var u := WithEntry(Entries(b, n), at.slot, s);
      && SlotBase(|u|) <= s.offset && Entries(c, |u|) == u
      && Agree(c, b, 0, PAGE_HEADER_SIZE) && Agree(c, b, freeEnd, PAGE_SIZE)
      && c[s.offset..freeEnd] == record
  {
    var offset := freeEnd - |record|;
    var b1 := Splice(b, offset, record);
    assert Entries(b1, n) == Entries(b, n) by {
      EntriesFrame(b, b1, n);
    }
    assert b1[offset..freeEnd] == record;
    var c := PutSlot(b1, at.slot, s);
    assert c == Placed(b, record, at);
    hide Splice, PutSlot, Placed, RawSlotAt, SlotBytes, U16At;
    PutSlotEntries(b1, n, at.slot, s);
    assert c[offset..freeEnd] == b1[offset..freeEnd];
  }

  /** The directory entry of an inserted record. */
  function NewEntry(b: PageBytes, record: seq<byte>, at: SlotRef): RawSlot
    requires |record| <= FreeEnd(b)
  {
    RawSlot(FreeEnd(b) - |record|, |record|, at.generation, LIVE)
  }

  /** The room an insertion finds, and the page it leaves as one header rewrite. */
  lemma InsertedForm(b: PageBytes, record: seq<byte>, at: SlotRef)
    requires CanInsert(b, record, at)
    ensures SlotCount(b) <= 1020 && LiveCount(b) <= 1020 && SlotBase(at.slot + 1) <= PAGE_SIZE && |record| <= FreeEnd(b) <= PAGE_SIZE
    ensures |Table(b)| == SlotCount(b) && Table(b) == Entries(b, |Table(b)|)
    ensures at.slot <= |Table(b)| && (at.slot < |Table(b)| ==> Table(b)[at.slot].flags == FREE)
    ensures var s := NewEntry(b, record, at);
      var u := WithEntry(Table(b), at.slot, s);
      && |u| <= 1021 && SlotBase(|u|) <= s.offset && s.End() == FreeEnd(b) && s.length == |record|
      && s.flags == LIVE && s.generation == at.generation
      && SlotBase(|Table(b)|) <= s.offset && SlotBase(at.slot + 1) <= s.offset
      && Inserted(b, record, at) == PutHeader(Placed(b, record, at), |u|, SlotBase(|u|), s.offset, LiveCount(b) + 1)
  {
    WellFormedBounds(b);
    EntryCount(Table(b), at.slot, NewEntry(b, record, at));
    assert FreeStart(b) as int == SlotBase(SlotCount(b)) <= FreeEnd(b) as int <= PAGE_SIZE;
    hide U16At, RawSlotAt, PutHeader, Placed, WellFormed, WithEntry, FreeStart, FreeEnd, LiveCount, SlotCount, Entries;
  }

  lemma EntryCount(t: seq<RawSlot>, k: nat, s: RawSlot)
    requires k <= |t|
    ensures |WithEntry(t, k, s)| == if k < |t| then |t| else |t| + 1
  {
  }

  /**
   * An insertion into a valid page stores the record in the chosen slot and, exactly when that slot
   * has a generation, leaves the page valid.
   */
  lemma InsertedMeaning(b: PageBytes, record: seq<byte>, at: SlotRef)
    requires CanInsert(b, record, at)
    ensures SlotCount(b) <= 1020 && LiveCount(b) <= 1020 && SlotBase(at.slot + 1) <= PAGE_SIZE
    ensures WellFormed(Inserted(b, record, at)) <==> at.generation >= 1
    ensures at.generation >= 1 ==> Abs(Inserted(b, record, at)) == Store(Abs(b), at, record)
  {
    assert WellFormed(b);
    hide U16At, U32At, RawSlotAt, PutHeader, Placed, WellFormed, Abs, Store, Agree, NewEntry, WithEntry, Inserted, Entries, CanInsert,
      SlotBase, Table, FreeEnd, SlotCount, LiveCount;
    InsertedForm(b, record, at);
    var freeEnd: nat, t, s := FreeEnd(b), Table(b), NewEntry(b, record, at);
    InsertedDirectory(b, record, at, |t|, freeEnd, s);
    InsertedPage(b, Placed(b, record, at), record, at, t, WithEntry(t, at.slot, s), s, freeEnd);
  }

  /** Writing the space-accounting header fields around an untouched rest. */
  lemma HeaderRewritten(b: PageBytes, c1: PageBytes, u: seq<RawSlot>, freeEnd: nat, liveCount: u16)
    requires Agree(c1, b, 0, PAGE_HEADER_SIZE)
    requires |u| <= 1020 && SlotBase(|u|) <= freeEnd <= PAGE_SIZE && Entries(c1, |u|) == u
    ensures var c := PutHeader(c1, |u|, SlotBase(|u|), freeEnd, liveCount);
      && SlotCount(c) == |u| && FreeStart(c) == SlotBase(|u|) && FreeEnd(c) == freeEnd && LiveCount(c) == liveCount
      && Agree(c, b, 0, 6) && Agree(c, b, NEXT_PAGE_ID_OFFSET, NEXT_PAGE_ID_OFFSET + 4)
      && Agree(c, c1, PAGE_HEADER_SIZE, PAGE_SIZE)
      && Entries(c, |u|) == u
  {
    var c := PutHeader(c1, |u|, SlotBase(|u|), freeEnd, liveCount);
    PutHeaderFields(c1, |u|, SlotBase(|u|), freeEnd, liveCount);
    hide PutHeader, U16At, U32At, RawSlotAt;
    EntriesFrame(c1, c, |u|);
  }

  lemma InsertedPage(b: PageBytes, c1: PageBytes, record: seq<byte>, at: SlotRef,
                     t: seq<RawSlot>, u: seq<RawSlot>, s: RawSlot, freeEnd: nat)
    requires WellFormed(b) && Table(b) == t && FreeEnd(b) == freeEnd && |t| <= 1020 && LiveCount(b) <= 1020
    requires at.slot <= |t| && (at.slot < |t| ==> t[at.slot].flags == FREE)
    requires u == WithEntry(t, at.slot, s)
    requires SlotBase(|u|) <= s.offset && s.End() == freeEnd && |record| == s.length
    requires s.flags == LIVE && s.generation == at.generation
    requires Entries(c1, |u|) == u && Agree(c1, b, 0, PAGE_HEADER_SIZE) && Agree(c1, b, freeEnd, PAGE_SIZE)
    requires c1[s.offset..freeEnd] == record
    ensures var c := PutHeader(c1, |u|, SlotBase(|u|), s.offset, LiveCount(b) + 1);
      && (WellFormed(c) <==> at.generation >= 1)
      && (at.generation >= 1 ==> Abs(c) == Store(Abs(b), at, record))
  {
    hide PutHeader, U16At, U32At, RawSlotAt, CountLiveUpTo, CountLive, EntriesApart, EntryOk, Entries, LiveUpTo;
    var c := PutHeader(c1, |u|, SlotBase(|u|), s.offset, LiveCount(b) + 1);
    HeaderRewritten(b, c1, u, s.offset, LiveCount(b) + 1);
    assert CountLive(u) == LiveCount(b) + 1 by {
      if at.slot < |t| {
        CountLiveUpdate(t, at.slot, s);
      } else {
        CountLiveAppend(t, s);
      }
    }
    RebuiltPage(b, c, u, s.offset);
    InsertedTableOk(t, at.slot, s, freeEnd);
    InsertedStates(b, c, t, at.slot, s, freeEnd);
    assert StateOf(c, s) == Live(at.generation, record) by {
      assert c[s.offset..freeEnd] == c1[s.offset..freeEnd];
    }
  }

  lemma PlacedHeader(b: PageBytes, record: seq<byte>, at: SlotRef)
    requires CanInsert(b, record, at) && SlotBase(at.slot + 1) <= PAGE_SIZE
    ensures SlotCount(Placed(b, record, at)) == SlotCount(b) && FreeStart(Placed(b, record, at)) == FreeStart(b)
  {
    var n, freeEnd: nat := SlotCount(b), FreeEnd(b);
    var c := Placed(b, record, at);
    InsertedDirectory(b, record, at, n, freeEnd, NewEntry(b, record, at));
    hide Placed, Table, TableOk;
    assert c[8] == b[8] && c[9] == b[9] && c[10] == b[10] && c[11] == b[11];
  }

  /** Everything an in-place insertion needs to know about the bytes it starts from. */
  lemma InsertionPlan(b: PageBytes, record: seq<byte>, at: SlotRef)
    requires CanInsert(b, record, at)
    ensures at.slot <= SlotCount(b) <= 1020 && LiveCount(b) <= 1020 && SlotBase(at.slot + 1) <= PAGE_SIZE
    ensures |record| <= FreeEnd(b) <= PAGE_SIZE
    ensures Placed(b, record, at) == PutSlot(Splice(b, FreeEnd(b) - |record|, record), at.slot,
                                             RawSlot(FreeEnd(b) - |record|, |record|, at.generation, LIVE))
    ensures SlotCount(Placed(b, record, at)) == SlotCount(b) && FreeStart(Placed(b, record, at)) == FreeStart(b)
    ensures SlotBase(SlotCount(b)) <= PAGE_SIZE
    ensures var c, offset, live := Placed(b, record, at), FreeEnd(b) - |record|, LiveCount(b) + 1;
      Inserted(b, record, at) ==
        if at.slot < SlotCount(b) then PutHeader(c, SlotCount(b), FreeStart(b), offset, live)
        else PutHeader(c, at.slot + 1, SlotBase(at.slot + 1), offset, live)
  {
    hide PutSlot, Splice, PutHeader, TableOk, CountLive, U16At, RawSlotAt, U32At;
    WellFormedBounds(b);
    PlacedHeader(b, record, at);
  }

  // ----- Deletion -----

  function VacatedEntry(generation: u16): RawSlot {
    if generation < U16_MAX then RawSlot(0, 0, generation + 1, FREE) else RawSlot(0, 0, generation, RETIRED)
  }

  function Deleted(b: PageBytes, k: nat): PageBytes
    requires SlotBase(k + 1) <= PAGE_SIZE && LiveCount(b) >= 1
  {
    var c := PutSlot(b, k, VacatedEntry(RawSlotAt(b, k).generation));
    PutHeader(c, SlotCount(b), FreeStart(b), FreeEnd(b), LiveCount(b) - 1)
  }

  lemma VacatedTableOk(t: seq<RawSlot>, k: nat, s: RawSlot, freeEnd: nat)
    requires TableOk(t, freeEnd) && k < |t| && s.flags != LIVE && EntryOk(s, freeEnd)
    ensures TableOk(t[k := s], freeEnd)
  {
    var u := t[k := s];
    forall i, j | 0 <= i < j < |u| ensures EntriesApart(u[i], u[j]) {
      if i != k && j != k {
        assert EntriesApart(t[i], t[j]);
      }
    }
  }

  lemma DeletedMeaning(b: PageBytes, k: nat)
    requires WellFormed(b) && k < SlotCount(b) && Table(b)[k].flags == LIVE
    ensures LiveCount(b) >= 1
    ensures WellFormed(Deleted(b, k))
    ensures Abs(Deleted(b, k)) == Delete(Abs(b), SlotRef(k, Table(b)[k].generation))
  {
    var t, freeEnd: nat := Table(b), FreeEnd(b);
    WellFormedBounds(b);
    CountLiveBound(t, |t|);
    var s := VacatedEntry(t[k].generation);
    var c1 := PutSlot(b, k, s);
    PutSlotEntries(b, |t|, k, s);
    DeletedPage(b, c1, k, t, s, freeEnd);
  }

  lemma DeletedPage(b: PageBytes, c1: PageBytes, k: nat, t: seq<RawSlot>, s: RawSlot, freeEnd: nat)
    requires WellFormed(b) && Table(b) == t && FreeEnd(b) == freeEnd
    requires |t| <= 1020 && 1 <= LiveCount(b) && k < |t| && t[k].flags == LIVE
    requires s == VacatedEntry(t[k].generation)
    requires Entries(c1, |t|) == t[k := s] && Agree(c1, b, 0, PAGE_HEADER_SIZE) && Agree(c1, b, freeEnd, PAGE_SIZE)
    ensures var c := PutHeader(c1, |t|, SlotBase(|t|), freeEnd, LiveCount(b) - 1);
      && WellFormed(c)
      && Abs(c) == Delete(Abs(b), SlotRef(k, t[k].generation))
  {
    hide PutHeader, U16At, U32At, RawSlotAt, CountLiveUpTo, CountLive, EntriesApart, Entries, LiveUpTo;
    var c := PutHeader(c1, |t|, SlotBase(|t|), freeEnd, LiveCount(b) - 1);
    HeaderRewritten(b, c1, t[k := s], freeEnd, LiveCount(b) - 1);
    CountLiveUpdate(t, k, s);
    VacatedTableOk(t, k, s, freeEnd);
    RebuiltPage(b, c, t[k := s], freeEnd);
    InsertedStates(b, c, t, k, s, freeEnd);
  }

  // ----- Relinking and initialization -----

  function Relinked(b: PageBytes, next: Option<PageId>): PageBytes {
    Put32(b, NEXT_PAGE_ID_OFFSET, if next.None? then U32_MAX else next.value)
  }

  lemma RelinkedBytes(b: PageBytes, next: Option<PageId>)
    requires next.Some? ==> next.value != U32_MAX
    ensures var c := Relinked(b, next);
      && NextPage(c) == next
      && Agree(c, b, 0, NEXT_PAGE_ID_OFFSET) && Agree(c, b, NEXT_PAGE_ID_OFFSET + 4, PAGE_SIZE)
  {
    var c := Relinked(b, next);
    var raw := if next.None? then U32_MAX else next.value;
    Le32RoundTrip(raw);
    assert c[NEXT_PAGE_ID_OFFSET..NEXT_PAGE_ID_OFFSET + 4] == Le32(raw)[0..4];
    U32Shift(c, NEXT_PAGE_ID_OFFSET, Le32(raw), 0);
  }

  lemma RelinkedMeaning(b: PageBytes, next: Option<PageId>)
    requires WellFormed(b) && (next.Some? ==> next.value != U32_MAX)
    ensures WellFormed(Relinked(b, next))
    ensures Abs(Relinked(b, next)) == Abs(b).(next := next)
  {
    hide Relinked, RawSlotAt, CountLiveUpTo, NextPage, EntriesApart;
    var c := Relinked(b, next);
    RelinkedBytes(b, next);
    assert SlotCount(c) == SlotCount(b) && FreeStart(c) == FreeStart(b);
    assert FreeEnd(c) == FreeEnd(b) && LiveCount(c) == LiveCount(b);
    hide U16At;
    EntriesFrame(b, c, SlotCount(b));
    RebuiltPage(b, c, Table(b), FreeEnd(b));
    StatesFrame(b, c, Table(b), FreeEnd(b));
  }

  function HeadBytes(): (h: seq<byte>)
    ensures |h| == SLOT_COUNT_OFFSET
  {
    MAGIC + [FORMAT_VERSION] + [HEAP_PAGE_KIND] + Le16(0)
  }

  function HeaderBytes(): (h: seq<byte>)
    ensures |h| == PAGE_HEADER_SIZE
  {
    HeadBytes() + Le16(0) + Le16(PAGE_HEADER_SIZE) + Le16(PAGE_SIZE) + Le16(0) + Le32(U32_MAX) + Zeros(8) + Le32(0)
  }

  /** A freshly initialized page. */
  function Initialized(): PageBytes {
    HeaderBytes() + Zeros(PAGE_SIZE - PAGE_HEADER_SIZE)
  }

  lemma InitializedMeaning()
    ensures Sound(Initialized()) && Abs(Initialized()) == EmptyPage
  {
    var b, h := Initialized(), HeaderBytes();
    assert forall i | 0 <= i < PAGE_HEADER_SIZE :: b[i] == h[i];
    assert b[..4] == MAGIC;
    assert h[8] == 0 && h[9] == 0 && h[10] == 32 && h[11] == 0 && h[12] == 0 && h[13] == 32 && h[14] == 0 && h[15] == 0;
    assert h[16..20] == Le32(U32_MAX)[0..4];
    assert b[16..20] == h[16..20];
    Le32RoundTrip(U32_MAX);
    U32Shift(b, NEXT_PAGE_ID_OFFSET, Le32(U32_MAX), 0);
    assert Table(b) == [];
    assert Abs(b).slots == [];
  }

  // ----- Compaction -----

  /** The live records of the first `n` slots, the last slot's first: the order in which compaction packs them. */
  function PackedTail(slots: seq<SlotState>, n: nat): (p: seq<byte>)
    requires n <= |slots|
    ensures |p| == LiveUpTo(slots, n)
  {
    if n == 0 then []
    else (if slots[n - 1].Live? then slots[n - 1].record else []) + PackedTail(slots, n - 1)
  }

  /** The image that compaction builds: zeros, then the packed records up to the page end. */
  function PackedArea(slots: seq<SlotState>, n: nat): (p: PageBytes)
    requires n <= |slots| && LiveUpTo(slots, n) <= PAGE_SIZE
  {
    Zeros(PAGE_SIZE - LiveUpTo(slots, n)) + PackedTail(slots, n)
  }

  /** A queued relocation: the slot, and the new offset of its record. */
  datatype Move = Move(slot: nat, offset: nat)

  predicate MovesFit(m: seq<Move>, n: nat) {
    forall i | 0 <= i < |m| :: m[i].slot < n && m[i].offset <= PAGE_SIZE
  }

  /** The relocations queued for the first `n` slots, in slot order. */
  function Moves(slots: seq<SlotState>, n: nat): (m: seq<Move>)
    requires n <= |slots| && LiveUpTo(slots, n) <= PAGE_SIZE
    ensures MovesFit(m, n)
  {
    if n == 0 then []
    else if slots[n - 1].Live? then Moves(slots, n - 1) + [Move(n - 1, PAGE_SIZE - LiveUpTo(slots, n))]
    else Moves(slots, n - 1)
  }

  /** `b` after the queued relocations have been written to the directory. */
  function Relocated(b: PageBytes, m: seq<Move>, n: nat): PageBytes
    requires SlotBase(n) <= PAGE_SIZE && MovesFit(m, n)
  {
    if m == [] then b
    else Put16(Relocated(b, m[..|m| - 1], n), SlotBase(m[|m| - 1].slot), m[|m| - 1].offset)
  }

  /** Page contents after compaction. */
  ghost function Compacted(b: PageBytes): PageBytes
    requires WellFormed(b)
    requires LiveBytes(Abs(b).slots) <= PAGE_SIZE
  {
    var slots, start, n := Abs(b).slots, FreeStart(b), SlotCount(b);
    var b1 := Splice(b, start, PackedArea(slots, n)[start..]);
    Put16(Relocated(b1, Moves(slots, n), n), FREE_END_OFFSET, PAGE_SIZE - LiveBytes(slots))
  }

  lemma SliceAfter<T>(head: seq<T>, q: seq<T>, lo: nat, hi: nat)
    requires lo <= hi <= |q|
    ensures (head + q)[|head| + lo..|head| + hi] == q[lo..hi]
  {
  }

  /** In the packed tail, the record of slot `k` ends where the records of the slots before it begin. */
  lemma {:induction false} PackedTailHolds(slots: seq<SlotState>, k: nat, n: nat)
    requires k < n <= |slots| && slots[k].Live?
    ensures LiveUpTo(slots, k) <= LiveUpTo(slots, k + 1) <= LiveUpTo(slots, n)
    ensures var total := LiveUpTo(slots, n);
      PackedTail(slots, n)[total - LiveUpTo(slots, k + 1)..total - LiveUpTo(slots, k)] == slots[k].record
  {
    var head, q := if slots[n - 1].Live? then slots[n - 1].record else [], PackedTail(slots, n - 1);
    assert PackedTail(slots, n) == head + q && LiveUpTo(slots, n) == |head| + |q|;
    if k < n - 1 {
      PackedTailHolds(slots, k, n - 1);
      hide PackedTail, LiveUpTo;
      SliceAfter(head, q, |q| - LiveUpTo(slots, k + 1), |q| - LiveUpTo(slots, k));
    } else {
      assert |q| == LiveUpTo(slots, k);
      hide PackedTail, LiveUpTo;
      assert (head + q)[0..|head|] == head;
    }
  }

  lemma PutOffset(b: PageBytes, n: nat, k: nat, offset: u16)
    requires k < n && SlotBase(n) <= PAGE_SIZE
    ensures var c := Put16(b, SlotBase(k), offset);
      && Entries(c, n) == Entries(b, n)[k := RawSlotAt(b, k).(offset := offset)]
      && Agree(c, b, 0, PAGE_HEADER_SIZE) && Agree(c, b, SlotBase(n), PAGE_SIZE)
  {
    var c := Put16(b, SlotBase(k), offset);
    Le16RoundTrip(offset);
    forall j | 0 <= j < n && j != k ensures RawSlotAt(c, j) == RawSlotAt(b, j) {
      assert SlotBase(j + 1) <= SlotBase(k) || SlotBase(k + 1) <= SlotBase(j);
    }
  }

  /** The directory after the queued relocations. */
  function Moved(t: seq<RawSlot>, m: seq<Move>): (r: seq<RawSlot>)
    requires MovesFit(m, |t|)
    ensures |r| == |t|
  {
    if m == [] then t
    else
      var r, last := Moved(t, m[..|m| - 1]), m[|m| - 1];
      r[last.slot := r[last.slot].(offset := last.offset)]
  }

  lemma {:induction false} RelocatedEntries(b: PageBytes, m: seq<Move>, n: nat)
    requires SlotBase(n) <= PAGE_SIZE && MovesFit(m, n)
    ensures var c := Relocated(b, m, n);
      && Entries(c, n) == Moved(Entries(b, n), m)
      && Agree(c, b, 0, PAGE_HEADER_SIZE) && Agree(c, b, SlotBase(n), PAGE_SIZE)
  {
    hide RawSlotAt, Put16;
    if m != [] {
      RelocatedEntries(b, m[..|m| - 1], n);
      PutOffset(Relocated(b, m[..|m| - 1], n), n, m[|m| - 1].slot, m[|m| - 1].offset);
    }
  }

  /** Relocation gives each live entry its packed offset and leaves everything else of the directory alone. */
  lemma {:induction false} MovedEntry(t: seq<RawSlot>, slots: seq<SlotState>, n: nat, k: nat)
    requires n <= |t| == |slots| && k < |t| && LiveUpTo(slots, n) <= PAGE_SIZE
    ensures n > k ==> LiveUpTo(slots, k + 1) <= LiveUpTo(slots, n)
    ensures Moved(t, Moves(slots, n))[k] ==
      if k < n && slots[k].Live? then t[k].(offset := PAGE_SIZE - LiveUpTo(slots, k + 1)) else t[k]
  {
    if n > 0 {
      LiveUpToGrows(slots, n - 1, n);
      MovedEntry(t, slots, n - 1, k);
      var m := Moves(slots, n);
      if slots[n - 1].Live? {
        assert m[..|m| - 1] == Moves(slots, n - 1);
      }
    }
  }

  /** A relocated live entry ends where the packed records of the earlier slots begin. */
  lemma {:induction false} MovedExtent(b: PageBytes, t: seq<RawSlot>, slots: seq<SlotState>, k: nat, freeEnd: nat)
    requires InPage(t) && slots == States(b, t) && LiveBytes(slots) <= PAGE_SIZE
    requires k < |t| && EntryOk(t[k], freeEnd)
    ensures LiveUpTo(slots, k + 1) <= LiveBytes(slots)
    ensures var s := Moved(t, Moves(slots, |t|))[k];
      && s.flags == t[k].flags
      && EntryOk(s, PAGE_SIZE - LiveBytes(slots))
      && (s.flags == LIVE ==> s.offset == PAGE_SIZE - LiveUpTo(slots, k + 1) && s.End() == PAGE_SIZE - LiveUpTo(slots, k))
  {
    MovedEntry(t, slots, |t|, k);
    hide Moved, Moves;
    assert slots[k] == StateOf(b, t[k]);
  }

  /** Packed entries lie side by side, so a relocated directory has no overlaps. */
  lemma {:induction false} MovedTableOk(b: PageBytes, t: seq<RawSlot>, slots: seq<SlotState>, freeEnd: nat)
    requires TableOk(t, freeEnd) && InPage(t) && slots == States(b, t) && LiveBytes(slots) <= PAGE_SIZE
    ensures TableOk(Moved(t, Moves(slots, |t|)), PAGE_SIZE - LiveBytes(slots))
    ensures CountLive(Moved(t, Moves(slots, |t|))) == CountLive(t)
  {
    var n, total := |t|, LiveBytes(slots);
    var u := Moved(t, Moves(slots, n));
    hide Moved, Moves, States, EntryOk, LiveUpTo;
    forall k | 0 <= k < n ensures EntryOk(u[k], PAGE_SIZE - total) && u[k].flags == t[k].flags {
      MovedExtent(b, t, slots, k, freeEnd);
    }
    CountLiveFrame(u, t, n);
    hide CountLiveUpTo;
    forall i, j | 0 <= i < j < n ensures EntriesApart(u[i], u[j]) {
      MovedApart(b, t, slots, i, j, freeEnd);
    }
  }

  lemma {:induction false} MovedApart(b: PageBytes, t: seq<RawSlot>, slots: seq<SlotState>, i: nat, j: nat, freeEnd: nat)
    requires InPage(t) && slots == States(b, t) && LiveBytes(slots) <= PAGE_SIZE
    requires i < j < |t| && EntryOk(t[i], freeEnd) && EntryOk(t[j], freeEnd)
    ensures EntriesApart(Moved(t, Moves(slots, |t|))[i], Moved(t, Moves(slots, |t|))[j])
  {
    hide Moved, Moves, States, EntryOk, LiveUpTo, LiveBytes;
    MovedExtent(b, t, slots, i, freeEnd);
    MovedExtent(b, t, slots, j, freeEnd);
    LiveUpToGrows(slots, i + 1, j);
  }

  /** Every live record reads the same from the packed image as it did before. */
  lemma {:induction false} MovedStates(b: PageBytes, c: PageBytes, t: seq<RawSlot>, slots: seq<SlotState>)
    requires InPage(t) && slots == States(b, t) && LiveBytes(slots) <= PAGE_SIZE
    requires Agree(c, PackedArea(slots, |slots|), PAGE_SIZE - LiveBytes(slots), PAGE_SIZE)
    ensures var u := Moved(t, Moves(slots, |t|));
      InPage(u) && States(c, u) == slots
  {
    var u := Moved(t, Moves(slots, |t|));
    hide Moved, Moves, PackedArea, LiveUpTo, Agree;
    forall k | 0 <= k < |t|
      ensures u[k].flags == LIVE ==> u[k].End() <= PAGE_SIZE
      ensures StateOf(c, u[k]) == slots[k]
    {
      MovedState(b, c, t, slots, k);
    }
  }

  lemma {:induction false} MovedState(b: PageBytes, c: PageBytes, t: seq<RawSlot>, slots: seq<SlotState>, k: nat)
    requires InPage(t) && slots == States(b, t) && LiveBytes(slots) <= PAGE_SIZE && k < |t|
    requires Agree(c, PackedArea(slots, |slots|), PAGE_SIZE - LiveBytes(slots), PAGE_SIZE)
    ensures var u := Moved(t, Moves(slots, |t|));
      (u[k].flags == LIVE ==> u[k].End() <= PAGE_SIZE) && StateOf(c, u[k]) == slots[k]
  {
    hide Moved, Moves;
    MovedEntry(t, slots, |t|, k);
    if t[k].flags == LIVE {
      PackedTailHolds(slots, k, |t|);
      PackedRecord(c, slots, k);
    }
  }

  lemma PackedRecord(c: PageBytes, slots: seq<SlotState>, k: nat)
    requires k < |slots| && slots[k].Live? && LiveBytes(slots) <= PAGE_SIZE
    requires Agree(c, PackedArea(slots, |slots|), PAGE_SIZE - LiveBytes(slots), PAGE_SIZE)
    ensures LiveUpTo(slots, k) <= LiveUpTo(slots, k + 1) <= LiveBytes(slots)
    ensures c[PAGE_SIZE - LiveUpTo(slots, k + 1)..PAGE_SIZE - LiveUpTo(slots, k)] == slots[k].record
  {
    var n := |slots|;
    PackedTailHolds(slots, k, n);
    var total, tail := LiveUpTo(slots, n), PackedTail(slots, n);
    var lo, hi := LiveUpTo(slots, k + 1), LiveUpTo(slots, k);
    hide PackedTail, LiveUpTo;
    assert PackedArea(slots, n)[PAGE_SIZE - total..] == tail;
    assert c[PAGE_SIZE - lo..PAGE_SIZE - hi] == PackedArea(slots, n)[PAGE_SIZE - lo..PAGE_SIZE - hi];
    SliceAfter(Zeros(PAGE_SIZE - total), tail, total - lo, total - hi);
  }

  lemma HeaderFrame(b: PageBytes, c: PageBytes)
    requires Agree(c, b, 0, FREE_END_OFFSET) && Agree(c, b, LIVE_COUNT_OFFSET, PAGE_HEADER_SIZE)
    ensures SlotCount(c) == SlotCount(b) && FreeStart(c) == FreeStart(b) && LiveCount(c) == LiveCount(b)
  {
  }

  lemma PutFreeEnd(b: PageBytes, v: u16)
    ensures var c := Put16(b, FREE_END_OFFSET, v);
      && FreeEnd(c) == v
      && Agree(c, b, 0, FREE_END_OFFSET) && Agree(c, b, LIVE_COUNT_OFFSET, PAGE_SIZE)
  {
    Le16RoundTrip(v);
  }

  /** Part by part, what the bytes look like after compaction. */
  lemma {:induction false} CompactedShape(b: PageBytes, t: seq<RawSlot>, slots: seq<SlotState>, n: nat, start: nat)
    requires WellFormed(b) && t == Table(b) && slots == Abs(b).slots && n == |t| && start == FreeStart(b)
    ensures n == SlotCount(b) && LiveBytes(slots) <= PAGE_SIZE - start
    ensures var c := Compacted(b);
      && Agree(c, b, 0, FREE_END_OFFSET) && Agree(c, b, LIVE_COUNT_OFFSET, PAGE_HEADER_SIZE)
      && Agree(c, PackedArea(slots, n), start, PAGE_SIZE)
      && FreeEnd(c) == PAGE_SIZE - LiveBytes(slots)
      && Entries(c, n) == Moved(t, Moves(slots, n))
  {
    FreeSpaceWithinSlack(b);
    var area, m := PackedArea(slots, n), Moves(slots, n);
    var b1 := Splice(b, start, area[start..]);
    var b2 := Relocated(b1, m, n);
    var c := Put16(b2, FREE_END_OFFSET, PAGE_SIZE - LiveBytes(slots));
    assert c == Compacted(b);
    hide Compacted, Relocated, PackedArea, Moves, Moved, U16At, RawSlotAt, Put16, Abs, TableOk, LiveUpTo;
    assert Agree(b1, b, 0, start) && Agree(b1, area, start, PAGE_SIZE);
    EntriesFrame(b, b1, n);
    RelocatedEntries(b1, m, n);
    PutFreeEnd(b2, PAGE_SIZE - LiveBytes(slots));
    EntriesFrame(b2, c, n);
  }

  /**
   * Compaction never fails on a valid page, keeps the page valid and its meaning unchanged, and
   * leaves exactly the slack as one contiguous gap.
   */
  lemma {:induction false} CompactedMeaning(b: PageBytes)
    requires WellFormed(b)
    ensures LiveBytes(Abs(b).slots) <= PAGE_SIZE - FreeStart(b)
    ensures var c := Compacted(b);
      && WellFormed(c) && Abs(c) == Abs(b)
      && FreeStart(c) == FreeStart(b)
      && FreeEnd(c) == PAGE_SIZE - LiveBytes(Abs(b).slots)
      && FreeEnd(c) as int - FreeStart(c) as int == Slack(Abs(b).slots)
  {
    var t, slots, start: nat := Table(b), Abs(b).slots, FreeStart(b);
    var n := |t|;
    CompactedShape(b, t, slots, n, start);
    var c := Compacted(b);
    var u := Moved(t, Moves(slots, n));
    HeaderFrame(b, c);
    hide Compacted, PackedArea, Moves, Moved, U16At, U32At, RawSlotAt, Put16, EntriesApart, EntryOk, LiveUpTo;
    MovedTableOk(b, t, slots, FreeEnd(b));
    RebuiltPage(b, c, u, PAGE_SIZE - LiveBytes(slots));
    MovedStates(b, c, t, slots);
  }

  lemma PutSame(c: PageBytes, o: nat, v: u16)
    requires o + 2 <= PAGE_SIZE && U16At(c, o) == v
    ensures Put16(c, o, v) == c
  {
  }

  lemma {:induction false} RelocatedSame(c: PageBytes, slots: seq<SlotState>, k: nat, n: nat)
    requires k <= n <= |slots| && LiveUpTo(slots, k) <= PAGE_SIZE && SlotBase(n) <= PAGE_SIZE
    requires forall j | 0 <= j < n && slots[j].Live? :: Entries(c, n)[j].offset == PAGE_SIZE - LiveUpTo(slots, j + 1)
    ensures Relocated(c, Moves(slots, k), n) == c
  {
    hide Put16;
    if k > 0 {
      RelocatedSame(c, slots, k - 1, n);
      var m := Moves(slots, k);
      if slots[k - 1].Live? {
        assert m[..|m| - 1] == Moves(slots, k - 1);
        assert Entries(c, n)[k - 1].offset == U16At(c, SlotBase(k - 1));
        PutSame(c, SlotBase(k - 1), PAGE_SIZE - LiveUpTo(slots, k));
      }
    }
  }

  lemma SpliceSame(c: PageBytes, area: PageBytes, start: nat)
    requires start <= PAGE_SIZE && Agree(c, area, start, PAGE_SIZE)
    ensures Splice(c, start, area[start..]) == c
  {
  }

  /** A page that already has the packed shape is what compaction of it writes. */
  lemma {:induction false} PackedIsFixed(c: PageBytes, t: seq<RawSlot>, slots: seq<SlotState>, start: nat, n: nat)
    requires WellFormed(c) && slots == Abs(c).slots && start == FreeStart(c) && n == SlotCount(c) == |t|
    requires LiveBytes(slots) <= PAGE_SIZE && FreeEnd(c) == PAGE_SIZE - LiveBytes(slots)
    requires Agree(c, PackedArea(slots, n), start, PAGE_SIZE)
    requires Entries(c, n) == Moved(t, Moves(slots, n))
    ensures Compacted(c) == c
  {
    SpliceSame(c, PackedArea(slots, n), start);
    assert |slots| == n;
    assert Compacted(c) == Put16(Relocated(c, Moves(slots, n), n), FREE_END_OFFSET, PAGE_SIZE - LiveBytes(slots)) by {
      hide PackedArea, WellFormed, Abs, Moves, Moved, LiveUpTo, Put16, Relocated, U16At, Entries, Splice;
    }
    hide *;
    MovedOffsets(t, slots, n);
    RelocatedSame(c, slots, n, n);
    PutSame(c, FREE_END_OFFSET, PAGE_SIZE - LiveBytes(slots));
  }

  lemma {:induction false} MovedOffsets(t: seq<RawSlot>, slots: seq<SlotState>, n: nat)
    requires n == |t| == |slots| && LiveUpTo(slots, n) <= PAGE_SIZE
    ensures forall j | 0 <= j < n && slots[j].Live? ::
      Moved(t, Moves(slots, n))[j].offset == PAGE_SIZE - LiveUpTo(slots, j + 1)
  {
    hide Moved, Moves, LiveUpTo;
    forall j | 0 <= j < n && slots[j].Live?
      ensures Moved(t, Moves(slots, n))[j].offset == PAGE_SIZE - LiveUpTo(slots, j + 1)
    {
      MovedEntry(t, slots, n, j);
    }
  }

  /** Compacting a page that has just been compacted changes no byte of it. */
  lemma {:induction false} CompactionIsIdempotent(b: PageBytes)
    requires WellFormed(b)
    ensures LiveBytes(Abs(b).slots) <= PAGE_SIZE
    ensures WellFormed(Compacted(b)) && Abs(Compacted(b)) == Abs(b)
    ensures Compacted(Compacted(b)) == Compacted(b)
  {
    hide Compacted, PackedArea, Moves, Moved, U16At, WellFormed, LiveUpTo;
    CompactedMeaning(b);
    CompactedShape(b, Table(b), Abs(b).slots, SlotCount(b), FreeStart(b));
    HeaderFrame(b, Compacted(b));
    PackedIsFixed(Compacted(b), Table(b), Abs(b).slots, FreeStart(b), SlotCount(b));
  }

  /** Overwriting the zeros just below what is packed puts a record in front of it. */
  lemma PackOne(before: nat, record: seq<byte>, tail: seq<byte>)
    requires before == |tail| && before + |record| <= PAGE_SIZE
    ensures Zeros(PAGE_SIZE - before - |record|) + (record + tail)
         == Splice(Zeros(PAGE_SIZE - before) + tail, PAGE_SIZE - before - |record|, record)
  {
  }

  /** One more slot scanned: a live record goes just below what is packed already, any other slot adds nothing. */
  lemma {:induction false} PackedAreaStep(slots: seq<SlotState>, k: nat)
    requires k < |slots| && LiveUpTo(slots, k + 1) <= PAGE_SIZE
    ensures LiveUpTo(slots, k) <= LiveUpTo(slots, k + 1) == LiveUpTo(slots, k) + Weight(slots[k])
    ensures slots[k].Live? ==>
      && PackedArea(slots, k + 1) == Splice(PackedArea(slots, k), PAGE_SIZE - LiveUpTo(slots, k + 1), slots[k].record)
      && Moves(slots, k + 1) == Moves(slots, k) + [Move(k, PAGE_SIZE - LiveUpTo(slots, k + 1))]
    ensures !slots[k].Live? ==> PackedArea(slots, k + 1) == PackedArea(slots, k) && Moves(slots, k + 1) == Moves(slots, k)
  {
    hide LiveUpTo, PackedTail, PackedArea, Moves, Splice, Weight;
    OneMoreLength(slots, k);
    OneMoreMove(slots, k);
    OneMoreArea(slots, k);
  }

  lemma OneMoreLength(slots: seq<SlotState>, k: nat)
    requires k < |slots|
    ensures LiveUpTo(slots, k) <= LiveUpTo(slots, k + 1) == LiveUpTo(slots, k) + Weight(slots[k])
    ensures Weight(slots[k]) == if slots[k].Live? then |slots[k].record| else 0
  {
    hide PackedTail, PackedArea, Moves;
  }

  lemma OneMoreMove(slots: seq<SlotState>, k: nat)
    requires k < |slots| && LiveUpTo(slots, k + 1) <= PAGE_SIZE
    ensures LiveUpTo(slots, k) <= PAGE_SIZE
    ensures Moves(slots, k + 1) == Moves(slots, k) + if slots[k].Live? then [Move(k, PAGE_SIZE - LiveUpTo(slots, k + 1))] else []
  {
    OneMoreLength(slots, k);
    hide LiveUpTo, PackedTail, PackedArea, Weight;
  }

  lemma OneMoreTail(slots: seq<SlotState>, k: nat)
    requires k < |slots|
    ensures PackedTail(slots, k + 1) == if slots[k].Live? then slots[k].record + PackedTail(slots, k) else PackedTail(slots, k)
  {
    hide LiveUpTo, Moves, Weight;
  }

  lemma OneMoreArea(slots: seq<SlotState>, k: nat)
    requires k < |slots| && LiveUpTo(slots, k + 1) <= PAGE_SIZE
    ensures LiveUpTo(slots, k) <= PAGE_SIZE
    ensures slots[k].Live? ==> LiveUpTo(slots, k + 1) == LiveUpTo(slots, k) + |slots[k].record|
    ensures PackedArea(slots, k + 1) == if slots[k].Live?
      then Splice(PackedArea(slots, k), PAGE_SIZE - LiveUpTo(slots, k + 1), slots[k].record) else PackedArea(slots, k)
  {
    hide LiveUpTo, PackedTail, Moves, Splice, Weight, Zeros;
    OneMoreLength(slots, k);
    OneMoreTail(slots, k);
    if slots[k].Live? {
      var before, tail, record := LiveUpTo(slots, k), PackedTail(slots, k), slots[k].record;
      assert PackedArea(slots, k + 1) == Zeros(PAGE_SIZE - before - |record|) + (record + tail);
      assert PackedArea(slots, k) == Zeros(PAGE_SIZE - before) + tail;
      hide PackedArea;
      PackOne(before, record, tail);
    }
  }

  /** What the scanning loop reads from directory entry `k` is the abstract slot `k`. */
  lemma SlotReadsAsState(b: PageBytes, k: nat)
    requires WellFormed(b) && k < SlotCount(b)
    ensures SlotBase(k + 1) <= PAGE_SIZE
    ensures var s, st := RawSlotAt(b, k), Abs(b).slots[k];
      && s.generation == st.generation
      && (s.flags == LIVE <==> st.Live?) && (s.flags == FREE <==> st.Free?)
      && (s.flags == LIVE ==> s.End() <= PAGE_SIZE && st.record == b[s.offset..s.End()])
  {
    hide U16At, U32At, CountLive;
    assert Table(b)[k] == RawSlotAt(b, k);
    assert EntryOk(Table(b)[k], FreeEnd(b));
  }

  /** Where the scan of a compaction starts, and the room it is sure to have. */
  lemma ScanStart(b: PageBytes, slots: seq<SlotState>)
    requires WellFormed(b) && slots == Abs(b).slots
    ensures |slots| == SlotCount(b) && SlotBase(|slots|) == FreeStart(b) && LiveUpTo(slots, 0) == 0
    ensures LiveUpTo(slots, |slots|) == LiveBytes(slots) <= PAGE_SIZE - FreeStart(b) <= PAGE_SIZE
    ensures PackedArea(slots, 0) == Zeros(PAGE_SIZE) && Moves(slots, 0) == []
  {
    FreeSpaceWithinSlack(b);
    assert |slots| == SlotCount(b);
    hide WellFormed, Abs, U16At;
    assert PackedArea(slots, 0) == Zeros(PAGE_SIZE);
  }

  lemma CompactedSteps(b: PageBytes, slots: seq<SlotState>)
    requires WellFormed(b) && slots == Abs(b).slots && |slots| == SlotCount(b) && LiveBytes(slots) <= PAGE_SIZE
    ensures Compacted(b) ==
      Put16(Relocated(Splice(b, FreeStart(b), PackedArea(slots, |slots|)[FreeStart(b)..]), Moves(slots, |slots|), |slots|),
            FREE_END_OFFSET, PAGE_SIZE - LiveUpTo(slots, |slots|))
  {
    hide U16At, Abs, PackedArea, Moves, Relocated, Put16, Splice;
  }

  lemma CanInsertFromPlan(b: PageBytes, record: seq<byte>, at: SlotRef)
    requires WellFormed(b)
    requires match FirstFree(Abs(b).slots)
      case Some(k) => at.slot == k
      case None => at.slot == |Abs(b).slots|
    requires |record| + (if FirstFree(Abs(b).slots).Some? then 0 else SLOT_ENTRY_SIZE) <= FreeEnd(b) as int - FreeStart(b) as int
    ensures CanInsert(b, record, at) && at.slot <= 1020
  {
    WellFormedBounds(b);
    if FirstFree(Abs(b).slots).Some? {
      SlotReadsAsState(b, at.slot);
    }
  }

  lemma SlotWriteKeepsHeader(b: PageBytes, k: nat, e: RawSlot)
    requires SlotBase(k + 1) <= PAGE_SIZE
    ensures var c := PutSlot(b, k, e); FreeEnd(c) == FreeEnd(b) && SlotCount(c) == SlotCount(b) && FreeStart(c) == FreeStart(b)
  {
    PutSlotEntries(b, k, k, e);
    hide SlotBytes;
  }

  /** Everything an in-place deletion needs to know about the bytes it starts from. */
  lemma DeletionPlan(b: PageBytes, k: nat)
    requires WellFormed(b) && k < SlotCount(b) && Abs(b).slots[k].Live?
    ensures SlotBase(k + 1) <= PAGE_SIZE && Table(b)[k].flags == LIVE && LiveCount(b) >= 1
    ensures Table(b)[k].generation == Abs(b).slots[k].generation
    ensures Put16(PutSlot(b, k, VacatedEntry(Abs(b).slots[k].generation)), LIVE_COUNT_OFFSET, LiveCount(b) - 1) == Deleted(b, k)
  {
    SlotReadsAsState(b, k);
    DeletedMeaning(b, k);
    hide WellFormed, Abs, PutHeader, U16At, VacatedEntry, Put16, PutSlot;
    assert Table(b)[k] == RawSlotAt(b, k);
    DeletionWrites(b, k, VacatedEntry(RawSlotAt(b, k).generation));
  }

  lemma DeletionWrites(b: PageBytes, k: nat, e: RawSlot)
    requires SlotBase(k + 1) <= PAGE_SIZE && LiveCount(b) >= 1
    ensures var c := PutSlot(b, k, e);
      Put16(c, LIVE_COUNT_OFFSET, LiveCount(b) - 1) == PutHeader(c, SlotCount(b), FreeStart(b), FreeEnd(b), LiveCount(b) - 1)
  {
    var c := PutSlot(b, k, e);
    SlotWriteKeepsHeader(b, k, e);
    hide PutSlot, PutHeader, U16At;
    SetSpaceFields(c, FreeEnd(b), LiveCount(b) - 1);
    PutSame(c, FREE_END_OFFSET, FreeEnd(b));
  }

  /** Writing the next header bytes onto an image that is zero beyond what is written so far. */
  lemma ExtendPrefix(p: seq<byte>, source: seq<byte>)
    requires |p| + |source| <= PAGE_SIZE
    ensures Splice(p + Zeros(PAGE_SIZE - |p|), |p|, source) == (p + source) + Zeros(PAGE_SIZE - |p + source|)
  {
  }

  /** The page after the field-by-field writes of initialization, the first five and then the rest. */
  function InitializedHead(): PageBytes {
    Put16(Splice(Splice(Splice(Zeros(PAGE_SIZE), 0, MAGIC), 4, [FORMAT_VERSION]), 5, [HEAP_PAGE_KIND]), 6, 0)
  }

  function InitializedSpace(b: PageBytes): PageBytes {
    Put16(Put16(Put16(Put16(b, SLOT_COUNT_OFFSET, 0), FREE_START_OFFSET, PAGE_HEADER_SIZE), FREE_END_OFFSET, PAGE_SIZE),
          LIVE_COUNT_OFFSET, 0)
  }

  function InitializedRest(b: PageBytes): PageBytes {
    Put32(Splice(Put32(b, NEXT_PAGE_ID_OFFSET, U32_MAX), 20, Zeros(8)), 28, 0)
  }

  /** `p`, then zeros to the page end. */
  function Padded(p: seq<byte>): PageBytes
    requires |p| <= PAGE_SIZE
  {
    p + Zeros(PAGE_SIZE - |p|)
  }

  lemma HeadWritten()
    ensures InitializedHead() == Padded(HeadBytes())
  {
    hide Splice, Le16;
    assert Padded([]) == Zeros(PAGE_SIZE);
    hide Zeros;
    ExtendPrefix([], MAGIC);
    assert [] + MAGIC == MAGIC;
    ExtendPrefix(MAGIC, [FORMAT_VERSION]);
    ExtendPrefix(MAGIC + [FORMAT_VERSION], [HEAP_PAGE_KIND]);
    ExtendPrefix(MAGIC + [FORMAT_VERSION] + [HEAP_PAGE_KIND], Le16(0));
  }

  lemma SpaceWritten(p: seq<byte>)
    requires |p| == SLOT_COUNT_OFFSET
    ensures InitializedSpace(Padded(p)) == Padded(p + Le16(0) + Le16(PAGE_HEADER_SIZE) + Le16(PAGE_SIZE) + Le16(0))
  {
    hide Splice, Le16, Zeros;
    ExtendPrefix(p, Le16(0));
    ExtendPrefix(p + Le16(0), Le16(PAGE_HEADER_SIZE));
    ExtendPrefix(p + Le16(0) + Le16(PAGE_HEADER_SIZE), Le16(PAGE_SIZE));
    ExtendPrefix(p + Le16(0) + Le16(PAGE_HEADER_SIZE) + Le16(PAGE_SIZE), Le16(0));
  }

  lemma RestWritten(p: seq<byte>)
    requires |p| == NEXT_PAGE_ID_OFFSET
    ensures InitializedRest(Padded(p)) == Padded(p + Le32(U32_MAX) + Zeros(8) + Le32(0))
  {
    hide Splice, Le32, Zeros;
    ExtendPrefix(p, Le32(U32_MAX));
    ExtendPrefix(p + Le32(U32_MAX), Zeros(8));
    ExtendPrefix(p + Le32(U32_MAX) + Zeros(8), Le32(0));
  }

  lemma InitializationWrites()
    ensures InitializedRest(InitializedSpace(InitializedHead())) == Initialized()
  {
    hide InitializedHead, InitializedSpace, InitializedRest, Le16, Le32, HeadBytes;
    HeadWritten();
    SpaceWritten(HeadBytes());
    RestWritten(HeadBytes() + Le16(0) + Le16(PAGE_HEADER_SIZE) + Le16(PAGE_SIZE) + Le16(0));
  }
}
