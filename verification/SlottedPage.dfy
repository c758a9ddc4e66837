/**
 * The slotted heap page as the engine edits it in place (src/heap/slotted_page.rs): every method
 * overwrites the page's bytes, and is proved to do what PageModel says on the page's meaning.
 */
module SlottedPages {
  import opened Wrappers
  import opened Bytes
  import opened Pages
  import opened PageModel
  import opened PageLayout
  import opened PageEdits
  import opened Numbers
  import opened PageFormat
  import opened Ranges

  class SlottedPage {
    const page: Page
    /** False for a page borrowed read-only. */
    const writable: bool

    constructor (page: Page, writable: bool)
      ensures this.page == page && this.writable == writable
    {
      this.page := page;
      this.writable := writable;
    }

    ghost predicate Valid()
      reads page.bytes
    {
      page.Valid() && WellFormed(page.Content())
    }

    /** The meaning of the page. */
    ghost function State(): PageState
      requires Valid()
      reads page.bytes
    {
      Abs(page.Content())
    }

    function FindReusableSlot(from: nat := 0): (r: Option<nat>)
      requires Valid() && from <= SlotCount(page.Content())
      reads page.bytes
      ensures r == FirstFree(State().slots, from)
      decreases SlotCount(page.Content()) - from
    {
      var b := page.Content();
      if from == SlotCount(b) then None
      else if RawSlotAt(b, from).flags == FREE then Some(from)
      else FindReusableSlot(from + 1)
    }

    function LiveLength(n: nat): (r: nat)
      requires Valid() && n <= SlotCount(page.Content())
      reads page.bytes
      ensures r == LiveUpTo(State().slots, n)
    {
      if n == 0 then 0
      else
        var s := RawSlotAt(page.Content(), n - 1);
        LiveLength(n - 1) + if s.flags == LIVE then s.length else 0
    }

    function FreeSpaceAfterCompaction(growth: nat): (r: Result<nat, SlottedPageError>)
      requires Valid()
      reads page.bytes
      ensures r == if Slack(State().slots) < growth then Err(SlackUnderflow) else Ok(Slack(State().slots) - growth)
    {
      var b := page.Content();
      var space := PAGE_SIZE - FreeStart(b) - growth - LiveLength(SlotCount(b));
      if space < 0 then Err(SlackUnderflow) else Ok(space)
    }

    function ContiguousFreeSpace(): (r: nat)
      requires Valid()
      reads page.bytes
    {
      FreeEnd(page.Content()) - FreeStart(page.Content())
    }

    predicate IsLive(rid: Rid)
      requires Valid()
      reads page.bytes
      ensures IsLive(rid) <==> rid.page == page.id && Resolves(State(), SlotRef(rid.slot, rid.generation))
    {
      && rid.page == page.id && rid.slot < SlotCount(page.Content())
      && var s := RawSlotAt(page.Content(), rid.slot);
      && s.flags == LIVE && s.generation == rid.generation
    }

    function Get(rid: Rid): (r: Result<seq<byte>, SlottedPageError>)
      requires Valid()
      reads page.bytes
      ensures var at := SlotRef(rid.slot, rid.generation);
        r == if rid.page == page.id && Resolves(State(), at) then Ok(State().slots[rid.slot].record) else Err(InvalidRid(rid))
    {
      if !IsLive(rid) then Err(InvalidRid(rid))
      else
        var s := RawSlotAt(page.Content(), rid.slot);
        assert EntryOk(Table(page.Content())[rid.slot], FreeEnd(page.Content()));
        Ok(page.Read(s.offset, s.length).value)
    }

    function NextPageId(): (r: Option<PageId>)
      requires Valid()
      reads page.bytes
      ensures r == State().next
    {
      NextPage(page.Content())
    }

    /** Sets or clears the link; the one id that no page has stands for no link. */
    method SetNextPageId(next: Option<PageId>) returns (r: Result<Unit, SlottedPageError>)
      requires Valid()
      modifies page`dirty, page.bytes
      ensures Valid()
      ensures r == if writable then Ok(Unit) else Err(ReadOnly)
      ensures r.Ok? ==> State() == old(State()).(next := if next == Some(U32_MAX) then None else next) && page.dirty
      ensures r.Ok? ==> LinkSet(old(page.Content()), page.Content(), if next == Some(0xFFFF_FFFF) then None else next)
      ensures r.Err? ==> page.Content() == old(page.Content()) && page.dirty == old(page.dirty)
    {
      if !writable {
        return Err(ReadOnly);
      }
      RelinkedMeaning(page.Content(), if next == Some(U32_MAX) then None else next);
      RelinkedInBytes(page.Content(), if next == Some(U32_MAX) then None else next);
      hide *;
      var w := page.WriteU32(NEXT_PAGE_ID_OFFSET, if next.None? then U32_MAX else next.value);
      return Ok(Unit);
    }

    /** The four field writes that fill in one directory entry. */
    method WriteSlot(k: nat, s: RawSlot)
      requires page.Valid() && SlotBase(k + 1) <= PAGE_SIZE
      modifies page`dirty, page.bytes
      ensures page.dirty && page.Content() == PutSlot(old(page.Content()), k, s)
    {
      var o := SlotBase(k);
      FieldWritesAreOneSlotWrite(page.Content(), k, s);
      hide PutSlot, Put16;
      var w0 := page.WriteU16(o, s.offset);
      var w1 := page.WriteU16(o + 2, s.length);
      var w2 := page.WriteU16(o + 4, s.generation);
      var w3 := page.WriteU16(o + 6, s.flags);
    }

    /** Writes the record and its directory entry, then the header fields that account for them. */
    method PlaceRecord(at: SlotRef, record: seq<byte>)
      requires page.Valid() && CanInsert(page.Content(), record, at)
      modifies page`dirty, page.bytes
      ensures page.dirty
      ensures page.Valid() && WellFormed(page.Content()) <==> at.generation >= 1
      ensures at.generation >= 1 ==> State() == Store(old(State()), at, record)
      ensures RecordPlaced(old(page.Content()), page.Content(), at.slot, at.generation, record)
    {
      hide RecordPlaced;
      hide WellFormed, CanInsert, Abs, Store, PutSlot, Splice, PutHeader, Put16, U16At, RawSlotAt, Placed, Inserted;
      ghost var b := page.Content();
      InsertionPlan(b, record, at);
      InsertedMeaning(b, record, at);
      InsertedInBytes(b, record, at);
      var count, live := SlotCount(page.Content()), LiveCount(page.Content()) + 1;
      var offset := FreeEnd(page.Content()) - |record|;
      var w := page.Write(offset, record);
      WriteSlot(at.slot, RawSlot(offset, |record|, at.generation, LIVE));
      ghost var placed := page.Content();
      SetSpaceFields(placed, offset, live);
      SetAllSpaceFields(placed, at.slot + 1, SlotBase(at.slot + 1), offset, live);
      if at.slot == count {
        w := page.WriteU16(SLOT_COUNT_OFFSET, count + 1);
        w := page.WriteU16(FREE_START_OFFSET, SlotBase(count + 1));
      }
      w := page.WriteU16(FREE_END_OFFSET, offset);
      w := page.WriteU16(LIVE_COUNT_OFFSET, live);
      assert page.Content() == Inserted(b, record, at);
    }

    /** Packs the live records against the page end, in place; every address keeps its row. */
    method Compact() returns (r: Result<Unit, SlottedPageError>)
      requires Valid()
      modifies page`dirty, page.bytes
      ensures r == if writable then Ok(Unit) else Err(ReadOnly)
      ensures r.Ok? ==> page.dirty && LiveBytes(old(State()).slots) <= PAGE_SIZE
      ensures r.Ok? ==> page.Content() == Compacted(old(page.Content())) && Packed(old(page.Content()), page.Content())
      ensures r.Err? ==> page.Content() == old(page.Content()) && page.dirty == old(page.dirty)
    {
      hide Compacted, U16At, RawSlotAt, Abs, WellFormed, LiveUpTo, LiveBytes, PackedArea, Moves, Relocated, Splice,
        FreeStart, SlotCount, Put16, Packed;
      ghost var b := page.Content();
      ghost var slots := Abs(b).slots;
      CompactedInBytes(b);
      ScanStart(b, slots);
      var start, count := FreeStart(page.Content()), SlotCount(page.Content());
      var packed, moves, targetEnd := PackLive(count, b, slots);
      if targetEnd < start {
        assert false;
      }
      if !writable {
        return Err(ReadOnly);
      }
      var w := page.Write(start, packed[start..]);
      WriteMoves(moves, count);
      w := page.WriteU16(FREE_END_OFFSET, targetEnd);
      CompactedSteps(b, slots);
      return Ok(Unit);
    }

    /** The first pass of compaction: builds the packed image and queues the new offsets. */
    method PackLive(count: u16, ghost b: PageBytes, ghost slots: seq<SlotState>)
      returns (packed: array<byte>, moves: seq<Move>, targetEnd: nat)
      requires page.Valid() && b == page.Content() && WellFormed(b) && slots == Abs(b).slots
      requires count == SlotCount(b)
      ensures fresh(packed) && count == |slots| && LiveUpTo(slots, count) <= PAGE_SIZE
      ensures targetEnd == PAGE_SIZE - LiveUpTo(slots, count)
      ensures packed[..] == PackedArea(slots, count) && moves == Moves(slots, count)
    {
      hide WellFormed, Abs, U16At, PackedArea, Moves, LiveUpTo, RawSlotAt, StateOf;
      ScanStart(b, slots);
      packed := new byte[PAGE_SIZE](i => 0);
      moves := [];
      targetEnd := PAGE_SIZE;
      for k := 0 to count
        invariant LiveUpTo(slots, k) <= PAGE_SIZE
        invariant targetEnd == PAGE_SIZE - LiveUpTo(slots, k)
        invariant packed[..] == PackedArea(slots, k) && moves == Moves(slots, k)
      {
        SlotReadsAsState(b, k);
        LiveUpToGrows(slots, k + 1, count);
        PackedAreaStep(slots, k);
        var s := RawSlotAt(page.Content(), k);
        if s.flags == LIVE {
          if targetEnd < s.length {
            assert false;
          }
          targetEnd := targetEnd - s.length;
          var record := page.Read(s.offset, s.length).value;
          Overwrite(packed, targetEnd, record);
          moves := moves + [Move(k, targetEnd)];
        }
      }
    }

    static method Overwrite(target: array<byte>, offset: nat, source: seq<byte>)
      requires offset + |source| <= target.Length
      modifies target
      ensures target[..] == Splice(old(target[..]), offset, source)
    {
      forall i | 0 <= i < |source| {
        target[offset + i] := source[i];
      }
    }

    /** The second pass of compaction: writes the queued offsets to the directory. */
    method WriteMoves(moves: seq<Move>, ghost n: nat)
      requires page.Valid() && SlotBase(n) <= PAGE_SIZE && MovesFit(moves, n)
      modifies page`dirty, page.bytes
      ensures page.Content() == Relocated(old(page.Content()), moves, n)
      ensures old(page.dirty) ==> page.dirty
    {
      hide Put16;
      assert moves[..0] == [];
      for i := 0 to |moves|
        invariant page.Content() == Relocated(old(page.Content()), moves[..i], n)
        invariant old(page.dirty) ==> page.dirty
      {
        assert moves[..i + 1][..i] == moves[..i];
        var w := page.WriteU16(SlotBase(moves[i].slot), moves[i].offset);
      }
      assert moves[..|moves|] == moves;
    }

    /** Makes the contiguous gap large enough for `length + growth` bytes, compacting only when it has to. */
    method MakeRoom(length: nat, growth: nat) returns (r: Result<Unit, SlottedPageError>)
      requires Valid() && growth <= SLOT_ENTRY_SIZE
      modifies page`dirty, page.bytes
      ensures Valid() && State() == old(State())
      ensures r.Err? || !writable ==> page.Content() == old(page.Content()) && page.dirty == old(page.dirty)
      ensures r.Ok? ==> ContiguousFreeSpace() >= length + growth
      ensures page.dirty || page.Content() == old(page.Content())
      ensures old(page.dirty) ==> page.dirty
      ensures if old(ContiguousFreeSpace()) >= length + growth then page.Content() == old(page.Content())
        else r.Ok? ==> Packed(old(page.Content()), page.Content())
      ensures var slack := Slack(State().slots);
        && (slack < growth ==> r == Err(SlackUnderflow))
        && (growth <= slack < length + growth ==> r == Err(NoSpace(length + growth, slack)))
        && (length + growth <= slack ==> r.Ok? || (!writable && r == Err(ReadOnly)))
    {
      hide WellFormed, Abs, Compacted, LiveBytes, FreeStart, FreeEnd, SlotCount, Packed;
      FreeSpaceWithinSlack(page.Content());
      CompactedMeaning(page.Content());
      if ContiguousFreeSpace() < length + growth {
        var room := FreeSpaceAfterCompaction(growth);
        if room.Err? {
          return Err(room.error);
        }
        if room.value < length {
          return Err(NoSpace(length + growth, FreeSpaceAfterCompaction(0).value));
        }
        r := Compact();
        return;
      }
      return Ok(Unit);
    }

    /**
     * Stores a record: reuses the first free slot or appends one, compacting first when the gap is too
     * small. The result is exactly InsertResult, and every error leaves the page as it was.
     */
    method Insert(record: seq<byte>) returns (r: Result<Rid, SlottedPageError>)
      requires Valid()
      modifies page`dirty, page.bytes
      ensures var plan := InsertResult(old(State()).slots, record);
        if plan.Err? || !writable then
          && r == Err(if plan.Err? then plan.error else ReadOnly)
          && page.Content() == old(page.Content()) && page.dirty == old(page.dirty)
        else
          && plan.value.slot <= U16_MAX
          && r == Ok(Rid(page.id, plan.value.slot, plan.value.generation)) && page.dirty
          && (Valid() <==> plan.value.generation >= 1)
          && (plan.value.generation >= 1 ==> State() == PageModel.Insert(old(State()), record))
      ensures r.Ok? ==> PlacedInGap(old(page.Content()), page.Content(), r.value.slot, r.value.generation, record)
    {
      hide WellFormed, Abs, LiveBytes, FreeStart, FreeEnd, SlotCount, RawSlotAt, Slack, CanInsert, Rows, Packed, RecordPlaced,
        PlacedInGap, Table;
      ghost var b := page.Content();
      SlotsCounted(b);
      if |record| > U16_MAX {
        return Err(RecordTooLarge(|record|));
      }
      var reusable := FindReusableSlot();
      var growth := if reusable.None? then SLOT_ENTRY_SIZE else 0;
      FreeSpaceWithinSlack(page.Content());
      var room := MakeRoom(|record|, growth);
      if room.Err? {
        return Err(room.error);
      }
      if ContiguousFreeSpace() < |record| + growth {
        assert false;
      }
      var at := SlotFor(reusable);
      if !writable {
        return Err(ReadOnly);
      }
      CanInsertFromPlan(page.Content(), record, at);
      ghost var mid := page.Content();
      PlaceRecord(at, record);
      PlacedAfter(b, mid, page.Content(), at, record, growth);
      return Ok(Rid(page.id, at.slot, at.generation));
    }

    /** The address an insertion uses: the reusable slot with its generation, or a new slot. */
    function SlotFor(reusable: Option<nat>): (at: SlotRef)
      requires Valid() && reusable == FirstFree(State().slots)
      reads page.bytes
      ensures at == match reusable
        case Some(k) => SlotRef(k, State().slots[k].generation)
        case None => SlotRef(|State().slots|, 1)
    {
      match reusable
      case Some(k) => SlotRef(k, RawSlotAt(page.Content(), k).generation)
      case None => SlotRef(SlotCount(page.Content()), 1)
    }

    /** Clears the row's entry and moves its slot one generation on, or retires it; nothing else changes. */
    method Delete(rid: Rid) returns (r: Result<Unit, SlottedPageError>)
      requires Valid()
      modifies page`dirty, page.bytes
      ensures var at := SlotRef(rid.slot, rid.generation);
        if rid.page != page.id || !Resolves(old(State()), at) then
          r == Err(InvalidRid(rid)) && page.Content() == old(page.Content()) && page.dirty == old(page.dirty)
        else if !writable then
          r == Err(ReadOnly) && page.Content() == old(page.Content()) && page.dirty == old(page.dirty)
        else
          r == Ok(Unit) && page.dirty && Valid() && State() == PageModel.Delete(old(State()), at)
      ensures r.Ok? ==> RecordRemoved(old(page.Content()), page.Content(), rid.slot, rid.generation)
    {
      hide WellFormed, Abs, CountLive, PutSlot, Put16, RawSlotAt, U16At, PageModel.Delete, RecordRemoved;
      if !IsLive(rid) {
        return Err(InvalidRid(rid));
      }
      if !writable {
        return Err(ReadOnly);
      }
      ghost var b := page.Content();
      DeletionPlan(b, rid.slot);
      DeletedMeaning(b, rid.slot);
      DeletedInBytes(b, rid.slot);
      var live := LiveCount(page.Content());
      WriteSlot(rid.slot, VacatedEntry(rid.generation));
      var w := page.WriteU16(LIVE_COUNT_OFFSET, live - 1);
      assert page.Content() == Deleted(b, rid.slot);
      return Ok(Unit);
    }

    /** Decides WellFormed: header fields first, then every directory entry, then overlaps. */
    method Validate() returns (r: Result<Unit, SlottedPageError>)
      requires page.Valid()
      ensures r.Ok? <==> WellFormed(page.Content())
      ensures r.Err? ==> r.error.Corrupt?
    {
      hide U16At, CountLive, TableOk;
      if page.Read(0, 4).value != MAGIC {
        return Err(Corrupt("invalid heap-page magic"));
      }
      if page.Read(4, 1).value[0] != FORMAT_VERSION {
        return Err(Corrupt("unsupported heap-page version"));
      }
      if page.Read(5, 1).value[0] != HEAP_PAGE_KIND {
        return Err(Corrupt("page is not a heap page"));
      }
      var count, start, freeEnd := SlotCount(page.Content()), FreeStart(page.Content()), FreeEnd(page.Content());
      if start as int != SlotBase(count) || SlotBase(count) > PAGE_SIZE {
        return Err(Corrupt("invalid slot-directory boundary"));
      }
      if freeEnd < start || freeEnd > PAGE_SIZE {
        return Err(Corrupt("invalid free-space boundary"));
      }
      assert HeaderOk(page.Content());
      r := ValidateDirectory(count, freeEnd);
    }

    method ValidateDirectory(count: u16, freeEnd: u16) returns (r: Result<Unit, SlottedPageError>)
      requires page.Valid() && SlotBase(count) <= PAGE_SIZE
      requires count == SlotCount(page.Content())
      ensures r.Ok? <==>
        TableOk(Table(page.Content()), freeEnd) && CountLive(Table(page.Content())) == LiveCount(page.Content())
      ensures r.Err? ==> r.error.Corrupt?
    {
      ghost var t := Table(page.Content());
      var observedLive, ranges := 0, [];
      for k := 0 to count
        invariant forall j | 0 <= j < k :: EntryOk(t[j], freeEnd)
        invariant observedLive == CountLiveUpTo(t, k)
        invariant ranges == RangesUpTo(t, k)
      {
        hide U16At, EntriesApart, LiveCount, Table, RawSlotAt;
        var s := RawSlotAt(page.Content(), k);
        assert s == t[k];
        if s.flags == LIVE {
          if s.generation == 0 {
            return Err(Corrupt("live slot has generation zero"));
          }
          if s.End() > PAGE_SIZE {
            return Err(Corrupt("record exceeds page boundary"));
          }
          if s.offset < freeEnd {
            return Err(Corrupt("record begins inside free space"));
          }
          if s.length != 0 {
            ranges := ranges + [Range(s.offset, s.End())];
          }
          observedLive := observedLive + 1;
        } else if s.flags == FREE || s.flags == RETIRED {
          if s.offset != 0 || s.length != 0 {
            return Err(Corrupt("non-live slot references record data"));
          }
        } else {
          return Err(Corrupt("invalid slot flags"));
        }
      }
      if observedLive != LiveCount(page.Content()) {
        return Err(Corrupt("incorrect live slot count"));
      }
      var sorted := SortByStart(ranges);
      WindowTestIsExact(ranges, sorted);
      RangesDecide(t, count);
      if !WindowsApart(sorted) {
        return Err(Corrupt("live records overlap"));
      }
      return Ok(Unit);
    }

    /** A view of a page, refused when the page is not a valid heap page. */
    static method FromPage(page: Page, writable: bool) returns (r: Result<SlottedPage, SlottedPageError>)
      requires page.Valid()
      ensures r.Ok? <==> WellFormed(page.Content())
      ensures r.Ok? ==> fresh(r.value) && r.value.page == page && r.value.writable == writable
      ensures r.Err? ==> r.error.Corrupt?
    {
      var view := new SlottedPage(page, writable);
      var v := view.Validate();
      if v.Err? {
        return Err(v.error);
      }
      return Ok(view);
    }

    /** Every live address of the page, in slot order. */
    function LiveRids(n: nat): (rids: seq<Rid>)
      requires Valid() && n <= SlotCount(page.Content())
      reads page.bytes
    {
      if n == 0 then []
      else
        var s := RawSlotAt(page.Content(), n - 1);
        LiveRids(n - 1) + if s.flags == LIVE then [Rid(page.id, n - 1, s.generation)] else []
    }

    /** The listing is exactly the live addresses of the page's meaning. */
    lemma {:induction false} LiveRidsListed(n: nat)
      requires Valid() && n <= SlotCount(page.Content())
      ensures n <= |State().slots| && LiveRids(n) == RidsOf(page.id, LiveRefs(State().slots, n))
    {
      hide WellFormed, Abs, RawSlotAt, SlotCount, FreeStart, Table, Numbers.Field;
      SlotsCounted(page.Content());
      if n > 0 {
        SlotReadsAsState(page.Content(), n - 1);
        LiveRidsListed(n - 1);
        RidsOfMore(page.id, State().slots, n - 1);
      }
    }

    /** Writes an empty heap page over whatever the page held. */
    static method Initialize(page: Page) returns (s: SlottedPage)
      requires page.Valid()
      modifies page`dirty, page.bytes
      ensures fresh(s) && s.page == page && s.writable
      ensures page.dirty && page.Content() == Initialized() && BlankPage(page.Content())
      ensures s.Valid() && s.State() == EmptyPage
    {
      hide WellFormed, Abs, Splice, Put16, Put32, Initialized, BlankPage;
      var w := page.Write(0, Zeros(PAGE_SIZE));
      assert page.Content() == Zeros(PAGE_SIZE);
      w := page.Write(0, MAGIC);
      w := page.Write(4, [FORMAT_VERSION]);
      w := page.Write(5, [HEAP_PAGE_KIND]);
      w := page.WriteU16(6, 0);
      w := page.WriteU16(SLOT_COUNT_OFFSET, 0);
      w := page.WriteU16(FREE_START_OFFSET, PAGE_HEADER_SIZE);
      w := page.WriteU16(FREE_END_OFFSET, PAGE_SIZE);
      w := page.WriteU16(LIVE_COUNT_OFFSET, 0);
      w := page.WriteU32(NEXT_PAGE_ID_OFFSET, U32_MAX);
      w := page.Write(20, Zeros(8));
      w := page.WriteU32(28, 0);
      InitializationWrites();
      InitializedMeaning();
      InitializedInBytes();
      s := new SlottedPage(page, true);
    }
  }

  /**
   * Deletes a row and stores another: when no earlier slot is free and the record fits in what is left and
   * what was given back, it takes the same slot under the next generation, and the directory does not grow.
   */
  method DeleteThenInsert(slotted: SlottedPage, rid: Rid, record: seq<byte>) returns (r: Result<Rid, SlottedPageError>)
    requires slotted.Valid() && slotted.writable && PageInv(slotted.State())
    requires var at := SlotRef(rid.slot, rid.generation);
      && rid.page == slotted.page.id && Resolves(slotted.State(), at) && rid.generation < 0xFFFF
      && (forall j | 0 <= j < rid.slot :: !slotted.State().slots[j].Free?)
      && |record| <= Slack(slotted.State().slots) + |slotted.State().slots[rid.slot].record|
    modifies slotted.page`dirty, slotted.page.bytes
    ensures r == Ok(Rid(rid.page, rid.slot, rid.generation + 1))
    ensures slotted.Valid() && |slotted.State().slots| == |old(slotted.State()).slots|
  {
    hide WellFormed, Abs, Slack, PageInv, Rows, RecordRemoved, PlacedInGap, PageModel.Insert, PageModel.Delete, InsertResult;
    ghost var st, at := slotted.State(), SlotRef(rid.slot, rid.generation);
    DeleteRemovesOneRow(st, at);
    DeletedSlotIsUsedAgain(st, at, record);
    var d := slotted.Delete(rid);
    r := slotted.Insert(record);
  }

  /** After an insertion: the record was placed on the page as it was, compacted first exactly when the gap was too small. */
  ghost predicate PlacedInGap(b: PageBytes, c: PageBytes, k: nat, generation: u16, record: seq<byte>) {
    if |record| + (if k < Field(b, 8, 2) then 0 else 8) <= Field(b, 12, 2) - Field(b, 10, 2) then RecordPlaced(b, c, k, generation, record)
    else exists mid: PageBytes :: Packed(b, mid) && RecordPlaced(mid, c, k, generation, record)
  }

  lemma PlacedAfter(b: PageBytes, mid: PageBytes, c: PageBytes, at: SlotRef, record: seq<byte>, growth: nat)
    requires growth == if at.slot < SlotCount(b) then 0 else 8
    requires FreeStart(b) <= FreeEnd(b)
    requires if FreeEnd(b) as int - FreeStart(b) as int >= |record| + growth then mid == b else Packed(b, mid)
    requires RecordPlaced(mid, c, at.slot, at.generation, record)
    ensures PlacedInGap(b, c, at.slot, at.generation, record)
  {
    HeaderFieldsInBytes(b);
    hide Packed, RecordPlaced, Field, SlotCount, FreeStart, FreeEnd;
  }

  lemma RidsOfMore(page: PageId, slots: seq<SlotState>, n: nat)
    requires n < |slots| <= U16_MAX + 1
    ensures RidsOf(page, LiveRefs(slots, n + 1)) ==
      RidsOf(page, LiveRefs(slots, n)) + if slots[n].Live? then [Rid(page, n, slots[n].generation)] else []
  {
  }

  function RidsOf(page: PageId, refs: seq<SlotRef>): (rids: seq<Rid>)
    requires forall i | 0 <= i < |refs| :: refs[i].slot <= U16_MAX
    ensures |rids| == |refs|
    ensures forall i | 0 <= i < |rids| :: rids[i] == Rid(page, refs[i].slot, refs[i].generation)
  {
    seq(|refs|, i requires 0 <= i < |refs| => Rid(page, refs[i].slot, refs[i].generation))
  }
}
