/**
 * What a slotted page is in plain numbers: every offset, width, flag and limit, and what each edit does to the
 * bytes, said without the functions and constants that the code shares with its specification.
 */
module PageFormat {
  import opened Wrappers
  import opened Bytes
  import opened Numbers
  import opened Pages
  import opened PageModel
  import opened PageLayout
  import opened PageEdits

  // ----- Valid pages and what they mean -----

  /** A directory entry in bytes, at 32 plus eight times its number: offset, length, generation and flags of two bytes each. */
  ghost predicate EntryStands(b: PageBytes, k: nat, offset: int, length: int, generation: int, flags: int) {
    var o := 32 + 8 * k;
    && o + 8 <= 8192 && Field(b, o, 2) == offset && Field(b, o + 2, 2) == length
    && Field(b, o + 4, 2) == generation && Field(b, o + 6, 2) == flags
  }

  lemma EntryInBytes(b: PageBytes, k: nat)
    requires 32 + 8 * k + 8 <= 8192
    ensures SlotBase(k + 1) <= PAGE_SIZE
    ensures var s := RawSlotAt(b, k); EntryStands(b, k, s.offset, s.length, s.generation, s.flags)
  {
    FieldsAreLittleEndian(b, 32 + 8 * k);
    FieldsAreLittleEndian(b, 34 + 8 * k);
    FieldsAreLittleEndian(b, 36 + 8 * k);
    FieldsAreLittleEndian(b, 38 + 8 * k);
    hide Field, U16At;
  }

  /** The header fields of a page: entries, start and end of the gap, live entries, and the next page. */
  lemma HeaderFieldsInBytes(b: PageBytes)
    ensures SlotCount(b) == Field(b, 8, 2) && FreeStart(b) == Field(b, 10, 2)
    ensures FreeEnd(b) == Field(b, 12, 2) && LiveCount(b) == Field(b, 14, 2)
    ensures NextPage(b) == if Field(b, 16, 4) == 0xFFFF_FFFF then None else Some(Field(b, 16, 4))
  {
    FieldsAreLittleEndian(b, 8);
    FieldsAreLittleEndian(b, 10);
    FieldsAreLittleEndian(b, 12);
    FieldsAreLittleEndian(b, 14);
    FieldsAreLittleEndian(b, 16);
    hide Field, U16At, U32At;
  }

  /** An entry that validation accepts: free (0) or retired (2) and otherwise zero, or live (1) inside the record area. */
  ghost predicate EntryAllowed(b: PageBytes, k: nat)
    requires 32 + 8 * k + 8 <= 8192
  {
    var o := 32 + 8 * k;
    if Field(b, o + 6, 2) == 1 then
      && Field(b, o + 4, 2) != 0 && Field(b, o, 2) + Field(b, o + 2, 2) <= 8192 && Field(b, 12, 2) <= Field(b, o, 2)
    else
      (Field(b, o + 6, 2) == 0 || Field(b, o + 6, 2) == 2) && Field(b, o, 2) == 0 && Field(b, o + 2, 2) == 0
  }

  /** Two live, non-empty records share no byte. */
  ghost predicate RecordsApart(b: PageBytes, i: nat, j: nat)
    requires 32 + 8 * i + 8 <= 8192 && 32 + 8 * j + 8 <= 8192
  {
    var p, q := 32 + 8 * i, 32 + 8 * j;
    Field(b, p + 6, 2) == 1 && Field(b, p + 2, 2) != 0 && Field(b, q + 6, 2) == 1 && Field(b, q + 2, 2) != 0 ==>
      || Field(b, p, 2) + Field(b, p + 2, 2) <= Field(b, q, 2)
      || Field(b, q, 2) + Field(b, q + 2, 2) <= Field(b, p, 2)
  }

  /** The numbers of the live entries among the first `n`. */
  ghost function LiveEntries(b: PageBytes, n: nat): set<nat>
    requires 32 + 8 * n <= 8192
  {
    set k: nat | k < n && Field(b, 38 + 8 * k, 2) == 1
  }

  lemma {:induction false} LiveAreCounted(b: PageBytes, n: nat)
    requires 32 + 8 * n <= 8192
    ensures CountLiveUpTo(Entries(b, n), n) == |LiveEntries(b, n)|
  {
    hide Field, RawSlotAt, LiveEntries;
    if n > 0 {
      LiveAreCounted(b, n - 1);
      LiveEntriesStep(b, n - 1);
      LiveByFlags(b, n - 1);
      CountLiveFrame(Entries(b, n), Entries(b, n - 1), n - 1);
    } else {
      NoLiveEntries(b);
    }
  }

  lemma NoLiveEntries(b: PageBytes)
    ensures LiveEntries(b, 0) == {}
  {
  }

  lemma LiveByFlags(b: PageBytes, k: nat)
    requires 32 + 8 * k + 8 <= 8192
    ensures SlotBase(k + 1) <= PAGE_SIZE && (RawSlotAt(b, k).flags == LIVE <==> Field(b, 38 + 8 * k, 2) == 1)
  {
    EntryInBytes(b, k);
    hide Field, RawSlotAt;
  }

  lemma LiveEntriesStep(b: PageBytes, n: nat)
    requires 32 + 8 * n + 8 <= 8192
    ensures |LiveEntries(b, n + 1)| == |LiveEntries(b, n)| + if Field(b, 38 + 8 * n, 2) == 1 then 1 else 0
  {
    hide Field;
    assert LiveEntries(b, n + 1) == LiveEntries(b, n) + if Field(b, 38 + 8 * n, 2) == 1 then {n} else {};
  }

  /**
   * The pages that validation accepts: NHPG, version 1, kind 1, a directory that ends where the gap starts, a
   * gap inside the page, entries that are allowed, records that are apart, and the number of live entries.
   */
  lemma {:induction false} ValidPageInBytes(b: PageBytes)
    ensures WellFormed(b) <==>
      && b[..4] == [0x4E, 0x48, 0x50, 0x47] && b[4] == 1 && b[5] == 1
      && Field(b, 10, 2) == 32 + 8 * Field(b, 8, 2) <= 8192 && Field(b, 10, 2) <= Field(b, 12, 2) <= 8192
      && (forall k | 0 <= k < Field(b, 8, 2) :: EntryAllowed(b, k))
      && (forall i, j | 0 <= i < j < Field(b, 8, 2) :: RecordsApart(b, i, j))
      && |LiveEntries(b, Field(b, 8, 2))| == Field(b, 14, 2)
  {
    HeaderFieldsInBytes(b);
    hide Field, RawSlotAt, EntryAllowed, RecordsApart, LiveEntries, CountLiveUpTo, EntryOk, EntriesApart, SlotCount, FreeStart, FreeEnd, LiveCount;
    var n := SlotCount(b);
    if SlotBase(n) <= PAGE_SIZE {
      LiveAreCounted(b, n);
      forall k | 0 <= k < n ensures EntryOk(Table(b)[k], FreeEnd(b)) <==> EntryAllowed(b, k) {
        AllowedEntry(b, k);
      }
      forall i, j | 0 <= i < j < n ensures EntriesApart(Table(b)[i], Table(b)[j]) <==> RecordsApart(b, i, j) {
        ApartEntries(b, i, j);
      }
    }
  }

  lemma AllowedEntry(b: PageBytes, k: nat)
    requires 32 + 8 * k + 8 <= 8192
    ensures SlotBase(k + 1) <= PAGE_SIZE && (EntryOk(RawSlotAt(b, k), FreeEnd(b)) <==> EntryAllowed(b, k))
  {
    EntryInBytes(b, k);
    HeaderFieldsInBytes(b);
    hide Field, RawSlotAt, FreeEnd;
  }

  lemma ApartEntries(b: PageBytes, i: nat, j: nat)
    requires 32 + 8 * i + 8 <= 8192 && 32 + 8 * j + 8 <= 8192
    ensures SlotBase(i + 1) <= PAGE_SIZE && SlotBase(j + 1) <= PAGE_SIZE
    ensures EntriesApart(RawSlotAt(b, i), RawSlotAt(b, j)) <==> RecordsApart(b, i, j)
  {
    EntryInBytes(b, i);
    EntryInBytes(b, j);
    hide Field, RawSlotAt;
  }

  /** Slot `k` in bytes: live (1) with a record where the entry says, free (0), or retired (2), under a generation. */
  ghost predicate SlotStands(b: PageBytes, k: nat, slot: SlotState)
    requires 32 + 8 * k + 8 <= 8192
  {
    var o := 32 + 8 * k;
    && Field(b, o + 4, 2) == slot.generation
    && match slot
       case Free(_) => Field(b, o + 6, 2) == 0
       case Retired(_) => Field(b, o + 6, 2) == 2
       case Live(_, record) =>
         && Field(b, o + 6, 2) == 1 && Field(b, o + 2, 2) == |record|
         && Field(b, o, 2) + |record| <= 8192 && b[Field(b, o, 2)..Field(b, o, 2) + |record|] == record
  }

  /** What a valid page means: as many slots as the header says, each as its entry says, and the next page. */
  lemma {:induction false} PageMeaningInBytes(b: PageBytes, k: nat)
    requires WellFormed(b)
    ensures |Abs(b).slots| == Field(b, 8, 2)
    ensures if Field(b, 16, 4) == 0xFFFF_FFFF then Abs(b).next == None else Abs(b).next == Some(Field(b, 16, 4))
    ensures k < Field(b, 8, 2) ==> 32 + 8 * k + 8 <= 8192 && SlotStands(b, k, Abs(b).slots[k])
  {
    HeaderFieldsInBytes(b);
    if k < SlotCount(b) {
      EntryInBytes(b, k);
      assert EntryOk(Table(b)[k], FreeEnd(b));
    }
    hide Field, RawSlotAt, CountLiveUpTo, SlotCount, FreeStart, FreeEnd, LiveCount, EntriesApart;
  }

  // ----- What edits do to the bytes -----

  /** Bytes outside these ranges are the same. */
  ghost predicate SameBut(b: PageBytes, c: PageBytes, lo: int, hi: int, lo2: int, hi2: int, lo3: int, hi3: int) {
    forall i | 0 <= i < 8192 && !(lo <= i < hi) && !(lo2 <= i < hi2) && !(lo3 <= i < hi3) :: c[i] == b[i]
  }

  /**
   * The record stands just below where the gap ended, entry `k` describes it as live, and the header accounts
   * for it: the gap ends where the record starts, one more entry is live, and the directory may have one more.
   */
  ghost predicate RecordPlaced(b: PageBytes, c: PageBytes, k: nat, generation: u16, record: seq<byte>) {
    var end, n := Field(b, 12, 2), if k < Field(b, 8, 2) then Field(b, 8, 2) else k + 1;
    && 32 + 8 * k + 8 <= 8192 && |record| <= end <= 8192 && c[end - |record|..end] == record
    && EntryStands(c, k, end - |record|, |record|, generation, 1)
    && Field(c, 8, 2) == n && Field(c, 10, 2) == 32 + 8 * n
    && Field(c, 12, 2) == end - |record| && Field(c, 14, 2) == Field(b, 14, 2) + 1
    && SameBut(b, c, 8, 16, 32 + 8 * k, 40 + 8 * k, end - |record|, end)
  }

  lemma FieldKept(b: seq<byte>, c: seq<byte>, o: nat, n: nat)
    requires o + n <= |b| && o + n <= |c| && forall i | o <= i < o + n :: c[i] == b[i]
    ensures Field(c, o, n) == Field(b, o, n)
  {
    assert c[o..o + n] == b[o..o + n];
  }

  lemma EntryKept(b: PageBytes, c: PageBytes, k: nat, offset: int, length: int, generation: int, flags: int)
    requires EntryStands(b, k, offset, length, generation, flags)
    requires forall i | 32 + 8 * k <= i < 40 + 8 * k :: c[i] == b[i]
    ensures EntryStands(c, k, offset, length, generation, flags)
  {
    hide Field;
    FieldKept(b, c, 32 + 8 * k, 2);
    FieldKept(b, c, 34 + 8 * k, 2);
    FieldKept(b, c, 36 + 8 * k, 2);
    FieldKept(b, c, 38 + 8 * k, 2);
  }

  /** Writing a directory entry changes its eight bytes and no others. */
  lemma {:induction false} SlotPutInBytes(b: PageBytes, k: nat, s: RawSlot)
    requires 32 + 8 * k + 8 <= 8192
    ensures SlotBase(k + 1) <= PAGE_SIZE
    ensures EntryStands(PutSlot(b, k, s), k, s.offset, s.length, s.generation, s.flags)
    ensures SameBut(b, PutSlot(b, k, s), 32 + 8 * k, 40 + 8 * k, 0, 0, 0, 0)
  {
    PutSlotEntries(b, k, k, s);
    SlotReadsBack(b, k, s);
    EntryInBytes(PutSlot(b, k, s), k);
    hide PutSlot, RawSlotAt, EntryStands;
  }

  lemma {:induction false} PlacedInBytes(b: PageBytes, record: seq<byte>, at: SlotRef)
    requires 40 + 8 * at.slot <= FreeEnd(b) - |record| && FreeEnd(b) <= PAGE_SIZE && SlotBase(at.slot + 1) <= PAGE_SIZE
    ensures var c, k, end := Placed(b, record, at), at.slot, FreeEnd(b);
      && EntryStands(c, k, end - |record|, |record|, at.generation, 1) && c[end - |record|..end] == record
      && SameBut(b, c, 32 + 8 * k, 40 + 8 * k, end - |record|, end, 0, 0)
  {
    var end := FreeEnd(b);
    var b1 := Splice(b, end - |record|, record);
    assert b1[end - |record|..end] == record;
    var s := RawSlot(end - |record|, |record|, at.generation, LIVE);
    SlotPutInBytes(b1, at.slot, s);
    hide PutSlot, EntryStands, FreeEnd, Splice;
    var c := PutSlot(b1, at.slot, s);
    assert c[end - |record|..end] == b1[end - |record|..end];
  }

  /** Writing the accounting fields changes bytes 8 to 15 and no others. */
  lemma {:induction false} HeaderPutInBytes(b: PageBytes, slotCount: u16, freeStart: u16, freeEnd: u16, liveCount: u16)
    ensures var c := PutHeader(b, slotCount, freeStart, freeEnd, liveCount);
      && Field(c, 8, 2) == slotCount && Field(c, 10, 2) == freeStart && Field(c, 12, 2) == freeEnd && Field(c, 14, 2) == liveCount
      && SameBut(b, c, 8, 16, 0, 0, 0, 0)
  {
    PutHeaderFields(b, slotCount, freeStart, freeEnd, liveCount);
    HeaderFieldsInBytes(PutHeader(b, slotCount, freeStart, freeEnd, liveCount));
    hide PutHeader, Field, SlotCount, FreeStart, FreeEnd, LiveCount;
  }

  /** An edit of the rest of the page and then of the accounting fields. */
  lemma SameAfterHeader(b: PageBytes, m: PageBytes, c: PageBytes, lo: int, hi: int, lo2: int, hi2: int)
    requires SameBut(b, m, lo, hi, lo2, hi2, 0, 0) && SameBut(m, c, 8, 16, 0, 0, 0, 0)
    ensures SameBut(b, c, 8, 16, lo, hi, lo2, hi2)
  {
  }

  lemma KeptByHeader(m: PageBytes, c: PageBytes, lo: nat, hi: nat)
    requires SameBut(m, c, 8, 16, 0, 0, 0, 0) && 16 <= lo <= hi <= 8192
    ensures c[lo..hi] == m[lo..hi] && forall i | lo <= i < hi :: c[i] == m[i]
  {
  }

  /** The bytes of an insertion, step by step. */
  lemma {:induction false} InsertionSteps(b: PageBytes, record: seq<byte>, at: SlotRef)
    requires CanInsert(b, record, at)
    ensures at.slot <= SlotCount(b) <= 1020 && LiveCount(b) <= 1020 && SlotBase(at.slot + 1) <= PAGE_SIZE
    ensures |record| <= FreeEnd(b) <= PAGE_SIZE && SlotBase(SlotCount(b)) <= PAGE_SIZE
    ensures var n := if at.slot < SlotCount(b) then SlotCount(b) else at.slot + 1;
      && at.slot < n <= 1020 && 32 + 8 * n <= FreeEnd(b) - |record|
      && Inserted(b, record, at) == PutHeader(Placed(b, record, at), n, 32 + 8 * n, FreeEnd(b) - |record|, LiveCount(b) + 1)
  {
    hide CanInsert, PutHeader, SlotCount, LiveCount, FreeEnd, FreeStart, Placed, PutSlot, Splice, WellFormed;
    GapHolds(b, record, at);
  }

  lemma {:induction false} GapHolds(b: PageBytes, record: seq<byte>, at: SlotRef)
    requires CanInsert(b, record, at)
    ensures at.slot <= SlotCount(b) <= 1020 && LiveCount(b) <= 1020 && SlotBase(at.slot + 1) <= PAGE_SIZE
    ensures |record| <= FreeEnd(b) <= PAGE_SIZE && SlotBase(SlotCount(b)) <= PAGE_SIZE
    ensures var n := if at.slot < SlotCount(b) then SlotCount(b) else at.slot + 1;
      at.slot < n <= 1020 && 32 + 8 * n <= FreeEnd(b) - |record|
  {
    WellFormedBounds(b);
    hide SlotCount, LiveCount, FreeEnd, FreeStart, TableOk, CountLive, Table;
  }

  lemma {:induction false} InsertedInBytes(b: PageBytes, record: seq<byte>, at: SlotRef)
    requires CanInsert(b, record, at)
    ensures at.slot <= SlotCount(b) <= 1020 && LiveCount(b) <= 1020 && SlotBase(at.slot + 1) <= PAGE_SIZE
    ensures |record| <= FreeEnd(b) <= PAGE_SIZE && SlotBase(SlotCount(b)) <= PAGE_SIZE
    ensures RecordPlaced(b, Inserted(b, record, at), at.slot, at.generation, record)
  {
    hide CanInsert, Inserted, PutSlot, PutHeader, SlotCount, LiveCount, FreeEnd, FreeStart, Field, Placed, EntryStands, SameBut;
    InsertionSteps(b, record, at);
    HeaderFieldsInBytes(b);
    var n := if at.slot < SlotCount(b) then SlotCount(b) else at.slot + 1;
    var k, end := at.slot, FreeEnd(b);
    var placed, c := Placed(b, record, at), Inserted(b, record, at);
    PlacedInBytes(b, record, at);
    HeaderPutInBytes(placed, n, 32 + 8 * n, end - |record|, LiveCount(b) + 1);
    SameAfterHeader(b, placed, c, 32 + 8 * k, 40 + 8 * k, end - |record|, end);
    KeptByHeader(placed, c, end - |record|, end);
    KeptByHeader(placed, c, 32 + 8 * k, 40 + 8 * k);
    EntryKept(placed, c, k, end - |record|, |record|, at.generation, 1);
  }

  /**
   * The entry of slot `k` no longer describes a record: it is free under the next generation, or retired when
   * there is none; one entry less is live, and every other byte stays.
   */
  ghost predicate RecordRemoved(b: PageBytes, c: PageBytes, k: nat, generation: u16) {
    && (if generation < 0xFFFF then EntryStands(c, k, 0, 0, generation + 1, 0) else EntryStands(c, k, 0, 0, 0xFFFF, 2))
    && Field(c, 14, 2) == Field(b, 14, 2) - 1 && SameBut(b, c, 14, 16, 32 + 8 * k, 40 + 8 * k, 0, 0)
  }

  lemma {:induction false} DeletionSteps(b: PageBytes, k: nat)
    requires WellFormed(b) && k < SlotCount(b) && Table(b)[k].flags == LIVE
    ensures LiveCount(b) >= 1 && SlotBase(k + 1) <= PAGE_SIZE && Table(b)[k] == RawSlotAt(b, k)
    ensures Deleted(b, k) == PutHeader(PutSlot(b, k, VacatedEntry(RawSlotAt(b, k).generation)), SlotCount(b), FreeStart(b), FreeEnd(b), LiveCount(b) - 1)
  {
    DeletedMeaning(b, k);
    hide PutSlot, PutHeader, RawSlotAt, TableOk, CountLive, SlotCount, FreeStart, FreeEnd, LiveCount;
  }

  lemma {:induction false} DeletedInBytes(b: PageBytes, k: nat)
    requires WellFormed(b) && k < SlotCount(b) && Table(b)[k].flags == LIVE
    ensures LiveCount(b) >= 1 && SlotBase(k + 1) <= PAGE_SIZE
    ensures RecordRemoved(b, Deleted(b, k), k, Table(b)[k].generation)
  {
    hide WellFormed, RawSlotAt, PutSlot, PutHeader, Field, EntryStands, SlotCount, LiveCount, FreeEnd, FreeStart, SameBut, Deleted, Table;
    DeletionSteps(b, k);
    HeaderFieldsInBytes(b);
    var s := VacatedEntry(RawSlotAt(b, k).generation);
    SlotPutInBytes(b, k, s);
    var c1, c := PutSlot(b, k, s), Deleted(b, k);
    HeaderPutInBytes(c1, SlotCount(b), FreeStart(b), FreeEnd(b), LiveCount(b) - 1);
    SameAfterHeader(b, c1, c, 32 + 8 * k, 40 + 8 * k, 0, 0);
    KeptByHeader(c1, c, 32 + 8 * k, 40 + 8 * k);
    EntryKept(c1, c, k, s.offset, s.length, s.generation, s.flags);
    OnlyLiveCount(b, c, 32 + 8 * k, 40 + 8 * k);
  }

  lemma OnlyLiveCount(b: PageBytes, c: PageBytes, lo: int, hi: int)
    requires SameBut(b, c, 8, 16, lo, hi, 0, 0)
    requires Field(c, 8, 2) == Field(b, 8, 2) && Field(c, 10, 2) == Field(b, 10, 2) && Field(c, 12, 2) == Field(b, 12, 2)
    ensures SameBut(b, c, 14, 16, lo, hi, 0, 0)
  {
    hide Field;
    SameField(b, c, 8);
    SameField(b, c, 10);
    SameField(b, c, 12);
  }

  /** Two bytes with the same number are the same two bytes. */
  lemma SameField(b: PageBytes, c: PageBytes, o: nat)
    requires o + 2 <= 8192 && Field(c, o, 2) == Field(b, o, 2)
    ensures c[o] == b[o] && c[o + 1] == b[o + 1]
  {
    FieldsAreLittleEndian(b, o);
    FieldsAreLittleEndian(c, o);
    hide Field;
  }

  /** Only the link changed, to a page or to none. */
  ghost predicate LinkSet(b: PageBytes, c: PageBytes, next: Option<PageId>) {
    && Field(c, 16, 4) == (if next.Some? then next.value else 0xFFFF_FFFF)
    && SameBut(b, c, 16, 20, 0, 0, 0, 0)
  }

  lemma {:induction false} RelinkedInBytes(b: PageBytes, next: Option<PageId>)
    requires next.Some? ==> next.value != U32_MAX
    ensures LinkSet(b, Relinked(b, next), next)
  {
    RelinkedBytes(b, next);
    HeaderFieldsInBytes(Relinked(b, next));
    hide Relinked, Field, NextPage;
  }

  /** A page without records: the header and nothing but zeros after it. */
  ghost predicate BlankPage(b: PageBytes) {
    && b[..8] == [0x4E, 0x48, 0x50, 0x47, 1, 1, 0, 0]
    && Field(b, 8, 2) == 0 && Field(b, 10, 2) == 32 && Field(b, 12, 2) == 8192 && Field(b, 14, 2) == 0
    && Field(b, 16, 4) == 0xFFFF_FFFF && forall i | 20 <= i < 8192 :: b[i] == 0
  }

  lemma {:induction false} InitializedInBytes()
    ensures BlankPage(Initialized())
  {
    var b, h := Initialized(), HeaderBytes();
    InitializedMeaning();
    HeaderFieldsInBytes(b);
    assert forall i | 0 <= i < 32 :: b[i] == h[i];
    assert b[..8] == h[..8] == [0x4E, 0x48, 0x50, 0x47, 1, 1, 0, 0];
    assert h[12] == 0 && h[13] == 32;
    hide Field, Initialized;
  }

  /** The total length of the records of the live entries among the first `n`. */
  function LengthsUpTo(b: PageBytes, n: nat): nat
    requires 32 + 8 * n <= 8192
  {
    if n == 0 then 0 else LengthsUpTo(b, n - 1) + if Field(b, 30 + 8 * n, 2) == 1 then Field(b, 26 + 8 * n, 2) else 0
  }

  /** Entry `k` keeps all but its offset; a live record ends where the records of the entries before it start. */
  ghost predicate EntryPacked(b: PageBytes, c: PageBytes, k: nat)
    requires 32 + 8 * k + 8 <= 8192
  {
    var o := 32 + 8 * k;
    var length := Field(b, o + 2, 2);
    && Field(c, o + 2, 2) == length && Field(c, o + 4, 2) == Field(b, o + 4, 2) && Field(c, o + 6, 2) == Field(b, o + 6, 2)
    && if Field(b, o + 6, 2) == 1 then
         && Field(c, o, 2) == 8192 - LengthsUpTo(b, k + 1) && Field(c, o, 2) + length <= 8192 && Field(b, o, 2) + length <= 8192
         && c[Field(c, o, 2)..Field(c, o, 2) + length] == b[Field(b, o, 2)..Field(b, o, 2) + length]
       else Field(c, o, 2) == Field(b, o, 2)
  }

  /** The records stand side by side at the page end in the order of their entries, with zeros from the directory to them. */
  ghost predicate Packed(b: PageBytes, c: PageBytes) {
    var n := Field(b, 8, 2);
    && 32 + 8 * n <= 8192 && (forall k | 0 <= k < n :: EntryPacked(b, c, k))
    && Field(c, 12, 2) == 8192 - LengthsUpTo(b, n) && SameBut(b, c, 12, 14, 32, 8192, 0, 0)
    && forall i | 32 + 8 * n <= i < 8192 - LengthsUpTo(b, n) :: c[i] == 0
  }

  lemma SlotsCounted(b: PageBytes)
    requires WellFormed(b)
    ensures |Abs(b).slots| == SlotCount(b) == |Table(b)| == Field(b, 8, 2)
    ensures 32 + 8 * SlotCount(b) == FreeStart(b) == Field(b, 10, 2) <= 8192
  {
    HeaderFieldsInBytes(b);
    hide Field, TableOk, CountLive, SlotCount, FreeStart, FreeEnd, LiveCount;
  }

  /** How much record slot `k` weighs, by its entry. */
  lemma {:induction false} WeightInBytes(b: PageBytes, k: nat)
    requires WellFormed(b) && k < SlotCount(b)
    ensures 32 + 8 * k + 8 <= 8192 && k < |Abs(b).slots|
    ensures Weight(Abs(b).slots[k]) == if Field(b, 38 + 8 * k, 2) == 1 then Field(b, 34 + 8 * k, 2) else 0
    ensures Abs(b).slots[k].Live? <==> Field(b, 38 + 8 * k, 2) == 1
  {
    hide WellFormed, Abs, Field, SlotCount, FreeStart, Table;
    SlotsCounted(b);
    PageMeaningInBytes(b, k);
  }

  lemma {:induction false} LengthsAreLive(b: PageBytes, n: nat)
    requires WellFormed(b) && n <= SlotCount(b)
    ensures 32 + 8 * n <= 8192 && n <= |Abs(b).slots|
    ensures LengthsUpTo(b, n) == LiveUpTo(Abs(b).slots, n)
  {
    hide WellFormed, Abs, Field, SlotCount, FreeStart, Table, Weight;
    SlotsCounted(b);
    if n > 0 {
      LengthsAreLive(b, n - 1);
      WeightInBytes(b, n - 1);
    }
  }

  /** The flags of entry `k` are zero. */
  ghost predicate FreeEntry(b: PageBytes, k: nat) {
    40 + 8 * k <= 8192 && Field(b, 38 + 8 * k, 2) == 0
  }

  lemma {:induction false} FreeByEntry(b: PageBytes, k: nat)
    requires WellFormed(b) && k < SlotCount(b)
    ensures 32 + 8 * k + 8 <= 8192 && k < |Abs(b).slots|
    ensures Abs(b).slots[k].Free? <==> FreeEntry(b, k)
    ensures Abs(b).slots[k].generation == Field(b, 36 + 8 * k, 2)
  {
    hide WellFormed, Abs, Field, SlotCount, FreeStart, Table;
    SlotsCounted(b);
    PageMeaningInBytes(b, k);
  }

  /** What no entry and no live record of the page takes up. */
  ghost function RoomIn(b: PageBytes): int
    requires 32 + 8 * Field(b, 8, 2) <= 8192
  {
    8192 - Field(b, 10, 2) - LengthsUpTo(b, Field(b, 8, 2))
  }

  lemma {:induction false} RoomIsSlack(b: PageBytes)
    requires WellFormed(b)
    ensures 32 + 8 * Field(b, 8, 2) <= 8192 && RoomIn(b) == Slack(Abs(b).slots)
  {
    hide WellFormed, Abs, Field, SlotCount, FreeStart, Table, LengthsUpTo;
    SlotsCounted(b);
    LengthsAreLive(b, SlotCount(b));
  }

  /**
   * How an insertion into a valid page ends: in the first free entry under the generation that stands there, or in
   * a new entry under generation one, if there is room; and otherwise in the error that says how much is missing.
   */
  lemma {:induction false} InsertionInBytes(b: PageBytes, record: seq<byte>)
    requires WellFormed(b)
    ensures 32 + 8 * Field(b, 8, 2) <= 8192
    ensures var n, room, r := Field(b, 8, 2), RoomIn(b), InsertResult(Abs(b).slots, record);
      if |record| > 0xFFFF then r == Err(RecordTooLarge(|record|))
      else if exists k :: 0 <= k < n && FreeEntry(b, k) then
        if |record| > room then r == Err(NoSpace(|record|, if room >= 0 then room else 0))
        else
          && r.Ok? && r.value.slot < n && FreeEntry(b, r.value.slot) && (forall j | 0 <= j < r.value.slot :: !FreeEntry(b, j))
          && r.value.generation == Field(b, 36 + 8 * r.value.slot, 2)
      else if room < 8 then r.Err? && r.error.Corrupt?
      else r == if |record| + 8 > room then Err(NoSpace(|record| + 8, room)) else Ok(SlotRef(n, 1))
  {
    hide WellFormed, Abs, Field, SlotCount, FreeStart, Table, LengthsUpTo, Slack, RoomIn, FreeEntry;
    SlotsCounted(b);
    RoomIsSlack(b);
    forall k: nat | k < SlotCount(b) ensures Abs(b).slots[k].Free? <==> FreeEntry(b, k) {
      FreeByEntry(b, k);
    }
    if FirstFree(Abs(b).slots).Some? {
      FreeByEntry(b, FirstFree(Abs(b).slots).value);
    }
  }

  /** What the directory looks like after compaction. */
  lemma {:induction false} CompactedEntry(b: PageBytes, k: nat)
    requires WellFormed(b) && k < SlotCount(b)
    ensures LiveBytes(Abs(b).slots) <= PAGE_SIZE && SlotBase(k + 1) <= PAGE_SIZE && |Abs(b).slots| == SlotCount(b)
    ensures LiveUpTo(Abs(b).slots, k + 1) <= PAGE_SIZE
    ensures RawSlotAt(Compacted(b), k) ==
      if Abs(b).slots[k].Live? then RawSlotAt(b, k).(offset := PAGE_SIZE - LiveUpTo(Abs(b).slots, k + 1)) else RawSlotAt(b, k)
  {
    var t, slots := Table(b), Abs(b).slots;
    CompactedShape(b, t, slots, |t|, FreeStart(b));
    hide Compacted, RawSlotAt, LiveUpTo, Moves, Moved, TableOk, CountLive, PackedArea;
    MovedEntry(t, slots, |t|, k);
    assert Entries(Compacted(b), |t|)[k] == RawSlotAt(Compacted(b), k) && t[k] == RawSlotAt(b, k);
  }

  /** An entry's fields after compaction, and the record it describes. */
  lemma {:induction false} EntryPackedInBytes(b: PageBytes, k: nat)
    requires WellFormed(b) && k < SlotCount(b)
    ensures LiveBytes(Abs(b).slots) <= PAGE_SIZE && 32 + 8 * k + 8 <= 8192 && EntryPacked(b, Compacted(b), k)
  {
    hide WellFormed, Abs, Field, Compacted, SlotCount, FreeStart, FreeEnd, Table, RawSlotAt, LiveUpTo, LengthsUpTo, LiveBytes, Slack;
    CompactedMeaning(b);
    var c := Compacted(b);
    CompactedEntry(b, k);
    SlotsCounted(b);
    SlotsCounted(c);
    LengthsAreLive(b, k + 1);
    PageMeaningInBytes(b, k);
    PageMeaningInBytes(c, k);
    EntryInBytes(b, k);
    EntryInBytes(c, k);
  }

  /** What compaction leaves of everything else. */
  lemma {:induction false} CompactedFrame(b: PageBytes)
    requires WellFormed(b)
    ensures LiveBytes(Abs(b).slots) <= PAGE_SIZE
    ensures var c := Compacted(b);
      && SameBut(b, c, 12, 14, 32, 8192, 0, 0) && FreeEnd(c) == PAGE_SIZE - LiveBytes(Abs(b).slots)
      && forall i | FreeStart(b) <= i < PAGE_SIZE - LiveBytes(Abs(b).slots) :: c[i] == 0
  {
    var t, slots := Table(b), Abs(b).slots;
    CompactedShape(b, t, slots, |t|, FreeStart(b));
    assert forall i | 0 <= i < PAGE_SIZE - LiveBytes(slots) :: PackedArea(slots, |t|)[i] == 0;
    hide WellFormed, Abs, Compacted, SlotCount, FreeStart, FreeEnd, LiveUpTo, PackedArea, Moves, Moved, Entries;
  }

  lemma {:induction false} CompactedInBytes(b: PageBytes)
    requires WellFormed(b)
    ensures LiveBytes(Abs(b).slots) <= PAGE_SIZE && Packed(b, Compacted(b))
  {
    hide WellFormed, Abs, Field, Compacted, SlotCount, FreeStart, FreeEnd, Table, RawSlotAt, LiveUpTo, LengthsUpTo, EntryPacked, SameBut;
    CompactedFrame(b);
    SlotsCounted(b);
    HeaderFieldsInBytes(Compacted(b));
    LengthsAreLive(b, SlotCount(b));
    forall k | 0 <= k < SlotCount(b) ensures 32 + 8 * k + 8 <= 8192 && EntryPacked(b, Compacted(b), k) {
      EntryPackedInBytes(b, k);
    }
  }
}
