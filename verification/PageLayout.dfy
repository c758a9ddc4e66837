/**
 * The byte layout of a slotted page and what it means: header fields, the slot directory, the
 * validity test, and the PageState that a valid page stands for.
 */
module PageLayout {
  import opened Wrappers
  import opened Bytes
  import opened Pages
  import opened PageModel
  import opened Ranges

  const MAGIC: seq<byte> := [0x4E, 0x48, 0x50, 0x47]
  const FORMAT_VERSION: byte := 1
  const HEAP_PAGE_KIND: byte := 1

  const SLOT_COUNT_OFFSET := 8
  const FREE_START_OFFSET := 10
  const FREE_END_OFFSET := 12
  const LIVE_COUNT_OFFSET := 14
  const NEXT_PAGE_ID_OFFSET := 16

  const FREE: u16 := 0
  const LIVE: u16 := 1
  const RETIRED: u16 := 2

  datatype RawSlot = RawSlot(offset: u16, length: u16, generation: u16, flags: u16) {
    function End(): nat { offset as int + length as int }
  }

  function SlotCount(b: PageBytes): u16 { U16At(b, SLOT_COUNT_OFFSET) }
  function FreeStart(b: PageBytes): u16 { U16At(b, FREE_START_OFFSET) }
  function FreeEnd(b: PageBytes): u16 { U16At(b, FREE_END_OFFSET) }
  function LiveCount(b: PageBytes): u16 { U16At(b, LIVE_COUNT_OFFSET) }

  function NextPage(b: PageBytes): Option<PageId> {
    var raw := U32At(b, NEXT_PAGE_ID_OFFSET);
    if raw == U32_MAX then None else Some(raw)
  }

  function SlotBase(k: nat): nat {
    PAGE_HEADER_SIZE + SLOT_ENTRY_SIZE * k
  }

  function RawSlotAt(b: PageBytes, k: nat): RawSlot
    requires SlotBase(k + 1) <= PAGE_SIZE
  {
    var o := SlotBase(k);
    RawSlot(U16At(b, o), U16At(b, o + 2), U16At(b, o + 4), U16At(b, o + 6))
  }

  function SlotBytes(s: RawSlot): (r: seq<byte>)
    ensures |r| == SLOT_ENTRY_SIZE
  {
    Le16(s.offset) + Le16(s.length) + Le16(s.generation) + Le16(s.flags)
  }

  function PutSlot(b: PageBytes, k: nat, s: RawSlot): PageBytes
    requires SlotBase(k + 1) <= PAGE_SIZE
  {
    Splice(b, SlotBase(k), SlotBytes(s))
  }

  /** The first `n` directory entries. */
  function Entries(b: PageBytes, n: nat): (t: seq<RawSlot>)
    requires SlotBase(n) <= PAGE_SIZE
    ensures |t| == n
    ensures forall k | 0 <= k < n :: t[k] == RawSlotAt(b, k)
  {
    seq(n, k requires 0 <= k < n => RawSlotAt(b, k))
  }

  function Table(b: PageBytes): seq<RawSlot>
    requires SlotBase(SlotCount(b)) <= PAGE_SIZE
  {
    Entries(b, SlotCount(b))
  }

  predicate EntryOk(s: RawSlot, freeEnd: nat) {
    if s.flags == LIVE then
      s.generation != 0 && s.End() <= PAGE_SIZE && freeEnd <= s.offset
    else
      (s.flags == FREE || s.flags == RETIRED) && s.offset == 0 && s.length == 0
  }

  predicate Occupies(s: RawSlot) {
    s.flags == LIVE && s.length != 0
  }

  predicate EntriesApart(s: RawSlot, t: RawSlot) {
    Occupies(s) && Occupies(t) ==>
      s.End() <= t.offset || t.End() <= s.offset
  }

  function CountLiveUpTo(t: seq<RawSlot>, n: nat): nat
    requires n <= |t|
  {
    if n == 0 then 0 else CountLiveUpTo(t, n - 1) + if t[n - 1].flags == LIVE then 1 else 0
  }

  function CountLive(t: seq<RawSlot>): nat {
    CountLiveUpTo(t, |t|)
  }

  ghost predicate TableOk(t: seq<RawSlot>, freeEnd: nat) {
    && (forall k | 0 <= k < |t| :: EntryOk(t[k], freeEnd))
    && (forall i, j | 0 <= i < j < |t| :: EntriesApart(t[i], t[j]))
  }

  predicate HeaderOk(b: PageBytes) {
    && b[..4] == MAGIC && b[4] == FORMAT_VERSION && b[5] == HEAP_PAGE_KIND
    && FreeStart(b) as int == SlotBase(SlotCount(b)) <= PAGE_SIZE
    && FreeStart(b) <= FreeEnd(b) <= PAGE_SIZE
  }

  /** Exactly what page validation accepts; SlottedPage.Validate is proved to decide it. */
  ghost predicate WellFormed(b: PageBytes) {
    && HeaderOk(b)
    && TableOk(Table(b), FreeEnd(b))
    && CountLive(Table(b)) == LiveCount(b)
  }

  function StateOf(b: PageBytes, s: RawSlot): SlotState
    requires s.flags == LIVE ==> s.End() <= PAGE_SIZE
  {
    if s.flags == LIVE then Live(s.generation, b[s.offset..s.End()])
    else if s.flags == FREE then Free(s.generation)
    else Retired(s.generation)
  }

  predicate InPage(t: seq<RawSlot>) {
    forall k | 0 <= k < |t| :: t[k].flags == LIVE ==> t[k].End() <= PAGE_SIZE
  }

  function States(b: PageBytes, t: seq<RawSlot>): (r: seq<SlotState>)
    requires InPage(t)
    ensures |r| == |t|
    ensures forall k | 0 <= k < |t| :: r[k] == StateOf(b, t[k])
  {
    seq(|t|, k requires 0 <= k < |t| => StateOf(b, t[k]))
  }

  /** The meaning of a valid page. */
  ghost function Abs(b: PageBytes): PageState
    requires WellFormed(b)
  {
    PageState(States(b, Table(b)), NextPage(b))
  }

  /** A page as the engine builds it: valid, and with an invariant that every operation keeps. */
  ghost predicate Sound(b: PageBytes) {
    WellFormed(b) && PageInv(Abs(b))
  }

  // ----- Counting and packing -----

  lemma {:induction false} CountLiveFrame(t: seq<RawSlot>, u: seq<RawSlot>, n: nat)
    requires n <= |t| && n <= |u| && forall i | 0 <= i < n :: t[i].flags == u[i].flags
    ensures CountLiveUpTo(t, n) == CountLiveUpTo(u, n)
  {
    if n > 0 {
      CountLiveFrame(t, u, n - 1);
    }
  }

  lemma CountLiveAppend(t: seq<RawSlot>, s: RawSlot)
    ensures CountLive(t + [s]) == CountLive(t) + if s.flags == LIVE then 1 else 0
  {
    CountLiveFrame(t + [s], t, |t|);
  }

  lemma {:induction false} CountLiveUpdateUpTo(t: seq<RawSlot>, k: nat, s: RawSlot, n: nat)
    requires k < n <= |t|
    ensures CountLiveUpTo(t[k := s], n) ==
      CountLiveUpTo(t, n) - (if t[k].flags == LIVE then 1 else 0) + (if s.flags == LIVE then 1 else 0)
  {
    if k < n - 1 {
      CountLiveUpdateUpTo(t, k, s, n - 1);
    } else {
      CountLiveFrame(t[k := s], t, n - 1);
    }
  }

  lemma CountLiveUpdate(t: seq<RawSlot>, k: nat, s: RawSlot)
    requires k < |t|
    ensures CountLive(t[k := s]) ==
      CountLive(t) - (if t[k].flags == LIVE then 1 else 0) + (if s.flags == LIVE then 1 else 0)
  {
    CountLiveUpdateUpTo(t, k, s, |t|);
  }

  lemma {:induction false} CountLiveBound(t: seq<RawSlot>, n: nat)
    requires n <= |t|
    ensures CountLiveUpTo(t, n) <= n
    ensures forall k | 0 <= k < n :: t[k].flags == LIVE ==> CountLiveUpTo(t, n) >= 1
  {
    if n > 0 {
      CountLiveBound(t, n - 1);
    }
  }

  ghost function Interval(lo: int, hi: int): (s: set<int>)
    ensures forall x :: x in s <==> lo <= x < hi
    ensures lo <= hi ==> |s| == hi - lo
    decreases hi - lo
  {
    if lo >= hi then {} else Interval(lo, hi - 1) + {hi - 1}
  }

  /** The byte positions that the live records of the first `n` entries occupy. */
  ghost function Covered(t: seq<RawSlot>, n: nat): set<int>
    requires n <= |t|
  {
    if n == 0 then {} else Covered(t, n - 1) + Extent(t[n - 1])
  }

  ghost function Extent(s: RawSlot): set<int> {
    if s.flags == LIVE then Interval(s.offset, s.End()) else {}
  }

  lemma {:induction false} CoveredBy(t: seq<RawSlot>, n: nat, x: int) returns (k: nat)
    requires n <= |t| && x in Covered(t, n)
    ensures k < n && x in Extent(t[k])
  {
    if x in Extent(t[n - 1]) {
      k := n - 1;
    } else {
      k := CoveredBy(t, n - 1, x);
    }
  }

  lemma NextExtentIsNew(t: seq<RawSlot>, n: nat, freeEnd: nat)
    requires n < |t| && TableOk(t, freeEnd)
    ensures Covered(t, n) !! Extent(t[n])
  {
    forall x | x in Extent(t[n]) ensures x !in Covered(t, n) {
      if x in Covered(t, n) {
        var k := CoveredBy(t, n, x);
        assert false;
      }
    }
  }

  lemma ExtentSize(b: PageBytes, t: seq<RawSlot>, k: nat, freeEnd: nat)
    requires k < |t| && TableOk(t, freeEnd)
    ensures |Extent(t[k])| == Weight(States(b, t)[k])
  {
    assert EntryOk(t[k], freeEnd);
  }

  lemma UnionSize<T>(a: set<T>, b: set<T>)
    requires a !! b
    ensures |a + b| == |a| + |b|
  {
  }

  lemma {:induction false} CoveredSize(b: PageBytes, t: seq<RawSlot>, slots: seq<SlotState>, n: nat, freeEnd: nat)
    requires n <= |t| && TableOk(t, freeEnd) && slots == States(b, t)
    ensures |Covered(t, n)| == LiveUpTo(slots, n)
  {
    hide TableOk, States, StateOf, Extent, Weight;
    if n > 0 {
      CoveredSize(b, t, slots, n - 1, freeEnd);
      NextExtentIsNew(t, n - 1, freeEnd);
      ExtentSize(b, t, n - 1, freeEnd);
      UnionSize(Covered(t, n - 1), Extent(t[n - 1]));
    }
  }

  lemma CoveredWithin(t: seq<RawSlot>, freeEnd: nat)
    requires TableOk(t, freeEnd)
    ensures Covered(t, |t|) <= Interval(freeEnd, PAGE_SIZE)
  {
    forall x | x in Covered(t, |t|) ensures x in Interval(freeEnd, PAGE_SIZE) {
      var k := CoveredBy(t, |t|, x);
      assert EntryOk(t[k], freeEnd);
    }
  }

  /** Records that do not overlap and start at or after the free end need no more room than there is. */
  lemma Packing(b: PageBytes, t: seq<RawSlot>, freeEnd: nat)
    requires TableOk(t, freeEnd) && freeEnd <= PAGE_SIZE
    ensures LiveBytes(States(b, t)) <= PAGE_SIZE - freeEnd
  {
    var slots := States(b, t);
    CoveredSize(b, t, slots, |t|, freeEnd);
    CoveredWithin(t, freeEnd);
    hide States, Covered, Interval, LiveUpTo, TableOk;
    SubsetSize(Covered(t, |t|), Interval(freeEnd, PAGE_SIZE));
  }

  lemma SubsetSize<T>(a: set<T>, b: set<T>)
    requires a <= b
    ensures |a| <= |b|
  {
    assert b == a + (b - a);
  }

  /** A valid page has non-negative slack, and its contiguous free space is never more than that. */
  lemma FreeSpaceWithinSlack(b: PageBytes)
    requires WellFormed(b)
    ensures 0 <= FreeEnd(b) as int - FreeStart(b) as int <= Slack(Abs(b).slots)
  {
    Packing(b, Table(b), FreeEnd(b));
  }

  // ----- What single writes change -----

  lemma EntriesFrame(b: PageBytes, c: PageBytes, n: nat)
    requires SlotBase(n) <= PAGE_SIZE
    requires forall i | PAGE_HEADER_SIZE <= i < SlotBase(n) :: b[i] == c[i]
    ensures Entries(b, n) == Entries(c, n)
  {
  }

  lemma StatesFrame(b: PageBytes, c: PageBytes, t: seq<RawSlot>, freeEnd: nat)
    requires InPage(t) && forall k | 0 <= k < |t| :: EntryOk(t[k], freeEnd)
    requires forall i | freeEnd <= i < PAGE_SIZE :: b[i] == c[i]
    ensures States(b, t) == States(c, t)
  {
    forall k | 0 <= k < |t| ensures StateOf(b, t[k]) == StateOf(c, t[k]) {
      if t[k].flags == LIVE {
        var lo, hi := t[k].offset as int, t[k].End();
        assert b[lo..hi] == c[lo..hi];
      }
    }
  }

  lemma SlotReadsBack(b: PageBytes, k: nat, s: RawSlot)
    requires SlotBase(k + 1) <= PAGE_SIZE
    ensures RawSlotAt(PutSlot(b, k, s), k) == s
  {
    var c, o, r := PutSlot(b, k, s), SlotBase(k), SlotBytes(s);
    assert c[o] == r[0] && c[o + 1] == r[1] && c[o + 2] == r[2] && c[o + 3] == r[3];
    assert c[o + 4] == r[4] && c[o + 5] == r[5] && c[o + 6] == r[6] && c[o + 7] == r[7];
    Le16RoundTrip(s.offset);
    Le16RoundTrip(s.length);
    Le16RoundTrip(s.generation);
    Le16RoundTrip(s.flags);
  }

  /** Overwriting directory entry `k` replaces or appends that entry and touches nothing else. */
  lemma PutSlotEntries(b: PageBytes, n: nat, k: nat, s: RawSlot)
    requires k <= n && SlotBase(n) <= PAGE_SIZE && SlotBase(k + 1) <= PAGE_SIZE
    ensures var c := PutSlot(b, k, s);
      && (k < n ==> Entries(c, n) == Entries(b, n)[k := s])
      && (k == n ==> Entries(c, n + 1) == Entries(b, n) + [s])
      && (forall i | 0 <= i < PAGE_SIZE && !(SlotBase(k) <= i < SlotBase(k + 1)) :: c[i] == b[i])
  {
    var c := PutSlot(b, k, s);
    SlotReadsBack(b, k, s);
    forall j | 0 <= j < n && j != k ensures RawSlotAt(c, j) == RawSlotAt(b, j) {
      assert SlotBase(j + 1) <= SlotBase(k) || SlotBase(k + 1) <= SlotBase(j);
    }
  }

  /** The four 16-bit field writes of one directory entry amount to one entry write. */
  lemma FieldWritesAreOneSlotWrite(b: PageBytes, k: nat, s: RawSlot)
    requires SlotBase(k + 1) <= PAGE_SIZE
    ensures var o := SlotBase(k);
      Put16(Put16(Put16(Put16(b, o, s.offset), o + 2, s.length), o + 4, s.generation), o + 6, s.flags)
      == PutSlot(b, k, s)
  {
  }

  // ----- The overlap test over the directory -----

  /** The byte ranges of the non-empty live records among the first `n` entries. */
  function RangesUpTo(t: seq<RawSlot>, n: nat): (r: seq<Range>)
    requires n <= |t|
    ensures NonEmpty(r)
  {
    if n == 0 then []
    else RangesUpTo(t, n - 1) + if Occupies(t[n - 1]) then [Range(t[n - 1].offset, t[n - 1].End())] else []
  }

  lemma {:induction false} RangesMember(t: seq<RawSlot>, n: nat, q: Range)
    requires n <= |t|
    ensures q in RangesUpTo(t, n) <==> exists k :: 0 <= k < n && Occupies(t[k]) && q == Range(t[k].offset, t[k].End())
  {
    if n > 0 {
      RangesMember(t, n - 1, q);
    }
  }

  lemma ApartAppend(s: seq<Range>, q: Range)
    ensures PairwiseApart(s + [q]) <==> PairwiseApart(s) && forall p | p in s :: Apart(p, q)
  {
    var u := s + [q];
    if PairwiseApart(u) {
      assert forall i, j | 0 <= i < j < |s| :: u[i] == s[i] && u[j] == s[j];
      forall p | p in s ensures Apart(p, q) {
        var i :| 0 <= i < |s| && s[i] == p;
        assert Apart(u[i], u[|s|]);
      }
    }
  }

  ghost predicate NoOverlap(t: seq<RawSlot>, n: nat)
    requires n <= |t|
  {
    forall i, j | 0 <= i < j < n :: EntriesApart(t[i], t[j])
  }

  lemma EmptyEntryApart(t: seq<RawSlot>, n: nat)
    requires n < |t| && !Occupies(t[n])
    ensures forall i | 0 <= i < n :: EntriesApart(t[i], t[n])
  {
  }

  /** The collected ranges are pairwise apart exactly when the directory entries are. */
  lemma {:induction false} RangesDecide(t: seq<RawSlot>, n: nat)
    requires n <= |t|
    ensures PairwiseApart(RangesUpTo(t, n)) <==> NoOverlap(t, n)
  {
    hide EntriesApart;
    if n > 0 {
      assert NoOverlap(t, n) <==> NoOverlap(t, n - 1) && forall i | 0 <= i < n - 1 :: EntriesApart(t[i], t[n - 1]);
      RangesDecide(t, n - 1);
      var last, before := t[n - 1], RangesUpTo(t, n - 1);
      if Occupies(last) {
        var q := Range(last.offset, last.End());
        ApartAppend(before, q);
        NextEntryApart(t, n - 1, q);
      } else {
        EmptyEntryApart(t, n - 1);
        assert RangesUpTo(t, n) == before;
      }
    }
  }

  lemma {:induction false} NextEntryApart(t: seq<RawSlot>, n: nat, q: Range)
    requires n < |t| && Occupies(t[n]) && q == Range(t[n].offset, t[n].End())
    ensures (forall p | p in RangesUpTo(t, n) :: Apart(p, q)) <==> forall i | 0 <= i < n :: EntriesApart(t[i], t[n])
  {
    forall p ensures p in RangesUpTo(t, n) <==>
      exists k :: 0 <= k < n && Occupies(t[k]) && p == Range(t[k].offset, t[k].End())
    {
      RangesMember(t, n, p);
    }
    hide RangesUpTo;
    if forall p | p in RangesUpTo(t, n) :: Apart(p, q) {
      forall i | 0 <= i < n ensures EntriesApart(t[i], t[n]) {
        if Occupies(t[i]) {
          assert Range(t[i].offset, t[i].End()) in RangesUpTo(t, n);
        }
      }
    }
  }

  /** A valid page's live count is the number of addresses it lists, and each of them resolves. */
  lemma {:induction false} LiveCountIsListed(b: PageBytes, t: seq<RawSlot>, n: nat)
    requires InPage(t) && n <= |t|
    ensures |LiveRefs(States(b, t), n)| == CountLiveUpTo(t, n)
  {
    if n > 0 {
      LiveCountIsListed(b, t, n - 1);
    }
  }
}
