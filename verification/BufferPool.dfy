/**
 * The bounded page cache over the disk manager (src/storage/buffer_pool.rs): pinned frames, least
 * recently used eviction, dirty write-back. To its clients it is a plain map from page ids to bytes.
 */
module BufferPools {
  import opened Wrappers
  import opened Bytes
  import opened Pages
  import opened Disk

  datatype PoolError =
    | DiskFailure(disk: DiskError)
    | ZeroCapacity
    | AllFramesPinned
    | PageNotCached(id: PageId)
    | PinCountExhausted(id: PageId)
    | ReadOnlyPool

  type PageMap = map<PageId, PageBytes>

  class Frame {
    const pageId: PageId
    const page: Page
    const writable: bool
    var pinCount: u32
    var lastUsed: u64

    constructor (page: Page, pinCount: u32, lastUsed: u64, writable: bool)
      ensures this.pageId == page.id && this.page == page && this.writable == writable
      ensures this.pinCount == pinCount && this.lastUsed == lastUsed
    {
      this.pageId := page.id;
      this.page := page;
      this.writable := writable;
      this.pinCount := pinCount;
      this.lastUsed := lastUsed;
    }
  }

  /** Keeps one cached page pinned until it is released. */
  datatype PageGuard = PageGuard(frame: Frame) {
    /** The page itself, refused for changing when the database is read-only. */
    function Write(): Result<Page, PoolError> {
      if frame.writable then Ok(frame.page) else Err(ReadOnlyPool)
    }
  }

  /** A frame that caches page `id` of `stored`: only a writable frame can be dirty, and a clean one matches the disk. */
  ghost predicate FrameOk(f: Frame, id: PageId, stored: PageMap, readOnly: bool)
    reads f.page, f.page.bytes
  {
    && f.pageId == id && f.page.id == id && f.page.Valid() && id in stored
    && f.writable == !readOnly
    && (f.page.dirty ==> f.writable)
    && (!f.page.dirty ==> f.page.Content() == stored[id])
  }

  /**
   * The stored tick of a frame last touched at `touched`: its distance from the last clock wrap, or zero when it was last
   * touched before that wrap, where the order among frames is forgotten.
   */
  ghost predicate TickOk(f: Frame, touched: nat, wrappedAt: nat, now: nat)
    reads f
  {
    touched <= now && f.lastUsed == if touched > wrappedAt then touched - wrappedAt else 0
  }

  /** The pages that some guard holds. */
  ghost function Pinned(pins: multiset<PageId>): set<PageId> {
    set id | id in pins
  }

  /** Fewer than `capacity` pages are pinned: some frame is free or can be freed. */
  ghost predicate HasRoom(pins: multiset<PageId>, capacity: nat) {
    |Pinned(pins)| < capacity
  }

  ghost predicate AnyUnpinned(ids: set<PageId>, pins: multiset<PageId>) {
    exists id :: id in ids && pins[id] == 0
  }

  /** Each frame, its page and its buffer belong to `repr`. */
  ghost predicate Owned(frames: map<PageId, Frame>, repr: set<object>) {
    forall id | id in frames :: frames[id] in repr && frames[id].page in repr && frames[id].page.bytes in repr
  }

  /** No two frames share a buffer. */
  ghost predicate BuffersApart(frames: map<PageId, Frame>) {
    forall i, j | i in frames && j in frames && i != j :: frames[i].page.bytes != frames[j].page.bytes
  }

  lemma BuffersApartWith(frames: map<PageId, Frame>, id: PageId, f: Frame)
    requires BuffersApart(frames) && forall j | j in frames :: f.page.bytes != frames[j].page.bytes
    ensures BuffersApart(frames[id := f])
  {
  }

  /**
   * Page `v` was last touched no later than any unpinned page, except that the latest clock wrap forgets
   * the order of the touches before it.
   */
  ghost predicate LeastRecent(times: map<PageId, nat>, pins: multiset<PageId>, wrappedAt: nat, v: PageId)
    requires v in times
  {
    forall j | j in times && pins[j] == 0 :: times[v] <= times[j] || (times[v] <= wrappedAt && times[j] <= wrappedAt)
  }

  /**
   * Which pages left the cache: none while a frame is free, otherwise one at most, which is unpinned and
   * the least recently used of the unpinned pages.
   */
  ghost predicate EvictedInOrder(before: map<PageId, nat>, after: map<PageId, nat>, pins: multiset<PageId>, wrappedAt: nat, capacity: nat) {
    && (forall v | v in before && v !in after :: |before| >= capacity && pins[v] == 0 && LeastRecent(before, pins, wrappedAt, v))
    && forall v, w | v in before && w in before && v !in after && w !in after :: v == w
  }

  /** Every cached page but `id` was cached before, and was not touched since. */
  ghost predicate TouchedOnly(before: map<PageId, nat>, after: map<PageId, nat>, id: PageId) {
    forall j | j in after && j != id :: j in before && after[j] == before[j]
  }

  /** All frames but that of page `id` were there before. */
  ghost predicate SurvivorsOf(before: map<PageId, Frame>, after: map<PageId, Frame>, id: PageId) {
    forall j | j in after && j != id :: j in before && after[j] == before[j]
  }

  lemma AllSurvive(frames: map<PageId, Frame>)
    ensures forall id :: SurvivorsOf(frames, frames, id)
    ensures forall v, id :: SurvivorsOf(frames, frames - {v}, id)
  {
  }

  lemma SurvivorsWith(before: map<PageId, Frame>, after: map<PageId, Frame>, id: PageId, f: Frame)
    requires SurvivorsOf(before, after, id)
    ensures SurvivorsOf(before, after[id := f], id)
  {
  }

  /** Every cached page was cached before, and was not touched since. */
  ghost predicate NotTouched(before: map<PageId, nat>, after: map<PageId, nat>) {
    forall j | j in after :: j in before && after[j] == before[j]
  }

  lemma NoneEvicted(times: map<PageId, nat>, pins: multiset<PageId>, wrappedAt: nat, capacity: nat)
    ensures forall after: map<PageId, nat> :: times.Keys <= after.Keys ==> EvictedInOrder(times, after, pins, wrappedAt, capacity)
    ensures NotTouched(times, times)
  {
  }

  lemma OneEvicted(times: map<PageId, nat>, victim: PageId, pins: multiset<PageId>, wrappedAt: nat, capacity: nat)
    requires victim in times && |times| >= capacity && pins[victim] == 0 && LeastRecent(times, pins, wrappedAt, victim)
    ensures EvictedInOrder(times, times - {victim}, pins, wrappedAt, capacity)
    ensures NotTouched(times, times - {victim})
  {
    hide LeastRecent;
  }

  /** The disk changed only at pages that left the cache. */
  ghost predicate OnlyEvictedWritten(before: map<PageId, Frame>, after: map<PageId, Frame>, stored: PageMap, now: PageMap) {
    forall j | j in stored && (j in after || j !in before) :: j in now && now[j] == stored[j]
  }

  lemma NothingWritten(cached: map<PageId, Frame>, stored: PageMap)
    ensures OnlyEvictedWritten(cached, cached, stored, stored)
  {
  }

  lemma VictimWritten(cached: map<PageId, Frame>, stored: PageMap, victim: PageId, bytes: PageBytes)
    requires victim in cached
    ensures OnlyEvictedWritten(cached, cached - {victim}, stored, stored[victim := bytes])
  {
  }

  lemma WrittenStill(before: map<PageId, Frame>, left: map<PageId, Frame>, stored: PageMap, now: PageMap, id: PageId, f: Frame)
    requires OnlyEvictedWritten(before, left, stored, now) && (id !in before || id !in stored)
    ensures OnlyEvictedWritten(before, left[id := f], stored, now)
  {
  }

  lemma WrittenOnGrowing(before: map<PageId, Frame>, left: map<PageId, Frame>, stored: PageMap, mid: PageMap, now: PageMap)
    requires OnlyEvictedWritten(before, left, stored, mid) && forall j | j in mid :: j in now && now[j] == mid[j]
    ensures OnlyEvictedWritten(before, left, stored, now)
  {
  }

  lemma NotTouchedAtAll(before: map<PageId, nat>, after: map<PageId, nat>, id: PageId)
    requires NotTouched(before, after)
    ensures TouchedOnly(before, after, id)
  {
  }

  /** Caching or touching page `id` afterwards changes nothing about which pages left. */
  lemma EvictedStill(before: map<PageId, nat>, left: map<PageId, nat>, id: PageId, now: nat, pins: multiset<PageId>, wrappedAt: nat, capacity: nat)
    requires EvictedInOrder(before, left, pins, wrappedAt, capacity)
    ensures EvictedInOrder(before, left[id := now], pins, wrappedAt, capacity)
    ensures TouchedOnly(before, left, id) ==> TouchedOnly(before, left[id := now], id)
  {
    hide LeastRecent;
  }

  lemma MapWithout(frames: map<PageId, Frame>, id: PageId)
    requires id in frames
    ensures (frames - {id}).Keys == frames.Keys - {id} && |frames - {id}| == |frames| - 1
  {
    assert (frames - {id}).Keys == frames.Keys - {id};
  }

  lemma BuffersApartWithout(frames: map<PageId, Frame>, id: PageId)
    requires BuffersApart(frames)
    ensures BuffersApart(frames - {id})
  {
  }

  /** The view covers exactly the allocated pages, and an uncached page is seen as it is on disk. */
  ghost predicate UncachedOk(view: PageMap, frames: map<PageId, Frame>, stored: PageMap) {
    view.Keys == stored.Keys && forall id | id in view && id !in frames :: view[id] == stored[id]
  }

  lemma OwnedWith(frames: map<PageId, Frame>, id: PageId, f: Frame, repr: set<object>)
    requires Owned(frames, repr)
    ensures Owned(frames[id := f], repr + {f, f.page, f.page.bytes})
  {
  }

  lemma OwnedWithout(frames: map<PageId, Frame>, id: PageId, repr: set<object>)
    requires Owned(frames, repr)
    ensures Owned(frames - {id}, repr)
  {
  }

  class BufferPool {
    const disk: DiskManager
    const capacity: nat
    var frames: map<PageId, Frame>
    var clock: u64
    /** What every client sees: the cached bytes of a cached page, the bytes on disk of any other. */
    ghost var view: PageMap
    /** The guards handed out and not yet released. */
    ghost var pins: multiset<PageId>
    /** Ticks handed out so far, and the tick of the latest clock wrap. */
    ghost var now: nat
    ghost var wrappedAt: nat
    /** When each cached page was last touched, on a clock that never wraps. */
    ghost var times: map<PageId, nat>
    /** Every object the pool owns or has owned. */
    ghost var repr: set<object>

    ghost function FrameSet(): set<Frame>
      reads this`frames
    {
      set id | id in frames :: frames[id]
    }

    ghost function PageSet(): set<Page>
      reads this`frames
    {
      set id | id in frames :: frames[id].page
    }

    ghost function ArraySet(): set<array<byte>>
      reads this`frames
    {
      set id | id in frames :: frames[id].page.bytes
    }

    /**
     * At most `capacity` frames, each caching its own page in a buffer of its own, and the view made
     * of the cached pages and, for the rest, the disk. Page `except`, if any, is being edited.
     */
    ghost predicate CacheOkBut(except: Option<PageId>)
      reads this`frames, this`view, disk, PageSet(), ArraySet()
    {
      && 1 <= capacity && |frames| <= capacity
      && disk.Valid() && UncachedOk(view, frames, disk.pages) && BuffersApart(frames)
      && (forall id | id in frames :: FrameOk(frames[id], id, disk.pages, disk.readOnly))
      && (forall id | id in frames && Some(id) != except :: view[id] == frames[id].page.Content())
    }

    ghost predicate CacheOk()
      reads this`frames, this`view, disk, PageSet(), ArraySet()
    {
      CacheOkBut(None)
    }

    ghost predicate ClockOk()
      reads this`frames, this`clock, this`now, this`wrappedAt, this`times, FrameSet()
    {
      && now == wrappedAt + clock && times.Keys == frames.Keys
      && (forall id | id in frames :: TickOk(frames[id], times[id], wrappedAt, now))
    }

    /** The pin count of a frame is the number of guards on its page, and every guarded page is cached. */
    ghost predicate PinsOk()
      reads this`frames, this`pins, FrameSet()`pinCount
    {
      && (forall id | id in frames :: frames[id].pinCount == pins[id])
      && (forall id | id in pins :: id in frames)
    }

    ghost predicate Valid()
      reads this, repr
    {
      this in repr && disk in repr && Owned(frames, repr) && CacheOk() && ClockOk() && PinsOk()
    }

    constructor (disk: DiskManager, capacity: nat)
      requires disk.Valid() && capacity >= 1
      ensures this.disk == disk && this.capacity == capacity
      ensures Valid() && view == disk.pages && pins == multiset{} && frames == map[] && times == map[]
      ensures fresh(repr - {disk})
    {
      this.disk := disk;
      this.capacity := capacity;
      this.frames := map[];
      this.clock := 0;
      this.view := disk.pages;
      this.pins := multiset{};
      this.now := 0;
      this.wrappedAt := 0;
      this.times := map[];
      this.repr := {this, disk};
    }

    static method Create(disk: DiskManager, capacity: nat) returns (r: Result<BufferPool, PoolError>)
      requires disk.Valid()
      ensures r.Err? <==> capacity == 0
      ensures r.Err? ==> r.error == ZeroCapacity
      ensures r.Ok? ==> fresh(r.value) && r.value.disk == disk && r.value.capacity == capacity
      ensures r.Ok? ==> r.value.Valid() && r.value.view == disk.pages && r.value.pins == multiset{}
      ensures r.Ok? ==> fresh(r.value.repr - {disk})
    {
      if capacity == 0 {
        return Err(ZeroCapacity);
      }
      var pool := new BufferPool(disk, capacity);
      return Ok(pool);
    }

    // ----- What survives a change elsewhere -----

    twostate lemma OldFrameOk(j: PageId)
      requires old(CacheOk()) && j in old(frames) && disk.pages == old(disk.pages)
      requires unchanged(old(frames)[j].page) && unchanged(old(frames)[j].page.bytes)
      ensures var f := old(frames)[j];
        FrameOk(f, j, disk.pages, disk.readOnly) && f.page.Valid() && j in old(view) && old(view)[j] == f.page.Content()
    {
      hide DiskOk;
      assert old(FrameOk(frames[j], j, disk.pages, disk.readOnly)) && old(view[j] == frames[j].page.Content());
    }

    twostate lemma {:induction false} CacheKept()
      requires old(CacheOk()) && frames == old(frames) && view == old(view) && unchanged(disk)
      requires forall id | id in frames :: unchanged(frames[id].page) && unchanged(frames[id].page.bytes)
      ensures CacheOk()
    {
      hide DiskOk;
      forall id | id in frames
        ensures FrameOk(frames[id], id, disk.pages, disk.readOnly) && view[id] == frames[id].page.Content()
      {
        assert old(FrameOk(frames[id], id, disk.pages, disk.readOnly)) && old(view[id] == frames[id].page.Content());
      }
    }

    twostate lemma {:induction false} ClockKept()
      requires old(ClockOk()) && frames == old(frames)
      requires clock == old(clock) && now == old(now) && wrappedAt == old(wrappedAt) && times == old(times)
      requires forall id | id in frames :: frames[id].lastUsed == old(frames[id].lastUsed)
      ensures ClockOk()
    {
      forall id | id in frames ensures TickOk(frames[id], times[id], wrappedAt, now) {
        assert old(TickOk(frames[id], times[id], wrappedAt, now));
      }
    }

    twostate lemma {:induction false} ClockForgot(id: PageId)
      requires old(ClockOk()) && frames == old(frames) - {id} && times == old(times) - {id}
      requires clock == old(clock) && now == old(now) && wrappedAt == old(wrappedAt)
      requires forall j | j in frames :: frames[j].lastUsed == old(frames[j].lastUsed)
      ensures ClockOk()
    {
      forall j | j in frames ensures TickOk(frames[j], times[j], wrappedAt, now) {
        assert old(TickOk(frames[j], times[j], wrappedAt, now));
      }
    }

    // ----- Write-back and eviction -----

    twostate lemma {:induction false} PinsKept()
      requires old(PinsOk()) && pins == old(pins)
      requires forall id | id in old(frames) :: id in frames || pins[id] == 0
      requires forall id | id in frames :: id in old(frames) && frames[id] == old(frames)[id] && frames[id].pinCount == old(frames[id].pinCount)
      ensures PinsOk()
    {
      forall id | id in frames ensures frames[id].pinCount == pins[id] {
        assert old(frames[id].pinCount) == old(pins[id]);
      }
    }

    /** Page `id` went to disk as cached; every client still sees the same bytes. */
    twostate lemma {:induction false} FlushedOk(id: PageId)
      requires old(CacheOk()) && id in frames && frames == old(frames) && view == old(view)
      requires disk.Valid() && disk.pages == old(disk.pages)[id := frames[id].page.Content()]
      requires forall j | j in frames :: unchanged(frames[j].page.bytes) && (j != id ==> unchanged(frames[j].page))
      ensures !frames[id].page.dirty ==> CacheOk()
    {
      hide DiskOk;
      assert old(FrameOk(frames[id], id, disk.pages, disk.readOnly));
      if !frames[id].page.dirty {
        forall j | j in frames
          ensures FrameOk(frames[j], j, disk.pages, disk.readOnly) && view[j] == frames[j].page.Content()
        {
          assert old(FrameOk(frames[j], j, disk.pages, disk.readOnly)) && old(view[j] == frames[j].page.Content());
        }
      }
    }

    /** Writes a dirty frame to disk and marks it clean; no client can tell. */
    method FlushFrame(id: PageId)
      requires Valid() && id in frames
      modifies disk`file, disk`pages, frames[id].page`dirty
      ensures Valid() && !frames[id].page.dirty && id in view && disk.pages == old(disk.pages)[id := view[id]]
    {
      hide Owned, CacheOk, CacheOkBut, ClockOk, PinsOk, DiskOk, FrameOk;
      FrameIsOk(id);
      CleanPageIsStored(id);
      var frame := frames[id];
      if frame.page.dirty {
        FramesDistinct();
        var w := disk.WritePage(frame.page);
        assert w.Ok?;
        FlushedOk(id);
        ClockKept();
        PinsKept();
      }
    }

    lemma FrameIsOk(id: PageId)
      requires CacheOk() && id in frames
      ensures disk.Valid() && view.Keys == disk.pages.Keys
      ensures var f := frames[id];
        && f.pageId == id && f.page.id == id && f.page.Valid() && id in disk.pages && f.writable == !disk.readOnly
        && (f.page.dirty ==> f.writable) && view[id] == f.page.Content()
    {
      assert FrameOk(frames[id], id, disk.pages, disk.readOnly);
    }

    lemma CapacityHolds()
      requires CacheOk()
      ensures 1 <= capacity && |frames| <= capacity && disk.Valid() && view.Keys == disk.pages.Keys
    {
    }

    /** Frames, pages and buffers are all distinct. */
    lemma FramesDistinct()
      requires CacheOk()
      ensures forall i, j | i in frames && j in frames && i != j ::
        frames[i] != frames[j] && frames[i].page != frames[j].page && frames[i].page.bytes != frames[j].page.bytes
    {
      hide DiskOk;
      forall i, j | i in frames && j in frames && i != j ensures frames[i] != frames[j] && frames[i].page != frames[j].page {
        assert FrameOk(frames[i], i, disk.pages, disk.readOnly) && FrameOk(frames[j], j, disk.pages, disk.readOnly);
      }
    }

    /** The unpinned frame with the smallest stored tick, if any frame is unpinned. */
    method PickVictim() returns (v: Option<PageId>)
      ensures v.None? ==> forall j | j in frames :: frames[j].pinCount > 0
      ensures v.Some? ==> v.value in frames && frames[v.value].pinCount == 0
      ensures v.Some? ==>
        forall j | j in frames && frames[j].pinCount == 0 :: frames[v.value].lastUsed <= frames[j].lastUsed
    {
      v := None;
      var todo := frames.Keys;
      while todo != {}
        invariant todo <= frames.Keys
        invariant v.None? ==> forall j | j in frames && j !in todo :: frames[j].pinCount > 0
        invariant v.Some? ==> v.value in frames && frames[v.value].pinCount == 0
        invariant v.Some? ==> forall j | j in frames && j !in todo && frames[j].pinCount == 0 ::
            frames[v.value].lastUsed <= frames[j].lastUsed
        decreases todo
      {
        var id :| id in todo;
        todo := todo - {id};
        if frames[id].pinCount == 0 && (v.None? || frames[id].lastUsed < frames[v.value].lastUsed) {
          v := Some(id);
        }
      }
    }

    /** A frame with the smallest stored tick is the least recently used one, as far as the clock remembers. */
    lemma SmallestTickIsOldest(v: PageId)
      requires ClockOk() && PinsOk() && v in frames
      requires forall j | j in frames && frames[j].pinCount == 0 :: frames[v].lastUsed <= frames[j].lastUsed
      ensures v in times && LeastRecent(times, pins, wrappedAt, v)
    {
      forall j | j in times && pins[j] == 0 ensures times[v] <= times[j] || (times[v] <= wrappedAt && times[j] <= wrappedAt) {
        assert TickOk(frames[v], times[v], wrappedAt, now) && TickOk(frames[j], times[j], wrappedAt, now);
      }
    }

    /** The pool has room exactly when a frame is free or some cached page is unpinned. */
    lemma RoomIffFree()
      requires CacheOk() && PinsOk()
      ensures HasRoom(pins, capacity) <==> |frames| < capacity || AnyUnpinned(frames.Keys, pins)
    {
      hide FrameOk, DiskOk;
      var rest := frames.Keys - Pinned(pins);
      assert frames.Keys == Pinned(pins) + rest;
      if AnyUnpinned(frames.Keys, pins) {
        var id :| id in frames.Keys && pins[id] == 0;
        assert id in rest;
      }
      if rest != {} {
        var id :| id in rest;
        assert pins[id] == 0;
      }
    }

    /** Writes the victim back if it is dirty and drops its frame. */
    method Evict(victim: PageId)
      requires Valid() && victim in frames && frames[victim].pinCount == 0
      requires forall j | j in frames && frames[j].pinCount == 0 :: frames[victim].lastUsed <= frames[j].lastUsed
      modifies this`frames, this`times, disk`file, disk`pages, frames[victim].page`dirty
      ensures Valid() && frames == old(frames) - {victim} && |frames| == |old(frames)| - 1
      ensures victim in old(times) && times == old(times) - {victim} && LeastRecent(old(times), pins, wrappedAt, victim)
      ensures victim in view && disk.pages == old(disk.pages)[victim := view[victim]]
    {
      hide Owned, CacheOk, ClockOk, PinsOk, LeastRecent;
      PinCounts();
      SmallestTickIsOldest(victim);
      FlushFrame(victim);
      Forget(victim);
    }

    lemma TimesCover()
      requires ClockOk()
      ensures times.Keys == frames.Keys && |times| == |frames|
    {
      assert |times.Keys| == |times| && |frames.Keys| == |frames|;
    }

    lemma PinCounts()
      requires PinsOk()
      ensures forall id | id in frames :: frames[id].pinCount == pins[id]
      ensures forall id | id in pins :: id in frames
    {
    }

    /** Evicts the least recently used unpinned frame, if there is one. */
    method EvictOldest() returns (victim: Option<PageId>)
      requires Valid()
      modifies this`frames, this`times, disk`file, disk`pages, PageSet()`dirty
      ensures Valid()
      ensures victim.None? ==> frames == old(frames) && times == old(times) && !AnyUnpinned(frames.Keys, pins)
      ensures victim.None? ==> disk.pages == old(disk.pages)
      ensures victim.Some? ==> victim.value in view && disk.pages == old(disk.pages)[victim.value := view[victim.value]]
      ensures victim.Some? ==> AnyUnpinned(old(frames).Keys, pins)
      ensures victim.Some? ==> victim.value in old(frames) && pins[victim.value] == 0
      ensures victim.Some? ==> frames == old(frames) - {victim.value} && |frames| == |old(frames)| - 1
      ensures victim.Some? ==>
        victim.value in old(times) && times == old(times) - {victim.value} && LeastRecent(old(times), pins, wrappedAt, victim.value)
    {
      hide Owned, CacheOk, ClockOk, PinsOk, LeastRecent;
      PinCounts();
      victim := PickVictim();
      CacheKept();
      ClockKept();
      PinsKept();
      if victim.Some? {
        Evict(victim.value);
      }
    }

    /** Frees one frame when the pool is full. */
    method EnsureSpace() returns (r: Result<Unit, PoolError>)
      requires Valid()
      modifies this`frames, this`times, disk`file, disk`pages, PageSet()`dirty
      ensures Valid() && frames.Keys <= old(frames).Keys
      ensures r == if HasRoom(pins, capacity) then Ok(Unit) else Err(AllFramesPinned)
      ensures if r.Ok? then |frames| < capacity else frames == old(frames)
      ensures EvictedInOrder(old(times), times, pins, wrappedAt, capacity) && NotTouched(old(times), times)
      ensures forall id :: SurvivorsOf(old(frames), frames, id)
      ensures OnlyEvictedWritten(old(frames), frames, old(disk.pages), disk.pages)
    {
      hide OnlyEvictedWritten, Owned, CacheOk, ClockOk, PinsOk, HasRoom, Pinned, AnyUnpinned, DiskOk, LeastRecent, EvictedInOrder, NotTouched, SurvivorsOf;
      TimesCover();
      NoneEvicted(times, pins, wrappedAt, capacity);
      AllSurvive(frames);
      NothingWritten(frames, disk.pages);
      RoomIffFree();
      assert |frames| <= capacity by { CapacityHolds(); }
      if |frames| < capacity {
        return Ok(Unit);
      }
      var victim := EvictOldest();
      if victim.None? {
        return Err(AllFramesPinned);
      }
      OneEvicted(old(times), victim.value, pins, wrappedAt, capacity);
      VictimWritten(old(frames), old(disk.pages), victim.value, view[victim.value]);
      return Ok(Unit);
    }

    /** Drops a clean, unpinned frame from the cache; the disk has its bytes. */
    method Forget(id: PageId)
      requires Valid() && id in frames && !frames[id].page.dirty && frames[id].pinCount == 0
      modifies this`frames, this`times
      ensures Valid() && frames == old(frames) - {id} && |frames| == |old(frames)| - 1 && times == old(times) - {id}
    {
      hide Owned, CacheOk, CacheOkBut, ClockOk, PinsOk;
      PinCounts();
      OwnedWithout(frames, id, repr);
      var rest := frames - {id};
      ghost var size := |frames| - 1;
      assert |rest| == size by {
        MapWithout(frames, id);
      }
      frames, times := rest, times - {id};
      Forgotten(id);
    }

    /** Dropping a clean, unpinned frame keeps everything in order. */
    twostate lemma {:induction false} Forgotten(id: PageId)
      requires old(CacheOk() && ClockOk() && PinsOk()) && id in old(frames) && !old(frames)[id].page.dirty && old(pins)[id] == 0
      requires frames == old(frames) - {id} && times == old(times) - {id} && view == old(view) && pins == old(pins)
      requires clock == old(clock) && now == old(now) && wrappedAt == old(wrappedAt) && unchanged(disk)
      requires forall j | j in old(frames) ::
        unchanged(old(frames)[j]) && unchanged(old(frames)[j].page) && unchanged(old(frames)[j].page.bytes)
      ensures CacheOk() && ClockOk() && PinsOk()
    {
      hide CacheOk, ClockOk, PinsOk, CacheOkBut;
      ForgottenOk(id);
      NoneEdited();
      ClockForgot(id);
      PinsKept();
    }

    twostate lemma {:induction false} ForgottenOk(id: PageId)
      requires old(CacheOk()) && id in old(frames) && !old(frames)[id].page.dirty
      requires frames == old(frames) - {id} && view == old(view) && unchanged(disk)
      requires forall j | j in old(frames) :: unchanged(old(frames)[j].page) && unchanged(old(frames)[j].page.bytes)
      ensures CacheOkBut(None)
    {
      hide CacheOk, DiskOk, FrameOk, BuffersApart;
      CleanFrameIsStored(id);
      CacheShape();
      BuffersApartWithout(old(frames), id);
      FramesKept();
      MapWithout(old(frames), id);
    }

    twostate lemma CleanFrameIsStored(id: PageId)
      requires old(CacheOk()) && id in old(frames) && !old(frames)[id].page.dirty && unchanged(disk)
      requires unchanged(old(frames)[id].page) && unchanged(old(frames)[id].page.bytes)
      ensures id in old(view) && id in disk.pages && old(view)[id] == disk.pages[id]
    {
      OldFrameOk(id);
      hide DiskOk, BuffersApart;
    }

    /** Every remaining frame is an old one, with its page as it was. */
    twostate lemma {:induction false} FramesKept()
      requires old(CacheOk()) && view == old(view) && disk.pages == old(disk.pages)
      requires forall j | j in frames :: j in old(frames) && frames[j] == old(frames)[j]
      requires forall j | j in frames :: unchanged(frames[j].page) && unchanged(frames[j].page.bytes)
      ensures forall j | j in frames ::
        FrameOk(frames[j], j, disk.pages, disk.readOnly) && j in view && view[j] == frames[j].page.Content()
    {
      hide CacheOk, FrameOk;
      forall j | j in frames
        ensures FrameOk(frames[j], j, disk.pages, disk.readOnly)
        ensures frames[j].page.Valid() && j in view && view[j] == frames[j].page.Content()
      {
        OldFrameOk(j);
      }
    }

    method ResetTicks()
      modifies FrameSet()`lastUsed
      ensures forall id | id in frames :: frames[id].lastUsed == 0
    {
      forall id | id in frames {
        frames[id].lastUsed := 0;
      }
    }

    twostate lemma {:induction false} TickedOk()
      requires old(ClockOk()) && frames == old(frames) && now == old(now) + 1 && times == old(times)
      requires
        || (clock == old(clock) + 1 && wrappedAt == old(wrappedAt)
            && forall id | id in frames :: frames[id].lastUsed == old(frames[id].lastUsed))
        || (clock == 1 && wrappedAt == old(now) && forall id | id in frames :: frames[id].lastUsed == 0)
      ensures ClockOk()
    {
      forall id | id in frames ensures TickOk(frames[id], times[id], wrappedAt, now) {
        assert old(TickOk(frames[id], times[id], wrappedAt, now));
      }
    }

    /** Advances the clock; when it wraps, every stored tick restarts from zero. */
    method NextTick() returns (tick: u64)
      requires Valid()
      modifies this`clock, this`now, this`wrappedAt, FrameSet()`lastUsed
      ensures Valid() && tick == clock && clock >= 1 && now == old(now) + 1
      ensures wrappedAt == if old(clock) == U64_MAX then old(now) else old(wrappedAt)
    {
      hide Owned, CacheOk, PinsOk, ClockOk;
      now := now + 1;
      if clock == U64_MAX {
        ResetTicks();
        wrappedAt := now - 1;
        clock := 1;
      } else {
        clock := clock + 1;
      }
      assert CacheOk() by {
        CacheKept();
      }
      assert PinsOk() by {
        PinsKept();
      }
      TickedOk();
      return clock;
    }

    // ----- Bringing a page in -----

    twostate lemma {:induction false} AdoptedFramesOk(new f: Frame)
      requires old(CacheOk()) && f.pageId !in old(frames)
      requires frames == old(frames)[f.pageId := f] && view == old(view) && unchanged(disk)
      requires forall j | j in old(frames) :: unchanged(old(frames)[j].page) && unchanged(old(frames)[j].page.bytes)
      requires FrameOk(f, f.pageId, disk.pages, disk.readOnly) && !f.page.dirty
      ensures forall j | j in frames ::
        FrameOk(frames[j], j, disk.pages, disk.readOnly) && j in view && view[j] == frames[j].page.Content()
    {
      assert f.page.Valid() && f.pageId in disk.pages && f.page.Content() == disk.pages[f.pageId];
      CacheShape();
      hide DiskOk, FrameOk, CacheOk;
      forall j | j in frames
        ensures FrameOk(frames[j], j, disk.pages, disk.readOnly)
        ensures frames[j].page.Valid() && j in view && view[j] == frames[j].page.Content()
      {
        if j != f.pageId {
          OldFrameOk(j);
        }
      }
    }

    /** The part of the cache invariant that does not look into frames. */
    twostate lemma CacheShape()
      requires old(CacheOk())
      ensures UncachedOk(old(view), old(frames), old(disk.pages)) && BuffersApart(old(frames))
      ensures 1 <= capacity && old(|frames|) <= capacity && old(disk.Valid())
    {
    }

    /** One more frame, caching a page in a new buffer, clean and as on disk. */
    twostate lemma {:induction false} AdoptedCacheOk(new f: Frame)
      requires old(CacheOk()) && f.pageId !in old(frames) && old(|frames|) < capacity
      requires frames == old(frames)[f.pageId := f] && view == old(view) && unchanged(disk)
      requires forall j | j in old(frames) :: unchanged(old(frames)[j].page) && unchanged(old(frames)[j].page.bytes)
      requires FrameOk(f, f.pageId, disk.pages, disk.readOnly) && !f.page.dirty
      requires forall j | j in old(frames) :: f.page.bytes != old(frames)[j].page.bytes
      ensures CacheOkBut(None)
    {
      hide CacheOk, DiskOk, FrameOk, BuffersApart;
      CacheShape();
      AdoptedFramesOk(f);
      BuffersApartWith(old(frames), f.pageId, f);
    }

    lemma NoneEdited()
      requires CacheOkBut(None)
      ensures CacheOk()
    {
    }

    twostate lemma {:induction false} AdoptedClockOk(new f: Frame)
      requires old(ClockOk())
      requires clock == old(clock) && now == old(now) && wrappedAt == old(wrappedAt)
      requires frames == old(frames)[f.pageId := f] && times == old(times)[f.pageId := now] && TickOk(f, now, wrappedAt, now)
      requires forall j | j in old(frames) :: unchanged(old(frames)[j])
      ensures ClockOk()
    {
      forall j | j in frames ensures TickOk(frames[j], times[j], wrappedAt, now) {
        if j != f.pageId {
          assert old(TickOk(frames[j], times[j], wrappedAt, now));
        }
      }
    }

    twostate lemma {:induction false} AdoptedPinsOk(new f: Frame)
      requires old(PinsOk()) && f.pageId !in old(frames)
      requires frames == old(frames)[f.pageId := f] && pins == old(pins) + Copies(f.pageId, f.pinCount)
      requires forall j | j in old(frames) :: old(frames)[j].pinCount == old(frames[j].pinCount)
      ensures PinsOk()
    {
      assert old(pins)[f.pageId] == 0;
      forall j | j in frames ensures frames[j].pinCount == pins[j] {
        if j != f.pageId {
          assert old(frames[j].pinCount) == old(pins[j]);
        }
      }
    }

    /** One more frame, just touched, with so many pins, keeps everything in order. */
    twostate lemma {:induction false} Adopted(new f: Frame)
      requires old(CacheOk() && ClockOk() && PinsOk()) && f.pageId !in old(frames) && old(|frames|) < capacity
      requires frames == old(frames)[f.pageId := f] && times == old(times)[f.pageId := now]
      requires pins == old(pins) + Copies(f.pageId, f.pinCount) && view == old(view)
      requires clock == old(clock) && now == old(now) && wrappedAt == old(wrappedAt) && unchanged(disk)
      requires forall j | j in old(frames) ::
        unchanged(old(frames)[j]) && unchanged(old(frames)[j].page) && unchanged(old(frames)[j].page.bytes)
      requires FrameOk(f, f.pageId, disk.pages, disk.readOnly) && !f.page.dirty && f.lastUsed == clock >= 1
      requires forall j | j in old(frames) :: f.page.bytes != old(frames)[j].page.bytes
      ensures CacheOk() && ClockOk() && PinsOk()
    {
      assert old(now == wrappedAt + clock);
      hide CacheOk, CacheOkBut, ClockOk, PinsOk, FrameOk, Copies;
      AdoptedCacheOk(f);
      NoneEdited();
      AdoptedClockOk(f);
      AdoptedPinsOk(f);
    }

    /** Caches a freshly read or allocated page, pinned `count` times. */
    method Adopt(page: Page, count: u32)
      requires Valid() && |frames| < capacity && clock >= 1
      requires page.Valid() && !page.dirty && page.id !in frames && page.bytes !in repr
      requires page.id in disk.pages && page.Content() == disk.pages[page.id]
      modifies this`frames, this`pins, this`times, this`repr
      ensures Valid() && pins == old(pins) + Copies(page.id, count)
      ensures page.id in frames && frames == old(frames)[page.id := frames[page.id]]
      ensures fresh(frames[page.id]) && times == old(times)[page.id := now]
      ensures forall o | o in repr :: o in old(repr) || fresh(o) || o == page || o == page.bytes
    {
      hide Owned, CacheOk, CacheOkBut, ClockOk, PinsOk, DiskOk, Copies;
      OwnedBuffers(frames, repr);
      var frame := new Frame(page, count, clock, !disk.readOnly);
      OwnedWith(frames, page.id, frame, repr);
      frames, times := frames[page.id := frame], times[page.id := now];
      pins := pins + Copies(page.id, count);
      repr := repr + {frame, page, page.bytes};
      Adopted(frame);
    }

    /** Counts one more pin on a cached page and makes it the most recently used. */
    method Touch(id: PageId)
      requires Valid() && id in frames && frames[id].pinCount < U32_MAX && clock >= 1
      modifies frames[id], this`pins, this`times
      ensures Valid() && pins == old(pins) + Copies(id, 1) && times == old(times)[id := now]
    {
      hide Owned, CacheOk, ClockOk, PinsOk, BuffersApart;
      FramesDistinct();
      ClockNow();
      var frame := frames[id];
      frame.pinCount := frame.pinCount + 1;
      frame.lastUsed := clock;
      times := times[id := now];
      pins := pins + Copies(id, 1);
      CacheKept();
      TouchedClockOk(id);
      TouchedPinsOk(id);
    }

    lemma ClockNow()
      requires ClockOk()
      ensures now == wrappedAt + clock
    {
    }

    twostate lemma {:induction false} TouchedClockOk(id: PageId)
      requires old(ClockOk()) && frames == old(frames) && id in frames
      requires clock == old(clock) && now == old(now) && wrappedAt == old(wrappedAt)
      requires times == old(times)[id := now] && TickOk(frames[id], now, wrappedAt, now)
      requires forall j | j in frames && j != id :: unchanged(frames[j])
      ensures ClockOk()
    {
      forall j | j in frames ensures TickOk(frames[j], times[j], wrappedAt, now) {
        if j != id {
          assert old(TickOk(frames[j], times[j], wrappedAt, now));
        }
      }
    }

    twostate lemma {:induction false} TouchedPinsOk(id: PageId)
      requires old(PinsOk()) && frames == old(frames) && id in frames && pins == old(pins) + Copies(id, 1)
      requires frames[id].pinCount == old(frames[id].pinCount) + 1
      requires forall j | j in frames && j != id :: frames[j].pinCount == old(frames[j].pinCount)
      ensures PinsOk()
    {
      forall j | j in frames ensures frames[j].pinCount == pins[j] {
        assert old(frames[j].pinCount) == old(pins[j]);
      }
    }

    method ReadThrough(id: PageId) returns (r: Result<Page, DiskError>)
      requires Valid()
      ensures Valid()
      ensures r.Ok? <==> id in disk.pages
      ensures r.Ok? ==> fresh(r.value) && r.value.Valid() && fresh(r.value.bytes) && !r.value.dirty
      ensures r.Ok? ==> r.value.id == id && r.value.Content() == disk.pages[id]
      ensures r.Err? ==> r.error == if id == 0 then HeaderPageIsReserved else PageNotAllocated(id)
    {
      hide Owned, CacheOk, ClockOk, PinsOk;
      CapacityHolds();
      r := disk.ReadPage(id);
      CacheKept();
      ClockKept();
      PinsKept();
    }

    /** The miss path of a pin: makes room, reads the page, and caches it unpinned. */
    method Load(id: PageId) returns (r: Result<Unit, PoolError>)
      requires Valid() && id !in frames && clock >= 1
      modifies this`frames, this`pins, this`times, this`repr, disk`file, disk`pages, PageSet()`dirty
      ensures Valid() && pins == old(pins) && fresh(repr - old(repr))
      ensures r == if HasRoom(pins, capacity) && id in view then Ok(Unit) else Err(MissError(id, HasRoom(pins, capacity)))
      ensures r.Ok? ==> id in frames && fresh(frames[id]) && frames[id].pinCount == 0
      ensures SurvivorsOf(old(frames), frames, id)
      ensures EvictedInOrder(old(times), times, pins, wrappedAt, capacity) && TouchedOnly(old(times), times, id)
      ensures OnlyEvictedWritten(old(frames), frames, old(disk.pages), disk.pages)
    {
      hide OnlyEvictedWritten, Owned, CacheOk, CacheOkBut, ClockOk, PinsOk, HasRoom, DiskOk, FrameOk, TickOk, EvictedInOrder, NotTouched, TouchedOnly, SurvivorsOf, Copies;
      ghost var before := frames;
      CapacityHolds();
      PinCounts();
      var space := EnsureSpace();
      NotTouchedAtAll(old(times), times, id);
      if space.Err? {
        return Err(space.error);
      }
      CapacityHolds();
      var read := ReadThrough(id);
      if read.Err? {
        return Err(DiskFailure(read.error));
      }
      ghost var left := frames;
      EvictedStill(old(times), times, id, now, pins, wrappedAt, capacity);
      NoCopies(id);
      Adopt(read.value, 0);
      WrittenStill(before, left, old(disk.pages), disk.pages, id, frames[id]);
      SurvivorsWith(before, left, id, frames[id]);
      PinCounts();
      return Ok(Unit);
    }

    /** Makes sure the page is cached, without pinning it. */
    method Fetch(id: PageId) returns (r: Result<Unit, PoolError>)
      requires Valid() && clock >= 1
      modifies this`frames, this`pins, this`times, this`repr, disk`file, disk`pages, PageSet()`dirty
      ensures Valid() && pins == old(pins) && fresh(repr - old(repr))
      ensures r.Ok? <==> id in old(frames) || (HasRoom(pins, capacity) && id in view)
      ensures r.Err? ==> r.error == MissError(id, HasRoom(pins, capacity))
      ensures r.Ok? ==> id in frames && frames[id].pinCount == pins[id] && id in view
      ensures if id in old(frames) then frames == old(frames) else r.Ok? ==> fresh(frames[id])
      ensures SurvivorsOf(old(frames), frames, id)
      ensures EvictedInOrder(old(times), times, pins, wrappedAt, capacity) && TouchedOnly(old(times), times, id)
      ensures OnlyEvictedWritten(old(frames), frames, old(disk.pages), disk.pages)
    {
      hide OnlyEvictedWritten, Owned, CacheOk, ClockOk, PinsOk, HasRoom, EvictedInOrder, NotTouched, TouchedOnly;
      NothingWritten(frames, disk.pages);
      if id in frames {
        NoneEvicted(times, pins, wrappedAt, capacity);
        NotTouchedAtAll(times, times, id);
        FrameIsOk(id);
        PinCounts();
        return Ok(Unit);
      }
      r := Load(id);
      PinCounts();
    }

    lemma OwnedSets()
      requires Owned(frames, repr)
      ensures FrameSet() <= repr && PageSet() <= repr && ArraySet() <= repr
      ensures forall id | id in frames :: frames[id] in repr
    {
    }

    /** Pins a page: a hit touches its frame, a miss first brings it in. Only pins and recency change. */
    method Pin(id: PageId) returns (r: Result<PageGuard, PoolError>)
      requires Valid()
      modifies repr
      ensures Valid() && view == old(view) && disk.header == old(disk.header) && fresh(repr - old(repr))
      ensures var room, cached := HasRoom(old(pins), capacity), id in old(frames);
        && (r.Ok? <==> id in view && (cached || room) && old(pins)[id] < U32_MAX)
        && (r.Err? ==> r.error == if id in view && (cached || room) then PinCountExhausted(id) else MissError(id, room))
      ensures r.Ok? ==> id in frames && r.value.frame == frames[id]
      ensures pins == if r.Ok? then old(pins) + Copies(id, 1) else old(pins)
      ensures now == old(now) + 1 && (r.Ok? ==> id in times && times[id] == now)
      ensures SurvivorsOf(old(frames), frames, id) && TouchedOnly(old(times), times, id)
      ensures EvictedInOrder(old(times), times, old(pins), wrappedAt, capacity)
      ensures id in old(frames) ==> frames == old(frames)
      ensures OnlyEvictedWritten(old(frames), frames, old(disk.pages), disk.pages)
    {
      hide OnlyEvictedWritten, Owned, CacheOk, ClockOk, PinsOk, HasRoom, Copies, MissError, SurvivorsOf, EvictedInOrder, TouchedOnly;
      OwnedSets();
      var tick := NextTick();
      var fetched := Fetch(id);
      if fetched.Err? {
        return Err(fetched.error);
      }
      OwnedSets();
      if frames[id].pinCount == U32_MAX {
        return Err(PinCountExhausted(id));
      }
      EvictedStill(old(times), times, id, now, pins, wrappedAt, capacity);
      Touch(id);
      return Ok(PageGuard(frames[id]));
    }

    // ----- Growing the database -----

    /** The disk's header moved on and it may have gained pages; every page it had is as it was. */
    twostate lemma {:induction false} DiskGrownOk()
      requires old(CacheOk()) && frames == old(frames) && disk.Valid()
      requires forall id | id in frames :: unchanged(frames[id].page) && unchanged(frames[id].page.bytes)
      requires forall id | id in old(disk.pages) :: id in disk.pages && disk.pages[id] == old(disk.pages)[id]
      requires forall id | id in old(view) :: id in view && view[id] == old(view)[id]
      requires UncachedOk(view, frames, disk.pages)
      ensures CacheOkBut(None)
    {
      hide CacheOk, DiskOk, FrameOk, BuffersApart;
      CacheShape();
      forall j | j in frames
        ensures FrameOk(frames[j], j, disk.pages, disk.readOnly)
        ensures frames[j].page.Valid() && j in view && view[j] == frames[j].page.Content()
      {
        StoredMoreFrameOk(j);
      }
    }

    twostate lemma StoredMoreFrameOk(j: PageId)
      requires old(CacheOk()) && j in old(frames)
      requires unchanged(old(frames)[j].page) && unchanged(old(frames)[j].page.bytes)
      requires forall id | id in old(disk.pages) :: id in disk.pages && disk.pages[id] == old(disk.pages)[id]
      ensures var f := old(frames)[j];
        FrameOk(f, j, disk.pages, disk.readOnly) && f.page.Valid() && j in old(view) && old(view)[j] == f.page.Content()
    {
      hide DiskOk;
      assert old(FrameOk(frames[j], j, disk.pages, disk.readOnly)) && old(view[j] == frames[j].page.Content());
    }

    /** Takes a new zeroed page from the disk; nothing cached changes. */
    method ExtendDisk() returns (r: Result<Page, PoolError>)
      requires Valid() && !disk.readOnly
      modifies disk, this`view
      ensures Valid() && disk.header.catalogRoot == old(disk.header.catalogRoot)
      ensures r.Ok? <==> old(disk.header.nextPageId) < U32_MAX
      ensures r.Err? ==> r.error == DiskFailure(PageIdExhausted)
      ensures r.Err? ==> view == old(view) && disk.header == old(disk.header)
      ensures r.Ok? ==> fresh(r.value) && r.value.Valid() && fresh(r.value.bytes) && !r.value.dirty
      ensures r.Ok? ==> r.value.id == old(disk.header.nextPageId) && disk.header.nextPageId == old(disk.header.nextPageId) + 1
      ensures r.Ok? ==> r.value.id !in frames && r.value.id in disk.pages
      ensures r.Ok? ==> r.value.Content() == Zeros(PAGE_SIZE) == disk.pages[r.value.id]
      ensures r.Ok? ==> view == old(view)[r.value.id := Zeros(PAGE_SIZE)]
      ensures forall j | j in old(disk.pages) :: j in disk.pages && disk.pages[j] == old(disk.pages)[j]
    {
      hide Owned, CacheOk, CacheOkBut, ClockOk, PinsOk, DiskOk, FrameOk, TickOk;
      NextIsNew();
      var page := disk.AllocatePage();
      if page.Ok? {
        view := view[page.value.id := Zeros(PAGE_SIZE)];
      }
      DiskGrownOk();
      NoneEdited();
      ClockKept();
      PinsKept();
      if page.Err? {
        return Err(DiskFailure(page.error));
      }
      return Ok(page.value);
    }

    lemma NextIsNew()
      requires CacheOk()
      ensures disk.Valid() && disk.header.nextPageId !in disk.pages && disk.header.nextPageId !in frames
      ensures UncachedOk(view, frames, disk.pages)
    {
      hide DecodeHeader, PageInFile;
      if disk.header.nextPageId in frames {
        FrameIsOk(disk.header.nextPageId);
        assert false;
      }
    }

    lemma NextIsUnallocated()
      requires CacheOk()
      ensures disk.header.nextPageId !in disk.pages
    {
      hide CacheOk;
      NextIsNew();
    }

    /** Allocation once there is room: extends the disk and caches the new page, pinned once. */
    method AllocateInRoom(ghost cached: map<PageId, Frame>, ghost stored: PageMap) returns (r: Result<PageGuard, PoolError>)
      requires Valid() && !disk.readOnly && |frames| < capacity
      requires OnlyEvictedWritten(cached, frames, stored, disk.pages) && disk.header.nextPageId !in stored
      modifies this, disk, FrameSet()`lastUsed
      ensures Valid() && fresh(repr - old(repr)) && disk.header.catalogRoot == old(disk.header.catalogRoot)
      ensures r.Ok? <==> old(disk.header.nextPageId) < U32_MAX
      ensures r.Err? ==> r.error == DiskFailure(PageIdExhausted)
      ensures r.Err? ==> view == old(view) && pins == old(pins) && disk.header == old(disk.header)
      ensures r.Ok? ==> disk.header.nextPageId == old(disk.header.nextPageId) + 1
      ensures r.Ok? ==> var id := old(disk.header.nextPageId);
        && view == old(view)[id := Zeros(PAGE_SIZE)] && pins == old(pins) + Copies(id, 1)
        && id in frames && r.value.frame == frames[id] && times == old(times)[id := now]
      ensures r.Err? ==> times == old(times)
      ensures OnlyEvictedWritten(cached, frames, stored, disk.pages)
    {
      hide Owned, CacheOk, CacheOkBut, ClockOk, PinsOk, Copies, OnlyEvictedWritten, DiskOk, FrameOk, TickOk, UncachedOk, BuffersApart;
      var page := ExtendDisk();
      WrittenOnGrowing(cached, frames, stored, old(disk.pages), disk.pages);
      if page.Err? {
        return Err(page.error);
      }
      var tick := NextTick();
      ghost var left := frames;
      Adopt(page.value, 1);
      WrittenStill(cached, left, stored, disk.pages, page.value.id, frames[page.value.id]);
      return Ok(PageGuard(frames[page.value.id]));
    }

    /** Allocates a zeroed page and returns it cached and pinned once. */
    method AllocatePage() returns (r: Result<PageGuard, PoolError>)
      requires Valid()
      modifies repr
      ensures Valid() && fresh(repr - old(repr)) && disk.header.catalogRoot == old(disk.header.catalogRoot)
      ensures r.Ok? <==> !disk.readOnly && HasRoom(old(pins), capacity) && old(disk.header.nextPageId) < U32_MAX
      ensures r.Err? ==> view == old(view) && pins == old(pins) && disk.header == old(disk.header)
      ensures r.Err? ==> r.error == if disk.readOnly then ReadOnlyPool
        else if HasRoom(old(pins), capacity) then DiskFailure(PageIdExhausted) else AllFramesPinned
      ensures r.Ok? ==> disk.header.nextPageId == old(disk.header.nextPageId) + 1
      ensures r.Ok? ==> var id := old(disk.header.nextPageId);
        && view == old(view)[id := Zeros(PAGE_SIZE)] && pins == old(pins) + Copies(id, 1)
        && id in frames && r.value.frame == frames[id] && id in times && times[id] == now
      ensures TouchedOnly(old(times), times, old(disk.header.nextPageId))
      ensures EvictedInOrder(old(times), times, old(pins), old(wrappedAt), capacity)
      ensures OnlyEvictedWritten(old(frames), frames, old(disk.pages), disk.pages)
    {
      hide OnlyEvictedWritten, Owned, CacheOk, CacheOkBut, ClockOk, PinsOk, HasRoom, Copies, DiskOk, FrameOk, TickOk, UncachedOk, BuffersApart, Pinned, EvictedInOrder,
        TouchedOnly, NotTouched, LeastRecent;
      NoneEvicted(times, pins, wrappedAt, capacity);
      NotTouchedAtAll(times, times, disk.header.nextPageId);
      NothingWritten(frames, disk.pages);
      NextIsUnallocated();
      if disk.readOnly {
        return Err(ReadOnlyPool);
      }
      OwnedSets();
      var space := EnsureSpace();
      NotTouchedAtAll(old(times), times, disk.header.nextPageId);
      if space.Err? {
        return Err(space.error);
      }
      OwnedSets();
      ghost var left, id := times, disk.header.nextPageId;
      r := AllocateInRoom(old(frames), old(disk.pages));
      EvictedStill(old(times), left, id, now, old(pins), old(wrappedAt), capacity);
    }

    // ----- Guards -----

    /** Dropping a guard takes back its pin. */
    method Release(guard: PageGuard)
      requires Valid() && guard.frame.pageId in frames && frames[guard.frame.pageId] == guard.frame
      requires guard.frame.pageId in pins
      modifies guard.frame`pinCount, this`pins
      ensures Valid() && pins == old(pins) - Copies(guard.frame.pageId, 1)
    {
      hide Owned, CacheOk, ClockOk, PinsOk, BuffersApart;
      FramesDistinct();
      PinCounts();
      var frame := guard.frame;
      frame.pinCount := SaturatingPred(frame.pinCount);
      pins := pins - Copies(frame.pageId, 1);
      assert CacheOk() by {
        CacheKept();
      }
      assert ClockOk() by {
        ClockKept();
      }
      ReleasedPinsOk(frame.pageId);
    }

    twostate lemma {:induction false} ReleasedPinsOk(id: PageId)
      requires old(PinsOk()) && frames == old(frames) && id in frames && id in old(pins)
      requires pins == old(pins) - Copies(id, 1)
      requires frames[id].pinCount == old(frames[id].pinCount) - 1
      requires forall j | j in frames && j != id :: frames[j].pinCount == old(frames[j].pinCount)
      ensures PinsOk()
    {
      forall j | j in frames ensures frames[j].pinCount == pins[j] {
        assert old(frames[j].pinCount) == old(pins[j]);
      }
    }

    /** After edits to the page of one frame, everything but the view of that page is in order. */
    twostate lemma {:induction false} EditKept(id: PageId)
      requires old(Valid()) && id in frames && unchanged(this) && unchanged(disk) && frames[id].writable
      requires forall j | j in frames :: unchanged(frames[j])
      requires forall j | j in frames && j != id :: unchanged(frames[j].page) && unchanged(frames[j].page.bytes)
      requires frames[id].page.Valid()
      requires frames[id].page.dirty ||
        (!old(frames[id].page.dirty) && frames[id].page.Content() == old(frames[id].page.Content()))
      ensures CacheOkBut(Some(id)) && ClockOk() && PinsOk()
    {
      hide Owned, CacheOk, ClockOk, PinsOk, DiskOk, BuffersApart;
      CacheShape();
      ClockKept();
      PinsKept();
      assert old(FrameOk(frames[id], id, disk.pages, disk.readOnly)) by {
        FrameWasOk(id);
      }
      forall j | j in frames
        ensures FrameOk(frames[j], j, disk.pages, disk.readOnly)
        ensures j != id ==> j in view && view[j] == frames[j].page.Content()
      {
        if j != id {
          OldFrameOk(j);
        }
      }
    }

    /** An edit of one page through its guard, seen from the objects the pool owns. */
    twostate lemma {:induction false} Edited(id: PageId)
      requires old(Valid()) && id in old(frames) && !disk.readOnly
      requires forall o | o in old(repr) && o != old(frames)[id].page && o != old(frames)[id].page.bytes :: unchanged(o)
      requires old(frames)[id].page.dirty ||
        (!old(frames[id].page.dirty) && old(frames)[id].page.bytes[..] == old(frames[id].page.bytes[..]))
      ensures unchanged(this) && frames[id].page.Valid()
      ensures Owned(frames, repr) && CacheOkBut(Some(id)) && ClockOk() && PinsOk()
    {
      hide Owned, CacheOk, CacheOkBut, ClockOk, PinsOk, DiskOk, BuffersApart;
      EditSetting(id);
      EditKept(id);
    }

    twostate lemma EditSetting(id: PageId)
      requires old(Valid()) && id in old(frames)
      requires forall o | o in old(repr) && o != old(frames)[id].page && o != old(frames)[id].page.bytes :: unchanged(o)
      ensures unchanged(this) && unchanged(disk) && frames[id].page.Valid() && frames[id].writable == !disk.readOnly
      ensures forall j | j in frames :: unchanged(frames[j])
      ensures forall j | j in frames && j != id :: unchanged(frames[j].page) && unchanged(frames[j].page.bytes)
    {
      hide CacheOk, ClockOk, PinsOk;
      OthersUnchanged(id);
      FrameWasOk(id);
    }

    twostate lemma OthersUnchanged(id: PageId)
      requires old(Owned(frames, repr) && CacheOk()) && {this, disk} <= old(repr) && id in old(frames)
      requires forall o | o in old(repr) && o != old(frames)[id].page && o != old(frames)[id].page.bytes :: unchanged(o)
      ensures unchanged(this) && unchanged(disk)
      ensures forall j | j in old(frames) :: unchanged(old(frames)[j])
      ensures forall j | j in old(frames) && j != id :: unchanged(old(frames)[j].page) && unchanged(old(frames)[j].page.bytes)
    {
      FramesWereDistinct();
      hide CacheOk;
    }

    twostate lemma FramesWereDistinct()
      requires old(CacheOk())
      ensures forall i, j | i in old(frames) && j in old(frames) && i != j ::
        old(frames)[i] != old(frames)[j] && old(frames)[i].page != old(frames)[j].page && old(frames)[i].page.bytes != old(frames)[j].page.bytes
    {
      forall i, j | i in old(frames) && j in old(frames) && i != j
        ensures old(frames)[i] != old(frames)[j] && old(frames)[i].page != old(frames)[j].page
        ensures old(frames)[i].page.bytes != old(frames)[j].page.bytes
      {
        assert old(FrameOk(frames[i], i, disk.pages, disk.readOnly)) && old(FrameOk(frames[j], j, disk.pages, disk.readOnly));
      }
    }

    twostate lemma FrameWasOk(id: PageId)
      requires old(CacheOk()) && id in old(frames)
      ensures old(FrameOk(frames[id], id, disk.pages, disk.readOnly))
    {
    }

    lemma EditedFrame(id: PageId)
      requires CacheOkBut(Some(id)) && id in frames
      ensures frames[id].page.Valid() && id in view && disk.Valid()
      ensures UncachedOk(view[id := frames[id].page.Content()], frames, disk.pages)
    {
      hide DiskOk;
      assert FrameOk(frames[id], id, disk.pages, disk.readOnly);
    }

    twostate lemma {:induction false} PublishedCacheOk(id: PageId)
      requires old(CacheOkBut(Some(id))) && frames == old(frames) && id in frames && unchanged(disk)
      requires forall j | j in frames :: unchanged(frames[j].page) && unchanged(frames[j].page.bytes)
      requires frames[id].page.Valid() && view == old(view)[id := frames[id].page.Content()]
      requires UncachedOk(view, frames, disk.pages)
      ensures CacheOk()
    {
      hide DiskOk, BuffersApart;
      forall j | j in frames ensures FrameOk(frames[j], j, disk.pages, disk.readOnly) {
        assert old(FrameOk(frames[j], j, disk.pages, disk.readOnly));
      }
    }

    /** Makes the edits of a page visible: the view changes at that page and nowhere else. */
    ghost method Publish(id: PageId)
      requires this in repr && disk in repr && Owned(frames, repr) && id in frames
      requires CacheOkBut(Some(id)) && ClockOk() && PinsOk()
      modifies this`view
      ensures frames[id].page.Valid()
      ensures Valid() && view == old(view)[id := frames[id].page.Content()]
    {
      hide Owned, ClockOk, PinsOk, CacheOkBut, CacheOk;
      EditedFrame(id);
      view := view[id := frames[id].page.Content()];
      PublishedCacheOk(id);
      PublishedKept();
    }

    /** Ends an edit: the changed page becomes visible and its guard is dropped. */
    method EndEdit(guard: PageGuard)
      requires this in repr && disk in repr && Owned(frames, repr) && guard.frame.pageId in frames
      requires CacheOkBut(Some(guard.frame.pageId)) && ClockOk() && PinsOk()
      requires frames[guard.frame.pageId] == guard.frame && guard.frame.pageId in pins
      modifies guard.frame`pinCount, this`pins, this`view
      ensures Valid() && guard.frame.page.Valid() && pins == old(pins) - Copies(guard.frame.pageId, 1)
      ensures view == old(view)[guard.frame.pageId := old(guard.frame.page.Content())]
    {
      hide Owned, ClockOk, PinsOk, CacheOkBut, CacheOk;
      Publish(guard.frame.pageId);
      Release(guard);
    }

    twostate lemma PublishedKept()
      requires old(ClockOk() && PinsOk()) && frames == old(frames) && pins == old(pins)
      requires clock == old(clock) && now == old(now) && wrappedAt == old(wrappedAt) && times == old(times)
      requires forall j | j in frames :: unchanged(frames[j])
      ensures ClockOk() && PinsOk()
    {
      ClockKept();
      PinsKept();
    }

    // ----- Write-back on request -----

    method FlushPage(id: PageId) returns (r: Result<Unit, PoolError>)
      requires Valid()
      modifies disk`file, disk`pages, PageSet()`dirty
      ensures Valid() && r == if id in frames then Ok(Unit) else Err(PageNotCached(id))
      ensures r.Ok? ==> !frames[id].page.dirty && id in view && disk.pages == old(disk.pages)[id := view[id]]
      ensures r.Err? ==> disk.pages == old(disk.pages)
    {
      hide Owned, CacheOk, ClockOk, PinsOk;
      if id !in frames {
        return Err(PageNotCached(id));
      }
      FlushFrame(id);
      return Ok(Unit);
    }

    lemma CleanPageIsStored(id: PageId)
      requires CacheOk() && id in frames
      ensures id in view && id in disk.pages && (!frames[id].page.dirty ==> disk.pages[id] == view[id])
    {
      hide DiskOk;
      assert FrameOk(frames[id], id, disk.pages, disk.readOnly);
    }

    /** Writes every dirty page back; afterwards the disk itself is what clients see. */
    method FlushAll()
      requires Valid()
      modifies disk`file, disk`pages, PageSet()`dirty
      ensures Valid() && disk.pages == view
    {
      hide Owned, CacheOk, ClockOk, PinsOk;
      var todo := frames.Keys;
      while todo != {}
        invariant Valid() && todo <= frames.Keys
        invariant forall j | j in frames && j !in todo :: !frames[j].page.dirty
        decreases todo
      {
        var id :| id in todo;
        FlushFrame(id);
        todo := todo - {id};
      }
      CleanIsStored();
    }

    lemma CleanIsStored()
      requires CacheOk() && forall j | j in frames :: !frames[j].page.dirty
      ensures disk.pages == view
    {
      hide DiskOk;
      forall j | j in view ensures view[j] == disk.pages[j] {
        if j in frames {
          assert FrameOk(frames[j], j, disk.pages, disk.readOnly);
        }
      }
    }

    /** Flushes and hands the disk back; the file now holds exactly what clients saw. */
    method Close() returns (d: DiskManager)
      requires Valid()
      modifies disk`file, disk`pages, PageSet()`dirty
      ensures d == disk && disk.Valid() && disk.pages == view
    {
      FlushAll();
      d := disk;
    }

    method SetCatalogRoot(id: PageId) returns (r: Result<Unit, PoolError>)
      requires Valid()
      modifies disk`file, disk`header
      ensures Valid() && disk.header.nextPageId == old(disk.header.nextPageId)
      ensures r.Ok? <==> !disk.readOnly && id in view && old(disk.header.catalogRoot).None?
      ensures disk.header.catalogRoot == if r.Ok? then Some(id) else old(disk.header.catalogRoot)
      ensures disk.readOnly <==> r == Err(DiskFailure(ReadOnlyDatabase))
      ensures !disk.readOnly && id == 0 <==> r == Err(DiskFailure(HeaderPageIsReserved))
      ensures !disk.readOnly && id != 0 && id !in view <==> r == Err(DiskFailure(PageNotAllocated(id)))
      ensures r.Err? && !disk.readOnly && id in view ==>
        old(disk.header.catalogRoot).Some? && r.error == DiskFailure(CatalogRootAlreadySet(old(disk.header.catalogRoot).value))
    {
      hide Owned, CacheOk, CacheOkBut, ClockOk, PinsOk, HeaderStandsIn, HeaderPadded, RootAllocated;
      NextIsNew();
      AllocatedIds();
      var s := disk.SetCatalogRoot(id);
      DiskGrownOk();
      NoneEdited();
      ClockKept();
      PinsKept();
      return if s.Ok? then Ok(Unit) else Err(DiskFailure(s.error));
    }

    /** The pages that clients see are those from the first data page up to the high-water mark. */
    lemma AllocatedIds()
      requires CacheOk()
      ensures disk.header.nextPageId >= FIRST_DATA_PAGE_ID
      ensures forall id :: id in view <==> FIRST_DATA_PAGE_ID <= id < disk.header.nextPageId
    {
      hide DecodeHeader, PageInFile;
    }
  }

  function SaturatingPred(n: u32): u32 {
    if n > 0 then n - 1 else 0
  }

  /** Why a page that is not cached cannot be pinned. */
  function MissError(id: PageId, room: bool): PoolError {
    if !room then AllFramesPinned
    else DiskFailure(if id == 0 then HeaderPageIsReserved else PageNotAllocated(id))
  }

  lemma OwnedBuffers(frames: map<PageId, Frame>, repr: set<object>)
    requires Owned(frames, repr)
    ensures forall j | j in frames :: frames[j].page.bytes in repr
  {
  }

  lemma NoCopies(id: PageId)
    ensures Copies(id, 0) == multiset{}
  {
  }

  /** `n` guards on one page. */
  ghost function Copies(id: PageId, n: nat): multiset<PageId> {
    multiset{}[id := n]
  }
}
