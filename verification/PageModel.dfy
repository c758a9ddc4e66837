/**
 * What a slotted page means, with its byte layout forgotten: a list of slots, each free, live or
 * retired, and a link to the next page. Insertion and deletion are given here as functions on that
 * meaning; SlottedPage.dfy proves that the in-place byte operations compute exactly these.
 */
module PageModel {
  import opened Wrappers
  import opened Bytes
  import opened Pages

  const SLOT_ENTRY_SIZE := 8

  datatype SlotState =
    | Free(generation: u16)
    | Live(generation: u16, record: seq<byte>)
    | Retired(generation: u16)

  datatype PageState = PageState(slots: seq<SlotState>, next: Option<PageId>)

  /** A row address inside one page. */
  datatype SlotRef = SlotRef(slot: nat, generation: u16)

  datatype SlottedPageError =
    | PageAccess(page: PageError)
    | Corrupt(reason: string)
    | RecordTooLarge(size: nat)
    | NoSpace(required: nat, available: nat)
    | InvalidRid(rid: Rid)
    | ReadOnly

  const EmptyPage := PageState([], None)

  const SlackUnderflow := Corrupt("page metadata and live records exceed page size")

  function Weight(s: SlotState): nat {
    if s.Live? then |s.record| else 0
  }

  /** The total length of the live records among the first `n` slots. */
  function LiveUpTo(slots: seq<SlotState>, n: nat): nat
    requires n <= |slots|
  {
    if n == 0 then 0 else LiveUpTo(slots, n - 1) + Weight(slots[n - 1])
  }

  function LiveBytes(slots: seq<SlotState>): nat {
    LiveUpTo(slots, |slots|)
  }

  /** The bytes that neither the header, nor the slot directory, nor a live record needs. */
  function Slack(slots: seq<SlotState>): int {
    PAGE_SIZE - PAGE_HEADER_SIZE - SLOT_ENTRY_SIZE * |slots| - LiveBytes(slots)
  }

  /**
   * What holds of every page the engine builds. Validation alone does not ask that a free slot have
   * a generation; see PageTheorems.ReuseBreaksValidation for what goes wrong without it.
   */
  ghost predicate PageInv(st: PageState) {
    && Slack(st.slots) >= 0
    && (forall k | 0 <= k < |st.slots| :: !st.slots[k].Retired? ==> st.slots[k].generation >= 1)
    && (st.next.Some? ==> st.next.value != U32_MAX)
  }

  function FirstFree(slots: seq<SlotState>, from: nat := 0): (r: Option<nat>)
    requires from <= |slots|
    ensures r.Some? ==> from <= r.value < |slots| && slots[r.value].Free?
    ensures r.Some? ==> forall j | from <= j < r.value :: !slots[j].Free?
    ensures r.None? ==> forall j | from <= j < |slots| :: !slots[j].Free?
    decreases |slots| - from
  {
    if from == |slots| then None
    else if slots[from].Free? then Some(from)
    else FirstFree(slots, from + 1)
  }

  /** Where a record goes, or why it cannot. */
  function InsertResult(slots: seq<SlotState>, record: seq<byte>): (r: Result<SlotRef, SlottedPageError>) {
    if |record| > U16_MAX then Err(RecordTooLarge(|record|))
    else
      match FirstFree(slots)
      case Some(k) =>
        if |record| <= Slack(slots) then Ok(SlotRef(k, slots[k].generation))
        else Err(NoSpace(|record|, if Slack(slots) >= 0 then Slack(slots) else 0))
      case None =>
        if Slack(slots) < SLOT_ENTRY_SIZE then Err(SlackUnderflow)
        else if |record| + SLOT_ENTRY_SIZE <= Slack(slots) then Ok(SlotRef(|slots|, 1))
        else Err(NoSpace(|record| + SLOT_ENTRY_SIZE, Slack(slots)))
  }

  function Store(st: PageState, at: SlotRef, record: seq<byte>): PageState
    requires at.slot <= |st.slots|
  {
    var live := Live(at.generation, record);
    st.(slots := if at.slot < |st.slots| then st.slots[at.slot := live] else st.slots + [live])
  }

  function Insert(st: PageState, record: seq<byte>): PageState {
    var r := InsertResult(st.slots, record);
    if r.Ok? then Store(st, r.value, record) else st
  }

  predicate Resolves(st: PageState, at: SlotRef) {
    at.slot < |st.slots| && st.slots[at.slot].Live? && st.slots[at.slot].generation == at.generation
  }

  /** The slot a deleted row leaves behind: one generation on, or retired when generations ran out. */
  function Vacated(generation: u16): SlotState {
    if generation < U16_MAX then Free(generation + 1) else Retired(generation)
  }

  function Delete(st: PageState, at: SlotRef): PageState {
    if Resolves(st, at) then st.(slots := st.slots[at.slot := Vacated(at.generation)]) else st
  }

  /** The rows of the first `n` slots: every live address with its bytes. */
  function RowsUpTo(st: PageState, n: nat): (rows: map<SlotRef, seq<byte>>)
    requires n <= |st.slots|
    ensures forall at :: at in rows <==> at.slot < n && Resolves(st, at)
    ensures forall at | at in rows :: Resolves(st, at) && rows[at] == st.slots[at.slot].record
  {
    if n == 0 then map[]
    else
      var s := st.slots[n - 1];
      if s.Live? then RowsUpTo(st, n - 1)[SlotRef(n - 1, s.generation) := s.record] else RowsUpTo(st, n - 1)
  }

  /** The rows of a page. */
  function Rows(st: PageState): (rows: map<SlotRef, seq<byte>>)
    ensures forall at :: at in rows <==> Resolves(st, at)
    ensures forall at | at in rows :: Resolves(st, at) && rows[at] == st.slots[at.slot].record
  {
    RowsUpTo(st, |st.slots|)
  }

  lemma {:induction false} LiveUpToFrame(a: seq<SlotState>, b: seq<SlotState>, n: nat)
    requires n <= |a| && n <= |b| && forall i | 0 <= i < n :: a[i] == b[i]
    ensures LiveUpTo(a, n) == LiveUpTo(b, n)
  {
    if n > 0 {
      LiveUpToFrame(a, b, n - 1);
    }
  }

  lemma LiveBytesAppend(slots: seq<SlotState>, s: SlotState)
    ensures LiveBytes(slots + [s]) == LiveBytes(slots) + Weight(s)
  {
    LiveUpToFrame(slots + [s], slots, |slots|);
  }

  lemma {:induction false} LiveUpToUpdate(slots: seq<SlotState>, k: nat, s: SlotState, n: nat)
    requires k < n <= |slots|
    ensures LiveUpTo(slots[k := s], n) == LiveUpTo(slots, n) - Weight(slots[k]) + Weight(s)
  {
    if k < n - 1 {
      LiveUpToUpdate(slots, k, s, n - 1);
    } else {
      LiveUpToFrame(slots[k := s], slots, n - 1);
    }
  }

  lemma LiveBytesUpdate(slots: seq<SlotState>, k: nat, s: SlotState)
    requires k < |slots|
    ensures LiveBytes(slots[k := s]) == LiveBytes(slots) - Weight(slots[k]) + Weight(s)
  {
    LiveUpToUpdate(slots, k, s, |slots|);
  }

  lemma {:induction false} LiveUpToGrows(slots: seq<SlotState>, k: nat, n: nat)
    requires k <= n <= |slots|
    ensures LiveUpTo(slots, k) <= LiveUpTo(slots, n)
  {
    if k < n {
      LiveUpToGrows(slots, k, n - 1);
    }
  }

  lemma StoreRows(st: PageState, at: SlotRef, record: seq<byte>)
    requires at.slot <= |st.slots|
    requires at.slot < |st.slots| ==> !st.slots[at.slot].Live?
    ensures !Resolves(st, at) && Rows(Store(st, at, record)) == Rows(st)[at := record]
  {
    var after := Store(st, at, record);
    var rows, expected := Rows(after), Rows(st)[at := record];
    forall a ensures a in rows <==> a in expected {
      assert Resolves(after, a) <==> a == at || Resolves(st, a);
    }
  }

  /** Insertion keeps the invariant, stores exactly one new row, and spends exactly the space it claims. */
  lemma InsertAddsOneRow(st: PageState, record: seq<byte>)
    requires PageInv(st)
    ensures PageInv(Insert(st, record))
    ensures Insert(st, record).next == st.next
    ensures var r := InsertResult(st.slots, record);
      if r.Err? then Insert(st, record) == st
      else
        && !Resolves(st, r.value)
        && Rows(Insert(st, record)) == Rows(st)[r.value := record]
        && Slack(Insert(st, record).slots) ==
           Slack(st.slots) - |record| - (if FirstFree(st.slots).None? then SLOT_ENTRY_SIZE else 0)
  {
    var r := InsertResult(st.slots, record);
    if r.Ok? {
      StoreRows(st, r.value, record);
      if FirstFree(st.slots).Some? {
        LiveBytesUpdate(st.slots, r.value.slot, Live(r.value.generation, record));
      } else {
        LiveBytesAppend(st.slots, Live(r.value.generation, record));
      }
    }
  }

  /** Deletion keeps the invariant, removes exactly the named row, and gives back exactly its bytes. */
  lemma DeleteRemovesOneRow(st: PageState, at: SlotRef)
    requires PageInv(st) && Resolves(st, at)
    ensures PageInv(Delete(st, at))
    ensures Rows(Delete(st, at)) == Rows(st) - {at}
    ensures Slack(Delete(st, at).slots) == Slack(st.slots) + |Rows(st)[at]|
    ensures Delete(st, at).next == st.next
  {
    LiveBytesUpdate(st.slots, at.slot, Vacated(at.generation));
    var rows, expected := Rows(Delete(st, at)), Rows(st) - {at};
    assert forall a :: a in rows <==> a in expected;
    assert rows == expected;
  }

  // ----- Listing the live rows -----

  /** The live addresses among the first `n` slots, in slot order. */
  function LiveRefs(slots: seq<SlotState>, n: nat): (refs: seq<SlotRef>)
    requires n <= |slots|
    ensures forall i | 0 <= i < |refs| :: refs[i].slot < n
  {
    if n == 0 then []
    else LiveRefs(slots, n - 1) + if slots[n - 1].Live? then [SlotRef(n - 1, slots[n - 1].generation)] else []
  }

  predicate InSlotOrder(refs: seq<SlotRef>) {
    forall i, j | 0 <= i < j < |refs| :: refs[i].slot < refs[j].slot
  }

  /** The listing is complete, sound, and strictly increasing by slot. */
  lemma {:induction false} LiveRefsExact(st: PageState, n: nat)
    requires n <= |st.slots|
    ensures forall at :: at in LiveRefs(st.slots, n) <==> at.slot < n && Resolves(st, at)
    ensures InSlotOrder(LiveRefs(st.slots, n))
  {
    if n > 0 {
      LiveRefsExact(st, n - 1);
    }
  }

  // ----- No address is issued twice -----

  datatype PageOp = InsertOp(record: seq<byte>) | DeleteOp(at: SlotRef)

  function Step(st: PageState, op: PageOp): PageState {
    match op
    case InsertOp(record) => Insert(st, record)
    case DeleteOp(at) => Delete(st, at)
  }

  /** The addresses that one operation hands out: one for a successful insertion, otherwise none. */
  function Issues(st: PageState, op: PageOp): seq<SlotRef> {
    if op.InsertOp? && InsertResult(st.slots, op.record).Ok?
    then [InsertResult(st.slots, op.record).value] else []
  }

  function Run(st: PageState, ops: seq<PageOp>): PageState
    decreases |ops|
  {
    if ops == [] then st else Run(Step(st, ops[0]), ops[1..])
  }

  function IssuedBy(st: PageState, ops: seq<PageOp>): seq<SlotRef>
    decreases |ops|
  {
    if ops == [] then [] else Issues(st, ops[0]) + IssuedBy(Step(st, ops[0]), ops[1..])
  }

  /** The page can no longer issue `at`: its slot's generation has already reached or passed it. */
  ghost predicate Spent(st: PageState, at: SlotRef) {
    at.slot < |st.slots| &&
    match st.slots[at.slot]
    case Live(g, _) => at.generation <= g
    case Free(g) => at.generation < g
    case Retired(_) => true
  }

  lemma StepSpends(st: PageState, op: PageOp)
    requires PageInv(st)
    ensures PageInv(Step(st, op))
    ensures forall at :: Spent(st, at) ==> Spent(Step(st, op), at)
    ensures forall at :: Spent(st, at) && !Resolves(st, at) ==> !Resolves(Step(st, op), at)
    ensures forall at | at in Issues(st, op) ::
      !Spent(st, at) && Spent(Step(st, op), at) && Resolves(Step(st, op), at)
  {
    match op
    case InsertOp(record) => InsertAddsOneRow(st, record);
    case DeleteOp(at) => if Resolves(st, at) { DeleteRemovesOneRow(st, at); }
  }

  predicate Distinct<T(==)>(s: seq<T>) {
    forall i, j | 0 <= i < j < |s| :: s[i] != s[j]
  }

  lemma DistinctConcat<T>(a: seq<T>, b: seq<T>)
    requires Distinct(a) && Distinct(b)
    requires forall x | x in a :: x !in b
    ensures Distinct(a + b)
  {
    forall i, j | 0 <= i < j < |a + b| ensures (a + b)[i] != (a + b)[j] {
      if i < |a| <= j {
        assert a[i] in a && b[j - |a|] in b;
      }
    }
  }

  /**
   * Over any run, from any page that meets the invariant, no address is handed out twice, none
   * that was already spent is handed out at all, and a dead address stays dead.
   */
  lemma {:induction false} NeverIssuedTwice(st: PageState, ops: seq<PageOp>)
    requires PageInv(st)
    ensures PageInv(Run(st, ops))
    ensures Distinct(IssuedBy(st, ops))
    ensures forall at | at in IssuedBy(st, ops) :: !Spent(st, at)
    ensures forall at :: Spent(st, at) && !Resolves(st, at) ==> !Resolves(Run(st, ops), at)
    decreases |ops|
  {
    if ops != [] {
      StepSpends(st, ops[0]);
      NeverIssuedTwice(Step(st, ops[0]), ops[1..]);
      var head, tail := Issues(st, ops[0]), IssuedBy(Step(st, ops[0]), ops[1..]);
      assert IssuedBy(st, ops) == head + tail;
      assert forall at | at in tail :: at !in head;
      assert forall j | 0 <= j < |tail| :: tail[j] in tail;
      DistinctConcat(head, tail);
    }
  }

  /** Once deleted, an address resolves to nothing for the rest of the run, and is never handed out again. */
  lemma DeletedForever(st: PageState, at: SlotRef, ops: seq<PageOp>)
    requires PageInv(st) && Resolves(st, at)
    ensures !Resolves(Run(Delete(st, at), ops), at)
    ensures at !in IssuedBy(Delete(st, at), ops)
  {
    DeleteRemovesOneRow(st, at);
    NeverIssuedTwice(Delete(st, at), ops);
  }

  /** A retired slot stays retired: exhausted generations never wrap around. */
  lemma {:induction false} RetiredForever(st: PageState, k: nat, ops: seq<PageOp>)
    requires k < |st.slots| && st.slots[k].Retired?
    ensures k < |Run(st, ops).slots| && Run(st, ops).slots[k] == st.slots[k]
    decreases |ops|
  {
    if ops != [] {
      RetiredForever(Step(st, ops[0]), k, ops[1..]);
    }
  }

  // ----- Slots are used again -----

  /**
   * A deleted slot is the next one used again, under the generation that follows, when no free slot comes
   * before it and the record fits beside the directory and the other records.
   */
  lemma {:induction false} DeletedSlotIsUsedAgain(st: PageState, at: SlotRef, record: seq<byte>)
    requires PageInv(st) && Resolves(st, at) && at.generation < 0xFFFF
    requires forall j | 0 <= j < at.slot :: !st.slots[j].Free?
    requires |record| <= Slack(Delete(st, at).slots)
    ensures InsertResult(Delete(st, at).slots, record) == Ok(SlotRef(at.slot, at.generation + 1))
    ensures |Insert(Delete(st, at), record).slots| == |st.slots|
  {
    DeleteRemovesOneRow(st, at);
    var t := Delete(st, at);
    assert t.slots[at.slot].Free?;
    hide LiveBytes;
  }

  /** A slot that is deleted in its last generation is retired: no run hands it out again. */
  lemma {:induction false} LastGenerationIsRetired(st: PageState, at: SlotRef, ops: seq<PageOp>)
    requires PageInv(st) && Resolves(st, at) && at.generation == 0xFFFF
    ensures forall r | r in IssuedBy(Delete(st, at), ops) :: r.slot != at.slot
  {
    RetiredIsNotIssued(Delete(st, at), at.slot, ops);
  }

  lemma {:induction false} RetiredIsNotIssued(st: PageState, k: nat, ops: seq<PageOp>)
    requires k < |st.slots| && st.slots[k].Retired?
    ensures forall r | r in IssuedBy(st, ops) :: r.slot != k
    decreases |ops|
  {
    if ops != [] {
      RetiredForever(st, k, ops[..1]);
      assert Run(Step(st, ops[0]), []) == Step(st, ops[0]) && ops[..1][1..] == [];
      RetiredIsNotIssued(Step(st, ops[0]), k, ops[1..]);
    }
  }

  /**
   * A successful insertion takes the first free slot under the generation it has, or, when no slot is free,
   * a new last slot under generation one; no other slot changes.
   */
  lemma {:induction false} InsertionTakesFirstFree(st: PageState, record: seq<byte>)
    requires InsertResult(st.slots, record).Ok?
    ensures var k, t := InsertResult(st.slots, record).value.slot, Insert(st, record);
      && (if k < |st.slots|
          then |t.slots| == |st.slots| && st.slots[k].Free? && t.slots[k] == Live(st.slots[k].generation, record)
          else k == |st.slots| && |t.slots| == k + 1 && t.slots[k] == Live(1, record))
      && (forall j | 0 <= j < k :: !st.slots[j].Free?)
      && forall j | 0 <= j < |st.slots| && j != k :: t.slots[j] == st.slots[j]
  {
    hide Slack;
  }
}
