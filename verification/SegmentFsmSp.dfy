/** Segments of slotted pages: inserting, finding and scanning tuples. */
module SegmentFsmSps {
  import opened FsmPages
  import opened Occupancies
  import opened PageTypes
  import opened SegmentFsms
  import S = SlottedPages

  datatype TID = TID(pageNo: uint32, tupleNo: uint16)

  /** The record under a tuple identifier, if there is one and it is not deleted. */
  ghost function At(s: Seg, t: TID): Option<seq<byte>> {
    if t.pageNo in s.pages && t.pageNo in s.store && t.tupleNo < S.NoRecords(s.store[t.pageNo])
       && S.SlotAt(t.tupleNo) >= 0
    then S.Stored(s.store[t.pageNo], t.tupleNo)
    else None
  }

  /** A record that holds the bytes of a tuple, padded to a multiple of eight. */
  ghost predicate Holds(r: Option<seq<byte>>, data: seq<byte>) {
    r.Some? && data <= r.value && |r.value| == Align(|data|)
  }

  type Tuple = s: seq<byte> | |s| < 0xFFFF_FFF9

  /** Bytes a sequence of tuples takes on a page, slots included. */
  function Total(tuples: seq<Tuple>): nat {
    if tuples == [] then 0 else Total(tuples[..|tuples| - 1]) + Align(|tuples[|tuples| - 1]|) + S.SLOT
  }

  /** Page q is page p with the tuples added behind the records of p. */
  ghost predicate Extended(p: Page, q: Page, tuples: seq<Tuple>) {
    && S.Good(p) && S.Good(q) && S.NoRecords(q) == S.NoRecords(p) + |tuples|
    && S.FreeSpace(q) + Total(tuples) == S.FreeSpace(p)
    && (forall j: nat :: j < S.NoRecords(p) ==> SameRecord(p, q, j))
    && (forall k: nat :: k < |tuples| ==> HoldsAt(q, S.NoRecords(p) + k, tuples[k]))
  }

  ghost predicate SameRecord(p: Page, q: Page, j: nat) {
    S.SlotAt(j) >= 0 && S.Stored(q, j) == S.Stored(p, j)
  }

  ghost predicate HoldsAt(q: Page, j: nat, data: seq<byte>) {
    S.SlotAt(j) >= 0 && Holds(S.Stored(q, j), data)
  }

  lemma AlignedIs(n: nat)
    requires n < 0xFFFF_FFF9
    ensures S.Aligned(n) == Align(n)
  {
  }

  lemma GoodFacts(p: Page)
    requires S.Good(p)
    ensures S.FreeSpace(p) <= S.SPACE && S.NextFree(p) + S.FreeSpace(p) <= S.SPACE
    ensures forall j: nat :: j < S.NoRecords(p) ==> S.SlotAt(j) >= 0
  {
  }

  /** Reserving and then writing a record. */
  lemma PutOne(p: Page, data: Tuple, q: Page)
    requires S.Good(p) && Align(|data|) + S.SLOT <= S.FreeSpace(p)
    requires S.NextFree(p) + |data| <= PAGE_SIZE
    requires q == Patch(S.Added(p, Align(|data|)), S.NextFree(p), data)
    ensures Extended(p, q, [data])
  {
    hide S.Added, S.Good, S.Stored, S.NoRecords, S.FreeSpace, S.NextFree, S.SlotAt, Patch;
    S.InsertedGood(p, Align(|data|), data, q);
    GoodFacts(q);
    TotalOne(data);
    assert HoldsAt(q, S.NoRecords(p), data);
  }

  lemma TotalOne(data: Tuple)
    ensures Total([data]) == Align(|data|) + S.SLOT
  {
    assert [data][..0] == [];
  }

  lemma ExtendedMore(p: Page, q: Page, r: Page, tuples: seq<Tuple>, data: Tuple)
    requires Extended(p, q, tuples) && Extended(q, r, [data])
    ensures Extended(p, r, tuples + [data])
  {
    hide S.Good, S.Stored, S.NoRecords, S.FreeSpace, S.SlotAt, Holds, Align;
    var all := tuples + [data];
    assert all[..|all| - 1] == tuples;
    TotalOne(data);
    var n := S.NoRecords(p);
    forall j: nat | j < n ensures SameRecord(p, r, j) {
      assert SameRecord(p, q, j) && SameRecord(q, r, j);
    }
    forall k: nat | k < |all| ensures HoldsAt(r, n + k, all[k]) {
      if k < |tuples| {
        assert HoldsAt(q, n + k, tuples[k]) && SameRecord(q, r, n + k);
      } else {
        assert HoldsAt(r, S.NoRecords(q) + 0, [data][0]);
      }
    }
  }

  lemma ExtendedNone(p: Page)
    requires S.Good(p)
    ensures Extended(p, p, [])
  {
    GoodFacts(p);
  }

  /** The n tuples are new under consecutive identifiers on one page, and nothing else has changed. */
  ghost predicate Gained(s: Seg, s': Seg, page: uint32, first: nat, tuples: seq<Tuple>) {
    && first + |tuples| < 0x1_0000
    && (forall k: nat :: k < |tuples| ==> GainedAt(s, s', TID(page, first + k), tuples[k]))
    && (forall t: TID :: (t.pageNo == page && first <= t.tupleNo < first + |tuples|) || SameAt(s, s', t))
  }

  ghost predicate GainedAt(s: Seg, s': Seg, t: TID, data: Tuple) {
    At(s, t) == None && Holds(At(s', t), data)
  }

  ghost predicate SameAt(s: Seg, s': Seg, t: TID) {
    At(s', t) == At(s, t)
  }

  /** The page chosen for a request, as it is before the request is served. */
  ghost predicate PageBefore(s: Seg, i: nat, p: Page) {
    && i <= |s.pages|
    && (i < |s.pages| ==> s.pages[i] in s.store && p == s.store[s.pages[i]])
    && (i == |s.pages| ==> S.NoRecords(p) == 0 && S.FreeSpace(p) == S.SPACE)
  }

  function WithPage(m: Seg, i: nat, q: Page): Seg
    requires i < |m.pages|
  {
    m.(store := m.store[m.pages[i] := q])
  }

  lemma StoredValid(s: Seg, m: Seg, i: nat, buckets: nat, q: Page)
    requires s.Valid() && s.Reserved(m, i, buckets) && m.Separate() && m.Mapped() && S.Good(q)
    ensures WithPage(m, i, q).Valid()
  {
    hide S.Good, FirstFit, Seg.Mapped;
    var s' := WithPage(m, i, q);
    MapKept(m, i, q);
    forall j | 0 <= j < |s'.pages| ensures s'.pages[j] in s'.store && S.Good(s'.store[s'.pages[j]]) {
      if j != i {
        assert s'.pages[j] == s.pages[j];
      }
    }
  }

  lemma MapKept(m: Seg, i: nat, q: Page)
    requires m.Separate() && m.Mapped() && i < |m.pages|
    ensures WithPage(m, i, q).Mapped() && WithPage(m, i, q).Separate()
    ensures WithPage(m, i, q).store[m.fsm] == m.store[m.fsm]
  {
    hide EmptyFrom, NoPages;
  }

  /** Other pages keep their content. */
  lemma OtherPage(s: Seg, m: Seg, i: nat, buckets: nat, q: Page, t: TID)
    requires s.Valid() && s.Reserved(m, i, buckets) && m.Separate() && t.pageNo != m.pages[i]
    ensures SameAt(s, WithPage(m, i, q), t)
  {
    hide S.Good, S.Stored, S.NoRecords, S.SlotAt, FirstFit, WithNibble, Seg.Mapped, Seg.Formed;
    var s' := WithPage(m, i, q);
    if t.pageNo in s.pages {
      assert t.pageNo in s'.pages;
    }
    if t.pageNo in s'.pages {
      assert t.pageNo in s.pages;
    }
  }

  lemma SamePage(s: Seg, m: Seg, i: nat, buckets: nat, p: Page, q: Page, tuples: seq<Tuple>, t: TID)
    requires s.Valid() && s.Reserved(m, i, buckets) && m.Separate() && PageBefore(s, i, p) && Extended(p, q, tuples)
    requires t.pageNo == m.pages[i]
    ensures t.tupleNo < S.NoRecords(p) ==> SameAt(s, WithPage(m, i, q), t)
    ensures t.tupleNo >= S.NoRecords(p) ==> At(s, t) == None
    ensures t.tupleNo >= S.NoRecords(p) + |tuples| ==> SameAt(s, WithPage(m, i, q), t)
    ensures S.NoRecords(p) <= t.tupleNo < S.NoRecords(p) + |tuples| ==>
      Holds(At(WithPage(m, i, q), t), tuples[t.tupleNo - S.NoRecords(p)])
  {
    hide S.Good, S.Stored, S.NoRecords, S.SlotAt, S.FreeSpace, FirstFit, WithNibble, Seg.Mapped, Seg.Formed, Holds;
    if t.tupleNo < S.NoRecords(p) {
      assert SameRecord(p, q, t.tupleNo);
    } else if t.tupleNo < S.NoRecords(p) + |tuples| {
      assert HoldsAt(q, S.NoRecords(p) + (t.tupleNo - S.NoRecords(p)), tuples[t.tupleNo - S.NoRecords(p)]);
    }
  }

  lemma StoredGained(s: Seg, m: Seg, i: nat, buckets: nat, p: Page, q: Page, tuples: seq<Tuple>)
    requires s.Valid() && s.Reserved(m, i, buckets) && m.Separate() && PageBefore(s, i, p) && Extended(p, q, tuples)
    ensures Gained(s, WithPage(m, i, q), m.pages[i], S.NoRecords(p), tuples)
  {
    hide S.Good, S.Stored, S.SlotAt, S.FreeSpace, FirstFit, Seg.Valid, Seg.Separate, Holds, SameAt, At;
    var page, first := m.pages[i], S.NoRecords(p);
    forall k: nat | k < |tuples| ensures GainedAt(s, WithPage(m, i, q), TID(page, first + k), tuples[k]) {
      SamePage(s, m, i, buckets, p, q, tuples, TID(page, first + k));
    }
    forall t: TID | !(t.pageNo == page && first <= t.tupleNo < first + |tuples|)
      ensures SameAt(s, WithPage(m, i, q), t)
    {
      if t.pageNo == page {
        SamePage(s, m, i, buckets, p, q, tuples, t);
      } else {
        OtherPage(s, m, i, buckets, q, t);
      }
    }
  }

  // ----- occupancy -----

  /** On a sound segment the chosen page has room for what its occupancy was raised for. */
  lemma RoomThere(s: Seg, m: Seg, i: nat, buckets: nat, p: Page, total: nat)
    requires s.Valid() && s.Sound() && s.Reserved(m, i, buckets) && PageBefore(s, i, p) && S.FreeSpace(p) <= S.SPACE
    requires Covered(total, buckets)
    ensures total <= S.FreeSpace(p)
    ensures Covered(S.SPACE - S.FreeSpace(p) + total, Nibble(s.store[s.fsm], i) + buckets)
  {
    hide S.Good, S.FreeSpace, EmptyFrom, WithNibble;
    if i < |s.pages| {
      assert s.CoveredAt(i);
    } else {
      NewIsEmpty(s, i);
    }
    CoveredFits(S.SPACE - S.FreeSpace(p), Nibble(s.store[s.fsm], i), total, buckets);
  }

  lemma NewIsEmpty(s: Seg, i: nat)
    requires s.Mapped() && |s.pages| <= i < MAX_PAGES
    ensures Nibble(s.store[s.fsm], i) == 0
  {
  }

  lemma SoundKept(s: Seg, m: Seg, i: nat, buckets: nat, p: Page, q: Page, tuples: seq<Tuple>)
    requires s.Valid() && s.Sound() && s.Reserved(m, i, buckets) && m.Separate() && m.Mapped()
    requires PageBefore(s, i, p) && Extended(p, q, tuples) && Covered(Total(tuples), buckets)
    ensures WithPage(m, i, q).Sound()
  {
    hide S.Good, S.FreeSpace, EmptyFrom, FirstFit, Covered, Total, Nibble, WithNibble, NoPages, Seg.CoveredAt;
    var s' := WithPage(m, i, q);
    MapKept(m, i, q);
    forall j | 0 <= j < |s'.pages| ensures s'.CoveredAt(j) {
      if j == i {
        SoundHere(s, m, i, buckets, p, q, tuples);
      } else {
        SoundThere(s, m, i, buckets, q, j);
      }
    }
  }

  lemma NibbleAfter(s: Seg, m: Seg, i: nat, buckets: nat, j: nat)
    requires s.fsm in s.store && s.Reserved(m, i, buckets) && j < MAX_PAGES
    ensures i < MAX_PAGES && m.fsm in m.store
    ensures Nibble(m.store[m.fsm], j) ==
      if j == i then Nibble(s.store[s.fsm], i) + buckets else Nibble(s.store[s.fsm], j)
  {
    OwnNibble(s.store[s.fsm], i, Nibble(s.store[s.fsm], i) + buckets, j);
    hide Nibble, WithNibble, NoPages;
  }

  lemma SoundHere(s: Seg, m: Seg, i: nat, buckets: nat, p: Page, q: Page, tuples: seq<Tuple>)
    requires s.Valid() && s.Sound() && s.Reserved(m, i, buckets) && m.Separate() && m.Mapped()
    requires PageBefore(s, i, p) && Extended(p, q, tuples) && Covered(Total(tuples), buckets)
    ensures WithPage(m, i, q).CoveredAt(i)
  {
    hide S.Good, S.FreeSpace, S.NextFree, S.Stored, EmptyFrom, FirstFit, Covered, Total, Nibble, WithNibble, NoPages;
    GoodFacts(p);
    GoodFacts(q);
    RoomThere(s, m, i, buckets, p, Total(tuples));
    MapKept(m, i, q);
    NibbleAfter(s, m, i, buckets, i);
  }

  lemma SoundThere(s: Seg, m: Seg, i: nat, buckets: nat, q: Page, j: nat)
    requires s.Valid() && s.Sound() && s.Reserved(m, i, buckets) && m.Separate() && m.Mapped()
    requires j < |m.pages| && j != i
    ensures WithPage(m, i, q).CoveredAt(j)
  {
    hide S.Good, S.FreeSpace, EmptyFrom, FirstFit, Covered, Nibble, WithNibble, NoPages;
    MapKept(m, i, q);
    assert s.CoveredAt(j) && m.pages[j] == s.pages[j];
    NibbleAfter(s, m, i, buckets, j);
  }

  // ----- several inserts -----

  /** The tuples are new under the identifiers, one each and in order, and nothing else has changed. */
  ghost predicate Inserted(s: Seg, s': Seg, tids: seq<TID>, tuples: seq<Tuple>) {
    && |tids| == |tuples|
    && (forall k :: 0 <= k < |tids| ==> GainedAt(s, s', tids[k], tuples[k]))
    && (forall j, k :: 0 <= j < k < |tids| ==> tids[j] != tids[k])
    && (forall t: TID :: t in tids || SameAt(s, s', t))
  }

  /** No tuple was lost or changed. */
  ghost predicate Kept(s: Seg, s': Seg) {
    forall t: TID :: At(s, t) == None || SameAt(s, s', t)
  }

  lemma GainedInserted(s: Seg, s': Seg, page: uint32, first: nat, tuples: seq<Tuple>, tids: seq<TID>)
    requires Gained(s, s', page, first, tuples) && |tids| == |tuples|
    requires forall k :: 0 <= k < |tids| ==> tids[k] == TID(page, first + k)
    ensures Inserted(s, s', tids, tuples)
  {
    hide At, Holds, SameAt;
    forall k | 0 <= k < |tids| ensures GainedAt(s, s', tids[k], tuples[k]) {
      assert GainedAt(s, s', TID(page, first + k), tuples[k]);
    }
    forall t: TID ensures t in tids || SameAt(s, s', t) {
      if t.pageNo == page && first <= t.tupleNo < first + |tuples| {
        assert tids[t.tupleNo - first] == t;
      }
    }
  }

  lemma InsertedMore(s: Seg, m: Seg, s': Seg, a: seq<TID>, x: seq<Tuple>, b: seq<TID>, y: seq<Tuple>)
    requires Inserted(s, m, a, x) && Inserted(m, s', b, y)
    ensures Inserted(s, s', a + b, x + y)
  {
    hide At;
    forall k | 0 <= k < |a + b| ensures GainedAt(s, s', (a + b)[k], (x + y)[k]) {
      if k < |a| {
        assert GainedAt(s, m, a[k], x[k]);
        NotAgain(m, s', b, y, a[k]);
      } else {
        assert GainedAt(m, s', b[k - |a|], y[k - |a|]);
        NotBefore(s, m, a, x, b[k - |a|]);
      }
    }
    forall j, k | 0 <= j < k < |a + b| ensures (a + b)[j] != (a + b)[k] {
      if j < |a| <= k {
        assert GainedAt(s, m, a[j], x[j]) && GainedAt(m, s', b[k - |a|], y[k - |a|]);
      }
    }
    forall t: TID ensures t in a + b || SameAt(s, s', t) {
      assert t in a || SameAt(s, m, t);
      assert t in b || SameAt(m, s', t);
    }
  }

  lemma NotAgain(m: Seg, s': Seg, b: seq<TID>, y: seq<Tuple>, t: TID)
    requires Inserted(m, s', b, y) && At(m, t).Some?
    ensures SameAt(m, s', t)
  {
    hide At;
    forall k | 0 <= k < |b| ensures b[k] != t {
      assert GainedAt(m, s', b[k], y[k]);
    }
  }

  lemma NotBefore(s: Seg, m: Seg, a: seq<TID>, x: seq<Tuple>, t: TID)
    requires Inserted(s, m, a, x) && At(m, t) == None
    ensures At(s, t) == None
  {
    hide At;
    if k :| 0 <= k < |a| && a[k] == t {
      assert GainedAt(s, m, a[k], x[k]);
    } else {
      assert SameAt(s, m, t);
    }
  }

  lemma InsertedKept(s: Seg, s': Seg, tids: seq<TID>, tuples: seq<Tuple>)
    requires Inserted(s, s', tids, tuples)
    ensures Kept(s, s')
  {
    hide At;
    forall t: TID ensures At(s, t) == None || SameAt(s, s', t) {
      if At(s, t).Some? {
        NotAgain(s, s', tids, tuples, t);
      }
    }
  }

  /** Facts about a chosen page that the methods need. */
  lemma BeforeFacts(s: Seg, m: Seg, i: nat, buckets: nat)
    requires s.Valid() && s.Reserved(m, i, buckets) && m.Separate() && m.Mapped()
    ensures i <= |s.pages| && i < |m.pages|
    ensures i < |s.pages| ==>
      && m.pages[i] in m.store && m.pages[i] == s.pages[i] && m.store[m.pages[i]] == s.store[s.pages[i]]
      && S.Good(m.store[m.pages[i]]) && PageBefore(s, i, m.store[m.pages[i]])
  {
    hide S.Good, EmptyFrom, FirstFit, Nibble, WithNibble, NoPages;
  }

  lemma FreshBefore(s: Seg, i: nat, frame: Page)
    requires i == |s.pages|
    ensures S.Good(S.Fresh(frame)) && PageBefore(s, i, S.Fresh(frame))
  {
    S.FreshGood(frame);
    hide S.Good, S.Fresh;
  }

  class SegmentFSM_SP {
    const base: SegmentFSM
    var tids: seq<TID>

    constructor (base: SegmentFSM)
      ensures this.base == base && tids == []
    {
      this.base := base;
      tids := [];
    }

    /** Adds one record to an attached page. */
    method PutRecord(sp: S.SlottedPage, data: Tuple) returns (no: Option<uint16>)
      requires sp.Valid() && S.Good(sp.View())
      modifies sp.page
      ensures no.Some? <==> Align(|data|) + S.SLOT <= S.FreeSpace(old(sp.View()))
      ensures no.Some? ==>
        no.value == S.NoRecords(old(sp.View())) && Extended(old(sp.View()), sp.View(), [data])
      ensures no.None? ==> sp.View() == old(sp.View())
    {
      hide S.Good, S.Added, S.FreeSpace, S.NextFree, S.NoRecords, S.Aligned, Align, Extended, Patch;
      AlignedIs(|data|);
      RecordRoom(sp.View(), |data|);
      ghost var p := sp.View();
      var offset, n := sp.AddNewRecord(|data|);
      if offset == None {
        return None;
      }
      CopyBytes(sp.page, offset.value, data);
      PutOne(p, data, sp.View());
      return Some(n);
    }

    /** Fixes the page of a slot; a new page comes in a frame with arbitrary content and is initialised. */
    method Open(slot: Slot, ghost s: Seg, ghost buckets: nat) returns (sp: S.SlottedPage)
      requires s.Valid() && s.Reserved(base.View(), slot.index, buckets)
      requires base.View().Separate() && base.View().Mapped()
      requires (slot.isNew <==> slot.index == |s.pages|) && slot.page == base.pages[slot.index]
      ensures sp.Valid() && fresh(sp) && fresh(sp.page) && S.Good(sp.View())
      ensures PageBefore(s, slot.index, sp.View())
    {
      hide S.Good, S.Fresh, Seg.Valid, Seg.Reserved, Seg.Separate, Seg.Mapped, PageBefore;
      BeforeFacts(s, base.View(), slot.index, buckets);
      if slot.isNew {
        var frame: Page := *;
        sp := new S.SlottedPage.Attach(frame);
        sp.InitNewPage();
        FreshBefore(s, slot.index, frame);
      } else {
        sp := new S.SlottedPage.Attach(base.store[slot.page]);
      }
    }

    /**
     * Inserts one tuple; None stands for the exceptions, which are raised exactly for a tuple that fits no page and
     * when the page that the map picks has no room. On a sound segment a tuple of a safe size is never rejected.
     */
    method InsertTuple(data: Tuple) returns (r: Option<TID>)
      requires base.View().Valid() && base.View().Spare(1)
      modifies this, base
      ensures base.View().Valid() && Consumed(old(base.View()), base.View(), 1)
      ensures r.Some? ==> Inserted(old(base.View()), base.View(), [r.value], [data]) && tids == old(tids) + [r.value]
      ensures r.None? ==> Inserted(old(base.View()), base.View(), [], []) && tids == old(tids)
      ensures r.None? <==> Rejected(old(base.View()), |data|)
      ensures |data| > 4064 ==> base.View() == old(base.View())
      ensures |data| <= 4064 ==> PutSomewhere(old(base.View()), base.View(), |data|, r)
      ensures old(base.View()).Framed(base.View(), if r.Some? then {r.value.pageNo} else {})
      ensures old(base.View()).Sound() && SafeSize(|data|) ==> r.Some? && base.View().Sound()
    {
      hide S.Good, S.FreeSpace, S.NoRecords, Seg.Valid, Seg.Reserved, Seg.Separate, Seg.Mapped, Seg.Sound, PageBefore,
        Extended, Inserted, Kept, CalcPageStatus, Align, Buckets, Covered, Rejected, PutSomewhere, SafeSize, Seg.Framed;
      ghost var s := base.View();
      SingleStatus(|data|);
      TooLarge(s, |data|);
      FramedSame(s);
      InsertedNone(s);
      var slot := base.GetFreePage(Align(|data|), S.SLOT + 24);
      if slot == None {
        return None;
      }
      ghost var m, buckets := base.View(), Buckets(Align(|data|));
      ReservedConsumed(s, m, slot.value.index, buckets);
      var sp := Open(slot.value, s, buckets);
      ghost var p := sp.View();
      RejectedHere(s, m, slot.value.index, buckets, p, |data|);
      var no := PutRecord(sp, data);
      if no == None {
        SingleRoom(s, m, slot.value.index, buckets, p, |data|);
        Abandoned(s, m, slot.value.index, buckets, p);
        NotPut(s, m, slot.value.index, buckets, p, |data|);
        ReservedFramed(s, m, slot.value.index, buckets);
        return None;
      }
      BeforeFacts(s, m, slot.value.index, buckets);
      var content := sp.Content();
      base.store := base.store[slot.value.page := content];
      var tid := TID(slot.value.page, no.value);
      tids := tids + [tid];
      Completed(s, m, slot.value.index, buckets, p, content, [data], [tid]);
      SingleSound(s, m, slot.value.index, buckets, p, content, data);
      Put(s, m, slot.value.index, buckets, p, content, data, tid);
      WrittenFramed(s, m, slot.value.index, buckets, content);
      return Some(tid);
    }

    /** Adds up aligned sizes and slots of a run of tuples. */
    method TotalSize(all: seq<Tuple>, start: nat, size: nat) returns (total: nat)
      requires start + size <= |all|
      ensures total == Total(all[start..start + size])
    {
      hide Align;
      total := 0;
      for i := 0 to size
        invariant total == Total(all[start..start + i])
      {
        TotalNext(all, start, start + i);
        total := total + Align(|all[start + i]|) + S.SLOT;
      }
    }

    /**
     * The greedy bin: as many tuples from begin on as fit one page. It is empty exactly if the first tuple alone
     * does not fit, and then the loop that asks for bins makes no progress.
     */
    method NextBin(all: seq<Tuple>, start: nat, begin: nat, size: nat) returns (end: nat)
      requires begin < size && start + size <= |all|
      ensures begin <= end <= size && Total(all[start + begin..start + end]) <= BIN
      ensures end < size ==> Total(all[start + begin..start + end + 1]) > BIN
      ensures end == begin <==> Align(|all[start + begin]|) + S.SLOT > BIN
    {
      hide Align, Total;
      var part := 0;
      end := begin;
      TotalNext(all, start + begin, start + begin);
      while part < BIN && end < size
        invariant begin <= end <= size && part == Total(all[start + begin..start + end])
        invariant end > begin ==> Total(all[start + begin..start + end - 1]) < BIN
        invariant end == begin ==> part == 0
        invariant end > begin + 1 ==> Align(|all[start + begin]|) + S.SLOT < BIN
      {
        TotalNext(all, start + begin, start + end);
        part := part + Align(|all[start + end]|) + S.SLOT;
        end := end + 1;
      }
      if part > BIN {
        end := end - 1;
      } else if end < size {
        TotalNext(all, start + begin, start + end);
      }
    }

    /** Adds the tuples of one bin to an attached page, as long as they fit. */
    method PutRecords(sp: S.SlottedPage, tuples: seq<Tuple>, page: uint32) returns (ok: bool, tids: seq<TID>)
      requires sp.Valid() && S.Good(sp.View())
      modifies sp.page
      ensures |tids| <= |tuples| && Extended(old(sp.View()), sp.View(), tuples[..|tids|])
      ensures ok <==> |tids| == |tuples|
      ensures forall k :: 0 <= k < |tids| ==> tids[k] == TID(page, S.NoRecords(old(sp.View())) + k)
      ensures Total(tuples) <= S.FreeSpace(old(sp.View())) <==> ok
      ensures !ok ==> Total(tuples[..|tids| + 1]) > S.FreeSpace(old(sp.View()))
      ensures tids == [] ==> sp.View() == old(sp.View())
    {
      hide S.Good, S.FreeSpace, S.NoRecords, S.Stored, S.SlotAt, Align, Total, HoldsAt, SameRecord;
      tids := [];
      ghost var p := sp.View();
      ExtendedNone(p);
      for i := 0 to |tuples|
        invariant Extended(p, sp.View(), tuples[..i]) && |tids| == i && (i == 0 ==> sp.View() == p)
        invariant forall k :: 0 <= k < |tids| ==> tids[k] == TID(page, S.NoRecords(p) + k)
      {
        ghost var q := sp.View();
        TotalPrefix(tuples, i);
        var no := PutRecord(sp, tuples[i]);
        if no == None {
          TotalPart(tuples, i);
          return false, tids;
        }
        ExtendedMore(p, q, sp.View(), tuples[..i], tuples[i]);
        assert tuples[..i] + [tuples[i]] == tuples[..i + 1];
        tids := tids + [TID(page, no.value)];
      }
      assert tuples[..|tuples|] == tuples;
      return true, tids;
    }

    /**
     * Inserts tuples start, .., start + size - 1: on one page if they all fit one, otherwise bin by bin. Ends for
     * every input whose tuples fit a page each. Not ok stands for the exception, after which the tuples already
     * put on pages stay there.
     */
    method InsertTuplesSub(all: seq<Tuple>, start: nat, size: nat) returns (ok: bool, tids: seq<TID>)
      requires start + size <= |all| && forall k :: start <= k < start + size ==> FitsBin(all[k])
      requires base.View().Valid() && base.View().Spare(size + 1) && Total(all[start..start + size]) < MAX_REQUEST
      modifies base
      ensures base.View().Valid() && Consumed(old(base.View()), base.View(), if size == 0 then 1 else size)
      ensures ok ==> Inserted(old(base.View()), base.View(), tids, all[start..start + size])
      ensures !ok ==> Kept(old(base.View()), base.View())
      ensures old(base.View()).Sound() ==> ok && base.View().Sound()
      ensures ok ==> BulkPut(old(base.View()), base.View(), all[start..start + size], tids)
      ensures ok ==> |tids| == size && PagesOf(tids) <= base.View().DataPages()
      ensures !ok ==> BulkStopped(old(base.View()), base.View(), all[start..start + size])
      ensures old(base.View()).Framed(base.View(), if ok then PagesOf(tids) else base.View().DataPages())
      decreases size
    {
      hide S.Good, S.FreeSpace, S.NoRecords, Seg.Valid, Seg.Reserved, Seg.Separate, Seg.Mapped, Seg.Sound, PageBefore,
        Extended, Inserted, Kept, CalcPageStatus, Align, Buckets, Covered, Total, Seg.Framed, BulkOn, InBins,
        StoppedOn, BinStopped;
      ghost var s := base.View();
      KeptSame(s);
      var total := TotalSize(all, start, size);
      BulkStatus(total);
      var slot := base.GetFreePage(total, 24);
      if slot == None {
        ok, tids := InsertBins(all, start, size);
        return;
      }
      var bin := all[start..start + size];
      ghost var m, buckets := base.View(), Buckets(total);
      ReservedConsumed(s, m, slot.value.index, buckets);
      var sp := Open(slot.value, s, buckets);
      ghost var p := sp.View();
      ok, tids := PutRecords(sp, bin, slot.value.page);
      var content := sp.Content();
      BeforeFacts(s, m, slot.value.index, buckets);
      base.store := base.store[slot.value.page := content];
      Completed(s, m, slot.value.index, buckets, p, content, bin[..|tids|], tids);
      BulkSound(s, m, slot.value.index, buckets, p, content, bin, tids);
      InsertedKept(s, base.View(), tids, bin[..|tids|]);
      assert bin[..|bin|] == bin;
      BulkFramed(s, m, slot.value.index, buckets, p, content, tids);
      if ok {
        PutBulk(s, m, slot.value.index, buckets, p, content, bin, tids);
      } else {
        StoppedBulk(s, m, slot.value.index, buckets, p, content, bin, |tids|);
      }
    }

    /** Bulk insert: one identifier per tuple, in the order of the tuples. */
    method InsertTuples(all: seq<Tuple>) returns (ok: bool, result: seq<TID>)
      requires forall k :: 0 <= k < |all| ==> FitsBin(all[k])
      requires base.View().Valid() && base.View().Spare(|all| + 1) && Total(all) < MAX_REQUEST
      modifies this, base
      ensures base.View().Valid()
      ensures ok ==> Inserted(old(base.View()), base.View(), result, all) && tids == old(tids) + result
      ensures !ok ==> Kept(old(base.View()), base.View()) && tids == old(tids)
      ensures old(base.View()).Sound() ==> ok && base.View().Sound()
      ensures ok ==> BulkPut(old(base.View()), base.View(), all, result)
      ensures !ok ==> BulkStopped(old(base.View()), base.View(), all)
      ensures old(base.View()).Framed(base.View(), if ok then PagesOf(result) else base.View().DataPages())
    {
      hide Seg.Valid, Seg.Sound, Inserted, Kept, FitsBin, BulkPut, BulkStopped, Seg.Framed;
      assert all[0..0 + |all|] == all;
      ok, result := InsertTuplesSub(all, 0, |all|);
      if ok {
        tids := tids + result;
      }
    }

    /** The position of a page number among the data pages, |pages| if it is not one. */
    method FindPage(pageNo: uint32) returns (i: nat)
      ensures i <= |base.pages| && (i < |base.pages| ==> base.pages[i] == pageNo)
      ensures i == |base.pages| ==> pageNo !in base.pages
    {
      i := 0;
      while i < |base.pages| && base.pages[i] != pageNo
        invariant i <= |base.pages| && pageNo !in base.pages[..i]
      {
        i := i + 1;
      }
    }

    /** The record under a tuple identifier; None is the exception. */
    method GetTuple(tid: TID) returns (r: Option<seq<byte>>)
      requires base.View().Readable()
      ensures r == At(base.View(), tid)
    {
      hide Seg.Readable, S.Good, S.Stored, S.NoRecords, S.Status, S.Offset, S.Size, At;
      var i := FindPage(tid.pageNo);
      if i == |base.pages| {
        AtNowhere(base.View(), tid);
        return None;
      }
      PageFacts(base.View(), i);
      var p := base.store[tid.pageNo];
      var sp := new S.SlottedPage.Attach(p);
      var offset := sp.GetRecord(tid.tupleNo);
      GoodFacts(p);
      AtPage(base.View(), i, tid);
      if offset == None {
        return None;
      }
      r := Some(p[offset.value..offset.value + S.Size(p, tid.tupleNo)]);
    }

    /** The records under several identifiers, in their order; None as soon as one is missing. */
    method GetTuples(tids: seq<TID>) returns (r: Option<seq<seq<byte>>>)
      requires base.View().Readable()
      ensures r.Some? ==> Read(base.View(), tids, r.value)
      ensures r.None? <==> exists k :: 0 <= k < |tids| && At(base.View(), tids[k]) == None
    {
      hide Seg.Readable, At;
      var result := [];
      for i := 0 to |tids|
        invariant Read(base.View(), tids[..i], result)
      {
        var t := GetTuple(tids[i]);
        if t == None {
          return None;
        }
        result := result + [t.value];
      }
      assert tids[..|tids|] == tids;
      return Some(result);
    }

    /** Marks record j of page i as deleted. */
    method DeleteRecord(i: nat, j: uint16)
      requires base.View().Valid() && i < |base.pages|
      requires base.pages[i] in base.store && j < S.NoRecords(base.store[base.pages[i]])
      modifies base
      ensures base.View().Valid() && (old(base.View()).Sound() ==> base.View().Sound())
      ensures base.pages == old(base.pages)
      ensures At(base.View(), TID(base.pages[i], j)) == None
      ensures PageOnly(old(base.View()), base.View(), base.pages[i])
      ensures forall t: TID :: t == TID(base.pages[i], j) || SameAt(old(base.View()), base.View(), t)
    {
      hide Seg.Valid, Seg.Sound, S.Good, S.Deleted, S.NoRecords, At, SameAt;
      ghost var s := base.View();
      s.ValidReadable();
      PageFacts(s, i);
      var p := base.store[base.pages[i]];
      GoodFacts(p);
      var sp := new S.SlottedPage.Attach(p);
      sp.DeleteRecordSoft(j);
      var content := sp.Content();
      base.store := base.store[base.pages[i] := content];
      DeletedAt(s, i, j, content);
    }

    /** All live tuples, each once: the pages in order, and on each page the records in order. */
    method Scan() returns (res: seq<TID>)
      requires base.View().Readable()
      ensures forall t: TID :: t in res <==> Live(base.View(), t)
      ensures forall j, k :: 0 <= j < k < |res| ==> res[j] != res[k] && Earlier(base.View(), res[j], res[k])
    {
      ghost var s := base.View();
      hide Seg.Readable, Scanned, Live, Earlier;
      ScannedNone(s);
      res := [];
      for i := 0 to |base.pages|
        invariant Scanned(s, res, i, 0)
      {
        res := ScanPage(i, res);
      }
      ScannedAll(s, res);
      ScannedOnce(s, res);
    }

    /** The live records of page i, behind those found so far. */
    method ScanPage(i: nat, found: seq<TID>) returns (res: seq<TID>)
      requires base.View().Readable() && i < |base.pages| && Scanned(base.View(), found, i, 0)
      ensures Scanned(base.View(), res, i + 1, 0)
    {
      hide Seg.Readable, S.Good, S.Stored, S.NoRecords, S.Status, Scanned, Live, Get16;
      ghost var s := base.View();
      PageFacts(s, i);
      PagesDistinct(s);
      var p := base.store[base.pages[i]];
      var sp := new S.SlottedPage.Attach(p);
      var n := S.NoRecords(p);
      res := found;
      for j := 0 to n
        invariant sp.Valid() && sp.View() == p && Scanned(s, res, i, j)
      {
        var offset := sp.GetRecord(j);
        RecordLive(s, i, j);
        ScannedRecord(s, res, i, j, offset.Some?);
        if offset.Some? {
          res := res + [TID(base.pages[i], j)];
        }
      }
      ScannedPage(s, res, i, n);
    }

    /** The bins of a run of tuples that is too large for one page. */
    method InsertBins(all: seq<Tuple>, start: nat, size: nat) returns (ok: bool, tids: seq<TID>)
      requires start + size <= |all| && forall k :: start <= k < start + size ==> FitsBin(all[k])
      requires base.View().Valid() && base.View().Spare(size + 1) && Total(all[start..start + size]) > BIN
      modifies base
      ensures base.View().Valid() && Consumed(old(base.View()), base.View(), size)
      ensures ok ==> Inserted(old(base.View()), base.View(), tids, all[start..start + size])
      ensures !ok ==> Kept(old(base.View()), base.View())
      ensures old(base.View()).Sound() ==> ok && base.View().Sound()
      ensures ok ==> InBins(old(base.View()), base.View(), all[start..start + size], tids)
      ensures ok ==> |tids| == size && PagesOf(tids) <= base.View().DataPages()
      ensures !ok ==> BinStopped(old(base.View()), base.View(), all[start..start + size])
      ensures old(base.View()).Framed(base.View(), if ok then PagesOf(tids) else base.View().DataPages())
      decreases size, 0
    {
      hide Seg.Valid, Seg.Sound, Inserted, Kept, Align, Total, Seg.Framed, Binned, BulkOn, Bin, StoppedOn;
      ghost var s := base.View();
      ghost var tuples := all[start..start + size];
      InsertedNone(s);
      assert all[start..start + 0] == [];
      tids := [];
      var begin := 0;
      ghost var cuts: seq<nat>, ss: seq<Seg> := [0], [s];
      BinnedNone(s, tuples);
      FramedSame(s);
      assert PagesOf([]) == {};
      while begin < size
        invariant begin <= size && base.View().Valid() && Consumed(s, base.View(), begin)
        invariant Inserted(s, base.View(), tids, all[start..start + begin])
        invariant s.Sound() ==> base.View().Sound()
        invariant Binned(s, base.View(), tuples, begin, tids, cuts, ss)
        invariant s.Framed(base.View(), PagesOf(tids))
        invariant |tids| == begin && PagesOf(tids) <= base.View().DataPages()
        decreases size - begin
      {
        ghost var m, before := base.View(), tids;
        var end := NextBin(all, start, begin, size);
        assert FitsBin(all[start + begin]);
        var more: seq<TID>;
        BinIs(all, start, size, begin, end);
        ok, more := InsertTuplesSub(all, start + begin, end - begin);
        if !ok {
          InsertedKept(s, m, before, all[start..start + begin]);
          KeptKept(s, m, base.View());
          FramedData(s, m, base.View(), PagesOf(before));
          assert StoppedIn(s, m, base.View(), tuples, begin, end, before, cuts, ss);
          return;
        }
        BinnedMore(s, m, base.View(), tuples, begin, end, before, more, cuts, ss);
        cuts, ss := cuts + [end], ss + [base.View()];
        FramedThrough(s, m, base.View(), PagesOf(before), PagesOf(more));
        FramedGrows(m, base.View(), PagesOf(more));
        assert PagesOf(before + more) == PagesOf(before) + PagesOf(more);
        InsertedMore(s, m, base.View(), before, all[start..start + begin], more, all[start + begin..start + end]);
        assert all[start..start + begin] + all[start + begin..start + end] == all[start..start + end];
        tids := tids + more;
        begin := end;
      }
      return true, tids;
    }
  }

  /** What tuples look like under their identifiers, for each of them. */
  ghost predicate Read(s: Seg, tids: seq<TID>, records: seq<seq<byte>>) {
    |records| == |tids| && forall k :: 0 <= k < |tids| ==> At(s, tids[k]) == Some(records[k])
  }

  /** A tuple that fits a page of its own in a bulk insert. */
  ghost predicate FitsBin(data: Tuple) {
    Align(|data|) + S.SLOT <= BIN
  }

  lemma AtPage(s: Seg, i: nat, t: TID)
    requires s.Readable() && i < |s.pages| && s.pages[i] == t.pageNo
    requires t.pageNo in s.store && S.Good(s.store[t.pageNo])
    ensures var p := s.store[t.pageNo];
      if t.tupleNo < S.NoRecords(p) && S.SlotAt(t.tupleNo) >= 0 && S.Stored(p, t.tupleNo).Some?
      then
        && S.Offset(p, t.tupleNo) + S.Size(p, t.tupleNo) <= PAGE_SIZE
        && At(s, t) == Some(p[S.Offset(p, t.tupleNo)..S.Offset(p, t.tupleNo) + S.Size(p, t.tupleNo)])
      else At(s, t) == None
  {
    hide S.Good, S.NoRecords, S.Status, S.Offset, S.Size, S.SlotAt, Seg.Readable, S.NextFree;
    var p := s.store[t.pageNo];
    RecordBounds(p, t.tupleNo);
  }

  lemma RecordBounds(p: Page, j: nat)
    requires S.Good(p)
    ensures j < S.NoRecords(p) ==> S.SlotAt(j) >= 0 && S.Offset(p, j) + S.Size(p, j) <= PAGE_SIZE
  {
    if j < S.NoRecords(p) {
      S.RecordFits(p, j);
    }
  }

  lemma AtNowhere(s: Seg, t: TID)
    requires t.pageNo !in s.pages
    ensures At(s, t) == None
  {
    hide S.Stored, S.NoRecords;
  }

  lemma PageFacts(s: Seg, i: nat)
    requires s.Readable() && i < |s.pages|
    ensures s.pages[i] in s.store && S.Good(s.store[s.pages[i]])
  {
  }

  lemma DeletedAt(s: Seg, i: nat, j: uint16, q: Page)
    requires s.Valid() && i < |s.pages| && s.pages[i] in s.store && S.Good(s.store[s.pages[i]])
    requires j < S.NoRecords(s.store[s.pages[i]]) && S.SlotAt(j) >= 0 && q == S.Deleted(s.store[s.pages[i]], j)
    ensures var s' := s.(store := s.store[s.pages[i] := q]);
      && s'.Valid() && (s.Sound() ==> s'.Sound()) && At(s', TID(s.pages[i], j)) == None
      && (forall t: TID :: t == TID(s.pages[i], j) || SameAt(s, s', t))
      && PageOnly(s, s', s.pages[i])
  {
    var p := s.store[s.pages[i]];
    S.DeletedGood(p, j);
    hide S.Good, S.Stored, S.NoRecords, S.FreeSpace, S.SlotAt, S.Deleted, Nibble, EmptyFrom, Covered;
    var s' := s.(store := s.store[s.pages[i] := q]);
    assert s'.Valid();
    if s.Sound() {
      forall k | 0 <= k < |s'.pages| ensures s'.CoveredAt(k) {
        assert s.CoveredAt(k);
      }
    }
  }

  /** Only this data page has other bytes; it still has as many records and as much free space as before. */
  ghost predicate PageOnly(s: Seg, s': Seg, p: uint32) {
    && p in s.pages && p in s.store && p in s'.store && s' == s.(store := s.store[p := s'.store[p]])
    && S.NoRecords(s'.store[p]) == S.NoRecords(s.store[p]) && S.FreeSpace(s'.store[p]) == S.FreeSpace(s.store[p])
  }

  lemma PageOnlyFramed(s: Seg, s': Seg, p: uint32)
    requires PageOnly(s, s', p)
    ensures s.Framed(s', {p}) && s'.pages == s.pages
  {
  }

  // ----- scanning -----

  /** Does the scan meet t before record j of page i? */
  ghost predicate Before(s: Seg, t: TID, i: nat, j: nat) {
    exists k :: 0 <= k <= i && k < |s.pages| && s.pages[k] == t.pageNo && (k < i || t.tupleNo < j)
  }

  /** The result so far: the live tuples before record j of page i, each once. */
  ghost predicate Scanned(s: Seg, res: seq<TID>, i: nat, j: nat) {
    && (forall t: TID :: t in res <==> Live(s, t) && Before(s, t, i, j))
    && (forall a, b :: 0 <= a < b < |res| ==> res[a] != res[b])
    && (forall a, b :: 0 <= a < b < |res| ==> Earlier(s, res[a], res[b]))
  }

  /** In the order of the data pages, and on a page in the order of the records. */
  ghost predicate Earlier(s: Seg, t: TID, u: TID) {
    exists i, j ::
      && 0 <= i <= j < |s.pages| && s.pages[i] == t.pageNo && s.pages[j] == u.pageNo
      && (i < j || t.tupleNo < u.tupleNo)
  }

  lemma EarlierThan(s: Seg, t: TID, i: nat, j: uint16)
    requires i < |s.pages| && Before(s, t, i, j)
    ensures Earlier(s, t, TID(s.pages[i], j))
  {
    var k :| 0 <= k <= i && k < |s.pages| && s.pages[k] == t.pageNo && (k < i || t.tupleNo < j);
    assert s.pages[k] == t.pageNo && s.pages[i] == TID(s.pages[i], j).pageNo;
  }

  ghost predicate Live(s: Seg, t: TID) {
    At(s, t).Some?
  }

  lemma BeforeNext(s: Seg, t: TID, i: nat, j: nat)
    requires NoDup(s.pages) && i < |s.pages|
    ensures Before(s, t, i, j + 1) <==> Before(s, t, i, j) || (t.pageNo == s.pages[i] && t.tupleNo == j)
    ensures t.pageNo == s.pages[i] && t.tupleNo == j ==> !Before(s, t, i, j)
  {
    if Before(s, t, i, j) {
      var k :| 0 <= k <= i && k < |s.pages| && s.pages[k] == t.pageNo && (k < i || t.tupleNo < j);
      assert k < i || t.tupleNo < j + 1;
    }
    if t.pageNo == s.pages[i] && t.tupleNo == j {
      assert s.pages[i] == t.pageNo && (i < i || t.tupleNo < j + 1);
    }
  }

  lemma ScannedRecord(s: Seg, res: seq<TID>, i: nat, j: uint16, live: bool)
    requires NoDup(s.pages) && i < |s.pages| && Scanned(s, res, i, j)
    requires live <==> Live(s, TID(s.pages[i], j))
    ensures Scanned(s, if live then res + [TID(s.pages[i], j)] else res, i, j + 1)
  {
    hide Live, Before, Earlier;
    var next := TID(s.pages[i], j);
    var res' := if live then res + [next] else res;
    BeforeNext(s, next, i, j);
    forall a, b | 0 <= a < b < |res'| ensures Earlier(s, res'[a], res'[b]) {
      if b == |res| {
        assert res[a] in res;
        EarlierThan(s, res[a], i, j);
      }
    }
    forall t: TID ensures t in res' <==> Live(s, t) && Before(s, t, i, j + 1) {
      BeforeNext(s, t, i, j);
    }
  }

  lemma ScannedPage(s: Seg, res: seq<TID>, i: nat, n: nat)
    requires i < |s.pages| && s.pages[i] in s.store && n == S.NoRecords(s.store[s.pages[i]]) && Scanned(s, res, i, n)
    ensures Scanned(s, res, i + 1, 0)
  {
    forall t: TID ensures t in res <==> Live(s, t) && Before(s, t, i + 1, 0) {
      LiveBelow(s, t, i, n);
    }
  }

  lemma LiveBelow(s: Seg, t: TID, i: nat, n: nat)
    requires i < |s.pages| && s.pages[i] in s.store && n == S.NoRecords(s.store[s.pages[i]])
    ensures Live(s, t) ==> (Before(s, t, i + 1, 0) <==> Before(s, t, i, n))
  {
    hide S.Stored, S.NoRecords;
    if Live(s, t) && Before(s, t, i + 1, 0) {
      var k :| 0 <= k <= i + 1 && k < |s.pages| && s.pages[k] == t.pageNo && (k < i + 1 || t.tupleNo < 0);
      assert k < i || t.tupleNo < n;
    }
    if Live(s, t) && Before(s, t, i, n) {
      var k :| 0 <= k <= i && k < |s.pages| && s.pages[k] == t.pageNo && (k < i || t.tupleNo < n);
      assert k < i + 1 || t.tupleNo < 0;
    }
  }

  lemma ScannedAll(s: Seg, res: seq<TID>)
    requires Scanned(s, res, |s.pages|, 0)
    ensures forall t: TID :: t in res <==> Live(s, t)
  {
    forall t: TID ensures Live(s, t) ==> Before(s, t, |s.pages|, 0) {
      AllBefore(s, t);
    }
  }

  lemma AllBefore(s: Seg, t: TID)
    ensures Live(s, t) ==> Before(s, t, |s.pages|, 0)
  {
    if Live(s, t) {
      var k :| 0 <= k < |s.pages| && s.pages[k] == t.pageNo;
      assert k < |s.pages| || t.tupleNo < 0;
    }
  }

  lemma ScannedOnce(s: Seg, res: seq<TID>)
    requires Scanned(s, res, |s.pages|, 0)
    ensures forall j, k :: 0 <= j < k < |res| ==> res[j] != res[k]
    ensures forall j, k :: 0 <= j < k < |res| ==> Earlier(s, res[j], res[k])
  {
    hide Live, Before, Earlier;
  }

  lemma RecordLive(s: Seg, i: nat, j: uint16)
    requires s.Readable() && i < |s.pages| && s.pages[i] in s.store && j < S.NoRecords(s.store[s.pages[i]])
    ensures S.SlotAt(j) >= 0 && (Live(s, TID(s.pages[i], j)) <==> S.Stored(s.store[s.pages[i]], j).Some?)
  {
    GoodFacts(s.store[s.pages[i]]);
    hide S.Good, S.Stored, S.NoRecords;
  }

  lemma PagesDistinct(s: Seg)
    requires s.Readable()
    ensures NoDup(s.pages)
  {
  }

  lemma ScannedNone(s: Seg)
    ensures Scanned(s, [], 0, 0)
  {
  }

  /** At most n data pages (and as many index pages) were taken. */
  ghost predicate Consumed(s: Seg, s': Seg, n: nat) {
    |s'.pages| <= |s.pages| + n && |s.unallocated| <= |s'.unallocated| + 2 * n
  }

  lemma ReservedConsumed(s: Seg, m: Seg, i: nat, buckets: nat)
    requires s.Reserved(m, i, buckets)
    ensures Consumed(s, m, 1)
  {
    hide FirstFit;
  }

  lemma InsertedNone(s: Seg)
    ensures Inserted(s, s, [], [])
  {
    hide At;
  }

  lemma KeptKept(s: Seg, m: Seg, s': Seg)
    requires Kept(s, m) && Kept(m, s')
    ensures Kept(s, s')
  {
    hide At;
    forall t: TID ensures At(s, t) == None || SameAt(s, s', t) {
      assert At(s, t) == None || SameAt(s, m, t);
      assert At(m, t) == None || SameAt(m, s', t);
    }
  }

  lemma BulkSound(s: Seg, m: Seg, i: nat, buckets: nat, p: Page, q: Page, bin: seq<Tuple>, tids: seq<TID>)
    requires s.Valid() && s.Reserved(m, i, buckets) && m.Separate() && m.Mapped() && i < |m.pages|
    requires PageBefore(s, i, p) && S.Good(p) && |tids| <= |bin| && Extended(p, q, bin[..|tids|])
    requires buckets == Buckets(Total(bin)) && (Total(bin) <= S.FreeSpace(p) ==> |tids| == |bin|)
    ensures s.Sound() ==> |tids| == |bin| && WithPage(m, i, q).Sound()
  {
    hide Seg.Valid, Seg.Reserved, Seg.Separate, Seg.Mapped, Seg.Sound, PageBefore, Extended, Buckets, Total,
      S.Good, S.FreeSpace;
    if s.Sound() {
      BulkStatus(Total(bin));
      GoodFacts(p);
      RoomThere(s, m, i, buckets, p, Total(bin));
      assert bin[..|bin|] == bin;
      SoundKept(s, m, i, buckets, p, q, bin);
    }
  }

  /** A request for bytes is passed on as a 32-bit number. */
  const MAX_REQUEST: nat := 0x1_0000_0000

  /** ((4096 - 24) / 15) * 15 */
  const BIN: nat := 4065

  lemma TotalNext(all: seq<Tuple>, from: nat, to: nat)
    requires from <= to < |all|
    ensures Total(all[from..to + 1]) == Total(all[from..to]) + Align(|all[to]|) + S.SLOT
    ensures Total(all[from..from]) == 0
  {
    assert all[from..to + 1][..to - from] == all[from..to];
  }

  lemma {:induction false} TotalPrefix(tuples: seq<Tuple>, i: nat)
    requires i < |tuples|
    ensures Total(tuples[..i]) + Align(|tuples[i]|) + S.SLOT <= Total(tuples)
    decreases |tuples|
  {
    var n := |tuples| - 1;
    if i < n {
      TotalPrefix(tuples[..n], i);
      assert tuples[..n][..i] == tuples[..i];
    }
  }

  lemma KeptSame(s: Seg)
    ensures Kept(s, s)
  {
    hide At;
  }

  /** Writing the page back completes the insertion. */
  lemma Completed(
    s: Seg, m: Seg, i: nat, buckets: nat, p: Page, q: Page, tuples: seq<Tuple>, tids: seq<TID>)
    requires s.Valid() && s.Reserved(m, i, buckets) && m.Separate() && m.Mapped()
    requires i < |m.pages| && PageBefore(s, i, p) && Extended(p, q, tuples) && |tids| == |tuples|
    requires forall k :: 0 <= k < |tids| ==> tids[k] == TID(m.pages[i], S.NoRecords(p) + k)
    ensures WithPage(m, i, q).Valid() && Inserted(s, WithPage(m, i, q), tids, tuples)
  {
    hide Seg.Valid, Seg.Reserved, Seg.Separate, Seg.Mapped, PageBefore, Gained, Inserted, S.NoRecords, S.Good, S.Stored,
      S.FreeSpace, S.SlotAt, HoldsAt, SameRecord;
    StoredValid(s, m, i, buckets, q);
    StoredGained(s, m, i, buckets, p, q, tuples);
    GainedInserted(s, WithPage(m, i, q), m.pages[i], S.NoRecords(p), tuples, tids);
  }

  /** A failed insertion has only raised the occupancy. */
  lemma Abandoned(s: Seg, m: Seg, i: nat, buckets: nat, p: Page)
    requires s.Valid() && s.Reserved(m, i, buckets) && m.Separate() && m.Mapped()
    requires i < |s.pages| && PageBefore(s, i, p)
    ensures m.Valid() && Inserted(s, m, [], [])
  {
    hide S.Good, EmptyFrom, FirstFit, Nibble, WithNibble, NoPages, Inserted;
    assert m.pages[i] != s.fsm && m.store[m.pages[i]] == p && S.Good(p);
    assert WithPage(m, i, p) == m;
    ExtendedNone(p);
    Completed(s, m, i, buckets, p, p, [], []);
  }

  /** A new page takes any single record; a sound page takes those that are covered. */
  lemma SingleRoom(s: Seg, m: Seg, i: nat, buckets: nat, p: Page, n: nat)
    requires s.Valid() && s.Reserved(m, i, buckets) && PageBefore(s, i, p) && S.Good(p) && n <= 4064
    requires buckets == Buckets(Align(n)) && Align(n) + S.SLOT > S.FreeSpace(p)
    ensures i < |s.pages| && !(s.Sound() && SafeSize(n))
  {
    hide S.Good, S.FreeSpace, EmptyFrom, FirstFit, WithNibble, Nibble, NoPages;
    GoodFacts(p);
    if s.Sound() && SafeSize(n) {
      SingleCovered(n);
      RoomThere(s, m, i, buckets, p, Align(n) + S.SLOT);
    }
  }

  lemma SingleSound(s: Seg, m: Seg, i: nat, buckets: nat, p: Page, q: Page, data: Tuple)
    requires s.Valid() && s.Reserved(m, i, buckets) && m.Separate() && m.Mapped() && i < |m.pages|
    requires PageBefore(s, i, p) && Extended(p, q, [data]) && buckets == Buckets(Align(|data|))
    ensures s.Sound() && SafeSize(|data|) ==> WithPage(m, i, q).Sound()
  {
    hide Seg.Valid, Seg.Reserved, Seg.Separate, Seg.Mapped, Seg.Sound, PageBefore, Extended, Buckets, Align;
    if s.Sound() && SafeSize(|data|) {
      SingleCovered(|data|);
      TotalOne(data);
      SoundKept(s, m, i, buckets, p, q, [data]);
    }
  }

  // ----- which inserts are rejected -----

  /** The bytes used on data page j, slots included. */
  ghost function Used(s: Seg, j: nat): int {
    if j < |s.pages| && s.pages[j] in s.store then S.SPACE - S.FreeSpace(s.store[s.pages[j]]) else 0
  }

  /** The occupancy that the map has for data page j. */
  ghost function Occupied(s: Seg, j: nat): nat {
    if j < MAX_PAGES && s.fsm in s.store then Nibble(s.store[s.fsm], j) else 0
  }

  /** The map picks data page i, or the next new page, for a tuple of n bytes. */
  ghost predicate Picks(s: Seg, n: nat, i: nat) {
    i <= |s.pages| && s.fsm in s.store && FirstFit(s.store[s.fsm], Buckets(Align(n)), i)
  }

  /** A tuple of n bytes fits no page, or not the one that the map picks for it. */
  ghost predicate Rejected(s: Seg, n: nat) {
    n > 4064 || exists i :: 0 <= i < |s.pages| && Picks(s, n, i) && Used(s, i) + Align(n) + S.SLOT > S.SPACE
  }

  /** Page i has b buckets more in the map and `bytes` bytes more in use, and all other pages are as before. */
  ghost predicate Charged(s: Seg, s': Seg, i: nat, b: nat, bytes: nat) {
    && i <= |s.pages| <= |s'.pages| && |s'.pages| == (if i == |s.pages| then i + 1 else |s.pages|)
    && s'.pages[..|s.pages|] == s.pages
    && forall j: nat :: j < |s'.pages| ==> ChargedAt(s, s', i, b, bytes, j)
  }

  ghost predicate ChargedAt(s: Seg, s': Seg, i: nat, b: nat, bytes: nat, j: nat) {
    if j == i then Occupied(s', j) == Occupied(s, j) + b && Used(s', j) == Used(s, j) + bytes
    else Occupied(s', j) == Occupied(s, j) && Used(s', j) == Used(s, j)
  }

  /** How many records are on data page i, 0 if it is still to be added. */
  ghost function RecordsOn(s: Seg, i: nat): nat {
    if i < |s.pages| && s.pages[i] in s.store then S.NoRecords(s.store[s.pages[i]]) else 0
  }

  /** The n-th of some tuples put on page i has the n-th free number there. */
  ghost predicate NumberedOn(s: Seg, s': Seg, i: nat, n: nat, t: TID) {
    i < |s'.pages| && t.pageNo == s'.pages[i] && t.tupleNo == RecordsOn(s, i) + n
  }

  /**
   * The page that the map picks is charged; the record is on it and has the next number there, or it is not if it was
   * rejected.
   */
  ghost predicate PutSomewhere(s: Seg, s': Seg, n: nat, r: Option<TID>) {
    exists i ::
      && Picks(s, n, i)
      && Charged(s, s', i, Buckets(Align(n)), if r.Some? then Align(n) + S.SLOT else 0)
      && (r.Some? ==> NumberedOn(s, s', i, 0, r.value))
  }

  lemma TooLarge(s: Seg, n: nat)
    ensures n > 4064 ==> Rejected(s, n)
    ensures SafeSize(n) ==> n <= 4064
  {
  }

  lemma RejectedHere(s: Seg, m: Seg, i: nat, buckets: nat, p: Page, n: nat)
    requires s.Valid() && s.Reserved(m, i, buckets) && PageBefore(s, i, p) && S.Good(p) && n <= 4064
    requires buckets == Buckets(Align(n))
    ensures Picks(s, n, i)
    ensures Rejected(s, n) <==> Align(n) + S.SLOT > S.FreeSpace(p)
  {
    hide S.Good, S.FreeSpace, Nibble, WithNibble, NoPages, EmptyFrom, Seg.Separate, Seg.Formed, Align, Buckets;
    GoodFacts(p);
    if i == |s.pages| {
      AlignUpTo(n);
    }
  }

  lemma AlignUpTo(n: nat)
    requires n <= 4064
    ensures Align(n) <= 4064
  {
  }

  lemma ChargedPage(s: Seg, m: Seg, i: nat, buckets: nat, p: Page, q: Page, tuples: seq<Tuple>, j: nat)
    requires s.Valid() && s.Reserved(m, i, buckets) && m.Separate() && m.Mapped() && PageBefore(s, i, p)
    requires Extended(p, q, tuples) && j < |m.pages|
    ensures ChargedAt(s, WithPage(m, i, q), i, buckets, Total(tuples), j)
  {
    hide S.Good, S.FreeSpace, EmptyFrom, FirstFit, Total, Nibble, WithNibble, NoPages, SameRecord, HoldsAt;
    MapKept(m, i, q);
    NibbleAfter(s, m, i, buckets, j);
    if j != i {
      assert m.pages[j] == s.pages[j];
    }
  }

  lemma ChargedAll(s: Seg, m: Seg, i: nat, buckets: nat, p: Page, q: Page, tuples: seq<Tuple>)
    requires s.Valid() && s.Reserved(m, i, buckets) && m.Separate() && m.Mapped() && PageBefore(s, i, p)
    requires Extended(p, q, tuples)
    ensures Charged(s, WithPage(m, i, q), i, buckets, Total(tuples))
  {
    hide S.Good, S.FreeSpace, FirstFit, Total, Seg.Valid, Seg.Separate, Seg.Mapped, PageBefore, Extended, ChargedAt;
    assert s.pages[..|s.pages|] == s.pages && |m.pages| == if i == |s.pages| then i + 1 else |s.pages|;
    forall j: nat | j < |m.pages|
      ensures ChargedAt(s, WithPage(m, i, q), i, buckets, Total(tuples), j)
    {
      ChargedPage(s, m, i, buckets, p, q, tuples, j);
    }
  }

  lemma RecordsBefore(s: Seg, i: nat, p: Page)
    requires PageBefore(s, i, p)
    ensures RecordsOn(s, i) == S.NoRecords(p)
  {
    hide S.NoRecords, S.FreeSpace;
  }

  lemma Put(s: Seg, m: Seg, i: nat, buckets: nat, p: Page, q: Page, data: Tuple, t: TID)
    requires s.Valid() && s.Reserved(m, i, buckets) && m.Separate() && m.Mapped() && PageBefore(s, i, p)
    requires Extended(p, q, [data]) && Picks(s, |data|, i) && buckets == Buckets(Align(|data|))
    requires i < |m.pages| && t.pageNo == m.pages[i] && t.tupleNo == S.NoRecords(p)
    ensures PutSomewhere(s, WithPage(m, i, q), |data|, Some(t))
  {
    hide Seg.Valid, Seg.Reserved, Seg.Separate, Seg.Mapped, PageBefore, Extended, Picks, Charged, Align, Buckets,
      RecordsOn, S.NoRecords;
    TotalOne(data);
    ChargedAll(s, m, i, buckets, p, q, [data]);
    RecordsBefore(s, i, p);
    assert NumberedOn(s, WithPage(m, i, q), i, 0, t);
  }

  lemma NotPut(s: Seg, m: Seg, i: nat, buckets: nat, p: Page, n: nat)
    requires s.Valid() && s.Reserved(m, i, buckets) && m.Separate() && m.Mapped() && PageBefore(s, i, p)
    requires i < |s.pages| && S.Good(p) && Picks(s, n, i) && buckets == Buckets(Align(n))
    ensures PutSomewhere(s, m, n, None)
  {
    hide Picks, Charged, Align, Buckets, S.Good, EmptyFrom, FirstFit, Nibble, WithNibble, NoPages;
    ExtendedNone(p);
    assert WithPage(m, i, p) == m;
    ChargedAll(s, m, i, buckets, p, p, []);
  }

  /**
   * On each data page there are records of these aligned sizes (deleted ones included), put there one by one, and
   * the map has charged them all; it may have charged rejected ones as well.
   */
  ghost predicate OnlySingles(s: Seg, sizes: seq<seq<nat>>) {
    |sizes| == |s.pages| && forall j :: 0 <= j < |sizes| ==> SinglesAt(s, sizes[j], j)
  }

  ghost predicate SinglesAt(s: Seg, sizes: seq<nat>, j: nat) {
    Records(sizes) && Charge(sizes) <= Occupied(s, j) && Used(s, j) == Sum(sizes) + S.SLOT * |sizes|
  }

  /**
   * On such a segment a single insert of a tuple that fits some page is rejected exactly if it would be the second
   * or third record of the page that the map picks, and all of them fill their buckets.
   */
  lemma SinglesRejected(s: Seg, sizes: seq<seq<nat>>, n: nat)
    requires s.Mapped() && OnlySingles(s, sizes) && 1 <= n <= 4064
    ensures Rejected(s, n) <==>
      exists i :: 0 <= i < |sizes| && Picks(s, n, i) && Overflowing(sizes[i] + [Align(n)])
  {
    hide Picks, SinglesAt, Seg.Mapped, Align;
    forall i | 0 <= i < |sizes| && Picks(s, n, i)
      ensures Used(s, i) + Align(n) + S.SLOT > S.SPACE <==> Overflowing(sizes[i] + [Align(n)])
    {
      SinglesHere(s, sizes[i], n, i);
    }
  }

  lemma SinglesHere(s: Seg, sizes: seq<nat>, n: nat, i: nat)
    requires SinglesAt(s, sizes, i) && Picks(s, n, i) && 1 <= n <= 4064
    ensures Used(s, i) + Align(n) + S.SLOT > S.SPACE <==> Overflowing(sizes + [Align(n)])
  {
    hide Nibble, Sum, Charge, Used;
    AlignUpTo(n);
    Append(sizes, Align(n));
    SinglesOverflow(sizes + [Align(n)]);
  }

  /** The sizes after an insert of a tuple of n bytes. */
  ghost function SizesAfter(sizes: seq<seq<nat>>, i: nat, n: nat, done: bool): seq<seq<nat>>
    requires i <= |sizes|
  {
    if !done then sizes else if i == |sizes| then sizes + [[Align(n)]] else sizes[i := sizes[i] + [Align(n)]]
  }

  /** A single insert of a non-empty tuple, rejected or not, keeps the segment one of single records. */
  lemma SinglesKept(s: Seg, s': Seg, sizes: seq<seq<nat>>, n: nat, r: Option<TID>)
    requires s.Mapped() && OnlySingles(s, sizes) && 1 <= n <= 4064 && PutSomewhere(s, s', n, r)
    requires r == None ==> |s'.pages| == |s.pages|
    ensures exists i :: 0 <= i <= |sizes| && Picks(s, n, i) && OnlySingles(s', SizesAfter(sizes, i, n, r.Some?))
  {
    hide Picks, Seg.Mapped, Align, Buckets, ChargedAt, SinglesAt, NumberedOn;
    var done := r.Some?;
    var b, bytes := Buckets(Align(n)), if done then Align(n) + S.SLOT else 0;
    var i :| Picks(s, n, i) && Charged(s, s', i, b, bytes) && (r.Some? ==> NumberedOn(s, s', i, 0, r.value));
    var after := SizesAfter(sizes, i, n, done);
    forall j | 0 <= j < |after| ensures SinglesAt(s', after[j], j) {
      assert ChargedAt(s, s', i, b, bytes, j);
      if j < |sizes| {
        SinglesAfter(s, s', sizes[j], i, j, n, done);
      } else {
        NothingYet(s, j);
        SinglesAfter(s, s', [], i, j, n, done);
        assert [] + [Align(n)] == [Align(n)];
      }
    }
  }

  lemma NothingYet(s: Seg, j: nat)
    requires j >= |s.pages|
    ensures SinglesAt(s, [], j)
  {
  }

  lemma SinglesAfter(s: Seg, s': Seg, sizes: seq<nat>, i: nat, j: nat, n: nat, done: bool)
    requires SinglesAt(s, sizes, j) && 1 <= n <= 4064
    requires ChargedAt(s, s', i, Buckets(Align(n)), if done then Align(n) + S.SLOT else 0, j)
    ensures SinglesAt(s', if j == i && done then sizes + [Align(n)] else sizes, j)
  {
    hide Sum, Charge, Used, Occupied, Buckets;
    AlignUpTo(n);
    Append(sizes, Align(n));
  }

  /** On an empty segment a tuple of 2168 bytes and then one of 1896 bytes: the second is rejected. */
  method SecondRejected(seg: SegmentFSM_SP, first: Tuple, second: Tuple) returns (r: Option<TID>, q: Option<TID>)
    requires seg.base.View().Valid() && seg.base.pages == [] && seg.base.View().Spare(2)
    requires |first| == 2168 && |second| == 1896
    modifies seg, seg.base
    ensures r.Some? && q.None?
  {
    hide Seg.Valid, Seg.Sound, Inserted, Rejected, PutSomewhere, OnlySingles;
    ghost var s := seg.base.View();
    NoSizes(s);
    r := seg.InsertTuple(first);
    SecondHas(s, seg.base.View(), r);
    q := seg.InsertTuple(second);
  }

  lemma NoSizes(s: Seg)
    requires s.Valid() && s.pages == []
    ensures s.Mapped() && OnlySingles(s, []) && Occupied(s, 0) == 0 && !Rejected(s, 2168)
  {
    hide Seg.Separate, Seg.Formed, NoPages, Picks;
  }

  lemma SecondHas(s: Seg, s': Seg, r: Option<TID>)
    requires s.Mapped() && s.pages == [] && OnlySingles(s, []) && Occupied(s, 0) == 0
    requires r.Some? && PutSomewhere(s, s', 2168, r) && s'.Valid()
    ensures Rejected(s', 1896)
  {
    hide Seg.Separate, Seg.Formed, EmptyFrom, Nibble, FirstFit, ChargedAt, SinglesAt;
    SinglesKept(s, s', [], 2168, r);
    assert SizesAfter([], 0, 2168, true) == [[2168]];
    Half(s, s', r);
    PicksFirst(s', 1896);
    SinglesRejected(s', [[2168]], 1896);
    OverflowExamples();
    assert [[2168]][0] + [Align(1896)] == [2168, 1896];
  }

  lemma Half(s: Seg, s': Seg, r: Option<TID>)
    requires s.pages == [] && Occupied(s, 0) == 0 && r.Some? && PutSomewhere(s, s', 2168, r)
    ensures |s'.pages| == 1 && Occupied(s', 0) == 8
  {
    hide Occupied, Used, Picks, NumberedOn;
    var i :| Picks(s, 2168, i) && Charged(s, s', i, Buckets(Align(2168)), Align(2168) + S.SLOT)
      && (r.Some? ==> NumberedOn(s, s', i, 0, r.value));
    assert ChargedAt(s, s', i, 8, 2174, 0);
  }

  lemma PicksFirst(s: Seg, n: nat)
    requires s.Mapped() && Occupied(s, 0) + Buckets(Align(n)) < STATUS_SIZE
    ensures Picks(s, n, 0)
  {
    hide NoPages, EmptyFrom, Nibble;
  }

  // ----- other segments of the partition -----

  /** Segment o has no page in common with segment s, and the partition has the same pages left for both. */
  ghost predicate Apart(o: Seg, s: Seg) {
    && o.store == s.store && o.unallocated == s.unallocated
    && (forall p :: p in o.pages || p in o.indexPages || p == o.fsm ==>
          p !in s.pages && p !in s.indexPages && p != s.fsm && p !in s.unallocated)
  }

  /** What segment o is after an operation took s to s'. */
  ghost function Beside(o: Seg, s': Seg): Seg {
    o.(store := s'.store, unallocated := s'.unallocated)
  }

  /** An operation on a segment changes no tuple of any other segment, and leaves it in order. */
  lemma OtherSegment(o: Seg, s: Seg, s': Seg, own: set<uint32>)
    requires o.Valid() && Apart(o, s) && s.Framed(s', own) && own <= s'.DataPages()
    ensures forall t: TID :: SameAt(o, Beside(o, s'), t)
    ensures Beside(o, s').Valid() && (o.Sound() ==> Beside(o, s').Sound()) && Apart(Beside(o, s'), s')
  {
    hide S.Good, S.FreeSpace, S.NoRecords, S.Stored, S.SlotAt, EmptyFrom, NoPages, NextFsm, Nibble, Covered, At;
    forall p | p in o.pages || p in o.indexPages || p == o.fsm
      ensures p in s.store ==> p in s'.store && s'.store[p] == s.store[p]
    {
      assert p !in s'.pages;
    }
    var o' := Beside(o, s');
    forall i | 0 <= i < |o.pages| ensures o.pages[i] in o'.store && o'.store[o.pages[i]] == o.store[o.pages[i]] {
      assert o.pages[i] in o.pages;
    }
    forall t: TID ensures SameAt(o, o', t) {
      SameBeside(o, o', t);
    }
    if o.Sound() {
      forall i | 0 <= i < |o.pages| ensures o'.CoveredAt(i) {
        assert o.CoveredAt(i);
      }
    }
  }

  lemma SameBeside(o: Seg, o': Seg, t: TID)
    requires o'.pages == o.pages
    requires forall i :: 0 <= i < |o.pages| ==>
      (o.pages[i] in o'.store <==> o.pages[i] in o.store) &&
      (o.pages[i] in o.store ==> o'.store[o.pages[i]] == o.store[o.pages[i]])
    ensures SameAt(o, o', t)
  {
    hide S.NoRecords, S.Stored, S.SlotAt;
    assert t.pageNo in o.pages ==> exists i :: 0 <= i < |o.pages| && o.pages[i] == t.pageNo;
  }

  // ----- where the tuples of a bulk insert go -----

  /** All tuples are on the page that the map picks for their total, numbered on from the records there. */
  ghost predicate BulkOn(s: Seg, s': Seg, i: nat, tuples: seq<Tuple>, tids: seq<TID>) {
    && i <= |s.pages| && s.fsm in s.store && FirstFit(s.store[s.fsm], Buckets(Total(tuples)), i)
    && Charged(s, s', i, Buckets(Total(tuples)), Total(tuples))
    && |tids| == |tuples| && forall k :: 0 <= k < |tids| ==> NumberedOn(s, s', i, k, tids[k])
  }

  ghost predicate OnOnePage(s: Seg, s': Seg, tuples: seq<Tuple>, tids: seq<TID>) {
    exists i :: BulkOn(s, s', i, tuples, tids)
  }

  /** The tuples from a on that fit one page together, as many as there are. */
  ghost predicate Bin(tuples: seq<Tuple>, a: nat, b: nat) {
    && a < b <= |tuples| && Total(tuples[a..b]) <= 4065
    && (b < |tuples| ==> Total(tuples[a..b + 1]) > 4065)
  }

  /** The first n tuples went to a page for each of their bins, one bin after the other. */
  ghost predicate Binned(s: Seg, s': Seg, tuples: seq<Tuple>, n: nat, tids: seq<TID>, cuts: seq<nat>, ss: seq<Seg>) {
    && |cuts| == |ss| > 0 && cuts[0] == 0 && cuts[|cuts| - 1] == n <= |tuples| && |tids| == n
    && ss[0] == s && ss[|ss| - 1] == s'
    && forall k :: 0 <= k < |cuts| - 1 ==> BinAt(tuples, tids, cuts, ss, k)
  }

  ghost predicate BinAt(tuples: seq<Tuple>, tids: seq<TID>, cuts: seq<nat>, ss: seq<Seg>, k: nat)
    requires |cuts| == |ss| && k < |cuts| - 1
  {
    && Bin(tuples, cuts[k], cuts[k + 1]) && cuts[k + 1] <= |tids|
    && OnOnePage(ss[k], ss[k + 1], tuples[cuts[k]..cuts[k + 1]], tids[cuts[k]..cuts[k + 1]])
  }

  /** The tuples went to a page for each bin, in their order. */
  ghost predicate InBins(s: Seg, s': Seg, tuples: seq<Tuple>, tids: seq<TID>) {
    exists cuts, ss :: Binned(s, s', tuples, |tuples|, tids, cuts, ss)
  }

  /** Tuples that fit a page together go to one page; more tuples go there bin by bin. */
  ghost predicate BulkPut(s: Seg, s': Seg, tuples: seq<Tuple>, tids: seq<TID>) {
    if Total(tuples) <= 4065 then OnOnePage(s, s', tuples, tids) else InBins(s, s', tuples, tids)
  }

  /**
   * The insert stopped half-way: the map picked a page that it has but that has no room for the total. The page is
   * charged for all, and has the tuples before the first that did not fit.
   */
  ghost predicate StoppedOn(s: Seg, s': Seg, i: nat, tuples: seq<Tuple>, n: nat) {
    && i < |s.pages| && s.fsm in s.store && FirstFit(s.store[s.fsm], Buckets(Total(tuples)), i)
    && n < |tuples| && Charged(s, s', i, Buckets(Total(tuples)), Total(tuples[..n]))
    && Used(s, i) + Total(tuples[..n + 1]) > 4072
  }

  ghost predicate OneStopped(s: Seg, s': Seg, tuples: seq<Tuple>) {
    exists i, n :: StoppedOn(s, s', i, tuples, n)
  }

  /** The bins before the one of the tuples a, .., b - 1 went to their pages, and that one stopped half-way. */
  ghost predicate StoppedIn(s: Seg, m: Seg, s': Seg, tuples: seq<Tuple>, a: nat, b: nat, tids: seq<TID>,
                            cuts: seq<nat>, ss: seq<Seg>)
  {
    && Binned(s, m, tuples, a, tids, cuts, ss) && a <= b <= |tuples| && Bin(tuples, a, b)
    && OneStopped(m, s', tuples[a..b])
  }

  ghost predicate BinStopped(s: Seg, s': Seg, tuples: seq<Tuple>) {
    exists m, a, b, tids, cuts, ss :: StoppedIn(s, m, s', tuples, a, b, tids, cuts, ss)
  }

  /** Where a bulk insert that fails has come to. */
  ghost predicate BulkStopped(s: Seg, s': Seg, tuples: seq<Tuple>) {
    if Total(tuples) <= 4065 then OneStopped(s, s', tuples) else BinStopped(s, s', tuples)
  }

  lemma StoppedBulk(s: Seg, m: Seg, i: nat, buckets: nat, p: Page, q: Page, tuples: seq<Tuple>, n: nat)
    requires s.Valid() && s.Reserved(m, i, buckets) && m.Separate() && m.Mapped() && i < |m.pages|
    requires S.Good(p) && PageBefore(s, i, p) && n < |tuples| && Extended(p, q, tuples[..n])
    requires buckets == Buckets(Total(tuples)) && Total(tuples) <= 4065
    requires Total(tuples[..n + 1]) > S.FreeSpace(p)
    ensures OneStopped(s, WithPage(m, i, q), tuples)
  {
    hide Seg.Valid, Seg.Separate, Seg.Mapped, Extended, Charged, Buckets, Total, FirstFit, S.NoRecords, S.Good,
      S.FreeSpace, WithNibble;
    ChargedAll(s, m, i, buckets, p, q, tuples[..n]);
    TotalWhole(tuples, n + 1);
    assert StoppedOn(s, WithPage(m, i, q), i, tuples, n);
  }

  lemma TotalWhole(tuples: seq<Tuple>, n: nat)
    requires n <= |tuples|
    ensures Total(tuples[..n]) <= Total(tuples)
  {
    hide Total;
    TotalGrows(tuples, 0, n, |tuples|);
    assert tuples[0..n] == tuples[..n] && tuples[0..|tuples|] == tuples;
  }

  lemma TotalPart(tuples: seq<Tuple>, i: nat)
    requires i < |tuples|
    ensures Total(tuples[..i + 1]) == Total(tuples[..i]) + Align(|tuples[i]|) + S.SLOT
  {
    assert tuples[..i + 1][..i] == tuples[..i];
  }

  /** The bins are determined by the sizes of the tuples: there is only one way to cut them. */
  lemma {:induction false} OneCut(tuples: seq<Tuple>, a: nat, b: nat, c: nat)
    requires Bin(tuples, a, b) && Bin(tuples, a, c)
    ensures b == c
  {
    hide Total;
    if b < c {
      TotalGrows(tuples, a, b + 1, c);
    } else if c < b {
      TotalGrows(tuples, a, c + 1, b);
    }
  }

  lemma {:induction false} TotalGrows(tuples: seq<Tuple>, a: nat, b: nat, c: nat)
    requires a <= b <= c <= |tuples|
    ensures Total(tuples[a..b]) <= Total(tuples[a..c])
    decreases c
  {
    hide Total;
    if b < c {
      TotalGrows(tuples, a, b, c - 1);
      TotalNext(tuples, a, c - 1);
    }
  }

  lemma PutBulk(s: Seg, m: Seg, i: nat, buckets: nat, p: Page, q: Page, tuples: seq<Tuple>, tids: seq<TID>)
    requires s.Valid() && s.Reserved(m, i, buckets) && m.Separate() && m.Mapped() && i < |m.pages|
    requires PageBefore(s, i, p) && Extended(p, q, tuples) && buckets == Buckets(Total(tuples))
    requires |tids| == |tuples|
    requires forall k :: 0 <= k < |tids| ==> tids[k] == TID(m.pages[i], S.NoRecords(p) + k)
    ensures OnOnePage(s, WithPage(m, i, q), tuples, tids)
  {
    hide Seg.Valid, Seg.Separate, Seg.Mapped, PageBefore, Extended, Charged, Buckets, Total, FirstFit, RecordsOn,
      S.NoRecords, WithNibble;
    ChargedAll(s, m, i, buckets, p, q, tuples);
    RecordsBefore(s, i, p);
    forall k | 0 <= k < |tids| ensures NumberedOn(s, WithPage(m, i, q), i, k, tids[k]) {
    }
    assert BulkOn(s, WithPage(m, i, q), i, tuples, tids);
  }

  lemma BinnedNone(s: Seg, tuples: seq<Tuple>)
    ensures Binned(s, s, tuples, 0, [], [0], [s])
  {
  }

  lemma BinIs(all: seq<Tuple>, start: nat, size: nat, begin: nat, end: nat)
    requires begin < end <= size && start + size <= |all|
    requires Total(all[start + begin..start + end]) <= BIN
    requires end < size ==> Total(all[start + begin..start + end + 1]) > BIN
    ensures Bin(all[start..start + size], begin, end)
    ensures all[start..start + size][begin..end] == all[start + begin..start + end]
  {
    hide Total;
    Slice(all, start, size, begin, end);
    if end < size {
      Slice(all, start, size, begin, end + 1);
    }
  }

  lemma Slice<T>(s: seq<T>, start: nat, size: nat, a: nat, b: nat)
    requires a <= b <= size && start + size <= |s|
    ensures s[start..start + size][a..b] == s[start + a..start + b]
  {
    var t := s[start..start + size];
    assert forall k :: a <= k < b ==> t[k] == s[start + k];
    assert forall k :: 0 <= k < b - a ==> t[a..b][k] == s[start + a..start + b][k];
  }

  lemma BinnedMore(s: Seg, m: Seg, s': Seg, tuples: seq<Tuple>, a: nat, b: nat, tids: seq<TID>, more: seq<TID>,
                   cuts: seq<nat>, ss: seq<Seg>)
    requires Binned(s, m, tuples, a, tids, cuts, ss) && Bin(tuples, a, b) && |more| == b - a
    requires OnOnePage(m, s', tuples[a..b], more)
    ensures Binned(s, s', tuples, b, tids + more, cuts + [b], ss + [s'])
  {
    hide OnOnePage, Bin;
    var all, cuts', ss' := tids + more, cuts + [b], ss + [s'];
    BinBounds(tuples, a, b);
    forall k | 0 <= k < |cuts'| - 1 ensures BinAt(tuples, all, cuts', ss', k) {
      if k < |cuts| - 1 {
        assert BinAt(tuples, tids, cuts, ss, k);
        BinBounds(tuples, cuts[k], cuts[k + 1]);
        assert all[cuts[k]..cuts[k + 1]] == tids[cuts[k]..cuts[k + 1]];
      } else {
        assert all[a..b] == more;
      }
    }
  }

  lemma BinBounds(tuples: seq<Tuple>, a: nat, b: nat)
    requires Bin(tuples, a, b)
    ensures a < b <= |tuples|
  {
  }

  // ----- what an operation leaves alone -----

  ghost function PagesOf(tids: seq<TID>): set<uint32> {
    set t | t in tids :: t.pageNo
  }

  lemma FramedSame(s: Seg)
    ensures s.Framed(s, {})
  {
  }

  lemma FramedMore(s: Seg, s': Seg, own: set<uint32>, more: set<uint32>)
    requires s.Framed(s', own) && own <= more
    ensures s.Framed(s', more)
  {
  }

  lemma FramedThrough(s: Seg, m: Seg, s': Seg, a: set<uint32>, b: set<uint32>)
    requires s.Framed(m, a) && m.Framed(s', b)
    ensures s.Framed(s', a + b)
  {
  }

  lemma FramedData(s: Seg, m: Seg, s': Seg, own: set<uint32>)
    requires s.Framed(m, own) && m.Framed(s', s'.DataPages()) && own <= m.DataPages()
    ensures s.Framed(s', s'.DataPages())
  {
    FramedThrough(s, m, s', own, s'.DataPages());
    assert own + s'.DataPages() == s'.DataPages();
  }

  lemma FramedGrows(s: Seg, s': Seg, own: set<uint32>)
    requires s.Framed(s', own)
    ensures s.DataPages() <= s'.DataPages()
  {
  }

  /** The page that got the tuples is the one they name, or a new one, or it is as before. */
  lemma BulkFramed(s: Seg, m: Seg, i: nat, buckets: nat, p: Page, q: Page, tids: seq<TID>)
    requires s.Valid() && s.Reserved(m, i, buckets) && m.Separate() && i < |m.pages| && PageBefore(s, i, p)
    requires forall k :: 0 <= k < |tids| ==> tids[k].pageNo == m.pages[i]
    requires tids == [] ==> q == p
    ensures s.Framed(WithPage(m, i, q), PagesOf(tids)) && PagesOf(tids) <= m.DataPages()
    ensures s.Framed(WithPage(m, i, q), m.DataPages())
  {
    hide FirstFit, WithNibble, Seg.Formed, EmptyFrom, S.NoRecords, S.FreeSpace, Seg.Framed;
    WrittenFramed(s, m, i, buckets, q);
    FramedMore(s, WithPage(m, i, q), {m.pages[i]}, m.DataPages());
    if tids == [] {
      assert PagesOf(tids) == {};
      NothingWritten(s, m, i, buckets, p);
    } else {
      assert tids[0] in tids;
      assert {m.pages[i]} <= PagesOf(tids);
      FramedMore(s, WithPage(m, i, q), {m.pages[i]}, PagesOf(tids));
    }
  }

  lemma NothingWritten(s: Seg, m: Seg, i: nat, buckets: nat, p: Page)
    requires s.Valid() && s.Reserved(m, i, buckets) && m.Separate() && i < |m.pages| && PageBefore(s, i, p)
    ensures s.Framed(WithPage(m, i, p), {})
  {
    hide FirstFit, WithNibble, EmptyFrom, S.NoRecords, S.FreeSpace, S.Good;
    WrittenFramed(s, m, i, buckets, p);
  }

  lemma ReservedFramed(s: Seg, m: Seg, i: nat, buckets: nat)
    requires s.Valid() && s.Reserved(m, i, buckets) && m.Separate()
    ensures s.Framed(m, {})
  {
    hide FirstFit, WithNibble, Seg.Formed, Seg.Mapped, Seg.Separate, Seg.Grown;
    if i == |s.pages| {
      GrownFramed(s, m);
    }
    MapOnFile(s);
  }

  lemma MapOnFile(s: Seg)
    requires s.Valid()
    ensures s.fsm in s.store
  {
  }

  lemma GrownFramed(s: Seg, m: Seg)
    requires s.Grown(m)
    ensures s.pages <= m.pages && s.indexPages <= m.indexPages && m.unallocated <= s.unallocated
    ensures forall p :: p in m.pages ==> p in s.pages || p in s.unallocated
    ensures forall p :: p in m.indexPages ==> p in s.indexPages || p in s.unallocated
  {
    var n := |s.pages|;
    assert m.pages == m.pages[..n] + [m.pages[n]];
    if |s.pages| + 1 >= |s.indexPages| * 4064 {
      var k := |s.indexPages|;
      assert m.indexPages == m.indexPages[..k] + [m.indexPages[k]];
    }
  }

  lemma WrittenFramed(s: Seg, m: Seg, i: nat, buckets: nat, q: Page)
    requires s.Valid() && s.Reserved(m, i, buckets) && m.Separate()
    ensures s.Framed(WithPage(m, i, q), {m.pages[i]})
  {
    hide FirstFit, WithNibble, Seg.Formed, EmptyFrom;
    ReservedFramed(s, m, i, buckets);
    PageOnFile(s, m, i, buckets);
  }

  lemma PageOnFile(s: Seg, m: Seg, i: nat, buckets: nat)
    requires s.Valid() && s.Reserved(m, i, buckets)
    ensures m.pages[i] in s.store && m.pages[i] in m.store
  {
    hide FirstFit, WithNibble, EmptyFrom, S.Good;
  }

  lemma RecordRoom(p: Page, n: nat)
    requires S.Good(p)
    ensures Align(n) + S.SLOT <= S.FreeSpace(p) ==> S.NextFree(p) + n <= PAGE_SIZE
  {
  }

  // ----- whole runs -----

  /** What happens to the tuples: some are inserted, a bulk insert fails half-way, or one is deleted. */
  datatype Op = Insert(tids: seq<TID>, tuples: seq<Tuple>) | Failed | Delete(t: TID)

  ghost predicate Step(s: Seg, op: Op, s': Seg) {
    match op
    case Insert(tids, tuples) => Inserted(s, s', tids, tuples)
    case Failed => Kept(s, s')
    case Delete(t) => At(s', t) == None && forall u: TID :: u == t || SameAt(s, s', u)
  }

  ghost predicate Run(states: seq<Seg>, ops: seq<Op>) {
    |states| == |ops| + 1 && forall k :: 0 <= k < |ops| ==> Step(states[k], ops[k], states[k + 1])
  }

  /** A live record stays as it is until it is deleted itself. */
  lemma {:induction false} Stays(states: seq<Seg>, ops: seq<Op>, t: TID, i: nat, j: nat)
    requires Run(states, ops) && i <= j <= |ops| && At(states[i], t).Some?
    requires forall k :: i <= k < j ==> ops[k] != Delete(t)
    ensures At(states[j], t) == At(states[i], t)
    decreases j
  {
    hide At;
    if i < j {
      Stays(states, ops, t, i, j - 1);
      assert Step(states[j - 1], ops[j - 1], states[j]);
      if ops[j - 1].Insert? {
        NotAgain(states[j - 1], states[j], ops[j - 1].tids, ops[j - 1].tuples, t);
      } else if ops[j - 1].Delete? {
        assert t == ops[j - 1].t || SameAt(states[j - 1], states[j], t);
      }
    }
  }

  /** Every inserted tuple can be read under its identifier until it is deleted, whatever else happens. */
  lemma InsertedStays(states: seq<Seg>, ops: seq<Op>, i: nat, n: nat, j: nat)
    requires Run(states, ops) && i < j <= |ops| && ops[i].Insert? && n < |ops[i].tids| == |ops[i].tuples|
    requires forall k :: i < k < j ==> ops[k] != Delete(ops[i].tids[n])
    ensures Holds(At(states[j], ops[i].tids[n]), ops[i].tuples[n])
  {
    hide At;
    assert Step(states[i], ops[i], states[i + 1]);
    assert GainedAt(states[i], states[i + 1], ops[i].tids[n], ops[i].tuples[n]);
    Stays(states, ops, ops[i].tids[n], i + 1, j);
  }
}
