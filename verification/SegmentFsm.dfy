/** Segments with a free space map: which page a record goes to. */
module SegmentFsms {
  import opened FsmPages
  import opened Occupancies
  import opened PageTypes
  import S = SlottedPages

  /** The bytes of an index page that the code compares page counts with: 4096 - 32. */
  const INDEX_SPACE: nat := 4064

  /**
   * A segment: the content of the partition's pages as the buffer manager shows it, the data pages in order, the
   * index pages, the first FSM page, and the pages the partition can still hand out.
   */
  datatype Seg = Seg(
    store: map<uint32, Page>,
    pages: seq<uint32>,
    indexPages: seq<uint32>,
    fsm: uint32,
    unallocated: set<uint32>)
  {
    /** There is one index page and another for every 4064 data pages. */
    ghost predicate Separate() {
      Distinct() && |indexPages| == 1 + |pages| / 4064
    }

    /** The pages of the segment are its own, each in one role, and all are in the file. */
    ghost predicate Distinct() {
      && NoDup(pages) && fsm !in pages && fsm !in indexPages && fsm !in unallocated
      && (forall p :: p in pages ==> p !in indexPages && p !in unallocated)
      && (forall p :: p in indexPages ==> p !in unallocated && p in store)
      && NoDup(indexPages) && unallocated <= store.Keys && 0 !in unallocated && 0 !in indexPages && fsm != 0
    }

    /** Nibble i of the map describes data page i, and nothing is recorded beyond the last one. */
    ghost predicate Mapped() {
      && fsm in store && NoPages(store[fsm]) == MAX_PAGES && NextFsm(store[fsm]) == 0
      && |pages| <= MAX_PAGES && EmptyFrom(store[fsm], |pages|)
    }

    ghost predicate Formed() {
      forall i :: 0 <= i < |pages| ==> pages[i] in store && S.Good(store[pages[i]])
    }

    ghost predicate Valid() {
      Separate() && Mapped() && Formed()
    }

    /** What reading tuples needs. */
    ghost predicate Readable() {
      NoDup(pages) && Formed()
    }

    lemma ValidReadable()
      requires Valid()
      ensures Readable()
    {
    }

    /** The occupancy of page i covers what is used on it. */
    ghost predicate CoveredAt(i: nat)
      requires fsm in store
    {
      i < |pages| && i < MAX_PAGES && pages[i] in store && S.FreeSpace(store[pages[i]]) <= S.SPACE &&
      Covered(S.SPACE - S.FreeSpace(store[pages[i]]), Nibble(store[fsm], i))
    }

    ghost predicate Sound() {
      fsm in store && forall i :: 0 <= i < |pages| ==> CoveredAt(i)
    }

    /** Room for one more data page in the first FSM page and in the partition. */
    ghost predicate Spare(n: nat) {
      |pages| + n <= MAX_PAGES && 2 * n <= |unallocated|
    }

    function WithData(p: uint32): Seg {
      this.(pages := pages + [p], unallocated := unallocated - {p})
    }

    function WithIndex(p: uint32): Seg {
      this.(indexPages := indexPages + [p], unallocated := unallocated - {p})
    }

    lemma DataDistinct(p: uint32)
      requires Distinct() && p in unallocated
      ensures WithData(p).Distinct()
    {
    }

    lemma IndexDistinct(p: uint32)
      requires Distinct() && p in unallocated
      ensures WithIndex(p).Distinct()
    {
    }

    /** One more index page, exactly when the new page count reaches the bytes of the index pages. */
    ghost predicate IndexGrown(after: Seg) {
      if |pages| + 1 >= |indexPages| * 4064 then
        && |after.indexPages| == |indexPages| + 1 && after.indexPages[..|indexPages|] == indexPages
        && after.indexPages[|indexPages|] in unallocated
      else
        after.indexPages == indexPages
    }

    /** The pages that were taken are those that were added to the lists. */
    ghost predicate Grown(after: Seg) {
      && |after.pages| == |pages| + 1 && after.pages[..|pages|] == pages && after.pages[|pages|] in unallocated
      && IndexGrown(after)
      && after.unallocated == unallocated - {after.pages[|pages|]} - (set p | p in after.indexPages)
    }

    /**
     * What an operation on this segment leaves alone: pages are only added to its lists, and only unallocated ones;
     * of all pages of the partition, the FSM page, those in `own` and new data pages alone may have other bytes.
     */
    ghost predicate Framed(after: Seg, own: set<uint32>) {
      && after.fsm == fsm && pages <= after.pages && indexPages <= after.indexPages
      && after.unallocated <= unallocated
      && (forall p :: p in after.pages ==> p in pages || p in unallocated)
      && (forall p :: p in after.indexPages ==> p in indexPages || p in unallocated)
      && after.store.Keys == store.Keys
      && forall p :: p in store && p != fsm && p !in own && (p in after.pages ==> p in pages) ==>
           after.store[p] == store[p]
    }

    ghost function DataPages(): set<uint32> {
      set p | p in pages
    }

    /** After page i was chosen and its occupancy raised; i may be the next new page. */
    ghost predicate Reserved(after: Seg, i: nat, buckets: nat) {
      && fsm in store && FirstFit(store[fsm], buckets, i)
      && after.store == store[fsm := WithNibble(store[fsm], i, Nibble(store[fsm], i) + buckets)]
      && after.fsm == fsm && i <= |pages| && i < |after.pages|
      && (i < |pages| ==> after.pages == pages && after.indexPages == indexPages && after.unallocated == unallocated)
      && (i == |pages| ==>
          Grown(after) && |after.unallocated| + 2 >= |unallocated|)
    }
  }

  /** The bytes that the initialisation of an FSM page skips are 0. */
  ghost predicate ZeroStart(frame: Page) {
    forall j :: 0 <= j < 8 ==> frame[j] == 0
  }

  lemma EmptyMap(frame: Page, content: Page)
    requires forall j: nat :: j < MAX_PAGES ==> Nibble(content, j) == if j < 16 then Nibble(frame, j) else 0
    ensures EmptyFrom(content, 0) <==> ZeroStart(frame)
  {
    if ZeroStart(frame) {
      forall j: nat | j < 16 ensures Nibble(frame, j) == 0 {
      }
    }
    if EmptyFrom(content, 0) {
      forall j | 0 <= j < 8 ensures frame[j] == 0 {
        assert Nibble(content, 2 * j) == Nibble(frame, 2 * j) == 0;
        assert Nibble(content, 2 * j + 1) == Nibble(frame, 2 * j + 1) == 0;
        NoNibbles(frame, j);
      }
    }
  }

  lemma NoNibbles(frame: Page, j: nat)
    requires j < 8 && Nibble(frame, 2 * j) == 0 && Nibble(frame, 2 * j + 1) == 0
    ensures frame[j] == 0
  {
  }

  lemma NewSegment(s: Seg, index: uint32, unallocated: set<uint32>)
    requires s.pages == [] && s.indexPages == [index] && s.fsm in unallocated && s.unallocated == unallocated - {s.fsm}
    requires index !in unallocated && 0 !in unallocated && index != 0
    requires unallocated <= s.store.Keys && index in s.store
    ensures s.Separate() && s.Formed() && s.Sound()
  {
  }

  /** The map always has a fit while it has a page to spare, and never skips one. */
  lemma RoomForNew(s: Seg, buckets: nat)
    requires s.Mapped() && |s.pages| < MAX_PAGES && buckets < STATUS_SIZE
    ensures Nibble(s.store[s.fsm], |s.pages|) + buckets < STATUS_SIZE
  {
  }

  lemma ReservedMapped(s: Seg, i: nat, buckets: nat, after: Seg)
    requires s.Mapped() && |s.pages| < MAX_PAGES && buckets < STATUS_SIZE
    requires FirstFit(s.store[s.fsm], buckets, i)
    requires after.fsm == s.fsm && |after.pages| == if i == |s.pages| then i + 1 else |s.pages|
    requires after.store == s.store[s.fsm := WithNibble(s.store[s.fsm], i, Nibble(s.store[s.fsm], i) + buckets)]
    ensures i <= |s.pages| && after.Mapped()
  {
    FirstFitAligned(s.store[s.fsm], |s.pages|, buckets, i);
    OwnNibble(s.store[s.fsm], i, Nibble(s.store[s.fsm], i) + buckets, i);
    hide EmptyFrom, FirstFit, WithNibble, Nibble, NoPages;
  }

  datatype Slot = Slot(index: nat, page: uint32, isNew: bool)

  class SegmentFSM {
    var store: map<uint32, Page>
    var pages: seq<uint32>
    var indexPages: seq<uint32>
    var fsm: uint32
    var unallocated: set<uint32>

    ghost function View(): Seg
      reads this
    {
      Seg(store, pages, indexPages, fsm, unallocated)
    }

    /**
     * A new segment: an index page, and an FSM page in a frame that may hold anything. The segment is in order
     * exactly if the first eight bytes of that frame happen to be 0.
     */
    constructor (index: uint32, partition: byte, frame: Page, store: map<uint32, Page>, unallocated: set<uint32>)
      requires unallocated != {} && index !in unallocated && 0 !in unallocated && index != 0
      requires unallocated <= store.Keys && index in store
      ensures pages == [] && indexPages == [index] && |this.unallocated| + 1 == |unallocated|
      ensures fsm in unallocated && this.unallocated == unallocated - {fsm}
      ensures fsm in this.store && this.store == store[fsm := this.store[fsm]]
      ensures this.store[fsm][4072..] == LE32(8144) + LE32(0) + BasicHeader(0, PID(partition, fsm))
      ensures forall j: nat :: j < 8144 ==> Nibble(this.store[fsm], j) == if j < 16 then Nibble(frame, j) else 0
      ensures View().Valid() <==> ZeroStart(frame)
      ensures View().Sound()
    {
      hide Seg.Separate, Seg.Formed, Seg.Sound, EmptyFrom, ZeroStart, NoPages, NextFsm, Nibble;
      this.store, pages, indexPages, this.unallocated, fsm := store, [], [index], unallocated, 0;
      new;
      fsm := AllocPage();
      var map0 := new FsmPage.Attach(frame);
      map0.InitNewFSM(0, PID(partition, fsm), MAX_PAGES);
      var content := map0.Content();
      this.store := this.store[fsm := content];
      EmptyMap(frame, content);
      NewSegment(View(), index, unallocated);
    }

    /** A segment whose lists were loaded. */
    constructor Loaded(s: Seg)
      ensures View() == s
    {
      store, pages, indexPages, fsm, unallocated := s.store, s.pages, s.indexPages, s.fsm, s.unallocated;
    }

    /** The partition hands out its first free page. */
    method AllocPage() returns (p: uint32)
      requires unallocated != {}
      modifies this`unallocated
      ensures p in old(unallocated) && unallocated == old(unallocated) - {p}
      ensures |unallocated| + 1 == |old(unallocated)|
    {
      p :| p in unallocated;
      unallocated := unallocated - {p};
    }

    /** Makes room for aNoOfBytes on the first page that has it, or on a new one; None is the exception. */
    method GetFreePage(aNoOfBytes: nat, aSizeOfOverhead: nat) returns (r: Option<Slot>)
      requires View().Valid() && View().Spare(1) && aSizeOfOverhead <= 30
      modifies this
      ensures r == None <==> CalcPageStatus(PAGE_SIZE - aSizeOfOverhead, aNoOfBytes) == None
      ensures r == None ==> View() == old(View())
      ensures r.Some? ==>
        && View().Separate() && View().Mapped()
        && old(View()).Reserved(View(), r.value.index, CalcPageStatus(PAGE_SIZE - aSizeOfOverhead, aNoOfBytes).value)
        && (r.value.isNew <==> r.value.index == |old(pages)|) && r.value.page == pages[r.value.index]
    {
      hide FirstFit, WithNibble, Nibble, NoPages, EmptyFrom, Seg.Mapped, Seg.Formed, Seg.Separate, Seg.Grown,
        CalcPageStatus;
      var space := PAGE_SIZE - aSizeOfOverhead;
      if aNoOfBytes > space {
        TooMuch(space, aNoOfBytes);
        return None;
      }
      MapIsThere(View());
      var map0 := new FsmPage.Attach(store[fsm]);
      var status := CalcPageStatus(space, aNoOfBytes);
      if status == None {
        return None;
      }
      SmallStatus(space, aNoOfBytes);
      RoomForNew(View(), status.value);
      var i := map0.GetFreePage(status.value);
      FirstFitAligned(store[fsm], |pages|, status.value, i);
      var content := map0.Content();
      StoreSeparate(View(), content);
      store := store[fsm := content];
      if i >= |pages| {
        AddPage();
        GrownIs(old(View()), content, View());
        r := Some(Slot(i, pages[i], true));
      } else {
        r := Some(Slot(i, pages[i], false));
      }
      ReservedMapped(old(View()), i, status.value, View());
    }

    /** A new data page, and another index page when the page count reaches the index pages' size in bytes. */
    method AddPage()
      requires View().Separate() && 2 <= |unallocated|
      modifies this`pages, this`indexPages, this`unallocated
      ensures View().Separate() && |pages| == |old(pages)| + 1 && pages[..|old(pages)|] == old(pages)
      ensures old(View()).Grown(View()) && |unallocated| + 2 >= |old(unallocated)|
    {
      hide Seg.Distinct, Seg.Grown;
      ghost var s := View();
      NotIndex(s);
      var p := AllocPage();
      pages := pages + [p];
      s.DataDistinct(p);
      if |pages| >= |indexPages| * INDEX_SPACE {
        var q := AllocPage();
        indexPages := indexPages + [q];
        s.WithData(p).IndexDistinct(q);
        GrownBoth(s, p, q);
      } else {
        GrownData(s, p);
      }
    }
  }

  lemma GrownData(s: Seg, p: uint32)
    requires p in s.unallocated && |s.pages| + 1 < |s.indexPages| * 4064
    requires forall q :: q in s.indexPages ==> q !in s.unallocated
    ensures s.Grown(s.WithData(p))
  {
  }

  lemma GrownBoth(s: Seg, p: uint32, q: uint32)
    requires p in s.unallocated && q in s.unallocated && p != q && |s.pages| + 1 >= |s.indexPages| * 4064
    requires forall r :: r in s.indexPages ==> r !in s.unallocated
    ensures s.Grown(s.WithData(p).WithIndex(q))
  {
  }

  lemma GrownIs(s: Seg, content: Page, after: Seg)
    requires s.(store := s.store[s.fsm := content]).Grown(after)
    ensures s.Grown(after) && |after.pages| == |s.pages| + 1
  {
  }

  /** Writing the FSM page matters to no list. */
  lemma StoreSeparate(s: Seg, content: Page)
    requires s.Separate()
    ensures s.(store := s.store[s.fsm := content]).Separate()
  {
  }

  lemma NotIndex(s: Seg)
    requires s.Distinct()
    ensures forall p :: p in s.indexPages ==> p !in s.unallocated
  {
  }

  lemma TooMuch(space: nat, n: nat)
    requires MAX_STATUS <= space < n
    ensures CalcPageStatus(space, n) == None
  {
  }

  lemma SmallStatus(space: nat, n: nat)
    requires MAX_STATUS <= space && CalcPageStatus(space, n).Some?
    ensures CalcPageStatus(space, n).value < STATUS_SIZE
  {
  }

  lemma MapIsThere(s: Seg)
    requires s.Mapped()
    ensures s.fsm in s.store && NoPages(s.store[s.fsm]) == MAX_PAGES && EmptyFrom(s.store[s.fsm], |s.pages|)
  {
  }
}
