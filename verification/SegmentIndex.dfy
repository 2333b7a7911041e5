/** Storing the page lists of a segment at shutdown and loading them again. */
module SegmentIndexes {
  import opened FsmPages
  import opened PageTypes
  import opened SegmentFsms

  // segment_fsm_header_t takes the last 32 bytes of an index page
  const CURR_SIZE: nat := 4064
  const FIRST_FSM: nat := 4068
  const NEXT_INDEX: nat := 4072
  const SEG_ID: nat := 4076
  const MAX_PER_PAGE: nat := 1016

  function CurrSize(p: Page): uint32 { Get32(p, CURR_SIZE) }

  function FirstFsm(p: Page): uint32 { Get32(p, FIRST_FSM) }

  function NextIndex(p: Page): uint32 { Get32(p, NEXT_INDEX) }

  function SegID(p: Page): uint16 { Get16(p, SEG_ID) }

  /** The k-th page number of an index page. */
  function PageNumber(p: Page, k: nat): uint32
    requires k < MAX_PER_PAGE
  {
    Get32(p, 4 * k)
  }

  /** The header written to an index page. */
  function Header(size: uint32, fsm: uint32, next: uint32, segID: uint16, pid: PID): (h: seq<byte>)
    ensures |h| == 32
  {
    LE32(size) + LE32(fsm) + LE32(next) + LE16(segID) + [1, 0] + BasicHeader(0, pid)
  }

  /** How many page numbers go to the j-th index page. */
  function Share(total: nat, j: nat): nat {
    if total <= MAX_PER_PAGE * j then 0 else Min(MAX_PER_PAGE, total - MAX_PER_PAGE * j)
  }

  /** The successor in a chain, 0 at its end. */
  function Next(chain: seq<uint32>, j: nat): uint32
    requires j < |chain|
  {
    if j + 1 < |chain| then chain[j + 1] else 0
  }

  /** Page p is the j-th index page of a stored segment. */
  ghost predicate IndexPage(p: Page, j: nat, index: seq<uint32>, pages: seq<uint32>, fsm: uint32, segID: uint16) {
    && j < |index| && CurrSize(p) == Share(|pages|, j) && FirstFsm(p) == fsm && NextIndex(p) == Next(index, j)
    && SegID(p) == segID
    && forall k: nat :: k < Share(|pages|, j) ==> PageNumber(p, k) == pages[MAX_PER_PAGE * j + k]
  }

  /**
   * Page p is the j-th index page as it was, but for the bytes written to it: its share of the page numbers from the
   * start of the page on, and the header in the last 32 bytes.
   */
  ghost predicate Laid(was: Page, p: Page, j: nat, index: seq<uint32>, pages: seq<uint32>, fsm: uint32, segID: uint16,
                       partition: byte)
  {
    var n := if |pages| <= 1016 * j then 0 else Min(1016, |pages| - 1016 * j);
    && j < |index| && n < 0x1_0000_0000
    && (forall k: nat :: k < n ==> NumberAt(p, k, pages, 1016 * j))
    && p[4 * n..4064] == was[4 * n..4064]
    && p[4064..] == LE32(n) + LE32(fsm) + LE32(Next(index, j)) + LE16(segID) + [1, 0]
                  + BasicHeader(0, PID(partition, index[j]))
  }

  /** The k-th number on page p is element i + k of the list. */
  ghost predicate NumberAt(p: Page, k: nat, pages: seq<uint32>, i: nat)
    requires k < 1016 && i + k < |pages|
  {
    p[4 * k..4 * k + 4] == LE32(pages[i + k])
  }

  /** The page numbers of an index page reach exactly to its header, and so do the pages that it is grown for. */
  lemma IndexLayout()
    ensures 4 * MAX_PER_PAGE == CURR_SIZE == PAGE_SIZE - 32 && INDEX_SPACE == PAGE_SIZE - 32
    ensures MAX_PER_PAGE == 1016 && INDEX_SPACE == 4064 && INDEX_SPACE == 4 * MAX_PER_PAGE
  {
  }

  /** All index pages are laid out. */
  ghost predicate LaidUpTo(was: map<uint32, Page>, store: map<uint32, Page>, n: nat, index: seq<uint32>,
                           pages: seq<uint32>, fsm: uint32, segID: uint16, partition: byte)
  {
    forall j :: 0 <= j < n && j < |index| ==>
      && index[j] in was && index[j] in store
      && Laid(was[index[j]], store[index[j]], j, index, pages, fsm, segID, partition)
  }

  /** All index pages are stored. */
  ghost predicate Indexed(
    store: map<uint32, Page>, index: seq<uint32>, pages: seq<uint32>, fsm: uint32, segID: uint16)
  {
    forall j :: 0 <= j < |index| ==> index[j] in store && IndexPage(store[index[j]], j, index, pages, fsm, segID)
  }

  /** The FSM pages point to each other, the last one to page 0. */
  ghost predicate FsmChain(store: map<uint32, Page>, fsms: seq<uint32>) {
    forall j :: 0 <= j < |fsms| ==> fsms[j] in store && NextFsm(store[fsms[j]]) == Next(fsms, j)
  }

  /** A chain that page 0 can end: some pages, none of them page 0, none twice. */
  ghost predicate Chain(chain: seq<uint32>) {
    chain != [] && NoDup(chain) && 0 !in chain
  }

  class SegmentPages {
    var store: map<uint32, Page>
    var pages: seq<uint32>
    var indexPages: seq<uint32>
    var fsmPages: seq<uint32>
    var segID: uint16
    const partition: byte

    constructor (store: map<uint32, Page>, partition: byte)
      ensures this.store == store && this.partition == partition
      ensures pages == [] && indexPages == [] && fsmPages == []
    {
      this.store, this.partition := store, partition;
      pages, indexPages, fsmPages, segID := [], [], [], 0;
    }

    /** The lists of a segment in use. */
    constructor Of(seg: SegmentFSM, segID: uint16, partition: byte)
      ensures store == seg.store && pages == seg.pages && indexPages == seg.indexPages && fsmPages == [seg.fsm]
      ensures this.segID == segID && this.partition == partition
    {
      store, this.partition, this.segID := seg.store, partition, segID;
      pages, indexPages, fsmPages := seg.pages, seg.indexPages, [seg.fsm];
    }

    /** Writes the index pages; leaves a 0 behind the list of index pages. */
    method StoreSegment()
      requires Chain(indexPages) && fsmPages != [] && |pages| < 0x1_0000_0000
      requires forall p :: p in indexPages ==> p in store
      modifies this`store, this`indexPages
      ensures indexPages == old(indexPages) + [0]
      ensures LaidUpTo(old(store), store, |old(indexPages)|, old(indexPages), pages, fsmPages[0], segID, partition)
      ensures Indexed(store, old(indexPages), pages, fsmPages[0], segID)
      ensures OthersSame(old(store), store, old(indexPages)) && store.Keys == old(store).Keys
    {
      hide LE32, Header, WithHeader, IndexPage, PageNumber, Laid, NumberAt;
      ghost var index, was := indexPages, store;
      var i, j := 0, 0;
      indexPages := indexPages + [0];
      while j < |indexPages| - 1
        invariant j <= |index| && indexPages == index + [0] && i == Min(|pages|, MAX_PER_PAGE * j)
        invariant OthersSame(was, store, index) && store.Keys == was.Keys
        invariant forall m :: j <= m < |index| ==> store[index[m]] == was[index[m]]
        invariant IndexedUpTo(store, j, index, pages, fsmPages[0], segID)
        invariant LaidUpTo(was, store, j, index, pages, fsmPages[0], segID, partition)
      {
        var p := indexPages[j];
        assert index[j] == p && p in index;
        var buffer, k := FillPage(store[p], i);
        i := i + k;
        PageDone(buffer, j, k, index, pages, fsmPages[0], segID, PID(partition, p));
        PageLaid(was[p], buffer, j, k, index, pages, fsmPages[0], segID, partition);
        buffer := WithHeader(buffer, Header(k, fsmPages[0], indexPages[j + 1], segID, PID(partition, p)));
        IndexMore(was, store, buffer, j, index, pages, fsmPages[0], segID);
        LaidMore(was, store, buffer, j, index, pages, fsmPages[0], segID, partition);
        store := store[p := buffer];
        j := j + 1;
      }
    }

    /** Writes page numbers i, i + 1, .. to an index page until it or the list is full. */
    method FillPage(p: Page, i: nat) returns (buffer: Page, k: nat)
      requires i <= |pages|
      ensures k == Min(MAX_PER_PAGE, |pages| - i)
      ensures forall n: nat :: n < k ==> PageNumber(buffer, n) == pages[i + n]
      ensures forall n: nat :: n < k ==> NumberAt(buffer, n, pages, i)
      ensures buffer[4 * k..] == p[4 * k..]
    {
      hide PageNumber, WithPageNumber, NumberAt;
      buffer, k := p, 0;
      while i + k < |pages| && k < MAX_PER_PAGE
        invariant k <= MAX_PER_PAGE && i + k <= |pages|
        invariant forall n: nat :: n < k ==> PageNumber(buffer, n) == pages[i + n]
        invariant forall n: nat :: n < k ==> NumberAt(buffer, n, pages, i)
        invariant buffer[4 * k..] == p[4 * k..]
      {
        var next := WithPageNumber(buffer, k, pages[i + k]);
        forall n: nat | n <= k ensures PageNumber(next, n) == pages[i + n] && NumberAt(next, n, pages, i) {
          WithPageNumberIs(buffer, k, pages[i + k], n);
          NumberKept(buffer, k, n, pages, i);
        }
        RestKept(p, buffer, k, pages[i + k]);
        buffer := next;
        k := k + 1;
      }
    }

    /** Appends the page numbers of one index page. */
    method ReadIndexPage(buffer: Page, ghost j: nat, ghost index: seq<uint32>, ghost saved: seq<uint32>,
                         ghost fsm: uint32, ghost id: uint16)
      requires IndexPage(buffer, j, index, saved, fsm, id) && pages == saved[..Min(|saved|, MAX_PER_PAGE * j)]
      modifies this`pages
      ensures pages == saved[..Min(|saved|, MAX_PER_PAGE * (j + 1))]
    {
      hide PageNumber;
      ghost var start := Min(|saved|, MAX_PER_PAGE * j);
      for i := 0 to CurrSize(buffer)
        invariant pages == saved[..start + i]
      {
        assert PageNumber(buffer, i) == saved[MAX_PER_PAGE * j + i];
        pages := pages + [PageNumber(buffer, i)];
      }
    }

    /** Follows the index pages from the given one to page 0; fsm0 is the first FSM page they name. */
    method LoadIndex(
      first: uint32, ghost index: seq<uint32>, ghost saved: seq<uint32>, ghost fsm: uint32, ghost id: uint16)
      returns (fsm0: uint32)
      requires pages == indexPages == [] && Chain(index) && first == index[0]
      requires Indexed(store, index, saved, fsm, id)
      modifies this`pages, this`indexPages, this`segID
      ensures indexPages == index && pages == saved[..Min(|saved|, MAX_PER_PAGE * |index|)]
      ensures segID == id && fsm0 == fsm
    {
      hide IndexPage;
      var next := first;
      fsm0 := 0;
      ghost var n := 0;
      while next != 0
        invariant n <= |index| && next == (if n < |index| then index[n] else 0)
        invariant indexPages == index[..n] && pages == saved[..Min(|saved|, MAX_PER_PAGE * n)]
        invariant n > 0 ==> segID == id && fsm0 == fsm
        decreases |index| - n
      {
        var buffer := store[next];
        IndexFields(buffer, n, index, saved, fsm, id);
        indexPages := indexPages + [next];
        fsm0 := FirstFsm(buffer);
        segID := SegID(buffer);
        ReadIndexPage(buffer, n, index, saved, fsm, id);
        next := NextIndex(buffer);
        n := n + 1;
      }
      ChainEnds(index, n);
    }

    /** Follows the FSM pages to page 0, which is appended like the others. */
    method LoadFsms(first: uint32, ghost fsms: seq<uint32>)
      requires fsmPages == [] && Chain(fsms) && first == fsms[0] && FsmChain(store, fsms)
      modifies this`fsmPages
      ensures fsmPages == fsms + [0]
    {
      hide NextFsm;
      fsmPages := fsmPages + [first];
      ghost var n := 0;
      while fsmPages[|fsmPages| - 1] != 0
        invariant n <= |fsms| && fsmPages == (fsms + [0])[..n + 1]
        decreases |fsms| - n
      {
        var buffer := store[fsmPages[|fsmPages| - 1]];
        fsmPages := fsmPages + [NextFsm(buffer)];
        n := n + 1;
      }
      assert (fsms + [0])[n] == 0;
      ChainEnds(fsms, n);
    }

    /**
     * Loads what StoreSegment stored: the same index and FSM pages and segment ID, and the same data pages
     * exactly if the index pages have room for all of them.
     */
    method LoadSegment(first: uint32, ghost index: seq<uint32>, ghost saved: seq<uint32>, ghost fsms: seq<uint32>,
                       ghost id: uint16)
      requires pages == indexPages == fsmPages == [] && Chain(index) && Chain(fsms) && first == index[0]
      requires Indexed(store, index, saved, fsms[0], id) && FsmChain(store, fsms)
      modifies this`pages, this`indexPages, this`segID, this`fsmPages
      ensures indexPages == index && fsmPages == fsms && segID == id
      ensures pages == saved[..Min(|saved|, 1016 * |index|)]
      ensures pages == saved <==> |saved| <= 1016 * |index|
    {
      var fsm0 := LoadIndex(first, index, saved, fsms[0], id);
      LoadFsms(fsm0, fsms);
      if fsmPages[|fsmPages| - 1] == 0 {
        fsmPages := fsmPages[..|fsmPages| - 1];
      }
    }

    /** The same from disk, as at boot; here the 0 stays at the end of the FSM pages. */
    method LoadSegmentUnbuffered(first: uint32, ghost index: seq<uint32>, ghost saved: seq<uint32>,
                                 ghost fsms: seq<uint32>, ghost id: uint16)
      requires pages == indexPages == fsmPages == [] && Chain(index) && Chain(fsms) && first == index[0]
      requires Indexed(store, index, saved, fsms[0], id) && FsmChain(store, fsms)
      modifies this`pages, this`indexPages, this`segID, this`fsmPages
      ensures indexPages == index && fsmPages == fsms + [0] && segID == id
      ensures pages == saved[..Min(|saved|, 1016 * |index|)]
      ensures pages == saved <==> |saved| <= 1016 * |index|
    {
      var fsm0 := LoadIndex(first, index, saved, fsms[0], id);
      LoadFsms(fsm0, fsms);
    }

    /** Shutdown and reopening: what is stored is what is loaded, up to the capacity of the index pages. */
    method StoreAndReload() returns (loaded: SegmentPages)
      requires Chain(indexPages) && Chain(fsmPages) && |pages| < 0x1_0000_0000
      requires forall p :: p in indexPages ==> p in store && p !in fsmPages
      requires FsmChain(store, fsmPages)
      modifies this`store, this`indexPages
      ensures fresh(loaded) && loaded.indexPages == old(indexPages) && loaded.fsmPages == fsmPages
      ensures loaded.segID == segID && loaded.store == store && OthersSame(old(store), store, old(indexPages))
      ensures loaded.pages == pages[..Min(|pages|, 1016 * |old(indexPages)|)]
      ensures loaded.pages == pages <==> |pages| <= 1016 * |old(indexPages)|
    {
      hide FsmChain;
      ghost var index, was := indexPages, store;
      var first := indexPages[0];
      StoreSegment();
      ChainKept(was, store, index, fsmPages);
      loaded := new SegmentPages(store, partition);
      loaded.LoadSegment(first, index, pages, fsmPages, segID);
    }
  }

  lemma ChainKept(was: map<uint32, Page>, store: map<uint32, Page>, index: seq<uint32>, fsms: seq<uint32>)
    requires FsmChain(was, fsms) && OthersSame(was, store, index) && forall p :: p in index ==> p !in fsms
    ensures FsmChain(store, fsms)
  {
    hide NextFsm;
    forall j | 0 <= j < |fsms| ensures fsms[j] in store && NextFsm(store[fsms[j]]) == Next(fsms, j) {
      assert fsms[j] in fsms && fsms[j] in was;
    }
  }

  /**
   * A segment gets another index page only when its pages reach the index pages' size in bytes, which is four
   * times too late: however many pages it has, they fit its index pages exactly up to 1016.
   */
  lemma IndexRoom(s: Seg)
    requires s.Separate()
    ensures |s.pages| <= 1016 * |s.indexPages| <==> |s.pages| <= 1016
  {
  }

  /** The one FSM page of the segment is on file and ends the chain of FSM pages. */
  ghost predicate OneFsm(s: Seg) {
    s.fsm in s.store && NextFsm(s.store[s.fsm]) == 0
  }

  /** What storing and loading the lists of a segment needs. */
  lemma Storable(s: Seg)
    requires s.Separate() && OneFsm(s)
    ensures Chain(s.indexPages) && Chain([s.fsm]) && FsmChain(s.store, [s.fsm])
    ensures forall p :: p in s.indexPages ==> p in s.store && p != s.fsm
  {
    hide NextFsm;
  }

  /** Shuts a segment down and opens it again: it has its data pages exactly if there were at most 1016. */
  method StoreAndOpen(seg: SegmentFSM, segID: uint16, partition: byte) returns (loaded: SegmentPages)
    requires seg.View().Separate() && OneFsm(seg.View()) && |seg.pages| < 0x1_0000_0000
    ensures fresh(loaded) && loaded.indexPages == seg.indexPages && loaded.fsmPages == [seg.fsm]
    ensures loaded.segID == segID
    ensures OthersSame(seg.store, loaded.store, seg.indexPages)
    ensures loaded.pages == seg.pages[..Min(|seg.pages|, 1016 * |seg.indexPages|)]
    ensures loaded.pages == seg.pages <==> |seg.pages| <= 1016
  {
    hide FsmChain, NextFsm, OneFsm;
    IndexRoom(seg.View());
    Storable(seg.View());
    var s := new SegmentPages.Of(seg, segID, partition);
    loaded := s.StoreAndReload();
  }

  /** The first loss: a new segment that grows to 1017 pages has one index page, and comes back without the last. */
  method FirstLoss(seg: SegmentFSM, segID: uint16, partition: byte) returns (loaded: SegmentPages)
    requires seg.View().Valid() && seg.pages == [] && 2 * 1017 <= |seg.unallocated|
    modifies seg
    ensures |seg.pages| == 1017 && |seg.indexPages| == 1
    ensures loaded.pages == seg.pages[..1016]
  {
    hide NextFsm;
    for i := 0 to 1017
      invariant seg.View().Separate() && OneFsm(seg.View()) && |seg.pages| == i
      invariant 2 * (1017 - i) <= |seg.unallocated|
    {
      seg.AddPage();
    }
    loaded := StoreAndOpen(seg, segID, partition);
  }

  lemma IndexFields(p: Page, j: nat, index: seq<uint32>, saved: seq<uint32>, fsm: uint32, id: uint16)
    requires IndexPage(p, j, index, saved, fsm, id)
    ensures j < |index| && FirstFsm(p) == fsm && NextIndex(p) == Next(index, j) && SegID(p) == id
  {
  }

  lemma ChainEnds(chain: seq<uint32>, n: nat)
    requires Chain(chain) && n <= |chain| && (n < |chain| ==> chain[n] == 0)
    ensures n == |chain| && chain[..n] == chain
  {
  }

  ghost predicate OthersSame(was: map<uint32, Page>, store: map<uint32, Page>, index: seq<uint32>) {
    forall p :: p in was ==> p in store && (p in index || store[p] == was[p])
  }

  ghost predicate IndexedUpTo(
    store: map<uint32, Page>, n: nat, index: seq<uint32>, pages: seq<uint32>, fsm: uint32, segID: uint16)
  {
    forall j :: 0 <= j < n && j < |index| ==>
      index[j] in store && IndexPage(store[index[j]], j, index, pages, fsm, segID)
  }

  lemma PageDone(buffer: Page, j: nat, k: nat, index: seq<uint32>, pages: seq<uint32>, fsm: uint32, segID: uint16,
                 pid: PID)
    requires j < |index| && k == Share(|pages|, j) < 0x1_0000_0000
    requires forall n: nat :: n < k ==> PageNumber(buffer, n) == pages[Min(|pages|, MAX_PER_PAGE * j) + n]
    ensures IndexPage(WithHeader(buffer, Header(k, fsm, Next(index, j), segID, pid)), j, index, pages, fsm, segID)
  {
    hide WithHeader, Header, PageNumber;
    WithHeaderIs(buffer, k, fsm, Next(index, j), segID, pid);
  }

  lemma IndexMore(was: map<uint32, Page>, store: map<uint32, Page>, buffer: Page, j: nat, index: seq<uint32>,
                  pages: seq<uint32>, fsm: uint32, segID: uint16)
    requires NoDup(index) && j < |index| && OthersSame(was, store, index) && index[j] in store
    requires IndexedUpTo(store, j, index, pages, fsm, segID) && IndexPage(buffer, j, index, pages, fsm, segID)
    ensures OthersSame(was, store[index[j] := buffer], index)
    ensures IndexedUpTo(store[index[j] := buffer], j + 1, index, pages, fsm, segID)
  {
    hide IndexPage;
  }

  lemma NumberKept(p: Page, k: nat, n: nat, pages: seq<uint32>, i: nat)
    requires k < MAX_PER_PAGE && n <= k && i + k < |pages| && (n < k ==> NumberAt(p, n, pages, i))
    ensures NumberAt(WithPageNumber(p, k, pages[i + k]), n, pages, i)
  {
    hide LE32;
    if n < k {
      assert WithPageNumber(p, k, pages[i + k])[4 * n..4 * n + 4] == p[4 * n..4 * n + 4];
    }
  }

  lemma RestKept(p: Page, buffer: Page, k: nat, v: uint32)
    requires k < MAX_PER_PAGE && buffer[4 * k..] == p[4 * k..]
    ensures WithPageNumber(buffer, k, v)[4 * (k + 1)..] == p[4 * (k + 1)..]
  {
    hide LE32;
    assert WithPageNumber(buffer, k, v)[4 * (k + 1)..] == buffer[4 * k..][4..];
    assert p[4 * (k + 1)..] == p[4 * k..][4..];
  }

  lemma PageLaid(was: Page, buffer: Page, j: nat, k: nat, index: seq<uint32>, pages: seq<uint32>, fsm: uint32,
                 segID: uint16, partition: byte)
    requires j < |index| && k == Share(|pages|, j) < 0x1_0000_0000
    requires forall n: nat :: n < k ==> NumberAt(buffer, n, pages, Min(|pages|, MAX_PER_PAGE * j))
    requires buffer[4 * k..] == was[4 * k..]
    ensures var p := WithHeader(buffer, Header(k, fsm, Next(index, j), segID, PID(partition, index[j])));
      Laid(was, p, j, index, pages, fsm, segID, partition)
  {
    hide LE32, LE16, BasicHeader;
    var h := Header(k, fsm, Next(index, j), segID, PID(partition, index[j]));
    var p := WithHeader(buffer, h);
    assert p[4064..] == h;
    assert p[..4064] == buffer[..4064];
    assert p[4 * k..4064] == buffer[4 * k..][..4064 - 4 * k] == was[4 * k..4064];
    forall n: nat | n < k ensures NumberAt(p, n, pages, 1016 * j) {
      assert p[4 * n..4 * n + 4] == buffer[4 * n..4 * n + 4];
      assert NumberAt(buffer, n, pages, Min(|pages|, MAX_PER_PAGE * j));
    }
  }

  lemma LaidMore(was: map<uint32, Page>, store: map<uint32, Page>, buffer: Page, j: nat, index: seq<uint32>,
                 pages: seq<uint32>, fsm: uint32, segID: uint16, partition: byte)
    requires NoDup(index) && j < |index| && index[j] in was
    requires LaidUpTo(was, store, j, index, pages, fsm, segID, partition)
    requires Laid(was[index[j]], buffer, j, index, pages, fsm, segID, partition)
    ensures LaidUpTo(was, store[index[j] := buffer], j + 1, index, pages, fsm, segID, partition)
  {
    hide Laid;
  }

  function WithPageNumber(p: Page, k: nat, v: uint32): Page
    requires k < MAX_PER_PAGE
  {
    Patch(p, 4 * k, LE32(v))
  }

  function WithHeader(p: Page, h: seq<byte>): Page
    requires |h| == 32
  {
    Patch(p, CURR_SIZE, h)
  }

  lemma WithPageNumberIs(p: Page, k: nat, v: uint32, n: nat)
    requires k < MAX_PER_PAGE && n < MAX_PER_PAGE
    ensures PageNumber(WithPageNumber(p, k, v), n) == if n == k then v else PageNumber(p, n)
  {
    var q := WithPageNumber(p, k, v);
    if n == k {
      assert q[4 * k..4 * k + 4] == LE32(v);
      Get32OfLE32(q, 4 * k, v);
    }
  }

  lemma WithHeaderIs(p: Page, size: uint32, fsm: uint32, next: uint32, segID: uint16, pid: PID)
    ensures var q := WithHeader(p, Header(size, fsm, next, segID, pid));
      && CurrSize(q) == size && FirstFsm(q) == fsm && NextIndex(q) == next && SegID(q) == segID
      && forall n: nat :: n < MAX_PER_PAGE ==> PageNumber(q, n) == PageNumber(p, n)
  {
    var h := Header(size, fsm, next, segID, pid);
    var q := WithHeader(p, h);
    HeaderFields(size, fsm, next, segID, pid);
    assert q[CURR_SIZE..CURR_SIZE + 4] == h[0..4] && q[FIRST_FSM..FIRST_FSM + 4] == h[4..8];
    assert q[NEXT_INDEX..NEXT_INDEX + 4] == h[8..12];
    assert q[SEG_ID] == h[12] && q[SEG_ID + 1] == h[13];
    hide LE32, Header;
    Get32OfLE32(q, CURR_SIZE, size);
    Get32OfLE32(q, FIRST_FSM, fsm);
    Get32OfLE32(q, NEXT_INDEX, next);
  }

  lemma HeaderFields(size: uint32, fsm: uint32, next: uint32, segID: uint16, pid: PID)
    ensures var h := Header(size, fsm, next, segID, pid);
      && h[0..4] == LE32(size) && h[4..8] == LE32(fsm) && h[8..12] == LE32(next)
      && h[12] == segID % 256 && h[13] == segID / 256
  {
    hide LE32;
  }
}
