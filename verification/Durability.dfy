/** From shutdown to boot: what a segment and the catalogue keep through index pages, buffer manager and disk. */
module Durability {
  import opened BufferControlBlocks
  import opened BufferManagers
  import opened Catalogues
  import opened FsmPages
  import opened Occupancies
  import opened PageTypes
  import opened SegmentFsms
  import opened SegmentIndexes
  import I = SegmentIndexes
  import R = BufferRuns
  import S = SlottedPages
  import Sp = SegmentFsmSps

  /** The pages of one partition, by page number. */
  function PagesOf(pages: map<PID, Page>, part: byte): map<uint32, Page> {
    map p | p in pages && p.fileID == part :: p.pageNo := pages[p]
  }

  /** The pages after those of the index were overwritten with their bytes in store. */
  ghost predicate Overwritten(was: map<PID, Page>, pages: map<PID, Page>, part: byte, index: seq<uint32>,
                              store: map<uint32, Page>) {
    && pages.Keys == was.Keys
    && forall p :: p in pages ==>
         if p.fileID == part && p.pageNo in index then p.pageNo in store && pages[p] == store[p.pageNo]
         else pages[p] == was[p]
  }

  lemma OverwrittenMore(was: map<PID, Page>, pages: map<PID, Page>, part: byte, index: seq<uint32>,
                        store: map<uint32, Page>, n: uint32)
    requires Overwritten(was, pages, part, index, store) && PID(part, n) in pages && n in store
    ensures Overwritten(was, pages[PID(part, n) := store[n]], part, index + [n], store)
  {
    var after := pages[PID(part, n) := store[n]];
    assert after.Keys == pages.Keys;
    forall p | p in after
      ensures if p.fileID == part && p.pageNo in index + [n] then p.pageNo in store && after[p] == store[p.pageNo]
              else after[p] == was[p]
    {
      if p != PID(part, n) {
        assert p.fileID == part ==> p.pageNo != n;
      }
    }
  }

  lemma OverwrittenIs(was: map<PID, Page>, pages: map<PID, Page>, part: byte, index: seq<uint32>,
                      store: map<uint32, Page>)
    requires Overwritten(was, pages, part, index, store)
    requires store.Keys == PagesOf(was, part).Keys && OthersSame(PagesOf(was, part), store, index)
    ensures PagesOf(pages, part) == store
  {
    forall n: uint32 ensures n in PagesOf(pages, part) <==> n in store {
      assert n in PagesOf(was, part) <==> PID(part, n) in was;
      assert n in PagesOf(pages, part) <==> PID(part, n) in pages;
    }
    forall n | n in store ensures PagesOf(pages, part)[n] == store[n] {
      assert PID(part, n) in pages && n in PagesOf(was, part);
    }
  }

  /** Writes one page through the buffer manager. */
  method PutPage(m: BufferManager, p: PID, page: Page, draws: seq<nat>, bs: map<PID, BCB>, ghost w: R.World)
      returns (bs': map<PID, BCB>, ghost w': R.World)
    requires R.Serves(m, w, bs) && R.Fair(draws, m.noFrames)
    requires p in w.pages && p !in w.held && |w.held.Keys| < m.noFrames
    modifies m, m.table, m.pool, m.blocks
    ensures R.Serves(m, w', bs') && w'.pages == w.pages[p := page] && w'.held == w.held
  {
    hide R.Serves, R.Brings;
    bs', w' := R.DoFix(m, p, Exclusive, draws, bs, w);
    bs', w' := R.DoWrite(m, p, page, bs', w');
    bs', w' := R.DoUnfix(m, p, bs', w');
    assert w.held[p := XLock] - {p} == w.held;
  }

  /** Writes the index pages of a segment through the buffer manager. */
  method PutIndex(m: BufferManager, part: byte, index: seq<uint32>, store: map<uint32, Page>, draws: seq<seq<nat>>,
                  bs: map<PID, BCB>, ghost w: R.World) returns (bs': map<PID, BCB>, ghost w': R.World)
    requires R.Serves(m, w, bs) && |draws| == |index|
    requires forall k :: 0 <= k < |draws| ==> R.Fair(draws[k], m.noFrames)
    requires |w.held.Keys| < m.noFrames
    requires forall n :: n in index ==> n in store && PID(part, n) in w.pages && PID(part, n) !in w.held
    modifies m, m.table, m.pool, m.blocks
    ensures R.Serves(m, w', bs') && Overwritten(w.pages, w'.pages, part, index, store) && w'.held == w.held
  {
    hide R.Serves, R.Fair, Overwritten;
    bs', w' := bs, w;
    NotYet(w.pages, part, store);
    for k := 0 to |index|
      invariant R.Serves(m, w', bs') && w'.held == w.held
      invariant Overwritten(w.pages, w'.pages, part, index[..k], store) && w'.pages.Keys == w.pages.Keys
    {
      assert index[k] in index;
      OverwrittenMore(w.pages, w'.pages, part, index[..k], store, index[k]);
      assert index[..k] + [index[k]] == index[..k + 1];
      bs', w' := PutPage(m, PID(part, index[k]), store[index[k]], draws[k], bs', w');
    }
    assert index[..|index|] == index;
  }

  lemma NotYet(pages: map<PID, Page>, part: byte, store: map<uint32, Page>)
    ensures Overwritten(pages, pages, part, [], store)
  {
  }

  /** A segment read back: the same FSM page, and of its data pages those that were read. */
  ghost predicate Reopened(s: Seg, s': Seg) {
    && s'.indexPages == s.indexPages && s'.fsm == s.fsm && s'.unallocated == s.unallocated
    && OthersSame(s.store, s'.store, s.indexPages)
    && |s'.pages| <= |s.pages| && s'.pages == s.pages[..|s'.pages|]
  }

  /** Tuples on the pages that were read are as before, the others are gone. */
  lemma ReopenedAt(s: Seg, s': Seg, t: Sp.TID)
    requires s.Valid() && Reopened(s, s')
    ensures Sp.At(s', t) == if t.pageNo in s'.pages then Sp.At(s, t) else None
  {
    hide Seg.Mapped, S.Stored, S.NoRecords, S.Good;
    if t.pageNo in s'.pages {
      assert t.pageNo in s.pages;
    }
  }

  lemma ReopenedValid(s: Seg, s': Seg)
    requires s.Valid() && Reopened(s, s') && s'.pages == s.pages
    ensures s'.Valid() && (s.Sound() ==> s'.Sound())
  {
    hide NextFsm, NoPages, EmptyFrom, S.Good, S.FreeSpace, Nibble, Covered;
    assert s'.store[s.fsm] == s.store[s.fsm];
    forall i | 0 <= i < |s.pages| ensures s.pages[i] in s'.store && s'.store[s.pages[i]] == s.store[s.pages[i]] {
      assert s.pages[i] in s.pages;
    }
    if s.Sound() {
      forall i | 0 <= i < |s'.pages| ensures s'.CoveredAt(i) {
        assert s.CoveredAt(i);
      }
    }
  }

  /** What a segment's pages and the buffer manager have to do with each other. */
  ghost predicate Backed(s: Seg, w: R.World, part: byte) {
    s.store == PagesOf(w.pages, part) && forall n :: n in s.indexPages ==> PID(part, n) !in w.held
  }

  lemma IndexThere(s: Seg, w: R.World, part: byte, store: map<uint32, Page>)
    requires s.Valid() && Backed(s, w, part) && store.Keys == s.store.Keys
    ensures forall n :: n in s.indexPages ==> n in store && PID(part, n) in w.pages && PID(part, n) !in w.held
  {
    hide Seg.Mapped, Seg.Formed;
    forall n | n in s.indexPages ensures n in store && PID(part, n) in w.pages {
      assert n in s.store;
    }
  }

  /**
   * Shutdown and a new start: the segment's lists go to its index pages, the buffer manager is flushed, and a new
   * manager on the same disk finds the lists again. The segment has its data pages, and is in order with all its
   * tuples, exactly if there were at most 1016; otherwise the tuples on the other pages are gone.
   */
  method Reopen(m: BufferManager, seg: SegmentFSM, segID: uint16, part: byte, draws: seq<seq<nat>>, frames: nat,
                bs: map<PID, BCB>, ghost w: R.World)
      returns (n: BufferManager, ghost w': R.World, loaded: SegmentFSM)
    requires R.Serves(m, w, bs) && seg.View().Valid() && Backed(seg.View(), w, part)
    requires |draws| == |seg.indexPages| && forall k :: 0 <= k < |draws| ==> R.Fair(draws[k], m.noFrames)
    requires |w.held.Keys| < m.noFrames && 5 <= frames < INVALID
    modifies m, m.table, m.pool, m.blocks
    ensures fresh(n) && R.Serves(n, w', map[]) && w'.held == map[] && fresh(loaded) && Backed(loaded.View(), w', part)
    ensures Reopened(seg.View(), loaded.View()) && loaded.View().store == PagesOf(w'.disk, part)
    ensures w'.disk == w'.pages
    ensures Overwritten(w.pages, w'.pages, part, seg.indexPages, PagesOf(w'.pages, part))
    ensures LaidUpTo(seg.store, loaded.store, |seg.indexPages|, seg.indexPages, seg.pages, seg.fsm, segID, part)
    ensures loaded.pages == Indexable(seg.View())
    ensures loaded.pages == seg.pages <==> |seg.pages| <= 1016
    ensures |seg.pages| <= 1016 ==>
      loaded.View().Valid() && (seg.View().Sound() ==> loaded.View().Sound())
  {
    hide R.Serves, R.Fair, OthersSame, Seg.Valid, PagesOf, Backed, Reopened, Indexed, Seg.Sound, Overwritten, LaidUpTo;
    ghost var s := seg.View();
    n, w' := Shutdown(m, seg, segID, part, draws, frames, bs, w);
    R.Facts(n, w', map[], PID(0, 0));
    loaded := LoadUnbuffered(PagesOf(n.disk, part), seg, segID, part);
    LoadedIs(s, loaded.View(), w', part);
  }

  /** Stores the lists, writes the index pages and flushes; the new manager has them on its disk. */
  method Shutdown(m: BufferManager, seg: SegmentFSM, segID: uint16, part: byte, draws: seq<seq<nat>>, frames: nat,
                  bs: map<PID, BCB>, ghost w: R.World) returns (n: BufferManager, ghost w': R.World)
    requires R.Serves(m, w, bs) && seg.View().Valid() && Backed(seg.View(), w, part)
    requires |draws| == |seg.indexPages| && forall k :: 0 <= k < |draws| ==> R.Fair(draws[k], m.noFrames)
    requires |w.held.Keys| < m.noFrames && 5 <= frames < INVALID
    modifies m, m.table, m.pool, m.blocks
    ensures fresh(n) && R.Serves(n, w', map[]) && w'.held == map[] && w'.disk == w'.pages
    ensures var store := PagesOf(w'.pages, part);
      && OthersSame(seg.store, store, seg.indexPages) && Indexed(store, seg.indexPages, seg.pages, seg.fsm, segID)
      && LaidUpTo(seg.store, store, |seg.indexPages|, seg.indexPages, seg.pages, seg.fsm, segID, part)
      && Overwritten(w.pages, w'.pages, part, seg.indexPages, store)
  {
    hide R.Serves, R.Fair, OthersSame, Overwritten, FsmChain, Indexed, Seg.Valid, PagesOf, Backed, LaidUpTo;
    Ready(seg.View());
    var lists := new SegmentPages.Of(seg, segID, part);
    lists.StoreSegment();
    IndexThere(seg.View(), w, part, lists.store);
    ghost var w1;
    var bs1;
    bs1, w1 := PutIndex(m, part, seg.indexPages, lists.store, draws, bs, w);
    IndexStored(seg.View(), w, w1, part, lists.store);
    n, w' := R.Restart(m, frames, bs1, w1);
  }

  /** Loads the lists of segment seg from what is on disk. */
  method LoadUnbuffered(disk: map<uint32, Page>, seg: SegmentFSM, segID: uint16, part: byte)
      returns (loaded: SegmentFSM)
    requires seg.View().Valid() && OthersSame(seg.store, disk, seg.indexPages)
    requires Indexed(disk, seg.indexPages, seg.pages, seg.fsm, segID)
    ensures fresh(loaded) && loaded.store == disk && loaded.indexPages == seg.indexPages && loaded.fsm == seg.fsm
    ensures loaded.unallocated == seg.unallocated
    ensures loaded.pages == Indexable(seg.View())
    ensures loaded.pages == seg.pages <==> |seg.pages| <= 1016
  {
    hide OthersSame, FsmChain, Indexed, Seg.Valid, NextFsm;
    Ready(seg.View());
    var back := new SegmentPages(disk, part);
    ChainKept(seg.store, disk, seg.indexPages, [seg.fsm]);
    back.LoadSegmentUnbuffered(seg.indexPages[0], seg.indexPages, seg.pages, [seg.fsm], segID);
    loaded := new SegmentFSM.Loaded(Seg(disk, back.pages, back.indexPages, back.fsmPages[0], seg.unallocated));
  }

  lemma Ready(s: Seg)
    requires s.Valid()
    ensures I.Chain(s.indexPages) && I.Chain([s.fsm]) && FsmChain(s.store, [s.fsm]) && |s.pages| < 0x1_0000_0000
    ensures forall p :: p in s.indexPages ==> p in s.store && p !in [s.fsm]
    ensures |s.pages| <= 1016 * |s.indexPages| <==> |s.pages| <= 1016
  {
    hide NextFsm, NoPages, EmptyFrom, Seg.Formed;
    IndexRoom(s);
    Storable(s);
  }

  lemma IndexStored(s: Seg, w: R.World, w1: R.World, part: byte, store: map<uint32, Page>)
    requires Backed(s, w, part) && Overwritten(w.pages, w1.pages, part, s.indexPages, store)
    requires OthersSame(s.store, store, s.indexPages) && store.Keys == s.store.Keys
    ensures PagesOf(w1.pages, part) == store
  {
    OverwrittenIs(w.pages, w1.pages, part, s.indexPages, store);
  }

  lemma LoadedIs(s: Seg, s': Seg, w': R.World, part: byte)
    requires s.Valid() && OthersSame(s.store, s'.store, s.indexPages)
    requires s'.store == PagesOf(w'.pages, part) && w'.held == map[]
    requires s'.indexPages == s.indexPages && s'.fsm == s.fsm && s'.unallocated == s.unallocated
    requires s'.pages == Indexable(s)
    ensures Reopened(s, s') && Backed(s', w', part)
    ensures s'.pages == s.pages ==> s'.Valid() && (s.Sound() ==> s'.Sound())
  {
    hide Seg.Valid, Seg.Sound, PagesOf, OthersSame;
    if s'.pages == s.pages {
      assert s'.pages == s.pages[..|s.pages|];
      ReopenedValid(s, s');
    }
  }

  /** The data pages that the index pages have room for. */
  ghost function Indexable(s: Seg): seq<uint32> {
    s.pages[..Min(|s.pages|, 1016 * |s.indexPages|)]
  }

  /**
   * The catalogue after shutdown and boot: both maps are those from before exactly if every record lies on a data
   * page that the index pages have room for, as it does in a master segment of at most 1016 data pages.
   */
  method ShutdownAndBoot(m: BufferManager, was: SegmentManager, segID: uint16, part: byte, draws: seq<seq<nat>>,
                         frames: nat, bs: map<PID, BCB>, ghost w: R.World)
      returns (n: BufferManager, ghost w': R.World, r: SegmentManager)
    requires R.Serves(m, w, bs) && was.Consistent() && Backed(was.master.base.View(), w, part)
    requires |draws| == |was.master.base.indexPages|
    requires forall k :: 0 <= k < |draws| ==> R.Fair(draws[k], m.noFrames)
    requires |w.held.Keys| < m.noFrames && 5 <= frames < INVALID
    modifies m, m.table, m.pool, m.blocks
    ensures R.Serves(n, w', map[]) && Backed(r.master.base.View(), w', part) && w'.disk == w'.pages
    ensures Overwritten(w.pages, w'.pages, part, was.master.base.indexPages, PagesOf(w'.pages, part))
    ensures r.byID == was.byID && r.byName == was.byName <==>
      forall t: Sp.TID :: Sp.Live(was.master.base.View(), t) ==> t.pageNo in Indexable(was.master.base.View())
    ensures |was.master.base.pages| <= 1016 ==>
      r.Consistent() && r.byID == was.byID && r.byName == was.byName
  {
    hide R.Serves, R.Fair, Seg.Valid, Seg.Readable, Seg.Sound, Durable, Inverse, Backed, Reopened, PagesOf, Indexable;
    hide Surviving, Names, Reduced, Sp.Live, Overwritten, LaidUpTo;
    ghost var s := was.master.base.View();
    var base;
    n, w', base := Reopen(m, was.master.base, segID, part, draws, frames, bs, w);
    var master := new Sp.SegmentFSM_SP(base);
    FewerTuples(s, base.View());
    r := SegmentManager.Boot(master, was.masterName, was);
    AllSurvive(was.byID, was.byName, was.home, s, base.View());
    if |was.master.base.pages| <= 1016 {
      AllKept(s);
    }
  }

  /** The tuples after reopening are those on the pages that came back. */
  lemma FewerTuples(s: Seg, s': Seg)
    requires s.Valid() && Reopened(s, s') && s'.pages == Indexable(s)
    ensures s'.Readable() && Reduced(s, s')
    ensures (forall t: Sp.TID :: Sp.Live(s, t) ==> Sp.Live(s', t)) <==>
      forall t: Sp.TID :: Sp.Live(s, t) ==> t.pageNo in Indexable(s)
  {
    hide Reopened, Sp.At, Indexable, Seg.Valid, Seg.Readable;
    ReopenedReadable(s, s');
    forall t: Sp.TID
      ensures Sp.SameAt(s, s', t) || Sp.At(s', t) == None
      ensures Sp.Live(s', t) <==> Sp.Live(s, t) && t.pageNo in Indexable(s)
    {
      ReopenedAt(s, s', t);
    }
  }

  lemma ReopenedReadable(s: Seg, s': Seg)
    requires s.Valid() && Reopened(s, s')
    ensures s'.Readable()
  {
    hide Seg.Mapped, S.Good;
    forall i | 0 <= i < |s'.pages| ensures s'.pages[i] in s'.store && S.Good(s'.store[s'.pages[i]]) {
      assert s'.pages[i] == s.pages[i] && s.pages[i] in s.pages;
    }
  }

  lemma AllKept(s: Seg)
    requires s.Valid() && |s.pages| <= 1016
    ensures Indexable(s) == s.pages
    ensures forall t: Sp.TID :: Sp.Live(s, t) ==> t.pageNo in Indexable(s)
  {
    hide Sp.At, Seg.Valid;
    Ready(s);
    assert s.pages[..|s.pages|] == s.pages;
    forall t: Sp.TID | Sp.Live(s, t) ensures t.pageNo in s.pages {
      Nowhere(s, t);
    }
  }

  lemma Nowhere(s: Seg, t: Sp.TID)
    ensures t.pageNo !in s.pages ==> Sp.At(s, t) == None
  {
    if t.pageNo !in s.pages {
      Sp.AtNowhere(s, t);
    }
  }
}
