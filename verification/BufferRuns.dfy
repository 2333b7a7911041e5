/** Whole runs of the buffer manager, with any number of held pages, against a plain page map and its disk. */
module BufferRuns {
  import opened PageTypes
  import opened BufferControlBlocks
  import opened CacheModel
  import opened PoolModel
  import opened BufferManagers

  /** One call of a client; Read and Write use the frame of a page the client holds. */
  datatype Op =
    | Fix(p: PID, mode: LockMode)
    | Create(p: PID)
    | Read(p: PID)
    | Write(p: PID, page: Page)
    | Unfix(p: PID)
    | FlushPage(p: PID)
    | FlushAll
    | Drop(p: PID)

  /** What a client can tell: the pages, the disk, the locks of the pages that are held, and which pages are cached. */
  datatype World = World(pages: map<PID, Page>, disk: map<PID, Page>, held: map<PID, LockState>, cached: set<PID>) {
    ghost function Lock(p: PID): LockState {
      if p in held then held[p] else Unlocked
    }

    /** Page p has a new lock state, and is held no longer if nobody is left. */
    ghost function Relocked(p: PID, l: LockState): map<PID, LockState> {
      if l.fixCount == 0 then held - {p} else held[p := l]
    }

    /** Held pages are cached, and a page that is not cached is on disk as it is. */
    ghost predicate Ok() {
      && held.Keys <= cached <= pages.Keys && disk.Keys <= pages.Keys
      && (forall p :: p in pages && p !in cached ==> p in disk && disk[p] == pages[p])
      && (forall p :: p in held ==> held[p].Ok() && held[p].fixCount > 0)
    }
  }

  /** Whether the call can be made, and returns, when all other holders keep what they hold. */
  ghost predicate Enabled(op: Op, w: World, frames: nat) {
    match op
    case Fix(p, mode) =>
      p in w.pages && mode != NoType && w.Lock(p).Grants(mode) && (p in w.cached || |w.held.Keys| < frames)
    case Create(p) => p !in w.cached && |w.held.Keys| < frames
    case Read(p) => p in w.held
    case Write(p, _) => p in w.held && w.held[p].mode == Exclusive
    case Unfix(p) => p in w.held
    case FlushPage(p) => p in w.held
    case FlushAll => true
    case Drop(p) => p !in w.held
  }

  /** What a call that can be made does; `out` is the page that was read. */
  ghost predicate Effect(op: Op, w: World, w': World, out: Option<Page>, frames: nat) {
    match op
    case Fix(p, mode) =>
      && w'.pages == w.pages && Brings(p, w, w', frames) && out == None
      && w'.held == w.Relocked(p, w.Lock(p).Locked(mode))
    case Create(p) =>
      && p in w'.pages && w'.pages == w.pages[p := w'.pages[p]] && Brings(p, w, w', frames) && out == None
      && w'.pages[p][PAGE_SIZE - 16..] == BasicHeader(1, p)
      && w'.held == w.Relocked(p, XLock)
    case Read(p) => w' == w && p in w.pages && out == Some(w.pages[p])
    case Write(p, page) => w' == w.(pages := w.pages[p := page]) && out == None
    case Unfix(p) => w' == w.(held := w.Relocked(p, w.Lock(p).Released())) && out == None
    case FlushPage(p) => p in w.pages && w' == w.(disk := w.disk[p := w.pages[p]]) && out == None
    case FlushAll => w' == w.(disk := w.pages) && out == None
    case Drop(p) => w' == w.(pages := Dropped(p, w.pages, w.disk), cached := w.cached - {p}) && out == None
  }

  /**
     Page p is cached afterwards. Nothing else happens if it was already, or if a frame is free for it; otherwise one
     other page is evicted, and is on disk as it is afterwards.
   */
  ghost predicate Brings(p: PID, w: World, w': World, frames: nat) {
    if p in w.cached then w'.cached == w.cached && w'.disk == w.disk
    else if |w.cached| < frames then w'.cached == w.cached + {p} && w'.disk == w.disk
    else exists v :: Evicts(p, w, w', v)
  }

  ghost predicate Evicts(p: PID, w: World, w': World, v: PID) {
    v in w.cached && v in w.pages && v != p && w'.cached == w.cached - {v} + {p} && w'.disk == w.disk[v := w.pages[v]]
  }

  ghost predicate Step(op: Op, w: World, w': World, out: Option<Page>, frames: nat) {
    if Enabled(op, w, frames) then Effect(op, w, w', out, frames) else w' == w && out == None
  }

  ghost predicate Trace(ops: seq<Op>, ws: seq<World>, outs: seq<Option<Page>>, frames: nat) {
    && |ws| == |ops| + 1 && |outs| == |ops|
    && (forall k :: 0 <= k < |ws| ==> ws[k].Ok())
    && forall k :: 0 <= k < |ops| ==> Step(ops[k], ws[k], ws[k + 1], outs[k], frames)
  }

  /**
   * Which calls go through: a page is locked shared unless somebody has it exclusively, and exclusively unless anybody
   * has it; a frame is needed for a page that is not cached; a page is used by its holders, and dropped if it has none.
   */
  lemma GoesThrough(w: World, frames: nat, p: PID, page: Page)
    requires w.Ok()
    ensures Enabled(Fix(p, Shared), w, frames) <==>
      p in w.pages && (p in w.held ==> w.held[p].mode == Shared) && (p in w.cached || |w.held.Keys| < frames)
    ensures Enabled(Fix(p, Exclusive), w, frames) <==>
      p in w.pages && p !in w.held && (p in w.cached || |w.held.Keys| < frames)
    ensures Enabled(Create(p), w, frames) <==> p !in w.cached && |w.held.Keys| < frames
    ensures Enabled(Read(p), w, frames) <==> p in w.held
    ensures Enabled(Write(p, page), w, frames) <==> p in w.held && w.held[p].mode == Exclusive
    ensures Enabled(Unfix(p), w, frames) <==> p in w.held
    ensures Enabled(FlushPage(p), w, frames) <==> p in w.held
    ensures Enabled(FlushAll, w, frames)
    ensures Enabled(Drop(p), w, frames) <==> p !in w.held
  {
  }

  // ----- what every run does -----

  /** A new page that is written and given back is there when it is fixed again. */
  lemma CreateWriteRead(ops: seq<Op>, ws: seq<World>, outs: seq<Option<Page>>, frames: nat, p: PID, page: Page)
    requires Trace(ops, ws, outs, frames)
    requires ops == [Create(p), Write(p, page), Unfix(p), Fix(p, Shared), Read(p)]
    requires p !in ws[0].cached && |ws[0].held.Keys| < frames
    ensures outs[4] == Some(page) && ws[5].held == ws[0].held[p := SLock(1)]
  {
    assert ws[0].Ok();
    assert Step(ops[0], ws[0], ws[1], outs[0], frames);
    assert Step(ops[1], ws[1], ws[2], outs[1], frames);
    assert Step(ops[2], ws[2], ws[3], outs[2], frames);
    assert Step(ops[3], ws[3], ws[4], outs[3], frames);
    assert Step(ops[4], ws[4], ws[5], outs[4], frames);
    assert ws[3].held == ws[0].held;
  }

  /** Two clients read a page together; when one gives it back the other still has it, and nobody can drop it. */
  lemma ReadTogether(ops: seq<Op>, ws: seq<World>, outs: seq<Option<Page>>, frames: nat, p: PID)
    requires Trace(ops, ws, outs, frames)
    requires ops == [Fix(p, Shared), Fix(p, Shared), Unfix(p), Drop(p), Read(p), Unfix(p)]
    requires p in ws[0].pages && p !in ws[0].held && |ws[0].held.Keys| < frames
    ensures outs[4] == Some(ws[0].pages[p]) && p in ws[2].held && ws[2].held[p] == SLock(2)
    ensures ws[6].held == ws[0].held
  {
    assert ws[0].Ok();
    assert Step(ops[0], ws[0], ws[1], outs[0], frames);
    assert Step(ops[1], ws[1], ws[2], outs[1], frames);
    assert Step(ops[2], ws[2], ws[3], outs[2], frames);
    assert Step(ops[3], ws[3], ws[4], outs[3], frames);
    assert Step(ops[4], ws[4], ws[5], outs[4], frames);
    assert Step(ops[5], ws[5], ws[6], outs[5], frames);
  }

  /** Whether the operation may change page p. */
  predicate Touches(op: Op, p: PID) {
    (op.Write? || op.Create? || op.Drop?) && op.p == p
  }

  /** A page keeps its bytes over any run that does not write, create or drop it. */
  lemma {:induction false} Untouched(ops: seq<Op>, ws: seq<World>, outs: seq<Option<Page>>, frames: nat,
                                     p: PID, i: nat, j: nat)
    requires Trace(ops, ws, outs, frames) && i <= j <= |ops|
    requires forall k :: i <= k < j ==> !Touches(ops[k], p)
    ensures p in ws[i].pages <==> p in ws[j].pages
    ensures p in ws[i].pages ==> ws[j].pages[p] == ws[i].pages[p]
    decreases j - i
  {
    if i < j {
      Untouched(ops, ws, outs, frames, p, i, j - 1);
      assert Step(ops[j - 1], ws[j - 1], ws[j], outs[j - 1], frames);
    }
  }

  /** A read yields the bytes of the last write, whatever was unfixed, evicted, flushed and fixed again in between. */
  lemma ReadYieldsLastWrite(ops: seq<Op>, ws: seq<World>, outs: seq<Option<Page>>, frames: nat,
                            p: PID, page: Page, i: nat, j: nat)
    requires Trace(ops, ws, outs, frames) && i < j < |ops|
    requires ops[i] == Write(p, page) && Enabled(ops[i], ws[i], frames)
    requires ops[j] == Read(p) && Enabled(ops[j], ws[j], frames)
    requires forall k :: i < k < j ==> !Touches(ops[k], p)
    ensures outs[j] == Some(page)
  {
    assert Step(ops[i], ws[i], ws[i + 1], outs[i], frames);
    Untouched(ops, ws, outs, frames, p, i + 1, j);
    assert Step(ops[j], ws[j], ws[j + 1], outs[j], frames);
  }

  /** The disk has only bytes that it had before, or that the page itself had at some time of the run. */
  lemma {:induction false} NoInventedBytes(ops: seq<Op>, ws: seq<World>, outs: seq<Option<Page>>, frames: nat,
                                           p: PID, j: nat)
    requires Trace(ops, ws, outs, frames) && j <= |ops| && p in ws[j].disk
    ensures (p in ws[0].disk && ws[j].disk[p] == ws[0].disk[p])
         || exists k :: 0 <= k <= j && p in ws[k].pages && ws[k].pages[p] == ws[j].disk[p]
    decreases j
  {
    if j > 0 {
      assert Step(ops[j - 1], ws[j - 1], ws[j], outs[j - 1], frames);
      if p in ws[j - 1].disk && ws[j].disk[p] == ws[j - 1].disk[p] {
        NoInventedBytes(ops, ws, outs, frames, p, j - 1);
      } else {
        assert p in ws[j - 1].pages && ws[j - 1].pages[p] == ws[j].disk[p];
      }
    }
  }

  predicate Flushes(op: Op, p: PID) {
    op == FlushAll || op == FlushPage(p)
  }

  /** The disk keeps its bytes of a page for as long as the page stays cached and is not flushed. */
  lemma {:induction false} DiskKept(ops: seq<Op>, ws: seq<World>, outs: seq<Option<Page>>, frames: nat,
                                    p: PID, i: nat, j: nat)
    requires Trace(ops, ws, outs, frames) && i <= j <= |ops|
    requires forall k :: i <= k <= j ==> p in ws[k].cached
    requires forall k :: i <= k < j ==> !Flushes(ops[k], p)
    ensures p in ws[i].disk <==> p in ws[j].disk
    ensures p in ws[i].disk ==> ws[j].disk[p] == ws[i].disk[p]
    decreases j - i
  {
    if i < j {
      DiskKept(ops, ws, outs, frames, p, i, j - 1);
      assert Step(ops[j - 1], ws[j - 1], ws[j], outs[j - 1], frames);
    }
  }

  /**
     Dropping a page that stayed cached since its last flush takes it back to what was flushed, whatever was
     written since.
     */
  lemma DropRestoresFlushed(ops: seq<Op>, ws: seq<World>, outs: seq<Option<Page>>, frames: nat,
                            p: PID, i: nat, j: nat)
    requires Trace(ops, ws, outs, frames) && i < j < |ops|
    requires Flushes(ops[i], p) && Enabled(ops[i], ws[i], frames)
    requires ops[j] == Drop(p) && Enabled(ops[j], ws[j], frames)
    requires forall k :: i <= k <= j ==> p in ws[k].cached
    requires forall k :: i < k < j ==> !Flushes(ops[k], p)
    ensures p in ws[i].pages && p in ws[j + 1].pages && ws[j + 1].pages[p] == ws[i].pages[p]
  {
    assert Step(ops[i], ws[i], ws[i + 1], outs[i], frames);
    assert ws[i].Ok();
    DiskKept(ops, ws, outs, frames, p, i + 1, j);
    assert Step(ops[j], ws[j], ws[j + 1], outs[j], frames);
  }

  // ----- the buffer manager has these runs -----

  /** The world of a manager whose clients hold the blocks bs. */
  ghost predicate Mirrors(s: Pool, pages: map<PID, Page>, w: World, bs: map<PID, BCB>) {
    && w.pages == pages && w.disk == s.cache.disk && w.cached == s.cache.entries.Keys
    && bs.Keys == w.held.Keys
    && (forall p :: p in w.held ==> w.held[p].fixCount > 0 && p in s.where && s.where[p] == bs[p])
    && forall p :: s.LockOf(p) == w.Lock(p)
  }

  ghost predicate Serves(m: BufferManager, w: World, bs: map<PID, BCB>)
    reads m, m.table, m.pool, m.freeFrameList, m.blocks
  {
    m.Valid() && Mirrors(m.st, m.logical, w, bs)
  }

  /** Every bucket number occurs among the random draws. */
  ghost predicate Fair(draws: seq<nat>, size: nat) {
    forall h: nat :: h < size ==> h in draws
  }

  lemma WorldOk(m: BufferManager, w: World, bs: map<PID, BCB>)
    requires Serves(m, w, bs)
    ensures w.Ok()
  {
    hide Pool.Lists, Pool.Ties, Pool.Locks, Pool.Counted, Cache.Frames, BufferManager.Synced, Pool.LockOf;
    forall p | p in w.held
      ensures w.held[p].Ok() && p in w.cached
    {
      assert m.st.LockOf(p) == w.Lock(p);
      HeldOk(m.st, p);
    }
  }

  lemma HeldOk(s: Pool, p: PID)
    requires s.Inv(null) && s.LockOf(p).fixCount > 0
    ensures s.LockOf(p).Ok() && p in s.cache.entries
  {
    hide Pool.Lists, Pool.Counted;
  }

  lemma BringsIs(m: BufferManager, before: Cache, p: PID, w: World, w': World, frames: nat)
    requires m.Valid() && before.Frames(0) && |before.pool| == frames && m.st.cache.Brought(before, w.pages, p)
    requires w.cached == before.entries.Keys && w.disk == before.disk
    requires w'.cached == m.st.cache.entries.Keys && w'.disk == m.st.cache.disk
    ensures Brings(p, w, w', frames)
  {
    hide Cache.Frames, Cache.Stands, Pool.Inv, BufferManager.Synced;
    before.FreeLeft();
    if p !in before.entries && before.free == [] {
      var v :| m.st.cache.Evicted(before, w.pages, v, {p});
      assert Evicts(p, w, w', v);
    }
  }

  lemma HeldBlock(m: BufferManager, w: World, bs: map<PID, BCB>, p: PID)
    requires Serves(m, w, bs) && p in bs
    ensures p in w.held && m.st.Holds(bs[p], p) && m.st.LockOf(p) == w.held[p] && w.held[p].fixCount > 0
    ensures bs[p].frameIndex < m.pool.Length && p in w.pages && m.pool[bs[p].frameIndex] == w.pages[p]
    ensures bs[p] in m.blocks && bs[p].LockStatus() == w.held[p]
  {
    hide Pool.Lists, Pool.Ties, Pool.Locks, Pool.Counted, Cache.Frames, Cache.Stands, BufferManager.Synced;
    WorldOk(m, w, bs);
    m.st.Cached(p);
    m.PageInFrame(bs[p], p);
  }

  lemma CanBring(m: BufferManager, w: World, bs: map<PID, BCB>, draws: seq<nat>)
    requires Serves(m, w, bs) && Fair(draws, m.noFrames) && |bs.Keys| < m.noFrames
    ensures m.st.cache.free != [] || m.st.DrawsHit(draws)
  {
    hide Cache.Frames, Cache.Stands, Pool.Lists, Pool.Ties, Pool.Locks, Pool.DrawsHit, Pool.LockOf;
    m.LocateFacts();
    m.SyncedFacts();
    assert forall p :: p !in bs.Keys ==> m.st.LockOf(p) == w.Lock(p);
    m.st.FairDraws(draws, bs.Keys);
  }

  /** The world after a step on page p, whose block is b. */
  ghost function After(s: Pool, pages: map<PID, Page>, w: World, p: PID): World {
    World(pages, s.cache.disk, w.Relocked(p, s.LockOf(p)), s.cache.entries.Keys)
  }

  lemma StepMirrors(before: Pool, s: Pool, pages: map<PID, Page>, pages': map<PID, Page>, w: World, bs: map<PID, BCB>,
                    bs': map<PID, BCB>, p: PID)
    requires before.Inv(null) && s.Inv(null) && Mirrors(before, pages, w, bs) && s.KeepsPages(before, p)
    requires if s.LockOf(p).fixCount == 0 then bs' == bs - {p} else p in s.where && bs' == bs[p := s.where[p]]
    ensures Mirrors(s, pages', After(s, pages', w, p), bs')
  {
    hide Pool.Inv, Pool.KeepsPages, Pool.LockOf;
    var w' := After(s, pages', w, p);
    if s.LockOf(p).fixCount == 0 {
      s.UnheldIsUnlocked(p);
    }
    forall q
      ensures s.LockOf(q) == w'.Lock(q)
      ensures q in w'.held ==> w'.held[q].fixCount > 0 && q in s.where && s.where[q] == bs'[q]
    {
      if q != p {
        s.LocksKept(before, p, q);
        assert before.LockOf(q) == w.Lock(q);
      }
    }
    assert bs'.Keys == w'.held.Keys;
  }

  lemma CacheFacts(m: BufferManager)
    requires m.Valid()
    ensures m.st.cache.Frames(0) && |m.st.cache.pool| == m.noFrames
  {
    hide Pool.Inv, Cache.Stands;
    m.SyncedFacts();
  }

  lemma Facts(m: BufferManager, w: World, bs: map<PID, BCB>, p: PID)
    requires Serves(m, w, bs)
    ensures m.st.LockOf(p) == w.Lock(p) && w.cached == m.st.cache.entries.Keys && w.pages == m.logical
    ensures w.disk == m.disk == m.st.cache.disk && bs.Keys == w.held.Keys && m.st.Inv(null)
  {
    hide Pool.Inv, Cache.Frames, Cache.Stands;
    m.SyncedFacts();
  }

  /** Whether page p is cached or on disk. */
  method Exists(m: BufferManager, p: PID) returns (known: bool)
    requires m.Valid()
    ensures known <==> p in m.logical
  {
    hide BufferManager.Synced, Pool.Inv, Cache.Frames;
    var b := m.FindPage(p);
    m.SyncedFacts();
    known := b != null || p in m.disk;
  }

  /** Whether page p is there and can be locked at once, with a frame to be had if it is not cached. */
  method MayFix(m: BufferManager, p: PID, mode: LockMode, bs: map<PID, BCB>, ghost w: World) returns (go: bool)
    requires Serves(m, w, bs)
    ensures go == Enabled(Fix(p, mode), w, m.noFrames)
  {
    hide BufferManager.Synced, Pool.Inv, Cache.Frames, Cache.Stands, Pool.Holds, Mirrors;
    Facts(m, w, bs, p);
    var known := Exists(m, p);
    var b := m.FindPage(p);
    if b == null {
      m.NotCached(p);
      go := known && mode != NoType && |bs.Keys| < m.noFrames;
    } else {
      m.PageInFrame(b, p);
      go := mode != NoType && b.Grants(mode);
    }
  }

  method DoFix(m: BufferManager, p: PID, mode: LockMode, draws: seq<nat>, bs: map<PID, BCB>, ghost w: World)
      returns (bs': map<PID, BCB>, ghost w': World)
    requires Serves(m, w, bs) && Fair(draws, m.noFrames)
    modifies m, m.table, m.pool, m.blocks
    ensures Serves(m, w', bs') && Step(Fix(p, mode), w, w', None, m.noFrames)
  {
    hide BufferManager.Valid, Pool.KeepsPages, Pool.DrawsHit, Pool.Inv, Pool.LockOf, Mirrors, Pool.Holds, Brings;
    hide Cache.Brought, Cache.Frames;
    var go := MayFix(m, p, mode, bs, w);
    if !go {
      return bs, w;
    }
    Facts(m, w, bs, p);
    if |bs.Keys| < m.noFrames {
      CanBring(m, w, bs, draws);
    }
    CacheFacts(m);
    ghost var st0, m0 := m.st, m.logical;
    var b := m.Fix(p, mode, draws);
    bs', w' := Settle(m, st0, m0, b, p, bs, w);
    BringsIs(m, st0.cache, p, w, w', m.noFrames);
  }

  /** Keeps the books after a call that locked or unlocked page p. */
  method Settle(m: BufferManager, ghost st0: Pool, ghost m0: map<PID, Page>, b: BCB, ghost p: PID,
                bs: map<PID, BCB>, ghost w: World) returns (bs': map<PID, BCB>, ghost w': World)
    requires m.Valid() && st0.Inv(null) && Mirrors(st0, m0, w, bs)
    requires m.st.KeepsPages(st0, p) && m.st.Holds(b, p)
    ensures Serves(m, w', bs') && w' == After(m.st, m.logical, w, p) && m.disk == w'.disk
  {
    hide BufferManager.Synced, Cache.Frames, Cache.Stands, Pool.KeepsPages, Pool.Inv, Pool.LockOf, Mirrors;
    m.PageInFrame(b, p);
    m.SyncedFacts();
    bs' := if b.fixCount == 0 then bs - {b.pageID} else bs[b.pageID := b];
    w' := After(m.st, m.logical, w, p);
    StepMirrors(st0, m.st, m0, m.logical, w, bs, bs', p);
  }

  method DoCreate(m: BufferManager, p: PID, draws: seq<nat>, bs: map<PID, BCB>, ghost w: World)
      returns (bs': map<PID, BCB>, ghost w': World)
    requires Serves(m, w, bs) && Fair(draws, m.noFrames)
    modifies m, m.table, m.pool, m.blocks
    ensures Serves(m, w', bs') && Step(Create(p), w, w', None, m.noFrames)
  {
    hide BufferManager.Valid, Pool.KeepsPages, Pool.DrawsHit, Pool.Inv, Pool.LockOf, Mirrors, Pool.Holds, Brings;
    hide Cache.Brought, Cache.Frames;
    Facts(m, w, bs, p);
    var c := m.FindPage(p);
    if c != null || |bs.Keys| >= m.noFrames {
      return bs, w;
    }
    CanBring(m, w, bs, draws);
    CacheFacts(m);
    ghost var st0, m0 := m.st, m.logical;
    var b := m.EmptyFix(p, draws);
    bs', w' := Settle(m, st0, m0, b, p, bs, w);
    BringsIs(m, st0.cache, p, w, w', m.noFrames);
    assert w'.pages == w.pages[p := w'.pages[p]];
  }

  method DoRead(m: BufferManager, p: PID, bs: map<PID, BCB>, ghost w: World) returns (out: Option<Page>)
    requires Serves(m, w, bs)
    ensures Step(Read(p), w, w, out, m.noFrames)
  {
    hide BufferManager.Valid, Mirrors, Pool.Holds;
    Facts(m, w, bs, p);
    out := None;
    if p in bs {
      HeldBlock(m, w, bs, p);
      out := Some(m.pool[bs[p].frameIndex]);
    }
  }

  method DoWrite(m: BufferManager, p: PID, page: Page, bs: map<PID, BCB>, ghost w: World)
      returns (bs': map<PID, BCB>, ghost w': World)
    requires Serves(m, w, bs)
    modifies m, m.pool, m.blocks
    ensures Serves(m, w', bs') && Step(Write(p, page), w, w', None, m.noFrames)
  {
    hide BufferManager.Valid, Pool.KeepsPages, Pool.Inv, Pool.LockOf, Mirrors, Pool.Holds;
    Facts(m, w, bs, p);
    if p in bs {
      HeldBlock(m, w, bs, p);
    }
    if p !in bs || bs[p].mode != Exclusive {
      return bs, w;
    }
    ghost var st0, m0 := m.st, m.logical;
    m.WritePage(bs[p], p, page);
    bs', w' := Settle(m, st0, m0, bs[p], p, bs, w);
  }

  method DoUnfix(m: BufferManager, p: PID, bs: map<PID, BCB>, ghost w: World)
      returns (bs': map<PID, BCB>, ghost w': World)
    requires Serves(m, w, bs)
    modifies m, m.blocks
    ensures Serves(m, w', bs') && Step(Unfix(p), w, w', None, m.noFrames)
  {
    hide BufferManager.Valid, Pool.KeepsPages, Pool.Inv, Pool.LockOf, Mirrors, Pool.Holds;
    Facts(m, w, bs, p);
    if p !in bs {
      return bs, w;
    }
    HeldBlock(m, w, bs, p);
    ghost var st0, m0 := m.st, m.logical;
    m.Unfix(bs[p], p);
    bs', w' := Settle(m, st0, m0, bs[p], p, bs, w);
  }

  method DoFlushPage(m: BufferManager, p: PID, bs: map<PID, BCB>, ghost w: World) returns (ghost w': World)
    requires Serves(m, w, bs)
    modifies m`disk, m`st
    ensures Serves(m, w', bs) && Step(FlushPage(p), w, w', None, m.noFrames)
  {
    hide BufferManager.Valid, Mirrors, Pool.Holds, Pool.LockOf, Pool.Inv, Cache.Frames, Cache.Stands, Dropped;
    Facts(m, w, bs, p);
    w' := w;
    if p in bs {
      HeldBlock(m, w, bs, p);
      ghost var st0 := m.st;
      m.FlushPage(bs[p], p);
      m.ValidFacts();
      w' := w.(disk := m.disk);
      SameLocks(st0, m.st, m.logical, w, w', bs);
    }
  }

  method DoFlushAll(m: BufferManager, bs: map<PID, BCB>, ghost w: World) returns (ghost w': World)
    requires Serves(m, w, bs)
    modifies m`disk, m`st
    ensures Serves(m, w', bs) && Step(FlushAll, w, w', None, m.noFrames) && m.disk == m.logical == old(m.logical)
  {
    hide BufferManager.Valid, Mirrors, Pool.LockOf, Pool.Inv, Cache.Frames, Cache.Stands, Dropped;
    Facts(m, w, bs, PID(0, 0));
    ghost var st0 := m.st;
    m.FlushAll();
    m.ValidFacts();
    w' := w.(disk := m.disk);
    SameLocks(st0, m.st, m.logical, w, w', bs);
  }

  /** A flush changes nothing but the disk. */
  lemma SameLocks(before: Pool, s: Pool, pages: map<PID, Page>, w: World, w': World, bs: map<PID, BCB>)
    requires Mirrors(before, pages, w, bs) && s == before.(cache := s.cache)
    requires s.cache.entries == before.cache.entries && w' == w.(disk := s.cache.disk)
    ensures Mirrors(s, pages, w', bs)
  {
    assert forall p :: s.LockOf(p) == before.LockOf(p);
  }

  method DoDrop(m: BufferManager, p: PID, bs: map<PID, BCB>, ghost w: World) returns (ghost w': World)
    requires Serves(m, w, bs)
    modifies m, m.table, m.freeFrameList, m.blocks
    ensures Serves(m, w', bs) && Step(Drop(p), w, w', None, m.noFrames)
  {
    hide BufferManager.Valid, Pool.KeepsPages, Pool.Inv, Pool.LockOf, Mirrors, Dropped;
    Facts(m, w, bs, p);
    w' := w;
    if p !in bs {
      ghost var st0, m0 := m.st, m.logical;
      m.ResetBCB(p);
      DropMirrors(m, st0, m0, w, bs, p);
      w' := After(m.st, m.logical, w, p);
    }
  }

  lemma DropMirrors(m: BufferManager, before: Pool, m0: map<PID, Page>, w: World, bs: map<PID, BCB>, p: PID)
    requires m.Valid() && before.Inv(null) && Mirrors(before, m0, w, bs)
    requires m.st.KeepsPages(before, p) && p !in m.st.cache.entries && p !in bs
    ensures Mirrors(m.st, m.logical, After(m.st, m.logical, w, p), bs) && m.disk == m.st.cache.disk
    ensures After(m.st, m.logical, w, p).held == w.held && bs.Keys == w.held.Keys
  {
    hide BufferManager.Synced, Cache.Frames, Cache.Stands, Pool.KeepsPages, Pool.Inv, Pool.LockOf;
    m.SyncedFacts();
    m.st.UnheldIsUnlocked(p);
    assert bs - {p} == bs && w.held - {p} == w.held;
    StepMirrors(before, m.st, m0, m.logical, w, bs, bs, p);
  }

  /** One call of a client; one that would block for ever is left out. */
  method Do(m: BufferManager, op: Op, draws: seq<nat>, bs: map<PID, BCB>, ghost w: World)
      returns (out: Option<Page>, bs': map<PID, BCB>, ghost w': World)
    requires Serves(m, w, bs) && Fair(draws, m.noFrames)
    modifies m, m.table, m.pool, m.freeFrameList, m.blocks
    ensures Serves(m, w', bs') && Step(op, w, w', out, m.noFrames)
  {
    hide Serves, Step;
    out, bs', w' := None, bs, w;
    match op
    case Fix(p, mode) => bs', w' := DoFix(m, p, mode, draws, bs, w);
    case Create(p) => bs', w' := DoCreate(m, p, draws, bs, w);
    case Read(p) => out := DoRead(m, p, bs, w);
    case Write(p, page) => bs', w' := DoWrite(m, p, page, bs, w);
    case Unfix(p) => bs', w' := DoUnfix(m, p, bs, w);
    case FlushPage(p) => w' := DoFlushPage(m, p, bs, w);
    case FlushAll => w' := DoFlushAll(m, bs, w);
    case Drop(p) => w' := DoDrop(m, p, bs, w);
  }

  /**
     Any sequence of calls, with any pages held in between and any fair random choices, has the outputs, the
     pages, the locks and the disk of a run of the plain page map.
   */
  method Run(m: BufferManager, ops: seq<Op>, draws: seq<seq<nat>>, bs: map<PID, BCB>, ghost w: World)
      returns (outs: seq<Option<Page>>, bs': map<PID, BCB>, ghost ws: seq<World>)
    requires Serves(m, w, bs) && |draws| == |ops| && forall k :: 0 <= k < |ops| ==> Fair(draws[k], m.noFrames)
    modifies m, m.table, m.pool, m.freeFrameList, m.blocks
    ensures Trace(ops, ws, outs, m.noFrames) && ws[0] == w
    ensures Serves(m, ws[|ops|], bs') && ws[|ops|].pages == m.logical && ws[|ops|].disk == m.disk
  {
    hide Serves, Step, Fair;
    outs, bs', ws := [], bs, [w];
    WorldOk(m, w, bs);
    var k := 0;
    while k < |ops|
      invariant k <= |ops| && |ws| == k + 1 && |outs| == k && ws[0] == w && Serves(m, ws[k], bs')
      invariant forall i :: 0 <= i <= k ==> ws[i].Ok()
      invariant forall i :: 0 <= i < k ==> Step(ops[i], ws[i], ws[i + 1], outs[i], m.noFrames)
    {
      var out;
      ghost var next;
      out, bs', next := Do(m, ops[k], draws[k], bs', ws[k]);
      WorldOk(m, next, bs');
      outs, ws, k := outs + [out], ws + [next], k + 1;
    }
    Facts(m, ws[|ops|], bs', PID(0, 0));
  }

  /** A manager that has just been set up serves a world in which nothing is held. */
  method Start(frames: nat, disk: map<PID, Page>) returns (m: BufferManager, ghost w: World)
    requires 5 <= frames < INVALID
    ensures w == World(disk, disk, map[], {}) && Serves(m, w, map[]) && m.noFrames == frames
    ensures fresh(m) && fresh(m.table) && fresh(m.pool) && fresh(m.freeFrameList)
    ensures forall b :: b in m.blocks ==> fresh(b)
  {
    hide BufferManager.Valid, Pool.LockOf;
    m := BufferManager.Init(frames, disk);
    w := World(disk, disk, map[], {});
    StartMirrors(m);
  }

  lemma StartMirrors(m: BufferManager)
    requires m.Valid() && m.logical == m.disk && m.st.cache.entries == map[]
    ensures Mirrors(m.st, m.logical, World(m.disk, m.disk, map[], {}), map[])
  {
    hide BufferManager.Synced, Cache.Frames, Cache.Stands, Pool.Inv, Pool.LockOf;
    m.SyncedFacts();
    forall p
      ensures m.st.LockOf(p) == Unlocked
    {
      m.st.UnheldIsUnlocked(p);
    }
  }

  /** After a flush, a new manager on the same disk stands for the same pages, whatever was held. */
  method Restart(m: BufferManager, frames: nat, bs: map<PID, BCB>, ghost w: World)
      returns (n: BufferManager, ghost w': World)
    requires Serves(m, w, bs) && 5 <= frames < INVALID
    modifies m`disk, m`st
    ensures fresh(n) && Serves(n, w', map[]) && w' == World(w.pages, w.pages, map[], {})
  {
    hide Serves;
    Facts(m, w, bs, PID(0, 0));
    var w1 := DoFlushAll(m, bs, w);
    n, w' := Start(frames, m.disk);
  }
}
