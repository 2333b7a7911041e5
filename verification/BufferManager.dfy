/** The write-back page cache over a disk: hash chains, free lists, eviction and page reset on linked blocks. */
module BufferManagers {
  import opened PageTypes
  import opened BufferControlBlocks
  import opened CacheModel
  import opened PoolModel

  /** A frame's bytes with the basic header of a new page at the end. */
  function WithHeader(frame: Page, p: PID): (page: Page)
    ensures page[PAGE_SIZE - 16..] == BasicHeader(1, p)
    ensures page[..PAGE_SIZE - 16] == frame[..PAGE_SIZE - 16]
  {
    frame[..PAGE_SIZE - 16] + BasicHeader(1, p)
  }

  /** A page as the frame was, but for the header. */
  ghost predicate HeaderOnly(page: Page, frame: Page) {
    page[..PAGE_SIZE - 16] == frame[..PAGE_SIZE - 16]
  }

  class BufferManager {
    const noFrames: nat
    const table: array<BCB?>           // hash buckets
    const pool: array<Page>            // frames
    const freeFrameList: array<nat>    // stack of free frame numbers
    const bcbs: seq<BCB>
    var noFreeFrames: nat
    var freeBCBList: BCB?
    var noFreeBCBs: nat
    var disk: map<PID, Page>

    ghost const blocks: set<BCB>
    ghost var st: Pool                 // the fields below this object, as values
    ghost var logical: map<PID, Page>  // the plain page map the cache stands for

    // ----- invariant -----

    ghost predicate Shape() {
      && 5 <= noFrames < INVALID
      && table.Length == pool.Length == freeFrameList.Length == noFrames
      && |blocks| == noFrames * 6 / 5
      && table as object != pool && table as object != freeFrameList && pool as object != freeFrameList
    }

    /** `st` is what the heap says. */
    ghost predicate Synced()
      reads this`st, this`noFreeFrames, this`freeBCBList, this`noFreeBCBs, this`disk
      reads table, pool, freeFrameList, blocks
    {
      && Shape() && noFreeFrames <= noFrames
      && st.heads == table[..] && st.freeHead == freeBCBList && noFreeBCBs == |st.free|
      && st.cache.pool == pool[..] && st.cache.free == freeFrameList[..noFreeFrames] && st.cache.disk == disk
      && st.meta.Keys == blocks
      && forall b :: b in blocks ==> BlockSynced(b)
    }

    lemma LocateFacts()
      requires Valid()
      ensures |st.cache.pool| < |st.meta.Keys| && |st.chains| == noFrames && st.meta.Keys == blocks
      ensures noFreeFrames > 0 <==> st.cache.free != []
    {
    }

    lemma SyncedFacts()
      requires Synced()
      ensures st.cache.disk == disk && st.meta.Keys == blocks && |st.heads| == |st.cache.pool| == noFrames
    {
    }

    lemma ValidFacts()
      requires Valid()
      ensures st.Inv(null) && st.cache.disk == disk
    {
      hide Pool.Inv, Cache.Frames, Cache.Stands;
    }

    ghost predicate BlockSynced(b: BCB)
      reads this`st, b
    {
      && b in st.meta
      && st.meta[b] == Meta(b.pageID, b.frameIndex, b.modified, b.next,
                            LockState(b.mode, b.fixCount, b.writer, b.readers))
    }

    ghost predicate Valid()
      reads this, table, pool, freeFrameList, blocks
    {
      Synced() && st.Inv(null) && st.cache.Frames(0) && st.cache.Stands(logical)
    }

    /** With 6/5 blocks for each frame there is a block to spare exactly from five frames on. */
    static lemma SpareBlocks(frames: nat)
      ensures frames * 6 / 5 > frames <==> frames >= 5
    {
    }

    // ----- linked lists -----

    /** Takes the first free block; null stands for the NoFreeBCBs exception. */
    method PopFreeBCB() returns (b: BCB?)
      requires freeBCBList in blocks || freeBCBList == null
      requires freeBCBList != null ==> noFreeBCBs > 0
      modifies this`freeBCBList, this`noFreeBCBs, if freeBCBList == null then {} else {freeBCBList}`next
      ensures b == old(freeBCBList)
      ensures b != null ==> freeBCBList == old(freeBCBList.next) && b.next == null && noFreeBCBs == old(noFreeBCBs) - 1
      ensures b == null ==> freeBCBList == null && noFreeBCBs == old(noFreeBCBs)
    {
      b := freeBCBList;
      if b != null {
        freeBCBList := b.next;
        b.next := null;
        noFreeBCBs := noFreeBCBs - 1;
      }
    }

    method InsertToFreeBCBs(b: BCB)
      modifies this`freeBCBList, this`noFreeBCBs, b`next
      ensures freeBCBList == b && b.next == old(freeBCBList) && noFreeBCBs == old(noFreeBCBs) + 1
    {
      b.next := freeBCBList;
      freeBCBList := b;
      noFreeBCBs := noFreeBCBs + 1;
    }

    // ----- eviction -----

    /** Writes a dirty page back; the modified flag is left as it is. */
    method Flush(b: BCB)
      requires b.frameIndex < pool.Length
      modifies this`disk
      ensures disk == if b.modified then old(disk)[b.pageID := pool[b.frameIndex]] else old(disk)
    {
      if b.modified {
        disk := disk[b.pageID := pool[b.frameIndex]];
      }
    }

    method SetNext(c: BCB, n: BCB?)
      requires Synced() && c in blocks
      modifies this`st, c`next
      ensures Synced() && c in old(st).meta && st == old(st).(meta := old(st).meta[c := old(st).meta[c].(next := n)])
    {
      c.next := n;
      st := st.(meta := st.meta[c := st.meta[c].(next := n)]);
      assert BlockSynced(c);
      assert forall d :: d in blocks && d != c ==> BlockSynced(d);
    }

    method SetBucket(h: nat, n: BCB?)
      requires Synced() && h < noFrames
      modifies this`st, table
      ensures Synced() && |old(st).heads| == noFrames && st == old(st).(heads := old(st).heads[h := n])
    {
      table[h] := n;
      st := st.(heads := st.heads[h := n]);
      assert forall c :: c in blocks ==> BlockSynced(c);
    }

    method PushFreeBCB(b: BCB)
      requires Synced() && b in blocks
      modifies this`st, this`freeBCBList, this`noFreeBCBs, b`next
      ensures Synced() && b in old(st).meta && st == old(st).PushBlock(b)
    {
      InsertToFreeBCBs(b);
      st := st.PushBlock(b);
      assert BlockSynced(b);
      assert forall c :: c in blocks && c != b ==> BlockSynced(c);
    }

    /**
     Takes block b out of the chain of bucket h, where it follows `pred`, and puts it on the free list: no other
     pointer changes.
     */
    method Relink(h: nat, pred: BCB?, b: BCB)
      requires Synced() && h < noFrames && pred != b && b in blocks && (pred != null ==> pred in blocks)
      modifies this`st, this`freeBCBList, this`noFreeBCBs, table, blocks`next
      ensures Synced() && |old(st).heads| == noFrames && b in old(st).meta && (pred != null ==> pred in old(st).meta)
      ensures st == old(st).Unlink(h, pred, b).PushBlock(b)
    {
      hide Synced, Pool.PushBlock;
      SyncedFacts();
      NextFacts(b);
      if pred == null {
        SetBucket(h, b.next);
      } else {
        SetNext(pred, b.next);
      }
      PushFreeBCB(b);
    }

    lemma NextFacts(b: BCB)
      requires Synced() && b in blocks
      ensures b in st.meta && b.next == st.meta[b].next
    {
    }

    method DiscardBlock(h: nat, ghost i: nat, pred: BCB?, b: BCB)
      requires Synced() && |st.chains| == noFrames && h < noFrames && i < |st.chains[h]|
      requires st.chains[h][i] == b && b in blocks && pred != b
      requires if pred == null then i == 0 else i > 0 && st.chains[h][i - 1] == pred && pred in blocks
      modifies this`freeBCBList, this`noFreeBCBs, this`st, table, blocks`next
      ensures Synced() && st == old(st).Discard(h, i)
    {
      hide Synced, Pool.Unlink, Pool.PushBlock, Pool.Discard;
      SyncedFacts();
      ghost var st0 := st;
      Relink(h, pred, b);
      st0.DiscardIs(h, i, pred);
      Relabel(st0.Discard(h, i));
    }

    /** Changes the part of the state that is not on the heap. */
    ghost method Relabel(d: Pool)
      requires Synced() && d.heads == st.heads && d.freeHead == st.freeHead && d.meta == st.meta && d.free == st.free
      requires d.cache.pool == st.cache.pool && d.cache.free == st.cache.free && d.cache.disk == st.cache.disk
      modifies this`st
      ensures Synced() && st == d
    {
      st := d;
      assert forall c :: c in blocks ==> BlockSynced(c);
    }

    method TryLockBlock(b: BCB) returns (ok: bool)
      requires Synced() && b in blocks && b.LockStatus().Ok()
      modifies this`st, b`mode, b`fixCount, b`writer
      ensures Synced() && ok == old(b.Grants(Exclusive))
      ensures st == if ok then old(st).SetLock(b, XLock) else old(st)
    {
      ok := b.TryLock();
      if ok {
        st := st.SetLock(b, XLock);
        assert BlockSynced(b);
        assert forall c :: c in blocks && c != b ==> BlockSynced(c);
      }
    }

    method UnlockBlock(b: BCB)
      requires Synced() && b in blocks && b.LockStatus().Ok() && b.mode != NoType
      modifies this`st, b`mode, b`fixCount, b`writer, b`readers
      ensures Synced() && st == old(st).SetLock(b, old(st).meta[b].lock.Released())
    {
      b.Unlock();
      st := st.SetLock(b, st.meta[b].lock.Released());
      assert BlockSynced(b);
      assert forall c :: c in blocks && c != b ==> BlockSynced(c);
    }

    method LockBlock(b: BCB, m: LockMode)
      requires Synced() && b in blocks && b.LockStatus().Ok() && m != NoType && b.Grants(m)
      modifies this`st, b`mode, b`fixCount, b`writer, b`readers
      ensures Synced() && st == old(st).SetLock(b, old(st).meta[b].lock.Locked(m))
    {
      b.Lock(m);
      st := st.SetLock(b, st.meta[b].lock.Locked(m));
      assert BlockSynced(b);
      assert forall c :: c in blocks && c != b ==> BlockSynced(c);
    }

    method FlushBlock(b: BCB)
      requires Synced() && b in blocks && b.frameIndex < noFrames
      requires b.pageID in st.cache.entries && st.cache.entries[b.pageID] == Entry(b.frameIndex, b.modified)
      modifies this`disk, this`st
      ensures Synced() && st == old(st).(cache := old(st).cache.Flushed(b.pageID))
    {
      Flush(b);
      st := st.(cache := st.cache.Flushed(b.pageID));
    }

    /** If block b, the i-th of bucket h, can be locked at once, evicts it and hands out its frame. */
    method TryEvict(h: nat, ghost i: nat, pred: BCB?, b: BCB) returns (ok: bool, f: nat)
      requires Synced() && |st.chains| == noFrames && h < noFrames && i < |st.chains[h]|
      requires st.chains[h][i] == b && b in st.meta && pred != b
      requires if pred == null then i == 0 else i > 0 && st.chains[h][i - 1] == pred && pred in st.meta
      requires var m := st.meta[b];
        && m.lock.Ok() && m.frame < |st.cache.pool|
        && m.pid in st.cache.entries && st.cache.entries[m.pid] == Entry(m.frame, m.modified)
      modifies this`disk, this`st, this`freeBCBList, this`noFreeBCBs, table, blocks`next
      modifies b`mode, b`fixCount, b`writer, b`readers
      ensures Synced() && (old(st).meta[b].lock.fixCount == 0 ==> ok)
      ensures !ok ==> st == old(st)
      ensures ok ==> f == old(st).meta[b].frame && st == old(st).Evict(h, i)
    {
      hide Synced, Pool.Discard, Pool.Evict;
      SyncedFacts();
      f := INVALID;
      st.EvictSteps(h, i);
      LockFacts(b);
      ok := TryLockBlock(b);
      if ok {
        FrameOf(b);
        f := b.frameIndex;
        EvictLocked(h, i, pred, b);
      }
    }

    /** The victim is locked: it is flushed, discarded and unlocked. */
    method EvictLocked(h: nat, ghost i: nat, pred: BCB?, b: BCB)
      requires Synced() && |st.chains| == noFrames && h < noFrames && i < |st.chains[h]|
      requires st.chains[h][i] == b && b in st.meta && pred != b
      requires if pred == null then i == 0 else i > 0 && st.chains[h][i - 1] == pred && pred in st.meta
      requires var m := st.meta[b];
        && m.frame < |st.cache.pool|
        && m.pid in st.cache.entries && st.cache.entries[m.pid] == Entry(m.frame, m.modified)
      requires |st.heads| == |st.chains|
      requires var x := st.(cache := st.cache.Flushed(st.meta[b].pid)).Discard(h, i);
        b in x.meta && x.meta[b].lock == XLock
      modifies this`disk, this`st, this`freeBCBList, this`noFreeBCBs, table, blocks`next
      modifies b`mode, b`fixCount, b`writer, b`readers
      ensures Synced()
      ensures st == old(st).(cache := old(st).cache.Flushed(old(st).meta[b].pid)).Discard(h, i).SetLock(b, Unlocked)
    {
      hide Synced, Pool.Discard, Cache.Flushed;
      SyncedFacts();
      FrameOf(b);
      FlushedClean(st.cache, b.pageID);
      if b.modified {
        FlushBlock(b);
      }
      DiscardBlock(h, i, pred, b);
      LockFacts(b);
      UnlockBlock(b);
    }

    lemma FlushedClean(c: Cache, p: PID)
      requires p in c.entries && c.entries[p].frame < |c.pool|
      ensures !c.entries[p].dirty ==> c.Flushed(p) == c
    {
    }

    lemma LockFacts(b: BCB)
      requires Synced() && b in st.meta
      ensures b in blocks && b.LockStatus() == st.meta[b].lock
    {
    }

    /** Walks the chain of bucket h to its first unfixed block; `pred` is the block before it. */
    method FindUnfixed(h: nat, ghost hole: BCB) returns (pred: BCB?, b: BCB?, ghost i: nat)
      requires Synced() && st.Inv(hole) && h < |st.chains|
      ensures b == null ==> !st.Evictable(h)
      ensures b != null ==>
        && i < |st.chains[h]| && b == st.chains[h][i] && st.Unfixed(b)
        && pred == (if i == 0 then null else st.chains[h][i - 1])
        && forall j :: 0 <= j < i ==> !st.Unfixed(st.chains[h][j])
    {
      hide Pool.Lists, Pool.Ties, Pool.Locks, Pool.Counted;
      st.HeadAt(h);
      pred, b, i := null, table[h], 0;
      while b != null
        invariant i <= |st.chains[h]| && b == (if i < |st.chains[h]| then st.chains[h][i] else null)
        invariant pred == if i == 0 then null else st.chains[h][i - 1]
        invariant forall j :: 0 <= j < i ==> !st.Unfixed(st.chains[h][j])
        decreases |st.chains[h]| - i
      {
        st.At(h, i, hole);
        if b.fixCount == 0 {
          return;
        }
        pred, b, i := b, b.next, i + 1;
      }
    }

    method PopFrame() returns (f: nat)
      requires Synced() && noFreeFrames > 0
      modifies this`noFreeFrames, this`st
      ensures Synced() && st.GotFree(old(st), f)
    {
      f := freeFrameList[noFreeFrames - 1];
      noFreeFrames := noFreeFrames - 1;
      st := st.(cache := st.cache.PopFrame());
    }

    /** Draws random buckets until one has an unfixed block. */
    method DrawVictim(draws: seq<nat>, ghost hole: BCB) returns (h: nat, pred: BCB?, b: BCB, ghost i: nat)
      requires Synced() && st.Inv(hole) && |st.chains| == noFrames
      requires st.DrawsHit(draws)
      ensures h < noFrames && st.FirstUnfixed(h, i) && b == st.chains[h][i] && st.Drawn(draws, h)
      ensures pred == if i == 0 then null else st.chains[h][i - 1]
    {
      hide Synced, Pool.Inv;
      var k := 0;
      while true
        invariant exists m :: k <= m < |draws| && st.Evictable(draws[m])
        invariant k <= |draws| && forall m :: 0 <= m < k ==> !st.Evictable(draws[m])
        decreases |draws| - k
      {
        if draws[k] < noFrames {
          var c;
          pred, c, i := FindUnfixed(draws[k], hole);
          if c != null {
            return draws[k], pred, c, i;
          }
        }
        k := k + 1;
      }
    }

    /** Evicts a random unfixed page, but never that of the fixed block `hole`. */
    method EvictRandom(draws: seq<nat>, ghost hole: BCB) returns (f: nat, ghost h: nat, ghost i: nat)
      requires Synced() && st.Inv(hole) && st.cache.Frames(0) && |st.chains| == noFrames
      requires !st.Unfixed(hole) && st.DrawsHit(draws) && st.cache.free == []
      modifies this`disk, this`st, this`freeBCBList, this`noFreeBCBs, table
      modifies blocks`next, blocks`mode, blocks`fixCount, blocks`writer, blocks`readers
      ensures Synced() && st.GotVictim(old(st), h, i, f, hole) && old(st).Drawn(draws, h)
    {
      hide Synced, Pool.Lists, Pool.Ties, Pool.Locks, Pool.Counted, Cache.Frames, Pool.Evict;
      SyncedFacts();
      var bucket, pred, b, pos := DrawVictim(draws, hole);
      st.At(bucket, pos, hole);
      var ok;
      ok, f := TryEvict(bucket, pos, pred, b);
      h, i := bucket, pos;
    }

    /**
     A frame for block `hole`: a free one, or else that of a random victim. `draws` are the random bucket
     numbers; the loop ends at the first of them with an unfixed block.
     */
    method GetFrame(draws: seq<nat>, ghost hole: BCB) returns (f: nat)
      requires Synced() && st.Inv(hole) && st.cache.Frames(0) && |st.chains| == noFrames
      requires !st.Unfixed(hole) && (noFreeFrames > 0 || st.DrawsHit(draws))
      modifies this`disk, this`st, this`noFreeFrames, this`freeBCBList, this`noFreeBCBs, table
      modifies blocks`next, blocks`mode, blocks`fixCount, blocks`writer, blocks`readers
      ensures Synced()
      ensures old(noFreeFrames) > 0 ==> st.GotFree(old(st), f)
      ensures old(noFreeFrames) == 0 ==> exists h, i :: st.GotVictim(old(st), h, i, f, hole) && old(st).Drawn(draws, h)
    {
      hide Pool.Inv, Pool.GotVictim, Pool.GotFree, Pool.Drawn;
      if noFreeFrames > 0 {
        f := PopFrame();
      } else {
        ghost var h, i;
        f, h, i := EvictRandom(draws, hole);
      }
    }

    // ----- bringing a page in -----

    /** Initialises the first free block for page p and links it at the head of p's bucket, still locked. */
    method LinkFreeBCB(p: PID) returns (b: BCB)
      requires freeBCBList != null && freeBCBList in blocks && noFreeBCBs > 0 && table.Length > 0
      requires freeBCBList.LockStatus().Ok() && freeBCBList.fixCount == 0
      modifies this`freeBCBList, this`noFreeBCBs, table, freeBCBList
      ensures b == old(freeBCBList) && freeBCBList == old(freeBCBList.next) && noFreeBCBs == old(noFreeBCBs) - 1
      ensures b.pageID == p && b.frameIndex == INVALID && !b.modified && b.LockStatus() == XLock
      ensures b.next == old(table[Hash(p, table.Length)])
      ensures table[..] == old(table[..])[Hash(p, table.Length) := b]
    {
      b := PopFreeBCB();
      b.LockExclusive();
      b.frameIndex := INVALID;
      b.pageID := p;
      b.modified := false;
      b.next := null;
      var h := Hash(p, table.Length);
      if table[h] == null {
        table[h] := b;
      } else {
        b.next := table[h];
        table[h] := b;
      }
    }

    method TakeBlock(p: PID) returns (b: BCB)
      requires Synced() && |st.chains| == noFrames && st.free != [] && st.freeHead != null
      requires st.freeHead in st.meta && st.meta[st.freeHead].lock.Ok() && st.meta[st.freeHead].lock.fixCount == 0
      modifies this`st, this`freeBCBList, this`noFreeBCBs, table, blocks
      ensures Synced() && b == old(st).freeHead && st == old(st).Take(p)
    {
      b := LinkFreeBCB(p);
      st := st.Take(p);
      assert BlockSynced(b);
      assert forall c :: c in blocks && c != b ==> BlockSynced(c);
    }

    method SetFrameIndex(b: BCB, f: nat)
      requires Synced() && b in blocks
      modifies this`st, b`frameIndex
      ensures Synced() && st == old(st).SetFrame(b, f)
    {
      b.frameIndex := f;
      st := st.SetFrame(b, f);
      assert BlockSynced(b);
      assert forall c :: c in blocks && c != b ==> BlockSynced(c);
    }

    /** The located block gets its frame and is unlocked. */
    method PlaceBlock(b: BCB, f: nat)
      requires Synced() && b in st.meta && st.meta[b].lock == XLock
      modifies this`st, b`frameIndex, b`mode, b`fixCount, b`writer, b`readers
      ensures Synced() && st == old(st).SetFrame(b, f).SetLock(b, Unlocked)
    {
      SetFrameIndex(b, f);
      UnlockBlock(b);
    }

    /** The first half of LocatePage: page p has a locked block in its bucket. */
    method LinkPage(p: PID, ghost draws: seq<nat>) returns (b: BCB)
      requires Valid() && p !in st.cache.entries
      modifies this`st, this`freeBCBList, this`noFreeBCBs, table, blocks
      ensures Synced() && st.Locating(b, p, 0, logical) && st.Keeps(old(st), b) && |st.chains| == noFrames
      ensures b in old(st).meta && old(st).meta[b].lock.fixCount == 0
      ensures st.cache == old(st).cache && (old(st).DrawsHit(draws) ==> st.DrawsHit(draws))
    {
      hide Synced, Pool.Lists, Pool.Ties, Pool.Locks, Cache.Frames, Cache.Stands, Pool.Keeps, Pool.DrawsHit;
      LocateFacts();
      st.InChain(p);
      st.SpareBlock();
      st.TakeLengths(p);
      st.TakeLocating(p, logical);
      if st.DrawsHit(draws) {
        st.TakeDraws(p, draws);
      }
      b := TakeBlock(p);
    }

    method FrameFor(ghost p: PID, draws: seq<nat>, ghost b: BCB) returns (f: nat)
      requires Synced() && st.Locating(b, p, 0, logical) && |st.chains| == noFrames
      requires st.cache.free != [] || st.DrawsHit(draws)
      modifies this`disk, this`st, this`noFreeFrames, this`freeBCBList, this`noFreeBCBs, table
      modifies blocks`next, blocks`mode, blocks`fixCount, blocks`writer, blocks`readers
      ensures Synced()
      ensures st.GotFree(old(st), f) || exists h, i :: st.GotVictim(old(st), h, i, f, b)
    {
      hide Pool.Inv, Pool.GotFree, Pool.GotVictim, Pool.DrawsHit;
      f := GetFrame(draws, b);
    }

    /** Links a block for page p and gives it a frame; no page changes, and no held block is touched. */
    method LocatePage(p: PID, draws: seq<nat>) returns (b: BCB)
      requires Valid() && p !in st.cache.entries
      requires noFreeFrames > 0 || st.DrawsHit(draws)
      modifies this`disk, this`st, this`noFreeFrames, this`freeBCBList, this`noFreeBCBs, table, blocks
      ensures Synced() && st.Located(b, p, logical) && st.Keeps(old(st), null) && b in blocks
      ensures st.cache.FrameGot(old(st).cache, logical)
    {
      hide Synced, Pool.Inv, Cache.Frames, Cache.Stands, Pool.Keeps, Pool.DrawsHit, Pool.Located, Pool.Locating;
      hide Cache.FrameGot, Cache.Brought;
      hide Pool.GotFree, Pool.GotVictim, Pool.SetFrame, Pool.SetLock;
      LocateFacts();
      ghost var st0 := st;
      b := LinkPage(p, draws);
      ghost var st1 := st;
      var f := FrameFor(p, draws, b);
      st.FramePlaced(st0, st1, b, p, f, logical);
      PlaceBlock(b, f);
      FrameOf(b);
    }

    /** Fills the frame of block b. */
    method StorePage(b: BCB, page: Page, dirty: bool)
      requires Synced() && b in st.meta && st.meta[b].frame < |st.cache.pool|
      modifies this`st, pool, b`modified
      ensures Synced() && st == old(st).Bring(b, page, dirty)
    {
      hide Synced, Cache.Claim;
      FrameOf(b);
      SetModified(b, dirty);
      FillFrame(b, page, dirty);
    }

    method SetModified(b: BCB, dirty: bool)
      requires Synced() && b in blocks
      modifies this`st, b`modified
      ensures Synced() && b in old(st).meta
      ensures st == old(st).(meta := old(st).meta[b := old(st).meta[b].(modified := dirty)])
    {
      b.modified := dirty;
      st := st.(meta := st.meta[b := st.meta[b].(modified := dirty)]);
      assert BlockSynced(b);
      assert forall c :: c in blocks && c != b ==> BlockSynced(c);
    }

    method FillFrame(b: BCB, page: Page, dirty: bool)
      requires Synced() && b in st.meta && st.meta[b].frame < |st.cache.pool|
      modifies this`st, pool
      ensures Synced()
      ensures st == old(st).(cache := old(st).cache.Claim(old(st).meta[b].pid, old(st).meta[b].frame, page, dirty))
    {
      pool[b.frameIndex] := page;
      st := st.(cache := st.cache.Claim(st.meta[b].pid, st.meta[b].frame, page, dirty));
      assert forall c :: c in blocks ==> BlockSynced(c);
    }

    /** Reads page p from disk into the frame of its block. */
    method ReadPageIn(b: BCB, p: PID)
      requires Synced() && st.Located(b, p, logical) && p in logical
      modifies this`st, pool, b`modified
      ensures Valid() && st.meta.Keys == old(st).meta.Keys && st == old(st).Bring(b, logical[p], false)
    {
      hide Synced, Pool.Inv, Cache.Frames, Cache.Stands;
      st.LocatedAbsent(b, p, logical);
      st.BringLocated(b, p, logical[p], false, logical);
      SyncedFacts();
      var page := disk[p];
      StorePage(b, page, false);
      assert logical[p := page] == logical;
    }

    // ----- the public operations -----

    /** Walks the chain of p's bucket; null means that p is not cached. */
    method FindPage(p: PID) returns (b: BCB?)
      requires Valid()
      ensures b == null <==> p !in st.cache.entries
      ensures b != null ==> st.Holds(b, p)
    {
      hide Pool.Lists, Pool.Ties, Pool.Locks, Pool.Counted, Cache.Frames, Cache.Stands;
      LocateFacts();
      st.InChain(p);
      ghost var c, i := st.chains[Hash(p, noFrames)], 0;
      st.HeadAt(Hash(p, noFrames));
      b := table[Hash(p, noFrames)];
      while b != null
        invariant i <= |c| && b == (if i < |c| then c[i] else null)
        invariant forall j :: 0 <= j < i ==> c[j] in st.meta && st.meta[c[j]].pid != p
        decreases |c| - i
      {
        st.At(Hash(p, noFrames), i, null);
        if b.pageID == p {
          st.Cached(p);
          return;
        }
        b, i := b.next, i + 1;
      }
      if p in st.cache.entries {
        st.Cached(p);
      }
    }

    /**
     Fixes page p: returns its block, locked in the given mode, with the page's bytes in its frame. The page
     map does not change, and whatever is held stays as it is.
     */
    method Fix(p: PID, m: LockMode, draws: seq<nat>) returns (b: BCB)
      requires Valid() && p in logical && m != NoType
      requires st.LockOf(p).Grants(m)
      requires p in st.cache.entries || st.cache.free != [] || st.DrawsHit(draws)
      modifies this`disk, this`st, this`noFreeFrames, this`freeBCBList, this`noFreeBCBs, table, pool, blocks
      ensures Valid() && st.Holds(b, p) && b.frameIndex < pool.Length && pool[b.frameIndex] == logical[p]
      ensures st.LockOf(p) == old(st).LockOf(p).Locked(m)
      ensures st.KeepsPages(old(st), p)
      ensures p in st.cache.entries && st.cache.Brought(old(st).cache, logical, p)
    {
      hide Synced, Pool.Inv, Cache.Frames, Cache.Stands, Pool.DrawsHit, Pool.Keeps, Pool.KeepsPages, Cache.Brought;
      SyncedFacts();
      ghost var st0 := st;
      b := MakeResident(p, draws);
      TiesHold(st0, b, p);
      PageInFrame(b, p);
      Relock(st0, b, p, m);
      PageInFrame(b, p);
      SyncedFacts();
    }

    lemma TiesHold(before: Pool, b: BCB, p: PID)
      requires st.Inv(null) && before.Inv(null) && st.Keeps(before, null)
      ensures st.KeepsPages(before, p)
    {
      st.KeepsHeldPages(before, null, p);
    }

    /** The frame of a cached page has the page's bytes. */
    lemma PageInFrame(b: BCB, p: PID)
      requires Valid() && st.Holds(b, p)
      ensures b.frameIndex < pool.Length && p in logical && pool[b.frameIndex] == logical[p]
      ensures b in blocks && b.pageID == p && b.LockStatus() == st.LockOf(p)
    {
    }

    lemma NotCached(p: PID)
      requires Valid() && p !in st.cache.entries
      ensures st.LockOf(p) == Unlocked
    {
      hide Synced, Pool.Inv, Cache.Frames, Cache.Stands, Pool.LockOf;
      st.UnheldIsUnlocked(p);
    }

    /** Locks the block of page p. */
    method Relock(ghost before: Pool, b: BCB, p: PID, m: LockMode)
      requires Valid() && st.Holds(b, p) && st.KeepsPages(before, p)
      requires m != NoType && st.LockOf(p).Grants(m)
      modifies this`st, b`mode, b`fixCount, b`writer, b`readers
      ensures Valid() && st.Holds(b, p) && st.KeepsPages(before, p)
      ensures st.LockOf(p) == old(st).LockOf(p).Locked(m)
      ensures st.cache == old(st).cache
    {
      hide Synced, Pool.Inv, Cache.Frames, Cache.Stands, Pool.KeepsPages;
      PageInFrame(b, p);
      st.RelockHeld(before, b, p, st.LockOf(p).Locked(m));
      LockBlock(b, m);
    }

    /** Page p is cached afterwards; it is read from disk if it was not. */
    method MakeResident(p: PID, draws: seq<nat>) returns (b: BCB)
      requires Valid() && p in logical
      requires p in st.cache.entries || st.cache.free != [] || st.DrawsHit(draws)
      modifies this`disk, this`st, this`noFreeFrames, this`freeBCBList, this`noFreeBCBs, table, pool, blocks
      ensures Valid() && st.Holds(b, p) && st.Keeps(old(st), null)
      ensures st.LockOf(p) == old(st).LockOf(p)
      ensures p in st.cache.entries && st.cache.Brought(old(st).cache, logical, p)
    {
      hide Synced, Pool.Lists, Pool.Ties, Pool.Locks, Pool.Counted, Cache.Frames, Cache.Stands, Pool.DrawsHit;
      hide Pool.Keeps, Cache.FrameGot, Cache.Brought;
      hide Pool.Bring, Pool.Located, Pool.LockOf;
      var c := FindPage(p);
      if c == null {
        LocateFacts();
        NotCached(p);
        ghost var st0 := st;
        b := LocatePage(p, draws);
        st.BringKept(st0, b, p, logical[p], false, logical);
        st.BringBrought(st0, b, p, logical[p], false, logical);
        ReadPageIn(b, p);
      } else {
        st.KeepsSelf();
        st.cache.BroughtSelf(logical, p);
        b := c;
      }
    }

    /**
     Fixes the new page p exclusively, without reading it: its frame keeps whatever bytes it had, except for
     the basic header at the end.
     */
    method EmptyFix(p: PID, draws: seq<nat>) returns (b: BCB)
      requires Valid() && p !in st.cache.entries
      requires st.cache.free != [] || st.DrawsHit(draws)
      modifies this`disk, this`st, this`logical, this`noFreeFrames, this`freeBCBList, this`noFreeBCBs, table, pool
      modifies blocks
      ensures b.frameIndex < pool.Length && p in logical && HeaderOnly(logical[p], old(pool[..])[b.frameIndex])
      ensures Valid() && st.Holds(b, p) && st.LockOf(p) == XLock && st.KeepsPages(old(st), p)
      ensures p in logical && logical == old(logical)[p := logical[p]]
      ensures logical[p][PAGE_SIZE - 16..] == BasicHeader(1, p)
      ensures p in st.cache.entries && st.cache.Brought(old(st).cache, old(logical), p)
    {
      hide Synced, Pool.Inv, Cache.Frames, Cache.Stands, Pool.DrawsHit, Pool.Keeps, Pool.KeepsPages, Cache.Brought;
      SyncedFacts();
      ghost var st0 := st;
      b := InitNewPage(p, draws);
      TiesHold(st0, b, p);
      PageInFrame(b, p);
      Relock(st0, b, p, Exclusive);
      SyncedFacts();
    }

    method InitNewPage(p: PID, draws: seq<nat>) returns (b: BCB)
      requires Valid() && p !in st.cache.entries
      requires st.cache.free != [] || st.DrawsHit(draws)
      modifies this`disk, this`st, this`logical, this`noFreeFrames, this`freeBCBList, this`noFreeBCBs, table, pool
      modifies blocks
      ensures b.frameIndex < pool.Length && p in logical && HeaderOnly(logical[p], old(pool[..])[b.frameIndex])
      ensures Valid() && st.Holds(b, p) && st.Keeps(old(st), null) && st.LockOf(p) == Unlocked
      ensures p in logical && logical == old(logical)[p := logical[p]]
      ensures logical[p][PAGE_SIZE - 16..] == BasicHeader(1, p)
      ensures p in st.cache.entries && st.cache.Brought(old(st).cache, old(logical), p)
    {
      hide Synced, Pool.Inv, Cache.Frames, Cache.Stands, Cache.Unowned, Pool.DrawsHit, Pool.Keeps;
      hide Cache.FrameGot, Cache.Brought, Pool.Bring, Pool.Located, Pool.Holds, Pool.LockOf;
      LocateFacts();
      ghost var st0 := st;
      b := LocatePage(p, draws);
      ghost var st1, m := st, logical;
      InitFrame(b, p);
      st1.BringKept(st0, b, p, logical[p], true, m);
      st1.BringBrought(st0, b, p, logical[p], true, m);
    }

    method InitFrame(b: BCB, p: PID)
      requires Synced() && st.Located(b, p, logical)
      modifies this`st, this`logical, pool, b`modified
      ensures b.frameIndex < pool.Length && p in logical && HeaderOnly(logical[p], old(pool[..])[b.frameIndex])
      ensures Valid() && p in logical && logical == old(logical)[p := logical[p]]
      ensures logical[p][PAGE_SIZE - 16..] == BasicHeader(1, p)
      ensures st == old(st).Bring(b, logical[p], true)
    {
      hide Synced, Pool.Inv, Cache.Frames, Cache.Stands, WithHeader, Pool.Bring;
      FrameOf(b);
      var page := WithHeader(pool[b.frameIndex], p);
      st.BringLocated(b, p, page, true, logical);
      StorePage(b, page, true);
      logical := logical[p := page];
    }

    lemma FrameOf(b: BCB)
      requires Synced() && b in st.meta
      ensures b in blocks && b.frameIndex == st.meta[b].frame && |st.cache.pool| == pool.Length == noFrames
      ensures b.pageID == st.meta[b].pid && b.modified == st.meta[b].modified
      ensures st.cache.Unowned(b.frameIndex) ==> b.frameIndex < pool.Length
    {
    }

    /** Gives up one hold on page p. */
    method Unfix(b: BCB, ghost p: PID)
      requires Valid() && st.Holds(b, p)
      modifies this`st, b`mode, b`fixCount, b`writer, b`readers
      ensures Valid() && st.Holds(b, p) && st.KeepsPages(old(st), p)
      ensures st.LockOf(p) == old(st).LockOf(p).Released()
      ensures st.cache == old(st).cache
    {
      hide Synced, Pool.Inv, Cache.Frames, Cache.Stands, Pool.KeepsPages;
      PageInFrame(b, p);
      KeepsPagesSelf(p);
      st.RelockHeld(st, b, p, st.LockOf(p).Released());
      UnlockBlock(b);
    }

    lemma KeepsPagesSelf(p: PID)
      requires st.Inv(null)
      ensures st.KeepsPages(st, p)
    {
      st.KeepsSelf();
      st.KeepsHeldPages(st, null, p);
    }

    /** Overwrites the frame of the exclusively held page p. */
    method WritePage(b: BCB, ghost p: PID, page: Page)
      requires Valid() && st.Holds(b, p) && b.mode == Exclusive
      modifies this`st, this`logical, pool, b`modified
      ensures Valid() && st.Holds(b, p) && logical == old(logical)[p := page]
      ensures st.LockOf(p) == old(st).LockOf(p) && st.KeepsPages(old(st), p)
      ensures st.cache.entries.Keys == old(st).cache.entries.Keys && st.cache.disk == old(st).cache.disk
    {
      hide Synced, Pool.Inv, Cache.Frames, Cache.Stands, Pool.KeepsPages;
      PageInFrame(b, p);
      st.WriteHeld(b, p, page, logical);
      st.WriteKept(b, p, page);
      StorePage(b, page, true);
      logical := logical[p := page];
    }

    /** Writes page p back if it is dirty. Afterwards the disk has p's bytes, and no page has changed. */
    method FlushPage(b: BCB, ghost p: PID)
      requires Valid() && st.Holds(b, p)
      modifies this`disk, this`st
      ensures Valid() && st == old(st).(cache := st.cache)
      ensures st.cache.entries == old(st).cache.entries && st.cache.pool == old(st).cache.pool
      ensures p in logical && disk == old(disk)[p := logical[p]]
    {
      hide Synced, Pool.Inv, Cache.Frames, Cache.Stands;
      st.FlushHeld(b, p, logical);
      FrameOf(b);
      SyncedFacts();
      FlushBlock(b);
      SyncedFacts();
    }

    /** The blocks of all cached pages, chain by chain. */
    method GetAllValidBCBs() returns (all: seq<BCB>)
      requires Valid()
      ensures forall p :: p in st.cache.entries ==> p in st.where && st.where[p] in all && st.Holds(st.where[p], p)
      ensures forall i :: 0 <= i < |all| ==> all[i] in st.meta && st.Holds(all[i], st.meta[all[i]].pid)
    {
      hide Pool.Lists, Pool.Ties, Pool.Locks, Pool.Counted, Cache.Frames, Cache.Stands, Pool.Holds;
      LocateFacts();
      all := [];
      var h := 0;
      while h < table.Length
        invariant h <= noFrames
        invariant forall g, i :: 0 <= g < h && 0 <= i < |st.chains[g]| ==> st.chains[g][i] in all
        invariant forall i :: 0 <= i < |all| ==> all[i] in st.meta && st.Holds(all[i], st.meta[all[i]].pid)
      {
        var chain := CollectChain(h);
        all := all + chain;
        h := h + 1;
      }
      forall p | p in st.cache.entries
        ensures p in st.where && st.where[p] in all && st.Holds(st.where[p], p)
      {
        st.InChain(p);
        st.Cached(p);
      }
    }

    method CollectChain(h: nat) returns (all: seq<BCB>)
      requires Valid() && h < |st.chains|
      ensures all == st.chains[h]
      ensures forall i :: 0 <= i < |all| ==> all[i] in st.meta && st.Holds(all[i], st.meta[all[i]].pid)
    {
      hide Pool.Lists, Pool.Ties, Pool.Locks, Pool.Counted, Cache.Frames, Cache.Stands;
      all := [];
      st.HeadAt(h);
      var b := table[h];
      while b != null
        invariant |all| <= |st.chains[h]| && all == st.chains[h][..|all|]
        invariant b == if |all| < |st.chains[h]| then st.chains[h][|all|] else null
        invariant forall i :: 0 <= i < |all| ==> all[i] in st.meta && st.Holds(all[i], st.meta[all[i]].pid)
        decreases |st.chains[h]| - |all|
      {
        st.At(h, |all|, null);
        all := all + [b];
        b := b.next;
      }
    }

    /** Afterwards the disk alone is the page map. */
    method FlushAll()
      requires Valid()
      modifies this`disk, this`st
      ensures Valid() && disk == logical
      ensures st == old(st).(cache := st.cache) && st.cache.entries == old(st).cache.entries
    {
      hide Synced, Pool.Inv, Cache.Frames, Cache.Stands, Pool.Holds;
      var all := GetAllValidBCBs();
      ghost var st0 := st;
      var i := 0;
      while i < |all|
        invariant i <= |all| && Valid()
        invariant st == st0.(cache := st.cache)
        invariant st.cache.entries == st0.cache.entries && st.cache.pool == st0.cache.pool
        invariant forall j :: 0 <= j < i ==> OnDisk(st0.meta[all[j]].pid)
      {
        HoldsStill(st0, st, all[i], st0.meta[all[i]].pid);
        FlushPage(all[i], st0.meta[all[i]].pid);
        i := i + 1;
      }
      forall p | p in st.cache.entries
        ensures OnDisk(p)
      {
        Collected(st0, all, p);
      }
      AllOnDisk();
    }

    static lemma HoldsStill(s: Pool, t: Pool, b: BCB, p: PID)
      requires s.Holds(b, p) && t == s.(cache := t.cache)
      requires t.cache.entries == s.cache.entries && t.cache.pool == s.cache.pool
      ensures t.Holds(b, p)
    {
    }

    static lemma Collected(s: Pool, all: seq<BCB>, p: PID)
      requires p in s.where && s.where[p] in all && s.Holds(s.where[p], p)
      ensures exists j :: 0 <= j < |all| && all[j] in s.meta && s.meta[all[j]].pid == p
    {
      var j :| 0 <= j < |all| && all[j] == s.where[p];
    }

    ghost predicate OnDisk(p: PID)
      reads this`disk, this`logical
    {
      p in logical && p in disk && disk[p] == logical[p]
    }

    lemma AllOnDisk()
      requires Valid() && forall p :: p in st.cache.entries ==> OnDisk(p)
      ensures disk == logical
    {
      st.cache.AllFlushed(logical);
    }

    /** The block of page p and the block before it in its chain; null if p is not cached. */
    method FindInChain(p: PID) returns (pred: BCB?, b: BCB?, ghost i: nat)
      requires Valid()
      ensures b == null <==> p !in st.cache.entries
      ensures Hash(p, noFrames) < |st.chains|
      ensures b != null ==>
        && st.Holds(b, p) && i < |st.chains[Hash(p, noFrames)]| && st.chains[Hash(p, noFrames)][i] == b
        && pred == if i == 0 then null else st.chains[Hash(p, noFrames)][i - 1]
    {
      hide Pool.Lists, Pool.Ties, Pool.Locks, Pool.Counted, Cache.Frames, Cache.Stands;
      LocateFacts();
      st.InChain(p);
      ghost var c := st.chains[Hash(p, noFrames)];
      st.HeadAt(Hash(p, noFrames));
      pred, b, i := null, table[Hash(p, noFrames)], 0;
      while b != null
        invariant i <= |c| && b == (if i < |c| then c[i] else null)
        invariant pred == if i == 0 then null else c[i - 1]
        invariant forall j :: 0 <= j < i ==> c[j] in st.meta && st.meta[c[j]].pid != p
        decreases |c| - i
      {
        st.At(Hash(p, noFrames), i, null);
        if b.pageID == p {
          st.Cached(p);
          return;
        }
        pred, b, i := b, b.next, i + 1;
      }
      if p in st.cache.entries {
        st.Cached(p);
      }
    }

    /** Pushes a frame number onto the stack, which has room for it. */
    method PushFreeFrame(f: nat)
      requires Synced() && |st.cache.free| < |st.cache.pool|
      modifies this`noFreeFrames, this`st, freeFrameList
      ensures Synced() && st == old(st).PushFrame(f)
    {
      freeFrameList[noFreeFrames] := f;
      noFreeFrames := noFreeFrames + 1;
      st := st.PushFrame(f);
      assert forall c :: c in blocks ==> BlockSynced(c);
    }

    /** Frees the frame and the block of the i-th block of bucket h. */
    method ReleaseBlock(h: nat, ghost i: nat, pred: BCB?, b: BCB)
      requires Synced() && |st.chains| == noFrames && h < noFrames && i < |st.chains[h]|
      requires st.chains[h][i] == b && b in st.meta && pred != b
      requires if pred == null then i == 0 else i > 0 && st.chains[h][i - 1] == pred && pred in st.meta
      requires |st.heads| == |st.chains| && |st.cache.free| < |st.cache.pool|
      modifies this`st, this`noFreeFrames, this`freeBCBList, this`noFreeBCBs, table, freeFrameList, blocks`next
      ensures Synced() && st == old(st).PushFrame(old(st).meta[b].frame).Discard(h, i) && disk == old(disk)
    {
      hide Synced, Pool.Discard;
      FrameOf(b);
      SyncedFacts();
      PushFreeFrame(b.frameIndex);
      DiscardBlock(h, i, pred, b);
    }

    /** Drops page p, which nobody holds, from the cache without writing it back. */
    method ResetBCB(p: PID)
      requires Valid() && st.LockOf(p).fixCount == 0
      modifies this`st, this`logical, this`noFreeFrames, this`freeBCBList, this`noFreeBCBs
      modifies table, freeFrameList, blocks`next
      ensures Valid() && p !in st.cache.entries && st.KeepsPages(old(st), p) && disk == old(disk)
      ensures logical == Dropped(p, old(logical), disk)
      ensures st.cache.entries.Keys == old(st).cache.entries.Keys - {p}
    {
      hide Synced, Pool.Inv, Cache.Frames, Cache.Stands, Pool.KeepsPages, Dropped;
      SyncedFacts();
      var pred, b, pos := FindInChain(p);
      if b != null {
        DropFound(p, pos, pred, b);
      } else {
        KeepsPagesSelf(p);
        st.cache.DropAbsent(p, logical);
      }
    }

    /** Page p was found: its frame and its block are freed. */
    method DropFound(p: PID, ghost i: nat, pred: BCB?, b: BCB)
      requires Valid() && st.LockOf(p).fixCount == 0 && Hash(p, noFrames) < |st.chains|
      requires st.Holds(b, p) && i < |st.chains[Hash(p, noFrames)]| && st.chains[Hash(p, noFrames)][i] == b
      requires pred == if i == 0 then null else st.chains[Hash(p, noFrames)][i - 1]
      modifies this`st, this`logical, this`noFreeFrames, this`freeBCBList, this`noFreeBCBs
      modifies table, freeFrameList, blocks`next
      ensures Valid() && p !in st.cache.entries && st.KeepsPages(old(st), p) && disk == old(disk)
      ensures logical == Dropped(p, old(logical), disk)
      ensures st.cache.entries.Keys == old(st).cache.entries.Keys - {p}
    {
      hide Synced, Pool.Inv, Cache.Frames, Cache.Stands, Pool.KeepsPages, Pool.Keeps, Pool.Discard, Pool.PushFrame;
      hide Dropped, Pool.Holds, Pool.LockOf;
      ghost var st0 := st;
      LocateFacts();
      SyncedFacts();
      HoldsMeta(st, b, p);
      st.ResetHeld(Hash(p, noFrames), i, p, logical);
      ReleaseBlock(Hash(p, noFrames), i, pred, b);
      logical := Dropped(p, logical, st0.cache.disk);
      TiesHold(st0, b, p);
    }

    static lemma HoldsMeta(s: Pool, b: BCB, p: PID)
      requires s.Holds(b, p)
      ensures b in s.meta && s.meta[b].frame < |s.cache.pool|
    {
    }

    // ----- initialisation -----

    /**
     The blocks of the free list, each leading to the next. The first step links block 0 to itself and the
     second overwrites that link, so with a single block the list would be a cycle.
     */
    static method InitFreeBCBs(n: nat) returns (bs: seq<BCB>)
      requires n > 0
      ensures |bs| == n && NoDup(bs) && forall i :: 0 <= i < n ==> fresh(bs[i])
      ensures forall i :: 0 <= i < n ==> Initial(bs[i])
      ensures forall i :: 0 <= i < n ==> bs[i].next == if n == 1 then bs[0] else Succ(bs, i)
    {
      bs := [];
      while |bs| < n
        invariant |bs| <= n && NoDup(bs) && forall i :: 0 <= i < |bs| ==> fresh(bs[i])
        invariant forall i :: 0 <= i < |bs| ==> Initial(bs[i]) && bs[i].next == null
      {
        var b := new BCB();
        bs := bs + [b];
      }
      LinkFreeBCBs(bs);
    }

    static method LinkFreeBCBs(bs: seq<BCB>)
      requires bs != [] && NoDup(bs) && forall i :: 0 <= i < |bs| ==> bs[i].next == null
      modifies bs`next
      ensures forall i :: 0 <= i < |bs| ==> bs[i].next == if |bs| == 1 then bs[0] else Succ(bs, i)
    {
      var newBCB := bs[0];
      for k := 0 to |bs|
        invariant newBCB == bs[if k == 0 then 0 else k - 1]
        invariant forall i :: 0 <= i < |bs| ==> bs[i].next == Link(bs, k, i)
      {
        newBCB.next := bs[k];
        newBCB := bs[k];
      }
    }

    /** The link of block i after k steps. */
    static ghost function Link(bs: seq<BCB>, k: nat, i: nat): BCB?
      requires k <= |bs| && i < |bs|
    {
      if k == 1 && i == 0 then bs[0] else if i + 1 < k then bs[i + 1] else null
    }

    static ghost predicate Initial(b: BCB)
      reads b
    {
      b.pageID == PID(0, 0) && b.frameIndex == INVALID && !b.modified
      && LockState(b.mode, b.fixCount, b.writer, b.readers) == LockState(NoType, 0, false, 0)
    }

    /** What the constructor has set up: nothing is cached and every block and frame is free. */
    ghost predicate Empty()
      reads this`noFreeFrames, this`freeBCBList, this`noFreeBCBs, this`disk, this`logical
      reads table, freeFrameList, bcbs
    {
      && Shape() && |bcbs| == noFrames * 6 / 5 && NoDup(bcbs)
      && blocks == AsSet(bcbs)
      && (forall h :: 0 <= h < noFrames ==> table[h] == null)
      && noFreeFrames == noFrames && (forall i :: 0 <= i < noFrames ==> freeFrameList[i] == i)
      && (forall i :: 0 <= i < |bcbs| ==> Initial(bcbs[i]))
      && (forall i :: 0 <= i < |bcbs| ==> bcbs[i].next == Succ(bcbs, i))
      && freeBCBList == bcbs[0] && noFreeBCBs == |bcbs|
      && logical == disk
    }

    ghost method Establish()
      requires Empty()
      modifies this`st
      ensures Valid() && st.cache.entries == map[]
    {
      hide Pool.Inv, Cache.Frames, Cache.Stands, InitialPool, AsSet, Synced, Empty;
      EmptyFacts();
      InitialInv(bcbs, pool[..], disk);
      InitialPages(bcbs, pool[..], disk);
      InitialFields(bcbs, pool[..], disk);
      st := InitialPool(bcbs, pool[..], disk);
      InitialSynced();
    }

    lemma EmptyFacts()
      requires Empty()
      ensures bcbs != [] && NoDup(bcbs) && pool.Length == noFrames > 0 && logical == disk
    {
    }

    lemma InitialSynced()
      requires Empty() && st == InitialPool(bcbs, pool[..], disk)
      ensures Synced()
    {
      hide InitialPool, AsSet, BlockSynced;
      InitialFields(bcbs, pool[..], disk);
      InitialHeap();
      forall b | b in blocks
        ensures BlockSynced(b)
      {
        InitialBlock(b);
      }
    }

    lemma InitialHeap()
      requires Empty() && st == InitialPool(bcbs, pool[..], disk)
      ensures st.heads == table[..] && st.cache.free == freeFrameList[..noFreeFrames] && st.meta.Keys == blocks
    {
      hide InitialPool, AsSet, Initial;
      InitialFields(bcbs, pool[..], disk);
      SameMembers(st.meta.Keys, bcbs);
    }

    static lemma SameMembers(s: set<BCB>, bs: seq<BCB>)
      requires (forall b :: b in s ==> b in bs) && (forall i :: 0 <= i < |bs| ==> bs[i] in s)
      ensures s == AsSet(bs)
    {
      hide AsSet;
    }

    lemma InitialBlock(b: BCB)
      requires Empty() && st == InitialPool(bcbs, pool[..], disk) && b in blocks
      ensures BlockSynced(b)
    {
      hide InitialPool, AsSet;
      InitialFields(bcbs, pool[..], disk);
      var i :| 0 <= i < |bcbs| && bcbs[i] == b;
      assert Initial(bcbs[i]);
    }

    /** The empty hash table, the frames, and the stack of free frame numbers. */
    static method Allocate(n: nat) returns (t: array<BCB?>, p: array<Page>, f: array<nat>)
      ensures fresh(t) && fresh(p) && fresh(f) && t.Length == p.Length == f.Length == n
      ensures t as object != p && t as object != f && p as object != f
      ensures (forall h :: 0 <= h < n ==> t[h] == null) && (forall i :: 0 <= i < n ==> f[i] == i)
    {
      t := new BCB?[n](_ => null);
      p := new Page[n];
      f := new nat[n](i => i);
    }

    constructor (frames: nat, pages: map<PID, Page>, bs: seq<BCB>)
      requires 5 <= frames < INVALID && |bs| == frames * 6 / 5 && NoDup(bs)
      requires forall i :: 0 <= i < |bs| ==> Initial(bs[i]) && bs[i].next == Succ(bs, i)
      ensures Empty() && noFrames == frames && bcbs == bs && disk == pages
      ensures fresh(table) && fresh(pool) && fresh(freeFrameList)
    {
      hide AsSet, NoDup;
      noFrames := frames;
      var t, p, f := Allocate(frames);
      table, pool, freeFrameList := t, p, f;
      noFreeFrames := frames;
      bcbs := bs;
      freeBCBList := bs[0];
      noFreeBCBs := |bs|;
      disk := pages;
      logical := pages;
      blocks := AsSet(bs);
    }

    static method Init(frames: nat, pages: map<PID, Page>) returns (m: BufferManager)
      requires 5 <= frames < INVALID
      ensures m.Valid() && m.logical == pages && m.disk == pages
      ensures m.noFrames == frames && m.st.cache.entries == map[]
      ensures fresh(m) && fresh(m.table) && fresh(m.pool) && fresh(m.freeFrameList)
      ensures forall b :: b in m.blocks ==> fresh(b)
    {
      hide Pool.Inv, Cache.Frames, Cache.Stands;
      var bs := InitFreeBCBs(frames * 6 / 5);
      m := new BufferManager(frames, pages, bs);
      m.Establish();
    }
  }
}
