/**
 The buffer pool as values: the fields of every control block, the heads of the linked lists, and the
 cache they describe. Each step of the manager is a function on this state, and is proved to keep `Inv`.
 */
module PoolModel {
  import opened PageTypes
  import opened BufferControlBlocks
  import opened CacheModel

  function Hash(p: PID, size: nat): (h: nat)
    requires size > 0
    ensures h < size
  {
    (p.fileID as int + p.pageNo as int) % size
  }

  datatype Pool = Pool(
    heads: seq<BCB?>,           // first block of each bucket
    freeHead: BCB?,             // first free block
    meta: map<BCB, Meta>,       // the fields of each block
    cache: Cache,
    chains: seq<Chain>,         // the blocks of each bucket, in order
    free: Chain,                // the free blocks, in order
    home: map<BCB, Place>,      // where each block is linked
    where: map<PID, BCB>)       // the block of each cached page
  {
    // ----- invariant -----

    /** The linked lists: every block is in exactly one, and each ends in null. */
    ghost predicate Lists() {
      && |heads| == |chains| > 0
      && home.Keys == meta.Keys
      && Homed(chains, free, home)
      && (forall h :: 0 <= h < |chains| ==> heads[h] == Head(chains[h]))
      && freeHead == Head(free)
      && (forall h, i {:trigger meta[chains[h][i]]} :: 0 <= h < |chains| && 0 <= i < |chains[h]| ==>
            chains[h][i] in meta && meta[chains[h][i]].next == Succ(chains[h], i))
      && (forall i {:trigger meta[free[i]]} :: 0 <= i < |free| ==>
            free[i] in meta && meta[free[i]].next == Succ(free, i))
    }

    /**
     Each chained block sits in the bucket of its page, no page is chained twice, and the cache has the
     frame and flag of every chained block but `hole`, whose page is still being brought in.
     */
    ghost predicate Ties(hole: BCB?) {
      && |chains| > 0
      && (forall b :: b in meta && b in home && home[b].Bucket? ==>
            home[b] == Bucket(Hash(meta[b].pid, |chains|)) && meta[b].pid in where && where[meta[b].pid] == b)
      && (forall p :: p in where ==>
            && where[p] in meta && meta[where[p]].pid == p && where[p] in home && home[where[p]].Bucket?
            && (where[p] != hole ==> p in cache.entries))
      && (forall p :: p in cache.entries ==>
            && p in where && where[p] != hole
            && cache.entries[p] == Entry(meta[where[p]].frame, meta[where[p]].modified))
    }

    ghost predicate Locks() {
      forall b :: b in meta ==>
        && meta[b].lock.Ok()
        && (b in home ==> if home[b] == Free then meta[b].lock.fixCount == 0 else meta[b].lock.mode != NoType)
    }

    /** Every block is free or holds a page. */
    ghost predicate Counted() {
      |free| + |where.Keys| == |meta.Keys|
    }

    ghost predicate Inv(hole: BCB?) {
      Lists() && Ties(hole) && Locks() && Counted()
    }

    /** A bucket with an unfixed block, which the eviction loop can take. */
    ghost predicate Evictable(h: nat) {
      h < |chains| && exists i :: 0 <= i < |chains[h]| && Unfixed(chains[h][i])
    }

    ghost predicate Unfixed(b: BCB) {
      b in meta && meta[b].lock.fixCount == 0
    }

    ghost predicate FirstUnfixed(h: nat, i: nat) {
      && h < |chains| && i < |chains[h]| && Unfixed(chains[h][i])
      && forall j :: 0 <= j < i ==> !Unfixed(chains[h][j])
    }

    /** Bucket h is the first of the drawn ones that has an unfixed block. */
    ghost predicate Drawn(draws: seq<nat>, h: nat) {
      exists k :: 0 <= k < |draws| && draws[k] == h && forall m :: 0 <= m < k ==> !Evictable(draws[m])
    }

    /** The random draws reach an evictable bucket; otherwise the eviction loop keeps spinning. */
    ghost predicate DrawsHit(draws: seq<nat>) {
      exists k :: 0 <= k < |draws| && Evictable(draws[k])
    }

    /** What the invariant says of the i-th block of bucket h. */
    lemma At(h: nat, i: nat, hole: BCB?)
      requires Lists() && Ties(hole) && Locks() && h < |chains| && i < |chains[h]|
      ensures var b := chains[h][i];
        && b in meta && b in home && home[b] == Bucket(h) && meta[b].lock.Ok() && meta[b].lock.mode != NoType
        && meta[b].next == Succ(chains[h], i)
        && (i > 0 ==> chains[h][i - 1] in meta && chains[h][i - 1] != b)
        && h == Hash(meta[b].pid, |chains|) && meta[b].pid in where && where[meta[b].pid] == b
        && (b != hole ==>
              meta[b].pid in cache.entries && cache.entries[meta[b].pid] == Entry(meta[b].frame, meta[b].modified))
      ensures chains[h][i] != hole && cache.Frames(0) ==> meta[chains[h][i]].frame < |cache.pool|
    {
      assert home[chains[h][i]] == Bucket(h);
      if i > 0 {
        assert home[chains[h][i - 1]] == Bucket(h);
      }
    }

    lemma HeadAt(h: nat)
      requires Lists() && h < |chains|
      ensures |heads| == |chains| && heads[h] == Head(chains[h])
    {
    }

    // ----- steps -----

    ghost function SetLock(b: BCB, l: LockState): Pool
      requires b in meta
    {
      this.(meta := meta[b := meta[b].(lock := l)])
    }

    /** The first free block becomes the exclusively locked first block of page p's bucket. */
    ghost function Take(p: PID): Pool
      requires freeHead != null && freeHead in meta && |heads| == |chains| > 0 && free != []
    {
      var b: BCB, h := freeHead, Hash(p, |heads|);
      Pool(heads[h := b], meta[b].next, meta[b := Meta(p, INVALID, false, heads[h], XLock)], cache,
           chains[h := [b] + chains[h]], free[1..], home[b := Bucket(h)], where[p := b])
    }

    /** The i-th block of bucket h goes to the front of the free list, and its page leaves the cache. */
    ghost function Discard(h: nat, i: nat): Pool
      requires h < |chains| == |heads| && i < |chains[h]|
      requires chains[h][i] in meta && (i > 0 ==> chains[h][i - 1] in meta)
    {
      var c, b := chains[h], chains[h][i];
      var p, nx := meta[b].pid, meta[b].next;
      var meta1 := if i == 0 then meta else meta[c[i - 1] := meta[c[i - 1]].(next := nx)];
      Pool(if i == 0 then heads[h := nx] else heads, b, meta1[b := meta1[b].(next := freeHead)],
           cache.(entries := cache.entries - {p}),
           chains[h := Remove(c, i)], [b] + free, home[b := Free], where - {p})
    }

    /** The pointers after block b, which follows `pred` in bucket h, was taken out of its chain. */
    ghost function Unlink(h: nat, pred: BCB?, b: BCB): Pool
      requires h < |heads| && b in meta && (pred != null ==> pred in meta)
    {
      if pred == null then this.(heads := heads[h := meta[b].next])
      else this.(meta := meta[pred := meta[pred].(next := meta[b].next)])
    }

    /** Block b is first in the free list. */
    ghost function PushBlock(b: BCB): Pool
      requires b in meta
    {
      this.(meta := meta[b := meta[b].(next := freeHead)], freeHead := b, free := [b] + free)
    }

    /** Discarding is unlinking and pushing, with the bookkeeping of chains and pages. */
    lemma DiscardIs(h: nat, i: nat, pred: BCB?)
      requires h < |chains| == |heads| && i < |chains[h]|
      requires chains[h][i] in meta && (i > 0 ==> chains[h][i - 1] in meta && chains[h][i - 1] != chains[h][i])
      requires pred == if i == 0 then null else chains[h][i - 1]
      ensures var b, d := chains[h][i], Discard(h, i);
        var u := Unlink(h, pred, b).PushBlock(b);
        && d.heads == u.heads && d.freeHead == u.freeHead && d.meta == u.meta && d.free == u.free
        && d.cache.pool == u.cache.pool && d.cache.free == u.cache.free && d.cache.disk == u.cache.disk
    {
    }

    /** Block b, the i-th of bucket h, is flushed if dirty, discarded and unlocked. */
    ghost function Evict(h: nat, i: nat): Pool
      requires h < |chains| == |heads| && i < |chains[h]|
      requires chains[h][i] in meta && (i > 0 ==> chains[h][i - 1] in meta)
      requires var p := meta[chains[h][i]].pid; p in cache.entries && cache.entries[p].frame < |cache.pool|
    {
      this.(cache := cache.Flushed(meta[chains[h][i]].pid)).SetLock(chains[h][i], Unlocked).Discard(h, i)
    }

    /** This state is `before` with the top free frame f taken off the stack. */
    ghost predicate GotFree(before: Pool, f: nat) {
      && before.cache.free != [] && f == before.cache.free[|before.cache.free| - 1]
      && this == before.(cache := before.cache.PopFrame())
    }

    /**
     No frame was free, and this state is `before` with the first block of bucket h that nobody had fixed, the i-th,
     evicted from frame f.
     */
    ghost predicate GotVictim(before: Pool, h: nat, i: nat, f: nat, hole: BCB) {
      && before.cache.free == [] && before.FirstUnfixed(h, i)
      && h < |before.chains| == |before.heads| && i < |before.chains[h]|
      && before.chains[h][i] != hole && before.Unfixed(before.chains[h][i])
      && (i > 0 ==> before.chains[h][i - 1] in before.meta)
      && (var p := before.meta[before.chains[h][i]].pid;
          p in before.cache.entries && before.cache.entries[p].frame == f < |before.cache.pool|)
      && this == before.Evict(h, i)
    }

    ghost function SetFrame(b: BCB, f: nat): Pool
      requires b in meta
    {
      this.(meta := meta[b := meta[b].(frame := f)])
    }

    /** The page of block b is now in its frame. */
    ghost function Bring(b: BCB, page: Page, dirty: bool): Pool
      requires b in meta && meta[b].frame < |cache.pool|
    {
      this.(meta := meta[b := meta[b].(modified := dirty)],
            cache := cache.Claim(meta[b].pid, meta[b].frame, page, dirty))
    }

    /** `Ties` reads only the page, frame and flag of the blocks. */
    lemma SameTies(other: Pool, hole: BCB?)
      requires Ties(hole)
      requires |other.chains| == |chains| && other.home == home && other.where == where
      requires other.cache.entries == cache.entries && other.meta.Keys == meta.Keys
      requires forall b :: b in meta ==> var m := other.meta[b];
        m.pid == meta[b].pid && (b == hole || (m.frame == meta[b].frame && m.modified == meta[b].modified))
      ensures other.Ties(hole)
    {
    }

    /** `Lists` reads only the next pointers of the blocks. */
    lemma SameLists(other: Pool)
      requires Lists()
      requires other.heads == heads && other.freeHead == freeHead && other.chains == chains
      requires other.free == free && other.home == home && other.meta.Keys == meta.Keys
      requires forall b :: b in meta ==> other.meta[b].next == meta[b].next
      ensures other.Lists()
    {
    }

    lemma SetLockInv(b: BCB, l: LockState, hole: BCB?)
      requires Inv(hole) && b in meta && l.Ok() && l.mode != NoType
      requires b in home && home[b].Bucket?
      ensures SetLock(b, l).Inv(hole)
    {
      hide Ties, Lists, Locks;
      assert SetLock(b, l).meta.Keys == meta.Keys;
      SameTies(SetLock(b, l), hole);
      SameLists(SetLock(b, l));
      SetLockLocks(b, l);
    }

    lemma SetLockLocks(b: BCB, l: LockState)
      requires Locks() && b in meta && l.Ok() && l.mode != NoType && b in home && home[b].Bucket?
      ensures SetLock(b, l).Locks()
    {
    }

    lemma SetFrameInv(b: BCB, f: nat)
      requires Inv(b) && b in meta
      ensures SetFrame(b, f).Inv(b)
    {
      hide Ties, Lists, Locks;
      assert SetFrame(b, f).meta.Keys == meta.Keys;
      SameTies(SetFrame(b, f), b);
      SameLists(SetFrame(b, f));
      SameLocks(SetFrame(b, f));
    }

    /** Bringing in the page of the block that lacked it leaves no hole; so does writing a cached page. */
    lemma BringInv(b: BCB, page: Page, dirty: bool, hole: BCB?)
      requires Inv(hole) && (hole == b || hole == null)
      requires b in meta && b in home && home[b].Bucket? && meta[b].frame < |cache.pool|
      ensures Bring(b, page, dirty).Inv(null)
    {
      hide Ties, Lists, Locks;
      assert Bring(b, page, dirty).meta.Keys == meta.Keys;
      SameLists(Bring(b, page, dirty));
      BringTies(b, page, dirty, hole);
      SameLocks(Bring(b, page, dirty));
    }

    /** `Locks` reads only the lock states of the blocks. */
    lemma SameLocks(other: Pool)
      requires Locks() && other.home == home && other.meta.Keys == meta.Keys
      requires forall b :: b in meta ==> other.meta[b].lock == meta[b].lock
      ensures other.Locks()
    {
    }

    lemma BringTies(b: BCB, page: Page, dirty: bool, hole: BCB?)
      requires Ties(hole) && (hole == b || hole == null)
      requires b in meta && b in home && home[b].Bucket? && meta[b].frame < |cache.pool|
      ensures Bring(b, page, dirty).Ties(null)
    {
    }

    lemma TakeLists(p: PID)
      requires Lists() && free != []
      ensures Take(p).Lists()
    {
      hide Homed;
      FirstApart();
      assert meta[free[0]].next == Succ(free, 0);
      TakeHomed(p);
      var t := Take(p);
      forall g, j | 0 <= g < |t.chains| && 0 <= j < |t.chains[g]|
        ensures t.chains[g][j] in t.meta && t.meta[t.chains[g][j]].next == Succ(t.chains[g], j)
      {
        TakeNext(p, g, j);
      }
      forall j | 0 <= j < |t.free| ensures t.free[j] in t.meta && t.meta[t.free[j]].next == Succ(t.free, j) {
        assert t.free[j] == free[j + 1];
        FreeNext(j + 1);
      }
    }

    lemma FreeNext(j: nat)
      requires Lists() && j < |free|
      ensures free[j] in meta && meta[free[j]].next == Succ(free, j)
    {
      hide NoDup;
      assert free[j] in home;
    }

    lemma ChainNext(h: nat, i: nat)
      requires Lists() && h < |chains| && i < |chains[h]|
      ensures chains[h][i] in meta && meta[chains[h][i]].next == Succ(chains[h], i)
    {
      hide NoDup;
      assert chains[h][i] in home;
    }

    lemma TakeNext(p: PID, g: nat, j: nat)
      requires Lists() && free != [] && freeHead != null && freeHead in meta
      requires g < |Take(p).chains| && j < |Take(p).chains[g]|
      ensures var t := Take(p); t.chains[g][j] in t.meta && t.meta[t.chains[g][j]].next == Succ(t.chains[g], j)
    {
      hide Homed;
      FirstApart();
      var c := Take(p).chains[g];
      if g != Hash(p, |heads|) {
        ChainNext(g, j);
      } else if j > 0 {
        assert c[j] == chains[g][j - 1];
        ChainNext(g, j - 1);
      }
    }

    lemma TakeHomed(p: PID)
      requires Homed(chains, free, home) && |heads| == |chains| > 0 && free != []
      ensures var b, h := free[0], Hash(p, |heads|);
        Homed(chains[h := [b] + chains[h]], free[1..], home[b := Bucket(h)])
    {
      hide Homed;
      var b, h := free[0], Hash(p, |heads|);
      HomedPop(chains, free, home);
      HomedPush(chains, free[1..], home - {b}, h, b);
      assert (home - {b})[b := Bucket(h)] == home[b := Bucket(h)];
    }

    /** The first free block is in no chain, and only once in the free list. */
    lemma FirstApart()
      requires Homed(chains, free, home) && free != []
      ensures free[0] in home
      ensures forall h, i {:trigger chains[h][i]} :: 0 <= h < |chains| && 0 <= i < |chains[h]| ==>
        chains[h][i] != free[0]
      ensures forall j :: 0 < j < |free| ==> free[j] != free[0]
    {
    }

    lemma TakeTies(p: PID)
      requires Lists() && Ties(null) && free != [] && p !in where
      ensures Take(p).Ties(freeHead)
    {
      assert home[free[0]] == Free;
    }

    lemma TakeKept(p: PID)
      requires Inv(null) && free != [] && p !in where
      ensures Take(p).Inv(freeHead)
    {
      TakeLists(p);
      TakeTies(p);
      AddSize(where, p, free[0]);
    }

    /** Linking a block for page p keeps the invariant exactly if p is not cached yet. */
    lemma TakeInv(p: PID)
      requires Inv(null) && free != []
      ensures freeHead != null && freeHead in meta && |heads| == |chains| > 0
      ensures Take(p).Inv(freeHead) <==> p !in where
    {
      TakeDefined();
      hide Lists, Ties, Locks, Counted, Take;
      if p !in where {
        TakeKept(p);
      } else {
        TakeTwice(p);
      }
    }

    lemma TakeDefined()
      requires Lists() && free != []
      ensures freeHead != null && freeHead in meta && |heads| == |chains| > 0
    {
      assert meta[free[0]].next == Succ(free, 0);
    }

    /** A page that is chained already is then chained twice. */
    lemma TakeTwice(p: PID)
      requires Lists() && Ties(null) && free != [] && p in where
      ensures !Take(p).Ties(freeHead)
    {
      var b := where[p];
      assert home[free[0]] == Free && b != free[0];
      assert Take(p).meta[b] == meta[b] && Take(p).home[b] == home[b];
    }

    lemma DiscardLists(h: nat, i: nat)
      requires Lists() && h < |chains| && i < |chains[h]|
      ensures Discard(h, i).Lists()
    {
      var c, r, b := chains[h], Remove(chains[h], i), chains[h][i];
      HomedUnlink(chains, free, home, h, i);
      HomedPush(chains[h := r], free, home - {b}, h, b);
      assert (home - {b})[b := Free] == home[b := Free];
      DiscardNext(h, i);
      assert meta[c[i]].next == Succ(c, i);
    }

    /** After the unlinking every next pointer leads to the block that follows. */
    lemma DiscardNext(h: nat, i: nat)
      requires Lists() && h < |chains| && i < |chains[h]|
      ensures var d := Discard(h, i);
        && (forall g, j {:trigger d.meta[d.chains[g][j]]} :: 0 <= g < |d.chains| && 0 <= j < |d.chains[g]| ==>
              d.chains[g][j] in d.meta && d.meta[d.chains[g][j]].next == Succ(d.chains[g], j))
        && (forall j {:trigger d.meta[d.free[j]]} :: 0 <= j < |d.free| ==>
              d.free[j] in d.meta && d.meta[d.free[j]].next == Succ(d.free, j))
    {
      var d, c, b := Discard(h, i), chains[h], chains[h][i];
      forall g, j | 0 <= g < |d.chains| && 0 <= j < |d.chains[g]|
        ensures d.chains[g][j] in d.meta && d.meta[d.chains[g][j]].next == Succ(d.chains[g], j)
      {
        var k := if g == h && j >= i then j + 1 else j;
        var x := chains[g][k];
        assert home[x] == Bucket(g) && meta[x].next == Succ(chains[g], k);
        assert meta[b].next == Succ(c, i);
        assert x == c[i] ==> g == h && k == i;
      }
      forall j | 0 <= j < |d.free|
        ensures d.free[j] in d.meta && d.meta[d.free[j]].next == Succ(d.free, j)
      {
        if j > 0 {
          assert home[free[j - 1]] == Free && meta[free[j - 1]].next == Succ(free, j - 1);
        }
      }
    }

    /** Discarding changes next pointers only. */
    lemma DiscardMeta(h: nat, i: nat)
      requires h < |chains| == |heads| && i < |chains[h]|
      requires chains[h][i] in meta && (i > 0 ==> chains[h][i - 1] in meta && chains[h][i - 1] != chains[h][i])
      ensures Discard(h, i).meta.Keys == meta.Keys
      ensures Discard(h, i).heads == if i == 0 then heads[h := meta[chains[h][i]].next] else heads
      ensures Discard(h, i).freeHead == chains[h][i] && |Discard(h, i).free| == |free| + 1
      ensures Discard(h, i).cache == cache.(entries := cache.entries - {meta[chains[h][i]].pid})
      ensures forall c :: c in meta ==> Discard(h, i).meta[c] == meta[c].(next :=
                if c == chains[h][i] then freeHead
                else if i > 0 && c == chains[h][i - 1] then meta[chains[h][i]].next
                else meta[c].next)
    {
    }

    lemma DiscardTies(h: nat, i: nat, hole: BCB?)
      requires Ties(hole) && h < |chains| == |heads| && i < |chains[h]| && chains[h][i] != hole
      requires chains[h][i] in meta && (i > 0 ==> chains[h][i - 1] in meta)
      requires chains[h][i] in home && home[chains[h][i]] == Bucket(h)
      ensures Discard(h, i).Ties(hole)
    {
      var b := chains[h][i];
      ForgetTies(meta[b].pid, hole);
      DiscardForgets(h, i);
      hide Ties, Discard;
      Forget(meta[b].pid).SameTies(Discard(h, i), hole);
    }

    /** But for the list links, discarding a block is forgetting its page. */
    lemma DiscardForgets(h: nat, i: nat)
      requires h < |chains| == |heads| && i < |chains[h]|
      requires chains[h][i] in meta && (i > 0 ==> chains[h][i - 1] in meta)
      requires meta[chains[h][i]].pid in where && where[meta[chains[h][i]].pid] == chains[h][i]
      ensures var d, f := Discard(h, i), Forget(meta[chains[h][i]].pid);
        && |d.chains| == |f.chains| && d.home == f.home && d.where == f.where && d.cache.entries == f.cache.entries
        && d.meta.Keys == f.meta.Keys
        && forall b :: b in f.meta ==>
             && d.meta[b].pid == f.meta[b].pid && d.meta[b].frame == f.meta[b].frame
             && d.meta[b].modified == f.meta[b].modified
    {
    }

    /** Page p leaves the cache and its block goes free, apart from the list links. */
    ghost function Forget(p: PID): Pool
      requires p in where
    {
      this.(home := home[where[p] := Free], where := where - {p},
            cache := cache.(entries := cache.entries - {p}))
    }

    lemma ForgetTies(p: PID, hole: BCB?)
      requires Ties(hole) && p in where && where[p] != hole
      ensures Forget(p).Ties(hole)
    {
    }

    lemma DiscardInv(h: nat, i: nat, hole: BCB?)
      requires Inv(hole) && h < |chains| && i < |chains[h]| && chains[h][i] != hole
      requires chains[h][i] in meta && meta[chains[h][i]].lock.fixCount == 0
      ensures Discard(h, i).Inv(hole) && meta[chains[h][i]].pid in cache.entries
    {
      DiscardLists(h, i);
      DiscardTies(h, i, hole);
      DiscardCount(h, i, hole);
      DiscardLocks(h, i);
    }

    lemma DiscardCount(h: nat, i: nat, hole: BCB?)
      requires Lists() && Ties(hole) && Counted() && h < |chains| && i < |chains[h]| && chains[h][i] != hole
      ensures Discard(h, i).Counted() && meta[chains[h][i]].pid in cache.entries
    {
      var b := chains[h][i];
      var p := meta[b].pid;
      assert home[b] == Bucket(h) && where[p] == b;
      assert Discard(h, i).meta.Keys == meta.Keys;
      RemoveSize(where, p);
    }

    lemma DiscardLocks(h: nat, i: nat)
      requires Lists() && Locks() && h < |chains| && i < |chains[h]|
      requires chains[h][i] in meta && meta[chains[h][i]].lock.fixCount == 0
      ensures Discard(h, i).Locks()
    {
      assert home[chains[h][i]] == Bucket(h);
    }

    /** Eviction changes no page and yields a frame nobody owns. */
    lemma EvictPages(h: nat, i: nat, hole: BCB?, m: map<PID, Page>)
      requires Lists() && Ties(hole) && h < |chains| && i < |chains[h]| && chains[h][i] != hole
      requires cache.Frames(0) && cache.Stands(m)
      ensures var p := meta[chains[h][i]].pid; p in cache.entries && cache.entries[p].frame < |cache.pool|
      ensures var e := Evict(h, i).cache;
        && e.Frames(1) && e.Stands(m) && e.Unowned(meta[chains[h][i]].frame) && |e.pool| == |cache.pool|
        && (cache.free == [] ==> e.FrameGot(cache, m))
    {
      var b := chains[h][i];
      assert home[b] == Bucket(h) && where[meta[b].pid] == b;
      cache.EvictOk(meta[b].pid, m);
      if cache.free == [] {
        cache.EvictGot(meta[b].pid, m);
      }
    }

    /** Locking the victim, flushing and discarding it, and unlocking it again is an eviction. */
    lemma EvictSteps(h: nat, i: nat)
      requires h < |chains| == |heads| && i < |chains[h]|
      requires chains[h][i] in meta && (i > 0 ==> chains[h][i - 1] in meta && chains[h][i - 1] != chains[h][i])
      requires var p := meta[chains[h][i]].pid; p in cache.entries && cache.entries[p].frame < |cache.pool|
      ensures var b := chains[h][i];
        var x := SetLock(b, XLock).(cache := cache.Flushed(meta[b].pid));
        && x.Discard(h, i).meta.Keys == meta.Keys && b in x.Discard(h, i).meta
        && x.Discard(h, i).meta[b].lock == XLock
        && x.Discard(h, i).SetLock(b, Unlocked) == Evict(h, i)
    {
      var b := chains[h][i];
      var x := SetLock(b, XLock).(cache := cache.Flushed(meta[b].pid));
      var y := SetLock(b, Unlocked).(cache := cache.Flushed(meta[b].pid));
      x.DiscardMeta(h, i);
      y.DiscardMeta(h, i);
      assert x.Discard(h, i).SetLock(b, Unlocked).meta == y.Discard(h, i).meta;
    }

    lemma EvictInv(h: nat, i: nat, hole: BCB?)
      requires Inv(hole) && h < |chains| && i < |chains[h]| && chains[h][i] != hole
      requires var p := meta[chains[h][i]].pid; p in cache.entries && cache.entries[p].frame < |cache.pool|
      ensures Evict(h, i).Inv(hole)
    {
      hide Ties, Lists, Locks;
      At(h, i, hole);
      var flushed := this.(cache := cache.Flushed(meta[chains[h][i]].pid));
      SameTies(flushed, hole);
      SameLists(flushed);
      SameLocks(flushed);
      flushed.SetLockInv(chains[h][i], Unlocked, hole);
      flushed.SetLock(chains[h][i], Unlocked).DiscardInv(h, i, hole);
    }

    // ----- locating a page -----

    /**
     Blocks that were fixed before keep their page, frame, flag, lock and bucket, and no block is fixed
     that was not fixed before, except perhaps `mine`.
     */
    ghost predicate Keeps(before: Pool, mine: BCB?) {
      && (forall b :: b in before.meta && b in before.home && before.meta[b].lock.fixCount > 0 ==>
            && b in meta && b in home && home[b] == before.home[b]
            && meta[b] == before.meta[b].(next := meta[b].next))
      && (forall b :: b in meta && b != mine && meta[b].lock.fixCount > 0 ==>
            b in before.meta && b in before.home && before.meta[b].lock.fixCount > 0)
    }

    /** Block b is chained and locked for page p; everything else is in order, and `inHand` frames are in hand. */
    ghost predicate Locating(b: BCB, p: PID, inHand: nat, m: map<PID, Page>) {
      && Inv(b) && b in meta && b in home && home[b].Bucket?
      && meta[b].pid == p && !meta[b].modified && meta[b].lock == XLock
      && cache.Frames(inHand) && cache.Stands(m)
    }

    lemma TakeLengths(p: PID)
      requires Lists() && free != []
      ensures |Take(p).chains| == |chains| && Take(p).cache == cache
    {
    }

    lemma TakeLocating(p: PID, m: map<PID, Page>)
      requires Inv(null) && free != [] && p !in where && cache.Frames(0) && cache.Stands(m)
      ensures freeHead != null && Take(p).Locating(freeHead, p, 0, m) && Take(p).Keeps(this, freeHead)
    {
      TakeKept(p);
      TakeKeeps(p);
    }

    lemma TakeKeeps(p: PID)
      requires Lists() && Locks() && free != []
      ensures Take(p).Keeps(this, freeHead)
    {
      assert home[free[0]] == Free;
    }

    /** Giving the block its frame and unlocking it: page p has a frame, but its bytes are not there yet. */
    ghost predicate Located(b: BCB, p: PID, m: map<PID, Page>) {
      && Inv(b) && b in meta && b in home && home[b].Bucket?
      && meta[b].pid == p && !meta[b].modified && meta[b].lock == Unlocked
      && cache.Frames(1) && cache.Stands(m) && cache.Unowned(meta[b].frame)
    }

    lemma PlaceLocated(b: BCB, p: PID, f: nat, m: map<PID, Page>)
      requires Locating(b, p, 1, m) && cache.Unowned(f)
      ensures SetFrame(b, f).SetLock(b, Unlocked).Located(b, p, m)
    {
      SetFrameInv(b, f);
      SetFrame(b, f).SetLockInv(b, Unlocked, b);
    }

    /** Taking a free frame or evicting a victim leaves page p's block as it was, and yields an unowned frame. */
    lemma FrameFound(before: Pool, b: BCB, p: PID, f: nat, m: map<PID, Page>)
      requires before.Locating(b, p, 0, m)
      requires GotFree(before, f) || exists h, i :: GotVictim(before, h, i, f, b)
      ensures Locating(b, p, 1, m) && cache.Unowned(f) && |cache.pool| == |before.cache.pool| && Keeps(before, null)
      ensures cache.FrameGot(before.cache, m)
    {
      if GotFree(before, f) {
        FreeFound(before, b, p, f, m);
      } else {
        var h, i :| GotVictim(before, h, i, f, b);
        VictimFound(before, b, p, h, i, f, m);
      }
    }

    lemma FreeFound(before: Pool, b: BCB, p: PID, f: nat, m: map<PID, Page>)
      requires before.Locating(b, p, 0, m) && GotFree(before, f)
      ensures Locating(b, p, 1, m) && cache.Unowned(f) && |cache.pool| == |before.cache.pool| && Keeps(before, null)
      ensures cache.FrameGot(before.cache, m)
    {
      before.cache.PopFrameOk(m);
      before.SameLists(this);
      before.SameTies(this, b);
    }

    lemma VictimFound(before: Pool, b: BCB, p: PID, h: nat, i: nat, f: nat, m: map<PID, Page>)
      requires before.Locating(b, p, 0, m) && GotVictim(before, h, i, f, b)
      ensures Locating(b, p, 1, m) && cache.Unowned(f) && |cache.pool| == |before.cache.pool| && Keeps(before, null)
      ensures cache.FrameGot(before.cache, m)
    {
      before.At(h, i, b);
      before.EvictPages(h, i, b, m);
      before.EvictInv(h, i, b);
      before.EvictKeeps(h, i);
      before.EvictMeta(h, i);
    }

    /** Evicting changes the victim's lock, and otherwise only next pointers and the victim's place. */
    lemma EvictMeta(h: nat, i: nat)
      requires h < |chains| == |heads| && i < |chains[h]|
      requires chains[h][i] in meta && (i > 0 ==> chains[h][i - 1] in meta && chains[h][i - 1] != chains[h][i])
      requires var p := meta[chains[h][i]].pid; p in cache.entries && cache.entries[p].frame < |cache.pool|
      ensures var e := Evict(h, i);
        && e.meta.Keys == meta.Keys && e.home == home[chains[h][i] := Free]
        && forall c :: c in meta && c != chains[h][i] ==> e.meta[c] == meta[c].(next := e.meta[c].next)
    {
      var b := chains[h][i];
      this.(cache := cache.Flushed(meta[b].pid)).SetLock(b, Unlocked).DiscardMeta(h, i);
    }

    lemma EvictKeeps(h: nat, i: nat)
      requires h < |chains| == |heads| && i < |chains[h]|
      requires chains[h][i] in meta && (i > 0 ==> chains[h][i - 1] in meta && chains[h][i - 1] != chains[h][i])
      requires var p := meta[chains[h][i]].pid; p in cache.entries && cache.entries[p].frame < |cache.pool|
      requires meta[chains[h][i]].lock.fixCount == 0
      requires home.Keys == meta.Keys
      ensures Evict(h, i).Keeps(this, null)
    {
      EvictMeta(h, i);
    }

    /** The second half of locating a page, from the locked block to the unlocked block with a frame. */
    lemma FramePlaced(before: Pool, middle: Pool, b: BCB, p: PID, f: nat, m: map<PID, Page>)
      requires middle.Locating(b, p, 0, m)
      requires GotFree(middle, f) || exists h, i :: GotVictim(middle, h, i, f, b)
      requires middle.Keeps(before, b) && b in before.meta && before.meta[b].lock.fixCount == 0
      ensures b in meta && f < |cache.pool| && meta[b].lock == XLock
      ensures SetFrame(b, f).SetLock(b, Unlocked).Located(b, p, m)
      ensures SetFrame(b, f).SetLock(b, Unlocked).Keeps(before, null)
      ensures SetFrame(b, f).SetLock(b, Unlocked).cache == cache && cache.FrameGot(middle.cache, m)
    {
      hide Inv, GotFree, GotVictim, Keeps, Located, Cache.Frames, Cache.Stands, Cache.FrameGot;
      FrameFound(middle, b, p, f, m);
      KeepsTransitive(middle, before, b);
      PlaceLocated(b, p, f, m);
      KeepsOthers(before, b, meta[b].(frame := f, lock := Unlocked));
      BothSet(b, f);
    }

    lemma BothSet(b: BCB, f: nat)
      requires b in meta
      ensures SetFrame(b, f).SetLock(b, Unlocked) == this.(meta := meta[b := meta[b].(frame := f, lock := Unlocked)])
    {
    }

    lemma KeepsSelf()
      requires Lists()
      ensures Keeps(this, null)
    {
    }

    lemma KeepsTransitive(middle: Pool, before: Pool, mine: BCB)
      requires Keeps(middle, null) && middle.Keeps(before, mine)
      ensures Keeps(before, mine)
    {
    }

    /** Changing the fields of a block nobody held before is of no concern to the holders. */
    lemma KeepsOthers(before: Pool, b: BCB, x: Meta)
      requires Keeps(before, b) && b in before.meta && before.meta[b].lock.fixCount == 0
      ensures this.(meta := meta[b := x]).Keeps(before, if x.lock.fixCount == 0 then null else b)
    {
    }

    lemma NotFree(h: nat, i: nat)
      requires Lists() && h < |chains| && i < |chains[h]| && free != []
      ensures |heads| == |chains| && freeHead == free[0] && freeHead in meta && chains[h][i] in meta
      ensures chains[h][i] != freeHead
    {
      hide NoDup;
      assert home[chains[h][i]] == Bucket(h) && home[free[0]] == Free;
    }

    /** The draws that reach an evictable bucket still do so once the new block is linked. */
    lemma TakeDraws(p: PID, draws: seq<nat>)
      requires Lists() && free != [] && DrawsHit(draws)
      ensures Take(p).DrawsHit(draws)
    {
      var k :| 0 <= k < |draws| && Evictable(draws[k]);
      var i :| 0 <= i < |chains[draws[k]]| && Unfixed(chains[draws[k]][i]);
      NotFree(draws[k], i);
      TakeReach(p, draws, k, i);
    }

    lemma TakeReach(p: PID, draws: seq<nat>, k: nat, i: nat)
      requires k < |draws| && draws[k] < |chains| == |heads| && i < |chains[draws[k]]| && Unfixed(chains[draws[k]][i])
      requires free != [] && freeHead != null && freeHead in meta && chains[draws[k]][i] != freeHead
      ensures Take(p).DrawsHit(draws)
    {
      var b, c := chains[draws[k]][i], Take(p).chains[draws[k]];
      assert c[if draws[k] == Hash(p, |heads|) then i + 1 else i] == b;
      assert Take(p).Unfixed(b) && Take(p).Evictable(draws[k]);
    }

    /** Once its bytes are in the frame, the located page is an ordinary cached page. */
    lemma BringLocated(b: BCB, p: PID, page: Page, dirty: bool, m: map<PID, Page>)
      requires Located(b, p, m) && (!dirty ==> p in cache.disk && cache.disk[p] == page)
      ensures Bring(b, page, dirty).Inv(null)
      ensures Bring(b, page, dirty).cache.Frames(0) && Bring(b, page, dirty).cache.Stands(m[p := page])
    {
      BringInv(b, page, dirty, b);
      LocatedAbsent(b, p, m);
      cache.ClaimFrames(p, meta[b].frame, page, dirty);
      cache.ClaimStands(p, meta[b].frame, page, dirty, m);
    }

    lemma LocatedAbsent(b: BCB, p: PID, m: map<PID, Page>)
      requires Located(b, p, m)
      ensures p !in cache.entries && p in where && where[p] == b
      ensures p in m ==> p in cache.disk && cache.disk[p] == m[p]
      ensures p !in m ==> p !in cache.disk
    {
    }

    /** Following the chain of p's bucket finds p's block if p is cached. */
    lemma InChain(p: PID)
      requires Lists() && Ties(null)
      ensures p in where <==> p in cache.entries
      ensures p in where ==> where[p] in chains[Hash(p, |chains|)] && where[p] in meta
    {
      if p in where {
        assert Listed(chains, free, home, where[p]);
      }
    }

    ghost function LockOf(p: PID): LockState {
      if p in where && where[p] in meta then meta[where[p]].lock else Unlocked
    }

    /** Pages that were held stay cached, in the same block, with the same lock; no other page but p is held. */
    ghost predicate KeepsPages(before: Pool, p: PID) {
      && (forall q :: q != p && q in before.cache.entries && before.LockOf(q).fixCount > 0 ==>
            && q in before.where && q in where && where[q] == before.where[q]
            && q in cache.entries && cache.entries[q] == before.cache.entries[q] && LockOf(q) == before.LockOf(q))
      && (forall q :: q != p && q in cache.entries && LockOf(q).fixCount > 0 ==>
            q in before.cache.entries && before.LockOf(q).fixCount > 0)
    }

    lemma KeepsHeldPages(before: Pool, b: BCB?, p: PID)
      requires Ties(null) && before.Ties(null) && Keeps(before, b)
      requires b != null ==> p in where && where[p] == b
      ensures KeepsPages(before, p)
    {
      hide Ties, Keeps;
      forall q | q != p && q in before.cache.entries && before.LockOf(q).fixCount > 0
        ensures q in before.where && q in where && where[q] == before.where[q]
        ensures q in cache.entries && cache.entries[q] == before.cache.entries[q] && LockOf(q) == before.LockOf(q)
      {
        StaysHeld(before, b, q);
      }
      forall q | q != p && q in cache.entries && LockOf(q).fixCount > 0
        ensures q in before.cache.entries && before.LockOf(q).fixCount > 0
      {
        WasHeld(before, b, p, q);
      }
    }

    lemma StaysHeld(before: Pool, b: BCB?, q: PID)
      requires Ties(null) && before.Ties(null) && Keeps(before, b)
      requires q in before.cache.entries && before.LockOf(q).fixCount > 0
      ensures q in before.where && q in where && where[q] == before.where[q]
      ensures q in cache.entries && cache.entries[q] == before.cache.entries[q] && LockOf(q) == before.LockOf(q)
    {
      var c := before.where[q];
      assert c in meta && meta[c].pid == q && home[c].Bucket?;
    }

    lemma WasHeld(before: Pool, b: BCB?, p: PID, q: PID)
      requires Ties(null) && before.Ties(null) && Keeps(before, b)
      requires b != null ==> p in where && where[p] == b
      requires q != p && q in cache.entries && LockOf(q).fixCount > 0
      ensures q in before.cache.entries && before.LockOf(q).fixCount > 0
    {
      var c := where[q];
      assert meta[c].pid == q && c != b;
      assert c in before.meta && before.meta[c].lock.fixCount > 0 && before.meta[c].pid == q;
      assert before.home[c].Bucket? && before.where[q] == c;
    }

    /** A step on page p that keeps what is held leaves the lock of every other page as it was. */
    lemma LocksKept(before: Pool, p: PID, q: PID)
      requires Inv(null) && before.Inv(null) && KeepsPages(before, p) && q != p
      ensures LockOf(q) == before.LockOf(q)
      ensures LockOf(q).fixCount > 0 ==> q in before.where && q in where && where[q] == before.where[q]
    {
      hide Lists, Ties, Locks, Counted, LockOf;
      if before.LockOf(q).fixCount == 0 || q !in before.cache.entries {
        before.UnheldIsUnlocked(q);
        UnheldIsUnlocked(q);
      }
    }

    lemma UnheldIsUnlocked(q: PID)
      requires Inv(null) && (LockOf(q).fixCount == 0 || q !in cache.entries)
      ensures LockOf(q) == Unlocked
    {
      hide Lists, Counted;
      InChain(q);
    }

    /** While there are more frames than held pages, draws that name every bucket reach a victim. */
    lemma FairDraws(draws: seq<nat>, held: set<PID>)
      requires Inv(null) && cache.Frames(0) && |held| < |cache.pool|
      requires forall p :: p !in held ==> LockOf(p).fixCount == 0
      requires forall h: nat :: h < |chains| ==> h in draws
      ensures cache.free != [] || DrawsHit(draws)
    {
      hide Lists, Ties, Locks, Counted, DrawsHit;
      if cache.free == [] {
        assert |cache.entries.Keys| > |held|;
        Fewer(held, cache.entries.Keys);
        var p :| p in cache.entries && p !in held;
        InChain(p);
        DrawReaches(p, draws);
      }
    }

    lemma DrawReaches(p: PID, draws: seq<nat>)
      requires |chains| > 0 && p in where && where[p] in chains[Hash(p, |chains|)] && where[p] in meta
      requires LockOf(p).fixCount == 0 && Hash(p, |chains|) in draws
      ensures DrawsHit(draws)
    {
      var h := Hash(p, |chains|);
      var k :| 0 <= k < |draws| && draws[k] == h;
      var i :| 0 <= i < |chains[h]| && chains[h][i] == where[p];
      assert Unfixed(chains[h][i]) && Evictable(draws[k]);
    }

    /** What a caller may do with the block of a cached page: it is chained and holds that page's bytes. */
    ghost predicate Holds(b: BCB, p: PID) {
      && p in where && where[p] == b && b in meta && meta[b].pid == p && meta[b].frame < |cache.pool|
      && b in home && home[b].Bucket? && meta[b].lock.Ok() && meta[b].lock.mode != NoType
      && p in cache.entries && cache.entries[p] == Entry(meta[b].frame, meta[b].modified)
    }

    lemma Cached(p: PID)
      requires Inv(null) && cache.Frames(0) && p in cache.entries
      ensures p in where && Holds(where[p], p)
    {
    }

    lemma BringBrought(before: Pool, b: BCB, p: PID, page: Page, dirty: bool, m: map<PID, Page>)
      requires Located(b, p, m) && cache.FrameGot(before.cache, m) && p !in before.cache.entries
      ensures p in Bring(b, page, dirty).cache.entries && Bring(b, page, dirty).cache.Brought(before.cache, m, p)
      ensures Bring(b, page, dirty).cache.disk == cache.disk
    {
      hide Lists, Ties, Locks, Counted, Cache.Stands, Cache.Frames;
      LocatedAbsent(b, p, m);
      var after := Bring(b, page, dirty).cache;
      if before.cache.free == [] {
        var v :| cache.Evicted(before.cache, m, v, {});
        assert after.Evicted(before.cache, m, v, {p});
      }
    }

    lemma BringKept(before: Pool, b: BCB, p: PID, page: Page, dirty: bool, m: map<PID, Page>)
      requires Located(b, p, m) && Keeps(before, null)
      ensures Bring(b, page, dirty).Keeps(before, null)
      ensures Bring(b, page, dirty).Holds(b, p) && Bring(b, page, dirty).LockOf(p) == Unlocked
    {
      hide Lists, Ties, Locks, Cache.Stands, Cache.Frames, Counted;
      LocatedAbsent(b, p, m);
    }

    /** Locking or unlocking the block of page p matters to no other page. */
    lemma RelockHeld(before: Pool, b: BCB, p: PID, l: LockState)
      requires Inv(null) && Holds(b, p) && KeepsPages(before, p)
      requires l.Ok() && l.mode != NoType
      ensures SetLock(b, l).Inv(null) && SetLock(b, l).Holds(b, p) && SetLock(b, l).LockOf(p) == l
      ensures SetLock(b, l).KeepsPages(before, p) && SetLock(b, l).cache == cache
    {
      SetLockInv(b, l, null);
      RelockKeeps(before, b, p, l);
    }

    lemma RelockKeeps(before: Pool, b: BCB, p: PID, l: LockState)
      requires Ties(null) && Holds(b, p) && KeepsPages(before, p)
      ensures SetLock(b, l).KeepsPages(before, p)
    {
      assert forall q :: q in where && q != p ==> where[q] != b;
      assert forall q :: q != p ==> SetLock(b, l).LockOf(q) == LockOf(q);
    }

    /** Writing a cached page changes that page only, in the pool and in the page map it stands for. */
    lemma WriteHeld(b: BCB, p: PID, page: Page, m: map<PID, Page>)
      requires Inv(null) && cache.Frames(0) && cache.Stands(m) && Holds(b, p)
      ensures Bring(b, page, true).Inv(null)
      ensures Bring(b, page, true).cache.Frames(0) && Bring(b, page, true).cache.Stands(m[p := page])
    {
      BringInv(b, page, true, null);
      cache.WriteFrames(p, page);
      cache.WriteStands(p, page, m);
    }

    /** Flushing the page of a block changes no page, and puts this one on disk. */
    lemma FlushHeld(b: BCB, p: PID, m: map<PID, Page>)
      requires Inv(null) && cache.Frames(0) && cache.Stands(m) && Holds(b, p)
      ensures var f := cache.Flushed(p);
        && this.(cache := f).Inv(null) && f.Frames(0) && f.Stands(m)
        && p in m && f.disk == cache.disk[p := m[p]]
    {
      hide Lists, Ties, Locks, Cache.Frames;
      cache.FlushedOk(p, 0, m);
      FlushedInv(p);
      assert cache.disk[p := m[p]] == cache.Flushed(p).disk;
    }

    lemma FlushedInv(p: PID)
      requires Inv(null) && p in cache.entries && cache.entries[p].frame < |cache.pool|
      ensures this.(cache := cache.Flushed(p)).Inv(null)
    {
      SameTies(this.(cache := cache.Flushed(p)), null);
      SameLists(this.(cache := cache.Flushed(p)));
    }

    ghost function PushFrame(f: nat): Pool {
      this.(cache := cache.(free := cache.free + [f]))
    }

    /** Dropping a page nobody holds frees its frame and its block, and touches no other page. */
    lemma ResetHeld(h: nat, i: nat, p: PID, m: map<PID, Page>)
      requires Inv(null) && cache.Frames(0) && cache.Stands(m) && h < |chains| && i < |chains[h]|
      requires Holds(chains[h][i], p) && LockOf(p).fixCount == 0
      ensures |heads| == |chains| && (i > 0 ==> chains[h][i - 1] in meta && chains[h][i - 1] != chains[h][i])
      ensures |cache.free| < |cache.pool|
      ensures var r := PushFrame(meta[chains[h][i]].frame).Discard(h, i);
        && r.Inv(null) && r.cache.Frames(0) && r.cache.Stands(Dropped(p, m, cache.disk)) && p !in r.cache.entries
        && r.Keeps(this, null) && r.cache.entries.Keys == cache.entries.Keys - {p}
    {
      hide Ties, Locks, Keeps, Cache.Frames, Cache.Stands;
      var b := chains[h][i];
      At(h, i, null);
      cache.DropFrames(p);
      cache.DropStands(p, m);
      RoomForFrame(p);
      var pushed := PushFrame(meta[b].frame);
      assert pushed.Discard(h, i).cache == cache.Drop(p);
      SameTies(pushed, null);
      SameLists(pushed);
      PushLocks(meta[b].frame);
      pushed.DiscardInv(h, i, null);
      DiscardKeeps(h, i, meta[b].frame);
    }

    lemma PushLocks(f: nat)
      requires Locks()
      ensures PushFrame(f).Locks()
    {
    }

    lemma RoomForFrame(p: PID)
      requires cache.Frames(0) && p in cache.entries
      ensures |cache.free| < |cache.pool|
    {
      assert |cache.entries.Keys| > 0;
    }

    lemma DiscardKeeps(h: nat, i: nat, f: nat)
      requires Lists() && h < |chains| && i < |chains[h]|
      requires chains[h][i] in meta && (i > 0 ==> chains[h][i - 1] in meta && chains[h][i - 1] != chains[h][i])
      requires meta[chains[h][i]].lock.fixCount == 0
      ensures PushFrame(f).Discard(h, i).Keeps(this, null)
    {
      PushFrame(f).DiscardMeta(h, i);
    }

    lemma WriteKept(b: BCB, p: PID, page: Page)
      requires Inv(null) && Holds(b, p)
      ensures Bring(b, page, true).Holds(b, p) && Bring(b, page, true).LockOf(p) == LockOf(p)
      ensures Bring(b, page, true).KeepsPages(this, p)
    {
      hide Lists, Locks, Counted, LockOf;
      forall q ensures Bring(b, page, true).LockOf(q) == LockOf(q) {
        WriteLock(b, p, page, q);
      }
    }

    lemma WriteLock(b: BCB, p: PID, page: Page, q: PID)
      requires Holds(b, p)
      ensures Bring(b, page, true).LockOf(q) == LockOf(q)
    {
    }

    /** A spare block is free whenever no page is being located: there are more blocks than frames. */
    lemma SpareBlock()
      requires Inv(null) && cache.Frames(0)
      requires |cache.pool| < |meta.Keys|
      ensures free != [] && freeHead == free[0] && freeHead in meta
      ensures meta[freeHead].lock.Ok() && meta[freeHead].lock.fixCount == 0
    {
      assert where.Keys == cache.entries.Keys;
      assert home[free[0]] == Free;
    }
  }

  lemma Fewer(s: set<PID>, t: set<PID>)
    requires |s| < |t|
    ensures exists p :: p in t && p !in s
  {
    assert s == s * t + (s - t);
    assert s * t != t;
  }

  lemma AddSize<K, V>(m: map<K, V>, k: K, v: V)
    requires k !in m
    ensures |m[k := v].Keys| == |m.Keys| + 1
  {
    assert m[k := v].Keys == m.Keys + {k};
  }

  /** A pool that caches nothing: every block is free, in the order of bs, and every frame is free. */
  ghost function InitialPool(bs: seq<BCB>, pool: seq<Page>, disk: map<PID, Page>): Pool
    requires bs != []
  {
    Pool(seq(|pool|, _ => null), bs[0],
         map b | b in bs :: Meta(PID(0, 0), INVALID, false, NextOf(bs, b), LockState(NoType, 0, false, 0)),
         Cache(map[], seq(|pool|, i => i), pool, disk),
         seq(|pool|, _ => []), bs, map b | b in bs :: Free, map[])
  }

  /** The element after b in bs, null for the last. */
  ghost function NextOf(bs: seq<BCB>, b: BCB): BCB? {
    if b in bs then var i :| 0 <= i < |bs| && bs[i] == b; Succ(bs, i) else null
  }

  lemma InitialNext(bs: seq<BCB>, i: nat)
    requires NoDup(bs) && i < |bs|
    ensures NextOf(bs, bs[i]) == Succ(bs, i)
  {
  }

  lemma InitialFields(bs: seq<BCB>, pool: seq<Page>, disk: map<PID, Page>)
    requires bs != [] && NoDup(bs)
    ensures var s := InitialPool(bs, pool, disk);
      && |s.heads| == |pool| && (forall h :: 0 <= h < |pool| ==> s.heads[h] == null)
      && s.freeHead == bs[0] && s.free == bs && (forall b :: b in s.meta ==> b in bs)
      && s.cache == Cache(map[], seq(|pool|, i => i), pool, disk)
      && forall i :: 0 <= i < |bs| ==>
           && bs[i] in s.meta
           && s.meta[bs[i]] == Meta(PID(0, 0), INVALID, false, Succ(bs, i), LockState(NoType, 0, false, 0))
  {
    forall i | 0 <= i < |bs|
      ensures NextOf(bs, bs[i]) == Succ(bs, i)
    {
      InitialNext(bs, i);
    }
  }

  lemma InitialInv(bs: seq<BCB>, pool: seq<Page>, disk: map<PID, Page>)
    requires bs != [] && NoDup(bs) && pool != []
    ensures InitialPool(bs, pool, disk).Inv(null)
  {
    hide AsSet, Pool.Lists;
    InitialLists(bs, pool, disk);
    InitialCount(bs, pool, disk);
  }

  lemma InitialCount(bs: seq<BCB>, pool: seq<Page>, disk: map<PID, Page>)
    requires bs != [] && NoDup(bs)
    ensures InitialPool(bs, pool, disk).Counted()
  {
    hide AsSet;
    var s := InitialPool(bs, pool, disk);
    assert s.where.Keys == {};
    assert s.meta.Keys == AsSet(bs);
  }

  lemma InitialLists(bs: seq<BCB>, pool: seq<Page>, disk: map<PID, Page>)
    requires bs != [] && NoDup(bs) && pool != []
    ensures InitialPool(bs, pool, disk).Lists()
  {
    hide NoDup, Homed, NextOf;
    var s := InitialPool(bs, pool, disk);
    InitialFields(bs, pool, disk);
    AllFree(s.chains, bs, s.home);
  }

  lemma AllFree(chains: seq<Chain>, bs: seq<BCB>, home: map<BCB, Place>)
    requires NoDup(bs) && home == map b | b in bs :: Free
    requires forall h :: 0 <= h < |chains| ==> chains[h] == []
    ensures Homed(chains, bs, home)
  {
  }

  lemma InitialPages(bs: seq<BCB>, pool: seq<Page>, disk: map<PID, Page>)
    requires bs != []
    ensures InitialPool(bs, pool, disk).cache.Frames(0) && InitialPool(bs, pool, disk).cache.Stands(disk)
  {
    assert InitialPool(bs, pool, disk).cache.entries.Keys == {};
  }

  /** The blocks of bs; as many as bs is long, if they are all different. */
  ghost function AsSet(bs: seq<BCB>): (t: set<BCB>)
    ensures (forall b :: b in t ==> b in bs) && (forall i :: 0 <= i < |bs| ==> bs[i] in t)
    ensures NoDup(bs) ==> |t| == |bs|
  {
    if bs == [] then {} else AsSet(bs[..|bs| - 1]) + {bs[|bs| - 1]}
  }
}
