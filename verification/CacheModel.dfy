/**
 The cache as values: which page sits in which frame, the free frames, and the disk behind them.
 Every step below is proved to keep `Frames` and to have a simple effect on the page map the cache `Stands` for.
 */
module CacheModel {
  import opened PageTypes

  datatype Entry = Entry(frame: nat, dirty: bool)

  /** The page map m after page p is dropped from the cache: its changes since the last write-back are gone. */
  function Dropped(p: PID, m: map<PID, Page>, disk: map<PID, Page>): map<PID, Page> {
    if p in disk then m[p := disk[p]] else m - {p}
  }

  datatype Cache = Cache(entries: map<PID, Entry>, free: seq<nat>, pool: seq<Page>, disk: map<PID, Page>) {

    /** Frames in use and free frames are pairwise different numbers; `inHand` more have been taken off the stack. */
    ghost predicate Frames(inHand: nat) {
      && (forall p :: p in entries ==> entries[p].frame < |pool| && entries[p].frame !in free)
      && (forall p, q :: p in entries && q in entries && entries[p].frame == entries[q].frame ==> p == q)
      && (forall i :: 0 <= i < |free| ==> free[i] < |pool|)
      && (forall i, j :: 0 <= i < j < |free| ==> free[i] != free[j])
      && |entries.Keys| + |free| + inHand == |pool|
    }

    /** The cache over the disk stands for the page map m; a page that is not dirty is on disk as it is in its frame. */
    ghost predicate Stands(m: map<PID, Page>) {
      && (forall p :: p in entries ==>
            && p in m && entries[p].frame < |pool| && m[p] == pool[entries[p].frame]
            && (!entries[p].dirty ==> p in disk && disk[p] == m[p]))
      && (forall p :: p in m && p !in entries ==> p in disk && disk[p] == m[p])
      && disk.Keys <= m.Keys
    }

    /** A frame that holds no page and is not on the free stack. */
    ghost predicate Unowned(f: nat) {
      f < |pool| && f !in free && forall p :: p in entries ==> entries[p].frame != f
    }

    ghost function PopFrame(): Cache
      requires free != []
    {
      this.(free := free[..|free| - 1])
    }

    ghost function Flushed(p: PID): Cache
      requires p in entries && entries[p].frame < |pool|
    {
      if entries[p].dirty then this.(disk := disk[p := pool[entries[p].frame]]) else this
    }

    ghost function Evict(p: PID): Cache
      requires p in entries && entries[p].frame < |pool|
    {
      Flushed(p).(entries := entries - {p})
    }

    /** Page p takes frame f, whatever that frame contains. */
    ghost function Claim(p: PID, f: nat, page: Page, dirty: bool): Cache
      requires f < |pool|
    {
      this.(entries := entries[p := Entry(f, dirty)], pool := pool[f := page])
    }

    ghost function Write(p: PID, page: Page): Cache
      requires p in entries && entries[p].frame < |pool|
    {
      Claim(p, entries[p].frame, page, true)
    }

    ghost function Drop(p: PID): Cache
      requires p in entries
    {
      this.(entries := entries - {p}, free := free + [entries[p].frame])
    }

    /** A frame was got: nothing happened if one was free; else one page was evicted, and written back to disk. */
    ghost predicate FrameGot(before: Cache, m: map<PID, Page>) {
      if before.free != [] then entries.Keys == before.entries.Keys && disk == before.disk
      else exists v :: Evicted(before, m, v, {})
    }

    ghost predicate Evicted(before: Cache, m: map<PID, Page>, v: PID, extra: set<PID>) {
      && v in before.entries && v in m && v !in extra
      && entries.Keys == before.entries.Keys - {v} + extra && disk == before.disk[v := m[v]]
    }

    /**
     Page p is cached: nothing happened if it was, and it alone came in if a frame was free; else it came in for one
     page that was evicted, and written back to disk.
     */
    ghost predicate Brought(before: Cache, m: map<PID, Page>, p: PID) {
      if p in before.entries then entries.Keys == before.entries.Keys && disk == before.disk
      else if before.free != [] then entries.Keys == before.entries.Keys + {p} && disk == before.disk
      else exists v :: Evicted(before, m, v, {p})
    }

    lemma BroughtSelf(m: map<PID, Page>, p: PID)
      requires p in entries
      ensures Brought(this, m, p)
    {
    }

    lemma EvictGot(p: PID, m: map<PID, Page>)
      requires Stands(m) && p in entries && free == []
      ensures entries[p].frame < |pool| && Evict(p).FrameGot(this, m)
    {
      FlushedDisk(p, m);
      assert Evict(p).Evicted(this, m, p, {});
    }

    /** Whether dirty or not, after a flush the disk has the page as it is. */
    lemma FlushedDisk(p: PID, m: map<PID, Page>)
      requires Stands(m) && p in entries
      ensures p in m && entries[p].frame < |pool| && Flushed(p).disk == disk[p := m[p]]
    {
      assert !entries[p].dirty ==> disk[p := m[p]] == disk;
    }

    /** A frame is free exactly while fewer pages are cached than there are frames. */
    lemma FreeLeft()
      requires Frames(0)
      ensures free != [] <==> |entries.Keys| < |pool|
    {
    }

    lemma PopFrameOk(m: map<PID, Page>)
      requires Frames(0) && Stands(m) && free != []
      ensures PopFrame().Frames(1) && PopFrame().Unowned(free[|free| - 1]) && PopFrame().Stands(m)
    {
    }

    /** Flushing changes no page, and puts this page on disk. */
    lemma FlushedOk(p: PID, inHand: nat, m: map<PID, Page>)
      requires Frames(inHand) && Stands(m) && p in entries
      ensures Flushed(p).Frames(inHand) && Flushed(p).Stands(m)
      ensures p in m && p in Flushed(p).disk && Flushed(p).disk[p] == m[p]
    {
    }

    /** Evicting changes no page, and its frame is free for another. */
    lemma EvictOk(p: PID, m: map<PID, Page>)
      requires Frames(0) && Stands(m) && p in entries
      ensures Evict(p).Frames(1) && Evict(p).Unowned(entries[p].frame) && Evict(p).Stands(m)
    {
      FlushedOk(p, 0, m);
      RemoveSize(entries, p);
    }

    lemma ClaimFrames(p: PID, f: nat, page: Page, dirty: bool)
      requires Frames(1) && p !in entries && Unowned(f)
      ensures Claim(p, f, page, dirty).Frames(0)
    {
      var c := Claim(p, f, page, dirty);
      assert c.entries.Keys == entries.Keys + {p};
    }

    /** Bringing page p into an unowned frame changes no other page. */
    lemma ClaimStands(p: PID, f: nat, page: Page, dirty: bool, m: map<PID, Page>)
      requires f < |pool| && Stands(m) && forall q :: q in entries && q != p ==> entries[q].frame != f
      requires !dirty ==> p in disk && disk[p] == page
      ensures Claim(p, f, page, dirty).Stands(m[p := page])
    {
    }

    lemma WriteFrames(p: PID, page: Page)
      requires Frames(0) && p in entries
      ensures Write(p, page).Frames(0)
    {
      assert Write(p, page).entries.Keys == entries.Keys;
    }

    lemma WriteStands(p: PID, page: Page, m: map<PID, Page>)
      requires Frames(0) && Stands(m) && p in entries
      ensures Write(p, page).Stands(m[p := page])
    {
      ClaimStands(p, entries[p].frame, page, true, m);
    }

    lemma DropFrames(p: PID)
      requires Frames(0) && p in entries
      ensures Drop(p).Frames(0)
    {
      RemoveSize(entries, p);
    }

    /** Dropping a page gives up its unflushed changes, and touches no other page. */
    lemma DropStands(p: PID, m: map<PID, Page>)
      requires Stands(m) && p in entries
      ensures Drop(p).Stands(Dropped(p, m, disk))
    {
    }

    lemma DropAbsent(p: PID, m: map<PID, Page>)
      requires Stands(m) && p !in entries
      ensures Dropped(p, m, disk) == m
    {
    }

    /** When every cached page is on disk as it is in its frame, the disk alone is the page map. */
    lemma AllFlushed(m: map<PID, Page>)
      requires Stands(m)
      requires forall p :: p in entries ==> p in disk && disk[p] == pool[entries[p].frame]
      ensures disk == m
    {
      assert forall p :: p in m ==> p in disk && disk[p] == m[p];
    }

    /** Every frame number is free or holds a page: the two together partition the frames. */
    lemma Partition(f: nat)
      requires Frames(0) && f < |pool|
      ensures f in free || exists p :: p in entries && entries[p].frame == f
    {
      hide Elements, Below;
      if f !in free && forall p :: p in entries ==> entries[p].frame != f {
        Left(free, |pool|, f);
        Injective(entries, Below(|pool|) - Elements(free) - {f});
      }
    }
  }

  /** The numbers below n that are neither in s nor f. */
  lemma Left(s: seq<nat>, n: nat, f: nat)
    requires (forall i :: 0 <= i < |s| ==> s[i] < n) && f < n && f !in s
    requires forall i, j :: 0 <= i < j < |s| ==> s[i] != s[j]
    ensures |Below(n) - Elements(s) - {f}| == n - |s| - 1
    ensures forall x: nat :: x < n && x !in s && x != f ==> x in Below(n) - Elements(s) - {f}
  {
    hide Elements, Below;
    assert Elements(s) <= Below(n);
    Difference(Below(n), Elements(s));
    assert f in Below(n) - Elements(s);
  }

  lemma Difference(a: set<nat>, b: set<nat>)
    requires b <= a
    ensures |a - b| == |a| - |b|
  {
    assert a == (a - b) + b;
  }

  /** As many different frames as pages fit in no smaller set. */
  lemma {:induction false} Injective(m: map<PID, Entry>, target: set<nat>)
    requires forall p :: p in m ==> m[p].frame in target
    requires forall p, q :: p in m && q in m && m[p].frame == m[q].frame ==> p == q
    ensures |m.Keys| <= |target|
    decreases target
  {
    if p :| p in m {
      Injective(m - {p}, target - {m[p].frame});
      RemoveSize(m, p);
    }
  }

  lemma RemoveSize<K, V>(m: map<K, V>, k: K)
    requires k in m
    ensures |(m - {k}).Keys| == |m.Keys| - 1
  {
    assert (m - {k}).Keys == m.Keys - {k};
  }

  ghost function Elements(s: seq<nat>): (t: set<nat>)
    ensures forall x :: x in t <==> x in s
    ensures (forall i, j :: 0 <= i < j < |s| ==> s[i] != s[j]) ==> |t| == |s|
  {
    if s == [] then {} else Elements(s[..|s| - 1]) + {s[|s| - 1]}
  }

  ghost function Below(n: nat): (t: set<nat>)
    ensures forall x: nat :: x in t <==> x < n
    ensures |t| == n
  {
    if n == 0 then {} else Below(n - 1) + {n - 1}
  }
}
