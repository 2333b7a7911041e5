/** A buffer control block: the metadata of one cached page and the lock that protects it. */
module BufferControlBlocks {
  import opened PageTypes

  datatype LockMode = NoType | NoLock | Shared | Exclusive

  /** The mutex (at most one writer, or any number of readers) and what the block records about it. */
  datatype LockState = LockState(mode: LockMode, fixCount: nat, writer: bool, readers: nat) {
    /** The metadata tells who holds the mutex: this is what Unlock relies on. */
    ghost predicate Ok() {
      && (mode == Exclusive <==> writer)
      && (mode == Shared <==> readers > 0)
      && !(writer && readers > 0)
      && fixCount == (if writer then 1 else readers)
    }

    /** Whether a request in mode m is granted at once. */
    predicate Grants(m: LockMode) {
      match m
      case Exclusive => !writer && readers == 0
      case Shared => !writer
      case _ => true
    }

    /** One more holder in mode m. */
    ghost function Locked(m: LockMode): LockState {
      match m
      case Exclusive => XLock
      case Shared => SLock(readers + 1)
      case _ => this
    }

    /** One holder fewer: the writer if there is one, else a reader if there is one. */
    ghost function Released(): LockState {
      if readers > 1 then SLock(readers - 1) else Unlocked
    }
  }

  function SLock(n: nat): LockState {
    LockState(Shared, n, false, n)
  }

  const XLock: LockState := LockState(Exclusive, 1, true, 0)
  const Unlocked: LockState := LockState(NoLock, 0, false, 0)

  /** The fields of a block. */
  datatype Meta = Meta(pid: PID, frame: nat, modified: bool, next: BCB?, lock: LockState)

  class BCB {
    var pageID: PID
    var frameIndex: nat
    var mode: LockMode
    var modified: bool
    var fixCount: nat
    var next: BCB?

    // The shared_mutex: at most one writer, or any number of readers.
    var writer: bool
    var readers: nat

    constructor ()
      ensures pageID == PID(0, 0) && frameIndex == INVALID && next == null
      ensures !modified && LockStatus() == LockState(NoType, 0, false, 0)
    {
      pageID, frameIndex, mode, modified, fixCount := PID(0, 0), INVALID, NoType, false, 0;
      next, writer, readers := null, false, 0;
    }

    /** The metadata tells who holds the mutex: this is what Unlock relies on. */
    ghost function LockStatus(): LockState
      reads this`mode, this`fixCount, this`writer, this`readers
    {
      LockState(mode, fixCount, writer, readers)
    }

    /** Whether a lock request in the given mode is granted at once. */
    predicate Grants(m: LockMode)
      reads this
    {
      LockState(mode, fixCount, writer, readers).Grants(m)
    }

    method LockExclusive()
      requires LockStatus().Ok() && Grants(Exclusive)
      modifies this`mode, this`fixCount, this`writer
      ensures LockStatus() == XLock
    {
      writer := true;
      mode := Exclusive;
      fixCount := 1;
    }

    method TryLock() returns (ok: bool)
      requires LockStatus().Ok()
      modifies this`mode, this`fixCount, this`writer
      ensures ok == old(Grants(Exclusive))
      ensures LockStatus() == if ok then XLock else old(LockStatus())
    {
      ok := !writer && readers == 0;
      if ok {
        writer := true;
        mode := Exclusive;
        fixCount := 1;
      }
    }

    method LockShared()
      requires LockStatus().Ok() && Grants(Shared)
      modifies this`mode, this`fixCount, this`readers
      ensures LockStatus() == SLock(old(readers) + 1)
    {
      readers := readers + 1;
      mode := Shared;
      fixCount := fixCount + 1;
    }

    method Lock(m: LockMode)
      requires LockStatus().Ok() && m != NoType && Grants(m)
      modifies this`mode, this`fixCount, this`writer, this`readers
      ensures LockStatus() == old(LockStatus()).Locked(m) && LockStatus().Ok()
    {
      match m
      case NoLock =>
      case Shared => LockShared();
      case Exclusive => LockExclusive();
    }

    /** Releases the kind of lock that is held, chosen by the recorded mode alone. */
    method Unlock()
      requires LockStatus().Ok() && mode != NoType
      modifies this`mode, this`fixCount, this`writer, this`readers
      ensures LockStatus() == old(LockStatus()).Released() && LockStatus().Ok()
    {
      match mode
      case NoLock =>
      case Shared =>
        fixCount := fixCount - 1;
        if fixCount == 0 {
          mode := NoLock;
        }
        readers := readers - 1;
      case Exclusive =>
        fixCount := fixCount - 1;
        mode := NoLock;
        writer := false;
    }
  }

  // ----- chains of control blocks -----

  type Chain = seq<BCB>

  function Head(c: Chain): BCB? {
    if c == [] then null else c[0]
  }

  function Succ(c: Chain, i: nat): BCB?
    requires i < |c|
  {
    if i + 1 < |c| then c[i + 1] else null
  }

  ghost function Remove(c: Chain, i: nat): (r: Chain)
    requires i < |c|
    ensures |r| == |c| - 1
    ensures forall k :: 0 <= k < |r| ==> r[k] == c[if k < i then k else k + 1]
  {
    c[..i] + c[i + 1..]
  }

  // ----- where each block is linked -----

  datatype Place = Bucket(h: nat) | Free

  /** Every block of `home` is in exactly one place, once: in the chain of a bucket or in the free list. */
  ghost predicate Homed(chains: seq<Chain>, free: Chain, home: map<BCB, Place>) {
    && (forall h, i {:trigger chains[h][i]} :: 0 <= h < |chains| && 0 <= i < |chains[h]| ==>
          chains[h][i] in home && home[chains[h][i]] == Bucket(h))
    && (forall i :: 0 <= i < |free| ==> free[i] in home && home[free[i]] == Free)
    && (forall h :: 0 <= h < |chains| ==> NoDup(chains[h]))
    && NoDup(free)
    && (forall b {:trigger Listed(chains, free, home, b)} :: b in home ==> Listed(chains, free, home, b))
  }

  /** Block b is where `home` says it is. */
  ghost predicate Listed(chains: seq<Chain>, free: Chain, home: map<BCB, Place>, b: BCB)
    requires b in home
  {
    match home[b]
    case Free => b in free
    case Bucket(h) => h < |chains| && b in chains[h]
  }

  lemma HomedPush(chains: seq<Chain>, free: Chain, home: map<BCB, Place>, h: nat, b: BCB)
    requires Homed(chains, free, home) && h < |chains| && b !in home
    ensures Homed(chains[h := [b] + chains[h]], free, home[b := Bucket(h)])
    ensures Homed(chains, [b] + free, home[b := Free])
  {
    forall c | c in home || c == b
      ensures Listed(chains[h := [b] + chains[h]], free, home[b := Bucket(h)], c)
      ensures Listed(chains, [b] + free, home[b := Free], c)
    {
      assert c in home ==> Listed(chains, free, home, c);
    }
  }

  lemma HomedUnlink(chains: seq<Chain>, free: Chain, home: map<BCB, Place>, h: nat, i: nat)
    requires Homed(chains, free, home) && h < |chains| && i < |chains[h]|
    ensures Homed(chains[h := Remove(chains[h], i)], free, home - {chains[h][i]})
  {
    var c, r := chains[h], Remove(chains[h], i);
    forall b | b in c && b != c[i]
      ensures b in r
    {
      var k :| 0 <= k < |c| && c[k] == b;
      assert r[if k < i then k else k - 1] == b;
    }
    forall b | b in home - {c[i]}
      ensures Listed(chains[h := r], free, home - {c[i]}, b)
    {
      assert Listed(chains, free, home, b);
    }
  }

  lemma HomedPop(chains: seq<Chain>, free: Chain, home: map<BCB, Place>)
    requires Homed(chains, free, home) && free != []
    ensures Homed(chains, free[1..], home - {free[0]})
  {
    forall b | b in home - {free[0]}
      ensures Listed(chains, free[1..], home - {free[0]}, b)
    {
      assert Listed(chains, free, home, b);
    }
  }
}
