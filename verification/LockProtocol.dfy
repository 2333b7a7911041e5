/** The locking of one buffer control block by many threads; a step is a mutex operation with its metadata update. */
module LockProtocol {
  import opened BufferControlBlocks
  import opened PageTypes

  type Thread = nat

  const SIZE_MAX: nat := 0xFFFF_FFFF_FFFF_FFFF

  /** Who holds the mutex, who has released it in order to upgrade, and what the block records. */
  datatype State = State(
    readers: set<Thread>,
    writer: Option<Thread>,
    upgraders: set<Thread>,
    mode: LockMode,
    fixCount: nat)

  const Initial := State({}, None, {}, NoType, 0)

  datatype Event =
    | Lock(t: Thread)            // lock, or a try_lock that succeeds
    | LockShared(t: Thread)      // lock_shared, or a try_lock_shared that succeeds
    | TryFails(t: Thread)        // try_lock that fails
    | TrySharedFails(t: Thread)  // try_lock_shared that fails
    | Unlock(t: Thread)
    | UpgradeRelease(t: Thread)  // upgradeLock(kEXCLUSIVE) from shared, first half
    | UpgradeAcquire(t: Thread)  // and second half

  /** --n on a size_t. */
  function Decr(n: nat): nat {
    if n == 0 then SIZE_MAX else n - 1
  }

  ghost predicate Idle(s: State, t: Thread) {
    t !in s.readers && s.writer != Some(t) && t !in s.upgraders
  }

  /** What Unlock does when called by thread t: the recorded mode alone decides which lock is given back. */
  function DoUnlock(s: State, t: Thread): State {
    match s.mode
    case Shared =>
      var n := Decr(s.fixCount);
      s.(fixCount := n, mode := if n == 0 then NoLock else Shared, readers := s.readers - {t})
    case Exclusive => s.(fixCount := Decr(s.fixCount), mode := NoLock, writer := None)
    case _ => s
  }

  ghost predicate Step(s: State, e: Event, s': State) {
    match e
    case Lock(t) =>
      && Idle(s, t) && s.readers == {} && s.writer == None
      && s' == s.(writer := Some(t), mode := Exclusive, fixCount := 1)
    case LockShared(t) =>
      && Idle(s, t) && s.writer == None && s.fixCount < SIZE_MAX
      && s' == s.(readers := s.readers + {t}, mode := Shared, fixCount := s.fixCount + 1)
    case TryFails(t) =>
      && Idle(s, t) && (s.readers != {} || s.writer != None) && s' == s
    case TrySharedFails(t) =>
      && Idle(s, t) && s.writer != None && s' == s
    case Unlock(t) =>
      && (t in s.readers || s.writer == Some(t)) && s' == DoUnlock(s, t)
    case UpgradeRelease(t) =>
      && t in s.readers && s' == s.(readers := s.readers - {t}, upgraders := s.upgraders + {t})
    case UpgradeAcquire(t) =>
      && t in s.upgraders && s.readers == {} && s.writer == None
      && s' == s.(writer := Some(t), upgraders := s.upgraders - {t}, mode := Exclusive, fixCount := 1)
  }

  ghost predicate Inv(s: State) {
    && (s.mode == Exclusive <==> s.writer != None)
    && (s.writer != None ==> s.readers == {} && s.fixCount == 1 && s.writer.value !in s.upgraders)
    && (s.readers != {} ==> s.mode == Shared)
    && s.readers !! s.upgraders
    && (s.writer == None ==> |s.readers| <= s.fixCount <= |s.readers| + |s.upgraders|)
    && (s.writer == None ==> (s.mode == Shared <==> s.fixCount > 0))
  }

  /** A run from the initial state. */
  ghost predicate Run(states: seq<State>, events: seq<Event>) {
    && |states| == |events| + 1 && states[0] == Initial
    && forall k :: 0 <= k < |events| ==> Step(states[k], events[k], states[k + 1])
  }

  lemma InvStep(s: State, e: Event, s': State)
    requires Inv(s) && Step(s, e, s')
    ensures Inv(s')
  {
    match e
    case Lock(t) =>
    case LockShared(t) => assert |s'.readers| == |s.readers| + 1;
    case TryFails(t) =>
    case TrySharedFails(t) =>
    case Unlock(t) => if t in s.readers { Shrink(s.readers, t); }
    case UpgradeRelease(t) =>
      Shrink(s.readers, t);
      assert |s'.upgraders| == |s.upgraders| + 1;
    case UpgradeAcquire(t) =>
  }

  lemma Shrink(a: set<Thread>, t: Thread)
    requires t in a
    ensures |a - {t}| == |a| - 1
  {
  }

  /** The invariant holds in every reachable state, whatever the interleaving. */
  lemma {:induction false} Always(states: seq<State>, events: seq<Event>, k: nat)
    requires Run(states, events) && k <= |events|
    ensures Inv(states[k])
  {
    if k > 0 {
      Always(states, events, k - 1);
      InvStep(states[k - 1], events[k - 1], states[k]);
    }
  }

  /** Unlock gives back exactly the lock its caller holds, and fixCount never wraps below zero. */
  lemma UnlockReleasesOwn(states: seq<State>, events: seq<Event>, k: nat, t: Thread)
    requires Run(states, events) && k < |events| && events[k] == Unlock(t)
    ensures states[k].fixCount > 0 && states[k + 1].fixCount == states[k].fixCount - 1
    ensures t in states[k].readers ==>
      states[k + 1].readers == states[k].readers - {t} && states[k + 1].writer == None == states[k].writer
    ensures t !in states[k].readers ==>
      states[k].writer == Some(t) && states[k + 1].writer == None && states[k + 1].readers == {}
  {
    Always(states, events, k);
    assert Step(states[k], events[k], states[k + 1]);
    if t in states[k].readers {
      Shrink(states[k].readers, t);
    }
  }

  /** Exclusion: a writer is alone, and the block's mode names the kind of lock that is held. */
  lemma Exclusion(states: seq<State>, events: seq<Event>, k: nat, t: Thread)
    requires Run(states, events) && k <= |events|
    ensures states[k].writer == Some(t) ==>
      states[k].readers == {} && states[k].mode == Exclusive && states[k].fixCount == 1
    ensures t in states[k].readers ==> states[k].writer == None && states[k].mode == Shared && states[k].fixCount > 0
  {
    Always(states, events, k);
    if t in states[k].readers {
      Shrink(states[k].readers, t);
    }
  }

  ghost predicate Enabled(s: State, e: Event) {
    exists s' :: Step(s, e, s')
  }

  /**
   * When a call can go through: an exclusive lock exactly while nobody holds the mutex, a shared lock exactly while
   * there is no writer, however many readers there are; a try fails exactly when the lock cannot be had; a holder
   * can always unlock, a reader always start an upgrade and finish it exactly while nobody holds the mutex.
   */
  lemma EnabledIff(s: State, t: Thread)
    requires Inv(s)
    ensures Enabled(s, Lock(t)) <==> Idle(s, t) && s.readers == {} && s.writer == None
    ensures Enabled(s, LockShared(t)) <==> Idle(s, t) && s.writer == None && s.fixCount < SIZE_MAX
    ensures Enabled(s, TryFails(t)) <==> Idle(s, t) && !(s.readers == {} && s.writer == None)
    ensures Enabled(s, TrySharedFails(t)) <==> Idle(s, t) && s.writer != None
    ensures Enabled(s, Unlock(t)) <==> t in s.readers || s.writer == Some(t)
    ensures Enabled(s, UpgradeRelease(t)) <==> t in s.readers
    ensures Enabled(s, UpgradeAcquire(t)) <==> t in s.upgraders && s.readers == {} && s.writer == None
  {
    LocksEnabled(s, t);
    HoldersEnabled(s, t);
  }

  lemma LocksEnabled(s: State, t: Thread)
    requires Inv(s)
    ensures Enabled(s, Lock(t)) <==> Idle(s, t) && s.readers == {} && s.writer == None
    ensures Enabled(s, LockShared(t)) <==> Idle(s, t) && s.writer == None && s.fixCount < SIZE_MAX
    ensures Enabled(s, TryFails(t)) <==> Idle(s, t) && !(s.readers == {} && s.writer == None)
    ensures Enabled(s, TrySharedFails(t)) <==> Idle(s, t) && s.writer != None
  {
    var x := s.(writer := Some(t), mode := Exclusive, fixCount := 1);
    var r := s.(readers := s.readers + {t}, mode := Shared, fixCount := s.fixCount + 1);
    assert Idle(s, t) && s.readers == {} && s.writer == None ==> Step(s, Lock(t), x);
    assert Idle(s, t) && s.writer == None && s.fixCount < SIZE_MAX ==> Step(s, LockShared(t), r);
    assert Idle(s, t) && !(s.readers == {} && s.writer == None) ==> Step(s, TryFails(t), s);
    assert Idle(s, t) && s.writer != None ==> Step(s, TrySharedFails(t), s);
  }

  lemma HoldersEnabled(s: State, t: Thread)
    requires Inv(s)
    ensures Enabled(s, Unlock(t)) <==> t in s.readers || s.writer == Some(t)
    ensures Enabled(s, UpgradeRelease(t)) <==> t in s.readers
    ensures Enabled(s, UpgradeAcquire(t)) <==> t in s.upgraders && s.readers == {} && s.writer == None
  {
    var u := s.(readers := s.readers - {t}, upgraders := s.upgraders + {t});
    var x := s.(writer := Some(t), upgraders := s.upgraders - {t}, mode := Exclusive, fixCount := 1);
    assert t in s.readers || s.writer == Some(t) ==> Step(s, Unlock(t), DoUnlock(s, t));
    assert t in s.readers ==> Step(s, UpgradeRelease(t), u);
    assert t in s.upgraders && s.readers == {} && s.writer == None ==> Step(s, UpgradeAcquire(t), x);
  }

  /** Who holds the lock and who waits for an upgrade after a call that went through; a failed try changes nothing. */
  lemma Holders(s: State, e: Event, s': State)
    requires Inv(s) && Step(s, e, s')
    ensures s'.readers ==
      match e
      case LockShared(t) => s.readers + {t}
      case Unlock(t) => s.readers - {t}
      case UpgradeRelease(t) => s.readers - {t}
      case _ => s.readers
    ensures s'.writer ==
      match e
      case Lock(t) => Some(t)
      case UpgradeAcquire(t) => Some(t)
      case Unlock(t) => if s.writer == Some(t) then None else s.writer
      case _ => s.writer
    ensures s'.upgraders ==
      match e
      case UpgradeRelease(t) => s.upgraders + {t}
      case UpgradeAcquire(t) => s.upgraders - {t}
      case _ => s.upgraders
    ensures e.TryFails? || e.TrySharedFails? ==> s' == s
  {
  }

  /** Two threads read together, and a third can lock exclusively once both have left. */
  lemma TwoReaders() returns (states: seq<State>, events: seq<Event>)
    ensures Run(states, events) && |events| == 5
    ensures states[2].readers == {0, 1} && states[2].fixCount == 2 && states[5].writer == Some(2)
  {
    events := [LockShared(0), LockShared(1), Unlock(0), Unlock(1), Lock(2)];
    var s1 := State({0}, None, {}, Shared, 1);
    var s2 := State({0, 1}, None, {}, Shared, 2);
    var s3 := State({1}, None, {}, Shared, 1);
    var s4 := State({}, None, {}, NoLock, 0);
    var s5 := State({}, Some(2), {}, Exclusive, 1);
    states := [Initial, s1, s2, s3, s4, s5];
    assert Step(Initial, events[0], s1);
    assert {0} + {1} == {0, 1} && {0, 1} - {0} == {1} && {1} - {1} == {};
    assert Step(s1, events[1], s2);
    assert Step(s2, events[2], s3);
    assert Step(s3, events[3], s4);
    assert Step(s4, events[4], s5);
  }

  /** When everybody has left, the block is unlocked and unfixed. */
  lemma QuiescentIsUnfixed(states: seq<State>, events: seq<Event>, k: nat)
    requires Run(states, events) && k <= |events|
    requires states[k].readers == {} && states[k].writer == None && states[k].upgraders == {}
    ensures states[k].fixCount == 0 && (states[k].mode == NoLock || states[k].mode == NoType)
  {
    Always(states, events, k);
  }

  /** What one block object records and holds, while no upgrade is under way. */
  ghost function View(s: State): LockState {
    LockState(s.mode, s.fixCount, s.writer != None, |s.readers|)
  }

  /** Without pending upgrades the steps are those of the block's own methods. */
  lemma SequentialView(s: State, e: Event, s': State)
    requires Inv(s) && Step(s, e, s') && s.upgraders == {} && s'.upgraders == {}
    ensures View(s).Ok() && View(s').Ok()
    ensures View(s).Grants(Exclusive) <==> s.readers == {} && s.writer == None
    ensures View(s).Grants(Shared) <==> s.writer == None
    ensures e.Lock? ==> View(s).Grants(Exclusive) && View(s') == View(s).Locked(Exclusive)
    ensures e.LockShared? ==> View(s).Grants(Shared) && View(s') == View(s).Locked(Shared)
    ensures e.Unlock? ==> View(s') == View(s).Released()
  {
    InvStep(s, e, s');
    match e
    case LockShared(t) => assert |s'.readers| == |s.readers| + 1;
    case Unlock(t) => if t in s.readers { Shrink(s.readers, t); }
    case _ =>
  }

  // ----- the eviction test of the buffer manager -----

  /** The test passes: fixCount was read as 0, and later try_lock succeeds for the evicting thread. */
  ghost predicate EvictionTest(states: seq<State>, events: seq<Event>, i: nat, k: nat, t: Thread) {
    i <= k < |events| && |states| == |events| + 1 && states[i].fixCount == 0 && events[k] == Lock(t)
  }

  /** A block that passes the test is held by nobody else, both when fixCount is read and when it is locked. */
  lemma EvictionSparesHolders(states: seq<State>, events: seq<Event>, i: nat, k: nat, t: Thread)
    requires Run(states, events) && EvictionTest(states, events, i, k, t)
    ensures states[i].readers == {} && states[i].writer == None
    ensures states[k].readers == {} && states[k].writer == None && states[k + 1].writer == Some(t)
  {
    Always(states, events, i);
    assert Step(states[k], events[k], states[k + 1]);
  }

  predicate TakesExclusive(e: Event) {
    e.Lock? || e.UpgradeAcquire?
  }

  /** The threads that have released their lock to upgrade it since the block was last locked exclusively. */
  ghost function Guarded(events: seq<Event>): set<Thread> {
    if events == [] then {}
    else
      var e := events[|events| - 1];
      if TakesExclusive(e) then {}
      else if e.UpgradeRelease? then Guarded(events[..|events| - 1]) + {e.t}
      else Guarded(events[..|events| - 1])
  }

  lemma GuardedLast(events: seq<Event>, k: nat)
    requires k < |events|
    ensures Guarded(events[..k + 1]) ==
      if TakesExclusive(events[k]) then {}
      else Guarded(events[..k]) + (if events[k].UpgradeRelease? then {events[k].t} else {})
  {
    assert events[..k + 1][..k] == events[..k];
  }

  /** A thread is guarded after k events if it released its lock and nobody has locked exclusively since. */
  lemma {:induction false} GuardedSince(events: seq<Event>, k: nat, t: Thread)
    requires k <= |events|
    ensures t in Guarded(events[..k]) <==>
      exists i :: 0 <= i < k && events[i] == UpgradeRelease(t) && forall j :: i < j < k ==> !TakesExclusive(events[j])
  {
    if k > 0 {
      GuardedLast(events, k - 1);
      GuardedSince(events, k - 1, t);
      if t in Guarded(events[..k]) && events[k - 1] != UpgradeRelease(t) {
        var i :| 0 <= i < k - 1 && events[i] == UpgradeRelease(t)
          && forall j :: i < j < k - 1 ==> !TakesExclusive(events[j]);
        assert forall j :: i < j < k ==> !TakesExclusive(events[j]);
      }
    }
  }

  /** In every reachable state fixCount counts the lock's holders and the guarded upgrades, and nothing else. */
  lemma {:induction false} CountIs(states: seq<State>, events: seq<Event>, k: nat)
    requires Run(states, events) && k <= |events|
    ensures Guarded(events[..k]) <= states[k].upgraders
    ensures states[k].writer == None ==> states[k].fixCount == |states[k].readers| + |Guarded(events[..k])|
    ensures states[k].writer != None ==> states[k].fixCount == 1 && Guarded(events[..k]) == {}
  {
    if k > 0 {
      Always(states, events, k - 1);
      CountIs(states, events, k - 1);
      GuardedLast(events, k - 1);
      CountStep(states[k - 1], events[k - 1], states[k], Guarded(events[..k - 1]), Guarded(events[..k]));
    }
  }

  lemma CountStep(s: State, e: Event, s': State, c: set<Thread>, c': set<Thread>)
    requires Inv(s) && Step(s, e, s') && c <= s.upgraders
    requires s.writer == None ==> s.fixCount == |s.readers| + |c|
    requires s.writer != None ==> s.fixCount == 1 && c == {}
    requires c' == if TakesExclusive(e) then {} else c + (if e.UpgradeRelease? then {e.t} else {})
    ensures c' <= s'.upgraders
    ensures s'.writer == None ==> s'.fixCount == |s'.readers| + |c'|
    ensures s'.writer != None ==> s'.fixCount == 1 && c' == {}
  {
    match e
    case Lock(t) =>
    case LockShared(t) => assert |s'.readers| == |s.readers| + 1;
    case TryFails(t) =>
    case TrySharedFails(t) =>
    case Unlock(t) => if t in s.readers { Shrink(s.readers, t); }
    case UpgradeRelease(t) =>
      Shrink(s.readers, t);
      assert t !in c && |c'| == |c| + 1;
    case UpgradeAcquire(t) =>
  }

  /**
     A thread about to evict finds fixCount 0 exactly when nobody holds the lock and no pending upgrade released
     its lock after the last exclusive acquisition: just these upgrades are safe from losing their page.
   */
  lemma EvictableIff(states: seq<State>, events: seq<Event>, k: nat)
    requires Run(states, events) && k <= |events|
    ensures states[k].fixCount == 0 <==>
      states[k].writer == None && states[k].readers == {} && Guarded(events[..k]) == {}
  {
    CountIs(states, events, k);
  }

  /** The upgrade of thread t keeps the block from eviction until some thread locks it exclusively. */
  lemma UpgradeGuarded(states: seq<State>, events: seq<Event>, i: nat, k: nat, t: Thread)
    requires Run(states, events) && i < k <= |events| && events[i] == UpgradeRelease(t)
    requires forall j :: i < j < k ==> !TakesExclusive(events[j])
    ensures states[k].fixCount > |states[k].readers| && t in states[k].upgraders && states[k].writer == None
  {
    GuardedSince(events, k, t);
    CountIs(states, events, k);
  }

  /** It does not guard it any longer than that: a third thread's lock and unlock reset the count to 0. */
  lemma UpgradeCanLoseItsPage() returns (states: seq<State>, events: seq<Event>)
    ensures Run(states, events) && |events| == 5
    ensures 0 in states[5].upgraders && states[5].writer == Some(2)
    ensures EvictionTest(states, events, 4, 4, 2)
  {
    events := [LockShared(0), UpgradeRelease(0), Lock(1), Unlock(1), Lock(2)];
    var s1 := State({0}, None, {}, Shared, 1);
    var s2 := State({}, None, {0}, Shared, 1);
    var s3 := State({}, Some(1), {0}, Exclusive, 1);
    var s4 := State({}, None, {0}, NoLock, 0);
    var s5 := State({}, Some(2), {0}, Exclusive, 1);
    states := [Initial, s1, s2, s3, s4, s5];
    assert Step(Initial, events[0], s1);
    assert {0} - {0} == {};
    assert Step(s1, events[1], s2);
    assert Step(s2, events[2], s3);
    assert Step(s3, events[3], s4);
    assert Step(s4, events[4], s5);
  }
}
