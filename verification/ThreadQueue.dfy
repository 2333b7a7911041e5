/** The thread pool's job queue: a condition variable, worker threads and shutdown, as interleaved steps. */
module ThreadQueues {

  type Worker = nat
  type Job = nat

  /** Where a worker is. Jobs are named by their position in the order of submission. */
  datatype Phase =
    | AtLoop            // about to test _done
    | Entering          // about to take the mutex in waitPop
    | Sleeping          // blocked on the condition variable
    | Notified          // woken up, about to take the mutex again
    | Running(k: nat)   // executing the k-th job popped
    | Exited

  datatype State = State(
    queue: seq<Job>,
    valid: bool,
    done: bool,
    phase: map<Worker, Phase>,
    pushed: seq<Job>,
    popped: seq<Job>)

  datatype Event =
    | PushNotify(j: Job, w: Worker)   // push; notify_one wakes w
    | PushAlone(j: Job)               // push; nobody sleeps
    | TestDone(w: Worker)             // the loop condition of the worker
    | WaitPop(w: Worker)              // the test under the mutex: pop, give up or go to sleep
    | Spurious(w: Worker)             // a wake-up without a notification
    | Finish(w: Worker)               // the job returns
    | TryPop                          // by another thread
    | SetDone                         // destroy_all: first the flag,
    | Invalidate                      // then invalidate, which notifies all

  ghost function At(s: State, p: Phase): set<Worker> {
    set w | w in s.phase && s.phase[w] == p
  }

  function Move(s: State, w: Worker, p: Phase): State {
    s.(phase := s.phase[w := p])
  }

  function WakeAll(phase: map<Worker, Phase>): map<Worker, Phase> {
    map w | w in phase :: if phase[w] == Sleeping then Notified else phase[w]
  }

  /** The critical section of waitPop, entered for the first time or after a wake-up. */
  function DoWaitPop(s: State, w: Worker): State {
    if s.queue == [] && s.valid then
      Move(s, w, Sleeping)
    else if !s.valid then
      Move(s, w, AtLoop)
    else
      Move(s, w, Running(|s.popped|)).(queue := s.queue[1..], popped := s.popped + [s.queue[0]])
  }

  ghost predicate Step(s: State, e: Event, s': State) {
    match e
    case PushNotify(j, w) =>
      w in At(s, Sleeping) && s' == Move(s, w, Notified).(queue := s.queue + [j], pushed := s.pushed + [j])
    case PushAlone(j) =>
      At(s, Sleeping) == {} && s' == s.(queue := s.queue + [j], pushed := s.pushed + [j])
    case TestDone(w) =>
      w in At(s, AtLoop) && s' == Move(s, w, if s.done then Exited else Entering)
    case WaitPop(w) =>
      (w in At(s, Entering) || w in At(s, Notified)) && s' == DoWaitPop(s, w)
    case Spurious(w) =>
      w in At(s, Sleeping) && s' == Move(s, w, Notified)
    case Finish(w) =>
      w in s.phase && s.phase[w].Running? && s' == Move(s, w, AtLoop)
    case TryPop =>
      s' == if s.queue == [] || !s.valid then s else s.(queue := s.queue[1..], popped := s.popped + [s.queue[0]])
    case SetDone => s' == s.(done := true)
    case Invalidate => s.done && s' == s.(valid := false, phase := WakeAll(s.phase))
  }

  /** First in, first out, and each job once. */
  ghost predicate InOrder(s: State) {
    s.popped + s.queue == s.pushed
  }

  /** No wake-up is lost: if somebody sleeps, every waiting job has a notified worker of its own. */
  ghost predicate Awake(s: State) {
    s.valid && At(s, Sleeping) != {} ==> |s.queue| <= |At(s, Notified)|
  }

  /** Nobody is left asleep by the shutdown. */
  ghost predicate Shut(s: State) {
    !s.valid ==> s.done && At(s, Sleeping) == {}
  }

  /** No job is run by two workers, and only popped jobs are run. */
  ghost predicate Once(s: State) {
    && (forall w :: w in s.phase && s.phase[w].Running? ==> s.phase[w].k < |s.popped|)
    && (forall v, w :: v in s.phase && w in s.phase && s.phase[v].Running? && s.phase[v] == s.phase[w] ==> v == w)
  }

  /** Nobody leaves before the pool is done. */
  ghost predicate Stays(s: State) {
    forall w :: w in s.phase && s.phase[w] == Exited ==> s.done
  }

  ghost predicate Inv(s: State) {
    InOrder(s) && Awake(s) && Shut(s) && Once(s) && Stays(s)
  }

  ghost predicate Started(s: State) {
    s.queue == s.pushed == s.popped == [] && s.valid && !s.done && forall w :: w in s.phase ==> s.phase[w] == AtLoop
  }

  ghost predicate Run(states: seq<State>, events: seq<Event>) {
    && |states| == |events| + 1 && Started(states[0])
    && forall i :: 0 <= i < |events| ==> Step(states[i], events[i], states[i + 1])
  }

  lemma MoveAt(s: State, w: Worker, p: Phase, q: Phase)
    requires w in s.phase
    ensures At(Move(s, w, p), q) == if p == q then At(s, q) + {w} else At(s, q) - {w}
  {
  }

  lemma SamePhase(s: State, s': State)
    requires s.phase == s'.phase
    ensures forall p :: At(s, p) == At(s', p)
  {
  }

  /** A worker that changes phase, together with the jobs popped meanwhile. */
  lemma OnceMove(s: State, w: Worker, p: Phase, s': State)
    requires Once(s) && w in s.phase && s'.phase == s.phase[w := p] && |s.popped| <= |s'.popped|
    requires p.Running? ==> p.k == |s.popped| < |s'.popped|
    ensures Once(s')
  {
  }

  lemma InOrderStep(s: State, e: Event, s': State)
    requires InOrder(s) && Step(s, e, s')
    ensures InOrder(s') && |s.popped| <= |s'.popped|
  {
    hide At, WakeAll;
    if s.queue != [] {
      assert s.popped + s.queue == (s.popped + [s.queue[0]]) + s.queue[1..];
    }
  }

  lemma OnceStep(s: State, e: Event, s': State)
    requires InOrder(s) && Once(s) && Step(s, e, s')
    ensures Once(s')
  {
    InOrderStep(s, e, s');
    match e
    case PushNotify(_, w) => OnceMove(s, w, Notified, s');
    case TestDone(w) => OnceMove(s, w, s'.phase[w], s');
    case WaitPop(w) => OnceMove(s, w, s'.phase[w], s');
    case Spurious(w) => OnceMove(s, w, Notified, s');
    case Finish(w) => OnceMove(s, w, AtLoop, s');
    case _ =>
  }

  lemma AwakeMove(s: State, w: Worker, p: Phase, s': State)
    requires w in s.phase && s'.phase == s.phase[w := p]
    ensures At(s', Sleeping) == if p == Sleeping then At(s, Sleeping) + {w} else At(s, Sleeping) - {w}
    ensures At(s', Notified) == if p == Notified then At(s, Notified) + {w} else At(s, Notified) - {w}
  {
    MoveAt(s, w, p, Sleeping);
    MoveAt(s, w, p, Notified);
    SamePhase(Move(s, w, p), s');
  }

  lemma AwakeWaitPop(s: State, w: Worker)
    requires Awake(s) && Shut(s) && (w in At(s, Entering) || w in At(s, Notified))
    ensures Awake(DoWaitPop(s, w)) && Shut(DoWaitPop(s, w))
  {
    var s' := DoWaitPop(s, w);
    AwakeMove(s, w, s'.phase[w], s');
    hide At;
  }

  /** A worker that was awake moves, without going to sleep or being notified. */
  lemma AwakeSteps(s: State, w: Worker, s': State)
    requires Awake(s) && Shut(s) && w in s.phase && s.phase[w] != Notified && s'.valid == s.valid && s'.done == s.done
    requires w in s'.phase && s'.queue == s.queue && s'.phase == s.phase[w := s'.phase[w]] && s'.phase[w] != Sleeping
    ensures Awake(s') && Shut(s')
  {
    AwakeMove(s, w, s'.phase[w], s');
    NotAt(s, w);
    hide At;
  }

  lemma NotAt(s: State, w: Worker)
    requires w in s.phase && s.phase[w] != Notified
    ensures At(s, Notified) - {w} == At(s, Notified)
  {
  }

  lemma AwakePush(s: State, j: Job, w: Worker, s': State)
    requires Awake(s) && Shut(s) && Step(s, PushNotify(j, w), s')
    ensures Awake(s') && Shut(s')
  {
    AwakeMove(s, w, Notified, s');
    assert w !in At(s, Notified);
    hide At;
  }

  lemma AwakeStep(s: State, e: Event, s': State)
    requires Awake(s) && Shut(s) && Step(s, e, s')
    ensures Awake(s') && Shut(s')
  {
    match e
    case PushNotify(j, w) => AwakePush(s, j, w, s');
    case TestDone(w) => AwakeSteps(s, w, s');
    case WaitPop(w) => AwakeWaitPop(s, w);
    case Spurious(w) => AwakeSteps(s, w, s');
    case Finish(w) => AwakeSteps(s, w, s');
    case PushAlone(_) => SamePhase(s, s');
    case TryPop => SamePhase(s, s');
    case SetDone => SamePhase(s, s');
    case Invalidate =>
  }

  lemma StaysStep(s: State, e: Event, s': State)
    requires Stays(s) && Step(s, e, s')
    ensures Stays(s')
  {
    hide At;
  }

  lemma InvStep(s: State, e: Event, s': State)
    requires Inv(s) && Step(s, e, s')
    ensures Inv(s')
  {
    hide Step, Awake, Shut, Once, InOrder, Stays;
    StaysStep(s, e, s');
    InOrderStep(s, e, s');
    OnceStep(s, e, s');
    AwakeStep(s, e, s');
  }

  lemma {:induction false} Always(states: seq<State>, events: seq<Event>, i: nat)
    requires Run(states, events) && i <= |events|
    ensures Inv(states[i])
  {
    if i > 0 {
      Always(states, events, i - 1);
      InvStep(states[i - 1], events[i - 1], states[i]);
    }
  }

  /** Jobs leave in the order they came in: what has been popped is a prefix of what has been pushed. */
  lemma Fifo(states: seq<State>, events: seq<Event>, i: nat)
    requires Run(states, events) && i <= |events|
    ensures states[i].popped <= states[i].pushed && states[i].queue == states[i].pushed[|states[i].popped|..]
  {
    Always(states, events, i);
  }

  /**
   * While the pool runs and somebody sleeps, every waiting job has a notified worker coming for it; so a
   * waiting job never finds all workers asleep.
   */
  lemma NoLostWakeup(states: seq<State>, events: seq<Event>, i: nat)
    requires Run(states, events) && i <= |events|
    requires states[i].valid && states[i].queue != [] && states[i].phase != map[]
    ensures At(states[i], Sleeping) != {} ==> |states[i].queue| <= |At(states[i], Notified)|
    ensures exists w ::
      w in states[i].phase && states[i].phase[w] != Sleeping && (states[i].done || states[i].phase[w] != Exited)
  {
    Always(states, events, i);
    var s := states[i];
    var v :| v in s.phase;
    if s.phase[v] == Sleeping {
      assert v in At(s, Sleeping);
      assert |At(s, Notified)| > 0;
      var w :| w in At(s, Notified);
    }
  }

  // ----- what a step does, and when it can be taken -----

  /** All workers but w are where they were. */
  ghost predicate OthersStay(s: State, s': State, w: Worker) {
    s'.phase.Keys == s.phase.Keys && forall v :: v in s.phase && v != w ==> s'.phase[v] == s.phase[v]
  }

  /**
   * A worker in waitPop takes the first job and runs it if the queue is valid and has one; it goes to sleep if the
   * queue is valid and empty, and returns without a job if the queue is invalid. Nothing else changes.
   */
  lemma WaitPopTakes(s: State, w: Worker, s': State)
    requires Step(s, WaitPop(w), s')
    ensures w in s'.phase && OthersStay(s, s', w)
    ensures s'.valid == s.valid && s'.done == s.done && s'.pushed == s.pushed
    ensures s.valid && s.queue != [] ==>
      s'.popped == s.popped + [s.queue[0]] && s'.queue == s.queue[1..] && s'.phase[w] == Running(|s.popped|)
    ensures !(s.valid && s.queue != []) ==>
      s'.popped == s.popped && s'.queue == s.queue && s'.phase[w] == if s.valid then Sleeping else AtLoop
  {
  }

  /** The k-th job that a worker runs is the k-th job that was submitted. */
  lemma RunsSubmitted(states: seq<State>, events: seq<Event>, i: nat, w: Worker)
    requires Run(states, events) && i <= |events| && w in states[i].phase && states[i].phase[w].Running?
    ensures var k := states[i].phase[w].k;
      k < |states[i].popped| <= |states[i].pushed| && states[i].popped[k] == states[i].pushed[k]
  {
    Always(states, events, i);
    assert states[i].pushed[..|states[i].popped|] == states[i].popped;
  }

  /** The loop condition lets a worker leave exactly if the pool is done; the end of a job takes it back there. */
  lemma LoopStep(s: State, w: Worker, s': State)
    requires Step(s, TestDone(w), s') || Step(s, Finish(w), s') || Step(s, Spurious(w), s')
    ensures w in s.phase && w in s'.phase && OthersStay(s, s', w) && s' == s.(phase := s'.phase)
    ensures s.phase[w] == AtLoop ==> s'.phase[w] == if s.done then Exited else Entering
    ensures s.phase[w].Running? ==> s'.phase[w] == AtLoop
    ensures s.phase[w] == Sleeping ==> s'.phase[w] == Notified
  {
  }

  /** A submitted job is the last in the queue, and wakes one sleeper exactly if there is one. */
  lemma PushStep(s: State, j: Job, w: Worker, s': State)
    requires Step(s, PushAlone(j), s') || Step(s, PushNotify(j, w), s')
    ensures s'.queue == s.queue + [j] && s'.pushed == s.pushed + [j] && s'.popped == s.popped
    ensures s'.valid == s.valid && s'.done == s.done
    ensures if At(s, Sleeping) == {} then s'.phase == s.phase
            else w in At(s, Sleeping) && w in s'.phase && s'.phase[w] == Notified && OthersStay(s, s', w)
  {
  }

  /** The commands of other threads: tryPop takes the first job of a valid queue, invalidate wakes everybody. */
  lemma CommandStep(s: State, e: Event, s': State)
    requires Step(s, e, s') && (e == TryPop || e == SetDone || e == Invalidate)
    ensures s'.pushed == s.pushed && s'.phase.Keys == s.phase.Keys
    ensures e == TryPop && s.valid && s.queue != [] ==>
      s'.popped == s.popped + [s.queue[0]] && s'.queue == s.queue[1..]
    ensures !(e == TryPop && s.valid && s.queue != []) ==> s'.popped == s.popped && s'.queue == s.queue
    ensures s'.done == (s.done || e == SetDone) && s'.valid == (s.valid && e != Invalidate)
    ensures forall w :: w in s.phase ==>
      s'.phase[w] == if e == Invalidate && s.phase[w] == Sleeping then Notified else s.phase[w]
  {
  }

  ghost predicate Enabled(s: State, e: Event) {
    exists s' :: Step(s, e, s')
  }

  /** Every step can be taken exactly when the caller is at that place, and pushing notifies whenever it can. */
  lemma EnabledIff(s: State, j: Job, w: Worker)
    ensures Enabled(s, TestDone(w)) <==> w in s.phase && s.phase[w] == AtLoop
    ensures Enabled(s, WaitPop(w)) <==> w in s.phase && (s.phase[w] == Entering || s.phase[w] == Notified)
    ensures Enabled(s, Spurious(w)) <==> w in s.phase && s.phase[w] == Sleeping
    ensures Enabled(s, Finish(w)) <==> w in s.phase && s.phase[w].Running?
    ensures Enabled(s, PushNotify(j, w)) <==> w in s.phase && s.phase[w] == Sleeping
    ensures Enabled(s, PushAlone(j)) <==> forall v :: v in s.phase ==> s.phase[v] != Sleeping
    ensures Enabled(s, TryPop) && Enabled(s, SetDone) && (Enabled(s, Invalidate) <==> s.done)
  {
    EnabledWorker(s, w);
    EnabledOther(s, j, w);
  }

  lemma EnabledWorker(s: State, w: Worker)
    ensures Enabled(s, TestDone(w)) <==> w in s.phase && s.phase[w] == AtLoop
    ensures Enabled(s, WaitPop(w)) <==> w in s.phase && (s.phase[w] == Entering || s.phase[w] == Notified)
    ensures Enabled(s, Spurious(w)) <==> w in s.phase && s.phase[w] == Sleeping
    ensures Enabled(s, Finish(w)) <==> w in s.phase && s.phase[w].Running?
  {
    if w in s.phase {
      match s.phase[w]
      case AtLoop => assert Step(s, TestDone(w), Move(s, w, if s.done then Exited else Entering));
      case Entering => assert Step(s, WaitPop(w), DoWaitPop(s, w));
      case Notified => assert Step(s, WaitPop(w), DoWaitPop(s, w));
      case Sleeping => assert Step(s, Spurious(w), Move(s, w, Notified));
      case Running(_) => assert Step(s, Finish(w), Move(s, w, AtLoop));
      case Exited =>
    }
  }

  lemma EnabledOther(s: State, j: Job, w: Worker)
    ensures Enabled(s, PushNotify(j, w)) <==> w in s.phase && s.phase[w] == Sleeping
    ensures Enabled(s, PushAlone(j)) <==> forall v :: v in s.phase ==> s.phase[v] != Sleeping
    ensures Enabled(s, TryPop) && Enabled(s, SetDone) && (Enabled(s, Invalidate) <==> s.done)
  {
    if w in s.phase && s.phase[w] == Sleeping {
      assert Step(s, PushNotify(j, w), Move(s, w, Notified).(queue := s.queue + [j], pushed := s.pushed + [j]));
    }
    if At(s, Sleeping) == {} {
      forall v | v in s.phase ensures s.phase[v] != Sleeping {
        assert v !in At(s, Sleeping);
      }
      assert Step(s, PushAlone(j), s.(queue := s.queue + [j], pushed := s.pushed + [j]));
    } else {
      var v :| v in At(s, Sleeping);
    }
    assert Step(s, TryPop, if s.queue == [] || !s.valid then s
                           else s.(queue := s.queue[1..], popped := s.popped + [s.queue[0]]));
    assert Step(s, SetDone, s.(done := true));
    if s.done {
      assert Step(s, Invalidate, s.(valid := false, phase := WakeAll(s.phase)));
    }
  }

  // ----- progress -----

  /** How many steps a worker that is not asleep, running or gone is away from its next job. */
  function Away(p: Phase): nat {
    if p == AtLoop then 2 else 1
  }

  /** Step k is worker w starting the job that was first in the queue. */
  ghost predicate Starts(states: seq<State>, events: seq<Event>, k: nat, w: Worker) {
    && k < |events| < |states| && events[k] == WaitPop(w) && states[k].queue != []
    && w in states[k + 1].phase && states[k + 1].phase[w] == Running(|states[k].popped|)
    && states[k + 1].popped == states[k].popped + [states[k].queue[0]]
  }

  /**
   * While jobs are waiting and the pool is running, a worker that is awake and has no job starts one within two
   * steps of its own, whatever the others do.
   */
  lemma {:induction false} StartsSoon(states: seq<State>, events: seq<Event>, i: nat, j: nat, w: Worker)
    requires Run(states, events) && i <= j <= |events| && w in states[i].phase
    requires states[i].phase[w] == AtLoop || states[i].phase[w] == Entering || states[i].phase[w] == Notified
    requires forall k :: i <= k < j ==> states[k].valid && !states[k].done && states[k].queue != []
    requires StepsOf(events, i, j, w) >= Away(states[i].phase[w])
    ensures exists k :: i <= k < j && Starts(states, events, k, w)
    decreases j - i
  {
    assert i < j;
    assert Step(states[i], events[i], states[i + 1]);
    StepsFirst(events, i, j, w);
    if By(events[i], w) {
      if events[i] == WaitPop(w) {
        WaitPopTakes(states[i], w, states[i + 1]);
        assert Starts(states, events, i, w);
      } else {
        LoopStep(states[i], w, states[i + 1]);
        StartsSoon(states, events, i + 1, j, w);
      }
    } else {
      NotMine(states[i], events[i], states[i + 1], w);
      StartsSoon(states, events, i + 1, j, w);
    }
  }

  /** A step of somebody else does not move a worker that is awake. */
  lemma NotMine(s: State, e: Event, s': State, w: Worker)
    requires Step(s, e, s') && !By(e, w) && w in s.phase && s.phase[w] != Sleeping
    ensures w in s'.phase && s'.phase[w] == s.phase[w]
  {
  }

  lemma {:induction false} StepsFirst(events: seq<Event>, i: nat, j: nat, w: Worker)
    requires i < j <= |events|
    ensures StepsOf(events, i, j, w) == (if By(events[i], w) then 1 else 0) + StepsOf(events, i + 1, j, w)
    decreases j
  {
    if i + 1 < j {
      StepsFirst(events, i, j - 1, w);
    }
  }

  // ----- shutdown -----

  /** How many steps of its own a worker may still take once the queue is invalid. */
  function Rank(p: Phase): nat {
    match p
    case Exited => 0
    case AtLoop => 1
    case _ => 2
  }

  predicate By(e: Event, w: Worker) {
    e == TestDone(w) || e == WaitPop(w) || e == Spurious(w) || e == Finish(w)
  }

  /** How many of the events i, .., j - 1 are steps of w. */
  function StepsOf(events: seq<Event>, i: nat, j: nat, w: Worker): nat
    requires i <= j <= |events|
  {
    if i == j then 0 else StepsOf(events, i, j - 1, w) + if By(events[j - 1], w) then 1 else 0
  }

  lemma DrainStep(s: State, e: Event, s': State, w: Worker)
    requires Inv(s) && Step(s, e, s') && !s.valid && w in s.phase
    ensures !s'.valid && s'.popped == s.popped && w in s'.phase
    ensures Rank(s'.phase[w]) + (if By(e, w) then 1 else 0) <= Rank(s.phase[w])
  {
    assert At(s, Sleeping) == {};
    assert s.phase[w] == Sleeping ==> w in At(s, Sleeping);
  }

  /** After invalidate nobody sleeps, no further job starts, and each worker takes at most two more steps. */
  lemma {:induction false} Drain(states: seq<State>, events: seq<Event>, i: nat, j: nat, w: Worker)
    requires Run(states, events) && i <= j <= |events| && !states[i].valid && w in states[i].phase
    ensures !states[j].valid && At(states[j], Sleeping) == {} && states[j].popped == states[i].popped
    ensures w in states[j].phase
    ensures StepsOf(events, i, j, w) + Rank(states[j].phase[w]) <= Rank(states[i].phase[w]) <= 2
    decreases j - i
  {
    hide Step, Inv, At, Run, Rank, By;
    InvAt(states, events, j);
    if i < j {
      Drain(states, events, i, j - 1, w);
      InvAt(states, events, j - 1);
      DrainStep(states[j - 1], events[j - 1], states[j], w);
    } else {
      RankBound(states[i].phase[w]);
    }
  }

  lemma InvAt(states: seq<State>, events: seq<Event>, k: nat)
    requires Run(states, events) && k <= |events|
    ensures |states| == |events| + 1 && Inv(states[k])
    ensures !states[k].valid ==> At(states[k], Sleeping) == {}
    ensures k < |events| ==> Step(states[k], events[k], states[k + 1])
  {
    Always(states, events, k);
  }

  lemma RankBound(p: Phase)
    ensures Rank(p) <= 2
  {
  }

  /** And it is never stuck before it has exited: its next step is enabled (a running job may return). */
  lemma NotStuck(s: State, w: Worker)
    requires Inv(s) && !s.valid && w in s.phase && s.phase[w] != Exited
    ensures exists e, s' :: By(e, w) && Step(s, e, s')
  {
    assert s.phase[w] == Sleeping ==> w in At(s, Sleeping);
    if s.phase[w] == AtLoop {
      assert Step(s, TestDone(w), Move(s, w, Exited)) && By(TestDone(w), w);
    } else if s.phase[w].Running? {
      assert Step(s, Finish(w), Move(s, w, AtLoop)) && By(Finish(w), w);
    } else {
      assert Step(s, WaitPop(w), DoWaitPop(s, w)) && By(WaitPop(w), w);
    }
  }
}
