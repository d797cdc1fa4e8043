/** threads/thread.cc, scheduler.cc and the semaphores of synch.cc: which thread runs, which wait, and for what. */
module Threads {

  type ThreadId = nat
  type SemId = nat

  datatype ThreadStatus = JUST_CREATED | RUNNING | READY | BLOCKED

  /** Where a thread stands in the kernel: outside the semaphores, in the waiting loop of P, or past Finish. */
  datatype Place = Outside | InP(sem: SemId) | Ended
  datatype Thread = Thread(status: ThreadStatus, place: Place)

  datatype Semaphore = Semaphore(value: int, queue: seq<ThreadId>)

  datatype State = State(threads: seq<Thread>, current: ThreadId, ready: seq<ThreadId>, sems: seq<Semaphore>)

  /** What happens between two points at which control can move: a thread runs a kernel operation up to its end or up to
      its Sleep; Recheck is the rest of P, after Sleep has returned; Dispatch is the rest of Sleep. */
  datatype Step = NewThread | NewSemaphore(initial: nat) | Fork(t: ThreadId) | P(s: SemId) | Recheck | V(s: SemId)
                | Yield | Finish | Dispatch

  // ---- the steps ----

  ghost predicate Runs(k: State) {
    k.current < |k.threads| && k.threads[k.current].status == RUNNING
  }

  /** The running thread is not inside an operation that has interrupts off. */
  ghost predicate RunsOutside(k: State) {
    Runs(k) && k.threads[k.current].place == Outside
  }

  /** V may also be called by an interrupt handler, while a thread runs with interrupts on or while the machine idles in
      the Sleep of a thread that has stopped. */
  ghost predicate Enabled(k: State, step: Step) {
    match step
    case NewThread => RunsOutside(k)
    case NewSemaphore(_) => RunsOutside(k)
    case Fork(t) => RunsOutside(k) && t < |k.threads| && k.threads[t].status == JUST_CREATED
    case P(s) => RunsOutside(k) && s < |k.sems|
    case Recheck => Runs(k) && k.threads[k.current].place.InP? && k.threads[k.current].place.sem < |k.sems|
    case V(s) => k.current < |k.threads| && (RunsOutside(k) || !Runs(k)) && s < |k.sems|
                 && (k.sems[s].queue != [] ==> k.sems[s].queue[0] < |k.threads|)
    case Yield => RunsOutside(k) && (k.ready != [] ==> k.ready[0] < |k.threads|)
    case Finish => RunsOutside(k)
    case Dispatch => !Runs(k) && k.ready != [] && k.ready[0] < |k.threads|
  }

  ghost function WithThread(k: State, t: ThreadId, thread: Thread): State
    requires t < |k.threads|
  {
    k.(threads := k.threads[t := thread])
  }

  ghost function WithSem(k: State, s: SemId, sem: Semaphore): State
    requires s < |k.sems|
  {
    k.(sems := k.sems[s := sem])
  }

  ghost function MadeReady(k: State, t: ThreadId): State
    requires t < |k.threads|
  {
    WithThread(k, t, k.threads[t].(status := READY)).(ready := k.ready + [t])
  }

  /** The head of the ready list runs. */
  ghost function Dispatched(k: State): State
    requires k.ready != [] && k.ready[0] < |k.threads|
  {
    WithThread(k, k.ready[0], k.threads[k.ready[0]].(status := RUNNING)).(current := k.ready[0], ready := k.ready[1..])
  }

  /** One turn of the loop in P: sleep on the queue, or take one from the value. */
  ghost function Tested(k: State, s: SemId): State
    requires k.current < |k.threads| && s < |k.sems|
  {
    var sem := k.sems[s];
    if sem.value == 0 then
      WithThread(WithSem(k, s, sem.(queue := sem.queue + [k.current])), k.current, Thread(BLOCKED, InP(s)))
    else
      WithThread(WithSem(k, s, sem.(value := sem.value - 1)), k.current, Thread(RUNNING, Outside))
  }

  ghost function Signalled(k: State, s: SemId): State
    requires s < |k.sems| && (k.sems[s].queue != [] ==> k.sems[s].queue[0] < |k.threads|)
  {
    var sem := k.sems[s];
    if sem.queue == [] then WithSem(k, s, sem.(value := sem.value + 1))
    else MadeReady(WithSem(k, s, sem.(queue := sem.queue[1..], value := sem.value + 1)), sem.queue[0])
  }

  /** The running thread goes behind all that are ready, if there are any, and the first of them runs. */
  ghost function Yielded(k: State): State
    requires k.current < |k.threads| && (k.ready != [] ==> k.ready[0] < |k.threads|)
  {
    if k.ready == [] then k else Dispatched(MadeReady(k, k.current))
  }

  ghost function Next(k: State, step: Step): State
    requires Enabled(k, step)
  {
    match step
    case NewThread => k.(threads := k.threads + [Thread(JUST_CREATED, Outside)])
    case NewSemaphore(n) => k.(sems := k.sems + [Semaphore(n, [])])
    case Fork(t) => MadeReady(k, t)
    case P(s) => Tested(k, s)
    case Recheck => Tested(k, k.threads[k.current].place.sem)
    case V(s) => Signalled(k, s)
    case Yield => Yielded(k)
    case Finish => WithThread(k, k.current, Thread(BLOCKED, Ended))
    case Dispatch => Dispatched(k)
  }

  // ---- what every step keeps ----

  ghost predicate Once<T>(s: seq<T>) {
    forall i, j :: 0 <= i < j < |s| ==> s[i] != s[j]
  }

  ghost predicate InRange(k: State) {
    && k.current < |k.threads|
    && (forall t :: t in k.ready ==> t < |k.threads|)
    && (forall s, t :: 0 <= s < |k.sems| && t in k.sems[s].queue ==> t < |k.threads|)
    && (forall t :: 0 <= t < |k.threads| && k.threads[t].place.InP? ==> k.threads[t].place.sem < |k.sems|)
  }

  /** The status of a thread tells whether it is on the ready list, and it is there once. */
  ghost predicate Listed(k: State) {
    && InRange(k)
    && Once(k.ready)
    && (forall t :: 0 <= t < |k.threads| ==> (t in k.ready <==> k.threads[t].status == READY))
    && (forall t :: 0 <= t < |k.threads| && k.threads[t].status == RUNNING ==> t == k.current)
    && (forall t :: 0 <= t < |k.threads| && k.threads[t].status == JUST_CREATED ==> k.threads[t].place == Outside)
    && (forall t :: 0 <= t < |k.threads| && k.threads[t].status == BLOCKED ==> k.threads[t].place != Outside)
    && (forall t :: 0 <= t < |k.threads| && k.threads[t].place == Ended ==> k.threads[t].status == BLOCKED)
  }

  /** The threads that are blocked in P are the ones on the semaphore's queue, and each is there once. */
  ghost predicate Waiting(k: State) {
    && (forall s :: 0 <= s < |k.sems| ==> Once(k.sems[s].queue))
    && (forall s, t :: 0 <= s < |k.sems| && 0 <= t < |k.threads| ==>
          (t in k.sems[s].queue <==> k.threads[t] == Thread(BLOCKED, InP(s))))
  }

  ghost predicate Placed(k: State) {
    Listed(k) && Waiting(k)
  }

  /** A thread that V has made ready, and that has not looked at the value again. */
  ghost predicate Woken(t: Thread, s: SemId) {
    t.place == InP(s) && (t.status == READY || t.status == RUNNING)
  }

  ghost function WokenCount(threads: seq<Thread>, s: SemId): nat {
    if threads == [] then 0 else WokenCount(threads[1..], s) + if Woken(threads[0], s) then 1 else 0
  }

  /** Nobody waits for a value that nobody is about to take. */
  ghost predicate Fair(sem: Semaphore, woken: nat) {
    0 <= sem.value && (sem.queue != [] ==> sem.value <= woken)
  }

  ghost predicate AllFair(k: State) {
    forall s :: 0 <= s < |k.sems| ==> Fair(k.sems[s], WokenCount(k.threads, s))
  }

  ghost predicate Invariant(k: State) {
    && Placed(k)
    && AllFair(k)
  }

  lemma TailMembers<T>(s: seq<T>)
    requires s != [] && Once(s)
    ensures Once(s[1..]) && (forall x :: x in s[1..] <==> x in s && x != s[0])
  {
    assert s == [s[0]] + s[1..];
  }

  lemma ReadyKeepsPlaced(k: State, t: ThreadId)
    requires Placed(k) && t < |k.threads|
    requires k.threads[t].status == JUST_CREATED || k.threads[t] == Thread(RUNNING, Outside)
    ensures Placed(MadeReady(k, t))
  {
  }

  lemma TestKeepsListed(k: State, s: SemId)
    requires Placed(k) && Runs(k) && s < |k.sems|
    requires k.threads[k.current].place == Outside || k.threads[k.current].place == InP(s)
    ensures Listed(Tested(k, s))
  {
    hide Waiting;
  }

  lemma TestKeepsPlaced(k: State, s: SemId)
    requires Placed(k) && Runs(k) && s < |k.sems|
    requires k.threads[k.current].place == Outside || k.threads[k.current].place == InP(s)
    ensures Placed(Tested(k, s))
  {
    TestKeepsListed(k, s);
    hide Listed;
  }

  lemma DispatchKeepsPlaced(k: State)
    requires Placed(k) && Enabled(k, Dispatch)
    ensures Placed(Dispatched(k))
  {
    TailMembers(k.ready);
  }

  lemma YieldKeepsPlaced(k: State)
    requires Placed(k) && Enabled(k, Yield)
    ensures Placed(Yielded(k))
  {
    hide Placed, Dispatched;
    if k.ready != [] {
      ReadyKeepsPlaced(k, k.current);
      DispatchKeepsPlaced(MadeReady(k, k.current));
    }
  }

  lemma SignalKeepsListed(k: State, s: SemId)
    requires Placed(k) && Enabled(k, V(s))
    ensures Listed(Signalled(k, s))
  {
    if k.sems[s].queue != [] {
      TailMembers(k.sems[s].queue);
      assert k.threads[k.sems[s].queue[0]] == Thread(BLOCKED, InP(s));
    }
    hide Waiting;
  }

  lemma SignalKeepsPlaced(k: State, s: SemId)
    requires Placed(k) && Enabled(k, V(s))
    ensures Placed(Signalled(k, s))
  {
    SignalKeepsListed(k, s);
    if k.sems[s].queue != [] {
      TailMembers(k.sems[s].queue);
      assert k.threads[k.sems[s].queue[0]] == Thread(BLOCKED, InP(s));
    }
    hide Listed;
  }

  lemma FinishKeepsPlaced(k: State)
    requires Placed(k) && Enabled(k, Finish)
    ensures Placed(Next(k, Finish))
  {
  }

  lemma NewKeepsPlaced(k: State, step: Step)
    requires Placed(k) && Enabled(k, step) && (step.NewThread? || step.NewSemaphore?)
    ensures Placed(Next(k, step))
  {
  }

  lemma {:induction false} WokenCountUpdate(threads: seq<Thread>, t: ThreadId, x: Thread, s: SemId)
    requires t < |threads|
    ensures WokenCount(threads[t := x], s)
            == WokenCount(threads, s) - (if Woken(threads[t], s) then 1 else 0) + (if Woken(x, s) then 1 else 0)
  {
    if t == 0 {
      assert threads[t := x][1..] == threads[1..];
    } else {
      assert threads[t := x][1..] == threads[1..][t - 1 := x];
      WokenCountUpdate(threads[1..], t - 1, x, s);
    }
  }

  lemma {:induction false} WokenCountAppend(threads: seq<Thread>, x: Thread, s: SemId)
    ensures WokenCount(threads + [x], s) == WokenCount(threads, s) + if Woken(x, s) then 1 else 0
  {
    if threads != [] {
      assert (threads + [x])[1..] == threads[1..] + [x];
      WokenCountAppend(threads[1..], x, s);
    }
  }

  /** Steps that move no thread into or out of the state of being woken. */
  lemma SameWokenKeepsFair(k: State, t: ThreadId, x: Thread)
    requires t < |k.threads| && AllFair(k) && (forall s :: Woken(k.threads[t], s) == Woken(x, s))
    ensures AllFair(WithThread(k, t, x))
  {
    hide Woken, Fair;
    forall s | 0 <= s < |k.sems|
      ensures Fair(k.sems[s], WokenCount(k.threads[t := x], s))
    {
      WokenCountUpdate(k.threads, t, x, s);
      assert Fair(k.sems[s], WokenCount(k.threads, s));
    }
  }

  lemma ReadyKeepsFair(k: State, t: ThreadId)
    requires Placed(k) && AllFair(k) && t < |k.threads|
    requires k.threads[t].status == JUST_CREATED || k.threads[t] == Thread(RUNNING, Outside)
    ensures AllFair(MadeReady(k, t))
  {
    assert k.threads[t].place == Outside;
    hide Placed;
    SameWokenKeepsFair(k, t, k.threads[t].(status := READY));
  }

  lemma DispatchKeepsFair(k: State)
    requires Placed(k) && AllFair(k) && Enabled(k, Dispatch)
    ensures AllFair(Dispatched(k))
  {
    var t := k.ready[0];
    assert k.threads[t].status == READY;
    hide Placed;
    SameWokenKeepsFair(k, t, k.threads[t].(status := RUNNING));
  }

  lemma YieldKeepsFair(k: State)
    requires Placed(k) && AllFair(k) && Enabled(k, Yield)
    ensures AllFair(Yielded(k))
  {
    hide Placed, AllFair, Dispatched;
    if k.ready != [] {
      ReadyKeepsPlaced(k, k.current);
      ReadyKeepsFair(k, k.current);
      DispatchKeepsFair(MadeReady(k, k.current));
    }
  }

  lemma TestKeepsFair(k: State, s: SemId)
    requires Placed(k) && AllFair(k) && Runs(k) && s < |k.sems|
    requires k.threads[k.current].place == Outside || k.threads[k.current].place == InP(s)
    ensures AllFair(Tested(k, s))
  {
    hide Placed;
    var r := Tested(k, s);
    forall i | 0 <= i < |k.sems|
      ensures Fair(r.sems[i], WokenCount(r.threads, i))
    {
      WokenCountUpdate(k.threads, k.current, r.threads[k.current], i);
      assert Fair(k.sems[i], WokenCount(k.threads, i));
    }
  }

  lemma SignalKeepsFair(k: State, s: SemId)
    requires Placed(k) && AllFair(k) && Enabled(k, V(s))
    ensures AllFair(Signalled(k, s))
  {
    var r, queue := Signalled(k, s), k.sems[s].queue;
    if queue != [] {
      assert k.threads[queue[0]] == Thread(BLOCKED, InP(s));
    }
    hide Placed;
    forall i | 0 <= i < |k.sems|
      ensures Fair(r.sems[i], WokenCount(r.threads, i))
    {
      if queue != [] {
        WokenCountUpdate(k.threads, queue[0], r.threads[queue[0]], i);
      }
      assert Fair(k.sems[i], WokenCount(k.threads, i));
    }
  }

  lemma NewKeepsFair(k: State, step: Step)
    requires Placed(k) && AllFair(k) && Enabled(k, step) && (step.NewThread? || step.NewSemaphore?)
    ensures AllFair(Next(k, step))
  {
    var r := Next(k, step);
    forall i | 0 <= i < |r.sems|
      ensures Fair(r.sems[i], WokenCount(r.threads, i))
    {
      if i < |k.sems| {
        assert Fair(k.sems[i], WokenCount(k.threads, i));
        WokenCountAppend(k.threads, Thread(JUST_CREATED, Outside), i);
      }
    }
  }

  /** What every step keeps: the places of threads, and fairness of every semaphore. */
  lemma StepKeepsInvariant(k: State, step: Step)
    requires Invariant(k) && Enabled(k, step)
    ensures Invariant(Next(k, step))
  {
    hide Placed, AllFair, Tested, Signalled, MadeReady, Dispatched, Yielded;
    var c := k.current;
    match step
    case NewThread =>
      NewKeepsPlaced(k, step);
      NewKeepsFair(k, step);
    case NewSemaphore(_) =>
      NewKeepsPlaced(k, step);
      NewKeepsFair(k, step);
    case Fork(t) =>
      ReadyKeepsPlaced(k, t);
      ReadyKeepsFair(k, t);
    case P(s) =>
      TestKeepsPlaced(k, s);
      TestKeepsFair(k, s);
    case Recheck =>
      TestKeepsPlaced(k, k.threads[c].place.sem);
      TestKeepsFair(k, k.threads[c].place.sem);
    case V(s) =>
      SignalKeepsPlaced(k, s);
      SignalKeepsFair(k, s);
    case Yield =>
      YieldKeepsPlaced(k);
      YieldKeepsFair(k);
    case Finish =>
      FinishKeepsPlaced(k);
      SameWokenKeepsFair(k, c, Thread(BLOCKED, Ended));
    case Dispatch =>
      DispatchKeepsPlaced(k);
      DispatchKeepsFair(k);
  }

  // ---- whole runs ----

  /** The machine as Initialize leaves it: the main thread runs. */
  ghost function Boot(): State {
    State([Thread(RUNNING, Outside)], 0, [], [])
  }

  ghost predicate Reaches(k: State, steps: seq<Step>, r: State)
    decreases |steps|
  {
    if steps == [] then r == k else Enabled(k, steps[0]) && Reaches(Next(k, steps[0]), steps[1..], r)
  }

  lemma {:induction false} RunKeepsInvariant(k: State, steps: seq<Step>, r: State)
    requires Invariant(k) && Reaches(k, steps, r)
    ensures Invariant(r)
    decreases |steps|
  {
    hide Invariant, Enabled, Next;
    if steps != [] {
      StepKeepsInvariant(k, steps[0]);
      RunKeepsInvariant(Next(k, steps[0]), steps[1..], r);
    }
  }

  lemma BootIsSound()
    ensures Invariant(Boot())
  {
  }

  // ---- what a run puts into a semaphore and takes out of it ----

  /** The initial values of the semaphores that a run creates, in the order of their creation. */
  ghost function Initials(steps: seq<Step>): seq<int> {
    if steps == [] then [] else
      (if steps[0].NewSemaphore? then [steps[0].initial] else []) + Initials(steps[1..])
  }

  /** How many of the steps are a V on s. */
  ghost function Vs(steps: seq<Step>, s: SemId): nat {
    if steps == [] then 0 else Vs(steps[1..], s) + if steps[0] == V(s) then 1 else 0
  }

  /** The running thread looks at the value of s: it has called P, or it is back from Sleep in P. */
  ghost predicate Looks(k: State, step: Step, s: SemId) {
    step == P(s) || (step == Recheck && k.current < |k.threads| && k.threads[k.current].place == InP(s))
  }

  /** P returns. */
  ghost predicate Takes(k: State, step: Step, s: SemId)
    requires Enabled(k, step)
  {
    Looks(k, step, s) && RunsOutside(Next(k, step))
  }

  /** How many calls of P on s have returned in the run. */
  ghost function Taken(k: State, steps: seq<Step>, s: SemId): nat
    decreases |steps|
  {
    if steps == [] || !Enabled(k, steps[0]) then 0
    else Taken(Next(k, steps[0]), steps[1..], s) + if Takes(k, steps[0], s) then 1 else 0
  }

  ghost function Values(k: State): (v: seq<int>)
    ensures |v| == |k.sems|
  {
    seq(|k.sems|, s requires 0 <= s < |k.sems| => k.sems[s].value)
  }

  lemma StepCounts(k: State, step: Step, s: SemId)
    requires Enabled(k, step) && s < |k.sems|
    ensures s < |Next(k, step).sems|
    ensures Next(k, step).sems[s].value
            == k.sems[s].value + (if step == V(s) then 1 else 0) - (if Takes(k, step, s) then 1 else 0)
  {
  }

  lemma StepCreates(k: State, step: Step)
    requires Enabled(k, step)
    ensures |Next(k, step).sems| == |k.sems| + |Initials([step])|
    ensures step.NewSemaphore? ==> Values(Next(k, step)) == Values(k) + [step.initial]
  {
    assert Initials([step][1..]) == [];
  }

  /** In any run, the value of a semaphore is what it began with, and one more for every V, and one less for every P
      that has returned. */
  lemma {:induction false} ValueIsCounted(k: State, steps: seq<Step>, r: State, s: SemId)
    requires Reaches(k, steps, r) && s < |r.sems|
    ensures |r.sems| == |Values(k) + Initials(steps)|
    ensures r.sems[s].value == (Values(k) + Initials(steps))[s] + Vs(steps, s) - Taken(k, steps, s)
    decreases |steps|
  {
    hide Next, Enabled, Takes;
    if steps != [] {
      var n := Next(k, steps[0]);
      ValueIsCounted(n, steps[1..], r, s);
      StepCreates(k, steps[0]);
      if s < |k.sems| {
        StepCounts(k, steps[0], s);
      } else {
        NotYet(k, steps[0], s);
      }
    }
  }

  /** No step acts on a semaphore that is not there. */
  lemma NotYet(k: State, step: Step, s: SemId)
    requires Enabled(k, step) && |k.sems| <= s
    ensures step != V(s) && !Takes(k, step, s)
  {
  }

  /** No wakeup is lost, in any run: the value is what the semaphore was created with, and one more for every V and one
      less for every P that returned; and while a thread sleeps on it, every unit of the value is about to be taken by a
      thread that V has made ready. */
  lemma NoLostWakeup(steps: seq<Step>, r: State, s: SemId)
    requires Reaches(Boot(), steps, r) && s < |r.sems|
    ensures |Initials(steps)| == |r.sems|
    ensures 0 <= r.sems[s].value == Initials(steps)[s] + Vs(steps, s) - Taken(Boot(), steps, s)
    ensures r.sems[s].queue != [] ==> r.sems[s].value <= WokenCount(r.threads, s)
  {
    BootIsSound();
    RunKeepsInvariant(Boot(), steps, r);
    ValueIsCounted(Boot(), steps, r, s);
    assert Values(Boot()) + Initials(steps) == Initials(steps);
    assert Fair(r.sems[s], WokenCount(r.threads, s));
  }

  /** A thread that looks at the value, in a new call of P or back from Sleep, gets a unit exactly if, since any earlier
      point of the run, fewer Ps returned than the value was then and Vs were since. */
  lemma GetsItsUnitIff(k: State, steps: seq<Step>, r: State, step: Step, s: SemId)
    requires Invariant(k) && Reaches(k, steps, r) && s < |k.sems|
    requires Enabled(r, step) && Looks(r, step, s)
    ensures Takes(r, step, s) <==> Taken(k, steps, s) < k.sems[s].value + Vs(steps, s)
  {
    hide Placed, Taken, Vs, WokenCount, Reaches;
    RunKeepsInvariant(k, steps, r);
    SemaphoresStay(k, steps, r);
    ValueIsCounted(k, steps, r, s);
    assert Fair(r.sems[s], WokenCount(r.threads, s));
  }

  lemma {:induction false} SemaphoresStay(k: State, steps: seq<Step>, r: State)
    requires Reaches(k, steps, r)
    ensures |k.sems| <= |r.sems|
    decreases |steps|
  {
    hide Next, Enabled;
    if steps != [] {
      StepCreates(k, steps[0]);
      SemaphoresStay(Next(k, steps[0]), steps[1..], r);
    }
  }

  /** While more Vs were than Ps have returned, the next P returns at once. */
  lemma SignalIsRemembered(steps: seq<Step>, r: State, s: SemId)
    requires Reaches(Boot(), steps, r) && s < |r.sems| && RunsOutside(r)
    requires Taken(Boot(), steps, s) < Vs(steps, s)
    ensures Takes(r, P(s), s)
  {
    NoLostWakeup(steps, r, s);
    assert Initials(steps)[s] >= 0 by { InitialsAreNat(steps, s); }
  }

  lemma {:induction false} InitialsAreNat(steps: seq<Step>, s: nat)
    requires s < |Initials(steps)|
    ensures Initials(steps)[s] >= 0
  {
    if steps[0].NewSemaphore? {
      if s > 0 {
        InitialsAreNat(steps[1..], s - 1);
      }
    } else {
      InitialsAreNat(steps[1..], s);
    }
  }

  lemma {:induction false} NobodyWoken(threads: seq<Thread>, s: SemId)
    requires forall t :: 0 <= t < |threads| ==> threads[t].status == JUST_CREATED || threads[t].status == BLOCKED
    ensures WokenCount(threads, s) == 0
  {
    if threads != [] {
      NobodyWoken(threads[1..], s);
    }
  }

  /** When the machine has nothing left to run, every thread that is still in P waits on a semaphore that is at zero. */
  lemma QuietMeansNothingToTake(steps: seq<Step>, r: State, t: ThreadId)
    requires Reaches(Boot(), steps, r) && r.ready == [] && !Runs(r)
    requires t < |r.threads| && r.threads[t].place.InP?
    ensures var s := r.threads[t].place.sem; s < |r.sems| && t in r.sems[s].queue && r.sems[s].value == 0
  {
    BootIsSound();
    RunKeepsInvariant(Boot(), steps, r);
    var s := r.threads[t].place.sem;
    assert Fair(r.sems[s], WokenCount(r.threads, s));
    NobodyWoken(r.threads, s);
  }

  // ---- every thread is in one place ----

  ghost function QueuedCount(sems: seq<Semaphore>, t: ThreadId): nat {
    if sems == [] then 0 else QueuedCount(sems[1..], t) + multiset(sems[0].queue)[t]
  }

  /** How often a thread occurs among the running, the ready, the waiting and the finished. */
  ghost function Occurrences(k: State, t: ThreadId): nat
    requires t < |k.threads|
  {
    (if t == k.current && Runs(k) then 1 else 0)
    + multiset(k.ready)[t]
    + QueuedCount(k.sems, t)
    + (if k.threads[t].place == Ended then 1 else 0)
  }

  lemma {:induction false} OnceInBag<T>(s: seq<T>, x: T)
    requires Once(s)
    ensures multiset(s)[x] == if x in s then 1 else 0
  {
    if s != [] {
      TailMembers(s);
      OnceInBag(s[1..], x);
      assert s == [s[0]] + s[1..];
    }
  }

  lemma {:induction false} QueuedOnce(sems: seq<Semaphore>, t: ThreadId, from: nat, thread: Thread)
    requires forall s :: 0 <= s < |sems| ==> Once(sems[s].queue)
    requires forall s :: 0 <= s < |sems| ==> (t in sems[s].queue <==> thread == Thread(BLOCKED, InP(from + s)))
    ensures QueuedCount(sems, t)
            == if thread.status == BLOCKED && thread.place.InP?
              && from <= thread.place.sem < from + |sems| then 1 else 0
  {
    if sems != [] {
      OnceInBag(sems[0].queue, t);
      assert t in sems[0].queue <==> thread == Thread(BLOCKED, InP(from));
      forall s | 0 <= s < |sems| - 1
        ensures Once(sems[1..][s].queue)
        ensures t in sems[1..][s].queue <==> thread == Thread(BLOCKED, InP(from + 1 + s))
      {
        assert sems[1..][s] == sems[s + 1];
      }
      QueuedOnce(sems[1..], t, from + 1, thread);
    }
  }

  /** In every run, a thread is in exactly one place from the time it is forked. */
  lemma OnePlace(steps: seq<Step>, r: State, t: ThreadId)
    requires Reaches(Boot(), steps, r) && t < |r.threads|
    ensures Occurrences(r, t) == if r.threads[t].status == JUST_CREATED then 0 else 1
  {
    BootIsSound();
    RunKeepsInvariant(Boot(), steps, r);
    OnceInBag(r.ready, t);
    QueuedOnce(r.sems, t, 0, r.threads[t]);
  }

  // ---- the ready list is first come, first served ----

  ghost predicate Switches(k: State, step: Step) {
    step == Dispatch || (step == Yield && k.ready != [])
  }

  ghost function SwitchCount(k: State, steps: seq<Step>): nat
    decreases |steps|
  {
    if steps == [] || !Enabled(k, steps[0]) then 0
    else SwitchCount(Next(k, steps[0]), steps[1..]) + if Switches(k, steps[0]) then 1 else 0
  }

  lemma StepMovesUp(k: State, step: Step, n: nat)
    requires Enabled(k, step) && n < |k.ready|
    ensures var d := if Switches(k, step) then 1 else 0;
            && (d <= n ==> n - d < |Next(k, step).ready| && Next(k, step).ready[n - d] == k.ready[n])
            && (d > n ==> Next(k, step).current == k.ready[n] && Runs(Next(k, step)))
  {
  }

  /** A ready thread moves up by one with each dispatch, whatever else happens... */
  lemma {:induction false} ReadyMovesUp(k: State, steps: seq<Step>, r: State, n: nat)
    requires Reaches(k, steps, r) && n < |k.ready| && SwitchCount(k, steps) <= n
    ensures var m := n - SwitchCount(k, steps); m < |r.ready| && r.ready[m] == k.ready[n]
    decreases |steps|
  {
    hide Next, Enabled, Switches;
    if steps != [] {
      StepMovesUp(k, steps[0], n);
      ReadyMovesUp(Next(k, steps[0]), steps[1..], r, n - if Switches(k, steps[0]) then 1 else 0);
    }
  }

  /** ... so the thread at position n of the ready list is the one that runs after exactly n + 1 dispatches. */
  lemma DispatchedInTurn(k: State, steps: seq<Step>, r: State, n: nat, last: Step)
    requires Reaches(k, steps, r) && n < |k.ready| && SwitchCount(k, steps) == n
    requires Enabled(r, last) && Switches(r, last)
    ensures Next(r, last).current == k.ready[n] && Runs(Next(r, last))
  {
    hide Next, Enabled, Switches;
    ReadyMovesUp(k, steps, r, n);
    StepMovesUp(r, last, 0);
  }

  /** The thread is put behind all that are ready: when it is forked, when V wakes it, when it yields to another. */
  ghost predicate Joins(k: State, step: Step, t: ThreadId) {
    || step == Fork(t)
    || (step.V? && step.s < |k.sems| && k.sems[step.s].queue != [] && k.sems[step.s].queue[0] == t)
    || (step == Yield && k.ready != [] && k.current == t)
  }

  lemma JoinsLast(k: State, step: Step, t: ThreadId)
    requires Enabled(k, step) && Joins(k, step, t)
    ensures var n := if step == Yield then |k.ready| - 1 else |k.ready|;
            && Next(k, step).ready == (if step == Yield then k.ready[1..] else k.ready) + [t]
            && |Next(k, step).ready| == n + 1
  {
  }

  /** Such a thread runs next at exactly the dispatch that follows those of all the threads that were ready before
      it. */
  lemma TurnComes(k: State, step: Step, t: ThreadId, steps: seq<Step>, r: State, last: Step)
    requires Enabled(k, step) && Joins(k, step, t) && Reaches(Next(k, step), steps, r)
    requires SwitchCount(Next(k, step), steps) == |k.ready| - if step == Yield then 1 else 0
    requires Enabled(r, last) && Switches(r, last)
    ensures Next(r, last).current == t && Runs(Next(r, last))
  {
    hide Next, Enabled, Switches, Joins;
    JoinsLast(k, step, t);
    DispatchedInTurn(Next(k, step), steps, r, |Next(k, step).ready| - 1, last);
  }

  // ---- so are the queues of the semaphores ----

  lemma StepServes(k: State, step: Step, s: SemId, n: nat)
    requires Enabled(k, step) && s < |k.sems| && n < |k.sems[s].queue|
    ensures var d := if step == V(s) then 1 else 0;
            && s < |Next(k, step).sems|
            && (d <= n ==> n - d < |Next(k, step).sems[s].queue|
                           && Next(k, step).sems[s].queue[n - d] == k.sems[s].queue[n])
            && (d > n ==> Next(k, step).ready == k.ready + [k.sems[s].queue[n]])
  {
  }

  /** A thread on a semaphore's queue moves up by one with each V on it, whatever else happens... */
  lemma {:induction false} WaiterMovesUp(k: State, steps: seq<Step>, r: State, s: SemId, n: nat)
    requires Reaches(k, steps, r) && s < |k.sems| && n < |k.sems[s].queue| && Vs(steps, s) <= n
    ensures s < |r.sems|
    ensures var m := n - Vs(steps, s); m < |r.sems[s].queue| && r.sems[s].queue[m] == k.sems[s].queue[n]
    decreases |steps|
  {
    hide Next, Enabled;
    if steps != [] {
      StepServes(k, steps[0], s, n);
      WaiterMovesUp(Next(k, steps[0]), steps[1..], r, s, n - if steps[0] == V(s) then 1 else 0);
    }
  }

  /** ... so a thread that goes to sleep in P is made ready by exactly the V that follows those for the threads that
      slept there before it. */
  lemma WokenInTurn(k: State, step: Step, steps: seq<Step>, r: State, s: SemId)
    requires Enabled(k, step) && s < |k.sems| && Looks(k, step, s) && !Takes(k, step, s)
    requires Reaches(Next(k, step), steps, r) && Vs(steps, s) == |k.sems[s].queue| && Enabled(r, V(s))
    ensures Next(r, V(s)).ready == r.ready + [k.current]
  {
    var n := Next(k, step);
    assert n.sems[s].queue == k.sems[s].queue + [k.current];
    hide Next, Enabled;
    WaiterMovesUp(n, steps, r, s, |k.sems[s].queue|);
    StepServes(r, V(s), s, 0);
  }

  // ---- calls that return, and threads that end ----

  /** How many of the steps are a call of P by t, and how many end one. */
  ghost function Called(k: State, steps: seq<Step>, t: ThreadId): nat
    decreases |steps|
  {
    if steps == [] || !Enabled(k, steps[0]) then 0
    else Called(Next(k, steps[0]), steps[1..], t) + if steps[0].P? && k.current == t then 1 else 0
  }

  ghost predicate ComesOut(k: State, step: Step, t: ThreadId)
    requires Enabled(k, step)
  {
    k.current == t && exists s: SemId :: Takes(k, step, s)
  }

  ghost function Returned(k: State, steps: seq<Step>, t: ThreadId): nat
    decreases |steps|
  {
    if steps == [] || !Enabled(k, steps[0]) then 0
    else
      Returned(Next(k, steps[0]), steps[1..], t)
      + if ComesOut(k, steps[0], t) then 1 else 0
  }

  ghost function Within(k: State, t: ThreadId): nat {
    if t < |k.threads| && k.threads[t].place.InP? then 1 else 0
  }

  lemma StepReturns(k: State, step: Step, t: ThreadId)
    requires Invariant(k) && Enabled(k, step)
    ensures Within(Next(k, step), t)
            == Within(k, t) + (if step.P? && k.current == t then 1 else 0)
               - (if ComesOut(k, step, t) then 1 else 0)
  {
    hide AllFair, Waiting;
    if step.P? {
      assert Takes(k, step, step.s) <==> k.sems[step.s].value != 0;
    }
    if step.Recheck? {
      var s := k.threads[k.current].place.sem;
      assert Takes(k, step, s) <==> k.sems[s].value != 0;
    }
  }

  /** A thread comes out of P only by taking a unit: in any run, its calls are those that took one, and at most one more
      in which it still is. */
  lemma {:induction false} CallsReturn(k: State, steps: seq<Step>, r: State, t: ThreadId)
    requires Invariant(k) && Reaches(k, steps, r)
    ensures Within(k, t) + Called(k, steps, t) == Returned(k, steps, t) + Within(r, t)
    decreases |steps|
  {
    hide Next, Enabled, Invariant, Within, ComesOut;
    if steps != [] {
      StepReturns(k, steps[0], t);
      StepKeepsInvariant(k, steps[0]);
      CallsReturn(Next(k, steps[0]), steps[1..], r, t);
    }
  }

  ghost predicate HasEnded(k: State, t: ThreadId) {
    t < |k.threads| && k.threads[t].place == Ended
  }

  lemma StepKeepsEnded(k: State, step: Step, t: ThreadId)
    requires Invariant(k) && Enabled(k, step) && HasEnded(k, t)
    ensures HasEnded(Next(k, step), t)
  {
    hide AllFair;
    if step.V? && k.sems[step.s].queue != [] {
      assert k.threads[k.sems[step.s].queue[0]] == Thread(BLOCKED, InP(step.s));
    }
  }

  lemma {:induction false} RunKeepsEnded(k: State, steps: seq<Step>, r: State, t: ThreadId)
    requires Invariant(k) && Reaches(k, steps, r) && HasEnded(k, t)
    ensures HasEnded(r, t)
    decreases |steps|
  {
    hide Next, Enabled, Invariant, HasEnded;
    if steps != [] {
      StepKeepsInvariant(k, steps[0]);
      StepKeepsEnded(k, steps[0], t);
      RunKeepsEnded(Next(k, steps[0]), steps[1..], r, t);
    }
  }

  /** A thread that calls Finish stops there, and in no later state does it run or wait to run. */
  lemma FinishedForGood(k: State, steps: seq<Step>, r: State)
    requires Invariant(k) && Enabled(k, Finish) && Reaches(Next(k, Finish), steps, r)
    ensures !(Runs(r) && r.current == k.current) && k.current !in r.ready
    ensures forall s :: 0 <= s < |r.sems| ==> k.current !in r.sems[s].queue
  {
    StepKeepsInvariant(k, Finish);
    RunKeepsEnded(Next(k, Finish), steps, r, k.current);
    RunKeepsInvariant(Next(k, Finish), steps, r);
    hide Next, Reaches, AllFair;
  }

  ghost function NewThreads(steps: seq<Step>): nat {
    if steps == [] then 0 else NewThreads(steps[1..]) + if steps[0] == NewThread then 1 else 0
  }

  /** Threads are neither lost nor made up. */
  lemma {:induction false} ThreadsAreCounted(k: State, steps: seq<Step>, r: State)
    requires Reaches(k, steps, r)
    ensures |r.threads| == |k.threads| + NewThreads(steps)
    decreases |steps|
  {
    if steps != [] {
      ThreadsAreCounted(Next(k, steps[0]), steps[1..], r);
    }
  }

  lemma Preceded(k: State, step: Step, n: State, steps: seq<Step>, r: State)
    requires Enabled(k, step) && Next(k, step) == n && Reaches(n, steps, r)
    ensures Reaches(k, [step] + steps, r)
  {
    assert ([step] + steps)[1..] == steps;
  }

  /** Thread 1 sleeps on semaphore 0 and the main thread, 0, is ready. */
  ghost function Sleeping(): State {
    State([Thread(READY, Outside), Thread(BLOCKED, InP(0))], 1, [0], [Semaphore(0, [1])])
  }

  lemma SleepingIsReached()
    ensures Reaches(Boot(), [NewSemaphore(0), NewThread, Fork(1), Yield, P(0)], Sleeping())
  {
    var main := Thread(RUNNING, Outside);
    var k1 := State([main], 0, [], [Semaphore(0, [])]);
    var k2 := k1.(threads := [main, Thread(JUST_CREATED, Outside)]);
    var k3 := k1.(threads := [main, Thread(READY, Outside)], ready := [1]);
    var k4 := State([Thread(READY, Outside), main], 1, [0], k1.sems);
    assert k1.sems[0].queue + [1] == [1];
    assert Reaches(Sleeping(), [], Sleeping());
    hide Reaches;
    Preceded(k4, P(0), Sleeping(), [], Sleeping());
    Preceded(k3, Yield, k4, [P(0)], Sleeping());
    Preceded(k2, Fork(1), k3, [Yield, P(0)], Sleeping());
    Preceded(k1, NewThread, k2, [Fork(1), Yield, P(0)], Sleeping());
    Preceded(Boot(), NewSemaphore(0), k1, [NewThread, Fork(1), Yield, P(0)], Sleeping());
  }

  /** The main thread has woken thread 1 by V, and has then taken the value back by P. */
  ghost function TakenBack(): State {
    State([Thread(RUNNING, Outside), Thread(READY, InP(0))], 0, [1], [Semaphore(0, [])])
  }

  lemma TakenBackIsReached(steps: seq<Step>, r: State)
    requires Reaches(TakenBack(), steps, r)
    ensures Reaches(Sleeping(), [Dispatch] + ([V(0)] + ([P(0)] + steps)), r)
  {
    var k6 := State([Thread(RUNNING, Outside), Thread(BLOCKED, InP(0))], 0, [], Sleeping().sems);
    var k7 := TakenBack().(sems := [Semaphore(1, [])]);
    assert k6.sems[0].queue[1..] == [];
    hide Reaches;
    Preceded(k7, P(0), TakenBack(), steps, r);
    Preceded(k6, V(0), k7, [P(0)] + steps, r);
    Preceded(Sleeping(), Dispatch, k6, [V(0)] + ([P(0)] + steps), r);
  }

  /** The comment on V says that the thread it wakes consumes the V immediately.  It does not: here the caller of V
      takes the value back, and the woken thread sleeps again, with everything as it was. */
  lemma WokenThreadMaySleepAgain()
    ensures Reaches(Sleeping(), [Dispatch, V(0), P(0), Yield, Recheck], Sleeping())
  {
    var k9 := State([Thread(READY, Outside), Thread(RUNNING, InP(0))], 1, [0], [Semaphore(0, [])]);
    assert Reaches(Sleeping(), [], Sleeping());
    hide Reaches;
    assert Next(k9, Recheck).sems[0].queue == [1];
    Preceded(k9, Recheck, Sleeping(), [], Sleeping());
    Preceded(TakenBack(), Yield, k9, [Recheck], Sleeping());
    TakenBackIsReached([Yield, Recheck], Sleeping());
    assert [Dispatch] + ([V(0)] + ([P(0)] + [Yield, Recheck])) == [Dispatch, V(0), P(0), Yield, Recheck];
  }

  /** Yield takes the next thread off the list before it puts its own on. */
  lemma YieldInOrder(k: State)
    requires Enabled(k, Yield)
    ensures k.ready != [] ==>
              var next := k.ready[0];
              Yielded(k) == WithThread(MadeReady(k.(ready := k.ready[1..]), k.current), next,
                                       MadeReady(k, k.current).threads[next].(status := RUNNING)).(current := next)
  {
    if k.ready != [] {
      assert (k.ready + [k.current])[1..] == k.ready[1..] + [k.current];
    }
  }

  // ---- the operations ----

  /** Lists are held as the sequences that Lists.List is proved to implement.  Where a thread stands in P is on its
      stack in the original; here it is part of the thread. */
  class Kernel {
    var threads: seq<Thread>
    var currentThread: ThreadId
    var readyList: seq<ThreadId>
    var sems: seq<Semaphore>

    ghost function Now(): State
      reads this
    {
      State(threads, currentThread, readyList, sems)
    }

    constructor ()
      ensures Now() == Boot() && Invariant(Now())
    {
      threads := [Thread(RUNNING, Outside)];
      currentThread := 0;
      readyList := [];
      sems := [];
      BootIsSound();
    }

    method SetStatus(t: ThreadId, status: ThreadStatus)
      requires t < |threads|
      modifies this`threads
      ensures threads == old(threads)[t := old(threads[t]).(status := status)]
    {
      threads := threads[t := threads[t].(status := status)];
    }

    method ReadyToRun(thread: ThreadId)
      requires thread < |threads|
      modifies this`threads, this`readyList
      ensures Now() == MadeReady(old(Now()), thread)
    {
      SetStatus(thread, READY);
      readyList := readyList + [thread];
    }

    method FindNextToRun() returns (found: seq<ThreadId>)
      modifies this`readyList
      ensures if old(readyList) == [] then found == [] && readyList == []
              else found == [old(readyList)[0]] && readyList == old(readyList)[1..]
    {
      if readyList == [] {
        return [];
      }
      found, readyList := [readyList[0]], readyList[1..];
    }

    method Run(nextThread: ThreadId)
      requires nextThread < |threads|
      modifies this`threads, this`currentThread
      ensures currentThread == nextThread
              && threads == old(threads)[nextThread := old(threads[nextThread]).(status := RUNNING)]
    {
      currentThread := nextThread;
      SetStatus(currentThread, RUNNING);
    }

    method Create() returns (t: ThreadId)
      requires Invariant(Now()) && Enabled(Now(), NewThread)
      modifies this
      ensures Invariant(Now()) && Now() == Next(old(Now()), NewThread) && t == |old(threads)|
    {
      StepKeepsInvariant(Now(), NewThread);
      t := |threads|;
      threads := threads + [Thread(JUST_CREATED, Outside)];
    }

    method CreateSemaphore(initialValue: nat) returns (s: SemId)
      requires Invariant(Now()) && Enabled(Now(), NewSemaphore(initialValue))
      modifies this
      ensures Invariant(Now()) && Now() == Next(old(Now()), NewSemaphore(initialValue)) && s == |old(sems)|
    {
      StepKeepsInvariant(Now(), NewSemaphore(initialValue));
      s := |sems|;
      sems := sems + [Semaphore(initialValue, [])];
    }

    method Fork(t: ThreadId)
      requires Invariant(Now()) && Enabled(Now(), Step.Fork(t))
      modifies this
      ensures Invariant(Now()) && Now() == Next(old(Now()), Step.Fork(t))
    {
      hide Invariant;
      StepKeepsInvariant(Now(), Step.Fork(t));
      ReadyToRun(t);
    }

    method Yield()
      requires Invariant(Now()) && Enabled(Now(), Step.Yield)
      modifies this
      ensures Invariant(Now()) && Now() == Next(old(Now()), Step.Yield)
    {
      hide Invariant;
      StepKeepsInvariant(Now(), Step.Yield);
      YieldInOrder(Now());
      var found := FindNextToRun();
      if found != [] {
        ReadyToRun(currentThread);
        Run(found[0]);
      }
    }

    /** One turn of the loop in Sleep; while nothing is found, the machine idles and only handlers act. */
    method Dispatch() returns (found: bool)
      requires Invariant(Now()) && !Runs(Now())
      modifies this
      ensures Invariant(Now()) && found == (old(readyList) != [])
      ensures if found then Enabled(old(Now()), Step.Dispatch)
              && Now() == Next(old(Now()), Step.Dispatch) else Now() == old(Now())
    {
      assert readyList != [] ==> readyList[0] in readyList;
      assert readyList != [] ==> Enabled(Now(), Step.Dispatch);
      hide Invariant;
      if readyList != [] {
        StepKeepsInvariant(Now(), Step.Dispatch);
      }
      var next := FindNextToRun();
      if next != [] {
        Run(next[0]);
      }
      return next != [];
    }

    method Finish()
      requires Invariant(Now()) && Enabled(Now(), Step.Finish)
      modifies this
      ensures Invariant(Now()) && Now() == Next(old(Now()), Step.Finish)
    {
      hide Invariant;
      StepKeepsInvariant(Now(), Step.Finish);
      assert threads[currentThread := Thread(RUNNING, Ended)][currentThread := Thread(BLOCKED, Ended)]
          == threads[currentThread := Thread(BLOCKED, Ended)];
      threads := threads[currentThread := threads[currentThread].(place := Ended)];
      SetStatus(currentThread, BLOCKED);
    }

    /** One turn of the loop in P.  True when the value was taken and P returns, false when the thread goes to sleep. */
    method Test(s: SemId) returns (taken: bool)
      requires currentThread < |threads| && s < |sems| && threads[currentThread].status == RUNNING
      modifies this`threads, this`sems
      ensures Now() == Tested(old(Now()), s) && taken == (old(sems[s]).value != 0)
    {
      var sem := sems[s];
      if sem.value == 0 {
        sems := sems[s := sem.(queue := sem.queue + [currentThread])];
        threads := threads[currentThread := threads[currentThread].(place := InP(s))];
        SetStatus(currentThread, BLOCKED);
        return false;
      }
      sems := sems[s := sem.(value := sem.value - 1)];
      threads := threads[currentThread := threads[currentThread].(place := Outside)];
      return true;
    }

    method P(s: SemId) returns (taken: bool)
      requires Invariant(Now()) && Enabled(Now(), Step.P(s))
      modifies this
      ensures Invariant(Now()) && Now() == Next(old(Now()), Step.P(s)) && taken == RunsOutside(Now())
    {
      hide Invariant;
      StepKeepsInvariant(Now(), Step.P(s));
      taken := Test(s);
    }

    /** A thread that Dispatch has resumed in P looks at the value again. */
    method Recheck() returns (taken: bool)
      requires Invariant(Now()) && Enabled(Now(), Step.Recheck)
      modifies this
      ensures Invariant(Now()) && Now() == Next(old(Now()), Step.Recheck) && taken == RunsOutside(Now())
    {
      hide Invariant;
      StepKeepsInvariant(Now(), Step.Recheck);
      taken := Test(threads[currentThread].place.sem);
    }

    method V(s: SemId)
      requires Invariant(Now()) && Enabled(Now(), Step.V(s))
      modifies this
      ensures Invariant(Now()) && Now() == Next(old(Now()), Step.V(s))
    {
      hide Invariant;
      StepKeepsInvariant(Now(), Step.V(s));
      if sems[s].queue != [] {
        var thread := sems[s].queue[0];
        sems := sems[s := sems[s].(queue := sems[s].queue[1..])];
        ReadyToRun(thread);
      }
      assert Now().sems[s := Next(old(Now()), Step.V(s)).sems[s]] == Next(old(Now()), Step.V(s)).sems;
      sems := sems[s := sems[s].(value := sems[s].value + 1)];
    }
  }
}
