/** machine/interrupt.cc: simulated time and the hardware interrupts that are due to happen in it. */
module Interrupts {
  import opened Lists

  const SYSTEM_TICK := 10
  const USER_TICK := 1

  datatype IntStatus = IntOff | IntOn
  datatype MachineStatus = IdleMode | SystemMode | UserMode
  datatype IntType = TimerInt | DiskInt | ConsoleWriteInt | ConsoleReadInt | NetworkSendInt | NetworkRecvInt

  datatype PendingInterrupt = PendingInterrupt(handler: nat, when: int, kind: IntType)
  type Queue = seq<PendingInterrupt>

  /** What a device's handler does when it is called: it asks for further interrupts, strictly in the future, and may
      ask for a context switch. */
  type Ticks = t: nat | t > 0 witness 1
  datatype Request = Request(handler: nat, fromNow: Ticks, kind: IntType)
  datatype Effect = Effect(requests: seq<Request>, switches: bool)
  /** What the handler called for the n-th time in all does. */
  type Script = (nat, PendingInterrupt) -> Effect

  // ---- the queue ----

  function Whens(q: Queue): (s: seq<int>)
    ensures |s| == |q|
  {
    seq(|q|, i requires 0 <= i < |q| => q[i].when)
  }

  function Queued(q: Queue, p: PendingInterrupt): (r: Queue)
    ensures |r| == |q| + 1
  {
    Spliced(q, InsertAt(Whens(q), p.when), p)
  }

  ghost predicate InOrder(q: Queue) {
    forall i, j :: 0 <= i < j < |q| ==> q[i].when <= q[j].when
  }

  /** The interrupts that are due, in the order in which they are to fire. */
  function DuePart(q: Queue, now: int): (d: Queue)
    ensures |d| <= |q| && d == q[..|d|]
  {
    q[..InsertAt(Whens(q), now)]
  }

  /** In a queue that is in order, the due part is all that is due. */
  lemma DuePartIs(q: Queue, now: int)
    requires InOrder(q)
    ensures forall i :: 0 <= i < |q| ==> (q[i].when <= now <==> i < |DuePart(q, now)|)
  {
    var k := |DuePart(q, now)|;
    assert k == InsertAt(Whens(q), now);
    forall i | 0 <= i < |q|
      ensures q[i].when <= now <==> i < k
    {
      assert Whens(q)[i] == q[i].when;
      if k <= i {
        assert Whens(q)[k] == q[k].when <= q[i].when;
      }
    }
  }

  lemma QueuedAt(q: Queue, p: PendingInterrupt, i: int)
    requires 0 <= i <= |q|
    ensures var k := InsertAt(Whens(q), p.when);
            Queued(q, p)[i] == (if i < k then q[i] else if i == k then p else q[i - 1])
  {
    SplicedAt(q, InsertAt(Whens(q), p.when), p, i);
  }

  lemma QueuedInOrder(q: Queue, p: PendingInterrupt)
    requires InOrder(q)
    ensures InOrder(Queued(q, p))
  {
    hide Spliced, InsertAt;
    var r, k := Queued(q, p), InsertAt(Whens(q), p.when);
    forall i | 0 <= i < |q|
      ensures i < k ==> q[i].when <= p.when
      ensures k <= i ==> p.when <= q[i].when
    {
      assert Whens(q)[i] == q[i].when;
      if k <= i {
        assert Whens(q)[k] == q[k].when <= q[i].when;
      }
    }
    forall i, j | 0 <= i < j < |r|
      ensures r[i].when <= r[j].when
    {
      QueuedAt(q, p, i);
      QueuedAt(q, p, j);
    }
  }

  lemma WhensQueued(q: Queue, p: PendingInterrupt)
    ensures Whens(Queued(q, p)) == Spliced(Whens(q), InsertAt(Whens(q), p.when), p.when)
  {
    hide InsertAt;
  }

  /** Scheduling for later leaves what is due as it was. */
  lemma DuePartKept(q: Queue, p: PendingInterrupt, now: int)
    requires InOrder(q) && now < p.when
    ensures DuePart(Queued(q, p), now) == DuePart(q, now)
  {
    hide InsertAt, Spliced;
    var r, k := Queued(q, p), |DuePart(q, now)|;
    QueuedInOrder(q, p);
    DuePartIs(q, now);
    DuePartIs(r, now);
    assert forall i :: 0 <= i < k ==> r[i] == q[i] && r[i].when <= now by {
      forall i | 0 <= i < k
        ensures r[i] == q[i] && r[i].when <= now
      {
        QueuedAt(q, p, i);
        assert i < InsertAt(Whens(q), p.when) by {
          assert InsertAt(Whens(q), p.when) == |q| || Whens(q)[InsertAt(Whens(q), p.when)] > p.when;
        }
      }
    }
    QueuedAt(q, p, k);
    assert r[k].when > now;
  }

  // ---- the history of a run ----

  /** Every interrupt ever scheduled; those scheduled from outside the handlers; those that were fired, in the order in
      which they were; and the time of each. */
  datatype Record =
    Record(ever: multiset<PendingInterrupt>, direct: multiset<PendingInterrupt>, log: Queue, times: seq<int>)

  /** What was fired and what is pending form one sequence in the order of due times, and together they are exactly what
      was scheduled; nothing fired early, nothing fires in the past, and firing times never go back. */
  ghost predicate Recorded(q: Queue, r: Record, now: int) {
    && r.ever == multiset(r.log) + multiset(q)
    && InOrder(r.log + q)
    && |r.times| == |r.log|
    && (forall i :: 0 <= i < |r.log| ==> r.log[i].when <= r.times[i] <= now)
    && (forall i, j :: 0 <= i < j < |r.times| ==> r.times[i] <= r.times[j])
  }

  function Scheduled(r: Record, p: PendingInterrupt): Record {
    r.(ever := r.ever + multiset{p})
  }

  /** The interrupts that a handler asks for at time `now`. */
  function Wanted(requests: seq<Request>, now: int): (q: Queue)
    ensures |q| == |requests|
  {
    seq(|requests|, i requires 0 <= i < |requests| =>
      PendingInterrupt(requests[i].handler, now + requests[i].fromNow, requests[i].kind))
  }

  /** What the handlers of all fired interrupts have asked for, the i-th call being for the i-th one fired. */
  ghost function Asked(script: Script, log: Queue, times: seq<int>): multiset<PendingInterrupt> {
    if log == [] || |times| != |log| then multiset{} else
      var n := |log| - 1;
      Asked(script, log[..n], times[..n]) + multiset(Wanted(script(n, log[n]).requests, times[n]))
  }

  lemma AskedOneMore(script: Script, log: Queue, times: seq<int>, p: PendingInterrupt, now: int)
    requires |times| == |log|
    ensures Asked(script, log + [p], times + [now])
            == Asked(script, log, times) + multiset(Wanted(script(|log|, p).requests, now))
  {
    assert (log + [p])[..|log|] == log && (times + [now])[..|log|] == times;
  }

  /** Whether a handler called since the log had n entries asked for a context switch. */
  ghost predicate SwitchedSince(script: Script, log: Queue, n: nat) {
    exists i :: n <= i < |log| && script(i, log[i]).switches
  }

  lemma SwitchedNever(script: Script, log: Queue)
    ensures !SwitchedSince(script, log, |log|)
  {
  }

  lemma SwitchedOneMore(script: Script, log: Queue, n: nat, p: PendingInterrupt)
    requires n <= |log|
    ensures SwitchedSince(script, log + [p], n) <==> SwitchedSince(script, log, n) || script(|log|, p).switches
  {
    var more := log + [p];
    if SwitchedSince(script, log, n) {
      var i :| n <= i < |log| && script(i, log[i]).switches;
      assert script(i, more[i]).switches;
    }
    if script(|log|, p).switches {
      assert script(|log|, more[|log|]).switches;
    }
  }

  /** The record when the first i of a handler's requests have been met. */
  ghost function Met(r: Record, requests: seq<Request>, now: int, i: nat): Record
    requires i <= |requests|
  {
    r.(ever := r.ever + multiset(Wanted(requests, now)[..i]))
  }

  lemma MetOneMore(r: Record, requests: seq<Request>, now: int, i: nat)
    requires i < |requests|
    ensures var p := PendingInterrupt(requests[i].handler, now + requests[i].fromNow, requests[i].kind);
            Met(r, requests, now, i + 1) == Scheduled(Met(r, requests, now, i), p)
  {
    var q := Wanted(requests, now);
    assert q[..i + 1] == q[..i] + [q[i]];
  }

  lemma MetNoneOrAll(r: Record, requests: seq<Request>, now: int)
    ensures Met(r, requests, now, 0) == r
    ensures Met(r, requests, now, |requests|) == r.(ever := r.ever + multiset(Wanted(requests, now)))
  {
    assert Wanted(requests, now)[..|requests|] == Wanted(requests, now);
  }

  lemma TimesMatchLog(q: Queue, r: Record, now: int)
    requires Recorded(q, r, now)
    ensures |r.times| == |r.log|
  {
  }

  function Fired(r: Record, p: PendingInterrupt, now: int): Record {
    r.(log := r.log + [p], times := r.times + [now])
  }

  lemma InOrderParts(a: Queue, b: Queue)
    requires InOrder(a + b)
    ensures InOrder(a) && InOrder(b)
    ensures forall i, j :: 0 <= i < |a| && 0 <= j < |b| ==> a[i].when <= b[j].when
  {
    assert forall i :: 0 <= i < |a| ==> a[i] == (a + b)[i];
    assert forall i :: 0 <= i < |b| ==> b[i] == (a + b)[|a| + i];
  }

  lemma InOrderJoined(a: Queue, b: Queue)
    requires InOrder(a) && InOrder(b)
    requires forall i, j :: 0 <= i < |a| && 0 <= j < |b| ==> a[i].when <= b[j].when
    ensures InOrder(a + b)
  {
  }

  lemma QueuedMembers(q: Queue, p: PendingInterrupt)
    ensures multiset(Queued(q, p)) == multiset(q) + multiset{p}
    ensures forall i :: 0 <= i < |Queued(q, p)| ==> Queued(q, p)[i] == p || Queued(q, p)[i] in q
  {
    hide InsertAt;
    SplicedBag(q, InsertAt(Whens(q), p.when), p);
  }

  lemma HistoryScheduled(q: Queue, r: Record, now: int, p: PendingInterrupt)
    requires Recorded(q, r, now) && now < p.when
    ensures Recorded(Queued(q, p), Scheduled(r, p), now)
  {
    hide Queued;
    InOrderParts(r.log, q);
    QueuedInOrder(q, p);
    QueuedMembers(q, p);
    InOrderJoined(r.log, Queued(q, p));
  }

  /** What was scheduled from outside is on record apart from the history. */
  lemma SameHistory(q: Queue, r: Record, direct: multiset<PendingInterrupt>, now: int)
    ensures Recorded(q, r, now) <==> Recorded(q, r.(direct := direct), now)
  {
  }

  lemma HistoryFired(q: Queue, r: Record, now: int)
    requires Recorded(q, r, now) && q != [] && q[0].when <= now
    ensures Recorded(q[1..], Fired(r, q[0], now), now)
  {
    assert q == [q[0]] + q[1..];
    assert r.log + [q[0]] + q[1..] == r.log + q;
  }

  /** Taking the head out and putting it back may move it behind its equals, and nothing more. */
  lemma HistoryPutBack(q: Queue, r: Record, now: int)
    requires Recorded(q, r, now) && q != []
    ensures Recorded(Queued(q[1..], q[0]), r, now)
  {
    var p, t := q[0], q[1..];
    hide Queued;
    assert q == [p] + t;
    InOrderParts(r.log, q);
    InOrderParts([p], t);
    QueuedInOrder(t, p);
    QueuedMembers(t, p);
    InOrderJoined(r.log, Queued(t, p));
  }

  /** The queue after its head was taken out, found not to fire, and put back. */
  function HeadPutBack(q: Queue): (r: Queue)
    ensures |r| == |q|
  {
    if q == [] then [] else Queued(q[1..], q[0])
  }

  /** Interrupts due at the same time need not fire in the order in which they were scheduled: a head that is put back
      goes behind all that are due when it is, so the order is kept exactly when those are all the same as the head. */
  lemma PutBackGoesBehindEquals(q: Queue)
    requires InOrder(q) && q != []
    ensures var k := |DuePart(q, q[0].when)|;
            && 0 < k
            && HeadPutBack(q) == q[1..k] + [q[0]] + q[k..]
            && (HeadPutBack(q) == q <==> forall i :: 0 <= i < k ==> q[i] == q[0])
  {
    hide Queued, DuePart;
    var p, t, k := q[0], q[1..], |DuePart(q, q[0].when)|;
    DuePartIs(q, p.when);
    QueuedIs(t, p, k - 1);
    assert t[..k - 1] == q[1..k] && t[k - 1..] == q[k..];
    RotationIsIdle(q, k);
  }

  lemma QueuedIs(q: Queue, p: PendingInterrupt, k: nat)
    requires k <= |q| && (forall i :: 0 <= i < k ==> q[i].when <= p.when) && (k < |q| ==> p.when < q[k].when)
    ensures Queued(q, p) == q[..k] + [p] + q[k..]
  {
    InsertAtIs(Whens(q), p.when, k);
  }

  lemma RotationIsIdle(q: Queue, k: nat)
    requires 0 < k <= |q|
    ensures q[1..k] + [q[0]] + q[k..] == q <==> forall i :: 0 <= i < k ==> q[i] == q[0]
  {
    var r := q[1..k] + [q[0]] + q[k..];
    if r == q {
      for i := 1 to k
        invariant forall j :: 0 <= j < i ==> q[j] == q[0]
      {
        assert r[i - 1] == q[i];
      }
    }
  }

  lemma HistoryInOrder(q: Queue, r: Record, now: int)
    requires Recorded(q, r, now)
    ensures InOrder(q)
  {
    InOrderParts(r.log, q);
  }

  /** Time may pass. */
  lemma HistoryAdvanced(q: Queue, r: Record, now: int, later: int)
    requires Recorded(q, r, now) && now <= later
    ensures Recorded(q, r, later)
  {
  }

  /** If the first interrupt is not due, none is, and it stays so when the first is put back. */
  lemma NoneDue(q: Queue, now: int)
    requires InOrder(q) && (q == [] || now < q[0].when)
    ensures DuePart(q, now) == []
    ensures q != [] ==> InOrder(q[1..]) && DuePart(Queued(q[1..], q[0]), now) == []
  {
    DuePartIs(q, now);
    if q != [] {
      DuePartKept(q[1..], q[0], now);
      DuePartIs(q[1..], now);
    }
  }

  lemma FirstDue(q: Queue, now: int)
    requires InOrder(q) && q != [] && q[0].when <= now
    ensures InOrder(q[1..]) && DuePart(q, now) == [q[0]] + DuePart(q[1..], now)
  {
    assert Whens(q)[1..] == Whens(q[1..]);
  }

  /** What Fire takes from the history, up to the call of the handler. */
  lemma FiringHead(script: Script, q: Queue, r: Record, now: int)
    requires Recorded(q, r, now) && q != [] && q[0].when <= now
    ensures Recorded(q[1..], Fired(r, q[0], now), now)
    ensures DuePart(q, now) == [q[0]] + DuePart(q[1..], now)
    ensures Asked(script, r.log + [q[0]], r.times + [now])
            == Asked(script, r.log, r.times) + multiset(Wanted(script(|r.log|, q[0]).requests, now))
  {
    hide DuePart, InOrder, Wanted, Asked, Recorded;
    TimesMatchLog(q, r, now);
    AskedOneMore(script, r.log, r.times, q[0], now);
    HistoryInOrder(q, r, now);
    HistoryFired(q, r, now);
    FirstDue(q, now);
  }

  lemma NothingDue(q: Queue, r: Record, now: int)
    requires Recorded(q, r, now)
    ensures DuePart(q, now) == [] ==> forall p :: p in q ==> now < p.when
  {
    HistoryInOrder(q, r, now);
    DuePartIs(q, now);
  }

  lemma NothingPending(now: int)
    ensures DuePart([], now) == []
  {
  }

  lemma LonePutBack(q: Queue)
    ensures |q| <= 1 ==> HeadPutBack(q) == q
  {
  }

  // ---- an idle machine's timer ----

  predicate IsLoneTimer(q: Queue) {
    |q| == 1 && q[0].kind == TimerInt
  }

  /** Everything pending is due, the last of it is a timer's, and the handlers of the others -- calls n, n + 1 and so
      on -- ask for nothing. */
  ghost predicate TimerStays(script: Script, n: nat, q: Queue, now: int) {
    && q != [] && DuePart(q, now) == q && q[|q| - 1].kind == TimerInt
    && forall i :: 0 <= i < |q| - 1 ==> script(n + i, q[i]).requests == []
  }

  /** The head of q was due and has fired: it is the last of the log, and its handler's requests, none of them due, have
      joined the queue. */
  ghost predicate HeadFired(script: Script, log: Queue, q: Queue, log2: Queue, q2: Queue, now: int) {
    && q != [] && log2 == log + [q[0]]
    && DuePart(q, now) == [q[0]] + DuePart(q2, now)
    && |q2| == |q| - 1 + |script(|log|, q[0]).requests|
  }

  /** What was fired followed by what is due is the same sequence before and after. */
  lemma HeadFiredConserves(script: Script, log: Queue, q: Queue, log2: Queue, q2: Queue, now: int)
    requires HeadFired(script, log, q, log2, q2, now)
    ensures log2 + DuePart(q2, now) == log + DuePart(q, now) && |log2| == |log| + 1
    ensures |DuePart(q2, now)| < |DuePart(q, now)|
  {
  }

  /** Firing the head of a queue that is not a lone timer does not change whether a timer will be left at the end. */
  lemma TimerStaysOn(script: Script, n: nat, q: Queue, later: Queue, now: int)
    requires q != [] && !IsLoneTimer(q) && DuePart(q, now) == [q[0]] + DuePart(later, now)
    requires |later| == |q| - 1 + |script(n, q[0]).requests|
    ensures TimerStays(script, n, q, now) <==> TimerStays(script, n + 1, later, now)
  {
    hide DuePart;
    if TimerStays(script, n, q, now) {
      assert |q| >= 2 && script(n + 0, q[0]).requests == [];
      assert later == q[1..];
      assert forall i :: 0 <= i < |later| - 1 ==> script(n + 1 + i, later[i]) == script(n + (i + 1), q[i + 1]);
    }
    if TimerStays(script, n + 1, later, now) {
      assert q == [q[0]] + later;
      forall i | 0 <= i < |q| - 1
        ensures script(n + i, q[i]).requests == []
      {
        assert i > 0 ==> script(n + 1 + (i - 1), later[i - 1]).requests == [];
      }
    }
  }

  /** When nothing more fires, something due is left exactly if it is a lone timer. */
  lemma TimerStaysAtLast(script: Script, n: nat, q: Queue, now: int)
    requires DuePart(q, now) == [] || IsLoneTimer(q)
    ensures TimerStays(script, n, q, now) <==> DuePart(q, now) != []
  {
  }

  /** What one call of CheckIfDue means for the log since its n-th entry, for what is due and for an idle machine's
      timer. */
  lemma TurnTaken(script: Script, n: nat, log: Queue, q: Queue, log2: Queue, q2: Queue, now: int,
                  idle: bool, fired: bool)
    requires n <= |log|
    requires fired ==> HeadFired(script, log, q, log2, q2, now) && !(idle && IsLoneTimer(q))
    requires !fired ==>
               log2 == log && DuePart(q2, now) == DuePart(q, now) && (DuePart(q, now) == [] || (idle && IsLoneTimer(q)))
    ensures log2 + DuePart(q2, now) == log + DuePart(q, now)
    ensures fired ==> q != [] && |log2| == |log| + 1 && |DuePart(q2, now)| < |DuePart(q, now)|
    ensures SwitchedSince(script, log2, n)
            <==> SwitchedSince(script, log, n) || (fired && script(|log|, q[0]).switches)
    ensures idle && fired ==> (TimerStays(script, |log2|, q2, now) <==> TimerStays(script, |log|, q, now))
    ensures !fired ==> (DuePart(q2, now) != [] <==> idle && TimerStays(script, |log|, q, now))
  {
    hide DuePart, TimerStays, SwitchedSince;
    if fired {
      HeadFiredConserves(script, log, q, log2, q2, now);
      SwitchedOneMore(script, log, n, q[0]);
      if idle {
        TimerStaysOn(script, |log|, q, q2, now);
      }
    } else {
      TimerStaysAtLast(script, |log|, q, now);
    }
  }

  // ---- the machine's clock ----

  class Statistics {
    var totalTicks: int
    var idleTicks: int
    var systemTicks: int
    var userTicks: int

    constructor ()
      ensures totalTicks == 0 && idleTicks == 0 && systemTicks == 0 && userTicks == 0
    {
      totalTicks, idleTicks, systemTicks, userTicks := 0, 0, 0, 0;
    }
  }

  class Interrupt {
    const stats: Statistics
    const pending: List<PendingInterrupt>
    const script: Script
    var level: IntStatus
    var inHandler: bool
    var yieldOnReturn: bool
    var status: MachineStatus
    var calls: nat
    ghost var record: Record

    ghost function Queue(): Queue
      reads pending
    {
      pending.Items()
    }

    ghost predicate Queueing()
      reads this`record, stats, pending, pending.nodes
    {
      && pending.Valid()
      && pending.Keys() == Whens(Queue())
      && Recorded(Queue(), record, stats.totalTicks)
    }

    /** Each fired interrupt's handler was called once, and whatever it asked for was scheduled. */
    ghost predicate Accounted()
      reads this`record, this`calls
    {
      calls == |record.log| && record.ever == record.direct + Asked(script, record.log, record.times)
    }

    /** The list holds the pending interrupts under their due times; the history is in order; and every tick of the
        clock was spent idle, in the system or in a user program. */
    ghost predicate Valid()
      reads this`record, this`calls, stats, pending, pending.nodes
    {
      && Queueing()
      && Accounted()
      && stats.totalTicks == stats.idleTicks + stats.systemTicks + stats.userTicks
    }

    /** `script` stands for the device handlers: what the n-th call of a handler does. */
    constructor (script: Script)
      ensures Valid() && fresh(stats) && fresh(pending) && Queue() == [] && stats.totalTicks == 0
      ensures pending.Elements() == {} && this.script == script
      ensures level == IntOff && !inHandler && !yieldOnReturn && status == SystemMode
      ensures record == Record(multiset{}, multiset{}, [], [])
    {
      stats := new Statistics();
      pending := new List<PendingInterrupt>();
      this.script := script;
      level, inHandler, yieldOnReturn, status, calls := IntOff, false, false, SystemMode, 0;
      record := Record(multiset{}, multiset{}, [], []);
    }

    method Insert(p: PendingInterrupt)
      requires pending.Valid() && pending.Keys() == Whens(Queue())
      modifies pending, pending.Elements()
      ensures pending.Valid() && pending.Keys() == Whens(Queue()) && Queue() == Queued(old(Queue()), p)
      ensures fresh(pending.Elements() - old(pending.Elements()))
    {
      hide KeysOf, ItemsOf, Spliced, InsertAt, Whens;
      WhensQueued(pending.Items(), p);
      pending.SortedInsert(p, p.when);
    }

    /** Arrange for an interrupt; nothing becomes due. */
    method Schedule(handler: nat, fromNow: Ticks, kind: IntType)
      requires Valid()
      modifies this`record, pending, pending.Elements()
      ensures Valid()
      ensures var p := PendingInterrupt(handler, stats.totalTicks + fromNow, kind);
              && Queue() == Queued(old(Queue()), p)
              && record == Scheduled(old(record), p).(direct := old(record.direct) + multiset{p})
      ensures DuePart(Queue(), stats.totalTicks) == DuePart(old(Queue()), stats.totalTicks)
      ensures fresh(pending.Elements() - old(pending.Elements()))
    {
      hide KeysOf, ItemsOf, Queued, DuePart, Whens, Recorded, Asked;
      Enqueue(handler, fromNow, kind);
      var toOccur := PendingInterrupt(handler, stats.totalTicks + fromNow, kind);
      record := record.(direct := record.direct + multiset{toOccur});
      SameHistory(Queue(), record, old(record.direct), stats.totalTicks);
    }

    method Enqueue(handler: nat, fromNow: Ticks, kind: IntType)
      requires Queueing()
      modifies this`record, pending, pending.Elements()
      ensures Queueing()
      ensures var p := PendingInterrupt(handler, stats.totalTicks + fromNow, kind);
              Queue() == Queued(old(Queue()), p) && record == Scheduled(old(record), p)
      ensures DuePart(Queue(), stats.totalTicks) == DuePart(old(Queue()), stats.totalTicks)
      ensures fresh(pending.Elements() - old(pending.Elements()))
    {
      hide KeysOf, ItemsOf, Queued, DuePart, InOrder, Scheduled, Whens;
      ghost var q, now := Queue(), stats.totalTicks;
      var p := PendingInterrupt(handler, stats.totalTicks + fromNow, kind);
      HistoryScheduled(q, record, now, p);
      HistoryInOrder(q, record, now);
      DuePartKept(q, p, now);
      Insert(p);
      record := Scheduled(record, p);
    }

    /** The handler schedules what it wants and may ask for a context switch; it cannot make anything due. */
    method CallHandler(p: PendingInterrupt)
      requires Queueing()
      modifies this`record, this`yieldOnReturn, this`calls, pending, pending.Elements()
      ensures Queueing()
      ensures DuePart(Queue(), stats.totalTicks) == DuePart(old(Queue()), stats.totalTicks)
      ensures calls == old(calls) + 1 && |Queue()| == |old(Queue())| + |script(old(calls), p).requests|
      ensures var effect := script(old(calls), p);
              && record == old(record).(ever := old(record.ever) + multiset(Wanted(effect.requests, stats.totalTicks)))
              && yieldOnReturn == (old(yieldOnReturn) || effect.switches)
      ensures fresh(pending.Elements() - old(pending.Elements()))
    {
      hide Queueing, Queue, DuePart, Queued, Wanted, Met, Scheduled;
      var effect := script(calls, p);
      calls := calls + 1;
      yieldOnReturn := yieldOnReturn || effect.switches;
      MetNoneOrAll(record, effect.requests, stats.totalTicks);
      for i := 0 to |effect.requests|
        invariant Queueing()
        invariant DuePart(Queue(), stats.totalTicks) == DuePart(old(Queue()), stats.totalTicks)
        invariant |Queue()| == |old(Queue())| + i
        invariant record == Met(old(record), effect.requests, stats.totalTicks, i)
        invariant calls == old(calls) + 1 && yieldOnReturn == (old(yieldOnReturn) || effect.switches)
        invariant fresh(pending.Elements() - old(pending.Elements()))
      {
        var r := effect.requests[i];
        MetOneMore(old(record), effect.requests, stats.totalTicks, i);
        Enqueue(r.handler, r.fromNow, r.kind);
      }
    }

    method Take() returns (taken: Queue, when: int)
      requires pending.Valid() && pending.Keys() == Whens(Queue())
      modifies pending
      ensures pending.Valid() && pending.Keys() == Whens(Queue())
      ensures if old(Queue()) == [] then taken == [] && Queue() == []
              else taken == [old(Queue())[0]] && when == taken[0].when && Queue() == old(Queue())[1..]
      ensures fresh(pending.Elements() - old(pending.Elements()))
    {
      ghost var q := Queue();
      taken, when := pending.SortedRemove();
      if q != [] {
        assert Whens(q)[1..] == Whens(q[1..]);
      }
    }

    /** Call the handler of the interrupt that was just taken off the queue `q`. */
    method Fire(toOccur: PendingInterrupt, ghost q: Queue)
      requires pending.Valid() && pending.Keys() == Whens(Queue()) && q == [toOccur] + Queue()
      requires toOccur.when <= stats.totalTicks && Recorded(q, record, stats.totalTicks)
      requires stats.totalTicks == stats.idleTicks + stats.systemTicks + stats.userTicks && Accounted()
      modifies this`record, this`yieldOnReturn, this`calls, this`status, this`inHandler, pending, pending.Elements()
      ensures Valid() && status == old(status) && !inHandler && fresh(pending.Elements() - old(pending.Elements()))
      ensures record.direct == old(record.direct)
      ensures yieldOnReturn == (old(yieldOnReturn) || script(|old(record.log)|, toOccur).switches)
      ensures HeadFired(script, old(record.log), q, record.log, Queue(), stats.totalTicks)
    {
      hide DuePart, Whens, KeysOf, ItemsOf, InOrder, Wanted, Asked, Recorded, Lists.List<PendingInterrupt>.Valid,
        TimerStays, IsLoneTimer;
      var was := status;
      assert q[1..] == Queue();
      FiringHead(script, q, record, stats.totalTicks);
      record := Fired(record, toOccur, stats.totalTicks);
      inHandler := true;
      status := SystemMode;
      CallHandler(toOccur);
      status := was;
      inHandler := false;
    }

    /** A lone timer interrupt does not keep an idle machine going. */
    ghost predicate LoneTimer()
      reads this`status, pending
    {
      status == IdleMode && IsLoneTimer(Queue())
    }

    /** The time to which CheckIfDue takes the clock. */
    ghost function TimeReached(advanceClock: bool): int
      reads stats, pending
    {
      if advanceClock && Queue() != [] && Queue()[0].when > stats.totalTicks then Queue()[0].when else stats.totalTicks
    }

    /** Fire the first interrupt if it is due, after letting time jump to it if `advanceClock`.  What was fired followed
        by what is due is the same sequence before and after. */
    method CheckIfDue(advanceClock: bool) returns (fired: bool)
      requires Valid() && level == IntOff
      modifies this`record, this`yieldOnReturn, this`calls, this`status, this`inHandler, stats, pending,
        pending.Elements()
      ensures Valid() && status == old(status) && fresh(pending.Elements() - old(pending.Elements()))
      ensures stats.totalTicks == old(TimeReached(advanceClock))
      ensures stats.idleTicks == old(stats.idleTicks) + stats.totalTicks - old(stats.totalTicks)
      ensures stats.systemTicks == old(stats.systemTicks) && stats.userTicks == old(stats.userTicks)
      ensures fired <==> old(Queue()) != [] && old(Queue())[0].when <= stats.totalTicks && !old(LoneTimer())
      ensures fired ==> HeadFired(script, old(record.log), old(Queue()), record.log, Queue(), stats.totalTicks)
      ensures fired ==> !inHandler && record.direct == old(record.direct)
      ensures yieldOnReturn == (old(yieldOnReturn) || (fired && script(|old(record.log)|, old(Queue())[0]).switches))
      ensures !fired ==> record == old(record) && inHandler == old(inHandler) && Queue() == HeadPutBack(old(Queue()))
      ensures !fired ==> DuePart(Queue(), stats.totalTicks) == DuePart(old(Queue()), stats.totalTicks)
      ensures !fired ==> DuePart(old(Queue()), stats.totalTicks) == [] || old(LoneTimer())
    {
      hide DuePart, Whens, KeysOf, ItemsOf, Recorded, Asked, HeadFired, HeadPutBack, Lists.List<PendingInterrupt>.Valid;
      ghost var q, now := Queue(), TimeReached(advanceClock);
      HistoryAdvanced(q, record, stats.totalTicks, now);
      var taken, when := Take();
      if taken == [] {
        NothingPending(now);
        LonePutBack(q);
        return false;
      }
      var toOccur := taken[0];
      if advanceClock && when > stats.totalTicks {
        stats.idleTicks := stats.idleTicks + (when - stats.totalTicks);
        stats.totalTicks := when;
      } else if when > stats.totalTicks {
        PutBack(toOccur, q);
        return false;
      }
      if status == IdleMode && toOccur.kind == TimerInt && pending.IsEmpty() {
        assert q == [toOccur];
        PutBack(toOccur, q);
        return false;
      }
      Fire(toOccur, q);
      return true;
    }

    /** Put the interrupt that was just taken off the queue `q` back in. */
    method PutBack(toOccur: PendingInterrupt, ghost q: Queue)
      requires pending.Valid() && pending.Keys() == Whens(Queue()) && q == [toOccur] + Queue()
      requires Recorded(q, record, stats.totalTicks)
      modifies pending, pending.Elements()
      ensures Queueing() && |Queue()| == |q| && fresh(pending.Elements() - old(pending.Elements()))
      ensures toOccur.when > stats.totalTicks ==>
                DuePart(Queue(), stats.totalTicks) == DuePart(q, stats.totalTicks) == []
      ensures Queue() == HeadPutBack(q) && (|q| == 1 ==> Queue() == q)
    {
      hide DuePart, Whens, KeysOf, ItemsOf, InOrder, Recorded, Lists.List<PendingInterrupt>.Valid;
      assert q[1..] == Queue();
      HistoryInOrder(q, record, stats.totalTicks);
      HistoryPutBack(q, record, stats.totalTicks);
      if toOccur.when > stats.totalTicks {
        NoneDue(q, stats.totalTicks);
      }
      LonePutBack(q);
      Insert(toOccur);
    }

    /** Fire until nothing more does.  Every handler call uses up one due interrupt and makes no new one. */
    method FireAllDue()
      requires Valid() && level == IntOff
      modifies this`record, this`yieldOnReturn, this`calls, this`status, this`inHandler, stats, pending,
        pending.Elements()
      ensures Valid() && status == old(status) && fresh(pending.Elements() - old(pending.Elements()))
      ensures stats.totalTicks == old(stats.totalTicks) && stats.idleTicks == old(stats.idleTicks)
      ensures stats.systemTicks == old(stats.systemTicks) && stats.userTicks == old(stats.userTicks)
      ensures record.log + DuePart(Queue(), stats.totalTicks)
              == old(record.log) + DuePart(old(Queue()), stats.totalTicks)
      ensures |old(record.log)| <= |record.log| && record.direct == old(record.direct)
      ensures yieldOnReturn == (old(yieldOnReturn) || SwitchedSince(script, record.log, |old(record.log)|))
      ensures DuePart(Queue(), stats.totalTicks) == [] || LoneTimer()
      ensures DuePart(Queue(), stats.totalTicks) != []
              <==> status == IdleMode && TimerStays(script, |old(record.log)|, old(Queue()), stats.totalTicks)
      ensures DuePart(old(Queue()), stats.totalTicks) == [] ==>
                record == old(record) && Queue() == HeadPutBack(old(Queue()))
    {
      hide Valid, Queue, DuePart, SwitchedSince, Asked, Queueing, Accounted, TimerStays, HeadPutBack, HeadFired;
      ghost var log, q := record.log, Queue();
      SwitchedNever(script, log);
      var fired := CheckIfDue(false);
      TurnTaken(script, |log|, log, q, record.log, Queue(), stats.totalTicks, status == IdleMode, fired);
      while fired
        invariant Valid() && status == old(status) && fresh(pending.Elements() - old(pending.Elements()))
        invariant stats.totalTicks == old(stats.totalTicks) && stats.idleTicks == old(stats.idleTicks)
        invariant stats.systemTicks == old(stats.systemTicks) && stats.userTicks == old(stats.userTicks)
        invariant record.log + DuePart(Queue(), stats.totalTicks)
                  == old(record.log) + DuePart(old(Queue()), stats.totalTicks)
        invariant |old(record.log)| <= |record.log| && record.direct == old(record.direct)
        invariant yieldOnReturn == (old(yieldOnReturn) || SwitchedSince(script, record.log, |old(record.log)|))
        invariant !fired ==> DuePart(Queue(), stats.totalTicks) == [] || LoneTimer()
        invariant fired && status == IdleMode ==>
                    (TimerStays(script, |record.log|, Queue(), stats.totalTicks)
                     <==> TimerStays(script, |old(record.log)|, old(Queue()), stats.totalTicks))
        invariant !fired ==>
                    (DuePart(Queue(), stats.totalTicks) != []
                     <==> status == IdleMode && TimerStays(script, |old(record.log)|, old(Queue()), stats.totalTicks))
        invariant DuePart(old(Queue()), stats.totalTicks) == [] ==>
                    !fired && record == old(record) && Queue() == HeadPutBack(old(Queue()))
        decreases |DuePart(Queue(), stats.totalTicks)|, fired
      {
        log, q := record.log, Queue();
        fired := CheckIfDue(false);
        TurnTaken(script, |old(record.log)|, log, q, record.log, Queue(), stats.totalTicks, status == IdleMode, fired);
      }
    }

    ghost function TickLength(): int
      reads this`status
    {
      if status == SystemMode then SYSTEM_TICK else USER_TICK
    }

    /** Time moves by one tick and everything due by then fires, in order and exactly once.  The answer is whether a
        handler asked for the running thread to be preempted. */
    method OneTick() returns (preempt: bool)
      requires Valid()
      modifies this, stats, pending, pending.Elements()
      ensures Valid() && level == IntOn && status == old(status) && !yieldOnReturn
      ensures fresh(pending.Elements() - old(pending.Elements()))
      ensures old(status) == SystemMode ==>
                stats.systemTicks == old(stats.systemTicks) + SYSTEM_TICK && stats.userTicks == old(stats.userTicks)
      ensures old(status) != SystemMode ==>
                stats.userTicks == old(stats.userTicks) + USER_TICK && stats.systemTicks == old(stats.systemTicks)
      ensures stats.idleTicks == old(stats.idleTicks) && stats.totalTicks == old(stats.totalTicks + TickLength())
      ensures record.direct == old(record.direct)
      ensures preempt == (old(yieldOnReturn) || SwitchedSince(script, record.log, |old(record.log)|))
      ensures status != IdleMode ==> record.log == old(record.log) + DuePart(old(Queue()), stats.totalTicks)
      ensures status != IdleMode ==> forall p :: p in Queue() ==> stats.totalTicks < p.when
      ensures DuePart(old(Queue()), stats.totalTicks) == [] ==>
                record == old(record) && Queue() == HeadPutBack(old(Queue()))
    {
      hide DuePart, Whens, KeysOf, ItemsOf, InOrder, Recorded, Asked, SwitchedSince, Lists.List<PendingInterrupt>.Valid;
      var was := status;
      AdvanceClock();
      level := IntOff;
      FireAllDue();
      NothingDue(Queue(), record, stats.totalTicks);
      level := IntOn;
      preempt := yieldOnReturn;
      if yieldOnReturn {
        yieldOnReturn := false;
        status := SystemMode;
        status := was;
      }
    }

    method AdvanceClock()
      requires Valid()
      modifies stats
      ensures Valid() && stats.idleTicks == old(stats.idleTicks)
      ensures stats.totalTicks == old(stats.totalTicks) + TickLength()
      ensures stats.systemTicks == old(stats.systemTicks) + if status == SystemMode then SYSTEM_TICK else 0
      ensures stats.userTicks == old(stats.userTicks) + if status == SystemMode then 0 else USER_TICK
    {
      hide Whens, KeysOf, ItemsOf, InOrder, Recorded, Asked, Lists.List<PendingInterrupt>.Valid;
      ghost var now := stats.totalTicks + TickLength();
      HistoryAdvanced(Queue(), record, stats.totalTicks, now);
      if status == SystemMode {
        stats.totalTicks := stats.totalTicks + SYSTEM_TICK;
        stats.systemTicks := stats.systemTicks + SYSTEM_TICK;
      } else {
        stats.totalTicks := stats.totalTicks + USER_TICK;
        stats.userTicks := stats.userTicks + USER_TICK;
      }
    }

    /** With no thread to run, time jumps to the first interrupt, which fires along with everything else due by then.
        When there is none, or only a timer's, the machine halts.  A timer's interrupt that is alone in the queue stays
        there, even if it is due. */
    method Idle() returns (halted: bool)
      requires Valid() && level == IntOff
      modifies this, stats, pending, pending.Elements()
      ensures Valid() && level == IntOff && fresh(pending.Elements() - old(pending.Elements()))
      ensures halted <==> old(Queue()) == [] || IsLoneTimer(old(Queue()))
      ensures stats.totalTicks == old(TimeReached(true))
      ensures stats.idleTicks == old(stats.idleTicks) + stats.totalTicks - old(stats.totalTicks)
      ensures stats.systemTicks == old(stats.systemTicks) && stats.userTicks == old(stats.userTicks)
      ensures record.log + DuePart(Queue(), stats.totalTicks)
              == old(record.log) + DuePart(old(Queue()), stats.totalTicks)
      ensures halted ==> record == old(record) && Queue() == old(Queue())
      ensures !halted ==> status == SystemMode && !yieldOnReturn && |old(record.log)| < |record.log|
      ensures !halted ==> DuePart(Queue(), stats.totalTicks) == [] || IsLoneTimer(Queue())
      ensures !halted ==>
                (DuePart(Queue(), stats.totalTicks) != []
                 <==> TimerStays(script, |old(record.log)|, old(Queue()), stats.totalTicks))
    {
      hide Valid, Queue, DuePart, SwitchedSince, Asked, Queueing, Accounted, TimerStays, HeadPutBack, HeadFired;
      status := IdleMode;
      halted := false;
      ghost var log, q := record.log, Queue();
      var fired := CheckIfDue(true);
      TurnTaken(script, |log|, log, q, record.log, Queue(), stats.totalTicks, true, fired);
      if fired {
        FireAllDue();
        yieldOnReturn := false;
        status := SystemMode;
        return;
      }
      LonePutBack(q);
      return true;
    }

    /** Enabling interrupts that were disabled costs a tick. */
    method SetLevel(now: IntStatus) returns (was: IntStatus, preempt: bool)
      requires Valid() && (now == IntOff || !inHandler)
      modifies this, stats, pending, pending.Elements()
      ensures Valid() && level == now && was == old(level) && status == old(status)
      ensures fresh(pending.Elements() - old(pending.Elements()))
      ensures if now == IntOn && was == IntOff then stats.totalTicks == old(stats.totalTicks + TickLength())
              else stats.totalTicks == old(stats.totalTicks) && !preempt
      ensures stats.idleTicks == old(stats.idleTicks)
      ensures stats.systemTicks - old(stats.systemTicks)
              == if now == IntOn && was == IntOff && status == SystemMode then SYSTEM_TICK else 0
      ensures !(now == IntOn && was == IntOff) ==> record == old(record) && Queue() == old(Queue())
      ensures now == IntOn && was == IntOff ==>
                && !yieldOnReturn
                && preempt == (old(yieldOnReturn) || SwitchedSince(script, record.log, |old(record.log)|))
      ensures now == IntOn && was == IntOff && status != IdleMode ==>
                && record.log == old(record.log) + DuePart(old(Queue()), stats.totalTicks)
                && forall p :: p in Queue() ==> stats.totalTicks < p.when
    {
      hide DuePart, SwitchedSince, Queueing, Accounted, Queue;
      was, preempt := level, false;
      level := now;
      if now == IntOn && was == IntOff {
        preempt := OneTick();
      }
    }
  }

  // ---- two runs ----

  lemma TwoTogether(a: PendingInterrupt, b: PendingInterrupt, before: int, at: int)
    requires a.when == b.when && before < a.when <= at
    ensures Queued([], a) == [a] && Queued([a], b) == [a, b] && HeadPutBack([a, b]) == [b, a]
    ensures DuePart([a, b], before) == [] && DuePart([b, a], at) == [b, a] && DuePart([a, b], at) == [a, b]
  {
    assert InsertAt([], a.when) == 0;
    InsertAtIs(Whens([a]), b.when, 1);
    InsertAtIs(Whens([b]), a.when, 1);
    InsertAtIs(Whens([a, b]), before, 0);
    InsertAtIs(Whens([a, b]), at, 2);
    InsertAtIs(Whens([b, a]), at, 2);
    assert [a, b][1..] == [b];
  }

  /** A machine that has just started, with a disk's and another interrupt pending for the same time and handlers
      that ask for nothing. */
  method TwoScheduled(fromNow: Ticks, kind: IntType) returns (interrupt: Interrupt)
    ensures fresh(interrupt) && fresh(interrupt.stats)
            && fresh(interrupt.pending) && fresh(interrupt.pending.Elements())
    ensures interrupt.Valid() && interrupt.status == SystemMode && interrupt.level == IntOff
    ensures interrupt.stats.totalTicks == 0 && interrupt.record.log == []
    ensures interrupt.Queue() == [PendingInterrupt(1, fromNow, DiskInt), PendingInterrupt(2, fromNow, kind)]
    ensures forall n, p :: interrupt.script(n, p).requests == []
  {
    hide DuePart, Queued, HeadPutBack, SwitchedSince, Whens, Recorded, Asked, KeysOf, ItemsOf, Interrupt.Queueing,
      Interrupt.Accounted, Interrupt.Queue;
    TwoTogether(PendingInterrupt(1, fromNow, DiskInt), PendingInterrupt(2, fromNow, kind), 0, fromNow);
    interrupt := new Interrupt((n: nat, p: PendingInterrupt) => Effect([], false));
    interrupt.Schedule(1, fromNow, DiskInt);
    interrupt.Schedule(2, fromNow, kind);
  }

  /** First come is not first served: of two interrupts scheduled for the same time, one tick before which neither is
      due, the second fires first. */
  method SecondFiresFirst() returns (interrupt: Interrupt)
    ensures fresh(interrupt) && interrupt.Valid()
    ensures interrupt.record.log == [PendingInterrupt(2, 15, DiskInt), PendingInterrupt(1, 15, DiskInt)]
  {
    hide DuePart, Queued, HeadPutBack, SwitchedSince, Whens, Recorded, Asked, KeysOf, ItemsOf, Interrupt.Queueing,
      Interrupt.Accounted, Interrupt.Queue;
    TwoTogether(PendingInterrupt(1, 15, DiskInt), PendingInterrupt(2, 15, DiskInt), 10, 20);
    interrupt := TwoScheduled(15, DiskInt);
    var first := interrupt.OneTick();
    var second := interrupt.OneTick();
  }

  /** A timer's interrupt that is left pending although it is due: the one that was due with it fired first. */
  method TimerIsLeftDue() returns (interrupt: Interrupt)
    ensures fresh(interrupt) && interrupt.Valid() && interrupt.stats.totalTicks == 5
    ensures interrupt.Queue() == [PendingInterrupt(2, 5, TimerInt)]
    ensures interrupt.record.log == [PendingInterrupt(1, 5, DiskInt)]
  {
    hide DuePart, Queued, HeadPutBack, SwitchedSince, Whens, Recorded, Asked, KeysOf, ItemsOf, Interrupt.Queueing,
      Interrupt.Accounted, Interrupt.Queue;
    TwoTogether(PendingInterrupt(1, 5, DiskInt), PendingInterrupt(2, 5, TimerInt), 0, 5);
    interrupt := TwoScheduled(5, TimerInt);
    var halted := interrupt.Idle();
    ghost var q, log := interrupt.Queue(), interrupt.record.log;
    assert DuePart(q, 5) == q && |q| == 1;
    assert log == (log + q)[..|log|] && q == (log + q)[|log|..];
  }
}
