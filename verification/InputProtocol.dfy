/**
 * The input queue shared by threads (ConsoleInput.cpp): each call's critical
 * section is one step, waiters sleep on the condition variable and may wake at
 * any time, and forked queues are joined back.  The histories of what arrived
 * and what became of it are kept beside the queue.
 */
module InputProtocol {
  import opened Basics
  import opened ConsoleInputs

  // What became of an event that left a queue: taken by a requestor of some
  // priority while 'current' was the queue's priority, or flushed.
  datatype Fate = Taken(e: Event, priority: nat, current: nat) | Flushed(e: Event)

  // 'due' are the callbacks taken off the queue and still to be run: that happens
  // after the critical section, in the threads that took them.
  datatype Queue = Queue(pending: seq<Event>, priorities: set<nat>, arrived: seq<Event>, fates: seq<Fate>,
                         due: seq<Event>, invoked: seq<Event>)

  datatype Waiter = Asleep(priority: nat) | Notified(priority: nat)

  datatype State = State(main: Queue, waiters: map<nat, Waiter>, forks: map<nat, Queue>)

  const EMPTY := Queue([], {}, [], [], [], [])

  predicate Init(s: State) { s == State(EMPTY, map[], map[]) }

  // ---------------------------------------------------------------- the queue's own changes

  function Enqueued(q: Queue, data: seq<Event>): Queue {
    q.(pending := q.pending + data, arrived := q.arrived + data)
  }

  function TakenFates(data: seq<Event>, priority: nat, current: nat): seq<Fate> {
    seq(|data|, i requires 0 <= i < |data| => Taken(data[i], priority, current))
  }

  ghost function Dequeued(q: Queue, size: nat, priority: nat): Queue {
    var current := Current(q.priorities);
    if priority < current then q
    else
      var n := Min(size, |q.pending|);
      q.(pending := q.pending[n..], fates := q.fates + TakenFates(q.pending[..n], priority, current),
         due := q.due + Callbacks(q.pending[..n]))
  }

  // One callback that is due has been run.
  function Invoked(q: Queue, k: nat): Queue
    requires k < |q.due|
  {
    q.(due := q.due[..k] + q.due[k + 1..], invoked := q.invoked + [q.due[k]])
  }

  function FlushedFates(data: seq<Event>): seq<Fate> {
    seq(|data|, i requires 0 <= i < |data| => Flushed(data[i]))
  }

  ghost function FlushedOut(q: Queue, priority: nat): Queue {
    if priority < Current(q.priorities) then q
    else q.(pending := [], fates := q.fates + FlushedFates(q.pending))
  }

  // Any change one call makes to a queue, and whether it notifies the waiters.
  datatype QueueCall =
    | DoEnqueue(data: seq<Event>)
    | DoPeek(size: nat, priority: nat)
    | DoDequeue(size: nat, priority: nat)
    | DoInvoke(k: nat)
    | DoFlush(priority: nat)
    | DoRaise
    | DoLower(released: nat)

  // The callbacks of one call run in order, but those of other threads may come
  // between, and so may those of calls that a callback makes: any order is allowed.
  ghost predicate Allowed(q: Queue, call: QueueCall) {
    match call
    case DoLower(released) => released in q.priorities
    case DoInvoke(k) => k < |q.due|
    case _ => true
  }

  ghost function After(q: Queue, call: QueueCall): Queue
    requires Allowed(q, call)
  {
    match call
    case DoEnqueue(data) => Enqueued(q, data)
    case DoPeek(_, _) => q
    case DoDequeue(n, p) => Dequeued(q, n, p)
    case DoInvoke(k) => Invoked(q, k)
    case DoFlush(p) => FlushedOut(q, p)
    case DoRaise => q.(priorities := q.priorities + {Current(q.priorities) + 1})
    case DoLower(p) => q.(priorities := q.priorities - {p})
  }

  predicate Notifies(q: Queue, call: QueueCall) {
    match call
    case DoEnqueue(data) => data != []
    case DoLower(_) => q.pending != []
    case _ => false
  }

  function NotifiedAll(waiters: map<nat, Waiter>): map<nat, Waiter> {
    map t | t in waiters :: Notified(waiters[t].priority)
  }

  // ---------------------------------------------------------------- steps

  ghost predicate MainStep(s: State, r: State, call: QueueCall) {
    && Allowed(s.main, call)
    && r == s.(main := After(s.main, call),
               waiters := if Notifies(s.main, call) then NotifiedAll(s.waiters) else s.waiters)
  }

  ghost predicate ForkStep(s: State, r: State, f: nat, call: QueueCall) {
    && f in s.forks && Allowed(s.forks[f], call)
    && r == s.(forks := s.forks[f := After(s.forks[f], call)])
  }

  ghost predicate CreateFork(s: State, r: State, f: nat) {
    f !in s.forks && r == s.(forks := s.forks[f := EMPTY])
  }

  ghost predicate Join(s: State, r: State, f: nat) {
    && f in s.forks
    && var data := s.forks[f].pending;
       r == State(Enqueued(s.main, data), if data != [] then NotifiedAll(s.waiters) else s.waiters, s.forks - {f})
  }

  // The condition of the wait loop.
  ghost predicate MustWait(q: Queue, priority: nat) {
    q.pending == [] || priority < Current(q.priorities)
  }

  ghost predicate StartWait(s: State, r: State, t: nat, priority: nat) {
    && t !in s.waiters
    && r == if MustWait(s.main, priority) then s.(waiters := s.waiters[t := Asleep(priority)]) else s
  }

  // A notified or spuriously woken waiter checks again.
  ghost predicate Wake(s: State, r: State, t: nat) {
    && t in s.waiters
    && var p := s.waiters[t].priority;
       r == if MustWait(s.main, p) then s.(waiters := s.waiters[t := Asleep(p)]) else s.(waiters := s.waiters - {t})
  }

  // A waiter with a timeout gives up.
  ghost predicate GiveUp(s: State, r: State, t: nat) {
    t in s.waiters && r == s.(waiters := s.waiters - {t})
  }

  ghost predicate Next(s: State, r: State) {
    || (exists call :: MainStep(s, r, call))
    || (exists f, call :: ForkStep(s, r, f, call))
    || (exists f :: CreateFork(s, r, f) || Join(s, r, f))
    || (exists t, p :: StartWait(s, r, t, p))
    || (exists t :: Wake(s, r, t) || GiveUp(s, r, t))
  }

  ghost predicate IsRun(run: seq<State>) {
    && |run| > 0 && Init(run[0])
    && forall i :: 0 <= i < |run| - 1 ==> Next(run[i], run[i + 1])
  }

  // ---------------------------------------------------------------- the code takes these steps

  // What is due from the n-th callback on has been run, in that order.
  function InvokedFrom(q: Queue, n: nat): Queue
    requires n <= |q.due|
  {
    q.(due := q.due[..n], invoked := q.invoked + q.due[n..])
  }

  // That is what running them one after the other comes to.
  lemma AllInvokedBySteps(q: Queue, n: nat)
    requires n < |q.due|
    ensures Allowed(q, DoInvoke(n)) && InvokedFrom(After(q, DoInvoke(n)), n) == InvokedFrom(q, n)
  {
  }

  // The queue object in a state of the protocol.
  ghost predicate Is(ci: ConsoleInput, q: Queue)
    reads ci
  {
    ci.pending == q.pending && ci.priorities == q.priorities && ci.invoked == q.invoked
  }

  // Each method of the queue is the step of its name, with the callbacks it took
  // run one after the other, and notifies when the step does; whatever is still due
  // of other calls stays so.
  method Perform(ci: ConsoleInput, call: QueueCall, ghost q: Queue)
    requires Is(ci, q) && !call.DoInvoke? && Allowed(q, call)
    modifies ci
    ensures |q.due| <= |After(q, call).due| && Is(ci, InvokedFrom(After(q, call), |q.due|))
    ensures ci.notifications == old(ci.notifications) + if Notifies(q, call) then 1 else 0
  {
    hide Current, Callbacks, DeliveredAll;
    NothingMoreDue(q);
    match call {
      case DoEnqueue(events) =>
        var data := new Event[|events|](i requires 0 <= i < |events| => events[i]);
        assert data[..] == events;
        ci.Enqueue(data, |events|);
      case DoPeek(size, priority) =>
        var data := new Event[size](_ => Noop);
        var n := ci.Peek(data, size, priority);
      case DoDequeue(size, priority) =>
        var data := new Event[size](_ => Noop);
        var n := ci.Dequeue(data, size, priority);
        NoneTaken(q.pending, q.invoked);
        assert (q.due + Callbacks(q.pending[..n]))[|q.due|..] == Callbacks(q.pending[..n]);
      case DoFlush(priority) =>
        var n := ci.Flush(priority);
      case DoRaise =>
        var p := ci.RaiseRequestorPriority();
      case DoLower(released) =>
        ci.LowerRequestorPriority(released);
    }
  }

  lemma NothingMoreDue(q: Queue)
    ensures q.invoked + q.due[|q.due|..] == q.invoked
  {
  }

  lemma NoneTaken(s: seq<Event>, before: seq<Event>)
    ensures s[0..] == s && before + Callbacks(s[..0]) == before
  {
  }

  // Joining a forked queue is the protocol's step on the main queue.
  method PerformJoin(ci: ConsoleInput, fork: ConsoleInput, ghost q: Queue, ghost data: seq<Event>)
    requires Is(ci, q) && fork != ci && fork.pending == data
    modifies ci
    ensures Is(ci, Enqueued(q, data))
    ensures ci.notifications == old(ci.notifications) + if data != [] then 1 else 0
  {
    ci.JoinConsoleInput(fork);
  }

  // ---------------------------------------------------------------- what every state satisfies

  function EventsOf(fates: seq<Fate>): (r: seq<Event>)
    ensures |r| == |fates|
  {
    seq(|fates|, i requires 0 <= i < |fates| => fates[i].e)
  }

  // The events taken, in order.
  function TakenOf(fates: seq<Fate>): seq<Event> {
    if fates == [] then []
    else TakenOf(fates[..|fates| - 1]) + if fates[|fates| - 1].Taken? then [fates[|fates| - 1].e] else []
  }

  // Events leave in the order they arrived, each exactly once; the callbacks
  // of the taken events are each either run, once, or still due; and nobody
  // took an event below the priority of the moment.
  ghost predicate HistoryInv(q: Queue) {
    && q.arrived == EventsOf(q.fates) + q.pending
    && multiset(q.invoked) + multiset(q.due) == multiset(Callbacks(TakenOf(q.fates)))
    && PrioritiesKept(q.fates)
  }

  ghost predicate PrioritiesKept(fates: seq<Fate>) {
    forall i :: 0 <= i < |fates| && fates[i].Taken? ==> fates[i].current <= fates[i].priority
  }

  // No lost wake-up: whoever sleeps un-notified has reason to.
  ghost predicate WakeInv(s: State) {
    forall t :: t in s.waiters && s.waiters[t].Asleep? ==> MustWait(s.main, s.waiters[t].priority)
  }

  ghost predicate Inv(s: State) {
    HistoryInv(s.main) && WakeInv(s) && forall f :: f in s.forks ==> HistoryInv(s.forks[f])
  }

  lemma {:induction false} TakenConcat(a: seq<Fate>, b: seq<Fate>)
    ensures TakenOf(a + b) == TakenOf(a) + TakenOf(b)
    decreases |b|
  {
    if b == [] {
      assert a + b == a;
    } else {
      var n := |b| - 1;
      assert (a + b)[..|a| + n] == a + b[..n];
      TakenConcat(a, b[..n]);
    }
  }

  lemma {:induction false} TakenOfFlushed(fates: seq<Fate>)
    requires forall i :: 0 <= i < |fates| ==> fates[i].Flushed?
    ensures TakenOf(fates) == []
  {
    if fates != [] {
      TakenOfFlushed(fates[..|fates| - 1]);
    }
  }

  lemma {:induction false} TakenOfTaken(fates: seq<Fate>)
    requires forall i :: 0 <= i < |fates| ==> fates[i].Taken?
    ensures TakenOf(fates) == EventsOf(fates)
  {
    if fates != [] {
      TakenOfTaken(fates[..|fates| - 1]);
    }
  }

  lemma EventsConcat(a: seq<Fate>, b: seq<Fate>)
    ensures EventsOf(a + b) == EventsOf(a) + EventsOf(b)
  {
  }

  lemma TakenFatesAre(data: seq<Event>, priority: nat, current: nat)
    ensures EventsOf(TakenFates(data, priority, current)) == data == TakenOf(TakenFates(data, priority, current))
  {
    TakenOfTaken(TakenFates(data, priority, current));
    assert EventsOf(TakenFates(data, priority, current)) == data;
  }

  // Events leaving the front of the queue, taken or flushed.
  lemma LeavingKeepsHistory(q: Queue, n: nat, more: seq<Fate>, due: seq<Event>)
    requires HistoryInv(q) && n <= |q.pending| && EventsOf(more) == q.pending[..n] && PrioritiesKept(more)
    requires due == Callbacks(TakenOf(more))
    ensures HistoryInv(Queue(q.pending[n..], q.priorities, q.arrived, q.fates + more, q.due + due, q.invoked))
  {
    TakenConcat(q.fates, more);
    EventsConcat(q.fates, more);
    CallbacksConcat(TakenOf(q.fates), TakenOf(more));
    hide TakenOf, Callbacks, EventsOf;
    var e, data, rest := EventsOf(q.fates), q.pending[..n], q.pending[n..];
    assert q.pending == data + rest;
    assert e + (data + rest) == (e + data) + rest;
  }

  lemma DequeueKeepsHistory(q: Queue, size: nat, priority: nat)
    requires HistoryInv(q)
    ensures HistoryInv(Dequeued(q, size, priority))
  {
    var current := Current(q.priorities);
    if current <= priority {
      var n := Min(size, |q.pending|);
      TakenFatesAre(q.pending[..n], priority, current);
      LeavingKeepsHistory(q, n, TakenFates(q.pending[..n], priority, current), Callbacks(q.pending[..n]));
    }
  }

  lemma FlushKeepsHistory(q: Queue, priority: nat)
    requires HistoryInv(q)
    ensures HistoryInv(FlushedOut(q, priority))
  {
    hide HistoryInv, TakenOf, Callbacks, Current;
    if Current(q.priorities) <= priority {
      var n, flushed := |q.pending|, FlushedFates(q.pending);
      TakenOfFlushed(flushed);
      NothingCalledBack();
      assert q.pending[..n] == q.pending && q.pending[n..] == [] && q.due + [] == q.due;
      assert EventsOf(flushed) == q.pending;
      LeavingKeepsHistory(q, n, flushed, []);
    }
  }

  lemma NothingCalledBack()
    ensures Callbacks([]) == []
  {
  }

  lemma EnqueueKeepsHistory(q: Queue, data: seq<Event>)
    requires HistoryInv(q)
    ensures HistoryInv(Enqueued(q, data))
  {
    hide EventsOf, TakenOf, Callbacks;
    var e := EventsOf(q.fates);
    assert (e + q.pending) + data == e + (q.pending + data);
  }

  // A callback that is run is no longer due.
  lemma InvokeKeepsHistory(q: Queue, k: nat)
    requires HistoryInv(q) && k < |q.due|
    ensures HistoryInv(Invoked(q, k))
  {
    hide TakenOf, Callbacks, EventsOf;
    assert q.due == q.due[..k] + ([q.due[k]] + q.due[k + 1..]);
  }

  lemma CallKeepsHistory(q: Queue, call: QueueCall)
    requires HistoryInv(q) && Allowed(q, call)
    ensures HistoryInv(After(q, call))
  {
    match call {
      case DoEnqueue(data) => EnqueueKeepsHistory(q, data);
      case DoDequeue(n, p) => DequeueKeepsHistory(q, n, p);
      case DoInvoke(k) => InvokeKeepsHistory(q, k);
      case DoFlush(p) => FlushKeepsHistory(q, p);
      case _ =>
    }
  }

  // A call that does not notify leaves no sleeper without a reason.
  lemma CallKeepsReason(q: Queue, call: QueueCall, priority: nat)
    requires Allowed(q, call) && MustWait(q, priority) && !Notifies(q, call)
    ensures MustWait(After(q, call), priority)
  {
  }

  lemma NextKeepsInv(s: State, r: State)
    requires Inv(s) && Next(s, r)
    ensures Inv(r)
  {
    hide HistoryInv, MustWait;
    if call :| MainStep(s, r, call) {
      CallKeepsHistory(s.main, call);
      hide After;
      forall t | t in r.waiters && r.waiters[t].Asleep?
        ensures MustWait(r.main, r.waiters[t].priority)
      {
        CallKeepsReason(s.main, call, r.waiters[t].priority);
      }
    } else if f, call :| ForkStep(s, r, f, call) {
      CallKeepsHistory(s.forks[f], call);
    } else if f :| CreateFork(s, r, f) || Join(s, r, f) {
      EmptyHistory();
      if Join(s, r, f) {
        JoinKeeps(s, r, f);
      }
    }
  }

  lemma EmptyHistory()
    ensures HistoryInv(EMPTY)
  {
  }

  lemma JoinKeeps(s: State, r: State, f: nat)
    requires Inv(s) && Join(s, r, f)
    ensures HistoryInv(r.main) && WakeInv(r)
  {
    hide HistoryInv, MustWait;
    var call := DoEnqueue(s.forks[f].pending);
    CallKeepsHistory(s.main, call);
    if !Notifies(s.main, call) {
      forall t | t in r.waiters && r.waiters[t].Asleep?
        ensures MustWait(r.main, r.waiters[t].priority)
      {
        CallKeepsReason(s.main, call, r.waiters[t].priority);
      }
    }
  }

  // Every state of every run.
  lemma {:induction false} RunKeepsInv(run: seq<State>, n: nat)
    requires IsRun(run) && n < |run|
    ensures Inv(run[n])
  {
    if n > 0 {
      RunKeepsInv(run, n - 1);
      assert Next(run[n - 1], run[n]);
      NextKeepsInv(run[n - 1], run[n]);
    }
  }

  // ---------------------------------------------------------------- what the histories mean over time

  // Histories only grow.
  ghost predicate Continues(a: Queue, b: Queue) {
    a.arrived <= b.arrived && a.fates <= b.fates && a.invoked <= b.invoked
  }

  lemma ContinuesOn(a: Queue, b: Queue, c: Queue)
    ensures Continues(a, a)
    ensures Continues(a, b) && Continues(b, c) ==> Continues(a, c)
  {
  }

  lemma {:induction false} MainContinues(run: seq<State>, i: nat, j: nat)
    requires IsRun(run) && i <= j < |run|
    ensures Continues(run[i].main, run[j].main)
    decreases j
  {
    hide Continues, Next, Init;
    if i < j {
      MainContinues(run, i, j - 1);
      assert Next(run[j - 1], run[j]);
      StepContinues(run[j - 1], run[j]);
    }
    ContinuesOn(run[i].main, run[if i < j then j - 1 else i].main, run[j].main);
  }

  lemma StepContinues(s: State, r: State)
    requires Next(s, r)
    ensures Continues(s.main, r.main)
  {
    hide Continues, After;
    ContinuesOn(s.main, s.main, s.main);
    if call :| MainStep(s, r, call) {
      CallContinues(s.main, call);
    } else if f :| Join(s, r, f) {
      CallContinues(s.main, DoEnqueue(s.forks[f].pending));
      JoinIsEnqueue(s, r, f);
    }
  }

  lemma JoinIsEnqueue(s: State, r: State, f: nat)
    requires Join(s, r, f)
    ensures r.main == After(s.main, DoEnqueue(s.forks[f].pending))
  {
  }

  lemma CallContinues(q: Queue, call: QueueCall)
    requires Allowed(q, call)
    ensures Continues(q, After(q, call))
  {
    hide Current, Callbacks, TakenFates, FlushedFates;
  }

  // However often an event is peeked at: when no call is under way, each
  // callback taken has been run exactly once.
  lemma CallbacksRunOnce(run: seq<State>, n: nat, e: Event)
    requires IsRun(run) && n < |run| && run[n].main.due == []
    ensures multiset(run[n].main.invoked)[e] == multiset(Callbacks(TakenOf(run[n].main.fates)))[e]
  {
    RunKeepsInv(run, n);
  }

  // First in, first out: the k-th event ever to leave is the k-th that arrived,
  // whichever way it leaves and whichever queue it came through.
  lemma FirstInFirstOut(run: seq<State>, n: nat, k: nat)
    requires IsRun(run) && n < |run| && k < |run[n].main.fates|
    ensures k < |run[n].main.arrived| && run[n].main.fates[k].e == run[n].main.arrived[k]
  {
    RunKeepsInv(run, n);
  }

  // Said of the queue alone: who sleeps un-notified has nothing to take, or a priority
  // below one that was raised and not lowered.
  lemma SleeperHasReason(run: seq<State>, n: nat, t: nat)
    requires IsRun(run) && n < |run| && t in run[n].waiters && run[n].waiters[t].Asleep?
    ensures var q, p := run[n].main, run[n].waiters[t].priority;
            q.pending == [] || exists raised :: raised in q.priorities && p < raised
  {
    RunKeepsInv(run, n);
    var q, p := run[n].main, run[n].waiters[t].priority;
    assert MustWait(q, p);
  }

  // And a waiter that checks is through exactly if there is something to take, and its
  // priority is none of those below.
  lemma WakesIff(s: State, r: State, t: nat)
    requires Wake(s, r, t)
    ensures t !in r.waiters <==>
              s.main.pending != [] && forall raised :: raised in s.main.priorities ==> raised <= s.waiters[t].priority
    ensures t in r.waiters ==> r.waiters[t] == Asleep(s.waiters[t].priority)
  {
  }
}
