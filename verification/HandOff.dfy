/**
 Every run of lock, unlock, wait and signal on distinct threads, under any scheduling: each thread is in one place, a
 free mutex has no waiters, owners come from the queue in order, and whoever returns from lock or wait owns the mutex.
 */
module HandOff {
  import opened Bytes
  import opened UserThreads

  /**
   The library with a record of the run: the mutex each blocked thread will return with; for each mutex the threads
   that joined its queue and those that left it as owners; for each monitor those that went to sleep and those woken.
   */
  datatype System = System(
    t: Threads, resume: map<nat, nat>, arrivals: seq<seq<nat>>, grants: seq<seq<nat>>, sleeps: seq<seq<nat>>,
          wakes: seq<seq<nat>>)

  datatype Op = LockOp(m: nat) | UnlockOp(m: nat) | WaitOp(k: nat) | SignalOp(k: nat) | SwitchOp(i: nat)

  ghost predicate Shape(y: System) {
    WellFormed(y.t) && |y.arrivals| == |y.grants| == |y.t.mutexes| && |y.sleeps| == |y.wakes| == |y.t.monitors|
  }

  ghost predicate Applies(y: System, op: Op) {
    Shape(y) &&
    match op
    case LockOp(m) => m < |y.t.mutexes|
    case UnlockOp(m) => m < |y.t.mutexes|
    case WaitOp(k) => k < |y.t.monitors|
    case SignalOp(k) => k < |y.t.monitors|
    case SwitchOp(i) => i < |y.t.ready|
  }

  function Append(logs: seq<seq<nat>>, m: nat, x: nat): seq<seq<nat>>
    requires m < |logs|
  {
    logs[m := logs[m] + [x]]
  }

  /** A release grants the mutex to its first waiter. */
  function Granted(y: System, m: nat): seq<seq<nat>>
    requires m < |y.t.mutexes| == |y.grants|
  {
    if y.t.mutexes[m].queue == [] then y.grants else Append(y.grants, m, y.t.mutexes[m].queue[0])
  }

  /** The active thread has blocked until it gets mutex m, and the one now active has returned. */
  function Blocked(y: System, t': Threads, m: nat): map<nat, nat> {
    y.resume[y.t.active := m] - {t'.active}
  }

  /** None stands for the crash of a thread that blocks while no other is ready. */
  function Next(y: System, op: Op): Option<System>
    requires Applies(y, op)
  {
    var t := y.t;
    match op
    case LockOp(m) =>
      var r := Lock(t, m);
      if r.None? then None
      else if t.mutexes[m].thr.None? then Some(y.(t := r.value))
      else Some(y.(t := r.value, resume := Blocked(y, r.value, m), arrivals := Append(y.arrivals, m, t.active)))
    case UnlockOp(m) => Some((if Owns(t, m) then y.(grants := Granted(y, m)) else y).(t := Unlock(t, m)))
    case WaitOp(k) =>
      var m := t.monitors[k].mutex;
      var r := Wait(t, k);
      if r.None? then None
      else
        var y1 := y.(t := r.value);
        Some(if !Owns(t, m) then y1
             else y1.(resume := Blocked(y, r.value, m), grants := Granted(y, m), sleeps := Append(y.sleeps, k,
                   t.active)))
    case SignalOp(k) =>
      var c := t.monitors[k];
      var y1 := y.(t := Signal(t, k));
      Some(if Owns(t, c.mutex) && c.queue != []
           then y1.(arrivals := Append(y.arrivals, c.mutex, c.queue[0]), wakes := Append(y.wakes, k, c.queue[0]))
           else y1)
    case SwitchOp(i) => Some(y.(t := Switch(t, i), resume := y.resume - {t.ready[i]}))
  }

  // ------------------------------------------------------------------ where the threads are

  /** How often a thread is in a queue. */
  function Times(q: seq<nat>, x: nat): nat {
    if q == [] then 0 else Times(q[1..], x) + if q[0] == x then 1 else 0
  }

  function InMutexes(ms: seq<Mutex>, x: nat): nat {
    if ms == [] then 0 else Times(ms[0].queue, x) + InMutexes(ms[1..], x)
  }

  function InMonitors(cs: seq<Monitor>, x: nat): nat {
    if cs == [] then 0 else Times(cs[0].queue, x) + InMonitors(cs[1..], x)
  }

  /** In how many places a thread is: active, ready, the queues of the mutexes, the queues of the monitors. */
  function Places(t: Threads, x: nat): nat {
    (if t.active == x then 1 else 0) + Times(t.ready, x) + InMutexes(t.mutexes, x) + InMonitors(t.monitors, x)
  }

  lemma {:induction false} TimesConcat(a: seq<nat>, b: seq<nat>, x: nat)
    ensures Times(a + b, x) == Times(a, x) + Times(b, x)
  {
    if a == [] {
      assert a + b == b;
    } else {
      assert (a + b)[1..] == a[1..] + b;
      TimesConcat(a[1..], b, x);
    }
  }

  lemma TimesLast(q: seq<nat>, y: nat, x: nat)
    ensures Times(q + [y], x) == Times(q, x) + if y == x then 1 else 0
  {
    TimesConcat(q, [y], x);
  }

  lemma {:induction false} TimesMember(q: seq<nat>, x: nat)
    ensures Times(q, x) > 0 <==> x in q
  {
    if q != [] {
      TimesMember(q[1..], x);
    }
  }

  lemma {:induction false} MutexUpdate(ms: seq<Mutex>, m: nat, y: Mutex, x: nat)
    requires m < |ms|
    ensures InMutexes(ms[m := y], x) == InMutexes(ms, x) - Times(ms[m].queue, x) + Times(y.queue, x)
  {
    var ns := ms[m := y];
    if m == 0 {
      assert ns[1..] == ms[1..];
    } else {
      MutexUpdate(ms[1..], m - 1, y, x);
      assert ns[1..] == ms[1..][m - 1 := y];
    }
  }

  lemma {:induction false} MonitorUpdate(cs: seq<Monitor>, k: nat, y: Monitor, x: nat)
    requires k < |cs|
    ensures InMonitors(cs[k := y], x) == InMonitors(cs, x) - Times(cs[k].queue, x) + Times(y.queue, x)
  {
    var ds := cs[k := y];
    if k == 0 {
      assert ds[1..] == cs[1..];
    } else {
      MonitorUpdate(cs[1..], k - 1, y, x);
      assert ds[1..] == cs[1..][k - 1 := y];
    }
  }

  lemma LockKeeps(t: Threads, m: nat, x: nat)
    requires m < |t.mutexes| && Lock(t, m).Some?
    ensures Places(Lock(t, m).value, x) == Places(t, x)
  {
    hide InMutexes, InMonitors;
    var y := t.mutexes[m];
    if y.thr.None? {
      MutexUpdate(t.mutexes, m, y.(thr := Some(t.active)), x);
    } else {
      MutexUpdate(t.mutexes, m, y.(queue := y.queue + [t.active]), x);
      TimesLast(y.queue, t.active, x);
    }
  }

  lemma ReleaseKeeps(t: Threads, m: nat, x: nat)
    requires m < |t.mutexes|
    ensures Places(Release(t, m), x) == Places(t, x)
  {
    hide InMutexes, InMonitors;
    var y := t.mutexes[m];
    if y.queue == [] {
      MutexUpdate(t.mutexes, m, y.(thr := None), x);
    } else {
      MutexUpdate(t.mutexes, m, Mutex(Some(y.queue[0]), y.queue[1..]), x);
      TimesLast(t.ready, y.queue[0], x);
    }
  }

  lemma SleepKeeps(t: Threads, k: nat, x: nat)
    requires k < |t.monitors|
    ensures Places(Sleep(t, k), x) == Places(t, x) + if t.active == x then 1 else 0
  {
    hide InMutexes, InMonitors;
    MonitorUpdate(t.monitors, k, t.monitors[k].(queue := t.monitors[k].queue + [t.active]), x);
    TimesLast(t.monitors[k].queue, t.active, x);
  }

  lemma WaitKeeps(t: Threads, k: nat, x: nat)
    requires WellFormed(t) && k < |t.monitors| && Wait(t, k).Some?
    ensures Places(Wait(t, k).value, x) == Places(t, x)
  {
    hide InMutexes, InMonitors;
    var m := t.monitors[k].mutex;
    if Owns(t, m) {
      SleepKeeps(t, k, x);
      ReleaseKeeps(Sleep(t, k), m, x);
    }
  }

  lemma SignalKeeps(t: Threads, k: nat, x: nat)
    requires WellFormed(t) && k < |t.monitors|
    ensures Places(Signal(t, k), x) == Places(t, x)
  {
    hide InMutexes, InMonitors;
    var c := t.monitors[k];
    if Owns(t, c.mutex) && c.queue != [] {
      var y := t.mutexes[c.mutex];
      MutexUpdate(t.mutexes, c.mutex, y.(queue := y.queue + [c.queue[0]]), x);
      MonitorUpdate(t.monitors, k, c.(queue := c.queue[1..]), x);
      TimesLast(y.queue, c.queue[0], x);
    }
  }

  lemma SwitchKeeps(t: Threads, i: nat, x: nat)
    requires i < |t.ready|
    ensures Places(Switch(t, i), x) == Places(t, x)
  {
    hide InMutexes, InMonitors;
    var before, after := t.ready[..i], t.ready[i + 1..];
    assert t.ready == before + ([t.ready[i]] + after);
    TimesConcat(before, [t.ready[i]] + after, x);
    TimesConcat(before, after, x);
    TimesLast(before + after, t.active, x);
  }

  /** No operation creates, loses or duplicates a thread. */
  lemma NextKeepsPlaces(y: System, op: Op, x: nat)
    requires Applies(y, op) && Next(y, op).Some?
    ensures Places(Next(y, op).value.t, x) == Places(y.t, x)
  {
    hide Places, Lock, Release, Sleep, Signal, Switch, Granted, Append, Dispatch;
    match op
    case LockOp(m) => LockKeeps(y.t, m, x);
    case UnlockOp(m) => ReleaseKeeps(y.t, m, x);
    case WaitOp(k) => WaitKeeps(y.t, k, x);
    case SignalOp(k) => SignalKeeps(y.t, k, x);
    case SwitchOp(i) => SwitchKeeps(y.t, i, x);
  }

  /** Nobody is in two places, or twice in one. */
  ghost predicate Apart(t: Threads) {
    forall x: nat :: Places(t, x) <= 1
  }

  lemma {:induction false} InSomeMutex(ms: seq<Mutex>, m: nat, x: nat)
    requires m < |ms|
    ensures Times(ms[m].queue, x) <= InMutexes(ms, x)
  {
    if m > 0 {
      InSomeMutex(ms[1..], m - 1, x);
    }
  }

  lemma {:induction false} InSomeMonitor(cs: seq<Monitor>, k: nat, x: nat)
    requires k < |cs|
    ensures Times(cs[k].queue, x) <= InMonitors(cs, x)
  {
    if k > 0 {
      InSomeMonitor(cs[1..], k - 1, x);
    }
  }

  /** A thread that is ready is in no queue and there only once; the active one is nowhere else. */
  lemma OnePlace(t: Threads, x: nat)
    requires Apart(t) && (x == t.active || x in t.ready)
    ensures x == t.active ==> x !in t.ready
    ensures Times(t.ready, x) <= 1
    ensures forall m :: 0 <= m < |t.mutexes| ==> x !in t.mutexes[m].queue
    ensures forall k :: 0 <= k < |t.monitors| ==> x !in t.monitors[k].queue
  {
    hide InMutexes, InMonitors, Times;
    assert Places(t, x) <= 1;
    TimesMember(t.ready, x);
    forall m | 0 <= m < |t.mutexes| ensures x !in t.mutexes[m].queue {
      InSomeMutex(t.mutexes, m, x);
      TimesMember(t.mutexes[m].queue, x);
    }
    forall k | 0 <= k < |t.monitors| ensures x !in t.monitors[k].queue {
      InSomeMonitor(t.monitors, k, x);
      TimesMember(t.monitors[k].queue, x);
    }
  }

  // ------------------------------------------------------------------ the invariant

  /** A free mutex has no waiters, and waiters become owners in the order they came. */
  ghost predicate QueuesOk(y: System)
    requires Shape(y)
  {
    forall m :: 0 <= m < |y.t.mutexes| ==> QueueOk(y.t.mutexes[m], y.arrivals[m], y.grants[m])
  }

  /** Sleepers are woken in the order in which they went to sleep. */
  ghost predicate SleepsOk(y: System)
    requires Shape(y)
  {
    forall k :: 0 <= k < |y.t.monitors| ==> y.sleeps[k] == y.wakes[k] + y.t.monitors[k].queue
  }

  /** A ready thread that is coming back from lock or wait has been made the owner already. */
  ghost predicate ReadyOwn(t: Threads, resume: map<nat, nat>) {
    forall x :: x in t.ready && x in resume ==> resume[x] < |t.mutexes| && t.mutexes[resume[x]].thr == Some(x)
  }

  /** Whoever is in a queue is blocked, and for the mutex of that queue. */
  ghost predicate WaitersBlocked(t: Threads, resume: map<nat, nat>) {
    && (forall m, x :: 0 <= m < |t.mutexes| && x in t.mutexes[m].queue ==> x in resume && resume[x] == m)
    && (forall k, x :: 0 <= k < |t.monitors| && x in t.monitors[k].queue ==>
          x in resume && resume[x] == t.monitors[k].mutex)
  }

  /** Nobody sleeps in a monitor while owning its mutex. */
  ghost predicate SleepersLetGo(t: Threads) {
    forall k :: 0 <= k < |t.monitors| ==> LetGo(t.monitors[k], t.mutexes)
  }

  predicate LetGo(c: Monitor, mutexes: seq<Mutex>) {
    c.mutex < |mutexes| && (mutexes[c.mutex].thr.Some? ==> mutexes[c.mutex].thr.value !in c.queue)
  }

  ghost predicate Inv(y: System) {
    && Shape(y) && Apart(y.t) && QueuesOk(y) && SleepsOk(y) && SleepersLetGo(y.t)
    && y.t.active !in y.resume && ReadyOwn(y.t, y.resume) && WaitersBlocked(y.t, y.resume)
  }

  lemma ShapeStep(y: System, op: Op)
    requires Applies(y, op) && Next(y, op).Some?
    ensures Shape(Next(y, op).value)
  {
  }

  /** One mutex and its two logs. */
  ghost predicate QueueOk(x: Mutex, arrived: seq<nat>, granted: seq<nat>) {
    (x.thr.None? ==> x.queue == []) && arrived == granted + x.queue
  }

  /** A thread joins the queue of a mutex that is taken. */
  lemma JoinOk(x: Mutex, arrived: seq<nat>, granted: seq<nat>, n: nat)
    requires QueueOk(x, arrived, granted) && x.thr.Some?
    ensures QueueOk(x.(queue := x.queue + [n]), arrived + [n], granted)
  {
  }

  /** The first one leaves it as the owner. */
  lemma GrantOk(x: Mutex, arrived: seq<nat>, granted: seq<nat>)
    requires QueueOk(x, arrived, granted) && x.queue != []
    ensures QueueOk(Mutex(Some(x.queue[0]), x.queue[1..]), arrived, granted + [x.queue[0]])
  {
  }

  /** A release, after anything that left the mutexes alone. */
  lemma ReleaseOk(y: System, t: Threads, m: nat)
    requires Shape(y) && QueuesOk(y) && m < |y.t.mutexes| && t.mutexes == y.t.mutexes
    ensures var ms := Release(t, m).mutexes;
      && |ms| == |y.t.mutexes| == |Granted(y, m)|
      && forall i :: 0 <= i < |ms| ==> QueueOk(ms[i], y.arrivals[i], Granted(y, m)[i])
  {
    var x := y.t.mutexes[m];
    if x.queue != [] { GrantOk(x, y.arrivals[m], y.grants[m]); }
  }

  lemma QueuesStep(y: System, op: Op)
    requires Applies(y, op) && Next(y, op).Some? && QueuesOk(y) && Shape(Next(y, op).value)
    ensures QueuesOk(Next(y, op).value)
  {
    hide QueueOk, Release, Granted, Blocked;
    match op
    case LockOp(m) =>
      if y.t.mutexes[m].thr.Some? { JoinOk(y.t.mutexes[m], y.arrivals[m], y.grants[m], y.t.active); }
      else { TakenOk(y.t.mutexes[m], y.arrivals[m], y.grants[m], y.t.active); }
    case UnlockOp(m) => ReleaseOk(y, y.t, m);
    case WaitOp(k) => ReleaseOk(y, Sleep(y.t, k), y.t.monitors[k].mutex);
    case SignalOp(k) =>
      var c := y.t.monitors[k];
      var x := y.t.mutexes[c.mutex];
      if Owns(y.t, c.mutex) && c.queue != [] { JoinOk(x, y.arrivals[c.mutex], y.grants[c.mutex], c.queue[0]); }
    case SwitchOp(i) =>
  }

  lemma TakenOk(x: Mutex, arrived: seq<nat>, granted: seq<nat>, n: nat)
    requires QueueOk(x, arrived, granted)
    ensures QueueOk(x.(thr := Some(n)), arrived, granted)
  {
  }

  lemma SleepsStep(y: System, op: Op)
    requires Applies(y, op) && Next(y, op).Some? && SleepsOk(y) && Shape(Next(y, op).value)
    ensures SleepsOk(Next(y, op).value)
  {
    var y' := Next(y, op).value;
    forall k | 0 <= k < |y'.t.monitors| ensures y'.sleeps[k] == y'.wakes[k] + y'.t.monitors[k].queue {
      assert y.sleeps[k] == y.wakes[k] + y.t.monitors[k].queue;
    }
  }

  /** A thread in a mutex's queue is in no monitor's queue. */
  lemma QueuedOnce(t: Threads, m: nat, x: nat)
    requires Apart(t) && m < |t.mutexes| && x in t.mutexes[m].queue
    ensures forall k :: 0 <= k < |t.monitors| ==> x !in t.monitors[k].queue
  {
    hide InMutexes, InMonitors, Times;
    assert Places(t, x) <= 1;
    InSomeMutex(t.mutexes, m, x);
    TimesMember(t.mutexes[m].queue, x);
    forall k | 0 <= k < |t.monitors| ensures x !in t.monitors[k].queue {
      InSomeMonitor(t.monitors, k, x);
      TimesMember(t.monitors[k].queue, x);
    }
  }

  lemma SleepersStep(y: System, op: Op)
    requires Inv(y) && Applies(y, op) && Next(y, op).Some?
    ensures SleepersLetGo(Next(y, op).value.t)
  {
    hide Places, Apart, QueuesOk, SleepsOk, ReadyOwn, WaitersBlocked, Append, Granted, Blocked, Release, SleepersLetGo;
    ActiveAlone(y);
    OnePlace(y.t, y.t.active);
    match op
    case LockOp(m) => SleepersLock(y.t, m);
    case UnlockOp(m) =>
      if y.t.mutexes[m].queue != [] { QueuedOnce(y.t, m, y.t.mutexes[m].queue[0]); }
      SleepersRelease(y.t, m);
    case WaitOp(k) =>
      var m := y.t.monitors[k].mutex;
      if y.t.mutexes[m].queue != [] { QueuedOnce(y.t, m, y.t.mutexes[m].queue[0]); }
      SleepersWait(y.t, k);
    case SignalOp(k) => SleepersSignal(y.t, k);
    case SwitchOp(i) => SleepersSwitch(y.t, i);
  }

  lemma SleepersLock(t: Threads, m: nat)
    requires SleepersLetGo(t) && m < |t.mutexes| && Lock(t, m).Some?
    requires forall k :: 0 <= k < |t.monitors| ==> t.active !in t.monitors[k].queue
    ensures SleepersLetGo(Lock(t, m).value)
  {
    SameSleepers(t, Lock(t, m).value);
  }

  /** Monitors as they were, and no mutex given to anyone who sleeps. */
  lemma SameSleepers(t: Threads, t': Threads)
    requires SleepersLetGo(t) && t'.monitors == t.monitors && |t'.mutexes| == |t.mutexes|
    requires forall k, m :: 0 <= k < |t.monitors| && 0 <= m < |t.mutexes| ==>
      var x := t'.mutexes[m].thr; x.None? || x == t.mutexes[m].thr || x.value !in t.monitors[k].queue
    ensures SleepersLetGo(t')
  {
    forall k | 0 <= k < |t'.monitors| ensures LetGo(t'.monitors[k], t'.mutexes) {
      assert LetGo(t.monitors[k], t.mutexes);
    }
  }

  /** The new owner was waiting for the mutex, so it sleeps nowhere. */
  lemma SleepersRelease(t: Threads, m: nat)
    requires SleepersLetGo(t) && m < |t.mutexes|
    requires t.mutexes[m].queue != [] ==>
      forall k :: 0 <= k < |t.monitors| ==> t.mutexes[m].queue[0] !in t.monitors[k].queue
    ensures SleepersLetGo(Release(t, m))
  {
    SameSleepers(t, Release(t, m));
  }

  lemma SleepersWait(t: Threads, k: nat)
    requires SleepersLetGo(t) && WellFormed(t) && k < |t.monitors| && Wait(t, k).Some?
    requires t.active !in t.mutexes[t.monitors[k].mutex].queue
    requires forall j :: 0 <= j < |t.monitors| ==> t.active !in t.monitors[j].queue
    requires var q := t.mutexes[t.monitors[k].mutex].queue;
      q != [] ==> forall j :: 0 <= j < |t.monitors| ==> q[0] !in t.monitors[j].queue
    ensures SleepersLetGo(Wait(t, k).value)
  {
    var m := t.monitors[k].mutex;
    if Owns(t, m) {
      var t1 := Release(Sleep(t, k), m);
      assert t1.mutexes[m].thr != Some(t.active);
      assert t1.monitors[k].queue == t.monitors[k].queue + [t.active];
    }
  }

  lemma SleepersSignal(t: Threads, k: nat)
    requires SleepersLetGo(t) && WellFormed(t) && k < |t.monitors|
    ensures SleepersLetGo(Signal(t, k))
  {
  }

  lemma SleepersSwitch(t: Threads, i: nat)
    requires SleepersLetGo(t) && i < |t.ready|
    ensures SleepersLetGo(Switch(t, i))
  {
    SameSleepers(t, Switch(t, i));
  }

  /** The active thread, where it is needed that it is nowhere else. */
  lemma ActiveAlone(y: System)
    requires Inv(y)
    ensures y.t.active !in y.t.ready && y.t.active !in y.resume
    ensures forall m :: 0 <= m < |y.t.mutexes| ==> y.t.active !in y.t.mutexes[m].queue
    ensures forall x :: x in y.t.ready ==>
      && (forall m :: 0 <= m < |y.t.mutexes| ==> x !in y.t.mutexes[m].queue)
      && (forall k :: 0 <= k < |y.t.monitors| ==> x !in y.t.monitors[k].queue)
  {
    hide Places, QueuesOk;
    OnePlace(y.t, y.t.active);
    forall x | x in y.t.ready
      ensures forall m :: 0 <= m < |y.t.mutexes| ==> x !in y.t.mutexes[m].queue
      ensures forall k :: 0 <= k < |y.t.monitors| ==> x !in y.t.monitors[k].queue
    {
      OnePlace(y.t, x);
    }
  }

  /** A thread that was blocked and now runs owns the mutex it returns with. */
  ghost predicate Resumed(y: System, y': System) {
    y'.t.active in y.resume ==>
      y.resume[y'.t.active] < |y'.t.mutexes| && y'.t.mutexes[y.resume[y'.t.active]].thr == Some(y'.t.active)
  }

  /** No ready thread is in a queue. */
  ghost predicate ReadyApart(t: Threads) {
    forall x :: x in t.ready ==>
      && (forall m :: 0 <= m < |t.mutexes| ==> x !in t.mutexes[m].queue)
      && (forall k :: 0 <= k < |t.monitors| ==> x !in t.monitors[k].queue)
  }

  /** Handing the processor over, once the active thread is in its queue. */
  lemma Handover(t: Threads, resume: map<nat, nat>)
    requires t.ready != [] && ReadyOwn(t, resume) && WaitersBlocked(t, resume) && ReadyApart(t)
    ensures var t' := Dispatch(t).value;
      && t'.active !in resume - {t'.active} && ReadyOwn(t', resume - {t'.active})
            && WaitersBlocked(t', resume - {t'.active})
      && (t'.active in resume ==>
            resume[t'.active] < |t'.mutexes| && t'.mutexes[resume[t'.active]].thr == Some(t'.active))
  {
    assert t.ready[0] in t.ready;
  }

  /** The active thread joins a mutex's queue. */
  lemma JoinsQueue(y: System, m: nat)
    requires Inv(y) && m < |y.t.mutexes|
    ensures var x := y.t.mutexes[m];
      var t1 := SetMutex(y.t, m, x.(queue := x.queue + [y.t.active]));
      var resume1 := y.resume[y.t.active := m];
      ReadyOwn(t1, resume1) && WaitersBlocked(t1, resume1) && ReadyApart(t1)
  {
    ActiveAlone(y);
    hide Places, Apart, QueuesOk;
  }

  lemma LockStep(y: System, m: nat)
    requires Inv(y) && Applies(y, LockOp(m)) && Next(y, LockOp(m)).Some?
    ensures var y' := Next(y, LockOp(m)).value;
      y'.t.active !in y'.resume && ReadyOwn(y'.t, y'.resume) && WaitersBlocked(y'.t, y'.resume) && Resumed(y, y')
  {
    hide Places, Apart, QueuesOk, Append;
    if y.t.mutexes[m].thr.Some? {
      hide ReadyOwn, WaitersBlocked, ReadyApart;
      JoinsQueue(y, m);
      var x := y.t.mutexes[m];
      Handover(SetMutex(y.t, m, x.(queue := x.queue + [y.t.active])), y.resume[y.t.active := m]);
    }
  }

  lemma UnlockStep(y: System, m: nat)
    requires Inv(y) && Applies(y, UnlockOp(m))
    ensures var y' := Next(y, UnlockOp(m)).value;
      y'.t.active !in y'.resume && ReadyOwn(y'.t, y'.resume) && WaitersBlocked(y'.t, y'.resume) && Resumed(y, y')
  {
    ActiveAlone(y);
    hide Places, Apart, Append;
  }

  /** The active thread sleeps in a monitor and lets go of its mutex. */
  lemma FallsAsleep(y: System, k: nat)
    requires Inv(y) && k < |y.t.monitors| && Owns(y.t, y.t.monitors[k].mutex)
    ensures var m := y.t.monitors[k].mutex;
      var t1 := Release(Sleep(y.t, k), m);
      var resume1 := y.resume[y.t.active := m];
      ReadyOwn(t1, resume1) && WaitersBlocked(t1, resume1)
  {
    ActiveAlone(y);
    hide Places, Apart, QueuesOk;
  }

  lemma AsleepApart(y: System, k: nat)
    requires Inv(y) && k < |y.t.monitors| && Owns(y.t, y.t.monitors[k].mutex)
    ensures ReadyApart(Release(Sleep(y.t, k), y.t.monitors[k].mutex))
  {
    hide QueuesOk, ReadyOwn, WaitersBlocked, Places;
    var t1 := Release(Sleep(y.t, k), y.t.monitors[k].mutex);
    forall x | x in t1.ready
      ensures forall m :: 0 <= m < |t1.mutexes| ==> x !in t1.mutexes[m].queue
      ensures forall j :: 0 <= j < |t1.monitors| ==> x !in t1.monitors[j].queue
    {
      AsleepOnePlace(y, k, x);
    }
  }

  lemma AsleepOnePlace(y: System, k: nat, x: nat)
    requires Inv(y) && k < |y.t.monitors| && Owns(y.t, y.t.monitors[k].mutex)
    requires x in Release(Sleep(y.t, k), y.t.monitors[k].mutex).ready
    ensures var t1 := Release(Sleep(y.t, k), y.t.monitors[k].mutex);
      && (forall m :: 0 <= m < |t1.mutexes| ==> x !in t1.mutexes[m].queue)
      && (forall j :: 0 <= j < |t1.monitors| ==> x !in t1.monitors[j].queue)
  {
    var t1 := Release(Sleep(y.t, k), y.t.monitors[k].mutex);
    var m := y.t.monitors[k].mutex;
    assert x != y.t.active by { ActiveAlone(y); }
    hide QueuesOk, ReadyOwn, WaitersBlocked, Release, Sleep, InMutexes, InMonitors, Times;
    assert Places(y.t, x) <= 1;
    SleepKeeps(y.t, k, x);
    ReleaseKeeps(Sleep(y.t, k), m, x);
    TimesMember(t1.ready, x);
    forall i | 0 <= i < |t1.mutexes| ensures x !in t1.mutexes[i].queue {
      InSomeMutex(t1.mutexes, i, x);
      TimesMember(t1.mutexes[i].queue, x);
    }
    forall j | 0 <= j < |t1.monitors| ensures x !in t1.monitors[j].queue {
      InSomeMonitor(t1.monitors, j, x);
      TimesMember(t1.monitors[j].queue, x);
    }
  }

  lemma WaitStep(y: System, k: nat)
    requires Inv(y) && Applies(y, WaitOp(k)) && Next(y, WaitOp(k)).Some?
    ensures var y' := Next(y, WaitOp(k)).value;
      y'.t.active !in y'.resume && ReadyOwn(y'.t, y'.resume) && WaitersBlocked(y'.t, y'.resume) && Resumed(y, y')
  {
    hide Places, Apart, QueuesOk, Append, ReadyOwn, WaitersBlocked, ReadyApart, Release;
    var m := y.t.monitors[k].mutex;
    if Owns(y.t, m) {
      FallsAsleep(y, k);
      AsleepApart(y, k);
      Handover(Release(Sleep(y.t, k), m), y.resume[y.t.active := m]);
    }
  }

  lemma SignalStep(y: System, k: nat)
    requires Inv(y) && Applies(y, SignalOp(k))
    ensures var y' := Next(y, SignalOp(k)).value;
      y'.t.active !in y'.resume && ReadyOwn(y'.t, y'.resume) && WaitersBlocked(y'.t, y'.resume) && Resumed(y, y')
  {
    hide Places, Apart, Append;
  }

  lemma SwitchStep(y: System, i: nat)
    requires Inv(y) && Applies(y, SwitchOp(i))
    ensures var y' := Next(y, SwitchOp(i)).value;
      y'.t.active !in y'.resume && ReadyOwn(y'.t, y'.resume) && WaitersBlocked(y'.t, y'.resume) && Resumed(y, y')
  {
    ActiveAlone(y);
    assert y.t.ready[i] in y.t.ready;
    hide Places, Apart, QueuesOk;
  }

  lemma NextKeepsInv(y: System, op: Op)
    requires Inv(y) && Applies(y, op) && Next(y, op).Some?
    ensures Inv(Next(y, op).value) && Resumed(y, Next(y, op).value)
  {
    hide Next, QueuesOk, SleepsOk, ReadyOwn, WaitersBlocked, Resumed, Places, SleepersLetGo;
    SleepersStep(y, op);
    ShapeStep(y, op);
    QueuesStep(y, op);
    SleepsStep(y, op);
    forall x: nat ensures Places(Next(y, op).value.t, x) <= 1 {
      NextKeepsPlaces(y, op, x);
    }
    match op
    case LockOp(m) => LockStep(y, m);
    case UnlockOp(m) => UnlockStep(y, m);
    case WaitOp(k) => WaitStep(y, k);
    case SignalOp(k) => SignalStep(y, k);
    case SwitchOp(i) => SwitchStep(y, i);
  }

  // ------------------------------------------------------------------ every run

  /** Distinct threads, mutexes free, nobody waiting. */
  ghost predicate Fresh(t: Threads) {
    && WellFormed(t) && Apart(t)
    && (forall m :: 0 <= m < |t.mutexes| ==> t.mutexes[m] == Mutex(None, []))
    && (forall k :: 0 <= k < |t.monitors| ==> t.monitors[k].queue == [])
  }

  function Start(t: Threads): System {
    var none, nobody := seq(|t.mutexes|, _ => []), seq(|t.monitors|, _ => []);
    System(t, map[], none, none, nobody, nobody)
  }

  ghost predicate Leads(y: System, ops: seq<Op>, y': System)
    decreases |ops|
  {
    if ops == [] then y' == y
    else Applies(y, ops[0]) && Next(y, ops[0]).Some? && Leads(Next(y, ops[0]).value, ops[1..], y')
  }

  lemma {:induction false} LeadsKeepsInv(y: System, ops: seq<Op>, y': System)
    requires Inv(y) && Leads(y, ops, y')
    ensures Inv(y') && forall x: nat :: Places(y'.t, x) == Places(y.t, x)
    decreases |ops|
  {
    hide Inv, Next, Places, Applies, Resumed;
    if ops != [] {
      var y1 := Next(y, ops[0]).value;
      NextKeepsInv(y, ops[0]);
      LeadsKeepsInv(y1, ops[1..], y');
      forall x: nat ensures Places(y'.t, x) == Places(y.t, x) {
        NextKeepsPlaces(y, ops[0], x);
      }
    }
  }

  lemma StartOk(t: Threads)
    requires Fresh(t)
    ensures Inv(Start(t))
  {
    hide Places;
  }

  /** Over any run: every thread is in exactly as many places as at the start, which is one at most. */
  lemma EveryoneInOnePlace(t: Threads, ops: seq<Op>, y: System, x: nat)
    requires Fresh(t) && Leads(Start(t), ops, y)
    ensures Places(y.t, x) == Places(t, x) <= 1
  {
    hide Places, Leads, Inv;
    StartOk(t);
    LeadsKeepsInv(Start(t), ops, y);
  }

  /**
   Over any run: a free mutex has no waiters, owners leave its queue in the order in which they joined it, sleepers
   are woken in the order in which they went to sleep, and nobody sleeps while owning the monitor's mutex.
   */
  lemma QueuesInOrder(t: Threads, ops: seq<Op>, y: System)
    requires Fresh(t) && Leads(Start(t), ops, y)
    ensures Shape(y) && QueuesOk(y) && SleepsOk(y) && SleepersLetGo(y.t)
  {
    hide Places, Leads, ReadyOwn, WaitersBlocked, Apart, QueuesOk, SleepsOk, SleepersLetGo;
    StartOk(t);
    LeadsKeepsInv(Start(t), ops, y);
  }

  /** Over any run: a thread that returns from lock, at once or after blocking, or from wait, owns the mutex concerned.
   */
  lemma ReturningOwns(t: Threads, ops: seq<Op>, y: System, op: Op)
    requires Fresh(t) && Leads(Start(t), ops, y) && Applies(y, op) && Next(y, op).Some?
    ensures var y' := Next(y, op).value;
      && (y'.t.active in y.resume ==>
            y.resume[y'.t.active] < |y'.t.mutexes| && y'.t.mutexes[y.resume[y'.t.active]].thr == Some(y'.t.active))
      && (op.LockOp? && y'.t.active == y.t.active ==> op.m < |y'.t.mutexes| && Owns(y'.t, op.m))
  {
    hide Places, Leads, Inv, Next;
    StartOk(t);
    LeadsKeepsInv(Start(t), ops, y);
    NextKeepsInv(y, op);
    if op.LockOp? { LocksOrBlocks(y, op.m); }
  }

  /** A thread that goes on at once after lock has the mutex: blocking always hands over to another thread. */
  lemma LocksOrBlocks(y: System, m: nat)
    requires Inv(y) && Applies(y, LockOp(m)) && Next(y, LockOp(m)).Some?
    ensures var y' := Next(y, LockOp(m)).value;
      |y'.t.mutexes| == |y.t.mutexes| && (y'.t.active == y.t.active ==> Owns(y'.t, m))
  {
    ActiveAlone(y);
    hide Places, Apart, QueuesOk, SleepsOk, ReadyOwn, WaitersBlocked;
    if y.t.ready != [] { assert y.t.ready[0] in y.t.ready; }
  }

  // ------------------------------------------------------------------ owners

  /** The mutex an operation asks to own. */
  ghost predicate Needs(y: System, op: Op, m: nat) {
    || op == UnlockOp(m)
    || ((op.WaitOp? || op.SignalOp?) && op.k < |y.t.monitors| && y.t.monitors[op.k].mutex == m)
  }

  /** Unlock, wait and signal of a thread that does not own the mutex change nothing. */
  lemma OthersChangeNothing(y: System, op: Op, m: nat)
    requires Applies(y, op) && Needs(y, op, m) && m < |y.t.mutexes| && !Owns(y.t, m)
    ensures Next(y, op) == Some(y)
  {
  }

  /** The active thread x gives mutex m up. */
  ghost predicate GivesUp(y: System, op: Op, x: nat, m: nat) {
    y.t.active == x && !op.SignalOp? && Needs(y, op, m)
  }

  lemma OwnerStays(y: System, op: Op, x: nat, m: nat)
    requires Applies(y, op) && Next(y, op).Some? && m < |y.t.mutexes| && y.t.mutexes[m].thr == Some(x)
    requires !GivesUp(y, op, x, m)
    ensures var y' := Next(y, op).value; m < |y'.t.mutexes| && y'.t.mutexes[m].thr == Some(x)
  {
    hide Append, Granted, Blocked;
  }

  /** In none of the steps does x give m up. */
  ghost predicate HoldsOn(y: System, ops: seq<Op>, x: nat, m: nat)
    decreases |ops|
  {
    ops != [] && Applies(y, ops[0]) && Next(y, ops[0]).Some? ==>
      !GivesUp(y, ops[0], x, m) && HoldsOn(Next(y, ops[0]).value, ops[1..], x, m)
  }

  /** Mutual exclusion over any run: an owner stays the only one until it calls unlock or wait itself. */
  lemma {:induction false} OwnerUntilItGivesUp(y: System, ops: seq<Op>, y': System, x: nat, m: nat)
    requires Leads(y, ops, y') && HoldsOn(y, ops, x, m) && m < |y.t.mutexes| && y.t.mutexes[m].thr == Some(x)
    ensures m < |y'.t.mutexes| && y'.t.mutexes[m].thr == Some(x)
    decreases |ops|
  {
    hide Next, Applies, GivesUp;
    if ops != [] {
      OwnerStays(y, ops[0], x, m);
      OwnerUntilItGivesUp(Next(y, ops[0]).value, ops[1..], y', x, m);
    }
  }

  // ------------------------------------------------------------------ the ready list

  /** The thread an operation makes ready: the first waiter of a mutex that its owner gives up. */
  ghost function MadeReady(y: System, op: Op): seq<nat>
    requires Applies(y, op)
  {
    if op.UnlockOp? || op.WaitOp? then
      var m := if op.UnlockOp? then op.m else y.t.monitors[op.k].mutex;
      if Owns(y.t, m) && y.t.mutexes[m].queue != [] then [y.t.mutexes[m].queue[0]] else []
    else []
  }

  /** Whether the active thread blocks: on a mutex somebody owns, or in a monitor whose mutex it owns. */
  ghost predicate Blocks(y: System, op: Op)
    requires Applies(y, op)
  {
    || (op.LockOp? && y.t.mutexes[op.m].thr.Some?)
    || (op.WaitOp? && Owns(y.t, y.t.monitors[op.k].mutex))
  }

  /** The thread that runs instead of one that blocked. */
  ghost function NowRuns(y: System, op: Op): seq<nat>
    requires Applies(y, op) && Next(y, op).Some?
  {
    if Blocks(y, op) then [Next(y, op).value.t.active] else []
  }

  /** Without exchanges by a scheduler the ready list is first in, first out. */
  lemma ReadyStep(y: System, op: Op)
    requires Applies(y, op) && Next(y, op).Some? && !op.SwitchOp?
    ensures var y' := Next(y, op).value;
      && y.t.ready + MadeReady(y, op) == NowRuns(y, op) + y'.t.ready
      && (!Blocks(y, op) ==> y'.t.active == y.t.active)
  {
    hide Append, Granted, Blocked;
  }

  ghost function AllMadeReady(y: System, ops: seq<Op>): seq<nat>
    decreases |ops|
  {
    if ops == [] || !Usable(y, ops[0]) then []
    else MadeReady(y, ops[0]) + AllMadeReady(Next(y, ops[0]).value, ops[1..])
  }

  ghost function AllRun(y: System, ops: seq<Op>): seq<nat>
    decreases |ops|
  {
    if ops == [] || !Usable(y, ops[0]) then []
    else NowRuns(y, ops[0]) + AllRun(Next(y, ops[0]).value, ops[1..])
  }

  ghost predicate Usable(y: System, op: Op) {
    Applies(y, op) && Next(y, op).Some?
  }

  /** Over a run without exchanges: the processor goes to the threads in the order in which they became ready. */
  lemma {:induction false} ReadyInOrder(y: System, ops: seq<Op>, y': System)
    requires Leads(y, ops, y') && forall i :: 0 <= i < |ops| ==> !ops[i].SwitchOp?
    ensures y.t.ready + AllMadeReady(y, ops) == AllRun(y, ops) + y'.t.ready
    decreases |ops|
  {
    hide Next, Applies, MadeReady, NowRuns;
    if ops != [] {
      var y1 := Next(y, ops[0]).value;
      ReadyStep(y, ops[0]);
      ReadyInOrder(y1, ops[1..], y');
      var (a, b) := (MadeReady(y, ops[0]), NowRuns(y, ops[0]));
      var (c, d) := (AllMadeReady(y1, ops[1..]), AllRun(y1, ops[1..]));
      assert y.t.ready + (a + c) == (y.t.ready + a) + c;
      assert b + (y1.t.ready + c) == (b + d) + y'.t.ready;
    }
  }

  /** The program crashes exactly when a thread has to block and nobody else can run. */
  lemma CrashIff(y: System, op: Op)
    requires Applies(y, op)
    ensures Next(y, op).None? <==>
      && y.t.ready == []
      && ((op.LockOp? && y.t.mutexes[op.m].thr.Some?)
          || (op.WaitOp? && Owns(y.t, y.t.monitors[op.k].mutex) && y.t.mutexes[y.t.monitors[op.k].mutex].queue == []))
  {
  }
}
