/**
 Mutexes and monitors of sthread_lib/sthread_user.c. One thread is active; blocking hands the processor to the first
 ready thread. The operations are functions on values with sequences for queues; the library, an object over the
 linked queues of ThreadQueue, is proved against them. Each operation runs without interruption, and what the scheduler
 does between operations is any exchange of the active thread with a ready one.
 */
module UserThreads {
  import opened Bytes
  import opened ThreadQueue

  datatype Mutex = Mutex(thr: Option<nat>, queue: seq<nat>)
  datatype Monitor = Monitor(mutex: nat, queue: seq<nat>)
  datatype Threads = Threads(active: nat, ready: seq<nat>, mutexes: seq<Mutex>, monitors: seq<Monitor>)

  /** Every monitor has a mutex. */
  predicate WellFormed(t: Threads) {
    forall k :: 0 <= k < |t.monitors| ==> t.monitors[k].mutex < |t.mutexes|
  }

  // ------------------------------------------------------------------ the operations on values

  /** queue_remove of the ready list; none when it is empty, which the program does not survive. */
  function Dispatch(t: Threads): Option<Threads> {
    if t.ready == [] then None else Some(t.(active := t.ready[0], ready := t.ready[1..]))
  }

  function SetMutex(t: Threads, m: nat, x: Mutex): Threads
    requires m < |t.mutexes|
  {
    t.(mutexes := t.mutexes[m := x])
  }

  function Lock(t: Threads, m: nat): Option<Threads>
    requires m < |t.mutexes|
  {
    var x := t.mutexes[m];
    if x.thr.None? then Some(SetMutex(t, m, x.(thr := Some(t.active))))
    else Dispatch(SetMutex(t, m, x.(queue := x.queue + [t.active])))
  }

  /** The owner lets go: the first waiting thread becomes the owner and ready. */
  function Release(t: Threads, m: nat): Threads
    requires m < |t.mutexes|
  {
    var x := t.mutexes[m];
    if x.queue == [] then SetMutex(t, m, x.(thr := None))
    else SetMutex(t, m, Mutex(Some(x.queue[0]), x.queue[1..])).(ready := t.ready + [x.queue[0]])
  }

  predicate Owns(t: Threads, m: nat)
    requires m < |t.mutexes|
  {
    t.mutexes[m].thr == Some(t.active)
  }

  function Unlock(t: Threads, m: nat): Threads
    requires m < |t.mutexes|
  {
    if Owns(t, m) then Release(t, m) else t
  }

  /** The active thread at the end of the monitor's queue. */
  function Sleep(t: Threads, k: nat): Threads
    requires k < |t.monitors|
  {
    t.(monitors := t.monitors[k := t.monitors[k].(queue := t.monitors[k].queue + [t.active])])
  }

  function Wait(t: Threads, k: nat): Option<Threads>
    requires WellFormed(t) && k < |t.monitors|
  {
    var m := t.monitors[k].mutex;
    if Owns(t, m) then Dispatch(Release(Sleep(t, k), m)) else Some(t)
  }

  /** The first sleeper moves to the end of the mutex's queue. */
  function Transfer(t: Threads, k: nat): Threads
    requires WellFormed(t) && k < |t.monitors| && t.monitors[k].queue != []
  {
    var c := t.monitors[k];
    var x := t.mutexes[c.mutex];
    SetMutex(t, c.mutex, x.(queue := x.queue + [c.queue[0]])).(monitors := t.monitors[k := c.(queue := c.queue[1..])])
  }

  function Signal(t: Threads, k: nat): Threads
    requires WellFormed(t) && k < |t.monitors|
  {
    if Owns(t, t.monitors[k].mutex) && t.monitors[k].queue != [] then Transfer(t, k) else t
  }

  /** What a scheduler may do: the i-th ready thread runs, the active one becomes ready. */
  function Switch(t: Threads, i: nat): Threads
    requires i < |t.ready|
  {
    t.(active := t.ready[i], ready := t.ready[..i] + t.ready[i + 1..] + [t.active])
  }

  // ------------------------------------------------------------------ the library as an object

  /** struct _sthread_mutex and struct _sthread_mon: the queues are objects. */
  datatype MutexRecord = MutexRecord(thr: Option<nat>, queue: Queue)
  datatype MonitorRecord = MonitorRecord(mutex: nat, queue: Queue)

  class Library {
    const queues: Queues
    const ready: Queue
    var active: nat
    var mutexes: seq<MutexRecord>
    var monitors: seq<MonitorRecord>

    /** No queue has two uses. */
    ghost predicate Separate()
      reads this
    {
      && (forall m :: 0 <= m < |mutexes| ==> mutexes[m].queue != ready)
      && (forall k :: 0 <= k < |monitors| ==> monitors[k].queue != ready)
      && (forall l, m :: 0 <= l < m < |mutexes| ==> mutexes[l].queue != mutexes[m].queue)
      && (forall j, k :: 0 <= j < k < |monitors| ==> monitors[j].queue != monitors[k].queue)
      && (forall m, k :: 0 <= m < |mutexes| && 0 <= k < |monitors| ==> mutexes[m].queue != monitors[k].queue)
    }

    ghost predicate Valid()
      reads this, queues, queues.all, queues.pool
    {
      && queues.Valid() && ready in queues.all && Separate()
      && (forall m :: 0 <= m < |mutexes| ==> mutexes[m].queue in queues.all)
      && (forall k :: 0 <= k < |monitors| ==> monitors[k].queue in queues.all && monitors[k].mutex < |mutexes|)
    }

    ghost function MutexAt(m: nat): Mutex
      requires Valid() && m < |mutexes|
      reads this, queues, queues.all, queues.pool
    {
      Mutex(mutexes[m].thr, mutexes[m].queue.Contents())
    }

    ghost function MonitorAt(k: nat): Monitor
      requires Valid() && k < |monitors|
      reads this, queues, queues.all, queues.pool
    {
      Monitor(monitors[k].mutex, monitors[k].queue.Contents())
    }

    /** The state is t: each queue holds the threads that t has there, in order. */
    ghost predicate Shows(t: Threads)
      reads this, queues, queues.all, queues.pool
    {
      && Valid() && t.active == active && t.ready == ready.Contents()
      && |t.mutexes| == |mutexes| && (forall m :: 0 <= m < |mutexes| ==> t.mutexes[m] == MutexAt(m))
      && |t.monitors| == |monitors| && (forall k :: 0 <= k < |monitors| ==> t.monitors[k] == MonitorAt(k))
    }

    constructor (main: nat)
      ensures fresh(queues) && fresh(queues.all) && queues.pool == {} && Shows(Threads(main, [], [], []))
    {
      var qs := new Queues();
      var r := qs.Create();
      queues, ready := qs, r;
      active, mutexes, monitors := main, [], [];
    }

    method NewQueue(ghost t: Threads) returns (q: Queue)
      requires Shows(t)
      modifies queues
      ensures Shows(t) && fresh(q) && q in queues.all && q.Contents() == []
      ensures queues.pool == old(queues.pool) && fresh(queues.all - old(queues.all))
    {
      hide Queue.Linked, Queue.Contents, Queues.Valid;
      q := queues.Create();
    }

    /** sthread_user_mutex_init. */
    method MutexInit(ghost t: Threads) returns (m: nat)
      requires Shows(t)
      modifies this`mutexes, queues
      ensures m == |t.mutexes| && Shows(t.(mutexes := t.mutexes + [Mutex(None, [])]))
      ensures |mutexes| == |t.mutexes| + 1 && monitors == old(monitors) && active == old(active)
      ensures queues.pool == old(queues.pool) && fresh(queues.all - old(queues.all))
    {
      hide Queue.Linked, Queue.Contents, Queues.Valid;
      var q := NewQueue(t);
      m := |mutexes|;
      mutexes := mutexes + [MutexRecord(None, q)];
    }

    /** A thread joins the ready list. */
    method MakeReady(x: nat, ghost t: Threads)
      requires Shows(t)
      modifies queues, ready, queues.pool
      ensures Shows(t.(ready := t.ready + [x]))
      ensures queues.all == old(queues.all) && fresh(queues.pool - old(queues.pool))
    {
      hide Queue.Linked, Queue.Contents, Queues.Valid;
      queues.Insert(ready, x);
    }

    /** The active thread gives the processor to the first ready one; without one the program crashes. */
    method GiveUp(ghost t: Threads) returns (alive: bool)
      requires Shows(t)
      modifies this`active, queues, ready, queues.pool
      ensures alive <==> Dispatch(t).Some?
      ensures alive ==> Shows(Dispatch(t).value)
    {
      hide Queue.Linked, Queue.Contents, Queues.Valid;
      var empty := queues.IsEmpty(ready);
      if empty {
        return false;
      }
      var next := TakeReady(t);
      active := next;
      alive := true;
    }

    /** queue_remove of the ready list. */
    method TakeReady(ghost t: Threads) returns (x: nat)
      requires Shows(t) && t.ready != []
      modifies queues, ready, queues.pool
      ensures x == t.ready[0] && Shows(t.(ready := t.ready[1..]))
    {
      hide Queue.Linked, Queue.Contents, Queues.Valid;
      x := queues.Remove(ready);
    }

    /** The active thread joins the queue of mutex m. */
    method QueueUp(m: nat, x: nat, ghost t: Threads)
      requires Shows(t) && m < |mutexes|
      modifies queues, mutexes[m].queue, queues.pool
      ensures Shows(SetMutex(t, m, t.mutexes[m].(queue := t.mutexes[m].queue + [x])))
      ensures queues.all == old(queues.all) && fresh(queues.pool - old(queues.pool))
    {
      hide Queue.Linked, Queue.Contents, Queues.Valid;
      queues.Insert(mutexes[m].queue, x);
    }

    /** sthread_user_mutex_lock, up to the moment the processor goes on, with whatever thread. */
    method MutexLock(m: nat, ghost t: Threads) returns (alive: bool)
      requires Shows(t) && m < |mutexes|
      modifies this`active, this`mutexes, queues, ready, mutexes[m].queue, queues.pool
      ensures alive <==> Lock(t, m).Some?
      ensures alive ==> Shows(Lock(t, m).value)
    {
      hide Queue.Linked, Queue.Contents, Queues.Valid;
      if mutexes[m].thr == None {
        SetOwner(m, Some(active), t);
        alive := true;
      } else {
        QueueUp(m, active, t);
        alive := GiveUp(SetMutex(t, m, t.mutexes[m].(queue := t.mutexes[m].queue + [active])));
      }
    }

    /** sthread_user_mutex_unlock. */
    method MutexUnlock(m: nat, ghost t: Threads)
      requires Shows(t) && m < |mutexes|
      modifies this`mutexes, queues, ready, mutexes[m].queue, queues.pool
      ensures Shows(Unlock(t, m)) && |mutexes| == old(|mutexes|)
      ensures queues.all == old(queues.all) && fresh(queues.pool - old(queues.pool))
    {
      hide Queue.Linked, Queue.Contents, Queues.Valid;
      if mutexes[m].thr != Some(active) {
        return;
      }
      var empty := queues.IsEmpty(mutexes[m].queue);
      if empty {
        SetOwner(m, None, t);
      } else {
        HandOver(m, t);
      }
    }

    /** The first waiting thread becomes the owner and ready. */
    method HandOver(m: nat, ghost t: Threads)
      requires Shows(t) && m < |mutexes| && t.mutexes[m].queue != []
      modifies this`mutexes, queues, ready, mutexes[m].queue, queues.pool
      ensures Shows(Release(t, m)) && |mutexes| == old(|mutexes|)
      ensures queues.all == old(queues.all) && fresh(queues.pool - old(queues.pool))
    {
      hide Queue.Linked, Queue.Contents, Queues.Valid;
      var next := TakeWaiter(m, t);
      SetOwner(m, Some(next), SetMutex(t, m, t.mutexes[m].(queue := t.mutexes[m].queue[1..])));
      MakeReady(next, SetMutex(t, m, Mutex(Some(next), t.mutexes[m].queue[1..])));
    }

    /** queue_remove of the queue of mutex m. */
    method TakeWaiter(m: nat, ghost t: Threads) returns (x: nat)
      requires Shows(t) && m < |mutexes| && t.mutexes[m].queue != []
      modifies queues, mutexes[m].queue, queues.pool
      ensures x == t.mutexes[m].queue[0] && Shows(SetMutex(t, m, t.mutexes[m].(queue := t.mutexes[m].queue[1..])))
      ensures queues.all == old(queues.all) && queues.pool == old(queues.pool)
    {
      hide Queue.Linked, Queue.Contents, Queues.Valid;
      x := queues.Remove(mutexes[m].queue);
    }

    method SetOwner(m: nat, x: Option<nat>, ghost t: Threads)
      requires Shows(t) && m < |mutexes|
      modifies this`mutexes
      ensures Shows(SetMutex(t, m, t.mutexes[m].(thr := x))) && |mutexes| == old(|mutexes|)
      ensures mutexes[m].queue == old(mutexes[m].queue)
    {
      hide Queue.Linked, Queue.Contents, Queues.Valid;
      mutexes := mutexes[m := mutexes[m].(thr := x)];
    }

    /** sthread_user_monitor_init, with a mutex of its own. */
    method MonitorInit(ghost t: Threads) returns (k: nat)
      requires Shows(t)
      modifies this`mutexes, this`monitors, queues
      ensures k == |t.monitors|
      ensures Shows(t.(mutexes := t.mutexes + [Mutex(None, [])], monitors := t.monitors + [Monitor(|t.mutexes|, [])]))
    {
      hide Queue.Linked, Queue.Contents, Queues.Valid;
      var m := MutexInit(t);
      var q := NewQueue(t.(mutexes := t.mutexes + [Mutex(None, [])]));
      k := |monitors|;
      monitors := monitors + [MonitorRecord(m, q)];
    }

    /** The active thread joins the queue of monitor k. */
    method FallAsleep(k: nat, ghost t: Threads)
      requires Shows(t) && k < |monitors|
      modifies queues, monitors[k].queue, queues.pool
      ensures Shows(Sleep(t, k)) && queues.all == old(queues.all) && fresh(queues.pool - old(queues.pool))
    {
      hide Queue.Linked, Queue.Contents, Queues.Valid;
      queues.Insert(monitors[k].queue, active);
    }

    /** sthread_user_monitor_wait, up to the moment the processor goes on. */
    method MonitorWait(k: nat, ghost t: Threads) returns (alive: bool)
      requires Shows(t) && k < |monitors|
      modifies this`active, this`mutexes, queues, ready, mutexes[monitors[k].mutex].queue, monitors[k].queue
      modifies queues.pool
      ensures WellFormed(t) && (alive <==> Wait(t, k).Some?)
      ensures alive ==> Shows(Wait(t, k).value)
    {
      hide Queue.Linked, Queue.Contents, Queues.Valid;
      var m := monitors[k].mutex;
      if mutexes[m].thr != Some(active) {
        return true;
      }
      FallAsleep(k, t);
      MutexUnlock(m, Sleep(t, k));
      alive := GiveUp(Release(Sleep(t, k), m));
    }

    /** sthread_user_monitor_signal. */
    method MonitorSignal(k: nat, ghost t: Threads)
      requires Shows(t) && k < |monitors|
      modifies queues, mutexes[monitors[k].mutex].queue, monitors[k].queue, queues.pool
      ensures WellFormed(t) && Shows(Signal(t, k))
    {
      hide Queue.Linked, Queue.Contents, Queues.Valid;
      var m := monitors[k].mutex;
      if mutexes[m].thr != Some(active) {
        return;
      }
      var empty := queues.IsEmpty(monitors[k].queue);
      if !empty {
        var first := queues.Remove(monitors[k].queue);
        QueueUp(m, first, t.(monitors := t.monitors[k := t.monitors[k].(queue := t.monitors[k].queue[1..])]));
      }
    }
  }
}
