// The thread pool as a monitor: a bounded queue, two condition variables, and threads that
// wait, are woken (also without a signal) and re-check.  Each method is one stretch of code
// between acquiring the mutex and releasing or waiting on it.
module ThreadPools {
  type Task = nat

  datatype Option<T> = None | Some(value: T)

  // What a producer or a worker does next: it waits, or it has left the monitor; or, without
  // threads, the producer has run the task itself.
  datatype Outcome = Waits | Done(task: Option<Task>) | RanHere

  // What may happen next, in whatever order the threads get to run: a producer or a worker
  // arrives, or comes out of its wait; a thread wakes without a signal; the pool is stopped.
  datatype Step = Produces(task: Task, woken: bool) | Takes(woken: bool) | WorkerWakes | ProducerWakes | Stops

  class ThreadPool {
    const threads: nat
    var queue: seq<Task>
    var maxQueueSize: nat
    var running: bool

    // threads blocked on each condition variable, and threads woken that have yet to re-check
    var workersWaiting: nat
    var workersWoken: nat
    var producersWaiting: nat
    var producersWoken: nat

    ghost var accepted: seq<Task>
    ghost var taken: seq<Task>
    ghost var ranHere: seq<Task>

    predicate IsFull()
      reads this
    {
      maxQueueSize > 0 && |queue| >= maxQueueSize
    }

    // Accepted tasks leave in the order in which they came, none lost and none twice.
    ghost predicate Fifo()
      reads this
    {
      taken + queue == accepted
    }

    // While running: if a worker waits, enough woken workers are on the way for the queue;
    // if a producer waits, enough woken producers are on the way for the free slots.
    ghost predicate NoLostSignal()
      reads this
    {
      && (running && 0 < workersWaiting ==> |queue| <= workersWoken)
      && (running && 0 < producersWaiting ==> 0 < maxQueueSize && maxQueueSize - |queue| <= producersWoken)
      && (!running ==> workersWaiting == 0 && producersWaiting == 0)
    }

    // Only the pool's own threads are workers; without any, nothing is ever queued.
    ghost predicate Staffed()
      reads this
    {
      && workersWaiting + workersWoken <= threads
      && (threads == 0 ==> accepted == [] && producersWaiting == producersWoken == 0)
      && (threads != 0 ==> ranHere == [])
    }

    ghost predicate Valid()
      reads this
    {
      Fifo() && NoLostSignal() && Staffed() && (0 < maxQueueSize ==> |queue| <= maxQueueSize)
    }

    constructor (numThreads: nat, maxSize: nat)
      ensures Valid() && running && accepted == ranHere == [] && threads == numThreads && maxQueueSize == maxSize
      ensures workersWaiting == workersWoken == producersWaiting == producersWoken == 0
    {
      threads, ranHere := numThreads, [];
      queue, maxQueueSize, running := [], maxSize, true;
      workersWaiting, workersWoken, producersWaiting, producersWoken := 0, 0, 0, 0;
      accepted, taken := [], [];
    }

    // ---- condition variables ----

    method NotifyWorker()
      modifies `workersWaiting, `workersWoken
      ensures workersWaiting == (if old(workersWaiting) > 0 then old(workersWaiting) - 1 else 0)
      ensures workersWoken == old(workersWoken) + if old(workersWaiting) > 0 then 1 else 0
    {
      if workersWaiting > 0 {
        workersWaiting, workersWoken := workersWaiting - 1, workersWoken + 1;
      }
    }

    method NotifyProducer()
      modifies `producersWaiting, `producersWoken
      ensures producersWaiting == (if old(producersWaiting) > 0 then old(producersWaiting) - 1 else 0)
      ensures producersWoken == old(producersWoken) + if old(producersWaiting) > 0 then 1 else 0
    {
      if producersWaiting > 0 {
        producersWaiting, producersWoken := producersWaiting - 1, producersWoken + 1;
      }
    }

    // A thread may wake without a signal.
    method SpuriousWorker()
      requires Valid() && 0 < workersWaiting
      modifies `workersWaiting, `workersWoken
      ensures Valid() && workersWaiting == old(workersWaiting) - 1 && workersWoken == old(workersWoken) + 1
    {
      NotifyWorker();
    }

    method SpuriousProducer()
      requires Valid() && 0 < producersWaiting
      modifies `producersWaiting, `producersWoken
      ensures Valid() && producersWaiting == old(producersWaiting) - 1 && producersWoken == old(producersWoken) + 1
    {
      NotifyProducer();
    }

    // ---- producers ----

    // RunTask from the test of its wait loop on; woken tells whether the producer comes from a
    // wait.  A pool without threads runs the task in the caller, also when it is stopped.
    method RunTask(task: Task, woken: bool) returns (r: Outcome)
      requires Valid() && (woken ==> 0 < producersWoken)
      modifies this
      ensures Valid() && maxQueueSize == old(maxQueueSize) && running == old(running) && taken == old(taken)
      ensures r == RanHere <==> threads == 0
      ensures ranHere == old(ranHere) + if r == RanHere then [task] else []
      ensures r == Waits <==> threads != 0 && running && 0 < maxQueueSize <= |old(queue)|
      ensures r == Done(None) <==> threads != 0 && !running
      ensures threads != 0 && r != Waits && running ==>
        r == Done(Some(task)) && accepted == old(accepted) + [task] && queue == old(queue) + [task]
      ensures threads == 0 || r == Waits || !running ==> accepted == old(accepted) && queue == old(queue)
    {
      if threads == 0 {
        ranHere := ranHere + [task];
        return RanHere;
      }
      if woken {
        LeaveProducerQueue();
      }
      if IsFull() && running {
        producersWaiting := producersWaiting + 1;
        return Waits;
      }
      if !running {
        return Done(None);
      }
      assert !IsFull();
      queue := queue + [task];
      accepted := accepted + [task];
      NotifyWorker();
      return Done(Some(task));
    }

    method LeaveProducerQueue()
      requires 0 < producersWoken
      modifies `producersWoken
      ensures producersWoken == old(producersWoken) - 1
    {
      producersWoken := producersWoken - 1;
    }

    method LeaveWorkerQueue()
      requires 0 < workersWoken
      modifies `workersWoken
      ensures workersWoken == old(workersWoken) - 1
    {
      workersWoken := workersWoken - 1;
    }

    // ---- workers ----

    // Take from the test of its wait loop on, by a thread that is not waiting.
    method Take(woken: bool) returns (r: Outcome)
      requires Valid() && if woken then 0 < workersWoken else workersWaiting + workersWoken < threads
      modifies this
      ensures Valid() && maxQueueSize == old(maxQueueSize) && running == old(running)
      ensures accepted == old(accepted) && ranHere == old(ranHere)
      ensures r == Waits <==> old(queue) == [] && running
      ensures r == Done(None) <==> old(queue) == [] && !running
      ensures old(queue) != [] ==>
        r == Done(Some(old(queue)[0])) && taken == old(taken) + [old(queue)[0]] && queue == old(queue)[1..]
      ensures old(queue) == [] ==> taken == old(taken) && queue == []
    {
      if woken {
        LeaveWorkerQueue();
      }
      if queue == [] && running {
        workersWaiting := workersWaiting + 1;
        return Waits;
      }
      r := Done(None);
      if queue != [] {
        r := Done(Some(queue[0]));
        taken := taken + [queue[0]];
        queue := queue[1..];
        if maxQueueSize > 0 {
          NotifyProducer();
        }
      }
    }

    // ---- stopping ----

    // notify_all on both condition variables: every waiting thread is woken.
    method Stop()
      requires Valid()
      modifies `running, `workersWaiting, `workersWoken, `producersWaiting, `producersWoken
      ensures Valid() && !running && workersWaiting == 0 && producersWaiting == 0
      ensures workersWoken == old(workersWoken + workersWaiting)
      ensures producersWoken == old(producersWoken + producersWaiting)
    {
      running := false;
      workersWoken, workersWaiting := workersWoken + workersWaiting, 0;
      producersWoken, producersWaiting := producersWoken + producersWaiting, 0;
    }

    predicate Enabled(step: Step)
      reads this
    {
      match step
      case Produces(_, woken) => woken ==> 0 < producersWoken
      case Takes(woken) => if woken then 0 < workersWoken else workersWaiting + workersWoken < threads
      case WorkerWakes => 0 < workersWaiting
      case ProducerWakes => 0 < producersWaiting
      case Stops => true
    }

    // Any interleaving: steps that cannot be taken where they stand are skipped.
    method RunSteps(steps: seq<Step>)
      requires Valid()
      modifies this
      ensures Valid() && old(taken) <= taken <= accepted && old(accepted) <= accepted
      ensures !old(running) ==> !running && accepted == old(accepted)
      ensures 0 < maxQueueSize ==> |queue| <= maxQueueSize
      ensures !running ==> workersWaiting == 0 && producersWaiting == 0
    {
      TakenInOrder();
      for i := 0 to |steps|
        invariant Valid() && old(taken) <= taken <= accepted && old(accepted) <= accepted
        invariant !old(running) ==> !running && accepted == old(accepted)
      {
        if Enabled(steps[i]) {
          match steps[i]
          case Produces(task, woken) => var _ := RunTask(task, woken);
          case Takes(woken) => var _ := Take(woken);
          case WorkerWakes => SpuriousWorker();
          case ProducerWakes => SpuriousProducer();
          case Stops => Stop();
        }
        TakenInOrder();
      }
    }

    // ---- what the invariant says at any moment of any run ----

    // While a task is queued, some worker is on its way to it or none is asleep; there is one
    // that is not.
    lemma QueuedTaskIsNoticed()
      requires Valid() && running && queue != []
      ensures (workersWaiting == 0 || 0 < workersWoken) && workersWaiting < threads
    {
    }

    // While a slot is free, some producer is on its way to it or none is asleep.
    lemma FreeSlotIsNoticed()
      requires Valid() && running && 0 < maxQueueSize && |queue| < maxQueueSize
      ensures producersWaiting == 0 || 0 < producersWoken
    {
    }

    // No deadlock: a queued task can be taken by a worker that was woken or does not wait, a
    // new producer may come at any moment, and a waiting thread may wake.
    lemma AlwaysMoves(task: Task)
      requires Valid()
      ensures running && queue != [] ==> Enabled(Takes(true)) || Enabled(Takes(false))
      ensures Enabled(Produces(task, false)) && (0 < producersWoken ==> Enabled(Produces(task, true)))
      ensures (0 < workersWaiting ==> Enabled(WorkerWakes)) && (0 < producersWaiting ==> Enabled(ProducerWakes))
      ensures Enabled(Stops) && (0 < workersWoken ==> Enabled(Takes(true)))
    {
      if running && queue != [] { QueuedTaskIsNoticed(); }
    }

    // Workers and producers are never asleep together, unless woken ones are on their way.
    lemma NeverAllAsleep()
      requires Valid() && running && 0 < workersWaiting && 0 < producersWaiting
      ensures maxQueueSize <= workersWoken + producersWoken
    {
    }

    // Tasks are taken in the order in which they were accepted.
    lemma TakenInOrder()
      requires Valid()
      ensures taken <= accepted && |queue| == |accepted| - |taken|
    {
    }
  }
}
