/**
  `white::ThreadPool` before it is closed: a queue behind a mutex and a condition
  variable.  Each step is one critical section, a notification, or the end of a task.
 */
module ThreadPools {
  import opened Strings

  /** `Ready`: about to look at the queue under the lock; `Waiting`: inside `cond_.wait`. */
  datatype Worker<T> = Ready | Waiting | Running(task: T)

  /**
    `adders` counts the calls of `AddTask` between push and notification.
    `history` and `started` are all tasks pushed and all tasks taken.
   */
  datatype Pool<T> = Pool(
    queue: seq<T>, workers: seq<Worker<T>>, adders: nat, history: seq<T>, started: seq<T>)

  datatype Step<T> =
    | Push(task: T)
    | Notify(woken: Option<nat>)
    | Wake(w: nat)
    | Take(w: nat)
    | Wait(w: nat)
    | Done(w: nat)

  function Start<T>(threads: nat): Pool<T> {
    Pool([], seq(threads, _ => Ready), 0, [], [])
  }

  predicate Is<T(==)>(p: Pool<T>, w: nat, worker: Worker<T>) {
    w < |p.workers| && p.workers[w] == worker
  }

  /** `notify_one` wakes a waiting worker if there is one; `Wake` is a spurious wake-up. */
  ghost predicate Enabled<T>(p: Pool<T>, a: Step<T>) {
    match a
    case Push(_) => true
    case Notify(None) => p.adders > 0 && Waiting !in p.workers
    case Notify(Some(w)) => p.adders > 0 && Is(p, w, Waiting)
    case Wake(w) => Is(p, w, Waiting)
    case Take(w) => Is(p, w, Ready) && p.queue != []
    case Wait(w) => Is(p, w, Ready) && p.queue == []
    case Done(w) => w < |p.workers| && p.workers[w].Running?
  }

  ghost function Next<T>(p: Pool<T>, a: Step<T>): Pool<T>
    requires Enabled(p, a)
  {
    match a
    case Push(t) => p.(queue := p.queue + [t], history := p.history + [t], adders := p.adders + 1)
    case Notify(None) => p.(adders := p.adders - 1)
    case Notify(Some(w)) => p.(adders := p.adders - 1, workers := p.workers[w := Ready])
    case Wake(w) => p.(workers := p.workers[w := Ready])
    case Take(w) =>
      p.(queue := p.queue[1..], started := p.started + [p.queue[0]], workers := p.workers[w := Running(p.queue[0])])
    case Wait(w) => p.(workers := p.workers[w := Waiting])
    case Done(w) => p.(workers := p.workers[w := Ready])
  }

  /** Tasks are taken in the order in which they were pushed, and each only once. */
  ghost predicate Fifo<T>(p: Pool<T>) {
    p.history == p.started + p.queue
  }

  /** While a worker waits, every queued task has a worker, or a notification, on its way to it. */
  ghost predicate Attended<T>(p: Pool<T>) {
    Waiting in p.workers ==> |p.queue| <= multiset(p.workers)[Ready] + p.adders
  }

  ghost predicate Inv<T>(p: Pool<T>) {
    Fifo(p) && Attended(p)
  }

  lemma Replaced<T>(workers: seq<Worker<T>>, w: nat, worker: Worker<T>)
    requires w < |workers|
    ensures multiset(workers[w := worker]) == multiset(workers) - multiset{workers[w]} + multiset{worker}
    ensures workers[w] in multiset(workers)
  {
    assert workers[w] in workers;
  }

  lemma WaitersStay<T>(workers: seq<Worker<T>>, w: nat, worker: Worker<T>)
    requires w < |workers| && worker != Waiting
    ensures Waiting in workers[w := worker] ==> Waiting in workers
  {
  }

  lemma TakeKeepsInv<T>(p: Pool<T>, w: nat)
    requires Inv(p) && Enabled(p, Take(w))
    ensures Inv(Next(p, Take(w)))
  {
    var task := p.queue[0];
    Replaced(p.workers, w, Running(task));
    WaitersStay(p.workers, w, Running(task));
    assert p.queue == [task] + p.queue[1..];
    Assoc(p.started, [task], p.queue[1..]);
  }

  /** A worker becomes ready, and with it at most one notification is used up. */
  lemma ReadyKeepsAttended<T>(p: Pool<T>, w: nat, adders: nat)
    requires Attended(p) && w < |p.workers| && p.workers[w] != Ready && p.adders <= adders + 1
    ensures Attended(p.(workers := p.workers[w := Ready], adders := adders))
  {
    Replaced(p.workers, w, Ready);
    WaitersStay(p.workers, w, Ready);
  }

  lemma StepKeepsInv<T>(p: Pool<T>, a: Step<T>)
    requires Inv(p) && Enabled(p, a)
    ensures Inv(Next(p, a))
  {
    match a {
      case Push(t) =>
        Assoc(p.started, p.queue, [t]);
      case Notify(None) =>
      case Notify(Some(w)) =>
        ReadyKeepsAttended(p, w, p.adders - 1);
      case Wake(w) =>
        ReadyKeepsAttended(p, w, p.adders);
      case Take(w) =>
        TakeKeepsInv(p, w);
      case Wait(w) =>
      case Done(w) =>
        ReadyKeepsAttended(p, w, p.adders);
    }
  }

  /** `p'` is reached from `p` by the steps `run`. */
  ghost predicate Runs<T>(p: Pool<T>, run: seq<Step<T>>, p': Pool<T>)
    decreases |run|
  {
    if run == [] then p == p' else Enabled(p, run[0]) && Runs(Next(p, run[0]), run[1..], p')
  }

  ghost predicate Reachable<T(!new)>(p: Pool<T>, threads: nat) {
    exists run :: Runs(Start(threads), run, p)
  }

  lemma {:induction false} RunKeepsInv<T>(p: Pool<T>, run: seq<Step<T>>, p': Pool<T>)
    requires Inv(p) && Runs(p, run, p')
    ensures Inv(p') && |p'.workers| == |p.workers|
    decreases |run|
  {
    if run != [] {
      StepKeepsInv(p, run[0]);
      RunKeepsInv(Next(p, run[0]), run[1..], p');
    }
  }

  lemma ReachableInv<T(!new)>(p: Pool<T>, threads: nat)
    requires Reachable(p, threads)
    ensures Inv(p) && |p.workers| == threads
  {
    var run :| Runs(Start(threads), run, p);
    RunKeepsInv(Start(threads), run, p);
  }

  /** What has been pushed is what has been taken, in order, and then what is queued. */
  lemma TakenInOrder<T(!new)>(p: Pool<T>, threads: nat)
    requires Reachable(p, threads)
    ensures p.history == p.started + p.queue
    ensures p.started == p.history[..|p.started|]
  {
    ReachableInv(p, threads);
  }

  /** No wake-up is lost: with a task queued, a worker is not waiting or a notification is still to come. */
  lemma NoLostWakeUp<T(!new)>(p: Pool<T>, threads: nat) returns (w: Option<nat>)
    requires Reachable(p, threads) && threads > 0 && p.queue != []
    ensures |p.workers| == threads
            && match w case Some(i) => i < threads && !p.workers[i].Waiting? case None => p.adders > 0
  {
    ReachableInv(p, threads);
    w := Attendant(p);
  }

  lemma Attendant<T>(p: Pool<T>) returns (w: Option<nat>)
    requires Inv(p) && p.workers != [] && p.queue != []
    ensures match w case Some(i) => i < |p.workers| && !p.workers[i].Waiting? case None => p.adders > 0
  {
    if p.adders > 0 {
      return None;
    }
    if !p.workers[0].Waiting? {
      return Some(0);
    }
    assert multiset(p.workers)[Ready] > 0;
    assert Ready in p.workers;
    var i: nat :| i < |p.workers| && p.workers[i] == Ready;
    return Some(i);
  }

  /** Once every notification is out, a waiting worker means that every queued task has a worker of its own coming. */
  lemma NoTaskWaitsForAWaitingWorker<T(!new)>(p: Pool<T>, threads: nat)
    requires Reachable(p, threads) && p.adders == 0 && Waiting in p.workers
    ensures |p.queue| <= multiset(p.workers)[Ready]
  {
    ReachableInv(p, threads);
  }

  // ---------- The object ----------

  /** The critical sections as they work on the shared queue. */
  class ThreadPool<T(==)> {
    var tasksQueue: seq<T>
    ghost var workers: seq<Worker<T>>
    ghost var adders: nat
    ghost var history: seq<T>
    ghost var started: seq<T>

    ghost function View(): Pool<T>
      reads this
    {
      Pool(tasksQueue, workers, adders, history, started)
    }

    constructor (threadNum: nat)
      ensures View() == Start(if threadNum > 32 then 32 else threadNum)
    {
      tasksQueue := [];
      workers := seq(if threadNum > 32 then 32 else threadNum, _ => Ready);
      adders, history, started := 0, [], [];
    }

    /** The locked part of `AddTask`. */
    method PushTask(task: T)
      modifies this
      ensures View() == Next(old(View()), Push(task))
    {
      tasksQueue := tasksQueue + [task];
      history, adders := history + [task], adders + 1;
    }

    /** One round of a worker's loop up to where it releases the lock; `None` if it waits. */
    method Round(ghost w: nat) returns (task: Option<T>)
      requires Is(View(), w, Ready)
      modifies this
      ensures var step := if old(tasksQueue) == [] then Wait(w) else Take(w);
              Enabled(old(View()), step) && View() == Next(old(View()), step)
      ensures task == if old(tasksQueue) == [] then None else Some(old(tasksQueue)[0])
    {
      if tasksQueue != [] {
        task := Some(tasksQueue[0]);
        started := started + [tasksQueue[0]];
        workers := workers[w := Running(tasksQueue[0])];
        tasksQueue := tasksQueue[1..];
      } else {
        workers := workers[w := Waiting];
        task := None;
      }
    }
  }
}
