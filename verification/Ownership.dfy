/**
  Who may touch a connection, in static mode without timeouts.  One-shot events,
  the batch that `epoll_wait` returned, and the thread pool pass a token around:
  the epoll registration, the harvested event, the queued task, or the running one.
 */
module Ownership {
  import opened Strings
  import opened ThreadPools

  /**
    What a connection is owed next: `Read` until a request is complete, `Write`
    from then on until the response has been sent.  Also the work that does it,
    and the event mask that waits for it.
   */
  datatype Token = Read(fd: int) | Write(fd: int)

  datatype Events = Events(input: bool, output: bool, hangup: bool, error: bool, rdHangup: bool)

  datatype Event = Event(token: Token, events: Events)

  /** What epoll can report for a registration: never nothing, and of input and output only what was asked for. */
  predicate CanReport(e: Event) {
    && (e.events.input ==> e.token.Read?) && (e.events.output ==> e.token.Write?)
    && (e.events.input || e.events.output || e.events.hangup || e.events.error || e.events.rdHangup)
  }

  /** `conns` is the open connections and what they are owed; `armed` is the enabled registrations. */
  datatype State = State(
    conns: map<int, Token>, armed: set<Token>, batch: seq<Event>, pool: Pool<Token>)

  function Init(threads: nat): State {
    State(map[], {}, [], Start(threads))
  }

  // ---------- What the handlers decide ----------

  /** What a handler sees: the last return value, whether it means "try again", and the connection's answers. */
  datatype Result = Result(ret: int, again: bool, finished: bool, pending: int, keepAlive: bool)

  datatype After = Rearm(token: Token) | Close

  /** `OnRead` and `OnProcessStatic`. */
  function OnRead(fd: int, r: Result): After {
    if r.ret <= 0 && !r.again then Close else if r.finished then Rearm(Write(fd)) else Rearm(Read(fd))
  }

  /** `OnWrite`. */
  function OnWrite(fd: int, r: Result): After {
    if r.pending == 0 then (if r.keepAlive then Rearm(Read(fd)) else Close)
    else if r.ret < 0 && r.again then Rearm(Write(fd))
    else Close
  }

  function Handle(task: Token, r: Result): After {
    match task
    case Read(fd) => OnRead(fd, r)
    case Write(fd) => OnWrite(fd, r)
  }

  // ---------- Steps ----------

  /** `Pool` covers the steps of the thread pool but `Push` and `Done`, which belong to `Dispatch` and `Finish`. */
  datatype Action =
    | Accept(fd: int)
    | Harvest(events: seq<Event>)
    | Dispatch
    | PoolStep(step: Step<Token>)
    | Finish(w: nat, result: Result)

  /** `epoll_wait` reports enabled registrations, each at most once. */
  ghost predicate CanHarvest(s: State, events: seq<Event>) {
    && s.batch == [] && events != []
    && (forall i :: 0 <= i < |events| ==> events[i].token in s.armed && CanReport(events[i]))
    && Distinct(Tokens(events))
  }

  ghost predicate Enabled(s: State, a: Action) {
    match a
    case Accept(fd) => fd !in s.conns
    case Harvest(events) => CanHarvest(s, events)
    case Dispatch => s.batch != []
    case PoolStep(step) => !step.Push? && !step.Done? && ThreadPools.Enabled(s.pool, step)
    case Finish(w, _) => ThreadPools.Enabled(s.pool, Done(w))
  }

  function Tokens(events: seq<Event>): (tokens: seq<Token>)
    ensures |tokens| == |events| && forall i :: 0 <= i < |events| ==> tokens[i] == events[i].token
  {
    seq(|events|, i requires 0 <= i < |events| => events[i].token)
  }

  ghost predicate Distinct(tokens: seq<Token>) {
    forall i, j :: 0 <= i < j < |tokens| ==> tokens[i] != tokens[j]
  }

  /** `epoll_ctl` with `EPOLL_CTL_ADD` or `EPOLL_CTL_MOD`: one registration per descriptor. */
  ghost function Arm(armed: set<Token>, token: Token): set<Token> {
    Disarm(armed, token.fd) + {token}
  }

  ghost function Disarm(armed: set<Token>, fd: int): set<Token> {
    set t | t in armed && t.fd != fd
  }

  /** `CloseConn`, or re-arming. */
  ghost function Apply(s: State, fd: int, after: After): State {
    match after
    case Close => s.(conns := s.conns - {fd}, armed := Disarm(s.armed, fd))
    case Rearm(token) => s.(conns := s.conns[fd := token], armed := Arm(s.armed, token))
  }

  /** The loop body of `HttpServer::Run`; an event without a known flag would be dropped. */
  ghost function DispatchEvent(s: State, e: Event): State {
    if e.events.rdHangup || e.events.hangup || e.events.error then Apply(s, e.token.fd, Close)
    else if e.events.input then s.(pool := ThreadPools.Next(s.pool, Push(Read(e.token.fd))))
    else if e.events.output then s.(pool := ThreadPools.Next(s.pool, Push(Write(e.token.fd))))
    else s
  }

  ghost function Next(s: State, a: Action): State
    requires Enabled(s, a)
  {
    match a
    case Accept(fd) => Apply(s, fd, Rearm(Read(fd)))
    case Harvest(events) => s.(armed := s.armed - (set t | t in Tokens(events)), batch := events)
    case Dispatch => DispatchEvent(s.(batch := s.batch[1..]), s.batch[0])
    case PoolStep(step) => s.(pool := ThreadPools.Next(s.pool, step))
    case Finish(w, result) =>
      var task := s.pool.workers[w].task;
      Apply(s.(pool := ThreadPools.Next(s.pool, Done(w))), task.fd, Handle(task, result))
  }

  // ---------- The invariant ----------

  /** In how many places a token is. */
  ghost function Held(s: State, t: Token): nat {
    multiset(s.armed)[t] + multiset(Tokens(s.batch))[t] + multiset(s.pool.queue)[t]
    + multiset(s.pool.workers)[Running(t)]
  }

  /** Of every open connection exactly the token that it is owed exists, once; of others none does. */
  ghost predicate OneToken(s: State) {
    forall t: Token :: Held(s, t) == if t.fd in s.conns && s.conns[t.fd] == t then 1 else 0
  }

  ghost predicate Inv(s: State) {
    && OneToken(s)
    && (forall fd :: fd in s.conns ==> s.conns[fd].fd == fd)
    && (forall i :: 0 <= i < |s.batch| ==> CanReport(s.batch[i]))
    && ThreadPools.Inv(s.pool)
  }

  lemma {:induction false} CountDistinct(tokens: seq<Token>, t: Token)
    requires Distinct(tokens)
    ensures multiset(tokens)[t] == if t in tokens then 1 else 0
    decreases |tokens|
  {
    if tokens != [] {
      CountDistinct(tokens[1..], t);
      assert tokens == [tokens[0]] + tokens[1..];
    }
  }

  lemma InitInv(threads: nat)
    ensures Inv(Init(threads))
  {
    forall t: Token ensures Held(Init(threads), t) == 0 {
      assert Running(t) !in Init(threads).pool.workers;
    }
  }

  /** The token of `fd` has been taken and is nowhere; everything else is as `Inv` has it. */
  ghost predicate Taken(s: State, fd: int) {
    && (forall t: Token :: Held(s, t) == if t.fd in s.conns && s.conns[t.fd] == t && t.fd != fd then 1 else 0)
    && (forall f :: f in s.conns ==> s.conns[f].fd == f)
    && (forall i :: 0 <= i < |s.batch| ==> CanReport(s.batch[i]))
    && ThreadPools.Inv(s.pool)
  }

  /** Re-arming or closing. */
  lemma ApplyKeepsInv(s: State, fd: int, after: After)
    requires Taken(s, fd) && (after.Rearm? ==> after.token.fd == fd)
    ensures Inv(Apply(s, fd, after))
  {
    var s' := Apply(s, fd, after);
    forall t: Token ensures Held(s', t) == if t.fd in s'.conns && s'.conns[t.fd] == t then 1 else 0 {
      assert Held(s, t) >= multiset(s.armed)[t];
      if t.fd == fd {
        assert Held(s, t) == 0;
      }
    }
  }

  /** A state that differs from a good one in one token less. */
  lemma OneLessIsTaken(s: State, s1: State, token: Token)
    requires Inv(s) && s1.conns == s.conns
    requires forall t: Token :: Held(s, t) == Held(s1, t) + if t == token then 1 else 0
    requires (forall i :: 0 <= i < |s1.batch| ==> CanReport(s1.batch[i])) && ThreadPools.Inv(s1.pool)
    ensures Taken(s1, token.fd)
  {
    assert Held(s, token) >= 1;
  }

  lemma HarvestKeepsInv(s: State, events: seq<Event>)
    requires Inv(s) && CanHarvest(s, events)
    ensures Inv(Next(s, Harvest(events)))
  {
    var s' := Next(s, Harvest(events));
    assert Tokens(s.batch) == [];
    forall t: Token ensures Held(s', t) == Held(s, t) {
      CountDistinct(Tokens(events), t);
    }
  }

  lemma FirstEventIsHeld(s: State, t: Token)
    requires s.batch != []
    ensures Held(s, t) == Held(s.(batch := s.batch[1..]), t) + if t == s.batch[0].token then 1 else 0
  {
    assert Tokens(s.batch) == [s.batch[0].token] + Tokens(s.batch[1..]);
  }

  /** The token of the first event moves to the queue. */
  lemma PushKeepsInv(s: State)
    requires Inv(s) && s.batch != []
    ensures Inv(s.(batch := s.batch[1..], pool := ThreadPools.Next(s.pool, Push(s.batch[0].token))))
  {
    var token := s.batch[0].token;
    var s' := s.(batch := s.batch[1..], pool := ThreadPools.Next(s.pool, Push(token)));
    ThreadPools.StepKeepsInv(s.pool, Push(token));
    forall t: Token ensures Held(s', t) == Held(s, t) {
      FirstEventIsHeld(s, t);
    }
  }

  lemma DispatchKeepsInv(s: State)
    requires Inv(s) && s.batch != []
    ensures Inv(Next(s, Dispatch))
  {
    var e, s1 := s.batch[0], s.(batch := s.batch[1..]);
    assert CanReport(e);
    if e.events.rdHangup || e.events.hangup || e.events.error {
      forall t: Token ensures Held(s, t) == Held(s1, t) + if t == e.token then 1 else 0 {
        FirstEventIsHeld(s, t);
      }
      OneLessIsTaken(s, s1, e.token);
      ApplyKeepsInv(s1, e.token.fd, Close);
    } else {
      PushKeepsInv(s);
      assert Next(s, Dispatch) == s1.(pool := ThreadPools.Next(s.pool, Push(e.token)));
    }
  }

  lemma PoolStepKeepsTokens(s: State, step: Step<Token>, t: Token)
    requires Enabled(s, PoolStep(step))
    ensures Held(Next(s, PoolStep(step)), t) == Held(s, t)
  {
    match step {
      case Notify(None) =>
      case Notify(Some(w)) => RunningChanges(s.pool.workers, w, Ready, t);
      case Wake(w) => RunningChanges(s.pool.workers, w, Ready, t);
      case Take(w) => TakeKeepsTokens(s, w, t);
      case Wait(w) => RunningChanges(s.pool.workers, w, Waiting, t);
    }
  }

  lemma TakeKeepsTokens(s: State, w: nat, t: Token)
    requires ThreadPools.Enabled(s.pool, Take(w))
    ensures Held(s.(pool := ThreadPools.Next(s.pool, Take(w))), t) == Held(s, t)
  {
    var queue := s.pool.queue;
    RunningChanges(s.pool.workers, w, Running(queue[0]), t);
    assert queue == [queue[0]] + queue[1..];
    assert multiset(queue)[t] == multiset(queue[1..])[t] + if queue[0] == t then 1 else 0;
  }

  lemma RunningChanges(workers: seq<Worker<Token>>, w: nat, worker: Worker<Token>, t: Token)
    requires w < |workers|
    ensures multiset(workers[w := worker])[Running(t)] ==
            multiset(workers)[Running(t)] - (if workers[w] == Running(t) then 1 else 0)
            + (if worker == Running(t) then 1 else 0)
  {
    Replaced(workers, w, worker);
  }

  lemma FinishKeepsInv(s: State, w: nat, result: Result)
    requires Inv(s) && Enabled(s, Finish(w, result))
    ensures Inv(Next(s, Finish(w, result)))
  {
    var task := s.pool.workers[w].task;
    var s1 := s.(pool := ThreadPools.Next(s.pool, Done(w)));
    ThreadPools.StepKeepsInv(s.pool, Done(w));
    forall t: Token ensures Held(s, t) == Held(s1, t) + if t == task then 1 else 0 {
      RunningChanges(s.pool.workers, w, Ready, t);
    }
    OneLessIsTaken(s, s1, task);
    ApplyKeepsInv(s1, task.fd, Handle(task, result));
  }

  lemma StepKeepsInv(s: State, a: Action)
    requires Inv(s) && Enabled(s, a)
    ensures Inv(Next(s, a))
  {
    match a {
      case Accept(fd) => ApplyKeepsInv(s, fd, Rearm(Read(fd)));
      case Harvest(events) => HarvestKeepsInv(s, events);
      case Dispatch => DispatchKeepsInv(s);
      case PoolStep(step) =>
        ThreadPools.StepKeepsInv(s.pool, step);
        forall t: Token ensures Held(Next(s, a), t) == Held(s, t) {
          PoolStepKeepsTokens(s, step, t);
        }
      case Finish(w, result) => FinishKeepsInv(s, w, result);
    }
  }

  // ---------- All runs ----------

  ghost predicate Runs(s: State, run: seq<Action>, s': State)
    decreases |run|
  {
    if run == [] then s == s' else Enabled(s, run[0]) && Runs(Next(s, run[0]), run[1..], s')
  }

  ghost predicate Reachable(s: State, threads: nat) {
    exists run :: Runs(Init(threads), run, s)
  }

  lemma StepKeepsThreads(s: State, a: Action)
    requires Enabled(s, a)
    ensures |Next(s, a).pool.workers| == |s.pool.workers|
  {
  }

  lemma {:induction false} RunKeepsInv(s: State, run: seq<Action>, s': State)
    requires Inv(s) && Runs(s, run, s')
    ensures Inv(s') && |s'.pool.workers| == |s.pool.workers|
    decreases |run|
  {
    if run != [] {
      StepKeepsInv(s, run[0]);
      StepKeepsThreads(s, run[0]);
      RunKeepsInv(Next(s, run[0]), run[1..], s');
    }
  }

  lemma ReachableInv(s: State, threads: nat)
    requires Reachable(s, threads)
    ensures Inv(s) && |s.pool.workers| == threads
  {
    var run :| Runs(Init(threads), run, s);
    InitInv(threads);
    RunKeepsInv(Init(threads), run, s);
  }

  // ---------- What it means ----------

  /** No two workers ever run tasks of the same connection. */
  lemma NoTwoWorkers(s: State, threads: nat, v: nat, w: nat)
    requires Reachable(s, threads) && v < w < |s.pool.workers|
    requires s.pool.workers[v].Running? && s.pool.workers[w].Running?
    ensures s.pool.workers[v].task.fd != s.pool.workers[w].task.fd
  {
    ReachableInv(s, threads);
    var a, b := s.pool.workers[v], s.pool.workers[w];
    var rest := s.pool.workers[..v] + s.pool.workers[v + 1..];
    assert s.pool.workers == s.pool.workers[..v] + [a] + s.pool.workers[v + 1..];
    assert multiset(s.pool.workers) == multiset(rest) + multiset{a};
    assert rest[w - 1] == b;
    assert b in multiset(rest);
    assert Held(s, a.task) >= 1 && Held(s, b.task) >= 1;
    assert a == b ==> multiset(s.pool.workers)[a] >= 2;
  }

  /** A token that is anywhere belongs to an open connection, and says what that connection is owed. */
  lemma TokensAreCurrent(s: State, threads: nat, t: Token)
    requires Reachable(s, threads)
    requires t in s.armed || t in Tokens(s.batch) || t in s.pool.queue || Running(t) in s.pool.workers
    ensures t.fd in s.conns && s.conns[t.fd] == t
  {
    ReachableInv(s, threads);
    assert Held(s, t) >= 1;
  }

  /** Every open connection is in exactly one place. */
  lemma InExactlyOnePlace(s: State, threads: nat, fd: int)
    requires Reachable(s, threads) && fd in s.conns
    ensures var t := s.conns[fd];
            && t.fd == fd
            && (t in s.armed || t in Tokens(s.batch) || t in s.pool.queue || Running(t) in s.pool.workers)
            && (t in s.armed ==> t !in Tokens(s.batch) && t !in s.pool.queue && Running(t) !in s.pool.workers)
            && (t in Tokens(s.batch) ==> t !in s.pool.queue && Running(t) !in s.pool.workers)
            && (t in s.pool.queue ==> Running(t) !in s.pool.workers)
  {
    ReachableInv(s, threads);
    assert Held(s, s.conns[fd]) == 1;
  }

  // ---------- Nothing is stranded ----------

  /** The steps that need nothing from outside; a spurious wake-up is not one of them. */
  ghost predicate Internal(a: Action) {
    a.Dispatch? || a.Finish? || (a.PoolStep? && !a.step.Wake?)
  }

  ghost function Work(s: State): nat {
    5 * |s.batch| + 2 * |s.pool.queue| + 2 * s.pool.adders + multiset(s.pool.workers)[Ready]
    + 2 * Busy(s.pool.workers)
  }

  /** The number of workers that run a task. */
  ghost function Busy(workers: seq<Worker<Token>>): nat {
    if workers == [] then 0 else (if workers[0].Running? then 1 else 0) + Busy(workers[1..])
  }

  lemma {:induction false} BusyAfter(workers: seq<Worker<Token>>, w: nat, worker: Worker<Token>)
    requires w < |workers|
    ensures Busy(workers[w := worker]) ==
            Busy(workers) - (if workers[w].Running? then 1 else 0) + (if worker.Running? then 1 else 0)
    decreases |workers|
  {
    if w == 0 {
      assert workers[w := worker][1..] == workers[1..];
    } else {
      assert workers[w := worker][1..] == workers[1..][w - 1 := worker];
      BusyAfter(workers[1..], w - 1, worker);
    }
  }

  lemma WorkerChanges(workers: seq<Worker<Token>>, w: nat, worker: Worker<Token>)
    requires w < |workers|
    ensures Busy(workers[w := worker]) ==
            Busy(workers) - (if workers[w].Running? then 1 else 0) + (if worker.Running? then 1 else 0)
    ensures multiset(workers[w := worker])[Ready] ==
            multiset(workers)[Ready] - (if workers[w] == Ready then 1 else 0) + (if worker == Ready then 1 else 0)
  {
    BusyAfter(workers, w, worker);
    Replaced(workers, w, worker);
  }

  lemma InternalStepsUseUpWork(s: State, a: Action)
    requires Enabled(s, a) && Internal(a)
    ensures Work(Next(s, a)) < Work(s)
  {
    match a {
      case Dispatch =>
      case Finish(w, _) => WorkerChanges(s.pool.workers, w, Ready);
      case PoolStep(Notify(None)) =>
      case PoolStep(Notify(Some(w))) => WorkerChanges(s.pool.workers, w, Ready);
      case PoolStep(Take(w)) => WorkerChanges(s.pool.workers, w, Running(s.pool.queue[0]));
      case PoolStep(Wait(w)) => WorkerChanges(s.pool.workers, w, Waiting);
    }
  }

  /** A connection that no registration waits for has a step coming that needs nothing from outside. */
  lemma SomeoneCanGoOn(s: State, fd: int) returns (a: Action)
    requires Inv(s) && s.pool.workers != []
    requires fd in s.conns && s.conns[fd] !in s.armed
    ensures Internal(a) && Enabled(s, a)
  {
    var t := s.conns[fd];
    assert Held(s, t) == 1;
    if s.batch != [] {
      return Dispatch;
    }
    assert Tokens(s.batch) == [];
    if s.pool.queue != [] {
      var w := Attendant(s.pool);
      a := NextOfPool(s, w);
    } else {
      assert Running(t) in s.pool.workers;
      var i: nat :| i < |s.pool.workers| && s.pool.workers[i] == Running(t);
      a := Finish(i, Result(0, false, false, 0, false));
    }
  }

  lemma NextOfPool(s: State, w: Option<nat>) returns (a: Action)
    requires s.pool.queue != []
    requires match w case Some(i) => i < |s.pool.workers| && !s.pool.workers[i].Waiting? case None => s.pool.adders > 0
    ensures Internal(a) && Enabled(s, a)
  {
    match w {
      case None =>
        if Waiting in s.pool.workers {
          var i: nat :| i < |s.pool.workers| && s.pool.workers[i] == Waiting;
          a := PoolStep(Notify(Some(i)));
        } else {
          a := PoolStep(Notify(None));
        }
      case Some(i) =>
        a := if s.pool.workers[i] == Ready then PoolStep(Take(i)) else Finish(i, Result(0, false, false, 0, false));
    }
  }

  ghost predicate AllInternal(run: seq<Action>) {
    forall i :: 0 <= i < |run| ==> Internal(run[i])
  }

  /** Left to itself, the server stops after at most `Work(s)` steps, whatever it does. */
  lemma {:induction false} InternalRunsEnd(s: State, run: seq<Action>, s': State)
    requires Runs(s, run, s') && AllInternal(run)
    ensures |run| + Work(s') <= Work(s)
    decreases |run|
  {
    if run != [] {
      InternalStepsUseUpWork(s, run[0]);
      InternalRunsEnd(Next(s, run[0]), run[1..], s');
    }
  }

  /** And where it cannot go on, every open connection is armed again for what it is owed. */
  lemma NoneIsStranded(s: State, threads: nat, run: seq<Action>, s': State)
    requires Reachable(s, threads) && threads > 0
    requires Runs(s, run, s') && AllInternal(run)
    requires forall a :: Internal(a) ==> !Enabled(s', a)
    ensures |run| <= Work(s)
    ensures forall fd :: fd in s'.conns ==> s'.conns[fd] in s'.armed
  {
    ReachableInv(s, threads);
    RunKeepsInv(s, run, s');
    InternalRunsEnd(s, run, s');
    forall fd | fd in s'.conns ensures s'.conns[fd] in s'.armed {
      if s'.conns[fd] !in s'.armed {
        var a := SomeoneCanGoOn(s', fd);
      }
    }
  }
}
