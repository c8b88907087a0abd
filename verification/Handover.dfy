/**
  What the event loop and the workers do to a connection: which events and which
  results close it, what it waits for otherwise, and that whatever arrives for a
  connection that is not closed gets to a worker.
 */
module Handovers {
  import opened Strings
  import opened Ownership
  import ThreadPools

  predicate HangsUp(events: Events) {
    events.hangup || events.error || events.rdHangup
  }

  /**
    The peer has closed, or reading failed; all has been sent and the connection is
    not kept alive; or writing failed with something left.
   */
  predicate Closes(task: Token, r: Result) {
    var failed := r.ret <= 0 && !r.again;
    match task
    case Read(_) => failed
    case Write(_) => if r.pending == 0 then !r.keepAlive else failed || r.ret >= 0
  }

  /** What the connection waits for after a task that does not close it. */
  predicate WaitsToWrite(task: Token, r: Result) {
    match task
    case Read(_) => r.finished
    case Write(_) => r.pending != 0
  }

  /** The step closes the connection `fd`. */
  ghost predicate Closing(s: State, a: Action, fd: int)
    requires Enabled(s, a)
  {
    match a
    case Dispatch => s.batch[0].token.fd == fd && HangsUp(s.batch[0].events)
    case Finish(w, result) => var task := s.pool.workers[w].task; task.fd == fd && Closes(task, result)
    case _ => false
  }

  // ---------- Single steps ----------

  /** A new connection is armed for reading. */
  lemma AcceptArms(s: State, threads: nat, fd: int)
    requires Reachable(s, threads) && fd !in s.conns
    ensures Next(s, Accept(fd)) == s.(conns := s.conns[fd := Read(fd)], armed := s.armed + {Read(fd)})
  {
    forall t | t in s.armed ensures t.fd != fd {
      TokensAreCurrent(s, threads, t);
    }
    assert Disarm(s.armed, fd) == s.armed;
  }

  /** A connection is closed exactly by an event with a hang-up or an error; for any other event its task is queued. */
  lemma DispatchHandsOver(s: State, threads: nat, e: Event)
    requires Reachable(s, threads) && s.batch != [] && e == s.batch[0]
    ensures var s' := Next(s, Dispatch);
            && e.token.fd in s.conns && s'.batch == s.batch[1..]
            && s'.pool.workers == s.pool.workers && s'.pool.started == s.pool.started
            && (if HangsUp(e.events) then
                  && s'.conns == s.conns - {e.token.fd}
                  && s'.pool.queue == s.pool.queue && s'.pool.history == s.pool.history
                else
                  && s'.conns == s.conns && s'.armed == s.armed
                  && s'.pool.queue == s.pool.queue + [e.token] && s'.pool.history == s.pool.history + [e.token])
  {
    ReachableInv(s, threads);
    assert CanReport(e) && e.token == Tokens(s.batch)[0];
    TokensAreCurrent(s, threads, e.token);
  }

  /** A task that ends closes its connection, or arms it for reading or for writing. */
  lemma FinishDecides(s: State, threads: nat, w: nat, r: Result)
    requires Reachable(s, threads) && Enabled(s, Finish(w, r))
    ensures var task, s' := s.pool.workers[w].task, Next(s, Finish(w, r));
            var next := if WaitsToWrite(task, r) then Write(task.fd) else Read(task.fd);
            && s'.pool.queue == s.pool.queue && s'.pool.workers == s.pool.workers[w := ThreadPools.Ready]
            && if Closes(task, r) then s'.conns == s.conns - {task.fd} && s'.armed == s.armed
               else s'.conns == s.conns[task.fd := next] && s'.armed == s.armed + {next}
  {
    var task := s.pool.workers[w].task;
    TokensAreCurrent(s, threads, task);
    InExactlyOnePlace(s, threads, task.fd);
    forall t | t in s.armed ensures t.fd != task.fd {
      TokensAreCurrent(s, threads, t);
    }
    assert Disarm(s.armed, task.fd) == s.armed;
  }

  lemma StepClosesIff(s: State, a: Action, fd: int)
    requires Inv(s) && Enabled(s, a) && fd in s.conns
    ensures fd !in Next(s, a).conns <==> Closing(s, a, fd)
  {
    if a.Dispatch? {
      assert CanReport(s.batch[0]);
    }
  }

  // ---------- Runs ----------

  /** A connection is only ever closed by such an event, or by such a result of one of its own tasks. */
  lemma {:induction false} ClosedOnlyBy(s: State, run: seq<Action>, s': State, fd: int) returns (i: nat, at: State)
    requires Inv(s) && Runs(s, run, s') && fd in s.conns && fd !in s'.conns
    ensures i < |run| && Runs(s, run[..i], at) && fd in at.conns
    ensures Enabled(at, run[i]) && Closing(at, run[i], fd)
    decreases |run|
  {
    StepClosesIff(s, run[0], fd);
    var s1 := Next(s, run[0]);
    if fd !in s1.conns {
      return 0, s;
    }
    StepKeepsInv(s, run[0]);
    i, at := ClosedOnlyBy(s1, run[1..], s', fd);
    RunsFurther(s, run, i, at);
    i := i + 1;
  }

  lemma RunsFurther(s: State, run: seq<Action>, i: nat, at: State)
    requires i < |run| && Enabled(s, run[0]) && Runs(Next(s, run[0]), run[1..][..i], at)
    ensures Runs(s, run[..i + 1], at)
  {
    assert run[..i + 1][1..] == run[1..][..i];
  }

  /** The event is still to be handed on, its task is queued, or it has been taken since `k` tasks had been. */
  ghost predicate OnItsWay(s: State, e: Event, k: nat) {
    k <= |s.pool.started| && (e in s.batch || e.token in s.pool.queue || e.token in s.pool.started[k..])
  }

  lemma StepKeepsOnItsWay(s: State, a: Action, e: Event, k: nat)
    requires Enabled(s, a) && Internal(a) && OnItsWay(s, e, k) && CanReport(e) && !HangsUp(e.events)
    ensures OnItsWay(Next(s, a), e, k)
  {
    match a {
      case Dispatch =>
        assert s.batch == [s.batch[0]] + s.batch[1..];
      case PoolStep(Take(w)) =>
        var queue := s.pool.queue;
        assert queue == [queue[0]] + queue[1..];
        assert Next(s, a).pool.started[k..] == s.pool.started[k..] + [queue[0]];
      case _ =>
    }
  }

  lemma {:induction false} RunKeepsOnItsWay(s: State, run: seq<Action>, s': State, e: Event, k: nat)
    requires Runs(s, run, s') && AllInternal(run)
    requires OnItsWay(s, e, k) && CanReport(e) && !HangsUp(e.events)
    ensures OnItsWay(s', e, k)
    decreases |run|
  {
    if run != [] {
      StepKeepsOnItsWay(s, run[0], e, k);
      RunKeepsOnItsWay(Next(s, run[0]), run[1..], s', e, k);
    }
  }

  /** At rest nothing is left to hand on, and the queue is empty. */
  lemma RestIsEmpty(s: State)
    requires Inv(s) && s.pool.workers != [] && forall a :: Internal(a) ==> !Enabled(s, a)
    ensures s.batch == [] && s.pool.queue == []
  {
    assert !Enabled(s, Dispatch);
    if s.pool.queue != [] {
      var w := ThreadPools.Attendant(s.pool);
      var a := NextOfPool(s, w);
    }
  }

  /**
    Whatever has been reported for a connection, but a hang-up or an error, has been
    taken up by a worker when the server comes to rest.
   */
  lemma ReportedIsTakenUp(s: State, threads: nat, e: Event, run: seq<Action>, s': State)
    requires Reachable(s, threads) && threads > 0 && e in s.batch && !HangsUp(e.events)
    requires Runs(s, run, s') && AllInternal(run)
    requires forall a :: Internal(a) ==> !Enabled(s', a)
    ensures |s.pool.started| <= |s'.pool.started| && e.token in s'.pool.started[|s.pool.started|..]
    ensures e.token == if e.events.input then Read(e.token.fd) else Write(e.token.fd)
  {
    ReachableInv(s, threads);
    RunKeepsInv(s, run, s');
    RunKeepsOnItsWay(s, run, s', e, |s.pool.started|);
    RestIsEmpty(s');
  }
}
