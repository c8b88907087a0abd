/**
  The asynchronous logger as a step system: producers append lines, the backend
  takes, cuts, writes and recycles batches of buffers.  Every step is atomic; a run
  is any sequence of enabled steps.
 */
module LoggerSpec {
  import opened LogFiles
  import opened Strings

  type Line = string

  /** The lines in one buffer. */
  type Block = seq<Line>

  /**
    Where the backend is in its loop: before the loop test; past it, and perhaps
    waiting for lines; with a batch; writing; and after the loop.
   */
  datatype Phase = Idle | Entered | Taken | Writing | Stopped

  datatype State = State(
    /** Every line appended so far, in order. */
    history: seq<Line>,
    /** Lines in the log file. */
    disk: seq<Line>,
    /** The batches dealt with, as they were taken, and the one in hand. */
    finished: seq<seq<Block>>,
    batch: seq<Block>,
    /** `buffers_to_write`, of which `written` are in the file. */
    toWrite: seq<Block>,
    written: nat,
    /** `buffer_vector_` and `current_buffer_`. */
    pending: seq<Block>,
    current: Block,
    /** Which of `next_buffer_`, `new_buffer_1` and `new_buffer_2` are not null. */
    hasNext: bool,
    hasNew1: bool,
    hasNew2: bool,
    stopping: bool,
    phase: Phase,
    /** No line so far was too long for an empty buffer. */
    linesFit: bool)

  const K_BUFFER_SIZE := 4_000_000

  const Init := State([], [], [], [], [], 0, [], [], true, true, true, false, Idle, true)

  datatype Step =
    | Append(line: Line, fits: bool)
    | Enter
    | Take
    | Drop
    | WriteOne
    | Recycle
    | Stop
    | Leave

  const MAX_BATCH := 25

  /** What is left of a batch by the cut. */
  function Kept(batch: seq<Block>): seq<Block> {
    if |batch| > MAX_BATCH then batch[..2] else batch
  }

  function KeptOfAll(batches: seq<seq<Block>>): seq<Block> {
    if batches == [] then [] else Kept(batches[0]) + KeptOfAll(batches[1..])
  }

  /** `Stop` takes no lock: it may come at any time, also between the loop test and the taking of a batch. */
  predicate Enabled(s: State, a: Step) {
    match a
    case Append(_, _) => true
    case Enter => s.phase.Idle? && !s.stopping
    case Take => s.phase.Entered?
    case Drop => s.phase.Taken?
    case WriteOne => s.phase.Writing? && s.written < |s.toWrite|
    case Recycle => s.phase.Writing? && s.written == |s.toWrite|
    case Stop => true
    case Leave => s.phase.Idle? && s.stopping
  }

  function Next(s: State, a: Step): State
    requires Enabled(s, a)
  {
    match a
    case Append(line, fits) =>
      var s' := s.(history := s.history + [line], linesFit := s.linesFit && |line| < K_BUFFER_SIZE);
      if fits then s'.(current := s.current + [line])
      else s'.(pending := s.pending + [s.current], current := [line], hasNext := false)
    case Enter => s.(phase := Entered)
    case Take =>
      var batch := s.pending + [s.current];
      s.(batch := batch, toWrite := batch, written := 0, pending := [], current := [],
         hasNew1 := false, hasNext := true, hasNew2 := s.hasNew2 && s.hasNext, phase := Taken)
    case Drop => s.(toWrite := Kept(s.batch), phase := Writing)
    case WriteOne => s.(disk := s.disk + s.toWrite[s.written], written := s.written + 1)
    case Recycle =>
      s.(finished := s.finished + [s.batch], batch := [], toWrite := [], written := 0,
         hasNew1 := true, hasNew2 := true, phase := Idle)
    case Stop => s.(stopping := true)
    case Leave => s.(phase := Stopped)
  }

  // ---------- Invariants ----------

  /** Everything appended is in a batch that was taken, pending, or in the current buffer, in this order. */
  predicate NothingLostBeforeTheCut(s: State) {
    s.history == Flatten(Flatten(s.finished)) + Flatten(s.batch) + Flatten(s.pending) + s.current
  }

  /** The file holds what the cut left of every batch dealt with, and the written part of the one in hand. */
  predicate DiskIsKept(s: State)
    requires s.written <= |s.toWrite|
  {
    s.disk == Flatten(KeptOfAll(s.finished)) + Flatten(s.toWrite[..s.written])
  }

  /** How many buffers `Recycle` takes back from the batch. */
  function Needed(s: State): nat {
    (if s.hasNew1 then 0 else 1) + (if s.hasNew2 then 0 else 1)
  }

  /** Null buffers are matched by buffers in the batch that is going to replace them. */
  predicate PoolsMatch(s: State) {
    && s.written <= |s.toWrite|
    && (!s.hasNext ==> s.pending != [])
    && (match s.phase
        case Taken => s.toWrite == s.batch && s.written == 0 && !s.hasNew1 && Needed(s) <= |s.batch|
        case Writing => s.toWrite == Kept(s.batch) && !s.hasNew1 && Needed(s) <= |s.toWrite|
        case _ => s.batch == [] && s.toWrite == [] && s.hasNew1 && s.hasNew2)
  }

  predicate Inv(s: State) {
    PoolsMatch(s) && NothingLostBeforeTheCut(s) && DiskIsKept(s)
  }

  lemma StepKeepsPools(s: State, a: Step)
    requires PoolsMatch(s) && Enabled(s, a)
    ensures PoolsMatch(Next(s, a))
  {
  }

  lemma {:induction false} KeptOfAllAppend(a: seq<seq<Block>>, batch: seq<Block>)
    ensures KeptOfAll(a + [batch]) == KeptOfAll(a) + Kept(batch)
    decreases |a|
  {
    if a == [] {
      assert [batch][1..] == [];
      assert a + [batch] == [batch];
    } else {
      assert (a + [batch])[1..] == a[1..] + [batch];
      KeptOfAllAppend(a[1..], batch);
    }
  }

  lemma InitInv()
    ensures Inv(Init)
  {
  }

  lemma AppendKeepsInv(s: State, a: Step)
    requires Inv(s) && a.Append?
    ensures Inv(Next(s, a))
  {
    var taken, pending := Flatten(Flatten(s.finished)) + Flatten(s.batch), Flatten(s.pending);
    if a.fits {
      Assoc(taken + pending, s.current, [a.line]);
    } else {
      FlattenAppend(s.pending, [s.current]);
      FlattenOne(s.current);
      Assoc(taken, pending, s.current);
    }
  }

  lemma TakeKeepsInv(s: State)
    requires Inv(s) && Enabled(s, Take)
    ensures Inv(Next(s, Take))
  {
    var taken, batch := Flatten(Flatten(s.finished)), s.pending + [s.current];
    FlattenAppend(s.pending, [s.current]);
    FlattenOne(s.current);
    assert Flatten(s.batch) == [] && taken + [] == taken;
    Assoc(taken, Flatten(s.pending), s.current);
    assert taken + Flatten(batch) == s.history;
    assert s.history + [] == s.history;
    StepKeepsPools(s, Take);
    assert batch[..0] == [] && s.toWrite[..s.written] == [];
  }

  lemma FlattenUpTo<T>(s: seq<seq<T>>, n: nat)
    requires n < |s|
    ensures Flatten(s[..n + 1]) == Flatten(s[..n]) + s[n]
  {
    assert s[..n + 1] == s[..n] + [s[n]];
    FlattenAppend(s[..n], [s[n]]);
    FlattenOne(s[n]);
  }

  lemma FlattenSplit<T>(s: seq<seq<T>>, n: nat)
    requires n <= |s|
    ensures Flatten(s) == Flatten(s[..n]) + Flatten(s[n..])
  {
    assert s == s[..n] + s[n..];
    FlattenAppend(s[..n], s[n..]);
  }

  lemma WriteKeepsInv(s: State)
    requires Inv(s) && Enabled(s, WriteOne)
    ensures Inv(Next(s, WriteOne))
  {
    FlattenUpTo(s.toWrite, s.written);
    Assoc(Flatten(KeptOfAll(s.finished)), Flatten(s.toWrite[..s.written]), s.toWrite[s.written]);
  }

  lemma RecycleKeepsInv(s: State)
    requires Inv(s) && Enabled(s, Recycle)
    ensures Inv(Next(s, Recycle))
  {
    FlattenAppend(s.finished, [s.batch]);
    FlattenOne(s.batch);
    FlattenAppend(Flatten(s.finished), s.batch);
    KeptOfAllAppend(s.finished, s.batch);
    FlattenAppend(KeptOfAll(s.finished), Kept(s.batch));
    assert s.toWrite[..s.written] == s.toWrite;
    var s' := Next(s, Recycle);
    assert s'.history == Flatten(Flatten(s'.finished)) + Flatten(s'.batch) + Flatten(s'.pending) + s'.current;
  }

  lemma StepKeepsInv(s: State, a: Step)
    requires Inv(s) && Enabled(s, a)
    ensures Inv(Next(s, a))
  {
    match a
    case Append(_, _) => AppendKeepsInv(s, a);
    case Take => TakeKeepsInv(s);
    case WriteOne => WriteKeepsInv(s);
    case Recycle => RecycleKeepsInv(s);
    case _ =>
  }

  // ---------- Runs ----------

  /** `steps` is a run from `s` to `s'`. */
  predicate Runs(s: State, steps: seq<Step>, s': State)
    decreases |steps|
  {
    if steps == [] then s == s'
    else Enabled(s, steps[0]) && Runs(Next(s, steps[0]), steps[1..], s')
  }

  lemma {:induction false} RunKeepsInv(s: State, steps: seq<Step>, s': State)
    requires Inv(s) && Runs(s, steps, s')
    ensures Inv(s')
    decreases |steps|
  {
    if steps != [] {
      StepKeepsInv(s, steps[0]);
      RunKeepsInv(Next(s, steps[0]), steps[1..], s');
    }
  }

  /** The lines that producers append in a run, in the order in which they get the lock. */
  function Appended(steps: seq<Step>): seq<Line> {
    if steps == [] then []
    else (if steps[0].Append? then [steps[0].line] else []) + Appended(steps[1..])
  }

  lemma StepHistory(s: State, a: Step)
    requires Enabled(s, a)
    ensures Next(s, a).history == s.history + Appended([a])
    ensures Appended([a]) == if a.Append? then [a.line] else []
  {
    assert [a][1..] == [];
  }

  lemma {:induction false} HistoryIsAppended(s: State, steps: seq<Step>, s': State)
    requires Runs(s, steps, s')
    ensures s'.history == s.history + Appended(steps)
    decreases |steps|
  {
    if steps != [] {
      var s1 := Next(s, steps[0]);
      HistoryIsAppended(s1, steps[1..], s');
      StepHistory(s, steps[0]);
      Assoc(s.history, Appended([steps[0]]), Appended(steps[1..]));
    } else {
      assert s.history + [] == s.history;
    }
  }

  predicate NoBatchCut(s: State) {
    (forall i :: 0 <= i < |s.finished| ==> |s.finished[i]| <= MAX_BATCH) && |s.batch| <= MAX_BATCH
  }

  lemma {:induction false} KeptIsAll(batches: seq<seq<Block>>)
    requires forall i :: 0 <= i < |batches| ==> |batches[i]| <= MAX_BATCH
    ensures KeptOfAll(batches) == Flatten(batches)
    decreases |batches|
  {
    if batches != [] {
      KeptIsAll(batches[1..]);
    }
  }

  /** Conservation, for every interleaving: exactly the tails of oversized batches are missing from the file. */
  lemma Conservation(steps: seq<Step>, s: State)
    requires Runs(Init, steps, s)
    ensures Appended(steps) == Flatten(Flatten(s.finished)) + Flatten(s.batch) + Flatten(s.pending) + s.current
    ensures s.written <= |s.toWrite|
    ensures s.disk == Flatten(KeptOfAll(s.finished)) + Flatten(s.toWrite[..s.written])
    ensures s.phase.Writing? ==> s.toWrite == Kept(s.batch)
  {
    InitInv();
    RunKeepsInv(Init, steps, s);
    HistoryIsAppended(Init, steps, s);
    assert [] + Appended(steps) == Appended(steps);
  }

  /** Without an oversized batch nothing is missing, and at any time, also after `Stop`, the file is a prefix. */
  lemma ConservationWithoutCut(steps: seq<Step>, s: State)
    requires Runs(Init, steps, s) && NoBatchCut(s)
    ensures s.written <= |s.toWrite|
    ensures Appended(steps) == s.disk + Flatten(s.toWrite[s.written..]) + Flatten(s.pending) + s.current
    ensures s.disk <= Appended(steps)
  {
    InitInv();
    RunKeepsInv(Init, steps, s);
    HistoryIsAppended(Init, steps, s);
    assert s.history == Appended(steps);
    NothingMissing(s);
  }

  lemma NothingMissing(s: State)
    requires Inv(s) && NoBatchCut(s)
    ensures s.history == s.disk + Flatten(s.toWrite[s.written..]) + Flatten(s.pending) + s.current
    ensures s.disk <= s.history
  {
    KeptIsAll(s.finished);
    assert s.toWrite == s.batch;
    FlattenSplit(s.toWrite, s.written);
    var before := Flatten(Flatten(s.finished));
    var front, back := Flatten(s.toWrite[..s.written]), Flatten(s.toWrite[s.written..]);
    Assoc(before, front, back);
    assert s.disk == before + front;
    PrefixOfSum(s.disk, back, Flatten(s.pending), s.current);
  }

  lemma PrefixOfSum<T>(a: seq<T>, b: seq<T>, c: seq<T>, d: seq<T>)
    ensures a <= a + b + c + d
  {
  }

  // ---------- Stopping ----------

  /** The lines appended after the backend last took a batch, `acc` being those before `steps`. */
  function SinceTake(steps: seq<Step>, acc: seq<Line>): seq<Line>
    decreases |steps|
  {
    if steps == [] then acc
    else SinceTake(steps[1..], if steps[0].Take? then [] else acc + if steps[0].Append? then [steps[0].line] else [])
  }

  lemma StepSinceTake(s: State, a: Step)
    requires Enabled(s, a)
    ensures var s' := Next(s, a);
            var acc := Flatten(s.pending) + s.current;
            Flatten(s'.pending) + s'.current == if a.Take? then [] else acc + if a.Append? then [a.line] else []
  {
    var acc := Flatten(s.pending) + s.current;
    if a.Append? {
      FlattenAppend(s.pending, [s.current]);
      FlattenOne(s.current);
      Assoc(Flatten(s.pending), s.current, [a.line]);
    } else {
      assert acc + [] == acc;
    }
  }

  lemma {:induction false} PendingIsSinceTake(s: State, steps: seq<Step>, s': State)
    requires Runs(s, steps, s')
    ensures Flatten(s'.pending) + s'.current == SinceTake(steps, Flatten(s.pending) + s.current)
    decreases |steps|
  {
    if steps != [] {
      StepSinceTake(s, steps[0]);
      PendingIsSinceTake(Next(s, steps[0]), steps[1..], s');
    }
  }

  /**
    When the backend has left its loop, the appended lines are those of the batches
    and those appended after it last took one; the file holds all of the former but
    the tails that were cut.
   */
  lemma LeftBehindAtStop(steps: seq<Step>, s: State)
    requires Runs(Init, steps, s) && s.phase.Stopped?
    ensures Appended(steps) == Flatten(Flatten(s.finished)) + SinceTake(steps, [])
    ensures s.disk == Flatten(KeptOfAll(s.finished))
  {
    Conservation(steps, s);
    PendingIsSinceTake(Init, steps, s);
    InitInv();
    RunKeepsInv(Init, steps, s);
    var taken := Flatten(Flatten(s.finished));
    assert s.toWrite[..s.written] == [] && taken + [] == taken && s.disk + [] == s.disk;
    Assoc(taken, Flatten(s.pending), s.current);
    assert [] + [] == Flatten(Init.pending) + Init.current;
  }

  /** Without an oversized batch, exactly the lines appended after the last batch was taken are missing. */
  lemma OnlyTheLastAreMissing(steps: seq<Step>, s: State)
    requires Runs(Init, steps, s) && NoBatchCut(s) && s.phase.Stopped?
    ensures Appended(steps) == s.disk + SinceTake(steps, [])
  {
    LeftBehindAtStop(steps, s);
    KeptIsAll(s.finished);
  }

  /** A run in which `Stop` comes while the backend waits: it still takes and writes what is there. */
  lemma StoppedWhileWaiting(line: Line) returns (s: State)
    ensures Runs(Init, [Enter, Append(line, true), Stop, Take, Drop, WriteOne, Recycle, Leave], s)
    ensures s.phase.Stopped? && s.disk == [line]
  {
    var steps := [Enter, Append(line, true), Stop, Take, Drop, WriteOne, Recycle, Leave];
    var s1 := Next(Init, Enter);
    var s2 := Next(s1, Append(line, true));
    var s3 := Next(s2, Stop);
    var s4 := Next(s3, Take);
    var s5 := Next(s4, Drop);
    var s6 := Next(s5, WriteOne);
    var s7 := Next(s6, Recycle);
    s := Next(s7, Leave);
    assert Runs(s, steps[8..], s);
    RunsFrom(s7, steps, 7, s);
    RunsFrom(s6, steps, 6, s);
    RunsFrom(s5, steps, 5, s);
    RunsFrom(s4, steps, 4, s);
    RunsFrom(s3, steps, 3, s);
    RunsFrom(s2, steps, 2, s);
    RunsFrom(s1, steps, 1, s);
    RunsFrom(Init, steps, 0, s);
    assert steps[0..] == steps;
    assert s.disk == [line];
  }

  lemma RunsFrom(s: State, steps: seq<Step>, k: nat, s': State)
    requires k < |steps| && Enabled(s, steps[k]) && Runs(Next(s, steps[k]), steps[k + 1..], s')
    ensures Runs(s, steps[k..], s')
  {
    assert steps[k..][1..] == steps[k + 1..];
  }

  /** A batch of up to 25 buffers is written whole, and of a larger one the first two. */
  lemma CutBeyond25(s: State)
    requires Enabled(s, Drop)
    ensures |s.batch| <= 25 ==> Next(s, Drop).toWrite == s.batch
    ensures |s.batch| > 25 ==> Next(s, Drop).toWrite == [s.batch[0], s.batch[1]]
  {
  }

  predicate AllFit(history: seq<Line>) {
    forall i :: 0 <= i < |history| ==> |history[i]| < 4_000_000
  }

  lemma StepKeepsFit(s: State, a: Step)
    requires Enabled(s, a) && (s.linesFit <==> AllFit(s.history))
    ensures var s' := Next(s, a); s'.linesFit <==> AllFit(s'.history)
  {
    if a.Append? {
      OneMoreFits(s.history, a.line);
    } else {
      assert Next(s, a).history == s.history && Next(s, a).linesFit == s.linesFit;
    }
  }

  lemma OneMoreFits(history: seq<Line>, line: Line)
    ensures AllFit(history + [line]) <==> AllFit(history) && |line| < 4_000_000
  {
    if AllFit(history + [line]) {
      assert (history + [line])[|history|] == line;
      assert forall i :: 0 <= i < |history| ==> history[i] == (history + [line])[i];
    }
  }

  /** No buffer has to grow exactly if every line so far has less than 4,000,000 bytes. */
  lemma {:induction false} LinesFitIff(s: State, steps: seq<Step>, s': State)
    requires Runs(s, steps, s') && (s.linesFit <==> AllFit(s.history))
    ensures s'.linesFit <==> AllFit(s'.history)
    decreases |steps|
  {
    if steps != [] {
      StepKeepsFit(s, steps[0]);
      LinesFitIff(Next(s, steps[0]), steps[1..], s');
    }
  }

  /** `Recycle` finds a buffer for each null one, even in a batch that was cut to two. */
  lemma RecyclingIsSafe(steps: seq<Step>, s: State)
    requires Runs(Init, steps, s) && Enabled(s, Recycle)
    ensures 1 <= Needed(s) <= |s.toWrite|
    ensures |s.toWrite| > 2 ==> Needed(s) <= 2
    ensures !s.hasNext ==> s.pending != []
  {
    InitInv();
    RunKeepsInv(Init, steps, s);
  }
}
