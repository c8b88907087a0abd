/**
  `white::AsyncLoggerCore`: the steps of producers and backend on real buffers,
  proved to be the steps of `LoggerSpec`.  A method is what happens under one hold
  of the mutex, or one piece of the backend's work outside it.
 */
module AsyncLoggers {
  import opened Buffers
  import opened LogFiles
  import opened LoggerSpec

  /** Where a buffer is, and the lines in it. */
  datatype Use = Use(place: int, lines: Block)

  const CURRENT := -1
  const NEXT := -2
  const NEW1 := -3
  const NEW2 := -4

  /** Positions in `bufferVector` are 0 and up, those in `buffersToWrite` -5 and down. */
  function InBatch(i: nat): int {
    -5 - i
  }

  type Uses = map<Buffer, Use>

  predicate Is(uses: Uses, b: Buffer, place: int, lines: Block) {
    b in uses && uses[b] == Use(place, lines)
  }

  /** What the step system says about the buffers. */
  datatype Slots = Slots(
    current: Block, pending: seq<Block>, toWrite: seq<Block>, hasNext: bool, hasNew1: bool, hasNew2: bool)

  function SlotsOf(s: State): Slots {
    Slots(s.current, s.pending, s.toWrite, s.hasNext, s.hasNew1, s.hasNew2)
  }

  /** Every buffer is where `uses` has it, with the lines that `s` has there; so no buffer is in two places. */
  ghost predicate Arranged(uses: Uses, current: Buffer?, next: Buffer?, new1: Buffer?, new2: Buffer?,
                           pending: seq<Buffer>, toWrite: seq<Buffer>, s: Slots)
  {
    && current != null && Is(uses, current, CURRENT, s.current)
    && (next != null <==> s.hasNext) && (next != null ==> Is(uses, next, NEXT, []))
    && (new1 != null <==> s.hasNew1) && (new1 != null ==> Is(uses, new1, NEW1, []))
    && (new2 != null <==> s.hasNew2) && (new2 != null ==> Is(uses, new2, NEW2, []))
    && |pending| == |s.pending| && (forall i :: 0 <= i < |pending| ==> Is(uses, pending[i], i, s.pending[i]))
    && |toWrite| == |s.toWrite| && (forall i :: 0 <= i < |toWrite| ==> Is(uses, toWrite[i], InBatch(i), s.toWrite[i]))
  }

  /** No buffer is in two places, and none of the null ones is needed. */
  lemma BuffersAreDistinct(uses: Uses, current: Buffer?, next: Buffer?, new1: Buffer?, new2: Buffer?,
                           pending: seq<Buffer>, toWrite: seq<Buffer>, s: Slots)
    requires Arranged(uses, current, next, new1, new2, pending, toWrite, s)
    ensures current != null && current != next && current != new1 && current != new2
    ensures current !in pending && current !in toWrite
    ensures next != null ==> next != new1 && next != new2 && next !in pending && next !in toWrite
    ensures new1 != null ==> new1 != new2 && new1 !in pending && new1 !in toWrite
    ensures new2 != null ==> new2 !in pending && new2 !in toWrite
    ensures forall i, j :: 0 <= i < j < |pending| ==> pending[i] != pending[j]
    ensures forall i, j :: 0 <= i < j < |toWrite| ==> toWrite[i] != toWrite[j]
    ensures forall i, j :: 0 <= i < |pending| && 0 <= j < |toWrite| ==> pending[i] != toWrite[j]
  {
  }

  ghost function InitialUses(b1: Buffer, b2: Buffer, b3: Buffer, b4: Buffer): Uses {
    map[b1 := Use(CURRENT, []), b2 := Use(NEXT, []), b3 := Use(NEW1, []), b4 := Use(NEW2, [])]
  }

  lemma ArrangedInit(b1: Buffer, b2: Buffer, b3: Buffer, b4: Buffer)
    requires b1 != b2 && b1 != b3 && b1 != b4 && b2 != b3 && b2 != b4 && b3 != b4
    ensures Arranged(InitialUses(b1, b2, b3, b4), b1, b2, b3, b4, [], [], SlotsOf(Init))
  {
  }

  // ---------- How the steps rearrange the buffers ----------

  lemma ArrangedAppend(uses: Uses, current: Buffer, next: Buffer?, new1: Buffer?, new2: Buffer?,
                       pending: seq<Buffer>, toWrite: seq<Buffer>, s: Slots, line: Line)
    requires Arranged(uses, current, next, new1, new2, pending, toWrite, s)
    ensures Arranged(uses[current := Use(CURRENT, s.current + [line])], current, next, new1, new2, pending, toWrite,
                     s.(current := s.current + [line]))
  {
  }

  lemma ArrangedShift(uses: Uses, current: Buffer, next: Buffer?, new1: Buffer?, new2: Buffer?,
                      pending: seq<Buffer>, toWrite: seq<Buffer>, s: Slots, b: Buffer)
    requires Arranged(uses, current, next, new1, new2, pending, toWrite, s)
    requires if next != null then b == next else b !in uses
    ensures Arranged(uses[current := Use(|pending|, s.current)][b := Use(CURRENT, [])], b, null, new1, new2,
                     pending + [current], toWrite,
                     s.(pending := s.pending + [s.current], current := [], hasNext := false))
  {
  }

  /** The use of a buffer after the backend has taken `n` pending buffers and the current one. */
  function TakenUse(u: Use, n: nat): Use {
    if u.place >= 0 then u.(place := InBatch(u.place))
    else if u.place == CURRENT then u.(place := InBatch(n))
    else if u.place == NEW1 then u.(place := CURRENT)
    else u
  }

  ghost function TakenUses(uses: Uses, n: nat): Uses {
    map b | b in uses :: TakenUse(uses[b], n)
  }

  lemma ArrangedTake(uses: Uses, current: Buffer, next: Buffer?, new1: Buffer?, new2: Buffer?,
                     pending: seq<Buffer>, toWrite: seq<Buffer>, s: Slots)
    requires Arranged(uses, current, next, new1, new2, pending, toWrite, s) && s.hasNew1
    ensures Arranged(TakenUses(uses, |pending|), new1, next, null, new2, [], pending + [current],
                     Slots([], [], s.pending + [s.current], s.hasNext, false, s.hasNew2))
  {
    var uses', all := TakenUses(uses, |pending|), pending + [current];
    var blocks := s.pending + [s.current];
    forall i | 0 <= i < |all| ensures Is(uses', all[i], InBatch(i), blocks[i]) {
      assert i < |pending| ==> Is(uses, pending[i], i, s.pending[i]);
    }
  }

  lemma ArrangedNext(uses: Uses, current: Buffer, new1: Buffer?, new2: Buffer,
                     pending: seq<Buffer>, toWrite: seq<Buffer>, s: Slots)
    requires Arranged(uses, current, null, new1, new2, pending, toWrite, s)
    ensures Arranged(uses[new2 := Use(NEXT, [])], current, new2, new1, null, pending, toWrite,
                     s.(hasNext := true, hasNew2 := false))
  {
  }

  lemma ArrangedDrop(uses: Uses, current: Buffer, next: Buffer?, new1: Buffer?, new2: Buffer?,
                     pending: seq<Buffer>, toWrite: seq<Buffer>, s: Slots, n: nat)
    requires Arranged(uses, current, next, new1, new2, pending, toWrite, s) && n <= |toWrite|
    ensures Arranged(uses, current, next, new1, new2, pending, toWrite[..n], s.(toWrite := s.toWrite[..n]))
  {
  }

  /** The last buffer of the batch becomes one of the new ones. */
  lemma ArrangedRefill(uses: Uses, current: Buffer, next: Buffer?, new1: Buffer?, new2: Buffer?,
                       pending: seq<Buffer>, toWrite: seq<Buffer>, s: Slots)
    requires Arranged(uses, current, next, new1, new2, pending, toWrite, s) && toWrite != []
    ensures var n := |toWrite| - 1;
            var b := toWrite[n];
            && (new1 == null ==> Arranged(uses[b := Use(NEW1, [])], current, next, b, new2, pending, toWrite[..n],
                                          s.(toWrite := s.toWrite[..n], hasNew1 := true)))
            && (new2 == null ==> Arranged(uses[b := Use(NEW2, [])], current, next, new1, b, pending, toWrite[..n],
                                          s.(toWrite := s.toWrite[..n], hasNew2 := true)))
  {
    BuffersAreDistinct(uses, current, next, new1, new2, pending, toWrite, s);
  }

  // ---------- The logger ----------

  lemma ConcatOne(block: Block, line: Line)
    ensures Concat(block + [line]) == Concat(block) + line
    ensures Concat([line]) == line
  {
    ConcatAppend(block, [line]);
    assert [line][1..] == [];
    assert Concat([line]) == line + "";
  }

  /** The buffer holds exactly these lines, each of them whole; if every line fits, it has not grown. */
  ghost predicate Loaded(b: Buffer, lines: Block, fit: bool)
    reads b
  {
    && b.Valid() && b.Contents() == Concat(lines)
    && (fit ==> |b.container| == K_BUFFER_SIZE)
    && (lines == [] ==> b.WritableBytes() == |b.container| - 1)
  }

  class AsyncLoggerCore {
    var currentBuffer: Buffer?
    var nextBuffer: Buffer?
    var bufferVector: seq<Buffer>
    var newBuffer1: Buffer?
    var newBuffer2: Buffer?
    var buffersToWrite: seq<Buffer>
    /** How far the writing loop has come. */
    var nextToWrite: nat
    var isStop: bool
    /** The state of the step system that this object is in, and what each buffer is used for. */
    ghost var s: State
    ghost var uses: Uses

    ghost predicate AllLoaded(fit: bool)
      reads this, uses.Keys
    {
      forall b :: b in uses ==> Loaded(b, uses[b].lines, fit)
    }

    /** The buffers are as `t` says. */
    ghost predicate Holds(t: Slots, fit: bool)
      reads this, uses.Keys
    {
      // Bound to variables so that the verifier takes each as one fact.
      var arranged := Arranged(uses, currentBuffer, nextBuffer, newBuffer1, newBuffer2, bufferVector, buffersToWrite, t);
      var loaded := AllLoaded(fit);
      arranged && loaded
    }

    ghost predicate Valid()
      reads this, uses.Keys
    {
      // Bound to variables so that the verifier takes each as one fact.
      var holds := Holds(SlotsOf(s), s.linesFit);
      var pools := PoolsMatch(s);
      holds && pools && nextToWrite == s.written && isStop == s.stopping
    }

    /** As `Start` leaves it. */
    constructor ()
      ensures Valid() && s == Init
    {
      var b1 := new Buffer(K_BUFFER_SIZE);
      var b2 := new Buffer(K_BUFFER_SIZE);
      var b3 := new Buffer(K_BUFFER_SIZE);
      var b4 := new Buffer(K_BUFFER_SIZE);
      ArrangedInit(b1, b2, b3, b4);
      currentBuffer, nextBuffer, newBuffer1, newBuffer2 := b1, b2, b3, b4;
      bufferVector, buffersToWrite, nextToWrite, isStop := [], [], 0, false;
      s := Init;
      uses := InitialUses(b1, b2, b3, b4);
    }

    /** Without the lock, so at any time. */
    method Stop()
      requires Valid()
      modifies this`isStop, this`s
      ensures Valid()
      ensures s == Next(old(s), LoggerSpec.Stop)
    {
      isStop := true;
      StepKeepsPools(s, LoggerSpec.Stop);
      s := Next(s, LoggerSpec.Stop);
    }

    /** The test at the head of the backend's loop. */
    method LoopTest() returns (goOn: bool)
      requires Valid() && s.phase.Idle?
      modifies this`s
      ensures Valid() && goOn == !old(isStop)
      ensures s == Next(old(s), if goOn then Enter else Leave)
    {
      goOn := !isStop;
      StepKeepsPools(s, if goOn then Enter else Leave);
      s := Next(s, if goOn then Enter else Leave);
    }

    /** A producer's line goes to the current buffer, or to a fresh current buffer if it does not fit. */
    method Append(line: string)
      requires Valid()
      modifies this, currentBuffer, nextBuffer
      ensures Valid()
      ensures s == Next(old(s), LoggerSpec.Append(line, old(currentBuffer.WritableBytes()) > |line|))
    {
      if currentBuffer.WritableBytes() > |line| {
        AppendToCurrent(line);
      } else {
        AppendToNext(line);
      }
    }

    /** A line behind those in the current buffer. */
    method AddLine(line: string, ghost t: Slots, ghost fit: bool)
      requires Holds(t, fit) && (currentBuffer.WritableBytes() > |line| || t.current == [])
      modifies this`uses, currentBuffer
      ensures Holds(t.(current := t.current + [line]), fit && |line| < K_BUFFER_SIZE)
    {
      ArrangedAppend(uses, currentBuffer, nextBuffer, newBuffer1, newBuffer2, bufferVector, buffersToWrite, t, line);
      ConcatOne(t.current, line);
      currentBuffer.Append(line);
      uses := uses[currentBuffer := Use(CURRENT, t.current + [line])];
    }

    method AppendToCurrent(line: string)
      requires Valid() && currentBuffer.WritableBytes() > |line|
      modifies this`s, this`uses, currentBuffer
      ensures Valid()
      ensures s == Next(old(s), LoggerSpec.Append(line, true))
    {
      AddLine(line, SlotsOf(s), s.linesFit);
      StepKeepsPools(s, LoggerSpec.Append(line, true));
      s := Next(s, LoggerSpec.Append(line, true));
    }

    /** The next buffer, which is null afterwards, or a new one. */
    method TakeFresh(ghost fit: bool) returns (b: Buffer)
      requires nextBuffer != null ==> Loaded(nextBuffer, [], fit)
      modifies this`nextBuffer
      ensures nextBuffer == null
      ensures if old(nextBuffer) != null then b == old(nextBuffer) else fresh(b)
      ensures Loaded(b, [], fit)
    {
      if nextBuffer != null {
        b, nextBuffer := nextBuffer, null;
      } else {
        b := new Buffer(K_BUFFER_SIZE);
      }
    }

    /** The current buffer becomes the last pending one, and an empty one becomes current. */
    method ShiftBuffers(ghost t: Slots, ghost fit: bool)
      requires Holds(t, fit)
      modifies this`currentBuffer, this`nextBuffer, this`bufferVector, this`uses
      ensures Holds(t.(pending := t.pending + [t.current], current := [], hasNext := false), fit)
      ensures currentBuffer == old(nextBuffer) || fresh(currentBuffer)
    {
      ghost var current: Buffer := currentBuffer;
      ghost var next, pending := nextBuffer, bufferVector;
      bufferVector := bufferVector + [currentBuffer];
      var b := TakeFresh(fit);
      ArrangedShift(uses, current, next, newBuffer1, newBuffer2, pending, buffersToWrite, t, b);
      currentBuffer := b;
      uses := uses[current := Use(|pending|, t.current)][b := Use(CURRENT, [])];
    }

    /** The line is the first one in an empty current buffer. */
    method AddToFresh(line: string, ghost t: Slots, ghost fit: bool)
      requires Holds(t, fit)
      modifies this`currentBuffer, this`nextBuffer, this`bufferVector, this`uses, nextBuffer
      ensures Holds(t.(pending := t.pending + [t.current], current := [line], hasNext := false),
                    fit && |line| < K_BUFFER_SIZE)
    {
      ghost var t1 := t.(pending := t.pending + [t.current], current := [], hasNext := false);
      ShiftBuffers(t, fit);
      AddLine(line, t1, fit);
      assert [] + [line] == [line];
    }

    method AppendToNext(line: string)
      requires Valid()
      modifies this, nextBuffer
      ensures Valid()
      ensures s == Next(old(s), LoggerSpec.Append(line, false))
    {
      AddToFresh(line, SlotsOf(s), s.linesFit);
      StepKeepsPools(s, LoggerSpec.Append(line, false));
      s := Next(s, LoggerSpec.Append(line, false));
    }

    ghost method Relabel(n: nat, fit: bool)
      requires AllLoaded(fit)
      modifies this`uses
      ensures AllLoaded(fit) && uses == TakenUses(old(uses), n)
    {
      uses := TakenUses(uses, n);
    }

    /** The pending buffers and the current one become the batch; the first new buffer becomes current. */
    method MoveToBatch(ghost t: Slots, ghost fit: bool)
      requires Holds(t, fit) && t.toWrite == [] && t.hasNew1
      modifies this`currentBuffer, this`newBuffer1, this`bufferVector, this`buffersToWrite, this`uses
      ensures uses.Keys == old(uses.Keys)
      ensures Holds(Slots([], [], t.pending + [t.current], t.hasNext, false, t.hasNew2), fit)
    {
      ArrangedTake(uses, currentBuffer, nextBuffer, newBuffer1, newBuffer2, bufferVector, buffersToWrite, t);
      Relabel(|bufferVector|, fit);
      SwapBatch(Slots([], [], t.pending + [t.current], t.hasNext, false, t.hasNew2), fit);
    }

    /** The pointers are moved; `uses` has them already where they go. */
    method SwapBatch(ghost t: Slots, ghost fit: bool)
      requires currentBuffer != null && buffersToWrite == [] && AllLoaded(fit)
      requires Arranged(uses, newBuffer1, nextBuffer, null, newBuffer2, [], bufferVector + [currentBuffer], t)
      modifies this`currentBuffer, this`newBuffer1, this`bufferVector, this`buffersToWrite
      ensures Holds(t, fit)
    {
      bufferVector := bufferVector + [currentBuffer];
      currentBuffer, newBuffer1 := newBuffer1, null;
      buffersToWrite, bufferVector := bufferVector, buffersToWrite;
    }

    /** The second new buffer becomes the next one if there is none. */
    method RefillNext(ghost t: Slots, ghost fit: bool)
      requires Holds(t, fit) && (t.hasNext || t.hasNew2)
      modifies this`nextBuffer, this`newBuffer2, this`uses
      ensures uses.Keys == old(uses.Keys)
      ensures Holds(t.(hasNext := true, hasNew2 := t.hasNew2 && t.hasNext), fit)
    {
      if nextBuffer == null {
        ArrangedNext(uses, currentBuffer, newBuffer1, newBuffer2, bufferVector, buffersToWrite, t);
        uses := uses[newBuffer2 := Use(NEXT, [])];
        nextBuffer, newBuffer2 := newBuffer2, null;
      }
    }

    /** The object is now in state `next` of the step system. */
    ghost method Become(next: State)
      requires Holds(SlotsOf(next), next.linesFit) && PoolsMatch(next)
      requires nextToWrite == next.written && isStop == next.stopping
      modifies this`s
      ensures Valid() && s == next
    {
      s := next;
    }

    method MoveBuffers(ghost t: Slots, ghost after: Slots, ghost fit: bool)
      requires Holds(t, fit) && t.toWrite == [] && t.hasNew1 && (t.hasNext || t.hasNew2)
      requires after == Slots([], [], t.pending + [t.current], true, false, t.hasNew2 && t.hasNext)
      modifies this`currentBuffer, this`nextBuffer, this`newBuffer1, this`newBuffer2
      modifies this`bufferVector, this`buffersToWrite, this`uses, this`nextToWrite
      ensures uses.Keys == old(uses.Keys) && nextToWrite == 0
      ensures Holds(after, fit)
    {
      nextToWrite := 0;
      MoveToBatch(t, fit);
      RefillNext(Slots([], [], t.pending + [t.current], t.hasNext, false, t.hasNew2), fit);
    }

    /** The backend's critical section, after the wait. */
    method TakeBuffers()
      requires Valid() && Enabled(s, Take)
      modifies this
      ensures Valid() && uses.Keys == old(uses.Keys)
      ensures s == Next(old(s), Take)
    {
      StepKeepsPools(s, Take);
      ghost var next := Next(s, Take);
      MoveBuffers(SlotsOf(s), SlotsOf(next), s.linesFit);
      Become(next);
    }

    /** Too long a batch is cut to its first two buffers. */
    method DropBuffers()
      requires Valid() && Enabled(s, Drop)
      modifies this`buffersToWrite, this`s
      ensures Valid() && forall b :: b in buffersToWrite ==> b in uses
      ensures s == Next(old(s), Drop)
    {
      if |buffersToWrite| > 25 {
        Resize(2, SlotsOf(s), s.linesFit);
      }
      StepKeepsPools(s, Drop);
      s := Next(s, Drop);
    }

    /** One round of the writing loop: `text` is what is appended to the log file. */
    method WriteBuffer() returns (text: string)
      requires Valid() && Enabled(s, WriteOne)
      modifies this`nextToWrite, this`s
      ensures Valid()
      ensures s == Next(old(s), WriteOne)
      ensures Concat(s.disk) == Concat(old(s).disk) + text
    {
      var buffer := buffersToWrite[nextToWrite];
      assert Is(uses, buffer, InBatch(s.written), SlotsOf(s).toWrite[s.written]);
      ConcatAppend(s.disk, s.toWrite[s.written]);
      text := buffer.container[buffer.readIdx..buffer.writeIdx];
      nextToWrite := nextToWrite + 1;
      StepKeepsPools(s, WriteOne);
      s := Next(s, WriteOne);
    }

    /** The last buffer of the batch, emptied for use as a new one. */
    method PopCleared(ghost place: int, ghost fit: bool) returns (b: Buffer)
      requires AllLoaded(fit) && buffersToWrite != [] && buffersToWrite[|buffersToWrite| - 1] in uses
      modifies this`buffersToWrite, this`uses, buffersToWrite[|buffersToWrite| - 1]
      ensures b == old(buffersToWrite[|buffersToWrite| - 1])
      ensures buffersToWrite == old(buffersToWrite[..|buffersToWrite| - 1])
      ensures AllLoaded(fit) && uses == old(uses)[b := Use(place, [])]
    {
      var n := |buffersToWrite| - 1;
      b := buffersToWrite[n];
      buffersToWrite := buffersToWrite[..n];
      b.Clear();
      uses := uses[b := Use(place, [])];
    }

    method RefillNew1(ghost t: Slots, ghost fit: bool)
      requires Holds(t, fit) && newBuffer1 == null && buffersToWrite != []
      modifies this`newBuffer1, this`buffersToWrite, this`uses, buffersToWrite[|buffersToWrite| - 1]
      ensures Holds(t.(toWrite := t.toWrite[..|t.toWrite| - 1], hasNew1 := true), fit)
      ensures buffersToWrite == old(buffersToWrite)[..|old(buffersToWrite)| - 1]
    {
      ArrangedRefill(uses, currentBuffer, nextBuffer, newBuffer1, newBuffer2, bufferVector, buffersToWrite, t);
      newBuffer1 := PopCleared(NEW1, fit);
    }

    method RefillNew2(ghost t: Slots, ghost fit: bool)
      requires Holds(t, fit) && newBuffer2 == null && buffersToWrite != []
      modifies this`newBuffer2, this`buffersToWrite, this`uses, buffersToWrite[|buffersToWrite| - 1]
      ensures Holds(t.(toWrite := t.toWrite[..|t.toWrite| - 1], hasNew2 := true), fit)
      ensures buffersToWrite == old(buffersToWrite)[..|old(buffersToWrite)| - 1]
    {
      ArrangedRefill(uses, currentBuffer, nextBuffer, newBuffer1, newBuffer2, bufferVector, buffersToWrite, t);
      newBuffer2 := PopCleared(NEW2, fit);
    }

    /** Shortens `buffers_to_write`. */
    method Resize(n: nat, ghost t: Slots, ghost fit: bool)
      requires Holds(t, fit) && n <= |buffersToWrite|
      modifies this`buffersToWrite
      ensures Holds(t.(toWrite := t.toWrite[..n]), fit) && buffersToWrite == old(buffersToWrite)[..n]
    {
      ArrangedDrop(uses, currentBuffer, nextBuffer, newBuffer1, newBuffer2, bufferVector, buffersToWrite, t, n);
      buffersToWrite := buffersToWrite[..n];
    }

    /** Written buffers take the places of the new buffers that were given away. */
    method Recycle(ghost t: Slots, ghost fit: bool)
      requires Holds(t, fit) && buffersToWrite != [] && (newBuffer1 == null && newBuffer2 == null ==> |buffersToWrite| >= 2)
      modifies this`newBuffer1, this`newBuffer2, this`buffersToWrite, this`uses, buffersToWrite
      ensures Holds(t.(toWrite := [], hasNew1 := true, hasNew2 := true), fit)
    {
      ghost var u := t;
      if newBuffer1 == null {
        RefillNew1(u, fit);
        u := u.(toWrite := u.toWrite[..|u.toWrite| - 1], hasNew1 := true);
      }
      if newBuffer2 == null {
        RefillNew2(u, fit);
        u := u.(toWrite := u.toWrite[..|u.toWrite| - 1], hasNew2 := true);
      }
      Resize(0, u, fit);
    }

    /** Of a longer batch only the first two buffers are kept for this. */
    method RecycleFirstTwo(ghost t: Slots, ghost after: Slots, ghost fit: bool)
      requires after == t.(toWrite := [], hasNew1 := true, hasNew2 := true)
      requires Holds(t, fit) && buffersToWrite != [] && (newBuffer1 == null && newBuffer2 == null ==> |buffersToWrite| >= 2)
      modifies this`newBuffer1, this`newBuffer2, this`buffersToWrite, this`uses, this`nextToWrite, buffersToWrite
      ensures Holds(after, fit) && nextToWrite == 0
    {
      nextToWrite := 0;
      ghost var u := t;
      if |buffersToWrite| > 2 {
        Resize(2, t, fit);
        u := t.(toWrite := t.toWrite[..2]);
      }
      Recycle(u, fit);
    }

    method RecycleBuffers()
      requires Valid() && Enabled(s, LoggerSpec.Recycle)
      modifies this, buffersToWrite
      ensures Valid()
      ensures s == Next(old(s), LoggerSpec.Recycle)
    {
      StepKeepsPools(s, LoggerSpec.Recycle);
      ghost var next := Next(s, LoggerSpec.Recycle);
      RecycleFirstTwo(SlotsOf(s), SlotsOf(next), s.linesFit);
      Become(next);
    }
  }

  /** The file that the backend writes to holds the lines on disk. */
  ghost predicate Follows(output: LogFile, s: State)
    reads output
  {
    output.Valid() && Concat(output.Blocks()) == Concat(s.disk)
  }

  method WriteToFile(core: AsyncLoggerCore, output: LogFile)
    requires core.Valid() && Enabled(core.s, WriteOne) && Follows(output, core.s)
    modifies core`nextToWrite, core`s, output
    ensures core.Valid() && Follows(output, core.s)
    ensures core.s == Next(old(core.s), WriteOne)
  {
    var text := core.WriteBuffer();
    ConcatOne(output.Blocks(), text);
    output.Append(text);
  }

  /** The loop over the batch. */
  method WriteBatch(core: AsyncLoggerCore, output: LogFile)
    requires core.Valid() && core.s.phase.Writing? && Follows(output, core.s)
    modifies core`nextToWrite, core`s, output
    ensures core.Valid() && Follows(output, core.s)
    ensures core.s.phase.Writing? && core.s.written == |core.s.toWrite|
    ensures core.s.history == old(core.s.history)
  {
    while core.nextToWrite < |core.buffersToWrite|
      invariant core.Valid() && Follows(output, core.s)
      invariant core.s.phase.Writing? && core.s.history == old(core.s.history)
      decreases |core.buffersToWrite| - core.nextToWrite
    {
      WriteToFile(core, output);
    }
  }

  /** What the loop body does with a batch that is written. */
  method FinishBatch(core: AsyncLoggerCore, output: LogFile)
    requires core.Valid() && Enabled(core.s, LoggerSpec.Recycle) && Follows(output, core.s)
    modifies core, core.buffersToWrite, output
    ensures core.Valid() && Follows(output, core.s)
    ensures core.s == Next(old(core.s), LoggerSpec.Recycle)
  {
    core.RecycleBuffers();
    output.Flush();
  }

  /** The backend's loop body, with no producer in between: every step finds what it needs. */
  method BackendRound(core: AsyncLoggerCore, output: LogFile)
    requires core.Valid() && core.s.phase.Entered? && Follows(output, core.s)
    modifies core, output, core.uses.Keys
    ensures core.Valid() && core.s.phase.Idle? && Follows(output, core.s)
    ensures core.s.history == old(core.s.history)
  {
    core.TakeBuffers();
    core.DropBuffers();
    WriteBatch(core, output);
    FinishBatch(core, output);
  }
}
