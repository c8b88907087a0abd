/**
  The members of `white::HeapTimer` as they stand in the C++ code, without the
  repairs of HeapTimer.dfy, and exactly when each does what it is for.
 */
module HeapTimerAsWritten {
  import opened HeapOrder
  import opened Strings
  import HeapTimers

  // ---------- SwapNode ----------

  /** `SwapNode` exchanges the nodes first and then stores the position of each under the other's descriptor. */
  function SwapNodeIndex(h: Heap, index: map<int, nat>, node1: nat, node2: nat): map<int, nat>
    requires node1 < |h| && node2 < |h|
  {
    var h' := Swap(h, node1, node2);
    index[h'[node1].fd := node2][h'[node2].fd := node1]
  }

  /** The index survives exactly the exchanges that exchange nothing. */
  lemma SwapNodeIsRightIff(h: Heap, index: map<int, nat>, node1: nat, node2: nat)
    requires node1 < |h| && node2 < |h| && Agrees(h, index)
    ensures Agrees(Swap(h, node1, node2), SwapNodeIndex(h, index, node1, node2)) <==> node1 == node2
  {
    var h', index' := Swap(h, node1, node2), SwapNodeIndex(h, index, node1, node2);
    if node1 == node2 {
      assert h' == h;
      assert index' == index;
    } else {
      assert h[node1].fd != h[node2].fd;
      assert index'[h'[node1].fd] == node2;
    }
  }

  lemma SwapNodeCanBeWrong()
    ensures exists h: Heap, index :: |h| == 2 && Agrees(h, index) && !Agrees(Swap(h, 0, 1), SwapNodeIndex(h, index, 0, 1))
  {
    var h, index := [TimerNode(5, 10, 0), TimerNode(6, 20, 0)], map[5 := 0, 6 := 1];
    assert Agrees(h, index);
    SwapNodeIsRightIff(h, index, 0, 1);
  }

  // ---------- PercolateUp ----------

  /** `(index - 1) / 2` on a 64-bit `size_t`. */
  function ParentAsWritten(index: nat): nat {
    if index == 0 then 0xffff_ffff_ffff_ffff / 2 else (index - 1) / 2
  }

  /** The first comparison of `PercolateUp` stays inside the heap exactly when the position is not the root. */
  lemma PercolateUpIsDefinedIff(h: Heap, index: nat)
    requires index < |h| <= 0x7fff_ffff_ffff_ffff
    ensures ParentAsWritten(index) < |h| <==> index > 0
    ensures index > 0 ==> ParentAsWritten(index) == Parent(index)
  {
  }

  /** `PercolateUp` from a position other than the root: it stops below the root, and leaves the index alone. */
  function PercolateUp(h: Heap, index: nat): Heap
    requires 0 < index < |h|
    decreases index
  {
    var parent := Parent(index);
    if parent == 0 || h[parent].expires < h[index].expires then h
    else PercolateUp(Swap(h, parent, index), parent)
  }

  /** The order is restored exactly when the node does not belong at the root. */
  lemma {:induction false} PercolateUpRestoresOrderIff(h: Heap, index: nat)
    requires 0 < index < |h| && OrderedAround(h, index) && BelowChildren(h, index)
    ensures Ordered(PercolateUp(h, index)) <==> h[0].expires <= h[index].expires
    decreases index
  {
    var parent := Parent(index);
    CheckIsBelowChildren(h, index);
    OneDirection(h, index);
    if parent == 0 {
    } else if h[parent].expires < h[index].expires {
      RootIsEarliest(h, index);
    } else {
      SiftUpStep(h, index);
      PercolateUpRestoresOrderIff(Swap(h, parent, index), parent);
    }
  }

  lemma {:induction false} PercolateUpKeepsHigher(h: Heap, index: nat, i: nat)
    requires 0 < index < i < |h|
    ensures |PercolateUp(h, index)| == |h| && PercolateUp(h, index)[i] == h[i]
    decreases index
  {
    var parent := Parent(index);
    if parent != 0 && h[parent].expires >= h[index].expires {
      PercolateUpKeepsHigher(Swap(h, parent, index), parent, i);
    }
  }

  predicate StaysInPlace(h: Heap, index: nat)
    requires 0 < index < |h|
  {
    Parent(index) == 0 || h[Parent(index)].expires < h[index].expires
  }

  /** The index still agrees exactly when nothing was moved. */
  lemma PercolateUpKeepsIndexIff(h: Heap, map_: map<int, nat>, index: nat)
    requires 0 < index < |h| && Agrees(h, map_)
    ensures Agrees(PercolateUp(h, index), map_) <==> StaysInPlace(h, index)
  {
    if !StaysInPlace(h, index) {
      var parent := Parent(index);
      PercolateUpKeepsHigher(Swap(h, parent, index), parent, index);
      assert PercolateUp(h, index)[index] == h[parent];
      assert map_[h[parent].fd] == parent;
    }
  }

  // ---------- PercolateDown ----------

  /** `heap_` and `fd_heap_map_`. */
  datatype Timer = Timer(heap: Heap, index: map<int, nat>)

  predicate Distinct(h: Heap) {
    forall i, j :: 0 <= i < j < |h| ==> h[i].fd != h[j].fd
  }

  lemma AgreeingIsDistinct(t: Timer)
    requires Agrees(t.heap, t.index)
    ensures Distinct(t.heap)
  {
  }

  function SmallerOf(h: Heap, left: nat): (child: nat)
    requires left < |h|
    ensures child < |h| && (child == left || child == left + 1)
  {
    if left + 1 < |h| && h[left].expires > h[left + 1].expires then left + 1 else left
  }

  predicate StopsAt(h: Heap, k: nat)
    requires k < |h|
  {
    2 * k + 1 >= |h| || h[SmallerOf(h, 2 * k + 1)].expires > h[k].expires
  }

  function Exchanged(t: Timer, i: nat, j: nat): Timer
    requires i < |t.heap| && j < |t.heap|
  {
    Timer(Swap(t.heap, i, j), SwapNodeIndex(t.heap, t.index, i, j))
  }

  /** `PercolateDown`, with `SwapNode` as it is. */
  function PercolateDown(t: Timer, k: nat): (t': Timer)
    requires k < |t.heap|
    ensures |t'.heap| == |t.heap|
    decreases |t.heap| - k
  {
    if StopsAt(t.heap, k) then t
    else
      var c := SmallerOf(t.heap, 2 * k + 1);
      PercolateDown(Exchanged(t, c, k), c)
  }

  lemma SwapIsDistinct(h: Heap, i: nat, j: nat)
    requires Distinct(h) && i < |h| && j < |h|
    ensures Distinct(Swap(h, i, j))
  {
  }

  /** Sifting down leaves what is above its start alone, and the stored positions of the nodes there. */
  lemma {:induction false} PercolateDownKeepsLower(t: Timer, k: nat, i: nat)
    requires i < k < |t.heap| && Distinct(t.heap) && t.heap[i].fd in t.index
    ensures var t' := PercolateDown(t, k);
            && t'.heap[i] == t.heap[i]
            && t.heap[i].fd in t'.index && t'.index[t.heap[i].fd] == t.index[t.heap[i].fd]
    decreases |t.heap| - k
  {
    if !StopsAt(t.heap, k) {
      var c := SmallerOf(t.heap, 2 * k + 1);
      SwapIsDistinct(t.heap, c, k);
      PercolateDownKeepsLower(Exchanged(t, c, k), c, i);
    }
  }

  /** Whatever the index was before: once a node has been moved down, it is wrong. */
  lemma PercolateDownBreaksIndex(t: Timer, k: nat)
    requires k < |t.heap| && Distinct(t.heap) && !StopsAt(t.heap, k)
    ensures !Agrees(PercolateDown(t, k).heap, PercolateDown(t, k).index)
  {
    var c := SmallerOf(t.heap, 2 * k + 1);
    var t1 := Exchanged(t, c, k);
    SwapIsDistinct(t.heap, c, k);
    assert t1.index[t1.heap[k].fd] == c;
    PercolateDownKeepsLower(t1, c, k);
  }

  /** The index agrees after sifting down exactly if it did before and nothing is exchanged. */
  lemma PercolateDownKeepsIndexIff(t: Timer, k: nat)
    requires k < |t.heap| && Agrees(t.heap, t.index)
    ensures var t' := PercolateDown(t, k);
            Agrees(t'.heap, t'.index) <==> StopsAt(t.heap, k)
  {
    AgreeingIsDistinct(t);
    if !StopsAt(t.heap, k) {
      PercolateDownBreaksIndex(t, k);
    }
  }

  // ---------- Whole members ----------

  // `None` stands for a member that reads outside the heap, which is undefined in C++.

  const MAX_SIZE := 0x7fff_ffff_ffff_ffff

  /** `Check_up_or_down`, also at a position behind the heap, where it finds no child. */
  predicate Check(h: Heap, k: nat) {
    k >= |h| || CheckUp(h, k)
  }

  /** `PercolateUp`, from any position: it looks at no node if the first parent is the root. */
  function SiftUp(t: Timer, k: nat): Option<Timer> {
    var parent := ParentAsWritten(k);
    if parent == 0 then Some(t)
    else if parent >= |t.heap| || k >= |t.heap| || k == 0 then None
    else Some(t.(heap := PercolateUp(t.heap, k)))
  }

  /** The sift that `Check_up_or_down` picks. */
  function Sift(t: Timer, k: nat): Option<Timer> {
    if Check(t.heap, k) then SiftUp(t, k) else Some(PercolateDown(t, k))
  }

  function ChangeAt(t: Timer, k: nat, node: TimerNode): Option<Timer> {
    if k >= |t.heap| then None else Sift(t.(heap := t.heap[k := node]), k)
  }

  /** `AddTimer`. */
  function AddTimer(t: Timer, node: TimerNode): Option<Timer> {
    if node.fd in t.index then ChangeAt(t, t.index[node.fd], node)
    else SiftUp(Timer(t.heap + [node], t.index[node.fd := |t.heap|]), |t.heap|)
  }

  /** `AdjustTimer`: looking up a descriptor that is not there inserts position 0 for it. */
  function AdjustTimer(t: Timer, fd: int, expires: int): Option<Timer> {
    var index := if fd in t.index then t.index else t.index[fd := 0];
    var k := index[fd];
    if k >= |t.heap| then None
    else ChangeAt(t.(index := index), k, t.heap[k].(expires := expires))
  }

  /** `DeleteNode` up to its sift. */
  function Dropped(t: Timer, k: nat): (t': Timer)
    requires k < |t.heap|
    ensures |t'.heap| == |t.heap| - 1
  {
    var last := |t.heap| - 1;
    var t1 := Exchanged(t, k, last);
    Timer(t1.heap[..last], t1.index - {t1.heap[last].fd})
  }

  /** `DeleteNode`. */
  function DeleteNode(t: Timer, k: nat): Option<Timer>
    requires k < |t.heap|
  {
    Sift(Dropped(t, k), k)
  }

  /** `DoRightNow`; `CalledNow` is the timer whose callback it calls first. */
  function DoRightNow(t: Timer, fd: int): Option<Timer> {
    if fd !in t.index then Some(t)
    else if t.index[fd] >= |t.heap| then None
    else DeleteNode(t, t.index[fd])
  }

  function CalledNow(t: Timer, fd: int): seq<TimerNode> {
    if fd !in t.index || t.index[fd] >= |t.heap| then [] else [t.heap[t.index[fd]]]
  }

  /** `Tick`: `clock(i)` is the reading in round `i`; `CalledByTick` are the timers whose callbacks are called. */
  function Tick(t: Timer, clock: nat -> int, i: nat): Option<Timer>
    decreases |t.heap|
  {
    if t.heap == [] || HeapTimers.InMs(t.heap[0].expires - clock(i)) > 0 then Some(t)
    else
      match DeleteNode(t, 0)
      case None => None
      case Some(t') => SizeAfterDelete(t, 0); Tick(t', clock, i + 1)
  }

  function CalledByTick(t: Timer, clock: nat -> int, i: nat): seq<TimerNode>
    decreases |t.heap|
  {
    if t.heap == [] || HeapTimers.InMs(t.heap[0].expires - clock(i)) > 0 then []
    else
      match DeleteNode(t, 0)
      case None => [t.heap[0]]
      case Some(t') => SizeAfterDelete(t, 0); [t.heap[0]] + CalledByTick(t', clock, i + 1)
  }

  lemma {:induction false} PercolateUpKeepsSize(h: Heap, k: nat)
    requires 0 < k < |h|
    ensures |PercolateUp(h, k)| == |h|
    decreases k
  {
    var parent := Parent(k);
    if parent != 0 && h[parent].expires >= h[k].expires {
      PercolateUpKeepsSize(Swap(h, parent, k), parent);
    }
  }

  lemma SizeAfterDelete(t: Timer, k: nat)
    requires k < |t.heap|
    ensures var o := DeleteNode(t, k); o.Some? ==> |o.value.heap| == |t.heap| - 1
  {
    var h := Dropped(t, k).heap;
    if 0 < k < |h| {
      PercolateUpKeepsSize(h, k);
    }
  }

  /** The outcome is a timer whose heap is ordered, whose index agrees, and that holds just `timers`. */
  predicate Right(o: Option<Timer>, timers: Timers) {
    && o.Some?
    && Ordered(o.value.heap) && Agrees(o.value.heap, o.value.index)
    && TimersOf(o.value.heap, o.value.index) == timers
  }

  // ---------- When they are right ----------

  /** The node fits at position `k` as it is: not at the root, behind its parent, and not behind a child. */
  predicate FitsAt(h: Heap, k: nat, expires: int)
    requires k < |h|
  {
    && k > 0
    && (h[Parent(k)].expires < expires || (Parent(k) == 0 && h[0].expires == expires))
    && (2 * k + 1 < |h| ==> expires <= h[2 * k + 1].expires)
    && (2 * k + 2 < |h| ==> expires <= h[2 * k + 2].expires)
  }

  lemma ChangeAtIsRightIff(t: Timer, k: nat, node: TimerNode)
    requires Ordered(t.heap) && Agrees(t.heap, t.index) && |t.heap| <= MAX_SIZE
    requires k < |t.heap| && node.fd == t.heap[k].fd
    ensures Right(ChangeAt(t, k, node), TimersOf(t.heap, t.index)[node.fd := (node.expires, node.cb)])
            <==> FitsAt(t.heap, k, node.expires)
  {
    var h := t.heap[k := node];
    ChangedKey(t.heap, k, node);
    ChangedTimer(t.heap, t.index, k, node);
    CheckIsBelowChildren(h, k);
    if !CheckUp(h, k) {
      PercolateDownKeepsIndexIff(t.(heap := h), k);
    } else if k > 0 {
      PercolateUpKeepsIndexIff(h, t.index, k);
      PercolateUpRestoresOrderIff(h, k);
      RootIsEarliest(t.heap, Parent(k));
      if StaysInPlace(h, k) {
        assert PercolateUp(h, k) == h;
      }
    }
  }

  /** `AddTimer`: right exactly if the node belongs where it is put, and that is not the root. */
  lemma AddTimerIsRightIff(t: Timer, node: TimerNode)
    requires Ordered(t.heap) && Agrees(t.heap, t.index) && |t.heap| < MAX_SIZE
    ensures Right(AddTimer(t, node), TimersOf(t.heap, t.index)[node.fd := (node.expires, node.cb)])
            <==> if node.fd in t.index then FitsAt(t.heap, t.index[node.fd], node.expires)
                 else FitsAt(t.heap + [node], |t.heap|, node.expires)
  {
    if node.fd in t.index {
      ChangeAtIsRightIff(t, t.index[node.fd], node);
    } else {
      var h, n := t.heap + [node], |t.heap|;
      AppendedNode(t.heap, node);
      AddedTimer(t.heap, t.index, node);
      if n > 0 {
        PercolateUpKeepsIndexIff(h, t.index[node.fd := n], n);
        PercolateUpRestoresOrderIff(h, n);
        RootIsEarliest(t.heap, Parent(n));
        if StaysInPlace(h, n) {
          assert PercolateUp(h, n) == h;
        }
      }
    }
  }

  /** `timers` with a new deadline for `fd`; if there is no such timer, there is nothing to adjust. */
  function Adjusted(timers: Timers, fd: int, expires: int): Timers {
    if fd in timers then timers[fd := (expires, timers[fd].1)] else timers
  }

  /** `AdjustTimer`: right exactly if the descriptor has a timer, not at the root, that need not move. */
  lemma AdjustTimerIsRightIff(t: Timer, fd: int, expires: int)
    requires Ordered(t.heap) && Agrees(t.heap, t.index) && |t.heap| <= MAX_SIZE
    ensures Right(AdjustTimer(t, fd, expires), Adjusted(TimersOf(t.heap, t.index), fd, expires))
            <==> fd in t.index && FitsAt(t.heap, t.index[fd], expires)
  {
    if fd in t.index {
      var k := t.index[fd];
      ChangeAtIsRightIff(t, k, t.heap[k].(expires := expires));
    } else if t.heap != [] {
      var h := t.heap[0 := t.heap[0].(expires := expires)];
      AgreeingIsDistinct(t);
      assert Distinct(h);
      SiftAtRootIsWrong(Timer(h, t.index[fd := 0]));
    }
  }

  /** From the root, the sift reads outside the heap or leaves a wrong index. */
  lemma SiftAtRootIsWrong(t: Timer)
    requires Distinct(t.heap) && |t.heap| <= MAX_SIZE
    ensures var o := Sift(t, 0); o.None? || !Agrees(o.value.heap, o.value.index)
  {
    if !Check(t.heap, 0) {
      PercolateDownBreaksIndex(t, 0);
    }
  }

  /** The last node takes the place of the deleted one, but is recorded where it was. */
  lemma DroppedIsMisplaced(t: Timer, k: nat)
    requires k < |t.heap| - 1 && Distinct(t.heap)
    ensures var t' := Dropped(t, k);
            Distinct(t'.heap) && t'.heap[k].fd in t'.index && t'.index[t'.heap[k].fd] == |t'.heap|
  {
    var last := |t.heap| - 1;
    var t1 := Exchanged(t, k, last);
    SwapIsDistinct(t.heap, k, last);
    assert t1.heap[k] == t.heap[last] && t1.heap[last] == t.heap[k];
    assert t1.index[t1.heap[k].fd] == last;
  }

  /** A position outside the heap is not repaired by the sift. */
  lemma MisplacedStaysWrong(t: Timer, k: nat)
    requires k < |t.heap| <= MAX_SIZE && Distinct(t.heap)
    requires t.heap[k].fd in t.index && t.index[t.heap[k].fd] == |t.heap|
    ensures var o := Sift(t, k); o.None? || !Agrees(o.value.heap, o.value.index)
  {
    if !Check(t.heap, k) {
      PercolateDownBreaksIndex(t, k);
    } else if k > 0 {
      PercolateUpKeepsSize(t.heap, k);
    }
  }

  /** Deleting any node but the last one, with any index. */
  lemma DeleteInsideIsWrong(t: Timer, k: nat)
    requires k < |t.heap| - 1 && Distinct(t.heap) && |t.heap| <= MAX_SIZE
    ensures var o := DeleteNode(t, k); o.None? || !Agrees(o.value.heap, o.value.index)
  {
    DroppedIsMisplaced(t, k);
    MisplacedStaysWrong(Dropped(t, k), k);
  }

  /** `DeleteNode`: right exactly for the last of two or three nodes. */
  lemma DeleteNodeIsRightIff(t: Timer, k: nat)
    requires Ordered(t.heap) && Agrees(t.heap, t.index) && k < |t.heap| <= MAX_SIZE
    ensures Right(DeleteNode(t, k), TimersOf(t.heap, t.index) - {t.heap[k].fd})
            <==> k == |t.heap| - 1 && (|t.heap| == 2 || |t.heap| == 3)
  {
    var last := |t.heap| - 1;
    AgreeingIsDistinct(t);
    if k == last {
      assert Exchanged(t, k, last) == t;
      DropLastTimer(t.heap, t.index);
      DroppedLast(t.heap);
    } else {
      DeleteInsideIsWrong(t, k);
    }
  }

  /**
    `DoRightNow`: right exactly if there is no such timer, or it is the last of two or
    three.  The callback is always the right one.
   */
  lemma DoRightNowIsRightIff(t: Timer, fd: int)
    requires Ordered(t.heap) && Agrees(t.heap, t.index) && |t.heap| <= MAX_SIZE
    ensures var timers := TimersOf(t.heap, t.index);
            CalledNow(t, fd) == if fd in timers then [TimerNode(fd, timers[fd].0, timers[fd].1)] else []
    ensures Right(DoRightNow(t, fd), TimersOf(t.heap, t.index) - {fd})
            <==> fd in t.index ==> t.index[fd] == |t.heap| - 1 && (|t.heap| == 2 || |t.heap| == 3)
  {
    if fd in t.index {
      DeleteNodeIsRightIff(t, t.index[fd]);
    } else {
      assert TimersOf(t.heap, t.index) - {fd} == TimersOf(t.heap, t.index);
    }
  }

  // ---------- Tick ----------

  lemma {:induction false} PercolateDownIsDistinct(t: Timer, k: nat)
    requires k < |t.heap| && Distinct(t.heap)
    ensures Distinct(PercolateDown(t, k).heap)
    decreases |t.heap| - k
  {
    if !StopsAt(t.heap, k) {
      var c := SmallerOf(t.heap, 2 * k + 1);
      SwapIsDistinct(t.heap, c, k);
      PercolateDownIsDistinct(Exchanged(t, c, k), c);
    }
  }

  /** Deleting the root is never right, whatever came before, and keeps the descriptors distinct. */
  lemma DeleteRootIsWrong(t: Timer)
    requires t.heap != [] && Distinct(t.heap) && |t.heap| <= MAX_SIZE
    ensures var o := DeleteNode(t, 0);
            o.None? || (!Agrees(o.value.heap, o.value.index) && Distinct(o.value.heap))
  {
    if |t.heap| > 1 {
      var t' := Dropped(t, 0);
      DroppedIsMisplaced(t, 0);
      MisplacedStaysWrong(t', 0);
      if !Check(t'.heap, 0) {
        PercolateDownIsDistinct(t', 0);
      }
    }
  }

  /** Once the index is wrong, the rest of the rounds does not repair it. */
  lemma {:induction false} TickStaysWrong(t: Timer, clock: nat -> int, i: nat)
    requires Distinct(t.heap) && |t.heap| <= MAX_SIZE && !Agrees(t.heap, t.index)
    ensures var o := Tick(t, clock, i); o.None? || !Agrees(o.value.heap, o.value.index)
    decreases |t.heap|
  {
    if t.heap != [] && HeapTimers.InMs(t.heap[0].expires - clock(i)) <= 0 {
      DeleteRootIsWrong(t);
      SizeAfterDelete(t, 0);
      var o := DeleteNode(t, 0);
      if o.Some? {
        TickStaysWrong(o.value, clock, i + 1);
      }
    }
  }

  /** The outcome is right, whatever timers are expected of it. */
  ghost predicate RightForSome(o: Option<Timer>) {
    exists timers :: Right(o, timers)
  }

  lemma IsRightForSome(o: Option<Timer>, timers: Timers)
    requires Right(o, timers)
    ensures RightForSome(o)
  {
  }

  lemma NothingDueIsRight(t: Timer, clock: nat -> int, i: nat)
    requires Ordered(t.heap) && Agrees(t.heap, t.index)
    requires t.heap == [] || HeapTimers.InMs(t.heap[0].expires - clock(i)) > 0
    ensures Right(Tick(t, clock, i), TimersOf(t.heap, t.index))
  {
  }

  /**
    `Tick`: right, for any result, exactly if no timer is due at the first look.  If
    one is, the earliest is called first.
   */
  lemma TickIsRightIff(t: Timer, clock: nat -> int, i: nat)
    requires Ordered(t.heap) && Agrees(t.heap, t.index) && |t.heap| <= MAX_SIZE
    ensures RightForSome(Tick(t, clock, i))
            <==> t.heap == [] || HeapTimers.InMs(t.heap[0].expires - clock(i)) > 0
    ensures var called := CalledByTick(t, clock, i);
            if t.heap == [] || HeapTimers.InMs(t.heap[0].expires - clock(i)) > 0 then called == []
            else called != [] && forall fd :: fd in t.index ==> called[0].expires <= TimersOf(t.heap, t.index)[fd].0
  {
    if t.heap == [] || HeapTimers.InMs(t.heap[0].expires - clock(i)) > 0 {
      NothingDueIsRight(t, clock, i);
      IsRightForSome(Tick(t, clock, i), TimersOf(t.heap, t.index));
    } else {
      AgreeingIsDistinct(t);
      DeleteRootIsWrong(t);
      SizeAfterDelete(t, 0);
      FirstIsEarliest(t);
      var o := DeleteNode(t, 0);
      if o.Some? {
        TickStaysWrong(o.value, clock, i + 1);
      }
    }
  }

  lemma FirstIsEarliest(t: Timer)
    requires t.heap != [] && Ordered(t.heap) && Agrees(t.heap, t.index)
    ensures forall fd :: fd in t.index ==> t.heap[0].expires <= TimersOf(t.heap, t.index)[fd].0
  {
    forall fd | fd in t.index ensures t.heap[0].expires <= TimersOf(t.heap, t.index)[fd].0 {
      RootIsEarliest(t.heap, t.index[fd]);
    }
  }

  // ---------- Inputs on which they are wrong ----------

  lemma AddTimerCanBeWrong()
    ensures !Ordered(PercolateUp([TimerNode(5, 20, 0), TimerNode(6, 10, 0)], 1))
  {
    var h := [TimerNode(5, 20, 0), TimerNode(6, 10, 0)];
    assert !OrderedAt(PercolateUp(h, 1), 1);
  }

  // ---------- What a run gets to ----------

  datatype Call = Add(node: TimerNode) | Adjust(fd: int, expires: int) | Now(fd: int) | Ticks(clock: nat -> int) | Clear

  function Do(t: Timer, c: Call): Option<Timer> {
    match c
    case Add(node) => AddTimer(t, node)
    case Adjust(fd, expires) => AdjustTimer(t, fd, expires)
    case Now(fd) => DoRightNow(t, fd)
    case Ticks(clock) => Tick(t, clock, 0)
    case Clear => Some(Timer([], map[]))
  }

  /** The members called one after the other, as long as they are defined. */
  function DoAll(t: Timer, calls: seq<Call>): Option<Timer>
    decreases |calls|
  {
    if calls == [] then Some(t)
    else
      match Do(t, calls[0])
      case None => None
      case Some(t') => DoAll(t', calls[1..])
  }

  /** From a timer with nothing in it, no defined run gets to one with something in it. */
  lemma {:induction false} DefinedRunsAreEmpty(calls: seq<Call>)
    ensures var o := DoAll(Timer([], map[]), calls); o.None? || o == Some(Timer([], map[]))
    decreases |calls|
  {
    if calls != [] {
      FirstAddIsUndefined(Timer([], map[]));
      if Do(Timer([], map[]), calls[0]) == Some(Timer([], map[])) {
        DefinedRunsAreEmpty(calls[1..]);
      }
    }
  }

  /** The first timer of all reads outside the heap, whatever it is. */
  lemma FirstAddIsUndefined(t: Timer)
    requires t == Timer([], map[])
    ensures forall node :: AddTimer(t, node) == None
    ensures forall fd, expires :: AdjustTimer(t, fd, expires) == None
  {
  }

  /** One timer that is present, and a later deadline for it. */
  lemma AdjustTimerCanBeWrong()
    ensures AdjustTimer(Timer([TimerNode(5, 20, 0)], map[5 := 0]), 5, 30) == None
  {
  }

  lemma DeleteNodeCanBeWrong()
    ensures DeleteNode(Timer([TimerNode(5, 20, 0)], map[5 := 0]), 0) == None
  {
  }
}
