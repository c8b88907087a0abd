/**
  `white::HeapTimer`, repaired.  The class does what the C++ code evidently means
  to do; HeapTimerAsWritten.dfy says where the code departs from it.
 */
module HeapTimers {
  import opened HeapOrder

  /** Clock readings are in nanoseconds, as those of `high_resolution_clock`. */
  const MS := 1_000_000

  class Clock {
    var now: int

    constructor ()
    {
      now := 0;
    }

    /** Any later time, or the same. */
    method Now() returns (t: int)
      modifies this
      ensures old(now) <= now == t
    {
      t :| t >= now;
      now := t;
    }
  }

  /** `duration_cast<milliseconds>(d).count()`: truncation towards zero. */
  function InMs(d: int): int {
    if d >= 0 then d / MS else -(-d / MS)
  }

  function Value(n: TimerNode): (int, nat) {
    (n.expires, n.cb)
  }

  /** Removing the timers of `fired` one by one from `before` leaves `after`. */
  predicate Removes(before: Timers, fired: seq<TimerNode>, after: Timers) {
    if fired == [] then before == after
    else
      && fired[0].fd in before && before[fired[0].fd] == Value(fired[0])
      && Removes(before - {fired[0].fd}, fired[1..], after)
  }

  lemma {:induction false} RemovesOneMore(before: Timers, fired: seq<TimerNode>, after: Timers, n: TimerNode)
    requires Removes(before, fired, after) && n.fd in after && after[n.fd] == Value(n)
    ensures Removes(before, fired + [n], after - {n.fd})
    decreases |fired|
  {
    if fired == [] {
      assert ([] + [n])[1..] == [];
    } else {
      assert (fired + [n])[1..] == fired[1..] + [n];
      RemovesOneMore(before - {fired[0].fd}, fired[1..], after, n);
    }
  }

  class HeapTimer {
    var heap: Heap
    var fdHeapMap: map<int, nat>
    /** The callbacks that have been called, in order. */
    ghost var called: seq<TimerNode>

    ghost predicate Valid()
      reads this
    {
      // Bound to variables so that the verifier takes each as one fact.
      var ordered := Ordered(heap);
      var agrees := Agrees(heap, fdHeapMap);
      ordered && agrees
    }

    /** The order is disturbed around one position only, and the timers are still `timers`. */
    ghost predicate Sifting(index: nat, timers: Timers)
      reads this
    {
      // Bound to variables so that the verifier takes each as one fact.
      var agrees := Agrees(heap, fdHeapMap);
      var around := OrderedAround(heap, index);
      agrees && around && index < |heap| && Live() == timers
    }

    ghost function Live(): Timers
      requires Agrees(heap, fdHeapMap)
      reads this
    {
      TimersOf(heap, fdHeapMap)
    }

    constructor ()
      ensures Valid() && Live() == map[] && called == []
    {
      heap, fdHeapMap, called := [], map[], [];
    }

    method Clear()
      modifies this`heap, this`fdHeapMap
      ensures Valid() && Live() == map[]
    {
      heap, fdHeapMap := [], map[];
    }

    /** Repair: each descriptor is given the position its node now has, not the other one. */
    method SwapNode(node1: nat, node2: nat)
      requires Agrees(heap, fdHeapMap) && node1 < |heap| && node2 < |heap|
      modifies this`heap, this`fdHeapMap
      ensures heap == Swap(old(heap), node1, node2)
      ensures Agrees(heap, fdHeapMap) && Live() == old(Live())
    {
      SwapKeepsTimers(heap, fdHeapMap, node1, node2);
      heap := heap[node1 := heap[node2]][node2 := heap[node1]];
      fdHeapMap := fdHeapMap[heap[node1].fd := node1];
      fdHeapMap := fdHeapMap[heap[node2].fd := node2];
    }

    /**
      Repairs: nodes are exchanged with `SwapNode`, the root is compared with as
      well, and at position 0 there is nothing to do.
     */
    method PercolateUp(position: nat)
      requires Agrees(heap, fdHeapMap) && position < |heap|
      requires OrderedAround(heap, position) && BelowChildren(heap, position)
      modifies this`heap, this`fdHeapMap
      ensures Valid() && Live() == old(Live()) && |heap| == old(|heap|)
    {
      var index: nat := position;
      while index > 0
        invariant Sifting(index, old(Live())) && BelowChildren(heap, index) && |heap| == old(|heap|)
      {
        var parent := Parent(index);
        if heap[parent].expires < heap[index].expires {
          break;
        }
        SiftUpStep(heap, index);
        SwapNode(parent, index);
        index := parent;
      }
      CheckIsBelowChildren(heap, index);
      OneDirection(heap, index);
    }

    /** Exchanges a node with the smaller of its children. */
    method SwapDown(index: nat, child: nat)
      requires Agrees(heap, fdHeapMap) && OrderedAround(heap, index)
      requires index < |heap| && AboveParent(heap, index)
      requires child < |heap| && (child == 2 * index + 1 || child == 2 * index + 2)
      requires heap[child].expires <= heap[2 * index + 1].expires
      requires 2 * index + 2 < |heap| ==> heap[child].expires <= heap[2 * index + 2].expires
      requires heap[child].expires <= heap[index].expires
      modifies this`heap, this`fdHeapMap
      ensures Agrees(heap, fdHeapMap) && Live() == old(Live()) && |heap| == old(|heap|)
      ensures OrderedAround(heap, child) && AboveParent(heap, child)
    {
      SmallerChild(heap, index, child);
      SiftDownStep(heap, index, child);
      SwapNode(child, index);
    }

    /** A left child, or its right sibling if that is smaller. */
    method SmallerOf(left: nat) returns (child: nat)
      requires left < |heap|
      ensures child < |heap| && (child == left || child == left + 1)
      ensures heap[child].expires <= heap[left].expires
      ensures left + 1 < |heap| ==> heap[child].expires <= heap[left + 1].expires
    {
      child := left;
      if child + 1 < |heap| && heap[child].expires > heap[child + 1].expires {
        child := child + 1;
      }
    }

    method PercolateDown(position: nat)
      requires Agrees(heap, fdHeapMap) && position < |heap|
      requires OrderedAround(heap, position) && AboveParent(heap, position)
      modifies this`heap, this`fdHeapMap
      ensures Valid() && Live() == old(Live()) && |heap| == old(|heap|)
    {
      var index: nat := position;
      var child := 2 * index + 1;
      var n := |heap|;
      while child < n
        invariant Sifting(index, old(Live())) && AboveParent(heap, index)
        invariant |heap| == n && child == 2 * index + 1
      {
        child := SmallerOf(child);
        if heap[child].expires > heap[index].expires {
          SiftDownStops(heap, index, child);
          return;
        }
        SwapDown(index, child);
        index := child;
        child := 2 * index + 1;
      }
      SiftDownStops(heap, index, child);
    }

    /** `Check_up_or_down`: true if sifting up is the direction. */
    predicate CheckUpOrDown(index: nat)
      requires index < |heap|
      reads this
    {
      CheckUp(heap, index)
    }

    /** Restores the order around one position in the one direction that `CheckUpOrDown` picks. */
    method Percolate(index: nat)
      requires Agrees(heap, fdHeapMap) && index < |heap| && OrderedAround(heap, index)
      modifies this`heap, this`fdHeapMap
      ensures Valid() && Live() == old(Live()) && |heap| == old(|heap|)
    {
      OneDirection(heap, index);
      CheckIsBelowChildren(heap, index);
      if CheckUpOrDown(index) {
        PercolateUp(index);
      } else {
        PercolateDown(index);
      }
    }

    /** Gives a timer a new deadline or callback. */
    method ChangeNode(index: nat, node: TimerNode)
      requires Valid() && index < |heap| && node.fd == heap[index].fd
      modifies this`heap, this`fdHeapMap
      ensures Valid() && Live() == old(Live())[node.fd := Value(node)]
    {
      ChangedKey(heap, index, node);
      ChangedTimer(heap, fdHeapMap, index, node);
      heap := heap[index := node];
      Percolate(index);
    }

    method AddTimer(fd: int, timeout: int, cb: nat, clock: Clock)
      requires Valid()
      modifies this`heap, this`fdHeapMap, clock
      ensures Valid() && old(clock.now) <= clock.now
      ensures Live() == old(Live())[fd := (clock.now + timeout * MS, cb)]
    {
      var now := clock.Now();
      var node := TimerNode(fd, now + timeout * MS, cb);
      if fd in fdHeapMap {
        var index := fdHeapMap[fd];
        ChangeNode(index, node);
      } else {
        var index := |heap|;
        AppendedNode(heap, node);
        AddedTimer(heap, fdHeapMap, node);
        fdHeapMap := fdHeapMap[fd := index];
        heap := heap + [node];
        PercolateUp(index);
      }
    }

    /** The code takes it for granted that `fd` has a timer. */
    method AdjustTimer(fd: int, timeout: int, clock: Clock)
      requires Valid() && fd in Live()
      modifies this`heap, this`fdHeapMap, clock
      ensures Valid() && old(clock.now) <= clock.now
      ensures Live() == old(Live())[fd := (clock.now + timeout * MS, old(Live())[fd].1)]
    {
      var now := clock.Now();
      var index := fdHeapMap[fd];
      var node := heap[index].(expires := now + timeout * MS);
      ChangeNode(index, node);
    }

    /** Repair: when the node was the last one, its position is gone and needs no sifting. */
    method DeleteNode(index: nat)
      requires Valid() && index < |heap|
      modifies this`heap, this`fdHeapMap
      ensures Valid() && |heap| == old(|heap|) - 1
      ensures Live() == old(Live()) - {old(heap)[index].fd}
    {
      RemovedNode(heap, index);
      SwapNode(index, |heap| - 1);
      DropLastTimer(heap, fdHeapMap);
      fdHeapMap := fdHeapMap - {heap[|heap| - 1].fd};
      heap := heap[..|heap| - 1];
      if index < |heap| {
        Percolate(index);
      }
    }

    method DoRightNow(fd: int)
      requires Valid()
      modifies this
      ensures Valid() && Live() == old(Live()) - {fd}
      ensures if fd in old(Live()) then
                called == old(called) + [TimerNode(fd, old(Live())[fd].0, old(Live())[fd].1)]
              else called == old(called) && heap == old(heap)
    {
      if fd !in fdHeapMap {
        return;
      }
      CallAndDelete(fdHeapMap[fd]);
    }

    /** Calls a timer's callback and removes the timer. */
    method CallAndDelete(index: nat)
      requires Valid() && index < |heap|
      modifies this
      ensures Valid() && |heap| == old(|heap|) - 1
      ensures Live() == old(Live()) - {old(heap)[index].fd}
      ensures called == old(called) + [old(heap)[index]]
    {
      called := called + [heap[index]];
      DeleteNode(index);
    }

    /**
      Calls and removes every timer that is due: `at[i]` is the clock reading that let
      the callback of `fired[i]` be called, `stop` the one that ended the loop; with
      no timer left there is none, and `stop` is the last one.
     */
    method Tick(clock: Clock) returns (ghost fired: seq<TimerNode>, ghost at: seq<int>, ghost stop: int)
      requires Valid()
      modifies this, clock
      ensures Valid() && called == old(called) + fired
      ensures Removes(old(Live()), fired, Live())
      ensures forall i, j :: 0 <= i < j < |fired| ==> fired[i].expires <= fired[j].expires
      ensures |at| == |fired| && old(clock.now) <= stop == clock.now
      ensures forall i, j :: 0 <= i < j < |at| ==> at[i] <= at[j]
      ensures forall i :: 0 <= i < |at| ==> old(clock.now) <= at[i] <= stop && fired[i].expires < at[i] + MS
      ensures forall fd :: fd in Live() ==> Live()[fd].0 >= stop + MS
      ensures forall i, fd :: 0 <= i < |fired| && fd in Live() ==> fired[i].expires <= Live()[fd].0
    {
      fired, at, stop := [], [], clock.now;
      if |heap| == 0 {
        return;
      }
      while |heap| != 0
        invariant Valid() && called == old(called) + fired
        invariant Removes(old(Live()), fired, Live())
        invariant |at| == |fired| && old(clock.now) <= stop == clock.now
        invariant forall i, j :: 0 <= i < j < |at| ==> at[i] <= at[j]
        invariant forall i :: 0 <= i < |at| ==> old(clock.now) <= at[i] <= stop && fired[i].expires < at[i] + MS
        invariant forall i, j :: 0 <= i < j < |fired| ==> fired[i].expires <= fired[j].expires
        invariant forall i, fd :: 0 <= i < |fired| && fd in Live() ==> fired[i].expires <= Live()[fd].0
        decreases |heap|
      {
        var now := clock.Now();
        stop := now;
        FrontIsEarliest();
        if InMs(heap[0].expires - now) > 0 {
          break;
        }
        var node := heap[0];
        RemovesOneMore(old(Live()), fired, Live(), node);
        fired, at := fired + [node], at + [now];
        CallAndDelete(0);
      }
    }

    lemma FrontIsEarliest()
      requires Valid() && heap != []
      ensures heap[0].fd in Live() && Live()[heap[0].fd] == Value(heap[0])
      ensures forall fd :: fd in Live() ==> heap[0].expires <= Live()[fd].0
    {
      forall fd | fd in Live() ensures heap[0].expires <= Live()[fd].0 {
        RootIsEarliest(heap, fdHeapMap[fd]);
      }
    }

    /** Milliseconds until the earliest deadline, rounded down; -1 if there is none. */
    method NextTickTime(clock: Clock) returns (ret: int, ghost fired: seq<TimerNode>)
      requires Valid()
      modifies this, clock
      ensures Valid() && called == old(called) + fired && Removes(old(Live()), fired, Live())
      ensures old(clock.now) <= clock.now
      ensures ret == -1 <==> Live() == map[]
      ensures ret == -1 || ret >= 0
      ensures ret > 0 ==> forall fd :: fd in Live() ==> clock.now + ret * MS <= Live()[fd].0
      ensures ret >= 0 ==> exists fd :: fd in Live() && Live()[fd].0 < clock.now + (ret + 1) * MS
    {
      ghost var at, stop;
      fired, at, stop := Tick(clock);
      NoTimers(heap, fdHeapMap);
      if |heap| == 0 {
        return -1, fired;
      }
      FrontIsEarliest();
      var now := clock.Now();
      ret := InMs(heap[0].expires - now);
      ret := if ret > 0 then ret else 0;
    }
  }
}
