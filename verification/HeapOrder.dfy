/**
  The order and the index of the timer heap, on values.
 */
module HeapOrder {

  /** A timer; `cb` stands for the callback. */
  datatype TimerNode = TimerNode(fd: int, expires: int, cb: nat)

  type Heap = seq<TimerNode>

  function Parent(i: nat): nat
    requires i > 0
  {
    (i - 1) / 2
  }

  predicate OrderedAt(h: Heap, i: nat)
    requires 0 < i < |h|
  {
    h[Parent(i)].expires <= h[i].expires
  }

  predicate Ordered(h: Heap) {
    forall i :: 0 < i < |h| ==> OrderedAt(h, i)
  }

  /** The index maps exactly the descriptors in the heap, each to its position. */
  predicate Agrees(h: Heap, index: map<int, nat>) {
    && (forall i :: 0 <= i < |h| ==> h[i].fd in index && index[h[i].fd] == i)
    && (forall fd :: fd in index ==> index[fd] < |h| && h[index[fd]].fd == fd)
  }

  type Timers = map<int, (int, nat)>

  /** The live timers: deadline and callback of each descriptor. */
  function TimersOf(h: Heap, index: map<int, nat>): Timers
    requires Agrees(h, index)
  {
    map fd | fd in index :: (h[index[fd]].expires, h[index[fd]].cb)
  }

  function Swap(h: Heap, i: nat, j: nat): Heap
    requires i < |h| && j < |h|
  {
    h[i := h[j]][j := h[i]]
  }

  // ---------- Sifting ----------

  /** The heap is ordered wherever position `k` is not involved, and across it. */
  predicate OrderedAround(h: Heap, k: nat) {
    && (forall i :: 0 < i < |h| && i != k && Parent(i) != k ==> OrderedAt(h, i))
    && (0 < k < |h| ==> forall i :: 0 < i < |h| && Parent(i) == k ==> h[Parent(k)].expires <= h[i].expires)
  }

  /** No child of `k` is smaller. */
  predicate BelowChildren(h: Heap, k: nat)
    requires k < |h|
  {
    forall i :: 0 < i < |h| && Parent(i) == k ==> h[k].expires <= h[i].expires
  }

  predicate AboveParent(h: Heap, k: nat)
    requires k < |h|
  {
    k == 0 || h[Parent(k)].expires <= h[k].expires
  }

  /** The two comparisons of `Check_up_or_down`. */
  predicate CheckUp(h: Heap, k: nat)
    requires k < |h|
  {
    var child := 2 * k + 1;
    !((child < |h| && h[k].expires > h[child].expires) || (child + 1 < |h| && h[k].expires > h[child + 1].expires))
  }

  lemma ParentOfChildren(i: nat, k: nat)
    requires i > 0
    ensures Parent(i) == k <==> i == 2 * k + 1 || i == 2 * k + 2
  {
  }

  /** The test compares with every child there is. */
  lemma CheckIsBelowChildren(h: Heap, k: nat)
    requires k < |h|
    ensures CheckUp(h, k) <==> BelowChildren(h, k)
  {
    forall i | 0 < i < |h| ensures Parent(i) == k <==> i == 2 * k + 1 || i == 2 * k + 2 {
      ParentOfChildren(i, k);
    }
    if 2 * k + 1 < |h| { assert Parent(2 * k + 1) == k; }
    if 2 * k + 2 < |h| { assert Parent(2 * k + 2) == k; }
  }

  /** A node above a smaller child is not also below its parent: one direction of sifting is enough. */
  lemma OneDirection(h: Heap, k: nat)
    requires k < |h| && OrderedAround(h, k)
    ensures !CheckUp(h, k) ==> AboveParent(h, k)
    ensures Ordered(h) <==> CheckUp(h, k) && AboveParent(h, k)
  {
    CheckIsBelowChildren(h, k);
    if !CheckUp(h, k) {
      var i :| 0 < i < |h| && Parent(i) == k && h[k].expires > h[i].expires;
      assert !OrderedAt(h, i);
    }
    if Ordered(h) {
      assert k > 0 ==> OrderedAt(h, k);
      forall i | 0 < i < |h| && Parent(i) == k ensures h[k].expires <= h[i].expires {
        assert OrderedAt(h, i);
      }
    }
  }

  /** Changing one node disturbs the order around its position only. */
  lemma ChangedKey(h: Heap, k: nat, node: TimerNode)
    requires Ordered(h) && k < |h|
    ensures OrderedAround(h[k := node], k)
  {
    var h' := h[k := node];
    forall i | 0 < i < |h'| && i != k && Parent(i) != k ensures OrderedAt(h', i) {
      assert OrderedAt(h, i);
    }
    if k > 0 {
      forall i | 0 < i < |h'| && Parent(i) == k ensures h'[Parent(k)].expires <= h'[i].expires {
        assert OrderedAt(h, i) && OrderedAt(h, k);
      }
    }
  }

  lemma DroppedLast(h: Heap)
    requires Ordered(h) && h != []
    ensures Ordered(h[..|h| - 1])
  {
    var h' := h[..|h| - 1];
    forall i | 0 < i < |h'| ensures OrderedAt(h', i) {
      assert OrderedAt(h, i);
    }
  }

  lemma AppendedNode(h: Heap, node: TimerNode)
    requires Ordered(h)
    ensures OrderedAround(h + [node], |h|) && BelowChildren(h + [node], |h|)
  {
    var h' := h + [node];
    forall i | 0 < i < |h'| && i != |h| ensures OrderedAt(h', i) {
      assert OrderedAt(h, i);
    }
  }

  /** One step of sifting up. */
  lemma SiftUpStep(h: Heap, k: nat)
    requires 0 < k < |h| && OrderedAround(h, k) && BelowChildren(h, k)
    requires h[k].expires <= h[Parent(k)].expires
    ensures var h' := Swap(h, Parent(k), k);
            OrderedAround(h', Parent(k)) && BelowChildren(h', Parent(k))
  {
    var p := Parent(k);
    var h' := Swap(h, p, k);
    forall i | 0 < i < |h'| && Parent(i) == p ensures h'[p].expires <= h'[i].expires {
      if i != k {
        assert OrderedAt(h, i);
      }
    }
    forall i | 0 < i < |h'| && i != p && Parent(i) != p ensures OrderedAt(h', i) {
      if Parent(i) == k {
        assert h[p].expires <= h[i].expires;
      } else {
        assert OrderedAt(h, i);
      }
    }
    if p > 0 {
      assert OrderedAt(h, p);
      forall i | 0 < i < |h'| && Parent(i) == p ensures h'[Parent(p)].expires <= h'[i].expires {
        if i != k {
          assert OrderedAt(h, i);
        }
      }
    }
  }

  lemma SmallerChild(h: Heap, k: nat, c: nat)
    requires k < |h| && c < |h| && (c == 2 * k + 1 || c == 2 * k + 2)
    requires h[c].expires <= h[2 * k + 1].expires && (2 * k + 2 < |h| ==> h[c].expires <= h[2 * k + 2].expires)
    ensures Parent(c) == k
    ensures forall i :: 0 < i < |h| && Parent(i) == k ==> h[c].expires <= h[i].expires
  {
    forall i | 0 < i < |h| && Parent(i) == k ensures h[c].expires <= h[i].expires {
      ParentOfChildren(i, k);
    }
  }

  /** One step of sifting down: `c` is the smaller child. */
  lemma SiftDownStep(h: Heap, k: nat, c: nat)
    requires k < |h| && OrderedAround(h, k) && AboveParent(h, k)
    requires 0 < c < |h| && Parent(c) == k && h[c].expires <= h[k].expires
    requires forall i :: 0 < i < |h| && Parent(i) == k ==> h[c].expires <= h[i].expires
    ensures var h' := Swap(h, c, k);
            OrderedAround(h', c) && AboveParent(h', c)
  {
    var h' := Swap(h, c, k);
    forall i | 0 < i < |h'| && i != c && Parent(i) != c ensures OrderedAt(h', i) {
      if i == k {
        assert h[Parent(k)].expires <= h[c].expires;
      } else if Parent(i) == k {
        assert h[c].expires <= h[i].expires;
      } else {
        assert OrderedAt(h, i);
      }
    }
    forall i | 0 < i < |h'| && Parent(i) == c ensures h'[Parent(c)].expires <= h'[i].expires {
      assert OrderedAt(h, i);
    }
  }

  /** Sifting down ends: `c` is the smaller child and larger than its parent, or there is no child. */
  lemma SiftDownStops(h: Heap, k: nat, c: nat)
    requires k < |h| && OrderedAround(h, k) && AboveParent(h, k)
    requires c == 2 * k + 1 || (c == 2 * k + 2 && c < |h|)
    requires c < |h| ==> h[c].expires > h[k].expires && h[c].expires <= h[2 * k + 1].expires
    requires c < |h| && 2 * k + 2 < |h| ==> h[c].expires <= h[2 * k + 2].expires
    ensures Ordered(h)
  {
    OneDirection(h, k);
  }

  /** The root is the earliest deadline. */
  lemma {:induction false} RootIsEarliest(h: Heap, i: nat)
    requires Ordered(h) && i < |h|
    ensures h[0].expires <= h[i].expires
  {
    if i > 0 {
      assert OrderedAt(h, i);
      RootIsEarliest(h, Parent(i));
    }
  }

  // ---------- The index ----------

  /** What `SwapNode` has to leave in the index. */
  function SwapIndex(h: Heap, index: map<int, nat>, i: nat, j: nat): map<int, nat>
    requires i < |h| && j < |h|
  {
    var h' := Swap(h, i, j);
    index[h'[i].fd := i][h'[j].fd := j]
  }

  lemma SwapKeepsTimers(h: Heap, index: map<int, nat>, i: nat, j: nat)
    requires i < |h| && j < |h| && Agrees(h, index)
    ensures Agrees(Swap(h, i, j), SwapIndex(h, index, i, j))
    ensures TimersOf(Swap(h, i, j), SwapIndex(h, index, i, j)) == TimersOf(h, index)
  {
    var h', index' := Swap(h, i, j), SwapIndex(h, index, i, j);
    assert h[i].fd in index && h[j].fd in index;
    assert index'.Keys == index.Keys;
    forall fd | fd in index'
      ensures index'[fd] < |h'| && h'[index'[fd]].fd == fd && h'[index'[fd]] == h[index[fd]]
    {
    }
  }

  lemma DropLastTimer(h: Heap, index: map<int, nat>)
    requires h != [] && Agrees(h, index)
    ensures var last := h[|h| - 1].fd;
            && Agrees(h[..|h| - 1], index - {last})
            && TimersOf(h[..|h| - 1], index - {last}) == TimersOf(h, index) - {last}
  {
    var last := h[|h| - 1].fd;
    var h', index' := h[..|h| - 1], index - {last};
    assert Agrees(h', index');
    assert TimersOf(h', index').Keys == (TimersOf(h, index) - {last}).Keys;
    forall fd | fd in index' ensures h'[index'[fd]] == h[index[fd]] {
    }
  }

  lemma ChangedTimer(h: Heap, index: map<int, nat>, k: nat, node: TimerNode)
    requires Agrees(h, index) && k < |h| && node.fd == h[k].fd
    ensures Agrees(h[k := node], index)
    ensures TimersOf(h[k := node], index) == TimersOf(h, index)[node.fd := (node.expires, node.cb)]
  {
    var h' := h[k := node];
    assert h[k].fd in index;
    forall fd | fd in index && fd != node.fd ensures h'[index[fd]] == h[index[fd]] {
    }
  }

  lemma AddedTimer(h: Heap, index: map<int, nat>, node: TimerNode)
    requires Agrees(h, index) && node.fd !in index
    ensures Agrees(h + [node], index[node.fd := |h|])
    ensures TimersOf(h + [node], index[node.fd := |h|]) == TimersOf(h, index)[node.fd := (node.expires, node.cb)]
  {
    var h', index' := h + [node], index[node.fd := |h|];
    assert Agrees(h', index');
    forall fd | fd in index ensures h'[index'[fd]] == h[index[fd]] {
    }
  }

  /** Exchanging a node with the last one and dropping that. */
  lemma RemovedNode(h: Heap, k: nat)
    requires Ordered(h) && k < |h|
    ensures var h' := Swap(h, k, |h| - 1)[..|h| - 1];
            if k == |h| - 1 then Ordered(h') else OrderedAround(h', k)
  {
    var n := |h| - 1;
    DroppedLast(h);
    var h' := Swap(h, k, n)[..n];
    if k == n {
      assert h' == h[..n];
    } else {
      ChangedKey(h[..n], k, h[n]);
      assert h' == h[..n][k := h[n]];
    }
  }

  lemma NoTimers(h: Heap, index: map<int, nat>)
    requires Agrees(h, index)
    ensures h == [] <==> TimersOf(h, index) == map[]
  {
    if h == [] {
      assert forall fd :: fd in index ==> index[fd] < |h|;
      assert index.Keys == {};
    } else {
      assert h[0].fd in TimersOf(h, index);
    }
  }
}
